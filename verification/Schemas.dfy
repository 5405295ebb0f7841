/** JSON Schema inference from a values file (scripts/generate_schema.py), without
    an old schema and without prompting. */
module Schemas {
  import opened Wrappers
  import opened Json
  import opened Strings
  import opened Bundles

  datatype Type = ObjectType | ArrayType | BooleanType | IntegerType | NumberType | StringType | NullType

  /** The keywords of a schema that assert something; an absent anyOf is empty. */
  datatype Schema = Schema(
    kind: Option<Type>,
    required: seq<string>,
    additionalProperties: bool,
    properties: map<string, Schema>,
    items: Option<Schema>,
    anyOf: seq<Schema>)

  function OfType(t: Type): Schema {
    Schema(Some(t), [], true, map[], None, [])
  }

  // --------------------------------------------------------------- validation

  predicate HasType(t: Type, v: Json) {
    match t
    case ObjectType => v.Obj?
    case ArrayType => v.Arr?
    case BooleanType => v.Bool?
    case IntegerType => v.Int? || (v.Real? && v.fraction.Floor as real == v.fraction)
    case NumberType => v.Int? || v.Real?
    case StringType => v.Str?
    case NullType => v.Null?
  }

  /** Validation: anyOf by section 9.2.1.2 of JSON Schema Core draft 2019-09,
      items by 9.3.1.1, properties by 9.3.2.1. */
  predicate Validates(s: Schema, v: Json) {
    && (s.kind.Some? ==> HasType(s.kind.value, v))
    && (s.anyOf == [] || exists i :: 0 <= i < |s.anyOf| && Validates(s.anyOf[i], v))
    && (v.Obj? ==>
          && (forall k :: k in s.required ==> k in v.fields)
          && (forall k :: k in s.properties && k in v.fields ==> Validates(s.properties[k], v.fields[k]))
          && (s.additionalProperties || forall k :: k in v.fields ==> k in s.properties))
    && (v.Arr? && s.items.Some? ==> forall i :: 0 <= i < |v.elems| ==> Validates(s.items.value, v.elems[i]))
  }

  // --------------------------------------------------------------- generation

  function Lower(s: string): (r: string) {
    seq(|s|, i requires 0 <= i < |s| => FoldChar(s[i]))
  }

  function GuessType(key: string): Type {
    var k := Lower(key);
    if EndsWith(k, "port") || EndsWith(k, "seconds") || Contains(k, "timeout") then IntegerType
    else if EndsWith(k, "ranges") || EndsWith(k, "ips") || EndsWith(k, "list") then ArrayType
    else StringType
  }

  lemma LowerOfConcat(a: string, b: string)
    ensures Lower(a + b) == Lower(a) + Lower(b)
  {
  }

  lemma LowerSuffix(a: string, b: string, low: string)
    requires Lower(b) == low
    ensures EndsWith(Lower(a + b), low)
  {
    LowerOfConcat(a, b);
    assert (Lower(a) + low)[|a|..] == low;
  }

  lemma LastTwo(k: string, suffix: string)
    requires EndsWith(k, suffix) && |suffix| >= 2
    ensures |k| >= 2 && k[|k| - 2] == suffix[|suffix| - 2] && k[|k| - 1] == suffix[|suffix| - 1]
  {
  }

  lemma ArraySuffix(key: string, suffix: string, low: string)
    requires Lower(suffix) == low && low in {"ranges", "ips", "list"}
    ensures GuessType(key + suffix) == if Contains(Lower(key + suffix), "timeout") then IntegerType else ArrayType
  {
    hide Contains, Lower;
    var k := Lower(key + suffix);
    LowerSuffix(key, suffix, low);
    hide EndsWith;
    LastTwo(k, low);
    if EndsWith(k, "port") { LastTwo(k, "port"); }
    if EndsWith(k, "seconds") { LastTwo(k, "seconds"); }
  }

  lemma LowerArraySuffixes()
    ensures Lower("Ranges") == "ranges" && Lower("IPs") == "ips" && Lower("List") == "list"
  {
  }

  /** Lists and ranges are arrays unless the key speaks of a timeout. */
  lemma GuessedArrays(key: string, suffix: string)
    requires suffix in {"Ranges", "IPs", "List"}
    ensures GuessType(key + suffix) == if Contains(Lower(key + suffix), "timeout") then IntegerType else ArrayType
  {
    LowerArraySuffixes();
    ArraySuffix(key, suffix, Lower(suffix));
  }

  /** Ports, seconds and whatever speaks of a timeout are integers. */
  lemma GuessedIntegers(key: string, rest: string)
    ensures GuessType(key + "Port") == IntegerType && GuessType(key + "Seconds") == IntegerType
    ensures GuessType(key + "Timeout" + rest) == IntegerType
  {
    hide Contains;
    LowerSuffix(key, "Port", "port");
    LowerSuffix(key, "Seconds", "seconds");
    LowerOfConcat(key, "Timeout");
    LowerOfConcat(key + "Timeout", rest);
    assert Lower("Timeout") == "timeout";
    ContainsItself("timeout");
    ContainsAnywhere(Lower(key), "timeout", Lower(rest), "timeout");
  }

  lemma ContainsItself(s: string)
    ensures Contains(s, s)
  {
    assert s[0..] == s;
  }

  /** Every other key is a text, and only such a key is. */
  lemma GuessedTextsIff(key: string)
    ensures GuessType(key) == StringType <==>
            && (forall s :: s in {"port", "seconds", "ranges", "ips", "list"} ==> !EndsWith(Lower(key), s))
            && !Contains(Lower(key), "timeout")
  {
    hide EndsWith, Contains, Lower;
  }

  /** Capitals make no difference. */
  lemma GuessIgnoresCase(key: string)
    ensures GuessType(Lower(key)) == GuessType(key)
  {
    assert Lower(Lower(key)) == Lower(key);
  }

  /** The schema generated for a value under a key. None is the KeyError on an
      array whose first element has a schema without a type. */
  function Generate(v: Json, key: string): Option<Schema>
    decreases v
  {
    match v
    case Obj(m) =>
      if forall k :: k in m ==> Generate(m[k], k).Some?
      then Some(OfType(ObjectType).(properties := map k | k in m :: Generate(m[k], k).value))
      else None
    case Arr(a) =>
      if a == [] then Some(OfType(ArrayType))
      else
        var item := Generate(a[0], "");
        if item.None? || item.value.kind.None? then None
        else if item.value.kind == Some(ObjectType) then Some(OfType(ArrayType).(items := item))
        else Some(OfType(ArrayType).(items := Some(OfType(item.value.kind.value))))
    case Bool(_) => Some(OfType(BooleanType))
    case Int(_) => Some(OfType(IntegerType))
    case Real(_) => Some(OfType(NumberType))
    case Str(_) => Some(OfType(StringType))
    case Null => Some(Schema(None, [], true, map[], None, [OfType(GuessType(key)), OfType(NullType)]))
  }

  // -------------------------------------------------------------- correctness

  /** No array that generation visits starts with null. */
  predicate StartsNonNull(v: Json) {
    match v
    case Obj(m) => forall k :: k in m ==> StartsNonNull(m[k])
    case Arr(a) => a == [] || (!a[0].Null? && StartsNonNull(a[0]))
    case _ => true
  }

  function KindOf(v: Json): Option<Type> {
    match v
    case Obj(_) => Some(ObjectType)
    case Arr(_) => Some(ArrayType)
    case Bool(_) => Some(BooleanType)
    case Int(_) => Some(IntegerType)
    case Real(_) => Some(NumberType)
    case Str(_) => Some(StringType)
    case Null => None
  }

  /** Generation succeeds exactly on values without an array that starts with null. */
  lemma {:induction false} GeneratesIff(v: Json, key: string)
    ensures Generate(v, key).Some? <==> StartsNonNull(v)
    ensures Generate(v, key).Some? ==> Generate(v, key).value.kind == KindOf(v)
  {
    match v
    case Obj(m) =>
      forall k | k in m ensures Generate(m[k], k).Some? <==> StartsNonNull(m[k]) { GeneratesIff(m[k], k); }
    case Arr(a) => if a != [] { GeneratesIff(a[0], ""); }
    case _ =>
  }

  /** Whether y has the form that x, as an example under a key, prescribes. */
  predicate Fits(x: Json, y: Json, key: string)
    decreases x, 0
  {
    match x
    case Obj(m) => y.Obj? && forall k :: k in m && k in y.fields ==> Fits(m[k], y.fields[k], k)
    case Arr(a) =>
      y.Arr? && (a == [] || forall i :: 0 <= i < |y.elems| ==> FitsItem(a[0], y.elems[i]))
    case Null => y.Null? || HasType(GuessType(key), y)
    case _ => HasType(KindOf(x).value, y)
  }

  /** Array elements fit the first one; only objects are compared in depth. */
  predicate FitsItem(first: Json, e: Json)
    decreases first, 1
  {
    if first.Obj? then Fits(first, e, "") else KindOf(first).Some? ==> HasType(KindOf(first).value, e)
  }

  lemma PlainTypeValidates(t: Type, v: Json)
    ensures Validates(OfType(t), v) <==> HasType(t, v)
  {
  }

  /** A generated schema accepts exactly the values that fit the example. */
  lemma {:induction false} ValidatesIffFits(x: Json, y: Json, key: string)
    requires StartsNonNull(x)
    ensures Generate(x, key).Some?
    ensures Validates(Generate(x, key).value, y) <==> Fits(x, y, key)
    decreases x, 1
  {
    GeneratesIff(x, key);
    var s := Generate(x, key).value;
    match x
    case Obj(m) => ObjectIffFits(x, y, key);
    case Arr(a) => ArrayIffFits(x, y, key);
    case Null =>
      PlainTypeValidates(GuessType(key), y);
      PlainTypeValidates(NullType, y);
      assert s.anyOf[0] == OfType(GuessType(key)) && s.anyOf[1] == OfType(NullType);
    case _ => PlainTypeValidates(KindOf(x).value, y);
  }

  lemma {:induction false} ObjectIffFits(x: Json, y: Json, key: string)
    requires x.Obj? && StartsNonNull(x) && Generate(x, key).Some?
    ensures Validates(Generate(x, key).value, y) <==> Fits(x, y, key)
    decreases x, 0
  {
    if y.Obj? {
      var s, m := Generate(x, key).value, x.fields;
      forall k | k in m && k in y.fields
        ensures Validates(s.properties[k], y.fields[k]) <==> Fits(m[k], y.fields[k], k)
      {
        ValidatesIffFits(m[k], y.fields[k], k);
      }
    }
  }

  lemma {:induction false} ArrayIffFits(x: Json, y: Json, key: string)
    requires x.Arr? && StartsNonNull(x) && Generate(x, key).Some?
    ensures Validates(Generate(x, key).value, y) <==> Fits(x, y, key)
    decreases x, 0
  {
    var s, a := Generate(x, key).value, x.elems;
    if a != [] && y.Arr? {
      GeneratesIff(a[0], "");
      forall i | 0 <= i < |y.elems|
        ensures Validates(s.items.value, y.elems[i]) <==> FitsItem(a[0], y.elems[i])
      {
        if a[0].Obj? {
          ValidatesIffFits(a[0], y.elems[i], "");
        } else {
          PlainTypeValidates(KindOf(a[0]).value, y.elems[i]);
        }
      }
    }
  }

  /** In every array of the value, the elements fit the first one. */
  predicate Uniform(v: Json) {
    match v
    case Obj(m) => forall k :: k in m ==> Uniform(m[k])
    case Arr(a) => a == [] || forall i :: 0 <= i < |a| ==> FitsItem(a[0], a[i])
    case _ => true
  }

  lemma {:induction false} FitsItselfIffUniform(v: Json, key: string)
    ensures Fits(v, v, key) <==> Uniform(v)
  {
    match v
    case Obj(m) =>
      forall k | k in m ensures Fits(m[k], m[k], k) <==> Uniform(m[k]) { FitsItselfIffUniform(m[k], k); }
    case _ =>
  }

  /** Schema soundness: a value validates against its own schema exactly when the
      elements of each of its arrays fit the first one. */
  lemma OwnSchemaAcceptsIffUniform(v: Json, key: string)
    requires StartsNonNull(v)
    ensures Generate(v, key).Some?
    ensures Validates(Generate(v, key).value, v) <==> Uniform(v)
  {
    ValidatesIffFits(v, v, key);
    FitsItselfIffUniform(v, key);
  }

  /** Equal keys and equal kinds, at every depth of objects, and arrays that start alike. */
  predicate SameShape(x: Json, y: Json) {
    match x
    case Obj(m) => y.Obj? && m.Keys == y.fields.Keys && forall k :: k in m ==> SameShape(m[k], y.fields[k])
    case Arr(a) => y.Arr? && forall i :: 0 <= i < |y.elems| ==> a != [] && SameShape(a[0], y.elems[i])
    case _ => KindOf(x) == KindOf(y)
  }

  lemma {:induction false} ShapeFits(x: Json, y: Json, key: string)
    requires SameShape(x, y)
    ensures Fits(x, y, key)
  {
    match x
    case Obj(m) => forall k | k in m ensures Fits(m[k], y.fields[k], k) { ShapeFits(m[k], y.fields[k], k); }
    case Arr(a) =>
      if a != [] {
        forall i | 0 <= i < |y.elems| ensures FitsItem(a[0], y.elems[i]) { ShapeFits(a[0], y.elems[i], ""); }
      }
    case _ =>
  }

  /** All arrays hold elements of the shape of their first one. */
  predicate Regular(v: Json) {
    match v
    case Obj(m) => forall k :: k in m ==> Regular(m[k])
    case Arr(a) => forall i :: 0 <= i < |a| ==> SameShape(a[0], a[i])
    case _ => true
  }

  /** In particular a value with regular arrays is accepted. */
  lemma {:induction false} RegularIsUniform(v: Json)
    requires Regular(v)
    ensures Uniform(v)
  {
    match v
    case Obj(m) => forall k | k in m ensures Uniform(m[k]) { RegularIsUniform(m[k]); }
    case Arr(a) => forall i | 0 <= i < |a| ensures FitsItem(a[0], a[i]) { ShapeFits(a[0], a[i], ""); }
    case _ =>
  }

  /** A mixed array is rejected by its own schema, and one that starts with null has none. */
  lemma MixedArraysFail()
    ensures !Validates(Generate(Arr([Int(1), Str("a")]), "").value, Arr([Int(1), Str("a")]))
    ensures Generate(Arr([Null, Int(1)]), "").None?
  {
    var v := Arr([Int(1), Str("a")]);
    assert !FitsItem(v.elems[0], v.elems[1]);
    OwnSchemaAcceptsIffUniform(v, "");
    GeneratesIff(Arr([Null, Int(1)]), "");
  }
}
