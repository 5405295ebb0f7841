/** Sets of names kept as comma-separated text (pkg/csset/csset.go). */
module CommaSets {
  import opened Strings

  /** The set a text stands for. */
  function NamesOf(text: string): set<string> {
    if text == "" then {} else set p | p in Split(text, ',')
  }

  ghost predicate CommaFree(names: set<string>) {
    forall n :: n in names ==> Free(n, ',')
  }

  lemma NamesAreCommaFree(text: string)
    ensures CommaFree(NamesOf(text))
  {
    SplitIsFree(text, ',');
  }

  /** Printing a set in any order and reading it back gives the same set, except
      for the set that holds nothing but the empty name. */
  lemma PrintedSetReadsBack(order: seq<string>, names: set<string>)
    requires Enumerates(order, names) && CommaFree(names)
    ensures NamesOf(Join(order, ',')) == names <==> names != {""}
    ensures Join(order, ',') == "" <==> names <= {""}
  {
    var text := Join(order, ',');
    if order == [] {
      assert names == {};
    } else {
      SplitOfJoin(order, ',');
      assert forall i :: 0 <= i < |order| ==> order[i] in names;
      assert names <= {""} ==> order == [""];
      if text == "" {
        assert order == Split("", ',') == [""];
        assert "" in order;
      } else {
        assert forall n :: n in names <==> n in Split(text, ',');
      }
    }
  }

  /** The set as the source keeps it. */
  class CSSet {
    var names: set<string>

    constructor (text: string)
      ensures names == NamesOf(text)
    {
      names := {};
      new;
      if text != "" {
        var parts := Split(text, ',');
        for i := 0 to |parts|
          invariant names == set p | p in parts[..i]
        {
          Add(parts[i]);
          assert parts[..i + 1] == parts[..i] + [parts[i]];
        }
        assert parts[..|parts|] == parts;
      }
    }

    method Add(value: string)
      modifies this
      ensures names == old(names) + {value}
    {
      names := names + {value};
    }

    method Del(value: string)
      modifies this
      ensures names == old(names) - {value}
    {
      names := names - {value};
    }

    method Has(value: string) returns (found: bool)
      ensures found <==> value in names
    {
      found := value in names;
    }

    method String() returns (text: string)
      ensures exists order :: Enumerates(order, names) && text == Join(order, ',')
    {
      var out: seq<string> := [];
      var rest := names;
      while rest != {}
        invariant rest <= names && Enumerates(out, names - rest)
        decreases rest
      {
        var key :| key in rest;
        out := out + [key];
        rest := rest - {key};
      }
      text := Join(out, ',');
      assert names - rest == names;
    }
  }
}
