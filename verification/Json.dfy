/** JSON and YAML documents as trees, the form Helm values, manifests and chart values share. */
module Json {
  datatype Json =
    | Null
    | Bool(flag: bool)
    | Int(number: int)
    | Real(fraction: real)
    | Str(text: string)
    | Arr(elems: seq<Json>)
    | Obj(fields: map<string, Json>)

  type Values = map<string, Json>
}
