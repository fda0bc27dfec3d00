/** JSON values as `JSON.parse` returns them. A number carries the text `String` prints for it. */
module JsonValues {
  import opened Wrappers
  import opened CodeUnits

  datatype Json =
    | Null
    | Bool(b: bool)
    | Num(printed: Text)
    | Str(text: Text)
    | Arr(items: seq<Json>)
    | Obj(members: map<Text, Json>)

  /** Property access; None is `undefined`, also for a value that is no object. */
  function Get(value: Json, key: Text): Option<Json> {
    if value.Obj? && key in value.members then Some(value.members[key]) else None
  }
}
