/** The shape of the Python objects the two scripts handle: feed entries as
    the feed library returns them, and the plain copies stored in the
    database. */
module Values {
  import opened Wrappers

  /** A dictionary is either the feed library's own dictionary class or a
      plain `dict`; both answer `isinstance(d, dict)`. */
  datatype Kind = FeedDict | PlainDict

  datatype Value =
    | Dict(kind: Kind, fields: map<string, Value>)
    | List(items: seq<Value>)
    | Str(text: string)
    | Int(number: int)
    /** Any other object (None, a bool, a float, a time tuple), kept as is. */
    | Other(tag: string)

  /** `v[key]` on a dictionary; `None` stands for the KeyError or TypeError
      Python raises otherwise. */
  function Get(v: Value, key: string): Option<Value>
  {
    if v.Dict? && key in v.fields then Some(v.fields[key]) else None
  }
}
