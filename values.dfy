/** What a record holds: a flat mapping from string keys to pickled Python values. */
module Values {

  /** A value the store keeps for a key. The engine never looks inside it. */
  datatype Value =
    | PyNone
    | Bool(b: bool)
    | Int(i: int)
    | Str(s: string)
    | List(items: seq<Value>)
    | Dict(entries: map<string, Value>)

  /** An entity's record as `pickle.load` returns it. */
  type Record = map<string, Value>

  /** The reserved key under which every record stores its own entity name. */
  const NameKey: string := "__name__"

  /** Keys starting with `_` are private: `find` never reports them. */
  predicate IsPrivate(key: string) {
    |key| > 0 && key[0] == '_'
  }

  /** The record of an entity that has no data: only its name. */
  function BaseRecord(name: string): (rec: Record)
    ensures rec.Keys == {NameKey} && rec[NameKey] == Str(name)
  {
    map[NameKey := Str(name)]
  }
}
