/**
 * The in-memory key-value table of app/database.ts: a map from keys to
 * stored values, read and written one key at a time.
 */
module Database {
  import opened Wrappers

  /** A stored value: its text, its creation time and an optional expiry
      interval in milliseconds, which the table stores but never reads. */
  datatype Value = Value(data: string, createAt: int, px: Option<int>)

  /** `makeValue`: the record of the three fields; `px` is None unless given. */
  function MakeValue(data: string, createAt: int, px: Option<int> := None): (v: Value)
    ensures v.data == data && v.createAt == createAt && v.px == px
  {
    Value(data, createAt, px)
  }

  /** Omitting `px` gives a value that never expires. */
  lemma MakeValueDefault(data: string, createAt: int)
    ensures MakeValue(data, createAt).px == None
    ensures MakeValue(data, createAt) == MakeValue(data, createAt, None)
  {
  }

  /** The module-level `database` Map. */
  class Store {
    var entries: map<string, Value>

    /** A new table holds no key. */
    constructor ()
      ensures entries == map[]
      ensures forall key :: GetByKey(key).None?
    {
      entries := map[];
    }

    /** `getByKey`: the value stored under `key`, or nothing (`undefined`)
        when the key was never set. Reading changes nothing. */
    function GetByKey(key: string): (r: Option<Value>)
      reads this
      ensures r.Some? <==> key in entries
      ensures r.Some? ==> r.value == entries[key]
    {
      if key in entries then Some(entries[key]) else None
    }

    /** `setByKey`: store `value` under `key`, replacing any earlier value;
        every other key keeps what it had. */
    method SetByKey(key: string, value: Value)
      modifies this
      ensures entries == old(entries)[key := value]
      ensures GetByKey(key) == Some(value)
      ensures forall k :: k != key ==> GetByKey(k) == old(GetByKey(k))
      ensures entries.Keys == old(entries.Keys) + {key}
    {
      entries := entries[key := value];
    }
  }
}
