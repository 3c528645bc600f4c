/** The key-value store that holds teacher accounts: keys `teacher:<username>`
 *  mapped to hashes of string fields. Only the commands the routes issue are
 *  modelled: `exists`, `hSet`, `hGetAll`, `type` and `keys` with a prefix
 *  pattern. A key may also hold a value of another type, which the teacher
 *  list skips and on which `hSet` and `hGetAll` fail with WRONGTYPE. */
module KeyValue {
  import opened Common

  datatype KvValue = HashValue(fields: map<string, string>) | OtherValue(kind: string)

  function TeacherKey(username: string): string {
    "teacher:" + username
  }

  /** The fields of a key as `hGetAll` returns them: `{}` for a missing key,
   *  `None` for the WRONGTYPE error on a key that is not a hash. */
  function HGetAll(entries: map<string, KvValue>, key: string): (r: Option<map<string, string>>)
    ensures key !in entries ==> r == Some(map[])
    ensures key in entries ==> (r.Some? <==> entries[key].HashValue?)
    ensures key in entries && entries[key].HashValue? ==> r == Some(entries[key].fields)
  {
    if key !in entries then Some(map[])
    else
      match entries[key]
      case HashValue(fields) => Some(fields)
      case OtherValue(_) => None
  }

  /** A field of an `hGetAll` result; a missing field reads as "" (falsy). */
  function Field(fields: map<string, string>, name: string): string {
    if name in fields then fields[name] else ""
  }

  /** A missing field as JSON leaves it out: `None`. */
  function OptionalField(fields: map<string, string>, name: string): Option<string> {
    if name in fields then Some(fields[name]) else None
  }

  class KeyValueStore {
    var entries: map<string, KvValue>

    constructor ()
      ensures entries == map[]
    {
      entries := map[];
    }

    /** `hSet(key, field, value)`: creates the hash when the key is absent,
     *  sets one field of it otherwise, and fails on a key of another type. */
    method HSet(key: string, field: string, value: string) returns (ok: bool)
      modifies this
      ensures ok == (key !in old(entries) || old(entries)[key].HashValue?)
      ensures ok ==> entries == old(entries)[key := HashValue(
                      (if key in old(entries) then old(entries)[key].fields else map[])[field := value])]
      ensures !ok ==> entries == old(entries)
    {
      ok := key !in entries || entries[key].HashValue?;
      if ok {
        var fields := if key in entries then entries[key].fields else map[];
        entries := entries[key := HashValue(fields[field := value])];
      }
    }

    /** `keys(prefix + "*")`: every key that starts with the prefix, once each,
     *  in an order the store chooses. */
    method KeysWithPrefix(prefix: string) returns (keys: seq<string>)
      ensures NoDuplicates(keys)
      ensures forall k :: k in keys <==> k in entries && StartsWith(k, prefix)
    {
      var remaining := set k | k in entries && StartsWith(k, prefix);
      keys := [];
      while remaining != {}
        invariant NoDuplicates(keys)
        invariant forall k :: k in keys ==> k !in remaining
        invariant forall k :: k in keys || k in remaining <==> k in entries && StartsWith(k, prefix)
        decreases |remaining|
      {
        var k :| k in remaining;
        keys := keys + [k];
        remaining := remaining - {k};
      }
    }
  }
}
