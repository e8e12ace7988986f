/**
  The cache behind redis.Collections as a map. The in-memory mock of the tests keeps an entry for
  ever; Redis lets it expire as the ttl argument asks. One flag tells the two apart.
 */
module MockCaches {
  import opened Wrappers

  // A Go interface{} argument: only strings and byte slices are stored.
  datatype Value = Text(text: string) | Blob(text: string) | Other

  datatype Item = Item(text: string, expires: int)

  predicate Alive(expiring: bool, store: map<string, Item>, key: string, now: int) {
    key in store && (expiring ==> now < store[key].expires)
  }

  function Members(keys: seq<string>): set<string> {
    set k | k in keys
  }

  class MockCache {
    const expiring: bool
    var store: map<string, Item>

    constructor (expiring: bool)
      ensures this.expiring == expiring && store == map[]
    {
      this.expiring, store := expiring, map[];
    }

    method Set(key: string, value: Value, ttl: int, now: int)
      modifies this
      ensures store == if value.Other? then old(store) else old(store)[key := Item(value.text, now + ttl)]
    {
      match value {
        case Text(v) => store := store[key := Item(v, now + ttl)];
        case Blob(v) => store := store[key := Item(v, now + ttl)];
        case Other =>
      }
    }

    method Get(key: string, now: int) returns (r: Option<string>)
      ensures r == if Alive(expiring, store, key, now) then Some(store[key].text) else None
    {
      if Alive(expiring, store, key, now) {
        return Some(store[key].text);
      }
      return None;
    }

    // Sets only an absent or expired key.
    method SetNX(key: string, value: Value, ttl: int, now: int) returns (set_: bool)
      modifies this
      ensures set_ <==> !Alive(expiring, old(store), key, now)
      ensures store == if set_ && !value.Other? then old(store)[key := Item(value.text, now + ttl)] else old(store)
    {
      if Alive(expiring, store, key, now) {
        return false;
      }
      match value {
        case Text(v) => store := store[key := Item(v, now + ttl)];
        case Blob(v) => store := store[key := Item(v, now + ttl)];
        case Other =>
      }
      return true;
    }

    method Del(keys: seq<string>)
      modifies this
      ensures store == old(store) - Members(keys)
    {
      for i := 0 to |keys|
        invariant store == old(store) - Members(keys[..i])
      {
        assert Members(keys[..i + 1]) == Members(keys[..i]) + {keys[i]};
        store := store - {keys[i]};
      }
      assert keys[..|keys|] == keys;
    }
  }
}
