/**
 * internal/registry/registry.go: a plain map from keys to values. Unlike
 * the repository it accepts every key, the empty one included, and reports
 * outcomes as booleans instead of errors.
 */
module Registry {

  /** The registry: the Go map type the methods receive. */
  class Registry<T(0)> {
    var entries: map<string, T>

    /** `New`: an empty registry. */
    constructor ()
      ensures entries == map[]
    {
      entries := map[];
    }

    /**
     * `Get`: the stored value and `true` exactly when the key is present;
     * otherwise `false` with Go's zero value, which the model leaves unspecified.
     */
    method Get(key: string) returns (v: T, ok: bool)
      ensures ok <==> key in entries
      ensures ok ==> v == entries[key]
    {
      if key in entries {
        return entries[key], true;
      }
      var zero: T := *;
      return zero, false;
    }

    /**
     * `Create`: an absent key is inserted and `(value, true)` returned; a
     * present key keeps its value, which is returned with `false`.
     */
    method Create(key: string, value: T) returns (v: T, ok: bool)
      modifies this
      ensures ok <==> key !in old(entries)
      ensures ok ==> v == value && entries == old(entries)[key := value]
      ensures ok ==> |entries| == |old(entries)| + 1
      ensures !ok ==> v == old(entries)[key] && entries == old(entries)
    {
      if key in entries {
        return entries[key], false;
      } else {
        entries := entries[key := value];
        assert entries.Keys == old(entries).Keys + {key};
        return value, true;
      }
    }

    /** `Put`: binds the key to the value, replacing any old value, and returns the value. */
    method Put(key: string, value: T) returns (v: T)
      modifies this
      ensures v == value && entries == old(entries)[key := value]
    {
      entries := entries[key := value];
      return value;
    }

    /** `Delete`: removes a present key and says so; an absent key changes nothing. */
    method Delete(key: string) returns (ok: bool)
      modifies this
      ensures ok <==> key in old(entries)
      ensures ok ==> entries == old(entries) - {key} && |entries| == |old(entries)| - 1
      ensures !ok ==> entries == old(entries)
    {
      if key in entries {
        assert (entries - {key}).Keys == entries.Keys - {key};
        entries := entries - {key};
        return true;
      } else {
        return false;
      }
    }
  }

  /**
   * The sequence of calls in registry_test.go on a fresh registry of
   * integers, with the sizes, values and flags it checks along the way.
   */
  method RegistryScenario() returns (sizes: seq<nat>, values: seq<int>, oks: seq<bool>)
    ensures sizes == [0, 1, 1, 0, 0]
    ensures values == [1, 1, 1, 1, 2]
    ensures oks == [true, false, true, false, false]
  {
    var reg := new Registry<int>();
    sizes := [|reg.entries|];
    var v, ok := reg.Create("key1", 1);
    sizes := sizes + [|reg.entries|];
    values := [v];
    oks := [ok];
    v, ok := reg.Get("key1");
    values := values + [v];
    v, ok := reg.Create("key1", 2);
    sizes := sizes + [|reg.entries|];
    oks := oks + [ok];
    v, ok := reg.Get("key1");
    values := values + [v];
    ok := reg.Delete("key1");
    sizes := sizes + [|reg.entries|];
    oks := oks + [ok];
    v, ok := reg.Get("key1");
    oks := oks + [ok];
    ok := reg.Delete("key1");
    sizes := sizes + [|reg.entries|];
    oks := oks + [ok];
    v := reg.Put("key1", 1);
    v, ok := reg.Get("key1");
    values := values + [v];
    v := reg.Put("key1", 2);
    v, ok := reg.Get("key1");
    values := values + [v];
  }
}
