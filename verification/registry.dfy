/** The two instances of the map that `kdb.h` declares: the handle registry,
    from a store's name to its handle, with 32 slots, and the value cache, from
    an unsigned integer to a sample value, with 64 slots. A handle is modelled
    by its identity, a natural number standing for its address. */
module Registry {
  import opened Options
  import opened Ints
  import HashMap

  const DBS_CAPACITY: nat := 32
  const CACHE_CAPACITY: nat := 64

  /** A handle, by identity: the registry stores addresses and never looks inside. */
  type HandleRef = nat

  /** The sum of the bytes of a string. */
  function ByteSum(s: string): nat {
    if |s| == 0 then 0 else ByteSum(s[..|s| - 1]) + s[|s| - 1] as nat
  }

  /** `kdb_hashmap_hash`: the sum of the name's bytes modulo the registry's capacity. */
  function NameHash(name: string): (h: nat)
    ensures h < DBS_CAPACITY
  {
    ByteSum(name) % DBS_CAPACITY
  }

  /** The integer hash of the cache: the key modulo the cache's capacity. */
  function KeyHash(key: U32): (h: nat)
    ensures h < CACHE_CAPACITY
  {
    key % CACHE_CAPACITY
  }

  lemma {:induction false} ByteSumAppend(a: string, b: string)
    ensures ByteSum(a + b) == ByteSum(a) + ByteSum(b)
    decreases |b|
  {
    if |b| == 0 {
      assert a + b == a;
    } else {
      var last := |b| - 1;
      assert (a + b)[..|a + b| - 1] == a + b[..last];
      assert (a + b)[|a + b| - 1] == b[last];
      ByteSumAppend(a, b[..last]);
    }
  }

  /** The name hash ignores the order of the name's parts, so names that are
      rearrangements of one another share a home slot and a probe chain. */
  lemma NameHashIgnoresOrder(a: string, b: string)
    ensures NameHash(a + b) == NameHash(b + a)
  {
    ByteSumAppend(a, b);
    ByteSumAppend(b, a);
  }

  /** Registering a handle under a name in a well-formed registry that has
      room succeeds and keeps the registry well formed; the name then looks
      up to that handle, and every other name looks up to what it did before. */
  lemma RegisterName(m: HashMap.Slots<string, HandleRef>, name: string, handle: HandleRef,
                     other: string, default: HandleRef)
    requires |m| == DBS_CAPACITY && HashMap.Wellformed(m, NameHash) && HashMap.HasRoom(m, name)
    ensures var u := HashMap.Set(m, NameHash, name, handle);
            && u.ok
            && HashMap.Wellformed(u.slots, NameHash)
            && HashMap.Get(u.slots, NameHash, name, default) == handle
            && (other != name ==>
                  HashMap.Get(u.slots, NameHash, other, default) == HashMap.Get(m, NameHash, other, default))
  {
    HashMap.SetSucceedsExactlyWithRoom(m, NameHash, name, handle);
    HashMap.SetKeepsWellformed(m, NameHash, name, handle);
    HashMap.GetAfterSet(m, NameHash, name, handle, default);
    if other != name {
      var home := HashMap.Home(NameHash, name, |m|);
      var r := HashMap.Locate(m, name, home, 0);
      HashMap.LocateIsFirstStop(m, name, home);
      assert !r.Exhausted?;
      var t := r.tries;
      assert HashMap.StopsAt(m, name, home, t);
      var i := HashMap.Probe(home, t, |m|);
      var m' := HashMap.Set(m, NameHash, name, handle).slots;
      assert m' == m[i := Some(HashMap.Entry(name, handle))];
      assert m[i].None? || m[i].value.key == name;
      HashMap.GetIsExact(m, NameHash, other, default);
      HashMap.GetIsExact(m', NameHash, other, default);
      if j :| 0 <= j < |m| && HashMap.Holds(m, j, other) {
        assert j != i && HashMap.Holds(m', j, other);
      } else {
        forall k | 0 <= k < |m'|
          ensures !HashMap.Holds(m', k, other)
        {
          if k != i {
            assert !HashMap.Holds(m, k, other);
          }
        }
      }
    }
  }

  /** Removing without a tombstone cuts a probe chain. In an empty cache, key 1
      goes to slot 1 and key 65, which shares its home, to slot 2. Removing key
      1 frees slot 1, and a lookup of key 65 then stops there and reports the
      default, although slot 2 still holds 65; setting 65 again claims slot 1,
      so the key ends up in two slots. */
  lemma RemoveHidesEntry()
    ensures var m1 := HashMap.Set(HashMap.Empty(CACHE_CAPACITY), KeyHash, 1, 10.0).slots;
            var m2 := HashMap.Set(m1, KeyHash, 65, 20.0).slots;
            var m3 := HashMap.Remove(m2, KeyHash, 1).slots;
            var m4 := HashMap.Set(m3, KeyHash, 65, 30.0).slots;
            && m3[2] == Some(HashMap.Entry(65, 20.0))
            && HashMap.Get(m3, KeyHash, 65, 0.0) == 0.0
            && m4[1] == Some(HashMap.Entry(65, 30.0))
            && m4[2] == Some(HashMap.Entry(65, 20.0))
  {
    var n := CACHE_CAPACITY;
    var m0: HashMap.Slots<U32, real> := HashMap.Empty(n);
    assert HashMap.StopsAt(m0, 1, 1, 0);
    var m1 := HashMap.Set(m0, KeyHash, 1, 10.0).slots;
    assert m1 == m0[1 := Some(HashMap.Entry(1, 10.0))];
    assert HashMap.Passes(m1, 65, 1, 0);
    assert HashMap.StopsAt(m1, 65, 1, 1);
    var m2 := HashMap.Set(m1, KeyHash, 65, 20.0).slots;
    assert m2 == m1[2 := Some(HashMap.Entry(65, 20.0))];
    assert HashMap.FoundAt(m2, 1, 1, 0);
    var m3 := HashMap.Remove(m2, KeyHash, 1).slots;
    assert m3 == m2[1 := None];
    assert HashMap.StopsAt(m3, 65, 1, 0);
    HashMap.LocateIsFirstStop(m3, 65, 1);
    var m4 := HashMap.Set(m3, KeyHash, 65, 30.0).slots;
    assert m4 == m3[1 := Some(HashMap.Entry(65, 30.0))];
  }

}
