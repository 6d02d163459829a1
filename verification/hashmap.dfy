/** The fixed-capacity, linearly probed hash map of `kdb_hashmap.h`, written once
    for any key and value type. The source generates one copy per instantiation
    from macros over a global slot buffer; here the buffer is an explicit value, a
    sequence of slots whose length is the capacity, and the hash function is a
    parameter. A slot is empty (`None`) or holds one entry; there are no
    tombstones, so `Remove` can cut a probe chain. */
module HashMap {
  import opened Options

  datatype Entry<K, V> = Entry(key: K, value: V)

  type Slots<K, V> = seq<Option<Entry<K, V>>>

  /** What `set` and `remove` report, together with the table after the call. */
  datatype Update<K, V> = Update(ok: bool, slots: Slots<K, V>)

  /** Where a probe for a key stopped: on the slot holding the key, on the first
      free slot, or nowhere after `capacity` tries. */
  datatype Outcome = Hit(tries: nat) | Vacant(tries: nat) | Exhausted

  /** A zero-initialised buffer of `capacity` slots. */
  function Empty<K, V>(capacity: nat): (m: Slots<K, V>)
    ensures |m| == capacity
    ensures forall i :: 0 <= i < capacity ==> m[i].None?
  {
    seq(capacity, _ => None)
  }

  /** The slot a key's probe starts from. The source's hash functions already
      reduce modulo the capacity, so the reduction here changes nothing for them. */
  function Home<K>(hash: K -> nat, key: K, n: nat): (h: nat)
    requires n > 0
    ensures h < n
  {
    hash(key) % n
  }

  /** The slot visited at try `t` of a probe starting at `home`: the source steps
      with `hash = (hash + 1) % CAPACITY`, which after `t` steps is this. */
  function Probe(home: nat, t: nat, n: nat): (i: nat)
    requires n > 0
    ensures i < n
  {
    (home + t) % n
  }

  /** How many steps a probe from `home` needs to reach slot `i`. */
  function Dist(home: nat, i: nat, n: nat): (d: nat)
    requires n > 0
    ensures d < n
  {
    (i - home) % n
  }

  predicate Holds<K(==), V>(m: Slots<K, V>, i: nat, key: K)
    requires i < |m|
  {
    m[i].Some? && m[i].value.key == key
  }

  /** At try `t` the probe meets a slot taken by a different key and moves on. */
  predicate Passes<K(==), V>(m: Slots<K, V>, key: K, home: nat, t: nat)
    requires |m| > 0
  {
    var i := Probe(home, t, |m|);
    m[i].Some? && m[i].value.key != key
  }

  /** Every try in `[lo, hi)` moves on. */
  ghost predicate ClearBetween<K, V>(m: Slots<K, V>, key: K, home: nat, lo: nat, hi: nat)
    requires |m| > 0
  {
    forall u :: lo <= u < hi ==> Passes(m, key, home, u)
  }

  /** The probe for `key` stops at try `t` on a slot holding `key`. */
  ghost predicate FoundAt<K, V>(m: Slots<K, V>, key: K, home: nat, t: nat)
    requires |m| > 0
  {
    t < |m| && ClearBetween(m, key, home, 0, t) && Holds(m, Probe(home, t, |m|), key)
  }

  /** The probe for `key` stops at try `t`, on a free slot or on `key`'s slot. */
  ghost predicate StopsAt<K, V>(m: Slots<K, V>, key: K, home: nat, t: nat)
    requires |m| > 0
  {
    t < |m| && ClearBetween(m, key, home, 0, t) && !Passes(m, key, home, t)
  }

  /** The probe loop shared by get, set and remove, from try `t` on: stop at a
      free slot, stop at the key, otherwise step to the next slot. */
  function Locate<K(==), V>(m: Slots<K, V>, key: K, home: nat, t: nat): (r: Outcome)
    requires 0 < |m| && t <= |m|
    decreases |m| - t
    ensures r.Hit? ==>
              && t <= r.tries < |m|
              && ClearBetween(m, key, home, t, r.tries)
              && Holds(m, Probe(home, r.tries, |m|), key)
    ensures r.Vacant? ==>
              && t <= r.tries < |m|
              && ClearBetween(m, key, home, t, r.tries)
              && m[Probe(home, r.tries, |m|)].None?
    ensures r.Exhausted? ==> ClearBetween(m, key, home, t, |m|)
  {
    if t == |m| then Exhausted
    else
      var i := Probe(home, t, |m|);
      if m[i].None? then Vacant(t)
      else if m[i].value.key == key then Hit(t)
      else Locate(m, key, home, t + 1)
  }

  /** `get`: the value of the first slot along the probe that holds the key, or
      `default` when a free slot comes first or all slots have been tried. */
  function Get<K(==), V>(m: Slots<K, V>, hash: K -> nat, key: K, default: V): (v: V)
    requires |m| > 0
    ensures forall t :: FoundAt(m, key, Home(hash, key, |m|), t) ==>
              v == m[Probe(Home(hash, key, |m|), t, |m|)].value.value
    ensures (forall t :: !FoundAt(m, key, Home(hash, key, |m|), t)) ==> v == default
  {
    var home := Home(hash, key, |m|);
    var r := Locate(m, key, home, 0);
    LocateIsFirstStop(m, key, home);
    if r.Hit? then
      m[Probe(home, r.tries, |m|)].value.value
    else
      default
  }

  /** `set`: overwrite the value of the key's slot, or claim the first free slot,
      whichever the probe meets first; fail, leaving the table as it was, when
      every slot along the probe holds another key. */
  function Set<K(==), V>(m: Slots<K, V>, hash: K -> nat, key: K, value: V): (r: Update<K, V>)
    requires |m| > 0
    ensures |r.slots| == |m|
    ensures !r.ok <==> ClearBetween(m, key, Home(hash, key, |m|), 0, |m|)
    ensures !r.ok ==> r.slots == m
    ensures forall t :: StopsAt(m, key, Home(hash, key, |m|), t) ==>
              r.slots == m[Probe(Home(hash, key, |m|), t, |m|) := Some(Entry(key, value))]
  {
    var home := Home(hash, key, |m|);
    var r := Locate(m, key, home, 0);
    LocateIsFirstStop(m, key, home);
    if r.Exhausted? then
      Update(false, m)
    else
      Update(true, m[Probe(home, r.tries, |m|) := Some(Entry(key, value))])
  }

  /** `remove`: empty the slot holding the key, leaving no tombstone; report
      failure, changing nothing, when the probe does not reach the key. */
  function Remove<K(==), V>(m: Slots<K, V>, hash: K -> nat, key: K): (r: Update<K, V>)
    requires |m| > 0
    ensures |r.slots| == |m|
    ensures forall t :: FoundAt(m, key, Home(hash, key, |m|), t) ==>
              r.ok && r.slots == m[Probe(Home(hash, key, |m|), t, |m|) := None]
    ensures (forall t :: !FoundAt(m, key, Home(hash, key, |m|), t)) ==> !r.ok && r.slots == m
  {
    var home := Home(hash, key, |m|);
    var r := Locate(m, key, home, 0);
    LocateIsFirstStop(m, key, home);
    if r.Hit? then
      Update(true, m[Probe(home, r.tries, |m|) := None])
    else
      Update(false, m)
  }

  /** The number of occupied slots. */
  function Occupied<K, V>(m: Slots<K, V>): (c: nat)
    ensures c <= |m|
  {
    if |m| == 0 then 0
    else Occupied(m[..|m| - 1]) + (if m[|m| - 1].Some? then 1 else 0)
  }

  /** The probe loop as the source writes it, with the slot index advanced by
      `(hash + 1) % CAPACITY`; it returns what the `get` loop returns. */
  method Lookup<K(==), V>(m: Slots<K, V>, hash: K -> nat, key: K, default: V) returns (v: V)
    requires |m| > 0
    ensures v == Get(m, hash, key, default)
  {
    var n := |m|;
    var home := Home(hash, key, n);
    var slot := home;
    var tries := 0;
    while tries < n
      invariant tries <= n
      invariant slot == Probe(home, tries, n)
      invariant Locate(m, key, home, tries) == Locate(m, key, home, 0)
    {
      if m[slot].None? {
        return default;
      }
      if m[slot].value.key == key {
        return m[slot].value.value;
      }
      ProbeStep(home, tries, n);
      slot := (slot + 1) % n;
      tries := tries + 1;
    }
    return default;
  }

  // ---------------------------------------------------------------------------
  // Arithmetic of the probe sequence

  /** Euclidean division is unique: a quotient and remainder in range are the
      ones `/` and `%` compute. */
  lemma ModUnique(x: int, q: int, r: int, n: int)
    requires n > 0 && 0 <= r < n && x == q * n + r
    ensures x % n == r
  {
    var q', r' := x / n, x % n;
    assert x == q' * n + r';
    assert (q - q') * n == r' - r;
    MulSmall(q - q', n);
  }

  /** A multiple of `n` strictly between `-n` and `n` is zero. */
  lemma MulSmall(k: int, n: int)
    requires n > 0 && -n < k * n < n
    ensures k == 0
  {
    MulBound(k, n);
  }

  lemma MulBound(k: int, n: int)
    requires n > 0
    ensures k >= 1 ==> k * n >= n
    ensures k <= -1 ==> k * n <= -n
  {
  }

  /** One step of the source's loop moves to the next try. */
  lemma ProbeStep(home: nat, t: nat, n: nat)
    requires n > 0
    ensures Probe(home, t + 1, n) == (Probe(home, t, n) + 1) % n
  {
    var q, r := (home + t) / n, (home + t) % n;
    assert home + t == q * n + r;
    if r + 1 < n {
      ModUnique(home + t + 1, q, r + 1, n);
      ModUnique(r + 1, 0, r + 1, n);
    } else {
      assert (q + 1) * n == q * n + n;
      ModUnique(home + t + 1, q + 1, 0, n);
      ModUnique(r + 1, 1, 0, n);
    }
  }

  /** Within `n` tries a probe never visits a slot twice. */
  lemma ProbeInjective(home: nat, u: nat, t: nat, n: nat)
    requires n > 0 && u < n && t < n
    ensures Probe(home, u, n) == Probe(home, t, n) ==> u == t
  {
    var qu, ru := (home + u) / n, (home + u) % n;
    var qt, rt := (home + t) / n, (home + t) % n;
    assert home + u == qu * n + ru;
    assert home + t == qt * n + rt;
    if ru == rt {
      assert (qu - qt) * n == u - t;
      MulSmall(qu - qt, n);
    }
  }

  /** `Dist` inverts the probe: `Dist(home, i)` tries reach slot `i`. */
  lemma ProbeDist(home: nat, i: nat, n: nat)
    requires n > 0 && home < n && i < n
    ensures Probe(home, Dist(home, i, n), n) == i
  {
    if home <= i {
      ModUnique(i - home, 0, i - home, n);
      ModUnique(i, 0, i, n);
    } else {
      ModUnique(i - home, -1, i - home + n, n);
      ModUnique(home + (i - home + n), 1, i, n);
    }
  }

  /** ... and the number of tries to reach the slot visited at try `t` is `t`. */
  lemma DistProbe(home: nat, t: nat, n: nat)
    requires n > 0 && home < n && t < n
    ensures Dist(home, Probe(home, t, n), n) == t
  {
    var i := Probe(home, t, n);
    ProbeDist(home, i, n);
    var d := Dist(home, i, n);
    if d != t {
      ProbeInjective(home, d, t, n);
    }
  }

  // ---------------------------------------------------------------------------
  // The probe stops at the first slot that is free or holds the key

  lemma {:induction false} LocateStops<K, V>(m: Slots<K, V>, key: K, home: nat, s: nat, t: nat)
    requires 0 < |m| && s <= t < |m|
    requires ClearBetween(m, key, home, s, t) && !Passes(m, key, home, t)
    ensures Locate(m, key, home, s) ==
              (if m[Probe(home, t, |m|)].None? then Vacant(t) else Hit(t))
    decreases t - s
  {
    if s < t {
      assert Passes(m, key, home, s);
      LocateStops(m, key, home, s + 1, t);
    }
  }

  /** The probe stops exactly once: `Locate` from try 0 finds the unique try
      at which the probe stops, and it is a hit exactly when a slot holds the key. */
  lemma LocateIsFirstStop<K, V>(m: Slots<K, V>, key: K, home: nat)
    requires 0 < |m|
    ensures forall t :: StopsAt(m, key, home, t) <==>
              (Locate(m, key, home, 0) == Hit(t) || Locate(m, key, home, 0) == Vacant(t))
    ensures forall t :: FoundAt(m, key, home, t) <==> Locate(m, key, home, 0) == Hit(t)
  {
    var r := Locate(m, key, home, 0);
    forall t: nat | StopsAt(m, key, home, t)
      ensures r == Hit(t) || r == Vacant(t)
    {
      LocateStops(m, key, home, 0, t);
    }
  }

  // ---------------------------------------------------------------------------
  // Properties of get, set and remove

  /** Some slot is free or already holds `key`. */
  predicate HasRoom<K(==), V>(m: Slots<K, V>, key: K) {
    exists i :: 0 <= i < |m| && (m[i].None? || m[i].value.key == key)
  }

  /** `set` succeeds exactly when some slot is free or already holds the key:
      the probe visits every slot before it gives up. */
  lemma SetSucceedsExactlyWithRoom<K, V>(m: Slots<K, V>, hash: K -> nat, key: K, value: V)
    requires |m| > 0
    ensures Set(m, hash, key, value).ok <==> HasRoom(m, key)
  {
    var n := |m|;
    var home := Home(hash, key, n);
    if HasRoom(m, key) {
      var i :| 0 <= i < n && (m[i].None? || m[i].value.key == key);
      ProbeDist(home, i, n);
      assert !Passes(m, key, home, Dist(home, i, n));
    } else {
      assert forall u :: 0 <= u < n ==> Passes(m, key, home, u);
    }
  }

  /** `get` after a successful `set` of the same key returns the value set,
      whatever the table held before. */
  lemma {:induction false} GetAfterSet<K, V>(m: Slots<K, V>, hash: K -> nat, key: K, value: V, default: V)
    requires |m| > 0 && HasRoom(m, key)
    ensures Get(Set(m, hash, key, value).slots, hash, key, default) == value
  {
    SetSucceedsExactlyWithRoom(m, hash, key, value);
    var n := |m|;
    var home := Home(hash, key, n);
    var r := Locate(m, key, home, 0);
    assert !r.Exhausted?;
    var t := r.tries;
    var i := Probe(home, t, n);
    assert StopsAt(m, key, home, t);
    var m' := Set(m, hash, key, value).slots;
    assert m' == m[i := Some(Entry(key, value))];
    forall u | 0 <= u < t
      ensures Passes(m', key, home, u)
    {
      ProbeInjective(home, u, t, n);
      assert Passes(m, key, home, u);
    }
    assert FoundAt(m', key, home, t);
  }

  /** After a successful `remove`, `get` of the removed key returns the default. */
  lemma {:induction false} GetAfterRemove<K, V>(m: Slots<K, V>, hash: K -> nat, key: K, default: V)
    requires |m| > 0
    requires Remove(m, hash, key).ok
    ensures Get(Remove(m, hash, key).slots, hash, key, default) == default
  {
    var n := |m|;
    var home := Home(hash, key, n);
    var r := Locate(m, key, home, 0);
    assert r.Hit?;
    var t := r.tries;
    var i := Probe(home, t, n);
    assert FoundAt(m, key, home, t);
    var m' := Remove(m, hash, key).slots;
    assert m' == m[i := None];
    forall u | 0 <= u < t
      ensures Passes(m', key, home, u)
    {
      ProbeInjective(home, u, t, n);
      assert Passes(m, key, home, u);
    }
    LocateStops(m', key, home, 0, t);
  }

  /** Replacing one slot changes the occupancy by the difference it makes. */
  lemma {:induction false} OccupiedUpdate<K, V>(m: Slots<K, V>, i: nat, x: Option<Entry<K, V>>)
    requires i < |m|
    ensures Occupied(m[i := x]) ==
              Occupied(m) - (if m[i].Some? then 1 else 0) + (if x.Some? then 1 else 0)
    decreases |m|
  {
    var m' := m[i := x];
    var last := |m| - 1;
    if i == last {
      assert m'[..last] == m[..last];
    } else {
      assert m'[..last] == m[..last][i := x];
      OccupiedUpdate(m[..last], i, x);
    }
  }

  /** `set` raises the number of occupied slots by one when it claims a free
      slot and leaves it alone when it overwrites; `remove` lowers it by one. */
  lemma OccupancyBounds<K, V>(m: Slots<K, V>, hash: K -> nat, key: K, value: V)
    requires |m| > 0
    ensures Occupied(Set(m, hash, key, value).slots) <= Occupied(m) + 1
    ensures Occupied(m) <= Occupied(Set(m, hash, key, value).slots)
    ensures Remove(m, hash, key).ok ==> Occupied(Remove(m, hash, key).slots) == Occupied(m) - 1
    ensures !Remove(m, hash, key).ok ==> Occupied(Remove(m, hash, key).slots) == Occupied(m)
  {
    var n := |m|;
    var home := Home(hash, key, n);
    var r := Locate(m, key, home, 0);
    if !r.Exhausted? {
      var t := r.tries;
      var i := Probe(home, t, n);
      assert StopsAt(m, key, home, t);
      OccupiedUpdate(m, i, Some(Entry(key, value)));
      if r.Hit? {
        assert FoundAt(m, key, home, t);
        OccupiedUpdate(m, i, None);
      }
    }
  }

  // ---------------------------------------------------------------------------
  // Well-formed tables: what `set` alone maintains and `remove` can break

  /** No key is held by two slots. */
  ghost predicate Distinct<K, V>(m: Slots<K, V>) {
    forall i, j :: 0 <= i < |m| && 0 <= j < |m| && i != j && m[i].Some? && m[j].Some? ==>
      m[i].value.key != m[j].value.key
  }

  /** The entry in slot `i` is reachable from its key's home: every slot its
      probe passes before slot `i` is occupied. */
  ghost predicate Anchored<K, V>(m: Slots<K, V>, hash: K -> nat, i: nat)
    requires i < |m|
  {
    m[i].Some? ==>
      var home := Home(hash, m[i].value.key, |m|);
      forall u :: 0 <= u < Dist(home, i, |m|) ==> m[Probe(home, u, |m|)].Some?
  }

  ghost predicate Wellformed<K, V>(m: Slots<K, V>, hash: K -> nat) {
    && |m| > 0
    && Distinct(m)
    && forall i :: 0 <= i < |m| ==> Anchored(m, hash, i)
  }

  /** The zero-initialised buffer is well formed, so every table built from it
      by `set` alone is too. */
  lemma EmptyIsWellformed<K, V>(capacity: nat, hash: K -> nat)
    requires capacity > 0
    ensures Wellformed(Empty<K, V>(capacity), hash)
  {
  }

  /** In a well-formed table the probe for a stored key reaches its slot. */
  lemma StoredIsFound<K, V>(m: Slots<K, V>, hash: K -> nat, j: nat)
    requires Wellformed(m, hash) && j < |m| && m[j].Some?
    ensures FoundAt(m, m[j].value.key, Home(hash, m[j].value.key, |m|), Dist(Home(hash, m[j].value.key, |m|), j, |m|))
  {
    var n := |m|;
    var key := m[j].value.key;
    var home := Home(hash, key, n);
    var d := Dist(home, j, n);
    ProbeDist(home, j, n);
    assert Anchored(m, hash, j);
    forall u | 0 <= u < d
      ensures Passes(m, key, home, u)
    {
      var i := Probe(home, u, n);
      assert m[i].Some?;
      ProbeInjective(home, u, d, n);
    }
  }

  /** In a well-formed table `get` is exact: it returns the value stored for the
      key when some slot holds it, and the default only when none does. */
  lemma GetIsExact<K, V>(m: Slots<K, V>, hash: K -> nat, key: K, default: V)
    requires Wellformed(m, hash)
    ensures forall j :: 0 <= j < |m| && Holds(m, j, key) ==>
              Get(m, hash, key, default) == m[j].value.value
    ensures (forall j :: 0 <= j < |m| ==> !Holds(m, j, key)) ==>
              Get(m, hash, key, default) == default
  {
    var n := |m|;
    var home := Home(hash, key, n);
    forall j | 0 <= j < n && Holds(m, j, key)
      ensures Get(m, hash, key, default) == m[j].value.value
    {
      StoredIsFound(m, hash, j);
      ProbeDist(home, j, n);
    }
  }

  /** `set` keeps a table well formed. (`remove` does not: see `RemoveHidesEntry`
      in the registry module.) */
  lemma SetKeepsWellformed<K, V>(m: Slots<K, V>, hash: K -> nat, key: K, value: V)
    requires Wellformed(m, hash)
    ensures Wellformed(Set(m, hash, key, value).slots, hash)
  {
    var n := |m|;
    var home := Home(hash, key, n);
    var r := Locate(m, key, home, 0);
    if r.Exhausted? {
      return;
    }
    var t := r.tries;
    var i := Probe(home, t, n);
    assert StopsAt(m, key, home, t);
    var m' := m[i := Some(Entry(key, value))];
    assert Set(m, hash, key, value).slots == m';
    if r.Hit? {
      // Same keys in the same slots: only a value changed.
      assert forall j :: 0 <= j < n ==> (m'[j].Some? <==> m[j].Some?);
      assert forall j :: 0 <= j < n && m[j].Some? ==> m'[j].value.key == m[j].value.key;
      forall j | 0 <= j < n
        ensures Anchored(m', hash, j)
      {
        assert Anchored(m, hash, j);
      }
    } else {
      // A free slot was claimed: the key was nowhere in the table.
      forall j | 0 <= j < n && m[j].Some?
        ensures m[j].value.key != key
      {
        StoredIsFound(m, hash, j);
        LocateIsFirstStop(m, m[j].value.key, Home(hash, m[j].value.key, n));
      }
      forall j | 0 <= j < n
        ensures Anchored(m', hash, j)
      {
        if j == i {
          DistProbe(home, t, n);
          forall u | 0 <= u < t
            ensures m'[Probe(home, u, n)].Some?
          {
            assert Passes(m, key, home, u);
          }
        } else {
          assert Anchored(m, hash, j);
        }
      }
    }
  }

}
