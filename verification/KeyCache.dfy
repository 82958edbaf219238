/**
  driver/internal/protocol/auth/list.go: the cache of derived keys, a ring of at most maxEntry entries
  that is searched under a read lock and extended under a write lock.
 */
module KeyCache {
  import opened Bytes

  datatype Entry<K, V> = Entry(key: K, value: V)

  /** The fields of the list; the capacity of the slices stays maxEntry. */
  datatype Ring<K, V> = Ring(idx: nat, keys: seq<K>, values: seq<V>)

  function Entries<K, V>(r: Ring<K, V>): (es: seq<Entry<K, V>>)
    requires |r.keys| == |r.values|
    ensures |es| == |r.keys| && forall i :: 0 <= i < |es| ==> es[i] == Entry(r.keys[i], r.values[i])
  {
    seq(|r.keys|, i requires 0 <= i < |r.keys| => Entry(r.keys[i], r.values[i]))
  }

  /** The entries from the oldest to the newest. */
  function ByAge<K, V>(r: Ring<K, V>): (es: seq<Entry<K, V>>)
    requires |r.keys| == |r.values| && r.idx <= |r.keys|
    ensures |es| == |r.keys|
  {
    Entries(r)[r.idx..] + Entries(r)[..r.idx]
  }

  /** keys and values are parallel; the ring is filled before it wraps. */
  ghost predicate WellFormed<K, V>(r: Ring<K, V>, maxEntry: nat)
  {
    && |r.keys| == |r.values| <= maxEntry && r.idx <= |r.keys| && r.idx < maxEntry
    && (|r.keys| < maxEntry ==> r.idx == |r.keys|)
  }

  /** The ring holds exactly the last min(n, maxEntry) of n inserted entries. */
  ghost predicate Holds<K, V>(r: Ring<K, V>, inserted: seq<Entry<K, V>>, maxEntry: nat)
  {
    && WellFormed(r, maxEntry)
    && |r.keys| == (if |inserted| < maxEntry then |inserted| else maxEntry)
    && ByAge(r) == inserted[|inserted| - |r.keys|..]
  }

  /** The insertion of Get, under the lock. */
  function Insert<K, V>(r: Ring<K, V>, k: K, v: V, maxEntry: nat): (r': Ring<K, V>)
    requires |r.keys| == |r.values|
  {
    var stored :=
      if r.idx < |r.keys| then Ring(r.idx, r.keys[r.idx := k], r.values[r.idx := v])
      else Ring(r.idx, r.keys + [k], r.values + [v]);
    stored.(idx := if r.idx + 1 >= maxEntry then 0 else r.idx + 1)
  }

  lemma InsertAges<K, V>(r: Ring<K, V>, k: K, v: V, maxEntry: nat)
    requires WellFormed(r, maxEntry)
    ensures var r' := Insert(r, k, v, maxEntry);
            && WellFormed(r', maxEntry)
            && |r'.keys| == (if |r.keys| < maxEntry then |r.keys| + 1 else maxEntry)
            && ByAge(r') == (if |r.keys| < maxEntry then ByAge(r) else ByAge(r)[1..]) + [Entry(k, v)]
  {
    var r' := Insert(r, k, v, maxEntry);
    var es, es', e := Entries(r), Entries(r'), Entry(k, v);
    if r.idx < |r.keys| {
      assert es' == es[..r.idx] + [e] + es[r.idx + 1..];
    } else {
      assert es' == es + [e];
    }
  }

  /** Every insertion keeps the ring at the last entries. */
  lemma InsertHolds<K, V>(r: Ring<K, V>, inserted: seq<Entry<K, V>>, k: K, v: V, maxEntry: nat)
    requires Holds(r, inserted, maxEntry)
    ensures Holds(Insert(r, k, v, maxEntry), inserted + [Entry(k, v)], maxEntry)
  {
    InsertAges(r, k, v, maxEntry);
    var n, m := |inserted|, |r.keys|;
    assert inserted[n - m..] + [Entry(k, v)] == (inserted + [Entry(k, v)])[n - m..];
    assert m > 0 ==> inserted[n - m..][1..] + [Entry(k, v)] == (inserted + [Entry(k, v)])[n - m + 1..];
  }

  /** find: the value of the first key that compares equal. */
  function Find<K, V>(compare: (K, K) -> bool, keys: seq<K>, values: seq<V>, k: K, i: nat): (r: Option<V>)
    requires i <= |keys| == |values|
    decreases |keys| - i
  {
    if i == |keys| then None
    else if compare(keys[i], k) then Some(values[i])
    else Find(compare, keys, values, k, i + 1)
  }

  lemma {:induction false} FindMeans<K, V>(compare: (K, K) -> bool, keys: seq<K>, values: seq<V>, k: K, i: nat)
      returns (j: nat)
    requires i <= |keys| == |values|
    ensures var r := Find(compare, keys, values, k, i);
            && (r.Some? ==> i <= j < |keys| && compare(keys[j], k) && r.value == values[j])
            && (forall l :: i <= l < |keys| && (r.Some? ==> l < j) ==> !compare(keys[l], k))
    decreases |keys| - i
  {
    j := i;
    if i < |keys| && !compare(keys[i], k) {
      j := FindMeans(compare, keys, values, k, i + 1);
    }
  }

  // ---------------------------------------------------------------- the list

  class List<K, V> {
    const valueFn: K -> Option<V>
    const compare: (K, K) -> bool
    const maxEntry: nat
    var idx: nat
    var keys: seq<K>
    var values: seq<V>
    ghost var inserted: seq<Entry<K, V>>

    ghost function State(): Ring<K, V>
      reads this
    {
      Ring(idx, keys, values)
    }

    ghost predicate Valid()
      reads this
    {
      Holds(State(), inserted, maxEntry)
    }

    constructor (maxEntry: nat, compare: (K, K) -> bool, valueFn: K -> Option<V>)
      requires maxEntry >= 1
      ensures Valid() && inserted == [] && this.maxEntry == maxEntry && this.compare == compare
              && this.valueFn == valueFn
    {
      this.maxEntry, this.compare, this.valueFn := maxEntry, compare, valueFn;
      idx, keys, values, inserted := 0, [], [], [];
    }

    /** find, under the read lock. */
    method FindKey(k: K) returns (r: Option<V>)
      requires Valid()
      ensures r == Find(compare, keys, values, k, 0)
    {
      for i := 0 to |keys|
        invariant Find(compare, keys, values, k, 0) == Find(compare, keys, values, k, i)
      {
        if compare(keys[i], k) {
          return Some(values[i]);
        }
      }
      r := None;
    }

    /** The part of Get under the write lock. */
    method Compute(k: K) returns (r: Option<V>)
      requires Valid()
      modifies this
      ensures Valid() && r == valueFn(k)
      ensures r.None? ==> State() == old(State()) && inserted == old(inserted)
      ensures r.Some? ==> State() == Insert(old(State()), k, r.value, maxEntry)
      ensures r.Some? ==> inserted == old(inserted) + [Entry(k, r.value)]
    {
      r := valueFn(k);
      if r.None? {
        return;
      }
      InsertHolds(State(), inserted, k, r.value, maxEntry);
      inserted := inserted + [Entry(k, r.value)];
      if idx < |keys| {
        keys, values := keys[idx := k], values[idx := r.value];
      } else {
        keys, values := keys + [k], values + [r.value];
      }
      idx := idx + 1;
      if idx >= maxEntry {
        idx := 0;
      }
    }

    /** Get, when no other goroutine comes in between. */
    method Get(k: K) returns (r: Option<V>)
      requires Valid()
      modifies this
      ensures Valid()
      ensures var hit := Find(compare, old(keys), old(values), k, 0);
              && (hit.Some? ==> r == hit && State() == old(State()) && inserted == old(inserted))
              && (hit.None? ==> && r == valueFn(k)
                                && inserted == old(inserted) + if r.Some? then [Entry(k, r.value)] else [])
    {
      r := FindKey(k);
      if r.None? {
        r := Compute(k);
      }
    }
  }

  // ---------------------------------------------------------------- every interleaving

  /** The steps of concurrent Get calls: goroutine t finds a value, misses, or computes the value it missed. */
  datatype Event<K, V> =
    | Hit(t: nat, key: K, value: V)
    | Miss(t: nat, key: K)
    | Computed(t: nat, key: K, result: Option<V>)

  datatype Config<K, V> = Config(ring: Ring<K, V>, inserted: seq<Entry<K, V>>, waiting: map<nat, K>)

  /** The parameters of a list. */
  datatype Params<!K, !V> = Params(valueFn: K -> Option<V>, compare: (K, K) -> bool, maxEntry: nat)

  ghost predicate Step<K, V>(p: Params<K, V>, c: Config<K, V>, e: Event<K, V>, c': Config<K, V>)
    requires |c.ring.keys| == |c.ring.values|
  {
    match e
    case Hit(t, k, v) =>
      t !in c.waiting && Find(p.compare, c.ring.keys, c.ring.values, k, 0) == Some(v) && c' == c
    case Miss(t, k) =>
      && t !in c.waiting && Find(p.compare, c.ring.keys, c.ring.values, k, 0) == None
      && c' == c.(waiting := c.waiting[t := k])
    case Computed(t, k, r) =>
      && t in c.waiting && c.waiting[t] == k && r == p.valueFn(k)
      && c'.waiting == c.waiting - {t}
      && (r.None? ==> c'.ring == c.ring && c'.inserted == c.inserted)
      && (r.Some? ==> && c'.ring == Insert(c.ring, k, r.value, p.maxEntry)
                      && c'.inserted == c.inserted + [Entry(k, r.value)])
  }

  /** A run: each configuration follows from the one before by the event. */
  ghost predicate Run<K, V>(p: Params<K, V>, cs: seq<Config<K, V>>, es: seq<Event<K, V>>)
  {
    && |cs| == |es| + 1 && cs[0] == Config(Ring(0, [], []), [], map[])
    && forall i :: 0 <= i < |es| ==> |cs[i].ring.keys| == |cs[i].ring.values| && Step(p, cs[i], es[i], cs[i + 1])
  }

  /** What every step keeps: the ring holds the last insertions, and every insertion is a result of valueFn. */
  ghost predicate Inv<K, V>(p: Params<K, V>, c: Config<K, V>)
  {
    && Holds(c.ring, c.inserted, p.maxEntry)
    && forall i :: 0 <= i < |c.inserted| ==> p.valueFn(c.inserted[i].key) == Some(c.inserted[i].value)
  }

  lemma StepKeeps<K, V>(p: Params<K, V>, c: Config<K, V>, e: Event<K, V>, c': Config<K, V>)
    requires Inv(p, c) && Step(p, c, e, c')
    ensures Inv(p, c')
  {
    if e.Computed? && e.result.Some? {
      InsertHolds(c.ring, c.inserted, e.key, e.result.value, p.maxEntry);
    }
  }

  lemma {:induction false} RunKeeps<K, V>(p: Params<K, V>, cs: seq<Config<K, V>>, es: seq<Event<K, V>>, i: nat)
    requires p.maxEntry >= 1 && Run(p, cs, es) && i < |cs|
    ensures Inv(p, cs[i])
  {
    if i > 0 {
      RunKeeps(p, cs, es, i - 1);
      StepKeeps(p, cs[i - 1], es[i - 1], cs[i]);
    }
  }

  /** Keys that compare equal have the same value. */
  ghost predicate Congruent<K(!new), V(!new)>(p: Params<K, V>)
  {
    forall k1, k2 :: p.compare(k1, k2) ==> p.valueFn(k1) == p.valueFn(k2)
  }

  /** A ring slot holds one of the inserted entries. */
  lemma SlotIsInserted<K, V>(r: Ring<K, V>, inserted: seq<Entry<K, V>>, maxEntry: nat, j: nat) returns (i: nat)
    requires Holds(r, inserted, maxEntry) && j < |r.keys|
    ensures i < |inserted| && inserted[i] == Entry(r.keys[j], r.values[j])
  {
    var m, n := |r.keys|, |inserted|;
    var at := Rotated(Entries(r), r.idx, j);
    i := n - m + at;
  }

  lemma Rotated<E>(es: seq<E>, idx: nat, j: nat) returns (at: nat)
    requires idx <= |es| && j < |es|
    ensures at < |es| && (es[idx..] + es[..idx])[at] == es[j]
  {
    at := if j >= idx then j - idx else |es| - idx + j;
  }

  /** Over every interleaving, Get returns valueFn of its own key, whether it hit the cache or computed the value. */
  lemma GetIsValueFn<K(!new), V(!new)>(p: Params<K, V>, cs: seq<Config<K, V>>, es: seq<Event<K, V>>, i: nat)
    requires p.maxEntry >= 1 && Run(p, cs, es) && Congruent(p) && i < |es|
    ensures es[i].Hit? ==> p.valueFn(es[i].key) == Some(es[i].value)
    ensures es[i].Computed? ==> p.valueFn(es[i].key) == es[i].result
  {
    var c, e := cs[i], es[i];
    RunKeeps(p, cs, es, i);
    assert Step(p, c, e, cs[i + 1]);
    if e.Hit? {
      var j := FindMeans(p.compare, c.ring.keys, c.ring.values, e.key, 0);
      var n := SlotIsInserted(c.ring, c.inserted, p.maxEntry, j);
      assert p.valueFn(c.inserted[n].key) == Some(c.inserted[n].value);
    }
  }

  /** Over every interleaving, the cache holds exactly the last min(n, maxEntry) of the n entries inserted. */
  lemma CacheHoldsLast<K, V>(p: Params<K, V>, cs: seq<Config<K, V>>, es: seq<Event<K, V>>, i: nat)
    requires p.maxEntry >= 1 && Run(p, cs, es) && i < |cs|
    ensures Holds(cs[i].ring, cs[i].inserted, p.maxEntry)
  {
    RunKeeps(p, cs, es, i);
  }
}
