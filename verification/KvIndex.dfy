/** The key index of kv_ftl.c as values: one table of slots, where entries that collide are chained
    through their `next` links and new ones go to the first free slot behind the end of the chain. */
module KvIndex {
  import opened Options
  import opened Sequences
  import opened Arithmetic

  type Key = seq<bv8>

  /** struct mapping_entry; -1 stands for the unsigned -1 of a slot that is not in use, and for the
      end of a chain. */
  datatype Entry = Entry(key: Key, memOffset: int, length: int, next: int)

  /** Where a value is, and how long. */
  datatype Extent = Extent(offset: int, length: int)

  /** hash_function: 32-bit multiply and exclusive or. */
  function HashFunction(key: Key): bv32 {
    if key == [] then 2166136261
    else HashStep(HashFunction(key[..|key| - 1]), key[|key| - 1])
  }

  function HashStep(hash: bv32, b: bv8): bv32 { (hash * 16777619) ^ (b as bv32) }

  /** It is the 32-bit FNV-1 hash, by the published values for the empty key, "a" and "foobar". */
  lemma HashIsFnv1()
    ensures HashFunction([]) == 0x811c9dc5 && HashFunction([0x61]) == 0x050c5d7e
    ensures HashFunction([0x66, 0x6f, 0x6f, 0x62, 0x61, 0x72]) == 0x31f0b262
  {
    hide HashFunction;
    HashOfNothing();
    HashNext([], 0x61, [0x61]);
    HashNext([], 0x66, [0x66]);
    assert HashFunction([0x66]) == 0x050c5d79;
    HashNext([0x66], 0x6f, [0x66, 0x6f]);
    assert HashFunction([0x66, 0x6f]) == 0x6b772514;
    HashNext([0x66, 0x6f], 0x6f, [0x66, 0x6f, 0x6f]);
    assert HashFunction([0x66, 0x6f, 0x6f]) == 0x408f5e13;
    HashNext([0x66, 0x6f, 0x6f], 0x62, [0x66, 0x6f, 0x6f, 0x62]);
    assert HashFunction([0x66, 0x6f, 0x6f, 0x62]) == 0xb4b1178b;
    HashNext([0x66, 0x6f, 0x6f, 0x62], 0x61, [0x66, 0x6f, 0x6f, 0x62, 0x61]);
    assert HashFunction([0x66, 0x6f, 0x6f, 0x62, 0x61]) == 0xfdc80fb0;
    HashNext([0x66, 0x6f, 0x6f, 0x62, 0x61], 0x72, [0x66, 0x6f, 0x6f, 0x62, 0x61, 0x72]);
  }

  lemma HashNext(most: Key, b: bv8, key: Key)
    requires key == most + [b]
    ensures HashFunction(key) == HashStep(HashFunction(most), b)
  {
    hide HashStep;
    assert key[..|key| - 1] == most;
  }

  lemma HashOfNothing()
    ensures HashFunction([]) == 0x811c9dc5
  {
  }

  /** get_hash_slot */
  function HashSlot(key: Key, n: nat): (s: nat)
    requires 0 < n
    ensures s < n
  {
    (HashFunction(key) as nat) % n
  }

  predicate InUse(e: Entry) { e.memOffset != -1 }

  /** The slots, with a rank that grows along every link; all ranks are below `top`. */
  datatype Table = Table(slots: seq<Entry>, rank: seq<nat>, top: nat)

  /** Links stay in the table and never come back, and a slot that is not in use has none. */
  ghost predicate Linked(t: Table) {
    && 0 < |t.slots| == |t.rank|
    && (forall s: nat :: s < |t.slots| ==> t.rank[s] < t.top)
    && (forall s: nat :: s < |t.slots| ==> t.slots[s].next == -1 || LinkOk(t, s))
    && (forall s: nat :: s < |t.slots| && !InUse(t.slots[s]) ==> t.slots[s].next == -1)
  }

  ghost predicate LinkOk(t: Table, s: nat)
    requires s < |t.slots| == |t.rank|
  {
    0 <= t.slots[s].next < |t.slots| && t.rank[s] < t.rank[t.slots[s].next]
  }

  /** The slots a lookup visits from slot `s` on, when it does not find its key. */
  ghost function Path(t: Table, s: nat): (p: seq<nat>)
    requires Linked(t) && s < |t.slots|
    ensures forall i :: 0 <= i < |p| ==> p[i] < |t.slots| && InUse(t.slots[p[i]]) && t.rank[s] <= t.rank[p[i]]
    ensures p != [] ==> p[0] == s
    ensures p == [] <==> !InUse(t.slots[s])
    decreases t.top - t.rank[s]
  {
    if !InUse(t.slots[s]) then []
    else if t.slots[s].next == -1 then [s]
    else
      assert LinkOk(t, s);
      [s] + Path(t, t.slots[s].next)
  }

  /** Ranks grow along a path, so no slot is visited twice. */
  lemma {:induction false} PathClimbs(t: Table, s: nat, i: nat, j: nat)
    requires Linked(t) && s < |t.slots| && i < j < |Path(t, s)|
    ensures t.rank[Path(t, s)[i]] < t.rank[Path(t, s)[j]] && Path(t, s)[i] != Path(t, s)[j]
    decreases t.top - t.rank[s]
  {
    var next := t.slots[s].next;
    assert LinkOk(t, s);
    if i > 0 {
      PathClimbs(t, next, i - 1, j - 1);
    }
  }

  lemma PathNoDup(t: Table, s: nat)
    requires Linked(t) && s < |t.slots|
    ensures NoDup(Path(t, s))
  {
    forall i, j | 0 <= i < j < |Path(t, s)| ensures Path(t, s)[i] != Path(t, s)[j] {
      PathClimbs(t, s, i, j);
    }
  }

  /** A list of different numbers below `n` has no more than `n` entries. */
  lemma {:induction false} Pigeons(p: seq<nat>, n: nat)
    requires forall i :: 0 <= i < |p| ==> p[i] < n
    requires NoDup(p)
    ensures |p| <= n
    decreases n
  {
    if p != [] {
      assert p[0] < n;
      if n - 1 in p {
        var k :| 0 <= k < |p| && p[k] == n - 1;
        Pigeons(p[..k] + p[k + 1..], n - 1);
      } else {
        Pigeons(p, n - 1);
      }
    }
  }

  /** A lookup ends after at most as many steps as there are slots. */
  lemma LookupEnds(t: Table, s: nat)
    requires Linked(t) && s < |t.slots|
    ensures |Path(t, s)| <= |t.slots|
  {
    PathNoDup(t, s);
    Pigeons(Path(t, s), |t.slots|);
  }

  // ---------- lookup ----------

  /** The first slot of a path that holds `key`, or -1. */
  ghost function FirstWith(slots: seq<Entry>, p: seq<nat>, key: Key): (s: int)
    requires forall i :: 0 <= i < |p| ==> p[i] < |slots|
    ensures s == -1 || (0 <= s < |slots| && s in p && slots[s].key == key)
    ensures s == -1 <==> forall i :: 0 <= i < |p| ==> slots[p[i]].key != key
  {
    if p == [] then -1
    else if slots[p[0]].key == key then p[0]
    else FirstWith(slots, p[1..], key)
  }

  /** Where get_mapping_entry finds `key`, or -1. */
  ghost function FoundAt(t: Table, key: Key): (s: int)
    requires Linked(t)
    ensures s == -1 || (0 <= s < |t.slots| && InUse(t.slots[s]) && t.slots[s].key == key)
  {
    FirstWith(t.slots, Path(t, HashSlot(key, |t.slots|)), key)
  }

  /** What the index says about `key`. */
  ghost function Lookup(t: Table, key: Key): Option<Extent>
    requires Linked(t)
  {
    var s := FoundAt(t, key);
    if s == -1 then None else Some(Extent(t.slots[s].memOffset, t.slots[s].length))
  }

  /** A key has at most one copy that a lookup can reach from its hash slot. */
  ghost predicate OneCopy(t: Table) {
    Linked(t) && forall x: nat :: x < |t.slots| ==> OneCopyOn(t.slots, x, Path(t, x))
  }

  ghost predicate OneCopyOn(slots: seq<Entry>, x: nat, p: seq<nat>) {
    forall i, j :: 0 <= i < j < |p| && p[i] < |slots| && p[j] < |slots| && slots[p[i]].key == slots[p[j]].key
                   ==> HashSlot(slots[p[i]].key, |slots|) != x
  }

  // ---------- storing a new key ----------

  /** The first slot from `from` on, around the end of the table, that is not in use. */
  function Probe(slots: seq<Entry>, from: nat, steps: nat): nat
    requires from < |slots|
    decreases steps
  {
    if !InUse(slots[from]) || steps == 0 then from
    else Probe(slots, if from + 1 >= |slots| then 0 else from + 1, steps - 1)
  }

  /** The last slot in use on the way from `s`, or -1. */
  ghost function Last(t: Table, s: nat): (l: int)
    requires Linked(t) && s < |t.slots|
    ensures l == -1 <==> !InUse(t.slots[s])
    ensures l != -1 ==> 0 <= l < |t.slots| && InUse(t.slots[l]) && l in Path(t, s)
  {
    var p := Path(t, s);
    if p == [] then -1 else p[|p| - 1]
  }

  /** new_mapping_entry at slot `s`, linked from slot `prev` unless that is -1. */
  function Inserted(t: Table, prev: int, s: nat, key: Key, e: Extent): Table
    requires s < |t.slots| == |t.rank| && -1 <= prev < |t.slots|
  {
    var slots := t.slots[s := t.slots[s].(key := key, memOffset := e.offset, length := e.length)];
    Table(if prev == -1 then slots else slots[prev := slots[prev].(next := s)], t.rank[s := t.top], t.top + 1)
  }

  /** Slot `s` is free, and `prev` ends a chain. */
  ghost predicate CanInsert(t: Table, prev: int, s: nat) {
    && Linked(t) && s < |t.slots| && !InUse(t.slots[s])
    && (prev == -1 || (0 <= prev < |t.slots| && InUse(t.slots[prev])
                       && (t.slots[prev].next == -1 || EndsAt(t, prev))))
  }

  ghost predicate EndsAt(t: Table, prev: nat)
    requires prev < |t.slots|
  {
    0 <= t.slots[prev].next < |t.slots| && !InUse(t.slots[t.slots[prev].next])
  }

  lemma InsertLinked(t: Table, prev: int, s: nat, key: Key, e: Extent)
    requires CanInsert(t, prev, s) && 0 <= e.offset
    ensures Linked(Inserted(t, prev, s, key, e))
  {
    var u := Inserted(t, prev, s, key, e);
    forall x: nat | x < |u.slots| ensures u.slots[x].next == -1 || LinkOk(u, x) {
      assert t.slots[x].next == -1 || LinkOk(t, x);
    }
  }

  /** A path that may end in the new slot `s`, and does if it goes through `prev`. */
  ghost predicate Extended(p: seq<nat>, q: seq<nat>, s: nat, prev: int) {
    && (q == p || q == p + [s])
    && (prev in p ==> q == p + [s])
  }

  lemma ExtendedBehind(x: nat, p: seq<nat>, q: seq<nat>, s: nat, prev: int)
    requires Extended(p, q, s, prev) && x != prev
    ensures Extended([x] + p, [x] + q, s, prev)
  {
    assert [x] + (p + [s]) == [x] + p + [s];
  }

  lemma ExtendedHas(p: seq<nat>, q: seq<nat>, s: nat, prev: int, y: nat)
    requires Extended(p, q, s, prev)
    ensures y in p ==> y in q
    ensures prev in p ==> s in q
  {
  }

  lemma ExtendedEnds(x: nat, s: nat, prev: int)
    ensures Extended([], [], s, prev) && Extended([], [s], s, prev)
    ensures x != prev ==> Extended([x], [x], s, prev)
    ensures Extended([x], [x, s], s, prev)
  {
    assert [x] + [s] == [x, s] && [] + [s] == [s];
  }

  /** The new slot ends the paths through `prev` and the paths that came to it before. */
  lemma {:induction false} InsertPath(t: Table, prev: int, s: nat, key: Key, e: Extent, x: nat)
    requires CanInsert(t, prev, s) && 0 <= e.offset && x < |t.slots|
    ensures var u := Inserted(t, prev, s, key, e);
            && Linked(u) && |u.slots| == |t.slots|
            && Extended(Path(t, x), Path(u, x), s, prev)
            && (x == s ==> Path(u, x) == [s])
    decreases t.top - t.rank[x]
  {
    hide Path, Inserted, Linked, CanInsert, Extended, InUse;
    InsertedLinks(t, prev, s, key, e, x);
    InsertStep(t, prev, s, key, e, x);
    PathStep(t, x);
    ExtendedEnds(x, s, prev);
    if x != s && x != prev && InUse(t.slots[x]) && t.slots[x].next != -1 {
      var next: nat := t.slots[x].next;
      InsertPath(t, prev, s, key, e, next);
      ExtendedBehind(x, Path(t, next), Path(Inserted(t, prev, s, key, e), next), s, prev);
    }
  }

  lemma PathStep(t: Table, x: nat)
    requires Linked(t) && x < |t.slots|
    ensures var next := t.slots[x].next;
            && (InUse(t.slots[x]) && next != -1 ==> 0 <= next < |t.slots| && t.rank[x] < t.rank[next] < t.top)
            && Path(t, x) == if !InUse(t.slots[x]) then [] else if next == -1 then [x] else [x] + Path(t, next)
  {
    assert t.slots[x].next == -1 || LinkOk(t, x);
  }

  /** One link further on a path after an insertion. */
  lemma InsertStep(t: Table, prev: int, s: nat, key: Key, e: Extent, x: nat)
    requires CanInsert(t, prev, s) && 0 <= e.offset && x < |t.slots|
    ensures var u := Inserted(t, prev, s, key, e);
            && Linked(u) && |u.slots| == |t.slots|
            && Path(u, x) == if x == s then [s]
                             else if x == prev then [x, s]
                             else if !InUse(t.slots[x]) then []
                             else if t.slots[x].next == -1 then [x]
                             else [x] + Path(u, t.slots[x].next)
    ensures x == prev ==> Path(t, x) == [x]
  {
    hide Path, Linked, Inserted, CanInsert, HashFunction, HashSlot;
    InsertedLinks(t, prev, s, key, e, x);
    InsertedLinks(t, prev, s, key, e, s);
    var u := Inserted(t, prev, s, key, e);
    InsertLinked(t, prev, s, key, e);
    PathStep(u, x);
    PathStep(u, s);
    PathStep(t, x);
    if x == prev && t.slots[x].next != -1 {
      PathStep(t, t.slots[x].next);
    }
    if x == s {
      assert Path(u, x) == [s];
    } else if x == prev {
      assert Path(u, s) == [s] && Path(u, x) == [x] + Path(u, s);
    }
  }

  lemma InsertedLinks(t: Table, prev: int, s: nat, key: Key, e: Extent, x: nat)
    requires CanInsert(t, prev, s) && 0 <= e.offset && x < |t.slots|
    ensures Linked(t) && s < |t.slots| == |t.rank| && -1 <= prev < |t.slots| && s != prev && !InUse(t.slots[s])
    ensures var u := Inserted(t, prev, s, key, e);
            && |u.slots| == |t.slots|
            && u.slots[x].next == (if x == prev then s else t.slots[x].next)
            && (InUse(u.slots[x]) <==> x == s || InUse(t.slots[x]))
    ensures x == s ==> t.slots[x].next == -1
    ensures x == prev ==> InUse(t.slots[x]) && (t.slots[x].next == -1 || EndsAt(t, x))
  {
  }

  lemma {:induction false} FirstSame(a: seq<Entry>, b: seq<Entry>, p: seq<nat>, key: Key)
    requires |a| == |b| && forall i :: 0 <= i < |p| ==> p[i] < |a| && a[p[i]].key == b[p[i]].key
    ensures FirstWith(a, p, key) == FirstWith(b, p, key)
  {
    if p != [] {
      FirstSame(a, b, p[1..], key);
    }
  }

  lemma {:induction false} FirstAppend(slots: seq<Entry>, p: seq<nat>, s: nat, key: Key)
    requires s < |slots| && forall i :: 0 <= i < |p| ==> p[i] < |slots|
    ensures FirstWith(slots, p + [s], key)
            == if FirstWith(slots, p, key) != -1 then FirstWith(slots, p, key)
               else if slots[s].key == key then s else -1
  {
    if p == [] {
      assert p + [s] == [s];
    } else {
      assert (p + [s])[1..] == p[1..] + [s];
      FirstAppend(slots, p[1..], s, key);
    }
  }

  /** The place of a new key: its hash slot when that is free, and otherwise a free slot that is
      linked from the end of the chain through the hash slot. */
  ghost predicate PlaceFor(t: Table, key: Key, prev: int, s: nat) {
    CanInsert(t, prev, s) &&
    var h := HashSlot(key, |t.slots|);
    if prev == -1 then s == h else prev in Path(t, h)
  }

  lemma LinkedSize(t: Table)
    requires Linked(t)
    ensures 0 < |t.slots| == |t.rank|
  {
  }

  lemma InsertedSlots(t: Table, prev: int, s: nat, key: Key, e: Extent)
    requires CanInsert(t, prev, s)
    ensures var u := Inserted(t, prev, s, key, e).slots;
            && |u| == |t.slots|
            && u[s].key == key && u[s].memOffset == e.offset && u[s].length == e.length
            && forall i: nat :: i < |u| && i != s ==>
                 u[i].key == t.slots[i].key && u[i].memOffset == t.slots[i].memOffset
                   && u[i].length == t.slots[i].length
  {
  }

  /** Where a key is found after an insertion. */
  lemma InsertFound(t: Table, prev: int, s: nat, key: Key, e: Extent, k: Key)
    requires PlaceFor(t, key, prev, s) && 0 <= e.offset
    ensures Linked(Inserted(t, prev, s, key, e))
    ensures FoundAt(t, k) != s
    ensures FoundAt(Inserted(t, prev, s, key, e), k)
            == if FoundAt(t, k) != -1 then FoundAt(t, k) else if k == key then s else -1
  {
    hide HashFunction, HashSlot, Path, Inserted, FirstWith, Linked;
    LinkedSize(t);
    var u := Inserted(t, prev, s, key, e);
    var h := HashSlot(k, |t.slots|);
    InsertPath(t, prev, s, key, e, h);
    InsertedSlots(t, prev, s, key, e);
    FirstSame(t.slots, u.slots, Path(t, h), k);
    FirstAppend(u.slots, Path(t, h), s, k);
    if prev != -1 && k == key {
      assert prev in Path(t, h);
    }
  }

  /** Storing a new key is a map update, whatever was stored and deleted before. */
  lemma InsertMeaning(t: Table, prev: int, s: nat, key: Key, e: Extent, k: Key)
    requires PlaceFor(t, key, prev, s) && 0 <= e.offset && Lookup(t, key).None?
    ensures Linked(Inserted(t, prev, s, key, e))
    ensures Lookup(Inserted(t, prev, s, key, e), k) == if k == key then Some(e) else Lookup(t, k)
  {
    hide HashFunction, HashSlot, Inserted, FoundAt, Linked;
    InsertFound(t, prev, s, key, e, k);
    InsertedSlots(t, prev, s, key, e);
  }

  lemma InsertKeepsOneCopy(t: Table, prev: int, s: nat, key: Key, e: Extent)
    requires PlaceFor(t, key, prev, s) && 0 <= e.offset && Lookup(t, key).None? && OneCopy(t)
    ensures OneCopy(Inserted(t, prev, s, key, e))
  {
    hide HashFunction, HashSlot, Path, Inserted, Linked;
    LinkedSize(t);
    var u := Inserted(t, prev, s, key, e);
    InsertLinked(t, prev, s, key, e);
    InsertedSlots(t, prev, s, key, e);
    forall x: nat | x < |u.slots| ensures OneCopyOn(u.slots, x, Path(u, x)) {
      InsertPath(t, prev, s, key, e, x);
      assert OneCopyOn(t.slots, x, Path(t, x));
    }
  }

  // ---------- finding a free slot ----------

  /** Probing around the table finds a free slot when there is one. */
  lemma {:induction false} ProbeFinds(slots: seq<Entry>, from: nat, free: nat, steps: nat)
    requires from < |slots| && free < |slots| && !InUse(slots[free])
    requires steps >= if from <= free then free - from else free + |slots| - from
    ensures Probe(slots, from, steps) < |slots| && !InUse(slots[Probe(slots, from, steps)])
    decreases steps
  {
    if InUse(slots[from]) {
      ProbeFinds(slots, if from + 1 >= |slots| then 0 else from + 1, free, steps - 1);
    }
  }

  /** The slot found is the first one that is free, on the way around from `from` on. */
  lemma {:induction false} ProbeIsFirst(slots: seq<Entry>, from: nat, steps: nat) returns (k: nat)
    requires from < |slots|
    ensures k <= steps && Probe(slots, from, steps) == Around(from, k, |slots|)
    ensures k < steps ==> !InUse(slots[Around(from, k, |slots|)])
    ensures forall i: nat :: i < k ==> InUse(slots[Around(from, i, |slots|)])
    decreases steps
  {
    if !InUse(slots[from]) || steps == 0 {
      AroundStep(from, 0, |slots|);
      return 0;
    }
    var next := if from + 1 >= |slots| then 0 else from + 1;
    var rest := ProbeIsFirst(slots, next, steps - 1);
    k := rest + 1;
    forall i: nat | i <= k ensures i > 0 ==> Around(from, i, |slots|) == Around(next, i - 1, |slots|) {
      if i > 0 {
        AroundStep(from, i - 1, |slots|);
      }
    }
    AroundStep(from, 0, |slots|);
    forall i: nat | i < k ensures InUse(slots[Around(from, i, |slots|)]) {
      if i > 0 {
        assert Around(from, i, |slots|) == Around(next, i - 1, |slots|);
      }
    }
  }

  /** Slot number `i` behind `from`, around the end of the table. */
  function Around(from: nat, i: nat, n: nat): (s: nat)
    requires from < n
    ensures s < n
  {
    (from + i) % n
  }

  lemma AroundStep(from: nat, i: nat, n: nat)
    requires from < n
    ensures Around(from, 0, n) == from
    ensures Around(from, i + 1, n) == Around(if from + 1 >= n then 0 else from + 1, i, n)
  {
    DivModUnique(0, n, from);
    if from + 1 >= n {
      var q, r := i / n, i % n;
      assert i == q * n + r;
      assert from + (i + 1) == (q + 1) * n + r;
      DivModUnique(q + 1, n, r);
      DivModUnique(q, n, r);
    }
  }

  ghost predicate HasFree(t: Table) {
    exists s: nat :: s < |t.slots| && !InUse(t.slots[s])
  }

  /** The slots in use have different ranks, from 1 on: there are no more of them than insertions. */
  ghost predicate Numbered(t: Table) {
    && |t.slots| == |t.rank|
    && (forall s: nat :: s < |t.slots| && InUse(t.slots[s]) ==> 1 <= t.rank[s] < t.top)
    && (forall a: nat, b: nat :: a < b < |t.slots| && InUse(t.slots[a]) && InUse(t.slots[b]) ==> t.rank[a] != t.rank[b])
  }

  lemma RoomLeft(t: Table)
    requires Linked(t) && Numbered(t) && t.top <= |t.slots|
    ensures HasFree(t)
  {
    if !HasFree(t) {
      var p: seq<nat> := seq(|t.rank|, i requires 0 <= i < |t.rank| => if t.rank[i] == 0 then 0 else t.rank[i] - 1);
      forall i | 0 <= i < |p| ensures p[i] < t.top - 1 && p[i] == t.rank[i] - 1 {
        var s: nat := i;
        assert InUse(t.slots[s]);
      }
      assert t.rank[0] < t.top;
      Pigeons(p, t.top - 1);
      assert false;
    }
  }

  /** The slot new_mapping_entry takes, and the one it links from. */
  ghost function PrevFor(t: Table, key: Key): int
    requires Linked(t)
  {
    Last(t, HashSlot(key, |t.slots|))
  }

  ghost function SlotFor(t: Table, key: Key): (s: nat)
    requires Linked(t)
  {
    var h := HashSlot(key, |t.slots|);
    if !InUse(t.slots[h]) then h else Probe(t.slots, Last(t, h), |t.slots|)
  }

  lemma {:induction false} LastEnds(t: Table, x: nat)
    requires Linked(t) && x < |t.slots| && InUse(t.slots[x])
    ensures Last(t, x) >= 0 && (t.slots[Last(t, x)].next == -1 || EndsAt(t, Last(t, x)))
    decreases t.top - t.rank[x]
  {
    var next := t.slots[x].next;
    if next != -1 {
      assert LinkOk(t, x);
      if InUse(t.slots[next]) {
        LastEnds(t, next);
        assert Path(t, x) == [x] + Path(t, next);
        assert Last(t, x) == Last(t, next);
      } else {
        assert Path(t, x) == [x];
      }
    } else {
      assert Path(t, x) == [x];
    }
  }

  lemma PlaceExists(t: Table, key: Key)
    requires Linked(t) && HasFree(t)
    ensures PlaceFor(t, key, PrevFor(t, key), SlotFor(t, key))
  {
    hide HashFunction, HashSlot;
    var h := HashSlot(key, |t.slots|);
    if InUse(t.slots[h]) {
      LastEnds(t, h);
      var free: nat :| free < |t.slots| && !InUse(t.slots[free]);
      ProbeFinds(t.slots, Last(t, h), free, |t.slots|);
    }
  }

  // ---------- deleting ----------

  /** memset of an entry to all ones. */
  function Erased(): Entry { Entry(seq(18, i => 0xFF), -1, -1, -1) }

  /** delete_mapping_entry of slot `d`. */
  function Removed(t: Table, d: nat): Table
    requires d < |t.slots|
  {
    Table(t.slots[d := Erased()], t.rank, t.top)
  }

  /** A path up to slot `d`. */
  function Cut(p: seq<nat>, d: nat): (c: seq<nat>)
    ensures c <= p && d !in c
    ensures d !in p ==> c == p
    ensures c == p || p[|c|] == d
  {
    if p == [] || p[0] == d then [] else [p[0]] + Cut(p[1..], d)
  }

  lemma RemoveLinked(t: Table, d: nat)
    requires Linked(t) && d < |t.slots|
    ensures Linked(Removed(t, d))
  {
    var u := Removed(t, d);
    forall x: nat | x < |u.slots| ensures u.slots[x].next == -1 || LinkOk(u, x) {
      assert t.slots[x].next == -1 || LinkOk(t, x);
    }
  }

  /** A path ends where it came to the deleted slot: the rest of the chain is lost. */
  lemma {:induction false} RemovePath(t: Table, d: nat, x: nat)
    requires Linked(t) && d < |t.slots| && x < |t.slots|
    ensures Linked(Removed(t, d)) && Path(Removed(t, d), x) == Cut(Path(t, x), d)
    decreases t.top - t.rank[x]
  {
    var u := Removed(t, d);
    RemoveLinked(t, d);
    if x != d && InUse(t.slots[x]) && t.slots[x].next != -1 {
      assert LinkOk(t, x) && LinkOk(u, x);
      RemovePath(t, d, t.slots[x].next);
      assert Path(t, x)[1..] == Path(t, t.slots[x].next);
    }
  }

  lemma {:induction false} FirstCut(slots: seq<Entry>, p: seq<nat>, d: nat, key: Key)
    requires forall i :: 0 <= i < |p| ==> p[i] < |slots|
    ensures var s := FirstWith(slots, p, key);
            FirstWith(slots, Cut(p, d), key) == if s != -1 && s in Cut(p, d) then s else -1
  {
    if p != [] && p[0] != d {
      assert Cut(p, d)[1..] == Cut(p[1..], d);
      FirstCut(slots, p[1..], d, key);
    }
  }

  /** The lookup of `k` finds it without passing slot `d`. */
  ghost predicate FoundBefore(t: Table, k: Key, d: nat)
    requires Linked(t)
  {
    FoundAt(t, k) in Cut(Path(t, HashSlot(k, |t.slots|)), d)
  }

  /** After deleting slot `d`, exactly the keys are found that were found without passing it. */
  lemma RemoveMeaning(t: Table, d: nat, k: Key)
    requires Linked(t) && d < |t.slots|
    ensures Linked(Removed(t, d))
    ensures Lookup(Removed(t, d), k) == if FoundBefore(t, k, d) then Lookup(t, k) else None
  {
    hide HashFunction, HashSlot, Linked, Path, FirstWith;
    var h := HashSlot(k, |t.slots|);
    var u := Removed(t, d);
    RemovePath(t, d, h);
    FirstCut(t.slots, Path(t, h), d, k);
    FirstSame(t.slots, u.slots, Cut(Path(t, h), d), k);
  }

  /** A key that was just deleted is not found. */
  lemma DeletedIsGone(t: Table, key: Key)
    requires Linked(t) && FoundAt(t, key) != -1
    ensures Linked(Removed(t, FoundAt(t, key))) && Lookup(Removed(t, FoundAt(t, key)), key) == None
  {
    RemoveMeaning(t, FoundAt(t, key), key);
  }

  lemma RemoveKeepsOneCopy(t: Table, d: nat)
    requires OneCopy(t) && d < |t.slots|
    ensures OneCopy(Removed(t, d))
  {
    hide HashFunction, HashSlot, Path, Linked;
    var u := Removed(t, d);
    RemoveLinked(t, d);
    forall x: nat | x < |u.slots| ensures OneCopyOn(u.slots, x, Path(u, x)) {
      RemovePath(t, d, x);
      assert OneCopyOn(t.slots, x, Path(t, x));
    }
  }

  // ---------- tables that only saw stores ----------

  /** Every entry is found from its hash slot. */
  ghost predicate Rooted(t: Table) {
    Linked(t) && forall s: nat :: s < |t.slots| && InUse(t.slots[s]) ==>
        s in Path(t, HashSlot(t.slots[s].key, |t.slots|))
  }

  ghost predicate LinksAway(t: Table, a: nat)
    requires a < |t.slots|
  {
    var next := t.slots[a].next;
    0 <= next < |t.slots| && InUse(t.slots[next]) && HashSlot(t.slots[next].key, |t.slots|) != next
  }

  /** Every link leads to an entry away from its own hash slot. */
  ghost predicate Away(t: Table) {
    forall a: nat :: a < |t.slots| && t.slots[a].next != -1 ==> LinksAway(t, a)
  }

  /** No two links lead to the same entry. */
  ghost predicate Single(t: Table) {
    forall a: nat, b: nat :: a < b < |t.slots| && t.slots[a].next != -1 ==> t.slots[a].next != t.slots[b].next
  }

  ghost predicate Whole(t: Table) { OneCopy(t) && Rooted(t) && Away(t) && Single(t) }

  lemma InsertKeepsRooted(t: Table, prev: int, s: nat, key: Key, e: Extent)
    requires PlaceFor(t, key, prev, s) && 0 <= e.offset && Rooted(t)
    ensures Rooted(Inserted(t, prev, s, key, e))
  {
    hide HashFunction, HashSlot, Path, Inserted, Linked, PlaceFor;
    PlaceCanInsert(t, key, prev, s);
    LinkedSize(t);
    var u := Inserted(t, prev, s, key, e);
    InsertLinked(t, prev, s, key, e);
    InsertedSlots(t, prev, s, key, e);
    forall x: nat | x < |u.slots| && InUse(u.slots[x]) ensures x in Path(u, HashSlot(u.slots[x].key, |u.slots|)) {
      InsertKeepsRoot(t, prev, s, key, e, x);
    }
  }

  lemma PlaceCanInsert(t: Table, key: Key, prev: int, s: nat)
    requires PlaceFor(t, key, prev, s)
    ensures CanInsert(t, prev, s)
  {
  }

  lemma InsertKeepsRoot(t: Table, prev: int, s: nat, key: Key, e: Extent, x: nat)
    requires PlaceFor(t, key, prev, s) && 0 <= e.offset && Rooted(t) && x < |t.slots| == |t.rank| && prev < |t.slots|
    requires var u := Inserted(t, prev, s, key, e); Linked(u) && |u.slots| == |t.slots| && InUse(u.slots[x])
    ensures var u := Inserted(t, prev, s, key, e); x in Path(u, HashSlot(u.slots[x].key, |u.slots|))
  {
    hide HashFunction, HashSlot, Path, Inserted, Linked, Extended;
    var u := Inserted(t, prev, s, key, e);
    InsertedSlots(t, prev, s, key, e);
    var h := HashSlot(u.slots[x].key, |u.slots|);
    InsertPath(t, prev, s, key, e, h);
    ExtendedHas(Path(t, h), Path(u, h), s, prev, x);
  }

  lemma InsertKeepsAway(t: Table, prev: int, s: nat, key: Key, e: Extent)
    requires CanInsert(t, prev, s) && 0 <= e.offset && Away(t) && Single(t)
    requires prev != -1 ==> HashSlot(key, |t.slots|) != s
    ensures Away(Inserted(t, prev, s, key, e)) && Single(Inserted(t, prev, s, key, e))
  {
    hide HashFunction, HashSlot;
    var u := Inserted(t, prev, s, key, e);
    forall a: nat | a < |u.slots| && u.slots[a].next != -1 ensures LinksAway(u, a) {
      if a != prev {
        assert LinksAway(t, a);
      }
    }
    forall a: nat, b: nat | a < b < |u.slots| && u.slots[a].next != -1 ensures u.slots[a].next != u.slots[b].next {
      assert t.slots[a].next != -1 ==> LinksAway(t, a);
      assert t.slots[b].next != -1 ==> LinksAway(t, b);
    }
  }

  lemma InsertKeepsWhole(t: Table, key: Key, e: Extent)
    requires Whole(t) && HasFree(t) && 0 <= e.offset && Lookup(t, key).None?
    ensures PlaceFor(t, key, PrevFor(t, key), SlotFor(t, key))
    ensures Whole(Inserted(t, PrevFor(t, key), SlotFor(t, key), key, e))
  {
    hide HashFunction, HashSlot, OneCopy, Rooted, Away, Single, Inserted;
    assert OneCopy(t) ==> Linked(t) by { OneCopyLinked(t); }
    var prev, s := PrevFor(t, key), SlotFor(t, key);
    PlaceExists(t, key);
    InsertKeepsOneCopy(t, prev, s, key, e);
    InsertKeepsRooted(t, prev, s, key, e);
    InsertKeepsAway(t, prev, s, key, e);
  }

  lemma OneCopyLinked(t: Table)
    ensures OneCopy(t) ==> Linked(t)
  {
  }

  /** Along a path every slot links to the next, and only the last may have no link. */
  lemma {:induction false} PathLinks(t: Table, x: nat, j: nat)
    requires Linked(t) && x < |t.slots| && j + 1 < |Path(t, x)|
    ensures t.slots[Path(t, x)[j]].next == Path(t, x)[j + 1]
    decreases t.top - t.rank[x]
  {
    var next := t.slots[x].next;
    assert LinkOk(t, x);
    if j > 0 {
      PathLinks(t, next, j - 1);
    }
  }

  lemma {:induction false} CutBefore(p: seq<nat>, d: nat, i: nat)
    requires i < |p| && forall j :: 0 <= j < i ==> p[j] != d
    ensures p[i] != d ==> p[i] in Cut(p, d)
  {
    if i > 0 {
      CutBefore(p[1..], d, i - 1);
    }
  }

  /** Deleting an entry at the end of its chain loses no other key. */
  lemma EndLosesNone(t: Table, d: nat, k: Key)
    requires Linked(t) && d < |t.slots| && t.slots[d].next == -1 && FoundAt(t, k) != -1 && FoundAt(t, k) != d
    ensures FoundBefore(t, k, d)
  {
    hide HashFunction, HashSlot, Path;
    var p := Path(t, HashSlot(k, |t.slots|));
    var i: nat :| i < |p| && p[i] == FoundAt(t, k);
    forall j: nat | j < i ensures p[j] != d {
      PathLinks(t, HashSlot(k, |t.slots|), j);
    }
    CutBefore(p, d, i);
  }

  lemma NextFacts(t: Table, d: nat)
    requires Whole(t) && d < |t.slots| && t.slots[d].next != -1
    ensures LinksAway(t, d) && Linked(t)
    ensures t.slots[d].next in Path(t, HashSlot(t.slots[t.slots[d].next].key, |t.slots|))
  {
    hide HashFunction, HashSlot, Path, Single, Linked;
    OneCopyLinked(t);
  }

  lemma SameSource(t: Table, a: nat, b: nat)
    requires Single(t) && a < |t.slots| && b < |t.slots| && t.slots[a].next == t.slots[b].next != -1
    ensures a == b
  {
  }

  /** The slot that `d` links to is on the path of its own key, right behind `d`. */
  lemma NextIsReached(t: Table, d: nat) returns (j: nat)
    requires Whole(t) && d < |t.slots| && t.slots[d].next != -1
    ensures LinksAway(t, d) && Linked(t)
    ensures var p := Path(t, HashSlot(t.slots[t.slots[d].next].key, |t.slots|));
            0 < j < |p| && p[j] == t.slots[d].next && p[j - 1] == d
  {
    hide HashFunction, HashSlot, Path, OneCopy, Linked, Rooted, Away, Single;
    NextFacts(t, d);
    var x: nat := t.slots[d].next;
    var h := HashSlot(t.slots[x].key, |t.slots|);
    j :| 0 <= j < |Path(t, h)| && Path(t, h)[j] == x;
    PathLinks(t, h, j - 1);
    SameSource(t, Path(t, h)[j - 1], d);
  }

  /** The only copy of a key on its path is the one that is found. */
  lemma OnlyCopyIsFound(t: Table, k: Key, j: nat)
    requires OneCopy(t)
    requires j < |Path(t, HashSlot(k, |t.slots|))| && t.slots[Path(t, HashSlot(k, |t.slots|))[j]].key == k
    ensures FoundAt(t, k) == Path(t, HashSlot(k, |t.slots|))[j]
  {
    hide HashFunction, HashSlot, Path, Linked;
    var h := HashSlot(k, |t.slots|);
    var p := Path(t, h);
    assert OneCopyOn(t.slots, h, p);
    assert FoundAt(t, k) in p;
    var f: nat :| f < |p| && p[f] == FoundAt(t, k);
  }

  lemma {:induction false} NotBeforeCut(p: seq<nat>, d: nat, j: nat)
    requires 0 < j < |p| && p[j - 1] == d && NoDup(p)
    ensures p[j] !in Cut(p, d)
  {
    if j > 1 {
      NotBeforeCut(p[1..], d, j - 1);
    }
  }

  /** Deleting an entry with a link loses the entry it links to. */
  lemma LinkLosesNext(t: Table, d: nat)
    requires Whole(t) && d < |t.slots| && t.slots[d].next != -1
    ensures LinksAway(t, d) && Linked(t)
    ensures var k := t.slots[t.slots[d].next].key;
            FoundAt(t, k) == t.slots[d].next && !FoundBefore(t, k, d)
  {
    hide HashFunction, HashSlot, Path, OneCopy, FoundAt, Cut, NoDup, Linked, Rooted, Away, Single;
    var j := NextIsReached(t, d);
    var k := t.slots[t.slots[d].next].key;
    var h := HashSlot(k, |t.slots|);
    OnlyCopyIsFound(t, k, j);
    PathNoDup(t, h);
    NotBeforeCut(Path(t, h), d, j);
  }

  /** In a table that only saw stores, a delete is the removal of its key from a map exactly when
      the entry is at the end of its chain. */
  lemma DeleteIsRemoval(t: Table, key: Key)
    requires Whole(t) && Lookup(t, key).Some?
    ensures Linked(Removed(t, FoundAt(t, key)))
    ensures (forall k: Key :: Lookup(Removed(t, FoundAt(t, key)), k) == if k == key then None else Lookup(t, k))
            <==> t.slots[FoundAt(t, key)].next == -1
  {
    hide HashFunction, HashSlot, Path, FoundBefore, Removed, OneCopy, Rooted, Away, Single, FoundAt;
    OneCopyLinked(t);
    var d: nat := FoundAt(t, key);
    var u := Removed(t, d);
    RemoveLinked(t, d);
    DeletedIsGone(t, key);
    if t.slots[d].next == -1 {
      forall k: Key ensures Lookup(u, k) == if k == key then None else Lookup(t, k) {
        RemoveMeaning(t, d, k);
        if k != key && FoundAt(t, k) != -1 {
          EndLosesNone(t, d, k);
        }
      }
    } else {
      LinkLosesNext(t, d);
      var k := t.slots[t.slots[d].next].key;
      RemoveMeaning(t, d, k);
      NotItself(t, d);
      assert k != key;
    }
  }

  lemma NotItself(t: Table, d: nat)
    requires Linked(t) && d < |t.slots|
    ensures t.slots[d].next != d
  {
    assert t.slots[d].next == -1 || LinkOk(t, d);
  }
}
