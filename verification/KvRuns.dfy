/** Runs of stores and deletes on the key index of kv_ftl.c. */
module KvRuns {
  import opened Options
  import opened KvIndex

  const SMALL_LENGTH: nat := 1024

  /** The length an entry keeps when its value is stored again: a small value may change its length,
      a large one may not. */
  function NewLength(was: int, length: nat): int {
    if length != was && length <= SMALL_LENGTH && was <= SMALL_LENGTH then length else was
  }

  /** update_mapping_entry of slot `s`. */
  function Updated(t: Table, s: nat, length: int): Table
    requires s < |t.slots|
  {
    Table(t.slots[s := t.slots[s].(length := length)], t.rank, t.top)
  }

  lemma {:induction false} UpdatePath(t: Table, s: nat, length: int, x: nat)
    requires Linked(t) && s < |t.slots| && x < |t.slots|
    ensures Linked(Updated(t, s, length)) && Path(Updated(t, s, length), x) == Path(t, x)
    decreases t.top - t.rank[x]
  {
    var u := Updated(t, s, length);
    forall y: nat | y < |u.slots| ensures u.slots[y].next == -1 || LinkOk(u, y) {
      assert t.slots[y].next == -1 || LinkOk(t, y);
    }
    if InUse(t.slots[x]) && t.slots[x].next != -1 {
      assert LinkOk(t, x) && LinkOk(u, x);
      UpdatePath(t, s, length, t.slots[x].next);
    }
  }

  lemma UpdateMeaning(t: Table, key: Key, length: int, k: Key)
    requires Linked(t) && FoundAt(t, key) != -1
    ensures var u := Updated(t, FoundAt(t, key), length);
            && Linked(u)
            && Lookup(u, k)
               == if k == key then Some(Extent(t.slots[FoundAt(t, key)].memOffset, length)) else Lookup(t, k)
  {
    hide HashFunction, HashSlot, Path, FirstWith, Linked;
    var u := Updated(t, FoundAt(t, key), length);
    LinkedSize(t);
    var h := HashSlot(k, |t.slots|);
    UpdatePath(t, FoundAt(t, key), length, h);
    FirstSame(t.slots, u.slots, Path(t, h), k);
  }

  lemma UpdateLinked(t: Table, s: nat, length: int)
    requires Linked(t) && s < |t.slots|
    ensures Linked(Updated(t, s, length))
    ensures Numbered(t) ==> Numbered(Updated(t, s, length))
    ensures forall x: nat :: x < |t.slots| ==> Path(Updated(t, s, length), x) == Path(t, x)
  {
    UpdatePath(t, s, length, s);
    forall x: nat | x < |t.slots| ensures Path(Updated(t, s, length), x) == Path(t, x) {
      UpdatePath(t, s, length, x);
    }
  }

  lemma UpdateKeepsOneCopy(t: Table, s: nat, length: int)
    requires OneCopy(t) && s < |t.slots|
    ensures OneCopy(Updated(t, s, length))
  {
    hide HashFunction, HashSlot, Path, Linked;
    UpdateLinked(t, s, length);
    var u := Updated(t, s, length);
    forall x: nat | x < |u.slots| ensures OneCopyOn(u.slots, x, Path(u, x)) {
      assert OneCopyOn(t.slots, x, Path(t, x));
    }
  }

  lemma UpdateKeepsRooted(t: Table, s: nat, length: int)
    requires Rooted(t) && s < |t.slots|
    ensures Rooted(Updated(t, s, length))
  {
    hide HashFunction, HashSlot, Path, Linked;
    UpdateLinked(t, s, length);
    var u := Updated(t, s, length);
    forall x: nat | x < |u.slots| && InUse(u.slots[x]) ensures x in Path(u, HashSlot(u.slots[x].key, |u.slots|)) {
      assert InUse(t.slots[x]);
    }
  }

  lemma UpdateKeepsAway(t: Table, s: nat, length: int)
    requires Away(t) && Single(t) && s < |t.slots|
    ensures Away(Updated(t, s, length)) && Single(Updated(t, s, length))
  {
    hide HashFunction, HashSlot;
    var u := Updated(t, s, length);
    forall a: nat | a < |u.slots| && u.slots[a].next != -1 ensures LinksAway(u, a) {
      assert LinksAway(t, a);
    }
  }

  lemma UpdateKeepsWhole(t: Table, s: nat, length: int)
    requires Whole(t) && s < |t.slots|
    ensures Whole(Updated(t, s, length))
  {
    hide OneCopy, Rooted, Away, Single, Updated;
    UpdateKeepsOneCopy(t, s, length);
    UpdateKeepsRooted(t, s, length);
    UpdateKeepsAway(t, s, length);
  }

  // ---------- single steps ----------

  /** A store of `key`; `offset` is what the allocator gives to a new value.  A new key does not get
      past the search for a free slot when there is none. */
  ghost function Stored(t: Table, key: Key, offset: nat, length: nat): Table
    requires Linked(t)
  {
    var s := FoundAt(t, key);
    if s != -1 then Updated(t, s, NewLength(t.slots[s].length, length))
    else if HasFree(t) then
      PlaceExists(t, key);
      Inserted(t, PrevFor(t, key), SlotFor(t, key), key, Extent(offset, length))
    else t
  }

  ghost function Deleted(t: Table, key: Key): Table
    requires Linked(t)
  {
    if FoundAt(t, key) != -1 then Removed(t, FoundAt(t, key)) else t
  }

  /** The same store on a finite map. */
  function StoredMap(m: map<Key, Extent>, key: Key, offset: nat, length: nat): map<Key, Extent> {
    m[key := if key in m then Extent(m[key].offset, NewLength(m[key].length, length)) else Extent(offset, length)]
  }

  function Get(m: map<Key, Extent>, key: Key): Option<Extent> {
    if key in m then Some(m[key]) else None
  }

  lemma InsertNumbered(t: Table, prev: int, s: nat, key: Key, e: Extent)
    requires CanInsert(t, prev, s) && 0 <= e.offset && Numbered(t)
    ensures Numbered(Inserted(t, prev, s, key, e))
  {
    assert t.rank[s] < t.top;
  }

  lemma StoreSize(t: Table, key: Key, offset: nat, length: nat)
    requires Linked(t)
    ensures |Stored(t, key, offset, length).slots| == |t.slots|
  {
    if FoundAt(t, key) == -1 && HasFree(t) {
      PlaceExists(t, key);
    }
  }

  lemma StoreKeeps(t: Table, key: Key, offset: nat, length: nat)
    requires OneCopy(t)
    ensures OneCopy(Stored(t, key, offset, length))
    ensures Whole(t) ==> Whole(Stored(t, key, offset, length))
    ensures Numbered(t) ==> Numbered(Stored(t, key, offset, length))
  {
    hide HashFunction, HashSlot, Path, OneCopy, Rooted, Away, Single, Numbered, Inserted, Updated, CanInsert;
    hide Linked, FoundAt;
    OneCopyLinked(t);
    var s := FoundAt(t, key);
    if s != -1 {
      UpdateKeepsOneCopy(t, s, NewLength(t.slots[s].length, length));
      UpdateLinked(t, s, NewLength(t.slots[s].length, length));
      if Whole(t) {
        UpdateKeepsWhole(t, s, NewLength(t.slots[s].length, length));
      }
    } else if HasFree(t) {
      PlaceExists(t, key);
      InsertKeepsOneCopy(t, PrevFor(t, key), SlotFor(t, key), key, Extent(offset, length));
      if Whole(t) {
        InsertKeepsWhole(t, key, Extent(offset, length));
      }
      if Numbered(t) {
        InsertNumbered(t, PrevFor(t, key), SlotFor(t, key), key, Extent(offset, length));
      }
    }
  }

  /** Whatever was stored and deleted before, a store is a map update, except that of a new key when
      every slot is in use: it goes around the table forever and changes nothing. */
  lemma StoreMeaning(t: Table, m: map<Key, Extent>, key: Key, offset: nat, length: nat, k: Key)
    requires Linked(t) && Lookup(t, k) == Get(m, k) && Lookup(t, key) == Get(m, key)
    ensures Linked(Stored(t, key, offset, length))
    ensures Lookup(Stored(t, key, offset, length), k)
            == Get(if key in m || HasFree(t) then StoredMap(m, key, offset, length) else m, k)
  {
    hide HashFunction, HashSlot, Path, Inserted, Updated, CanInsert, Linked, FoundAt;
    var s := FoundAt(t, key);
    if s != -1 {
      UpdateMeaning(t, key, NewLength(t.slots[s].length, length), k);
    } else if HasFree(t) {
      PlaceExists(t, key);
      InsertMeaning(t, PrevFor(t, key), SlotFor(t, key), key, Extent(offset, length), k);
    }
  }

  /** Storing a key that is there keeps its place.  Its length becomes the new one exactly when both
      lengths are at most 1024, and stays otherwise; no other key is affected. */
  lemma StoreAgain(t: Table, key: Key, offset: nat, length: nat, k: Key)
    requires Linked(t) && Lookup(t, key).Some?
    ensures Linked(Stored(t, key, offset, length))
    ensures var was := Lookup(t, key).value;
            Lookup(Stored(t, key, offset, length), k) ==
              if k != key then Lookup(t, k)
              else if was.length <= 1024 && length <= 1024 then Some(Extent(was.offset, length))
              else Some(was)
  {
    hide HashFunction, HashSlot, Linked, Stored;
    var m := map[key := Lookup(t, key).value];
    var all := if Lookup(t, k).Some? then m[k := Lookup(t, k).value] else m;
    StoreMeaning(t, all, key, offset, length, k);
  }

  /** Storing a key that is not there puts it at the offset given, with the length given, when some slot
      is free, and changes nothing otherwise; no other key is affected. */
  lemma StoreFirst(t: Table, key: Key, offset: nat, length: nat, k: Key)
    requires Linked(t) && Lookup(t, key).None?
    ensures Linked(Stored(t, key, offset, length))
    ensures Lookup(Stored(t, key, offset, length), k)
            == if k == key && HasFree(t) then Some(Extent(offset, length)) else Lookup(t, k)
  {
    hide HashFunction, HashSlot, Linked, Stored;
    var m := if Lookup(t, k).Some? then map[k := Lookup(t, k).value] else map[];
    StoreMeaning(t, m, key, offset, length, k);
  }

  // ---------- runs ----------

  datatype Op = Store(key: Key, offset: nat, length: nat) | Delete(key: Key)

  /** kv_init_namespace */
  function Initial(n: nat): Table {
    Table(seq(n, i => Entry(seq(18, j => 0), -1, -1, -1)), seq(n, i => 0), 1)
  }

  lemma InitialWhole(n: nat)
    requires 0 < n
    ensures Whole(Initial(n)) && Numbered(Initial(n))
    ensures forall k: Key :: Lookup(Initial(n), k) == None
  {
    hide HashFunction, HashSlot;
    var t := Initial(n);
    forall x: nat | x < n ensures Path(t, x) == [] {
    }
  }

  ghost function Step(t: Table, op: Op): (u: Table)
    requires OneCopy(t)
    ensures OneCopy(u) && |u.slots| == |t.slots|
  {
    OneCopyLinked(t);
    match op
    case Store(key, offset, length) =>
      StoreKeeps(t, key, offset, length);
      StoreSize(t, key, offset, length);
      Stored(t, key, offset, length)
    case Delete(key) =>
      DeleteKeeps(t, key);
      Deleted(t, key)
  }

  ghost function Run(n: nat, ops: seq<Op>): (t: Table)
    requires 0 < n
    ensures OneCopy(t) && |t.slots| == n
  {
    if ops == [] then InitialWhole(n); Initial(n) else Step(Run(n, ops[..|ops| - 1]), ops[|ops| - 1])
  }

  lemma DeleteKeeps(t: Table, key: Key)
    requires OneCopy(t)
    ensures OneCopy(Deleted(t, key))
  {
    hide OneCopy, Linked, FoundAt;
    OneCopyLinked(t);
    if FoundAt(t, key) != -1 {
      RemoveKeepsOneCopy(t, FoundAt(t, key));
    }
  }

  function MapRun(ops: seq<Op>): map<Key, Extent>
    requires forall op :: op in ops ==> op.Store?
  {
    if ops == [] then map[]
    else
      var op := ops[|ops| - 1];
      StoredMap(MapRun(ops[..|ops| - 1]), op.key, op.offset, op.length)
  }

  /** Whatever was stored and deleted: lookups end within as many steps as there are slots, a key has
      at most one copy to be found, and a key that is deleted is not found. */
  lemma RunIsSafe(n: nat, ops: seq<Op>, x: nat, key: Key)
    requires 0 < n && x < n
    ensures |Path(Run(n, ops), x)| <= n && OneCopy(Run(n, ops))
    ensures Lookup(Run(n, ops + [Delete(key)]), key) == None
  {
    hide HashFunction, HashSlot, Path, FoundAt;
    LookupEnds(Run(n, ops), x);
    assert (ops + [Delete(key)])[..|ops|] == ops;
    var t := Run(n, ops);
    if FoundAt(t, key) != -1 {
      DeletedIsGone(t, key);
    }
  }

  /** A run of stores agrees with a finite map, as long as the map has no more keys than the table
      has slots. */
  lemma {:induction false} StoresAgree(n: nat, ops: seq<Op>, k: Key)
    requires 0 < n && (forall op :: op in ops ==> op.Store?) && |MapRun(ops)| <= n
    ensures Lookup(Run(n, ops), k) == Get(MapRun(ops), k)
    ensures Whole(Run(n, ops)) && Numbered(Run(n, ops)) && Run(n, ops).top == |MapRun(ops)| + 1
  {
    if ops == [] {
      InitialWhole(n);
    } else {
      var most, op := ops[..|ops| - 1], ops[|ops| - 1];
      var t := Run(n, most);
      StoresAgree(n, most, k);
      StoresAgree(n, most, op.key);
      if op.key !in MapRun(most) {
        RoomLeft(t);
      }
      StoreKeeps(t, op.key, op.offset, op.length);
      StoreMeaning(t, MapRun(most), op.key, op.offset, op.length, k);
    }
  }

  // ---------- a delete that takes another key with it ----------

  /** Whatever the size of the table, two keys of one hash slot are enough: the second one is found
      until the first one is deleted. */
  lemma DeleteLosesNext(n: nat, a: Key, b: Key, x: Extent, y: Extent)
    requires 2 <= n && a != b && HashSlot(a, n) == HashSlot(b, n)
    requires 0 <= x.offset && 0 <= x.length && 0 <= y.offset && 0 <= y.length
    ensures var stores := [Store(a, x.offset, x.length), Store(b, y.offset, y.length)];
            && Lookup(Run(n, stores), b) == Some(y)
            && Lookup(Run(n, stores + [Delete(a)]), b) == None
  {
    hide HashFunction, HashSlot, Path, FoundAt, FoundBefore, OneCopy, Removed, Inserted;
    var s1, s2 := Store(a, x.offset, x.length), Store(b, y.offset, y.length);
    TwoStores(n, a, b, x, y);
    var t := Run(n, [s1, s2]);
    assert ([s1, s2] + [Delete(a)])[..2] == [s1, s2];
    OneCopyLinked(t);
    HeadIsFirst(t, a, b);
    RemoveMeaning(t, FoundAt(t, a), b);
  }

  /** After the two stores the first key is in the hash slot. */
  lemma TwoStores(n: nat, a: Key, b: Key, x: Extent, y: Extent)
    requires 2 <= n && a != b && HashSlot(a, n) == HashSlot(b, n)
    requires 0 <= x.offset && 0 <= x.length && 0 <= y.offset && 0 <= y.length
    ensures var t := Run(n, [Store(a, x.offset, x.length), Store(b, y.offset, y.length)]);
            && Lookup(t, b) == Some(y) && |t.slots| == n
            && InUse(t.slots[HashSlot(a, n)]) && t.slots[HashSlot(a, n)].key == a
  {
    hide HashFunction, HashSlot, Path, FoundAt, OneCopy, Whole, Numbered;
    var s1, s2 := Store(a, x.offset, x.length), Store(b, y.offset, y.length);
    assert [s1, s2][..1] == [s1] && [s1][..0] == [];
    var t0, t1 := Run(n, []), Run(n, [s1]);
    assert MapRun([]) == map[];
    assert MapRun([s1]) == map[a := x];
    assert MapRun([s1, s2]) == map[a := x, b := y];
    StoresAgree(n, [s1, s2], b);
    StoresAgree(n, [s1], b);
    StoresAgree(n, [], a);
    OneCopyLinked(t0);
    OneCopyLinked(t1);
    RoomLeft(t0);
    RoomLeft(t1);
    PlaceExists(t0, a);
    PlaceExists(t1, b);
  }

  /** A key in the first slot of a chain is found there, and nothing is found before it. */
  lemma HeadIsFirst(t: Table, a: Key, b: Key)
    requires Linked(t) && a != b && HashSlot(a, |t.slots|) == HashSlot(b, |t.slots|)
    requires InUse(t.slots[HashSlot(a, |t.slots|)]) && t.slots[HashSlot(a, |t.slots|)].key == a
    ensures FoundAt(t, a) == HashSlot(a, |t.slots|) && !FoundBefore(t, b, FoundAt(t, a))
  {
    hide HashFunction, HashSlot;
  }

  /** Two such keys in a table of two slots. */
  lemma LostKey()
    ensures var stores := [Store([0], 0, 4), Store([2], 8, 4)];
            && Lookup(Run(2, stores), [2]) == Some(Extent(8, 4))
            && Lookup(Run(2, stores + [Delete([0])]), [2]) == None
  {
    hide Run, Linked;
    OneByteHash(0);
    OneByteHash(2);
    DeleteLosesNext(2, [0], [2], Extent(0, 4), Extent(8, 4));
  }

  lemma OneByteHash(c: bv8)
    requires c == 0 || c == 2
    ensures HashSlot([c], 2) == 1
  {
    assert [c][..0] == [];
    assert HashFunction([c]) == 0x050c5d1f ^ (c as bv32);
    assert (0x050c5d1f as bv32) as nat % 2 == 1 && (0x050c5d1d as bv32) as nat % 2 == 1;
  }
}
