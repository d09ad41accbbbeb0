/** The key index of kv_ftl.c in place. */
module KvFtlModel {
  import opened Options
  import opened KvIndex
  import opened KvRuns

  datatype Status = KvSuccess | KeyNotExist

  class KvFtl {
    const mappingTable: array<Entry>
    ghost var rank: seq<nat>
    ghost var top: nat

    ghost function State(): Table
      reads this, mappingTable
    {
      Table(mappingTable[..], rank, top)
    }

    ghost predicate Valid()
      reads this, mappingTable
    {
      OneCopy(State()) && 0 < mappingTable.Length
    }

    /** kv_init_namespace with `n` slots. */
    constructor (n: nat)
      requires 0 < n
      ensures Valid() && State() == Initial(n)
      ensures mappingTable.Length == n && forall i :: 0 <= i < n ==> !InUse(mappingTable[i])
    {
      hide OneCopy;
      mappingTable := new Entry[n](i => Entry(seq(18, j => 0), -1, -1, -1));
      rank, top := seq(n, i => 0), 1;
      new;
      InitialWhole(n);
      assert mappingTable[..] == Initial(n).slots;
    }

    /** The search that get_mapping_entry, update_mapping_entry and delete_mapping_entry share. */
    method Search(key: Key) returns (slot: int)
      requires Valid()
      ensures Linked(State()) && slot == FoundAt(State(), key)
    {
      hide HashFunction, HashSlot, Linked;
      OneCopyLinked(State());
      ghost var t := State();
      slot := HashSlot(key, mappingTable.Length);
      SearchEnters(t, key);
      while InUse(mappingTable[slot])
        invariant 0 <= slot < mappingTable.Length
        invariant FoundAt(t, key) == FirstWith(t.slots, Path(t, slot), key)
        decreases t.top - t.rank[slot]
      {
        SearchStep(t, slot, key);
        if mappingTable[slot].key == key {
          return;
        }
        slot := mappingTable[slot].next;
        if slot == -1 {
          return;
        }
      }
      slot := -1;
    }

    /** get_mapping_entry; an entry of all ones says that there is none. */
    method GetMappingEntry(key: Key) returns (mapping: Entry)
      requires Valid()
      ensures Linked(State())
      ensures match Lookup(State(), key)
              case None => !InUse(mapping)
              case Some(e) => InUse(mapping) && mapping.key == key && Extent(mapping.memOffset, mapping.length) == e
    {
      hide HashFunction, HashSlot, Linked, OneCopy, FoundAt;
      mapping := Erased();
      var slot := Search(key);
      if slot != -1 {
        mapping := mappingTable[slot];
      }
    }

    /** find_next_slot: the end of the chain through `original`, and the first free slot behind it.
        When the search is back where it began there is none, and the original goes around forever;
        that is so exactly when every slot is in use. */
    method FindNextSlot(original: nat) returns (found: bool, slot: nat, prev: nat)
      requires Valid() && original < mappingTable.Length && InUse(mappingTable[original])
      requires Linked(State())
      ensures found <==> HasFree(State())
      ensures prev == Last(State(), original)
      ensures prev < mappingTable.Length && slot == Probe(mappingTable[..], prev, mappingTable.Length)
    {
      hide Linked, OneCopy, Path;
      ghost var t := State();
      LinkedSize(t);
      var tail: int := original;
      prev := original;
      while InUse(mappingTable[tail])
        invariant 0 <= tail < mappingTable.Length && prev < mappingTable.Length
        invariant if InUse(mappingTable[tail]) then Last(t, tail) == Last(t, original) else prev == Last(t, original)
        decreases t.top - t.rank[tail]
      {
        LastStep(t, tail);
        prev := tail;
        tail := mappingTable[tail].next;
        if tail == -1 {
          break;
        }
      }
      slot := prev;
      var steps: nat := mappingTable.Length;
      if HasFree(t) {
        ProbeEnds(t, prev);
      }
      while InUse(mappingTable[slot])
        invariant slot < mappingTable.Length
        invariant Probe(t.slots, prev, mappingTable.Length) == Probe(t.slots, slot, steps)
        decreases steps
      {
        if steps == 0 {
          return false, slot, prev;
        }
        ProbeStep(t, slot, steps);
        slot := slot + 1;
        if slot >= mappingTable.Length {
          slot := 0;
        }
        steps := steps - 1;
      }
      found := true;
    }

    /** new_mapping_entry, for a key that is not found and an offset inside the storage; it ends
        exactly when there is a free slot. */
    method NewMappingEntry(key: Key, offset: nat, length: nat) returns (ended: bool)
      requires Valid() && Linked(State()) && FoundAt(State(), key) == -1
      modifies this, mappingTable
      ensures ended <==> HasFree(old(State()))
      ensures Valid() && Linked(old(State())) && State() == Stored(old(State()), key, offset, length)
    {
      hide HashFunction, HashSlot, Linked, OneCopy, FoundAt, CanInsert, Path;
      ghost var t := State();
      StoreKeeps(t, key, offset, length);
      SearchEnters(t, key);
      var slot := HashSlot(key, mappingTable.Length);
      var prev: int := -1;
      if InUse(mappingTable[slot]) {
        var found;
        found, slot, prev := FindNextSlot(slot);
        if !found {
          return false;
        }
      }
      ghost var s, p := SlotFor(t, key), PrevFor(t, key);
      PlaceExists(t, key);
      InsertBounds(t, p, s);
      mappingTable[slot] := mappingTable[slot].(key := key, memOffset := offset, length := length);
      if prev != -1 {
        mappingTable[prev] := mappingTable[prev].(next := slot);
      }
      rank, top := rank[slot := top], top + 1;
      assert mappingTable[..] == Inserted(t, p, s, key, Extent(offset, length)).slots;
      ended := true;
    }

    /** update_mapping_entry: the new length of a key that is found. */
    method UpdateMappingEntry(key: Key, length: int) returns (found: bool)
      requires Valid()
      modifies mappingTable
      ensures Valid() && Linked(old(State())) && (found <==> FoundAt(old(State()), key) != -1)
      ensures State() == if found then Updated(old(State()), FoundAt(old(State()), key), length) else old(State())
    {
      hide HashFunction, HashSlot, Linked, OneCopy, FoundAt;
      ghost var t := State();
      var slot := Search(key);
      found := slot != -1;
      if found {
        UpdateKeepsOneCopy(t, slot, length);
        mappingTable[slot] := mappingTable[slot].(length := length);
        assert mappingTable[..] == Updated(t, slot, length).slots;
      }
    }

    /** delete_mapping_entry */
    method DeleteMappingEntry(key: Key)
      requires Valid()
      modifies mappingTable
      ensures Valid() && Linked(old(State())) && State() == Deleted(old(State()), key)
    {
      hide HashFunction, HashSlot, Linked, OneCopy, FoundAt;
      ghost var t := State();
      DeleteKeeps(t, key);
      var slot := Search(key);
      if slot != -1 {
        mappingTable[slot] := Erased();
        assert mappingTable[..] == Removed(t, slot).slots;
      }
    }

    // ---------- commands ----------

    /** A store in __do_perform_kv_io.  `newOffset` is what the allocator gives to a new value. */
    method StoreValue(key: Key, length: nat, newOffset: nat) returns (ended: bool, offset: int)
      requires Valid() && Linked(State())
      modifies this, mappingTable
      ensures ended <==> Lookup(old(State()), key).Some? || HasFree(old(State()))
      ensures Valid() && Linked(old(State())) && State() == Stored(old(State()), key, newOffset, length)
      ensures ended ==> Lookup(State(), key).Some? && Lookup(State(), key).value.offset == offset
      ensures ended ==>
                var was, now := old(Lookup(State(), key)), Lookup(State(), key).value;
                if was.None? then now == Extent(newOffset, length)
                else now == was.value.(length := if was.value.length <= 1024 && length <= 1024 then length
                                                 else was.value.length)
    {
      hide HashFunction, HashSlot, Linked, OneCopy, FoundAt, Inserted, Updated, CanInsert, Path;
      ghost var t := State();
      StoreFinds(t, key, newOffset, length);
      if Lookup(t, key).Some? {
        StoreAgain(t, key, newOffset, length, key);
      } else {
        StoreFirst(t, key, newOffset, length, key);
      }
      OneCopyLinked(Stored(t, key, newOffset, length));
      var entry := GetMappingEntry(key);
      offset := entry.memOffset;
      if !InUse(entry) {
        offset := newOffset;
        ended := NewMappingEntry(key, newOffset, length);
      } else {
        ended := true;
        SameLength(t, key);
        if length != entry.length && length <= SMALL_LENGTH && entry.length <= SMALL_LENGTH {
          var _ := UpdateMappingEntry(key, length);
        }
      }
      StoreKeeps(t, key, newOffset, length);
    }

    /** kv_exist, and the index part of kv_retrieve: where the value is and how much of it is read. */
    method Retrieve(key: Key, length: int) returns (status: Status, offset: int, bytes: int)
      requires Valid()
      ensures Linked(State())
      ensures match Lookup(State(), key)
              case None => status == KeyNotExist
              case Some(e) =>
                && status == KvSuccess && offset == e.offset
                && bytes == if e.length < length then e.length else length
    {
      var entry := GetMappingEntry(key);
      offset, bytes := entry.memOffset, 0;
      if !InUse(entry) {
        status := KeyNotExist;
      } else {
        status, bytes := KvSuccess, if entry.length < length then entry.length else length;
      }
    }

    /** kv_delete */
    method DeleteValue(key: Key) returns (status: Status)
      requires Valid()
      modifies mappingTable
      ensures Valid() && Linked(old(State())) && State() == Deleted(old(State()), key)
      ensures status == if Lookup(old(State()), key).Some? then KvSuccess else KeyNotExist
    {
      hide HashFunction, HashSlot, Linked, OneCopy, FoundAt;
      var entry := GetMappingEntry(key);
      if !InUse(entry) {
        status := KeyNotExist;
      } else {
        DeleteMappingEntry(key);
        status := KvSuccess;
      }
    }
  }

  /** A store and a retrieve of the same key: what is read is the smaller of the length asked for and
      the length stored, which for a key that was there is the new one only when both are small. */
  method StoreThenRetrieve(kv: KvFtl, key: Key, length: nat, newOffset: nat, asked: nat)
    returns (ended: bool, status: Status, offset: int, bytes: int)
    requires kv.Valid() && Linked(kv.State())
    modifies kv, kv.mappingTable
    ensures kv.Valid() && Linked(old(kv.State()))
    ensures ended <==> old(Lookup(kv.State(), key)).Some? || old(HasFree(kv.State()))
    ensures ended ==> status == KvSuccess
    ensures ended ==>
              var was := old(Lookup(kv.State(), key));
              if was.None? then offset == newOffset && bytes == if length < asked then length else asked
              else
                var now := if was.value.length <= 1024 && length <= 1024 then length else was.value.length;
                offset == was.value.offset && bytes == if now < asked then now else asked
  {
    hide KvFtl.Valid, KvFtl.State, Linked, Lookup, HasFree, Stored;
    status, bytes := KeyNotExist, 0;
    ended, offset := kv.StoreValue(key, length, newOffset);
    if ended {
      status, offset, bytes := kv.Retrieve(key, asked);
    }
  }

  lemma SearchEnters(t: Table, key: Key)
    requires Linked(t)
    ensures 0 < |t.slots| == |t.rank| && HashSlot(key, |t.slots|) < |t.slots|
    ensures FoundAt(t, key) == FirstWith(t.slots, Path(t, HashSlot(key, |t.slots|)), key)
  {
  }

  /** A lookup at a slot in use finds the key there or goes on behind it. */
  lemma SearchStep(t: Table, s: nat, key: Key)
    requires Linked(t) && s < |t.slots| && InUse(t.slots[s])
    ensures var next := t.slots[s].next;
            && (next != -1 ==> 0 <= next < |t.slots| && t.rank[s] < t.rank[next] < t.top)
            && FirstWith(t.slots, Path(t, s), key)
               == if t.slots[s].key == key then s else if next == -1 then -1 else FirstWith(t.slots, Path(t, next), key)
  {
    if t.slots[s].next != -1 {
      assert LinkOk(t, s);
      assert Path(t, s)[1..] == Path(t, t.slots[s].next);
    }
  }

  /** The walk to the end of a chain. */
  lemma LastStep(t: Table, s: nat)
    requires Linked(t) && s < |t.slots| && InUse(t.slots[s])
    ensures |t.slots| == |t.rank|
    ensures var next := t.slots[s].next;
            if next == -1 then Last(t, s) == s
            else 0 <= next < |t.slots| && t.rank[s] < t.rank[next] < t.top
                 && Last(t, s) == if InUse(t.slots[next]) then Last(t, next) else s
  {
    var next := t.slots[s].next;
    if next != -1 {
      assert LinkOk(t, s);
      assert Path(t, s) == [s] + Path(t, next);
    } else {
      assert Path(t, s) == [s];
    }
  }

  lemma ProbeEnds(t: Table, from: nat)
    requires Linked(t) && HasFree(t) && from < |t.slots|
    ensures Probe(t.slots, from, |t.slots|) < |t.slots| && !InUse(t.slots[Probe(t.slots, from, |t.slots|)])
  {
    var free: nat :| free < |t.slots| && !InUse(t.slots[free]);
    ProbeFinds(t.slots, from, free, |t.slots|);
  }

  lemma ProbeStep(t: Table, slot: nat, steps: nat)
    requires slot < |t.slots| && InUse(t.slots[slot]) && 0 < steps
    ensures Probe(t.slots, slot, steps) == Probe(t.slots, if slot + 1 >= |t.slots| then 0 else slot + 1, steps - 1)
  {
  }

  lemma InsertBounds(t: Table, prev: int, s: nat)
    requires CanInsert(t, prev, s)
    ensures s < |t.slots| == |t.rank| && -1 <= prev < |t.slots|
  {
  }

  /** What a store that ends leaves behind is found. */
  lemma StoreFinds(t: Table, key: Key, offset: nat, length: nat)
    requires OneCopy(t) && Linked(t)
    ensures OneCopy(Stored(t, key, offset, length)) && Linked(Stored(t, key, offset, length))
    ensures Lookup(t, key).Some? || HasFree(t) ==>
            Lookup(Stored(t, key, offset, length), key)
            == Some(Extent(if Lookup(t, key).Some? then Lookup(t, key).value.offset else offset,
                           if Lookup(t, key).Some? then NewLength(Lookup(t, key).value.length, length) else length))
  {
    hide HashFunction, HashSlot, Linked, OneCopy, Stored;
    StoreKeeps(t, key, offset, length);
    var m := if Lookup(t, key).Some? then map[key := Lookup(t, key).value] else map[];
    StoreMeaning(t, m, key, offset, length, key);
  }

  /** Storing the length that is there already changes nothing. */
  lemma SameLength(t: Table, key: Key)
    requires Linked(t) && FoundAt(t, key) != -1
    ensures Updated(t, FoundAt(t, key), t.slots[FoundAt(t, key)].length) == t
  {
  }
}
