/** The two data paths of io.c in place: __do_perform_io, which copies page by page, and
    __do_perform_io_using_dma, which collects the PRP entries first and merges contiguous pages. */
module DataMoverModel {
  import opened Prp

  datatype Opcode = Write | ZoneAppend | Read | OtherOpcode

  /** A command: `offset` and `length` are its bytes on the device.  `list` is what the page that
      prp2 may point to holds, from there on. */
  datatype Command = Command(op: Opcode, offset: nat, length: nat, prp1: nat, prp2: nat, list: seq<nat>)

  /** The device and the host memory, byte by byte. */
  datatype Bytes = Bytes(storage: seq<int>, memory: seq<int>)

  /** Copy one byte. */
  function Move(b: Bytes, op: Opcode, at: nat, addr: nat): Bytes {
    if at >= |b.storage| || addr >= |b.memory| then b
    else match op
      case Write | ZoneAppend => b.(storage := b.storage[at := b.memory[addr]])
      case Read => b.(memory := b.memory[addr := b.storage[at]])
      case OtherOpcode => b
  }

  /** Copy device byte `at + i` to or from `addrs[i]`, in order. */
  function MoveAll(b: Bytes, op: Opcode, at: nat, addrs: seq<nat>): Bytes {
    if addrs == [] then b
    else Move(MoveAll(b, op, at, addrs[..|addrs| - 1]), op, at + |addrs| - 1, addrs[|addrs| - 1])
  }

  lemma MoveNone(b: Bytes, op: Opcode, at: nat)
    ensures MoveAll(b, op, at, []) == b
  {
  }

  lemma MoveRange(b: Bytes, op: Opcode, at: nat, paddr: nat, n: nat)
    ensures MoveAll(b, op, at, Range(paddr, 0)) == b
    ensures MoveAll(b, op, at, Range(paddr, n + 1)) == Move(MoveAll(b, op, at, Range(paddr, n)), op, at + n, paddr + n)
  {
    assert Range(paddr, n + 1)[..n] == Range(paddr, n);
  }

  lemma {:induction false} MoveConcat(b: Bytes, op: Opcode, at: nat, x: seq<nat>, y: seq<nat>)
    ensures MoveAll(b, op, at, x + y) == MoveAll(MoveAll(b, op, at, x), op, at + |x|, y)
  {
    if y == [] {
      assert x + y == x;
    } else {
      MoveConcat(b, op, at, x, y[..|y| - 1]);
      assert (x + y)[..|x + y| - 1] == x + y[..|y| - 1];
    }
  }

  // ---------- byte by byte ----------

  /** No later byte of the command has the same address. */
  predicate IsLast(addrs: seq<nat>, j: nat) {
    j < |addrs| && forall k :: j < k < |addrs| ==> addrs[k] != addrs[j]
  }

  /** What a command leaves behind that moves device byte `at + j` to or from `addrs[j]`.  A write or
      append puts into every device byte of its range what the host memory has at the address, and
      changes nothing else; a read does the reverse, where the last of several bytes with one address
      stays; any other command changes nothing. */
  ghost predicate Transferred(b: Bytes, n: Bytes, op: Opcode, at: nat, addrs: seq<nat>) {
    && |n.storage| == |b.storage| && |n.memory| == |b.memory| && at + |addrs| <= |b.storage|
    && match op
       case Write | ZoneAppend =>
         && n.memory == b.memory
         && (forall j :: 0 <= j < |addrs| ==> addrs[j] < |b.memory| && n.storage[at + j] == b.memory[addrs[j]])
         && (forall i :: 0 <= i < |b.storage| && (i < at || at + |addrs| <= i) ==> n.storage[i] == b.storage[i])
       case Read =>
         && n.storage == b.storage
         && (forall j :: 0 <= j < |addrs| && IsLast(addrs, j) ==>
               addrs[j] < |b.memory| && n.memory[addrs[j]] == b.storage[at + j])
         && (forall a :: 0 <= a < |b.memory| && a !in addrs ==> n.memory[a] == b.memory[a])
       case OtherOpcode => n == b
  }

  lemma TransferNext(b: Bytes, m: Bytes, op: Opcode, at: nat, most: seq<nat>, last: nat)
    requires Transferred(b, m, op, at, most) && at + |most| < |b.storage| && last < |b.memory|
    ensures Transferred(b, Move(m, op, at + |most|, last), op, at, most + [last])
  {
    hide IsLast;
    var addrs := most + [last];
    assert |addrs| == |most| + 1 && addrs[|most|] == last && forall j :: 0 <= j < |most| ==> addrs[j] == most[j];
    if op == Read {
      var n := Move(m, op, at + |most|, last);
      forall j | 0 <= j < |addrs| && IsLast(addrs, j)
        ensures addrs[j] < |b.memory| && n.memory[addrs[j]] == b.storage[at + j]
      {
        if j < |most| {
          LastOfMore(most, last, j);
        }
      }
      forall i | 0 <= i < |b.memory| && i !in addrs ensures n.memory[i] == b.memory[i] {
        assert addrs[|most|] in addrs && i !in most;
      }
    }
  }

  lemma LastOfMore(most: seq<nat>, last: nat, j: nat)
    requires j < |most| && IsLast(most + [last], j)
    ensures IsLast(most, j) && most[j] != last
  {
    var addrs := most + [last];
    assert addrs[|most|] == last;
    forall k | j < k < |most| ensures most[k] != most[j] {
      assert addrs[k] == most[k];
    }
  }

  lemma {:induction false} MoveAllTransfers(b: Bytes, op: Opcode, at: nat, addrs: seq<nat>)
    requires at + |addrs| <= |b.storage| && forall a :: a in addrs ==> a < |b.memory|
    ensures Transferred(b, MoveAll(b, op, at, addrs), op, at, addrs)
  {
    hide Transferred, Move;
    if addrs == [] {
      NothingTransferred(b, op, at);
    } else {
      var most, last := addrs[..|addrs| - 1], addrs[|addrs| - 1];
      assert addrs == most + [last] && last in addrs && forall a :: a in most ==> a in addrs;
      MoveAllTransfers(b, op, at, most);
      TransferNext(b, MoveAll(b, op, at, most), op, at, most, last);
    }
  }

  lemma NothingTransferred(b: Bytes, op: Opcode, at: nat)
    requires at <= |b.storage|
    ensures Transferred(b, b, op, at, [])
  {
  }

  /** With all addresses different a read puts every device byte of its range into the memory. */
  lemma DistinctRead(b: Bytes, n: Bytes, at: nat, addrs: seq<nat>, j: nat)
    requires Transferred(b, n, Read, at, addrs) && forall i, k :: 0 <= i < k < |addrs| ==> addrs[i] != addrs[k]
    requires j < |addrs|
    ensures addrs[j] < |n.memory| && at + j < |b.storage| && n.memory[addrs[j]] == b.storage[at + j]
  {
    assert IsLast(addrs, j);
  }

  /** Reading back what was written: a byte comes back from where it was written from. */
  lemma WriteThenRead(b: Bytes, m: Bytes, n: Bytes, at: nat, from: seq<nat>, to: seq<nat>, j: nat)
    requires Transferred(b, m, Write, at, from) && Transferred(m, n, Read, at, to) && |from| == |to|
    requires j < |from| && IsLast(to, j)
    ensures to[j] < |n.memory| && from[j] < |b.memory| && n.memory[to[j]] == b.memory[from[j]]
  {
  }

  /** The entries a command describes its memory with: prp2 is the second one, or points to the
      others when more than a page is left. */
  function Entries(c: Command): seq<nat> {
    [c.prp1] + if c.length - Chunk(c.prp1, c.length) > PAGE_SIZE then c.list else [c.prp2]
  }

  /** How many entries a walk needs, or gets to see. */
  function Needed(prps: seq<nat>, remaining: nat): (n: nat)
    ensures n <= |prps|
    decreases |prps|
  {
    if remaining == 0 || prps == [] then 0 else 1 + Needed(prps[1..], remaining - Chunk(prps[0], remaining))
  }

  lemma {:induction false} NeededMeaning(prps: seq<nat>, remaining: nat)
    requires remaining <= Capacity(prps)
    ensures var u := prps[..Needed(prps, remaining)];
            remaining <= Capacity(u) && AllUsed(u, remaining) && PageWalk(u, remaining) == PageWalk(prps, remaining)
    decreases |prps|
  {
    if remaining > 0 {
      var n := Chunk(prps[0], remaining);
      NeededMeaning(prps[1..], remaining - n);
      var u, v := prps[..Needed(prps, remaining)], prps[1..][..Needed(prps[1..], remaining - n)];
      assert u[1..] == v;
      if v != [] {
        assert u[..|u| - 1][1..] == v[..|v| - 1];
      }
    }
  }

  /** The addresses a command moves its bytes to or from, entry by entry. */
  ghost function CommandBytes(c: Command): seq<nat>
    requires c.length <= Capacity(Entries(c))
  {
    PageWalk(Entries(c), c.length)
  }

  /** The address of byte `j` of a command whose entries are page aligned, except the first: in the page
      of prp1 behind its offset; then in the page of prp2, when no more than a page is left; otherwise
      in the page of the entry of the list that whole pages lead to. */
  lemma CommandByte(c: Command, j: nat)
    requires c.length <= Capacity(Entries(c)) && j < c.length
    requires c.prp2 % PAGE_SIZE == 0 && forall i :: 0 <= i < |c.list| ==> c.list[i] % PAGE_SIZE == 0
    ensures var first := PAGE_SIZE - c.prp1 % PAGE_SIZE;
            if j < first then CommandBytes(c)[j] == c.prp1 + j
            else if c.length <= first + PAGE_SIZE then CommandBytes(c)[j] == c.prp2 + (j - first)
            else (j - first) / PAGE_SIZE < |c.list|
                 && CommandBytes(c)[j] == c.list[(j - first) / PAGE_SIZE] + (j - first) % PAGE_SIZE
  {
    PageWalkByte(Entries(c), c.length, j);
  }

  /** The bytes that the entries describe, when they are too few: two entries and a rest, or a list
      that ends. */
  function Reach(c: Command): nat {
    if c.length <= Capacity(Entries(c)) then c.length else Capacity(Entries(c))
  }

  /** The same for the DMA path. */
  ghost function CommandDmaBytes(c: Command): seq<nat>
    requires c.length <= Capacity(Entries(c))
  {
    NeededMeaning(Entries(c), c.length);
    DmaWalk(Entries(c)[..Needed(Entries(c), c.length)], c.length)
  }

  /** Both paths move the same bytes of a command exactly when none of the entries it needs is in
      the middle of a page and followed by the one a page further. */
  lemma SamePaths(c: Command)
    requires c.length <= Capacity(Entries(c))
    ensures CommandBytes(c) == CommandDmaBytes(c) <==> Mergeable(Entries(c)[..Needed(Entries(c), c.length)])
  {
    NeededMeaning(Entries(c), c.length);
    SameBytes(Entries(c)[..Needed(Entries(c), c.length)], c.length);
  }

  /** In particular for a command whose entries are page aligned, except the first. */
  lemma AlignedPaths(c: Command)
    requires c.length <= Capacity(Entries(c))
    requires c.prp2 % PAGE_SIZE == 0 && forall i :: 0 <= i < |c.list| ==> c.list[i] % PAGE_SIZE == 0
    ensures CommandBytes(c) == CommandDmaBytes(c)
  {
    SamePaths(c);
    AlignedIsMergeable(Entries(c)[..Needed(Entries(c), c.length)]);
  }

  class DataMover {
    const storage: array<int>
    const memory: array<int>
    const paddrList: array<nat>

    ghost function State(): Bytes
      reads storage, memory
    {
      Bytes(storage[..], memory[..])
    }

    /** The list of entries is neither the device nor the host memory. */
    ghost predicate Apart() {
      (paddrList as object) != storage && (paddrList as object) != memory
    }

    constructor (storage: array<int>, memory: array<int>)
      ensures this.storage == storage && this.memory == memory
      ensures paddrList.Length == 513 && Apart()
    {
      this.storage := storage;
      this.memory := memory;
      paddrList := new nat[513](i => 0);
    }

    /** memcpy, or one DMA transfer. */
    method Copy(op: Opcode, paddr: nat, at: nat, n: nat)
      requires storage != memory && at + n <= storage.Length && paddr + n <= memory.Length
      modifies storage, memory
      ensures State() == MoveAll(old(State()), op, at, Range(paddr, n))
    {
      hide MoveAll, Range, Move;
      ghost var was := State();
      MoveRange(was, op, at, paddr, 0);
      for i := 0 to n
        invariant State() == MoveAll(was, op, at, Range(paddr, i))
      {
        MoveRange(was, op, at, paddr, i);
        CopyByte(op, paddr + i, at + i);
      }
    }

    method CopyByte(op: Opcode, paddr: nat, at: nat)
      requires storage != memory && at < storage.Length && paddr < memory.Length
      modifies storage, memory
      ensures State() == Move(old(State()), op, at, paddr)
    {
      if op == Write || op == ZoneAppend {
        storage[at] := memory[paddr];
      } else if op == Read {
        memory[paddr] := storage[at];
      }
    }

    /** Copy as the next piece of a command that moves its bytes to or from `all`. */
    method CopyPiece(op: Opcode, paddr: nat, at: nat, n: nat, ghost was: Bytes, ghost base: nat, ghost all: seq<nat>,
                     ghost done: nat)
      requires storage != memory && 0 < n && done + n <= |all| && at == base + done && at + n <= storage.Length
      requires all[..done + n] == all[..done] + Range(paddr, n)
      requires forall a :: a in all ==> a < memory.Length
      requires State() == MoveAll(was, op, base, all[..done])
      modifies storage, memory
      ensures State() == MoveAll(was, op, base, all[..done + n])
    {
      hide MoveAll, Range;
      MoveConcat(was, op, base, all[..done], Range(paddr, n));
      LastOfRange(all, done, paddr, n, memory.Length);
      Copy(op, paddr, at, n);
    }

    /** The next PRP entry; `viaList` says that prp2 was found to point to a list. */
    method NextPrp(c: Command, i: nat, remaining: nat, viaList: bool) returns (paddr: nat, listed: bool)
      requires i < |Entries(c)|
      requires i == 1 ==> remaining == c.length - Chunk(c.prp1, c.length)
      requires 1 < i ==> (viaList <==> c.length - Chunk(c.prp1, c.length) > PAGE_SIZE)
      ensures paddr == Entries(c)[i]
      ensures 1 <= i ==> (listed <==> c.length - Chunk(c.prp1, c.length) > PAGE_SIZE)
    {
      listed := viaList;
      if i == 0 {
        paddr := c.prp1;
      } else if i == 1 {
        paddr := c.prp2;
        if remaining > PAGE_SIZE {
          listed := true;
          paddr := c.list[0];
        } else {
          listed := false;
        }
      } else {
        paddr := c.list[i - 1];
      }
    }

    /** The bytes of one page, as both loops compute them. */
    method PageBytes(paddr: nat, remaining: nat) returns (ioSize: nat)
      ensures ioSize == Chunk(paddr, remaining)
    {
      ioSize := if remaining < PAGE_SIZE then remaining else PAGE_SIZE;
      if paddr % PAGE_SIZE != 0 {
        var memOffs := paddr % PAGE_SIZE;
        if ioSize + memOffs > PAGE_SIZE {
          ioSize := PAGE_SIZE - memOffs;
        }
      }
    }

    /** __do_perform_io.  It follows a list that was never mapped, or runs off its end, exactly when
        the entries do not reach as far as the command, and only after it has moved all bytes that
        they do reach. */
    method PerformIo(c: Command) returns (ok: bool, length: nat)
      requires storage != memory && c.offset + c.length <= storage.Length
      requires forall a :: a in PageWalk(Entries(c), Reach(c)) ==> a < memory.Length
      modifies storage, memory
      ensures ok <==> c.length <= Capacity(Entries(c))
      ensures State() == MoveAll(old(State()), c.op, c.offset, PageWalk(Entries(c), Reach(c)))
      ensures Transferred(old(State()), State(), c.op, c.offset, PageWalk(Entries(c), Reach(c)))
      ensures ok ==> length == c.length && State() == MoveAll(old(State()), c.op, c.offset, CommandBytes(c))
      ensures ok ==> Transferred(old(State()), State(), c.op, c.offset, CommandBytes(c))
    {
      hide MoveAll, Capacity, Range, Chunk, PageWalk, Transferred;
      ghost var was, e, all := State(), Entries(c), PageWalk(Entries(c), Reach(c));
      MoveAllTransfers(was, c.op, c.offset, all);
      var remaining: nat, offset, i: nat, viaList := c.length, c.offset, 0, false;
      assert e[0..] == e && all[0..] == all && all[..0] == [];
      MoveNone(was, c.op, c.offset);
      while remaining != 0
        invariant remaining <= c.length && offset == c.offset + (c.length - remaining) && i <= |e|
        invariant Left(e, i, remaining, c.length) && c.length - remaining <= |all|
        invariant all[c.length - remaining..] == PageWalk(e[i..], Least(remaining, Capacity(e[i..])))
        invariant i == 0 ==> remaining == c.length
        invariant i == 1 ==> remaining == c.length - Chunk(c.prp1, c.length)
        invariant 1 < i ==> (viaList <==> c.length - Chunk(c.prp1, c.length) > PAGE_SIZE)
        invariant State() == MoveAll(was, c.op, c.offset, all[..c.length - remaining])
        decreases |e| - i
      {
        if i == |Entries(c)| {
          NothingLeft(e, remaining);
          assert all[..c.length - remaining] == all;
          return false, c.length - remaining;
        }
        PartStep(e[i..], remaining);
        var paddr;
        paddr, viaList := NextPrp(c, i, remaining, viaList);
        i := i + 1;
        var ioSize := PageBytes(paddr, remaining);
        ghost var done := c.length - remaining;
        NextPiece(all, done, paddr, ioSize,
          PageWalk(e[i - 1..][1..], Least(remaining - ioSize, Capacity(e[i - 1..][1..]))));
        CopyPiece(c.op, paddr, offset, ioSize, was, c.offset, all, done);
        remaining := remaining - ioSize;
        offset := offset + ioSize;
        assert e[i - 1..][1..] == e[i..];
      }
      WalkNothing(e[i..]);
      assert all[..c.length] == all;
      return true, c.length;
    }

    /** The loop of __do_perform_io_using_dma that gets the PRP entries; index 0 is not used. */
    method CollectPrps(c: Command) returns (ok: bool, numPrps: nat)
      requires 0 < paddrList.Length
      modifies paddrList
      ensures ok <==> c.length <= Capacity(Entries(c)) && Needed(Entries(c), c.length) < paddrList.Length
      ensures ok ==> numPrps == Needed(Entries(c), c.length)
      ensures ok ==> paddrList[1..numPrps + 1] == Entries(c)[..numPrps]
    {
      hide Capacity, Chunk, Needed, Left, PageWalk;
      ghost var e := Entries(c);
      LeftAll(e, c.length);
      var remaining: nat, i: nat, viaList := c.length, 0, false;
      assert e[0..] == e;
      while remaining != 0
        invariant remaining <= c.length && i <= |e|
        invariant Left(e, i, remaining, c.length) && i + Needed(e[i..], remaining) == Needed(e, c.length)
        invariant i == 0 ==> remaining == c.length
        invariant i == 1 ==> remaining == c.length - Chunk(c.prp1, c.length)
        invariant 1 < i ==> (viaList <==> c.length - Chunk(c.prp1, c.length) > PAGE_SIZE)
        invariant i < paddrList.Length && paddrList[1..i + 1] == e[..i]
        decreases |e| - i
      {
        if i == |Entries(c)| {
          NothingMore(e, remaining, c.length);
          return false, i;
        }
        CollectStep(e, i, remaining, c.length);
        if i + 1 == paddrList.Length {
          return false, i;
        }
        var paddr;
        paddr, viaList := NextPrp(c, i, remaining, viaList);
        i := i + 1;
        paddrList[i] := paddr;
        var ioSize := PageBytes(paddr, remaining);
        remaining := remaining - ioSize;
      }
      NothingNeeded(e[i..]);
      LeftNothing(e, i, c.length);
      return true, i;
    }

    /** The inner loop: entry `first` with all contiguous entries behind it. */
    method MergeRun(first: nat, numPrps: nat, remaining: nat) returns (ioSize: nat, next: nat)
      requires 1 <= first <= numPrps < paddrList.Length
      ensures ioSize == RunBytes(paddrList[first..numPrps + 1], remaining)
      ensures next == first + RunLength(paddrList[first..numPrps + 1])
    {
      hide Chunk;
      ghost var run := paddrList[first..numPrps + 1];
      var pageSize := PageBytes(paddrList[first], remaining);
      next := first + 1;
      while next <= numPrps
        invariant first < next <= numPrps + 1
        invariant pageSize == Chunk(run[0], remaining) + (next - first - 1) * PAGE_SIZE
        invariant forall i :: 1 <= i < next - first ==> run[i] == run[i - 1] + PAGE_SIZE
      {
        if paddrList[next] == paddrList[next - 1] + PAGE_SIZE {
          assert run[next - first] == paddrList[next] && run[next - first - 1] == paddrList[next - 1];
          pageSize := pageSize + PAGE_SIZE;
        } else {
          break;
        }
        next := next + 1;
      }
      RunLengthIs(run, next - first);
      ioSize := if remaining < pageSize then remaining else pageSize;
    }

    /** __do_perform_io_using_dma.  When the entries do not reach as far as the command, or are more
        than the 512 that the list holds, this path fails before it has moved anything. */
    method PerformIoUsingDma(c: Command) returns (ok: bool, length: nat)
      requires storage != memory && paddrList.Length == 513 && Apart()
      requires c.offset + c.length <= storage.Length
      requires c.length <= Capacity(Entries(c)) ==> forall a :: a in CommandDmaBytes(c) ==> a < memory.Length
      modifies storage, memory, paddrList
      ensures ok <==> c.length <= Capacity(Entries(c)) && Needed(Entries(c), c.length) <= 512
      ensures ok ==> length == c.length && State() == MoveAll(old(State()), c.op, c.offset, CommandDmaBytes(c))
      ensures ok ==> Transferred(old(State()), State(), c.op, c.offset, CommandDmaBytes(c))
      ensures !ok ==> State() == old(State())
    {
      hide MoveAll, Capacity, Range, Chunk, Entries, Needed, RunBytes, RunLength, AllUsed, Transferred;
      ghost var was := State();
      for k := 0 to 513
        modifies paddrList
      {
        paddrList[k] := 0;
      }
      var numPrps;
      ok, numPrps := CollectPrps(c);
      length := 0;
      if ok {
        NeededMeaning(Entries(c), c.length);
        MoveAllTransfers(was, c.op, c.offset, CommandDmaBytes(c));
        length := TransferRuns(c, numPrps, CommandDmaBytes(c));
      }
    }

    /** Its loop for the data transfer. */
    method TransferRuns(c: Command, numPrps: nat, ghost all: seq<nat>) returns (length: nat)
      requires storage != memory && numPrps < paddrList.Length && c.offset + c.length <= storage.Length
      requires c.length <= Capacity(paddrList[1..numPrps + 1]) && all == DmaWalk(paddrList[1..numPrps + 1], c.length)
      requires forall a :: a in all ==> a < memory.Length
      modifies storage, memory
      ensures length == c.length
      ensures State() == MoveAll(old(State()), c.op, c.offset, all)
    {
      hide MoveAll, Capacity, Range, Chunk, RunBytes, RunLength, DmaWalk;
      ghost var was := State();
      var remaining: nat, offset, i := c.length, c.offset, 1;
      assert all[0..] == all && all[..0] == [];
      MoveNone(was, c.op, c.offset);
      while remaining != 0
        invariant remaining <= c.length && offset == c.offset + (c.length - remaining) && 1 <= i <= numPrps + 1
        invariant remaining <= Capacity(paddrList[i..numPrps + 1])
        invariant all[c.length - remaining..] == DmaWalk(paddrList[i..numPrps + 1], remaining)
        invariant State() == MoveAll(was, c.op, c.offset, all[..c.length - remaining])
        decreases numPrps + 1 - i
      {
        ghost var prps := paddrList[i..numPrps + 1];
        RunStep(prps, remaining);
        var paddr := paddrList[i];
        var ioSize, next := MergeRun(i, numPrps, remaining);
        ghost var done := c.length - remaining;
        assert paddr == prps[0] && ioSize == RunBytes(prps, remaining);
        assert all[done..] == DmaWalk(prps, remaining);
        NextPiece(all, done, paddr, ioSize, DmaWalk(prps[RunLength(prps)..], remaining - ioSize));
        CopyPiece(c.op, paddr, offset, ioSize, was, c.offset, all, done);
        remaining := remaining - ioSize;
        offset := offset + ioSize;
        assert paddrList[next..numPrps + 1] == prps[RunLength(prps)..];
        i := next;
      }
      assert all[..c.length] == all;
      return c.length;
    }
  }

  function Least(a: nat, b: nat): nat { if a <= b then a else b }

  /** The entries from `i` on reach the rest of the command exactly when all of them reach it all. */
  ghost predicate Left(e: seq<nat>, i: nat, remaining: nat, length: nat)
    requires i <= |e|
  {
    remaining <= Capacity(e[i..]) <==> length <= Capacity(e)
  }

  lemma NothingLeft(e: seq<nat>, remaining: nat)
    requires 0 < remaining
    ensures Capacity(e[|e|..]) == 0 && PageWalk(e[|e|..], 0) == []
  {
  }

  /** One more entry collected. */
  lemma CollectStep(e: seq<nat>, i: nat, remaining: nat, length: nat)
    requires i < |e| && 0 < remaining && Left(e, i, remaining, length)
    ensures var n := Chunk(e[i], remaining);
            && 0 < n && Left(e, i + 1, remaining - n, length)
            && Needed(e[i..], remaining) == 1 + Needed(e[i + 1..], remaining - n)
  {
    hide Capacity, Chunk, PageWalk;
    PartStep(e[i..], remaining);
    assert e[i..][1..] == e[i + 1..];
  }

  lemma LeftAll(e: seq<nat>, length: nat)
    ensures Left(e, 0, length, length) && e[0..] == e
  {
  }

  lemma NothingNeeded(e: seq<nat>)
    ensures Needed(e, 0) == 0
  {
  }

  lemma NothingMore(e: seq<nat>, remaining: nat, length: nat)
    requires 0 < remaining && Left(e, |e|, remaining, length)
    ensures Capacity(e) < length && Needed(e[|e|..], remaining) == 0
  {
    NothingLeft(e, remaining);
  }

  lemma LeftNothing(e: seq<nat>, i: nat, length: nat)
    requires i <= |e| && Left(e, i, 0, length)
    ensures length <= Capacity(e)
  {
  }

  /** One page of a walk that the entries may not reach the end of. */
  lemma PartStep(prps: seq<nat>, remaining: nat)
    requires 0 < remaining && prps != []
    ensures var n := Chunk(prps[0], remaining);
            && 0 < n
            && (remaining <= Capacity(prps) <==> remaining - n <= Capacity(prps[1..]))
            && PageWalk(prps, Least(remaining, Capacity(prps)))
               == Range(prps[0], n) + PageWalk(prps[1..], Least(remaining - n, Capacity(prps[1..])))
  {
    hide PageWalk, Capacity, Range, Chunk;
    FirstCapacity(prps);
    ChunkOfPart(prps[0], remaining, Capacity(prps[1..]));
    WalkStep(prps, Least(remaining, Capacity(prps)));
  }

  /** The bytes of a page are the same when only what the entries reach is left. */
  lemma ChunkOfPart(prp: nat, remaining: nat, rest: nat)
    requires 0 < remaining
    ensures var first := PAGE_SIZE - prp % PAGE_SIZE;
            && 0 < Chunk(prp, remaining) == Chunk(prp, Least(remaining, first + rest))
            && (remaining <= first + rest <==> remaining - Chunk(prp, remaining) <= rest)
            && Least(remaining, first + rest) - Chunk(prp, remaining) == Least(remaining - Chunk(prp, remaining), rest)
  {
  }

  lemma RunStep(prps: seq<nat>, remaining: nat)
    requires 0 < remaining <= Capacity(prps)
    ensures prps != [] && 0 < RunBytes(prps, remaining)
    ensures remaining - RunBytes(prps, remaining) <= Capacity(prps[RunLength(prps)..])
    ensures DmaWalk(prps, remaining) == Range(prps[0], RunBytes(prps, remaining))
                                        + DmaWalk(prps[RunLength(prps)..], remaining - RunBytes(prps, remaining))
  {
    RunCovers(prps, remaining);
  }

  lemma {:induction false} RunLengthIs(prps: seq<nat>, m: nat)
    requires 1 <= m <= |prps| && forall i :: 1 <= i < m ==> prps[i] == prps[i - 1] + PAGE_SIZE
    requires m < |prps| ==> prps[m] != prps[m - 1] + PAGE_SIZE
    ensures RunLength(prps) == m
  {
    if m > 1 {
      RunLengthIs(prps[1..], m - 1);
    }
  }

  /** If `all` goes on at `done` with `n` bytes from `paddr`, then `done + n` bytes are that much more. */
  lemma NextPiece(all: seq<nat>, done: nat, paddr: nat, n: nat, rest: seq<nat>)
    requires done <= |all| && all[done..] == Range(paddr, n) + rest
    ensures done + n <= |all| && |Range(paddr, n)| == n
    ensures all[..done + n] == all[..done] + Range(paddr, n) && all[done + n..] == rest
  {
    assert all == all[..done] + all[done..];
    assert all[done + n..] == all[done..][n..];
  }

  lemma LastOfRange(all: seq<nat>, done: nat, paddr: nat, n: nat, bound: nat)
    requires 0 < n && done + n <= |all| && all[..done + n] == all[..done] + Range(paddr, n)
    requires forall a :: a in all ==> a < bound
    ensures paddr + n <= bound
  {
    assert all[done + n - 1] == all[..done + n][done + n - 1] == Range(paddr, n)[n - 1];
    assert all[done + n - 1] in all;
  }
}
