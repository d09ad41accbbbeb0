/** A namespace of several partitions, each a page-mapped FTL of its own, as conv_read sees it. */
module Partitions {
  import opened Options
  import opened Geometry
  import opened ConvFtlModel
  import opened ConvRead

  /** The mapping tables of the partitions. */
  function Tables(ftls: seq<ConvFtl>): (tables: seq<seq<Option<Ppa>>>)
    reads set f | f in ftls :: f.maptbl
    ensures |tables| == |ftls| && forall i :: 0 <= i < |ftls| ==> tables[i] == ftls[i].maptbl[..]
  {
    if ftls == [] then [] else Tables(ftls[..|ftls| - 1]) + [ftls[|ftls| - 1].maptbl[..]]
  }

  /** Whether LPN `l` has been written: it is LPN `l / n` of partition `l % n`. */
  ghost predicate IsWritten(ftls: seq<ConvFtl>, l: nat)
    requires 0 < |ftls|
    reads ftls, set f | f in ftls :: f.maptbl
  {
    l / |ftls| in ftls[l % |ftls|].View()
  }

  /** The LPNs of a range that have been written. */
  ghost function WrittenIn(ftls: seq<ConvFtl>, startLpn: nat, endLpn: nat): set<nat>
    requires 0 < |ftls|
    reads ftls, set f | f in ftls :: f.maptbl
  {
    set l: nat | l <= endLpn && startLpn <= l && IsWritten(ftls, l)
  }

  lemma WrittenAreMapped(ftls: seq<ConvFtl>, startLpn: nat, endLpn: nat)
    requires 0 < |ftls|
    ensures MappedRange(Tables(ftls), startLpn, endLpn) == WrittenIn(ftls, startLpn, endLpn)
  {
    hide Mapped, IsWritten;
    forall l: nat ensures Mapped(Tables(ftls), l) <==> IsWritten(ftls, l) {
      MappedIsWritten(ftls, l);
    }
  }

  lemma MappedIsWritten(ftls: seq<ConvFtl>, l: nat)
    requires 0 < |ftls|
    ensures Mapped(Tables(ftls), l) <==> IsWritten(ftls, l)
  {
    hide ConvFtl.View, Tables;
    var f, k := ftls[l % |ftls|], l / |ftls|;
    InView(f, k);
    assert Tables(ftls)[l % |ftls|] == f.maptbl[..];
  }

  lemma InView(f: ConvFtl, k: nat)
    ensures k in f.View() <==> k < |f.maptbl[..]| && f.maptbl[..][k].Some?
  {
  }

  /** conv_read over consistent partitions: every LPN of the range that has been written is read by
      exactly one flash command, nothing else is read, and no command is larger than a flash page. */
  method ReadLpns(ftls: seq<ConvFtl>, flash: nat, startLpn: nat, endLpn: nat)
    returns (ok: bool, cmds: seq<seq<ReadCmd>>)
    requires 0 < flash && 0 < |ftls| && startLpn <= endLpn
    requires forall f :: f in ftls ==> f.Valid() && f.maptbl.Length == ftls[0].maptbl.Length
    ensures ok <==> endLpn / |ftls| < ftls[0].maptbl.Length
    ensures ok ==> ReadOnce(Tables(ftls), flash, startLpn, cmds, WrittenIn(ftls, startLpn, endLpn))
    ensures ok ==> forall i :: 0 <= i < |cmds| ==> Joined(flash, cmds[i])
    ensures ok ==> TotalAll(cmds) == |WrittenIn(ftls, startLpn, endLpn)|
  {
    hide ConvFtl.Valid, ReadOnce, MappedRange, WrittenIn, Injective;
    var tables := Tables(ftls);
    forall p | 0 <= p < |ftls| ensures Injective(tables[p]) {
      ftls[p].TableIsInjective();
    }
    ok, cmds := Read(tables, flash, ftls[0].maptbl.Length, startLpn, endLpn);
    WrittenAreMapped(ftls, startLpn, endLpn);
    if ok {
      ReadsAddUp(tables, flash, startLpn, cmds, WrittenIn(ftls, startLpn, endLpn));
    }
  }
}
