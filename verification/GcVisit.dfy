/** The order in which do_gc visits a line: flash page, channel, lun, page; every page exactly once. */
module GcVisit {
  import opened Basics
  import opened Geometry
  import opened LogMachine
  import opened FtlInvariant
  import opened FtlSnap

  /** The position of a page in that order. */
  function GcPos(g: Geo, p: Ppa): nat
    requires g.Valid()
  {
    Join(Join(Join(High(p.pg, g.flash), g.nchs, p.ch), g.luns, p.lun), g.flash, Low(p.pg, g.flash))
  }

  lemma Lengths(g: Geo)
    ensures g.PgsPerBlk() == g.FlashpgsPerBlk() * g.flash
    ensures g.PgsPerLine() == g.FlashpgsPerBlk() * g.nchs * g.luns * g.flash
  {
    var o, f, e, c, l := g.oneshotsPerBlk, g.flashPerOneshot, g.flash, g.nchs, g.luns;
    assert o * (f * e) == o * f * e;
    assert o * l * c * (f * e) == o * f * c * l * e by {
      assert o * l * c == o * (l * c) == o * (c * l) by { assert l * c == c * l; Assoc(o, l, c); }
      assert o * (c * l) * (f * e) == o * (f * e) * (c * l) by { Swap(o, c * l, f * e); }
      assert o * (f * e) * (c * l) == o * f * e * (c * l);
      assert o * f * e * (c * l) == o * f * (c * l) * e by { Swap(o * f, e, c * l); }
      assert o * f * (c * l) == o * f * c * l by { Assoc(o * f, c, l); }
    }
  }

  lemma Assoc(a: int, b: int, c: int)
    ensures a * b * c == a * (b * c)
  {}

  lemma Swap(a: int, b: int, c: int)
    ensures a * b * c == a * c * b
  {
    Assoc(a, b, c);
    Assoc(a, c, b);
  }

  lemma GcPosBound(g: Geo, p: Ppa)
    requires g.Valid() && ValidPpa(g, p)
    ensures GcPos(g, p) < g.PgsPerLine() && GcPpa(g, p.blk, GcPos(g, p)) == p
    ensures GcPpa(g, 0, GcPos(g, p)) == p.(blk := 0)
  {
    Lengths(g);
    var n := g.FlashpgsPerBlk();
    hide High, Low, Join, Geo.PgsPerBlk, Geo.PgsPerLine, Geo.FlashpgsPerBlk;
    var h, o := High(p.pg, g.flash), Low(p.pg, g.flash);
    JoinSplit(p.pg, n, g.flash);
    JoinBound(h, g.nchs, p.ch, n);
    JoinBound(Join(h, g.nchs, p.ch), g.luns, p.lun, n * g.nchs);
    JoinBound(Join(Join(h, g.nchs, p.ch), g.luns, p.lun), g.flash, o, n * g.nchs * g.luns);
    SplitJoin(Join(Join(h, g.nchs, p.ch), g.luns, p.lun), g.flash, o);
    SplitJoin(Join(h, g.nchs, p.ch), g.luns, p.lun);
    SplitJoin(h, g.nchs, p.ch);
  }

  lemma GcPpaAt(g: Geo, line: nat, k: nat)
    requires g.Valid() && line < g.blks && k < g.PgsPerLine()
    ensures ValidPpa(g, GcPpa(g, line, k)) && GcPos(g, GcPpa(g, line, k)) == k && GcPpa(g, line, k).blk == line
    ensures GcPpa(g, line, k) == GcPpa(g, 0, k).(blk := line)
  {
    Lengths(g);
    var n := g.FlashpgsPerBlk();
    hide High, Low, Join, Geo.PgsPerBlk, Geo.PgsPerLine, Geo.FlashpgsPerBlk;
    JoinSplit(k, n * g.nchs * g.luns, g.flash);
    JoinSplit(High(k, g.flash), n * g.nchs, g.luns);
    JoinSplit(High(High(k, g.flash), g.luns), n, g.nchs);
    var h := High(High(High(k, g.flash), g.luns), g.nchs);
    JoinBound(h, g.flash, Low(k, g.flash), n);
    SplitJoin(h, g.flash, Low(k, g.flash));
  }

  lemma IndexIgnoresLine(g: Geo, p: Ppa, line: nat)
    requires g.Valid()
    ensures Index(g, p.(blk := line)) == Index(g, p)
  {}

  /** The order lists each page index of the line exactly once. */
  lemma GcOrderOk(g: Geo)
    requires g.Valid()
    ensures OrderOk(ConfigOf(g))
  {
    var order, n := GcOrder(g), g.PgsPerLine();
    hide GcPpa, Index, GcPos, Geo.PgsPerLine, Geo.PgsPerBlk;
    forall k: nat | k < n
      ensures order[k] < n && PpaAt(g, 0, order[k]) == GcPpa(g, 0, k) && GcPos(g, GcPpa(g, 0, k)) == k
    {
      GcPpaAt(g, 0, k);
      IndexBound(g, GcPpa(g, 0, k));
      PpaAtIndex(g, GcPpa(g, 0, k));
    }
    forall i: nat | i < n ensures i in order {
      IndexOfPpaAt(g, 0, i);
      GcPosBound(g, PpaAt(g, 0, i));
      assert order[GcPos(g, PpaAt(g, 0, i))] == i;
    }
    forall i, j | 0 <= i < j < |order| ensures order[i] != order[j] {}
  }
}
