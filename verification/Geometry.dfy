/** Physical page addresses of one partition with one plane per LUN, and the order a line is written in. */
module Geometry {

  /** Flash pages of `flash` pages, one-shot pages of `flashPerOneshot` flash pages, and so on up. */
  datatype Geo = Geo(nchs: nat, luns: nat, blks: nat, flash: nat, flashPerOneshot: nat, oneshotsPerBlk: nat) {
    predicate Valid() {
      nchs >= 1 && luns >= 1 && blks >= 1 && flash >= 1 && flashPerOneshot >= 1 && oneshotsPerBlk >= 1
    }
    function Oneshot(): nat { flashPerOneshot * flash }
    function PgsPerBlk(): nat { oneshotsPerBlk * Oneshot() }
    function FlashpgsPerBlk(): nat { oneshotsPerBlk * flashPerOneshot }
    function PgsPerLine(): nat { oneshotsPerBlk * luns * nchs * Oneshot() }
    function PgsPerLun(): nat { blks * PgsPerBlk() }
    function PgsPerCh(): nat { luns * PgsPerLun() }
    function TtPgs(): nat { nchs * PgsPerCh() }
  }

  datatype Ppa = Ppa(ch: nat, lun: nat, blk: nat, pg: nat)

  predicate ValidPpa(g: Geo, p: Ppa) {
    p.ch < g.nchs && p.lun < g.luns && p.blk < g.blks && p.pg < g.PgsPerBlk()
  }

  /** ppa2pgidx. */
  function PgIdx(g: Geo, p: Ppa): nat {
    p.ch * g.PgsPerCh() + p.lun * g.PgsPerLun() + p.blk * g.PgsPerBlk() + p.pg
  }

  // ---- Mixed radix: one digit at a time ----

  /** The number with high part a over the digit b. */
  function Join(a: nat, n: nat, b: nat): nat { a * n + b }

  function High(x: nat, n: nat): nat requires n >= 1 { x / n }

  function Low(x: nat, n: nat): nat requires n >= 1 { x % n }

  lemma {:induction false} MulStep(x: nat, y: nat, n: nat)
    requires x > y
    decreases x - y
    ensures x * n >= y * n + n
  {
    assert x * n == (x - 1) * n + n;
    if x > y + 1 { MulStep(x - 1, y, n); }
  }

  /** Both parts can be read back. */
  lemma SplitJoin(a: nat, n: nat, b: nat)
    requires b < n
    ensures High(Join(a, n, b), n) == a && Low(Join(a, n, b), n) == b
  {
    var q, r := (a * n + b) / n, (a * n + b) % n;
    assert q * n + r == a * n + b;
    if q > a { MulStep(q, a, n); } else if q < a { MulStep(a, q, n); }
  }

  /** A number below m * n has a high part below m and a digit below n. */
  lemma JoinSplit(x: nat, m: nat, n: nat)
    requires n >= 1 && x < m * n
    ensures High(x, n) < m && Low(x, n) < n && Join(High(x, n), n, Low(x, n)) == x
  {
    if x / n > m { MulStep(x / n, m, n); }
  }

  lemma JoinBound(a: nat, n: nat, b: nat, m: nat)
    requires a < m && b < n
    ensures Join(a, n, b) < m * n
  {
    MulStep(m, a, n);
  }

  lemma MulPositive(a: nat, b: nat)
    requires a >= 1 && b >= 1
    ensures a * b >= 1
  {}

  lemma Positive(g: Geo)
    requires g.Valid()
    ensures g.Oneshot() >= 1 && g.PgsPerBlk() >= 1 && g.PgsPerLine() >= 1
  {
    MulPositive(g.flashPerOneshot, g.flash);
    MulPositive(g.oneshotsPerBlk, g.Oneshot());
    MulPositive(g.oneshotsPerBlk, g.luns);
    MulPositive(g.oneshotsPerBlk * g.luns, g.nchs);
    MulPositive(g.oneshotsPerBlk * g.luns * g.nchs, g.Oneshot());
  }

  // ---- The write order is a bijection between a line's addresses and 0..PgsPerLine ----

  /** How many pages of the line the write pointer passes before p: wordline, lun, channel, page. */
  function Index(g: Geo, p: Ppa): nat
    requires g.Valid()
  {
    Positive(g);
    Join(Join(Join(High(p.pg, g.Oneshot()), g.luns, p.lun), g.nchs, p.ch), g.Oneshot(), Low(p.pg, g.Oneshot()))
  }

  /** The page of a line that the write pointer reaches after i others. */
  function PpaAt(g: Geo, line: nat, i: nat): Ppa
    requires g.Valid()
  {
    Positive(g);
    var chunk := High(i, g.Oneshot());
    var row := High(chunk, g.nchs);
    Ppa(Low(chunk, g.nchs), Low(row, g.luns), line, Join(High(row, g.luns), g.Oneshot(), Low(i, g.Oneshot())))
  }

  lemma IndexBound(g: Geo, p: Ppa)
    requires g.Valid() && ValidPpa(g, p)
    ensures Index(g, p) < g.PgsPerLine()
  {
    Positive(g);
    hide High, Low, Join;
    var w, o := High(p.pg, g.Oneshot()), Low(p.pg, g.Oneshot());
    JoinSplit(p.pg, g.oneshotsPerBlk, g.Oneshot());
    JoinBound(w, g.luns, p.lun, g.oneshotsPerBlk);
    JoinBound(Join(w, g.luns, p.lun), g.nchs, p.ch, g.oneshotsPerBlk * g.luns);
    JoinBound(Join(Join(w, g.luns, p.lun), g.nchs, p.ch), g.Oneshot(), o, g.oneshotsPerBlk * g.luns * g.nchs);
  }

  lemma PpaAtIndex(g: Geo, p: Ppa)
    requires g.Valid() && ValidPpa(g, p)
    ensures PpaAt(g, p.blk, Index(g, p)) == p
  {
    Positive(g);
    hide High, Low, Join;
    JoinSplit(p.pg, g.oneshotsPerBlk, g.Oneshot());
    var w, o := High(p.pg, g.Oneshot()), Low(p.pg, g.Oneshot());
    hide Geo.Oneshot, Geo.PgsPerBlk, Geo.PgsPerLine;
    SplitJoin(Join(Join(w, g.luns, p.lun), g.nchs, p.ch), g.Oneshot(), o);
    SplitJoin(Join(w, g.luns, p.lun), g.nchs, p.ch);
    SplitJoin(w, g.luns, p.lun);
  }

  lemma IndexOfPpaAt(g: Geo, line: nat, i: nat)
    requires g.Valid() && line < g.blks && i < g.PgsPerLine()
    ensures ValidPpa(g, PpaAt(g, line, i)) && Index(g, PpaAt(g, line, i)) == i
    ensures PpaAt(g, line, i).blk == line
  {
    Positive(g);
    hide High, Low, Join;
    var chunk, o := High(i, g.Oneshot()), Low(i, g.Oneshot());
    JoinSplit(i, g.oneshotsPerBlk * g.luns * g.nchs, g.Oneshot());
    JoinSplit(chunk, g.oneshotsPerBlk * g.luns, g.nchs);
    JoinSplit(High(chunk, g.nchs), g.oneshotsPerBlk, g.luns);
    var w := High(High(chunk, g.nchs), g.luns);
    JoinBound(w, g.Oneshot(), o, g.oneshotsPerBlk);
    SplitJoin(w, g.Oneshot(), o);
  }

  // ---- The flat page index ----

  lemma PgIdxBound(g: Geo, p: Ppa)
    requires g.Valid() && ValidPpa(g, p)
    ensures PgIdx(g, p) < g.TtPgs()
  {
    JoinBound(p.blk, g.PgsPerBlk(), p.pg, g.blks);
    JoinBound(p.lun, g.PgsPerLun(), Join(p.blk, g.PgsPerBlk(), p.pg), g.luns);
    JoinBound(p.ch, g.PgsPerCh(), Join(p.lun, g.PgsPerLun(), Join(p.blk, g.PgsPerBlk(), p.pg)), g.nchs);
  }

  /** Two valid addresses with the same flat index are the same address. */
  lemma PgIdxInjective(g: Geo, p: Ppa, q: Ppa)
    requires g.Valid() && ValidPpa(g, p) && ValidPpa(g, q) && PgIdx(g, p) == PgIdx(g, q)
    ensures p == q
  {
    PgIdxDigits(g, p);
    PgIdxDigits(g, q);
  }

  lemma PgIdxDigits(g: Geo, p: Ppa)
    requires g.Valid() && ValidPpa(g, p)
    ensures var x := PgIdx(g, p);
            && g.PgsPerCh() >= 1 && g.PgsPerLun() >= 1 && g.PgsPerBlk() >= 1
            && p.ch == High(x, g.PgsPerCh())
            && p.lun == High(Low(x, g.PgsPerCh()), g.PgsPerLun())
            && p.blk == High(Low(Low(x, g.PgsPerCh()), g.PgsPerLun()), g.PgsPerBlk())
            && p.pg == Low(Low(Low(x, g.PgsPerCh()), g.PgsPerLun()), g.PgsPerBlk())
  {
    Positive(g);
    MulPositive(g.blks, g.PgsPerBlk());
    MulPositive(g.luns, g.PgsPerLun());
    var inBlk := Join(p.blk, g.PgsPerBlk(), p.pg);
    var inLun := Join(p.lun, g.PgsPerLun(), inBlk);
    JoinBound(p.blk, g.PgsPerBlk(), p.pg, g.blks);
    JoinBound(p.lun, g.PgsPerLun(), inBlk, g.luns);
    SplitJoin(p.ch, g.PgsPerCh(), inLun);
    SplitJoin(p.lun, g.PgsPerLun(), inBlk);
    SplitJoin(p.blk, g.PgsPerBlk(), p.pg);
  }

  // ---- advance_write_pointer as arithmetic ----

  /** The coordinates after p, or None when p is the last page of its line. */
  function NextPpa(g: Geo, p: Ppa): (r: (Ppa, bool))
    requires g.Valid() && ValidPpa(g, p)
  {
    Positive(g);
    var pg := p.pg + 1;
    if pg % g.Oneshot() != 0 then (p.(pg := pg), false)
    else
      FullOneshot(g, p);
      var back := pg - g.Oneshot();
      if p.ch + 1 != g.nchs then (p.(ch := p.ch + 1, pg := back), false)
      else if p.lun + 1 != g.luns then (p.(ch := 0, lun := p.lun + 1, pg := back), false)
      else if pg != g.PgsPerBlk() then (p.(ch := 0, lun := 0, pg := pg), false)
      else (p.(ch := 0, lun := 0, pg := 0), true)
  }

  lemma Carry(a: nat, n: nat)
    requires n >= 1
    ensures Join(a + 1, n, 0) == Join(a, n, n - 1) + 1
  {
    assert (a + 1) * n == a * n + n;
  }

  /** pg + 1 leaves the one-shot page exactly when pg is its last page. */
  lemma FullOneshot(g: Geo, p: Ppa)
    requires g.Valid() && ValidPpa(g, p)
    ensures g.Oneshot() >= 1
    ensures var w, o := High(p.pg, g.Oneshot()), Low(p.pg, g.Oneshot());
            && p.pg == Join(w, g.Oneshot(), o) && o < g.Oneshot() && w < g.oneshotsPerBlk
            && ((p.pg + 1) % g.Oneshot() == 0 <==> o == g.Oneshot() - 1)
            && (o == g.Oneshot() - 1 ==>
                  && p.pg + 1 == Join(w + 1, g.Oneshot(), 0)
                  && p.pg + 1 - g.Oneshot() == Join(w, g.Oneshot(), 0)
                  && p.pg + 1 >= g.Oneshot())
  {
    Positive(g);
    var w, o := High(p.pg, g.Oneshot()), Low(p.pg, g.Oneshot());
    JoinSplit(p.pg, g.oneshotsPerBlk, g.Oneshot());
    if o == g.Oneshot() - 1 {
      Carry(w, g.Oneshot());
      SplitJoin(w + 1, g.Oneshot(), 0);
    } else {
      SplitJoin(w, g.Oneshot(), o + 1);
    }
  }

  lemma SameWordline(g: Geo, p: Ppa, q: Ppa, w: nat, o: nat)
    requires g.Valid() && ValidPpa(g, p) && q.ch < g.nchs && q.lun < g.luns && q.blk == p.blk
    requires w < g.oneshotsPerBlk && o < g.Oneshot() && q.pg == Join(w, g.Oneshot(), o)
    ensures ValidPpa(g, q)
    ensures Index(g, q) == Join(Join(Join(w, g.luns, q.lun), g.nchs, q.ch), g.Oneshot(), o)
  {
    Positive(g);
    JoinBound(w, g.Oneshot(), o, g.oneshotsPerBlk);
    SplitJoin(w, g.Oneshot(), o);
  }

  /**
    The coordinate carries of advance_write_pointer raise the linear index by exactly one, and
    report the end of the line exactly at its last index.
  */
  lemma NextPpaRaisesIndex(g: Geo, p: Ppa)
    requires g.Valid() && ValidPpa(g, p)
    ensures var (q, last) := NextPpa(g, p);
            && ValidPpa(g, q) && q.blk == p.blk
            && (!last ==> Index(g, q) == Index(g, p) + 1)
            && (last <==> Index(g, p) + 1 == g.PgsPerLine())
            && (last ==> Index(g, q) == 0)
  {
    Positive(g);
    FullOneshot(g, p);
    IndexBound(g, p);
    var w, o := High(p.pg, g.Oneshot()), Low(p.pg, g.Oneshot());
    var (q, last) := NextPpa(g, p);
    SameWordline(g, p, p, w, o);
    if o < g.Oneshot() - 1 {
      SameWordline(g, p, q, w, o + 1);
    } else {
      Carry(Join(Join(w, g.luns, p.lun), g.nchs, p.ch), g.Oneshot());
      if p.ch + 1 != g.nchs {
        SameWordline(g, p, q, w, 0);
      } else {
        Carry(Join(w, g.luns, p.lun), g.nchs);
        if p.lun + 1 != g.luns {
          SameWordline(g, p, q, w, 0);
        } else {
          Carry(w, g.luns);
          LastWordline(g, p, w);
          SameWordline(g, p, q, if last then 0 else w + 1, 0);
        }
      }
    }
    if !last { IndexBound(g, q); }
  }

  lemma LastWordline(g: Geo, p: Ppa, w: nat)
    requires g.Valid() && w < g.oneshotsPerBlk && p.pg + 1 == Join(w + 1, g.Oneshot(), 0)
    ensures p.pg + 1 == g.PgsPerBlk() <==> w + 1 == g.oneshotsPerBlk
    ensures w + 1 == g.oneshotsPerBlk ==>
              Join(Join(Join(w + 1, g.luns, 0), g.nchs, 0), g.Oneshot(), 0) == g.PgsPerLine()
  {
    Positive(g);
    if w + 1 < g.oneshotsPerBlk { MulStep(g.oneshotsPerBlk, w + 1, g.Oneshot()); }
  }
}
