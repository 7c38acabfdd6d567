/**
  Page addresses of a ConZone namespace on one kind of media (zms_read_write.c): stepping to the
  next page of a superblock, jumping any number of pages at once, and flat page indices.
*/
module ZmsAddress {
  import opened Basics
  import opened Geometry

  datatype Zppa = Zppa(ch: nat, lun: nat, pl: nat, blk: nat, pg: nat)

  /**
    `groups` lines share a block row; each owns `rows` luns on every channel. A block has `used`
    pages (blk->used_pgs); the namespace owns `blks` block rows from `firstBlk` on.
  */
  datatype Media = Media(nchs: nat, pls: nat, groups: nat, rows: nat, flash: nat, oneshot: nat, used: nat,
                         firstBlk: nat, blks: nat) {
    predicate Valid() {
      nchs >= 1 && pls >= 1 && groups >= 1 && rows >= 1 && flash >= 1 && oneshot >= 1 && used >= 1
    }
    function LunsPerCh(): nat { groups * rows }
    function TtLuns(): nat { LunsPerCh() * nchs }
    function DiesPerGroup(): nat requires groups >= 1 { TtLuns() / groups }
    function RowsPerLine(): nat requires groups >= 1 && nchs >= 1 { DiesPerGroup() / nchs }
    function BlksPerLine(): nat requires groups >= 1 { DiesPerGroup() * pls }
    function PgsPerLine(): nat requires groups >= 1 { BlksPerLine() * used }
    /** Pages of one flash-page row across all dies and planes of a line. */
    function Stripe(): nat { rows * nchs * pls * flash }
  }

  predicate ValidZ(m: Media, p: Zppa) {
    && p.ch < m.nchs && p.lun < m.LunsPerCh() && p.pl < m.pls && p.pg < m.used
    && m.firstBlk <= p.blk < m.firstBlk + m.blks
  }

  lemma Derived(m: Media)
    requires m.Valid()
    ensures m.DiesPerGroup() == m.rows * m.nchs && m.RowsPerLine() == m.rows && m.Stripe() >= 1
  {
    var d := m.rows * m.nchs;
    assert m.TtLuns() == d * m.groups by { Rotate(m.groups, m.rows, m.nchs); }
    SplitJoinAny(d, m.groups);
    SplitJoinAny(m.rows, m.nchs);
    MulPositive(m.rows, m.nchs);
    MulPositive(d, m.pls);
    MulPositive(d * m.pls, m.flash);
  }

  lemma Rotate(a: nat, b: nat, c: nat)
    ensures a * b * c == b * c * a
  {
    assert a * b * c == a * (b * c);
  }

  lemma SplitJoinAny(a: nat, n: nat)
    requires n >= 1
    ensures (a * n) / n == a
  {
    SplitJoin(a, n, 0);
  }

  // ---- The order in which a line is walked ----

  /** The position inside a stripe: lun in the group, channel, plane, page of the flash page. */
  function InStripe(m: Media, p: Zppa): nat
    requires m.Valid()
  {
    Join(Join(Join(Low(p.lun, m.rows), m.nchs, p.ch), m.pls, p.pl), m.flash, Low(p.pg, m.flash))
  }

  /** How many pages of its line are walked before p. */
  function ZIndex(m: Media, p: Zppa): nat
    requires m.Valid()
  {
    Join(High(p.pg, m.flash), m.Stripe(), InStripe(m, p))
  }

  function Group(m: Media, p: Zppa): nat
    requires m.Valid()
  {
    High(p.lun, m.rows)
  }

  /** The page after i others of the group's line in block row blk. */
  function PageAt(m: Media, blk: nat, group: nat, i: nat): Zppa
    requires m.Valid()
  {
    Derived(m);
    var h, r := High(i, m.Stripe()), Low(i, m.Stripe());
    var r1 := High(r, m.flash);
    var r2 := High(r1, m.pls);
    Zppa(Low(r2, m.nchs), Join(group, m.rows, High(r2, m.nchs)), Low(r1, m.pls), blk, Join(h, m.flash, Low(r, m.flash)))
  }

  predicate InDie(m: Media, p: Zppa) { p.ch < m.nchs && p.pl < m.pls }

  lemma InStripeBound(m: Media, p: Zppa)
    requires m.Valid() && InDie(m, p)
    ensures InStripe(m, p) < m.Stripe()
  {
    hide Join, High, Low;
    LowBound(p.lun, m.rows);
    LowBound(p.pg, m.flash);
    JoinBound(Low(p.lun, m.rows), m.nchs, p.ch, m.rows);
    JoinBound(Join(Low(p.lun, m.rows), m.nchs, p.ch), m.pls, p.pl, m.rows * m.nchs);
    JoinBound(Join(Join(Low(p.lun, m.rows), m.nchs, p.ch), m.pls, p.pl), m.flash, Low(p.pg, m.flash),
              m.rows * m.nchs * m.pls);
  }

  lemma LowBound(x: nat, n: nat)
    requires n >= 1
    ensures Low(x, n) < n && Join(High(x, n), n, Low(x, n)) == x
  {}

  /** Index and position determine each other. */
  lemma PageAtZIndex(m: Media, p: Zppa)
    requires m.Valid() && InDie(m, p)
    ensures PageAt(m, p.blk, Group(m, p), ZIndex(m, p)) == p
  {
    hide Join, High, Low, Media.Stripe;
    InStripeBound(m, p);
    LowBound(p.lun, m.rows);
    LowBound(p.pg, m.flash);
    SplitJoin(High(p.pg, m.flash), m.Stripe(), InStripe(m, p));
    SplitJoin(Join(Join(Low(p.lun, m.rows), m.nchs, p.ch), m.pls, p.pl), m.flash, Low(p.pg, m.flash));
    SplitJoin(Join(Low(p.lun, m.rows), m.nchs, p.ch), m.pls, p.pl);
    SplitJoin(Low(p.lun, m.rows), m.nchs, p.ch);
  }

  lemma ZIndexPageAt(m: Media, blk: nat, group: nat, i: nat)
    requires m.Valid()
    ensures var p := PageAt(m, blk, group, i);
            InDie(m, p) && p.blk == blk && Group(m, p) == group && ZIndex(m, p) == i && High(p.pg, m.flash) == High(i, m.Stripe())
  {
    Derived(m);
    var h, r := High(i, m.Stripe()), Low(i, m.Stripe());
    LowBound(i, m.Stripe());
    hide Join, High, Low;
    var r1 := High(r, m.flash);
    var r2 := High(r1, m.pls);
    JoinSplit(r, m.rows * m.nchs * m.pls, m.flash);
    JoinSplit(r1, m.rows * m.nchs, m.pls);
    JoinSplit(r2, m.rows, m.nchs);
    SplitJoin(group, m.rows, High(r2, m.nchs));
    SplitJoin(h, m.flash, Low(r, m.flash));
  }

  /** The walk leaves the block: a new stripe would start at exactly used_pgs. */
  predicate EndOfBlock(m: Media, i: nat)
    requires m.Valid()
  {
    Derived(m);
    Low(i, m.Stripe()) == 0 && Join(High(i, m.Stripe()), m.flash, 0) == m.used
  }

  /** The page walked next, UNMAPPED_PPA (None) past the end of the block. */
  function Successor(m: Media, p: Zppa): Option<Zppa>
    requires m.Valid()
  {
    var i := ZIndex(m, p) + 1;
    if EndOfBlock(m, i) then None else Some(PageAt(m, p.blk, Group(m, p), i))
  }

  function Walk(m: Media, p: Option<Zppa>, n: nat): Option<Zppa>
    requires m.Valid()
  {
    if n == 0 then p
    else
      var q := Walk(m, p, n - 1);
      if q.None? then None else Successor(m, q.value)
  }

  lemma StepInRow(m: Media, p: Zppa, q: Zppa)
    requires m.Valid() && InDie(m, p) && InDie(m, q) && q.blk == p.blk && Group(m, q) == Group(m, p)
    requires High(q.pg, m.flash) == High(p.pg, m.flash) && InStripe(m, q) == InStripe(m, p) + 1
    ensures Successor(m, p) == Some(q)
  {
    hide InStripe, PageAt;
    InStripeBound(m, q);
    SplitJoin(High(q.pg, m.flash), m.Stripe(), InStripe(m, q));
    hide High, Low;
    PageAtZIndex(m, q);
  }

  /** nextpage_interleave on a mapped page. */
  method NextpageInterleave(m: Media, ppa: Zppa) returns (r: Option<Zppa>)
    requires m.Valid() && ValidZ(m, ppa)
    ensures r == Successor(m, ppa)
  {
    hide Successor, High, Low, Join, Media.Stripe, InStripe;
    Derived(m);
    var rowsPerLine := m.RowsPerLine();
    var p := ppa.(pg := ppa.pg + 1);
    Digit(ppa.pg, m.flash);
    if p.pg % m.flash != 0 {
      NextPage(m, ppa, p);
      return Some(p);
    }
    p := p.(pg := p.pg - m.flash);
    p := p.(pl := p.pl + 1);
    if p.pl != m.pls {
      NextPlane(m, ppa, p);
      return Some(p);
    }
    p := p.(pl := 0);
    p := p.(ch := p.ch + 1);
    if p.ch != m.nchs {
      NextChannel(m, ppa, p);
      return Some(p);
    }
    p := p.(ch := 0);
    var baseLun := (p.lun / rowsPerLine) * rowsPerLine;
    var maxLun := baseLun + rowsPerLine;
    p := p.(lun := p.lun + 1);
    BaseLun(ppa.lun, m.rows);
    if p.lun != maxLun {
      NextLun(m, ppa, p);
      return Some(p);
    }
    p := p.(lun := baseLun);
    p := p.(pg := p.pg + m.flash);
    NextRow(m, ppa, p);
    if p.pg != m.used {
      return Some(p);
    }
    return None;
  }

  /** Adding one to a number: its last digit grows, or it is full and the number ends in zero. */
  lemma Digit(x: nat, n: nat)
    requires n >= 1
    ensures x == Join(High(x, n), n, Low(x, n)) && Low(x, n) < n
    ensures (x + 1) % n == 0 <==> Low(x, n) == n - 1
    ensures Low(x, n) < n - 1 ==> High(x + 1, n) == High(x, n) && Low(x + 1, n) == Low(x, n) + 1
    ensures Low(x, n) == n - 1 ==>
              && x + 1 == Join(High(x, n) + 1, n, 0) && High(x + 1, n) == High(x, n) + 1 && Low(x + 1, n) == 0
              && x + 1 - n == Join(High(x, n), n, 0) >= 0
              && High(x + 1 - n, n) == High(x, n) && Low(x + 1 - n, n) == 0
    ensures x + 1 == High(x, n) * n + n <==> Low(x, n) == n - 1
  {
    var h, l := High(x, n), Low(x, n);
    if l == n - 1 {
      Carry(h, n);
      SplitJoin(h + 1, n, 0);
      SplitJoin(h, n, 0);
    } else {
      SplitJoin(h, n, l + 1);
    }
  }

  lemma BaseLun(lun: nat, rows: nat)
    requires rows >= 1
    ensures (lun / rows) * rows == Join(High(lun, rows), rows, 0) <= lun && Low(lun, rows) < rows
    ensures lun + 1 == (lun / rows) * rows + rows <==> Low(lun, rows) == rows - 1
  {
    Digit(lun, rows);
  }

  lemma NextPage(m: Media, p: Zppa, q: Zppa)
    requires m.Valid() && InDie(m, p) && q == p.(pg := p.pg + 1) && Low(p.pg, m.flash) < m.flash - 1
    ensures Successor(m, p) == Some(q)
  {
    Digit(p.pg, m.flash);
    hide High, Low;
    StepInRow(m, p, q);
  }

  lemma NextPlane(m: Media, p: Zppa, q: Zppa)
    requires m.Valid() && InDie(m, p) && Low(p.pg, m.flash) == m.flash - 1 && p.pl + 1 < m.pls
    requires p.pg + 1 >= m.flash && q == p.(pg := p.pg + 1 - m.flash, pl := p.pl + 1)
    ensures Successor(m, p) == Some(q)
  {
    Digit(p.pg, m.flash);
    hide High, Low;
    Carry(Join(Join(Low(p.lun, m.rows), m.nchs, p.ch), m.pls, p.pl), m.flash);
    StepInRow(m, p, q);
  }

  lemma NextChannel(m: Media, p: Zppa, q: Zppa)
    requires m.Valid() && InDie(m, p) && Low(p.pg, m.flash) == m.flash - 1 && p.pl + 1 == m.pls && p.ch + 1 < m.nchs
    requires p.pg + 1 >= m.flash && q == p.(pg := p.pg + 1 - m.flash, pl := 0, ch := p.ch + 1)
    ensures Successor(m, p) == Some(q)
  {
    Digit(p.pg, m.flash);
    hide High, Low;
    Carry(Join(Join(Low(p.lun, m.rows), m.nchs, p.ch), m.pls, p.pl), m.flash);
    Carry(Join(Low(p.lun, m.rows), m.nchs, p.ch), m.pls);
    StepInRow(m, p, q);
  }

  lemma NextLun(m: Media, p: Zppa, q: Zppa)
    requires m.Valid() && InDie(m, p) && Low(p.pg, m.flash) == m.flash - 1 && p.pl + 1 == m.pls && p.ch + 1 == m.nchs
    requires Low(p.lun, m.rows) < m.rows - 1
    requires p.pg + 1 >= m.flash && q == Zppa(0, p.lun + 1, 0, p.blk, p.pg + 1 - m.flash)
    ensures Successor(m, p) == Some(q)
  {
    Digit(p.pg, m.flash);
    Digit(p.lun, m.rows);
    hide High, Low;
    Carry(Join(Join(Low(p.lun, m.rows), m.nchs, p.ch), m.pls, p.pl), m.flash);
    Carry(Join(Low(p.lun, m.rows), m.nchs, p.ch), m.pls);
    Carry(Low(p.lun, m.rows), m.nchs);
    StepInRow(m, p, q);
  }

  lemma NextRow(m: Media, p: Zppa, q: Zppa)
    requires m.Valid() && InDie(m, p) && Low(p.pg, m.flash) == m.flash - 1 && p.pl + 1 == m.pls && p.ch + 1 == m.nchs
    requires Low(p.lun, m.rows) == m.rows - 1
    requires q == Zppa(0, Join(High(p.lun, m.rows), m.rows, 0), 0, p.blk, p.pg + 1)
    ensures Successor(m, p) == if q.pg == m.used then None else Some(q)
  {
    Digit(p.pg, m.flash);
    SplitJoin(High(p.lun, m.rows), m.rows, 0);
    hide High, Low;
    Carry(Join(Join(Low(p.lun, m.rows), m.nchs, p.ch), m.pls, p.pl), m.flash);
    Carry(Join(Low(p.lun, m.rows), m.nchs, p.ch), m.pls);
    Carry(Low(p.lun, m.rows), m.nchs);
    Carry(m.rows - 1, 1);
    var w := High(p.pg, m.flash);
    assert InStripe(m, p) == m.Stripe() - 1 by { FullStripe(m, p); }
    Carry(w, m.Stripe());
    assert InStripe(m, q) == 0;
    PageAtZIndex(m, q);
    SplitJoin(w + 1, m.Stripe(), 0);
  }

  lemma FullStripe(m: Media, p: Zppa)
    requires m.Valid() && Low(p.pg, m.flash) == m.flash - 1 && p.pl + 1 == m.pls && p.ch + 1 == m.nchs
    requires Low(p.lun, m.rows) == m.rows - 1
    ensures InStripe(m, p) == m.Stripe() - 1
  {
    hide High, Low;
    Carry(m.rows - 1, m.nchs);
    Carry(m.rows * m.nchs - 1, m.pls);
    Carry(m.rows * m.nchs * m.pls - 1, m.flash);
  }

  // ---- Jumping ----

  /** The walk inside one block of a sub-line. */
  function SuccessorInBlock(m: Media, p: Zppa): Option<Zppa> {
    if p.pg + 1 == m.used then None else Some(p.(pg := p.pg + 1))
  }

  function WalkInBlock(m: Media, p: Option<Zppa>, n: nat): Option<Zppa> {
    if n == 0 then p
    else
      var q := WalkInBlock(m, p, n - 1);
      if q.None? then None else SuccessorInBlock(m, q.value)
  }

  /** nextpage_normal */
  method NextpageNormal(m: Media, ppa: Zppa) returns (r: Option<Zppa>)
    requires ppa.pg < m.used
    ensures r == SuccessorInBlock(m, ppa)
  {
    var p := ppa.(pg := ppa.pg + 1);
    if p.pg != m.used {
      return Some(p);
    }
    return None;
  }

  /** get_advanced_ppa_fast; `sub` is whether the page's line is a sub-line. */
  function GetAdvancedPpaFast(m: Media, start: Option<Zppa>, sub: bool, steps: nat): Option<Zppa>
    requires m.Valid()
  {
    if start.None? || steps == 0 then start
    else if sub then
      var newPg := start.value.pg + steps;
      if newPg >= m.used then None else Some(start.value.(pg := newPg))
    else JumpInterleaved(m, start.value, steps)
  }

  /** The weighted sum of the four digits below the flash-page row. */
  function CurrentInStripe(m: Media, p: Zppa): (r: int)
    requires m.Valid()
  {
    Derived(m);
    var baseLun := (p.lun / m.RowsPerLine()) * m.RowsPerLine();
    p.pg % m.flash + p.pl * m.flash + p.ch * m.pls * m.flash + (p.lun - baseLun) * m.nchs * m.pls * m.flash
  }

  function JumpInterleaved(m: Media, p: Zppa, steps: nat): Option<Zppa>
    requires m.Valid()
  {
    Derived(m);
    StripeSize(m, p);
    var baseLun := Join(High(p.lun, m.RowsPerLine()), m.RowsPerLine(), 0);
    var stripeSize := m.flash * m.pls * m.nchs * m.RowsPerLine();
    var total: nat := CurrentInStripe(m, p) + steps;
    var newPgHigh := High(p.pg, m.flash) + High(total, stripeSize);
    if Join(newPgHigh, m.flash, 0) >= m.used then None
    else
      var rem := Low(total, stripeSize);
      var newPgLow := Low(rem, m.flash);
      var rem1 := High(rem, m.flash);
      var newPl := Low(rem1, m.pls);
      var rem2 := High(rem1, m.pls);
      var newCh := Low(rem2, m.nchs);
      var newLunOffset := High(rem2, m.nchs);
      var next := Zppa(newCh, baseLun + newLunOffset, newPl, p.blk, Join(newPgHigh, m.flash, newPgLow));
      if next.pg >= m.used then None else Some(next)
  }

  lemma Regroup(a: nat, b: nat, c: nat, d: nat)
    ensures a * b * c * d == d * c * b * a
  {
    assert a * b * c * d == d * (a * b * c);
    assert a * b * c == c * (a * b) == c * (b * a) == c * b * a by { assert c * (b * a) == (c * b) * a; }
    assert d * (c * b * a) == d * (c * b) * a == d * c * b * a;
  }

  lemma Nested(o: nat, n: nat, c: nat, p: nat, l: nat, f: nat, b: nat)
    ensures Join(Join(Join(o, n, c), p, l), f, b) == b + l * f + c * p * f + o * n * p * f
  {
    assert (o * n + c) * p == o * n * p + c * p;
    assert (o * n * p + c * p) * f == o * n * p * f + c * p * f;
    assert (o * n * p + c * p + l) * f == (o * n * p + c * p) * f + l * f;
  }

  /** The sums and products of the source are the position inside the stripe and its size. */
  lemma StripeSize(m: Media, p: Zppa)
    requires m.Valid()
    ensures m.flash * m.pls * m.nchs * m.RowsPerLine() == m.Stripe() >= 1
    ensures CurrentInStripe(m, p) == InStripe(m, p)
  {
    Derived(m);
    Regroup(m.flash, m.pls, m.nchs, m.rows);
    LowBound(p.lun, m.rows);
    assert p.lun - (p.lun / m.rows) * m.rows == Low(p.lun, m.rows);
    Nested(Low(p.lun, m.rows), m.nchs, p.ch, m.pls, p.pl, m.flash, Low(p.pg, m.flash));
  }

  /** The jump lands on the page `steps` further in the walking order, if that lies in the block. */
  lemma JumpByIndex(m: Media, p: Zppa, steps: nat)
    requires m.Valid() && InDie(m, p)
    ensures var i := ZIndex(m, p) + steps; var q := PageAt(m, p.blk, Group(m, p), i);
            JumpInterleaved(m, p, steps) == if q.pg >= m.used then None else Some(q)
  {
    Derived(m);
    StripeSize(m, p);
    var h, c := High(p.pg, m.flash), InStripe(m, p);
    var total := c + steps;
    var i := ZIndex(m, p) + steps;
    assert i == Join(h, m.Stripe(), total);
    AddHigh(h, m.Stripe(), total);
    hide Media.Stripe, InStripe, Group;
    assert Join(Group(m, p), m.rows, High(High(High(Low(i, m.Stripe()), m.flash), m.pls), m.nchs))
        == Join(Group(m, p), m.rows, 0) + High(High(High(Low(i, m.Stripe()), m.flash), m.pls), m.nchs);
  }

  lemma AddHigh(h: nat, n: nat, x: nat)
    requires n >= 1
    ensures High(Join(h, n, x), n) == h + x / n && Low(Join(h, n, x), n) == x % n
  {
    assert Join(h, n, x) == Join(h + x / n, n, x % n) by { assert (h + x / n) * n == h * n + (x / n) * n; }
    SplitJoin(h + x / n, n, x % n);
  }

  /** Whole flash pages per block: the walk leaves the block at one index only. */
  lemma EndIsOnce(m: Media, rows: nat, i: nat)
    requires m.Valid() && m.used == Join(rows, m.flash, 0)
    ensures EndOfBlock(m, i) <==> i == Join(rows, m.Stripe(), 0)
  {
    Derived(m);
    LowBound(i, m.Stripe());
    SplitJoin(rows, m.Stripe(), 0);
    if High(i, m.Stripe()) > rows { MulStep(High(i, m.Stripe()), rows, m.flash); }
    if High(i, m.Stripe()) < rows { MulStep(rows, High(i, m.Stripe()), m.flash); }
  }

  lemma BelowEnd(m: Media, rows: nat, blk: nat, group: nat, i: nat)
    requires m.Valid() && m.used == Join(rows, m.flash, 0)
    ensures PageAt(m, blk, group, i).pg < m.used <==> i < Join(rows, m.Stripe(), 0)
  {
    Derived(m);
    ZIndexPageAt(m, blk, group, i);
    var p := PageAt(m, blk, group, i);
    LowBound(p.pg, m.flash);
    LowBound(i, m.Stripe());
    var h := High(i, m.Stripe());
    hide Media.Stripe, PageAt, High, Low;
    if h < rows {
      JoinBound(h, m.flash, Low(p.pg, m.flash), rows);
      JoinBound(h, m.Stripe(), Low(i, m.Stripe()), rows);
    } else {
      AtLeast(h, rows, m.flash, Low(p.pg, m.flash));
      AtLeast(h, rows, m.Stripe(), Low(i, m.Stripe()));
    }
  }

  lemma AtLeast(h: nat, rows: nat, n: nat, l: nat)
    requires h >= rows
    ensures Join(h, n, l) >= Join(rows, n, 0)
  {
    if h > rows { MulStep(h, rows, n); }
  }

  lemma {:induction false} WalkByIndex(m: Media, rows: nat, p: Zppa, n: nat)
    requires m.Valid() && InDie(m, p) && m.used == Join(rows, m.flash, 0) && ZIndex(m, p) < Join(rows, m.Stripe(), 0)
    ensures var i := ZIndex(m, p) + n;
            Walk(m, Some(p), n) == if i < Join(rows, m.Stripe(), 0) then Some(PageAt(m, p.blk, Group(m, p), i)) else None
  {
    hide PageAt, EndOfBlock, ZIndex, Group, Join;
    if n == 0 {
      PageAtZIndex(m, p);
    } else {
      WalkByIndex(m, rows, p, n - 1);
      ZIndexPageAt(m, p.blk, Group(m, p), ZIndex(m, p) + n - 1);
      EndIsOnce(m, rows, ZIndex(m, p) + n);
    }
  }

  /** With whole flash pages per block, jumping is walking, for any start and any distance. */
  lemma JumpIsWalk(m: Media, rows: nat, p: Zppa, n: nat)
    requires m.Valid() && ValidZ(m, p) && m.used == Join(rows, m.flash, 0)
    ensures GetAdvancedPpaFast(m, Some(p), false, n) == Walk(m, Some(p), n)
  {
    PageAtZIndex(m, p);
    BelowEnd(m, rows, p.blk, Group(m, p), ZIndex(m, p));
    BelowEnd(m, rows, p.blk, Group(m, p), ZIndex(m, p) + n);
    hide PageAt, ZIndex, Group, Join, JumpInterleaved;
    WalkByIndex(m, rows, p, n);
    JumpByIndex(m, p, n);
  }

  /** A partial last flash page: the walk never notices the end of the block. */
  lemma {:induction false} WalkNeverEnds(m: Media, p: Zppa, n: nat)
    requires m.Valid() && InDie(m, p) && m.used % m.flash != 0
    ensures Walk(m, Some(p), n).Some? && InDie(m, Walk(m, Some(p), n).value)
  {
    hide PageAt, ZIndex, Group;
    if n > 0 {
      WalkNeverEnds(m, p, n - 1);
      var q := Walk(m, Some(p), n - 1).value;
      ZIndexPageAt(m, q.blk, Group(m, q), ZIndex(m, q) + 1);
      Derived(m);
      SplitJoin(High(ZIndex(m, q) + 1, m.Stripe()), m.flash, 0);
    }
  }

  lemma JumpEnds(m: Media, p: Zppa)
    requires m.Valid() && InDie(m, p)
    ensures GetAdvancedPpaFast(m, Some(p), false, Join(m.used, m.Stripe(), 0)) == None
  {
    hide JumpInterleaved, PageAt, ZIndex, Group, Media.Stripe;
    Derived(m);
    var steps := Join(m.used, m.Stripe(), 0);
    var i := ZIndex(m, p) + steps;
    MulPositive(m.used, m.Stripe());
    JumpByIndex(m, p, steps);
    ZIndexPageAt(m, p.blk, Group(m, p), i);
    AddHigh(m.used, m.Stripe(), ZIndex(m, p));
    PastTheEnd(High(i, m.Stripe()), m.used, ZIndex(m, p) / m.Stripe(), PageAt(m, p.blk, Group(m, p), i).pg, m.flash);
  }

  /** So many flash pages are as many pages at least. */
  lemma PastTheEnd(h: nat, used: nat, more: nat, pg: nat, flash: nat)
    requires flash >= 1 && High(pg, flash) == h == used + more
    ensures pg >= used
  {
    LowBound(pg, flash);
    Grows(h, flash);
  }

  lemma Grows(a: nat, n: nat)
    requires n >= 1
    ensures a * n >= a
  {}

  /** The O(1) jump equals the step-by-step walk everywhere exactly when blocks hold whole flash pages. */
  lemma JumpEqualsWalkExactly(m: Media)
    requires m.Valid() && m.blks >= 1
    ensures (forall p, n: nat :: ValidZ(m, p) ==> GetAdvancedPpaFast(m, Some(p), false, n) == Walk(m, Some(p), n))
            <==> m.used % m.flash == 0
  {
    hide Walk, GetAdvancedPpaFast;
    if m.used % m.flash == 0 {
      assert m.used == Join(m.used / m.flash, m.flash, 0);
      forall p, n: nat | ValidZ(m, p) ensures GetAdvancedPpaFast(m, Some(p), false, n) == Walk(m, Some(p), n) {
        JumpIsWalk(m, m.used / m.flash, p, n);
      }
    } else {
      var p := Zppa(0, 0, 0, m.firstBlk, 0);
      MulPositive(m.groups, m.rows);
      assert ValidZ(m, p);
      Derived(m);
      var n := Join(m.used, m.Stripe(), 0);
      JumpEnds(m, p);
      WalkNeverEnds(m, p, n);
    }
  }

  /** On a sub-line the jump is the walk inside the block, without conditions. */
  lemma {:induction false} JumpIsWalkInBlock(m: Media, p: Zppa, n: nat)
    requires m.Valid() && p.pg < m.used
    ensures GetAdvancedPpaFast(m, Some(p), true, n) == WalkInBlock(m, Some(p), n)
  {
    if n > 0 { JumpIsWalkInBlock(m, p, n - 1); }
  }

  // ---- Superblock lines ----

  /** lmid_2_blkid */
  function BlkId(m: Media, id: nat): nat
    requires m.Valid()
  {
    id / m.groups + m.firstBlk
  }

  /** get_first_page of a superblock line. */
  function GetFirstPage(m: Media, id: nat): Zppa
    requires m.Valid()
  {
    var baseFlatLun := Low(id, m.groups) * m.DiesPerGroup();
    Zppa(Low(baseFlatLun, m.nchs), High(baseFlatLun, m.nchs), 0, BlkId(m, id), 0)
  }

  /** get_line of a page whose line has no sub-lines. */
  function GetLine(m: Media, p: Zppa): nat
    requires m.Valid() && p.blk >= m.firstBlk
  {
    Derived(m);
    MulPositive(m.rows, m.nchs);
    var rowIdx := p.blk - m.firstBlk;
    var globalDieIdx := Join(p.lun, m.nchs, p.ch);
    Join(rowIdx, m.groups, High(globalDieIdx, m.DiesPerGroup()))
  }

  lemma FirstPage(m: Media, id: nat)
    requires m.Valid()
    ensures GetFirstPage(m, id) == Zppa(0, Join(Low(id, m.groups), m.rows, 0), 0, BlkId(m, id), 0)
    ensures Group(m, GetFirstPage(m, id)) == Low(id, m.groups) && ZIndex(m, GetFirstPage(m, id)) == 0
  {
    Derived(m);
    var g := Low(id, m.groups);
    assert g * (m.rows * m.nchs) == Join(g * m.rows, m.nchs, 0);
    SplitJoin(g * m.rows, m.nchs, 0);
    SplitJoin(g, m.rows, 0);
    hide Media.Stripe;
    assert High(0, m.flash) == 0 && Low(0, m.flash) == 0;
  }

  /** A page's line is given by its block row and its group. */
  lemma LineOfPage(m: Media, p: Zppa)
    requires m.Valid() && p.blk >= m.firstBlk && p.ch < m.nchs
    ensures GetLine(m, p) == Join(p.blk - m.firstBlk, m.groups, Group(m, p))
  {
    Derived(m);
    var die := Join(p.lun, m.nchs, p.ch);
    LowBound(p.lun, m.rows);
    var g, l := High(p.lun, m.rows), Low(p.lun, m.rows);
    hide High, Low;
    assert die == Join(g, m.rows * m.nchs, Join(l, m.nchs, p.ch)) by {
      assert (g * m.rows + l) * m.nchs == g * m.rows * m.nchs + l * m.nchs;
      assert g * m.rows * m.nchs == g * (m.rows * m.nchs);
    }
    JoinBound(l, m.nchs, p.ch, m.rows);
    SplitJoin(g, m.rows * m.nchs, Join(l, m.nchs, p.ch));
  }

  lemma LineSpan(m: Media, rows: nat)
    requires m.Valid() && m.used == Join(rows, m.flash, 0)
    ensures m.PgsPerLine() == Join(rows, m.Stripe(), 0)
  {
    Derived(m);
    var d := m.rows * m.nchs * m.pls;
    assert d * (rows * m.flash) == rows * (d * m.flash) by {
      assert d * (rows * m.flash) == d * rows * m.flash == rows * d * m.flash;
    }
  }

  /** A page that the walk from the line's first page meets. */
  ghost predicate Visits(m: Media, id: nat, k: nat, q: Zppa)
    requires m.Valid()
  {
    Walk(m, Some(GetFirstPage(m, id)), k) == Some(q)
  }

  /** Inside the line, step k meets the page of index k; one step more leaves the line. */
  lemma WalkInLine(m: Media, id: nat, k: nat)
    requires m.Valid() && m.used % m.flash == 0 && id < m.blks * m.groups
    ensures var q := PageAt(m, BlkId(m, id), Low(id, m.groups), k);
            && (k < m.PgsPerLine() ==> Visits(m, id, k, q) && ValidZ(m, q) && GetLine(m, q) == id)
            && (k == m.PgsPerLine() ==> Walk(m, Some(GetFirstPage(m, id)), k) == None)
  {
    hide Media.PgsPerLine, Media.Stripe, PageAt, ZIndex, Walk, GetLine, High, Low, GetFirstPage, Group;
    var rows := m.used / m.flash;
    assert m.used == Join(rows, m.flash, 0) && rows >= 1;
    LineSpan(m, rows);
    Derived(m);
    FirstPage(m, id);
    MulPositive(rows, m.Stripe());
    WalkByIndex(m, rows, GetFirstPage(m, id), k);
    if k < m.PgsPerLine() { PageInLine(m, rows, id, k); }
  }

  lemma PageInLine(m: Media, rows: nat, id: nat, k: nat)
    requires m.Valid() && m.used == Join(rows, m.flash, 0) && id < m.blks * m.groups && k < Join(rows, m.Stripe(), 0)
    ensures var q := PageAt(m, BlkId(m, id), Low(id, m.groups), k); ValidZ(m, q) && GetLine(m, q) == id
  {
    hide Media.Stripe, PageAt, ZIndex, GetLine;
    var q := PageAt(m, BlkId(m, id), Low(id, m.groups), k);
    JoinSplit(id, m.blks, m.groups);
    ZIndexPageAt(m, BlkId(m, id), Low(id, m.groups), k);
    BelowEnd(m, rows, BlkId(m, id), Low(id, m.groups), k);
    LineOfPage(m, q);
    LowBound(q.lun, m.rows);
    JoinBound(Group(m, q), m.rows, Low(q.lun, m.rows), m.groups);
  }

  lemma PageOfLineVisited(m: Media, id: nat, q: Zppa)
    requires m.Valid() && m.used % m.flash == 0 && id < m.blks * m.groups && ValidZ(m, q) && GetLine(m, q) == id
    ensures ZIndex(m, q) < m.PgsPerLine() && Visits(m, id, ZIndex(m, q), q)
  {
    var rows := m.used / m.flash;
    assert m.used == Join(rows, m.flash, 0);
    LineSpan(m, rows);
    LineOfPage(m, q);
    LowBound(q.lun, m.rows);
    assert Group(m, q) < m.groups by { AtMost(q.lun, m.groups, m.rows); }
    SplitJoin(q.blk - m.firstBlk, m.groups, Group(m, q));
    PageAtZIndex(m, q);
    BelowEnd(m, rows, q.blk, Group(m, q), ZIndex(m, q));
    hide Media.PgsPerLine, PageAt, ZIndex, Visits, Media.Stripe;
    WalkInLine(m, id, ZIndex(m, q));
  }

  lemma AtMost(x: nat, a: nat, n: nat)
    requires n >= 1 && x < a * n
    ensures High(x, n) < a
  {
    JoinSplit(x, a, n);
  }

  /**
    From get_first_page of a superblock line, the walk meets every page of the line's blocks
    exactly once in pgs_per_line steps, each of them is mapped back to the line, and then it ends.
  */
  lemma LineWalkedOnce(m: Media, id: nat)
    requires m.Valid() && m.used % m.flash == 0 && id < m.blks * m.groups
    ensures forall q :: ValidZ(m, q) && GetLine(m, q) == id ==>
              exists k: nat :: k < m.PgsPerLine() && Visits(m, id, k, q)
    ensures forall k: nat, q :: k < m.PgsPerLine() && Visits(m, id, k, q) ==> ValidZ(m, q) && GetLine(m, q) == id
    ensures forall j: nat, k: nat, q :: j < m.PgsPerLine() && k < m.PgsPerLine() && Visits(m, id, j, q) && Visits(m, id, k, q)
              ==> j == k
    ensures Walk(m, Some(GetFirstPage(m, id)), m.PgsPerLine()) == None
  {
    hide Media.PgsPerLine, PageAt, ZIndex, GetLine, Walk;
    forall q | ValidZ(m, q) && GetLine(m, q) == id ensures exists k: nat :: k < m.PgsPerLine() && Visits(m, id, k, q) {
      PageOfLineVisited(m, id, q);
    }
    forall k: nat, q | k < m.PgsPerLine() && Visits(m, id, k, q)
      ensures ValidZ(m, q) && GetLine(m, q) == id && ZIndex(m, q) == k
    {
      WalkInLine(m, id, k);
      ZIndexPageAt(m, BlkId(m, id), Low(id, m.groups), k);
    }
    WalkInLine(m, id, m.PgsPerLine());
  }

  // ---- Flat page indices ----

  /** ppa_2_pgidx of a page on a superblock line. */
  function Ppa2Pgidx(m: Media, p: Zppa): nat
    requires m.Valid() && p.blk >= m.firstBlk
  {
    var parallelIdx := Join(p.lun, m.nchs * m.pls, Join(p.ch, m.pls, p.pl));
    var pgsPerWordline := m.oneshot * m.nchs * m.LunsPerCh() * m.pls;
    Join(GetLine(m, p), m.PgsPerLine(), Join(High(p.pg, m.oneshot), pgsPerWordline, 0))
    + Join(parallelIdx, m.oneshot, Low(p.pg, m.oneshot))
  }

  /** Pages of one wordline of one line. */
  function Unit(m: Media): nat { m.rows * m.nchs * m.pls * m.oneshot }

  /** Die and plane inside the group. */
  function InGroup(m: Media, p: Zppa): nat
    requires m.Valid()
  {
    Join(Join(Low(p.lun, m.rows), m.nchs, p.ch), m.pls, p.pl)
  }

  /** Which unit a page's index falls into: w wordlines into block row `row` of group g. */
  function Chunk(m: Media, row: nat, g: nat, w: nat, wordlines: nat): nat {
    (row * wordlines + w) * m.groups + g * (wordlines + 1)
  }

  lemma Mul3(a: int, b: int, c: int)
    ensures a * b * c == a * (b * c) && a * (b * c) == b * (a * c) && a * (b * c) == c * (a * b)
  {}

  lemma Distribute(a: int, b: int, c: int)
    ensures (a + b) * c == a * c + b * c
  {}

  /** The four terms of the index regrouped: unit number and place inside the unit. */
  lemma PgidxSplit(m: Media, p: Zppa, wordlines: nat)
    requires m.Valid() && p.blk >= m.firstBlk && p.ch < m.nchs && m.used == wordlines * m.oneshot
    ensures Ppa2Pgidx(m, p)
         == Join(Chunk(m, p.blk - m.firstBlk, Group(m, p), High(p.pg, m.oneshot), wordlines), Unit(m),
                 Join(InGroup(m, p), m.oneshot, Low(p.pg, m.oneshot)))
  {
    LineOfPage(m, p);
    LowBound(p.lun, m.rows);
    hide High, Low, GetLine;
    var row, g, w, o, l := p.blk - m.firstBlk, Group(m, p), High(p.pg, m.oneshot), m.oneshot, Low(p.lun, m.rows);
    var U, W, G, d, x := Unit(m), wordlines, m.groups, m.rows * m.nchs * m.pls, InGroup(m, p);
    LineTerm(m, W);
    WordlineTerm(m);
    ParallelTerm(m, p);
    hide Media.PgsPerLine, Unit, InGroup;
    calc {
      (row * G + g) * (W * U) + w * (G * U) + (g * d + x) * o;
      { Mul3(row * G + g, W, U); Mul3(w, G, U); Distribute(g * d, x, o); Mul3(g, d, o); }
      (row * G + g) * W * U + w * G * U + g * U + x * o;
      { Distribute((row * G + g) * W, w * G, U); Distribute((row * G + g) * W + w * G, g, U); }
      ((row * G + g) * W + w * G + g) * U + x * o;
      { ChunkTerm(row, g, w, W, G); }
      ((row * W + w) * G + g * (W + 1)) * U + x * o;
    }
  }

  lemma ChunkTerm(row: int, g: int, w: int, W: int, G: int)
    ensures (row * G + g) * W + w * G + g == (row * W + w) * G + g * (W + 1)
  {
    Distribute(row * G, g, W);
    Distribute(row * W, w, G);
    Mul3(row, G, W);
  }

  lemma LineTerm(m: Media, wordlines: nat)
    requires m.Valid() && m.used == wordlines * m.oneshot
    ensures m.PgsPerLine() == wordlines * Unit(m) && Unit(m) == m.rows * m.nchs * m.pls * m.oneshot
  {
    Derived(m);
    Mul3(m.rows * m.nchs * m.pls, wordlines, m.oneshot);
  }

  lemma WordlineTerm(m: Media)
    requires m.Valid()
    ensures m.oneshot * m.nchs * m.LunsPerCh() * m.pls == m.groups * Unit(m)
  {
    var o, c, G, R, p := m.oneshot, m.nchs, m.groups, m.rows, m.pls;
    calc {
      o * c * (G * R) * p;
      { Mul3(o * c, G, R); Mul3(G, o * c * R, p); }
      G * (o * c * R * p);
      { Regroup(o, c, R, p); Regroup4(o, c, R, p); }
      G * (R * c * p * o);
    }
  }

  lemma Regroup4(o: nat, c: nat, R: nat, p: nat)
    ensures o * c * R * p == R * c * p * o
  {
    Mul3(o, c, R);
    assert o * c * R == R * c * o by { Mul3(R, c, o); }
    assert R * c * o * p == R * c * p * o by { Mul3(R * c, o, p); Mul3(R * c, p, o); }
  }

  lemma ParallelTerm(m: Media, p: Zppa)
    requires m.Valid()
    ensures Join(p.lun, m.nchs * m.pls, Join(p.ch, m.pls, p.pl)) == Group(m, p) * (m.rows * m.nchs * m.pls) + InGroup(m, p)
  {
    LowBound(p.lun, m.rows);
    var g, l := High(p.lun, m.rows), Low(p.lun, m.rows);
    hide High, Low;
    var np := m.nchs * m.pls;
    Distribute(g * m.rows, l, np);
    Mul3(g, m.rows, np);
    Mul3(m.rows, m.nchs, m.pls);
    Distribute(l * m.nchs, p.ch, m.pls);
    Mul3(l, m.nchs, m.pls);
  }

  lemma InUnit(m: Media, p: Zppa)
    requires m.Valid() && InDie(m, p)
    ensures Join(InGroup(m, p), m.oneshot, Low(p.pg, m.oneshot)) < Unit(m)
    ensures Low(p.pg, m.oneshot) < m.oneshot
  {
    LowBound(p.lun, m.rows);
    LowBound(p.pg, m.oneshot);
    hide High, Low;
    JoinBound(Low(p.lun, m.rows), m.nchs, p.ch, m.rows);
    JoinBound(Join(Low(p.lun, m.rows), m.nchs, p.ch), m.pls, p.pl, m.rows * m.nchs);
    JoinBound(InGroup(m, p), m.oneshot, Low(p.pg, m.oneshot), m.rows * m.nchs * m.pls);
  }

  /** No two groups drift into each other: g * (wordlines + 1) tells all groups apart modulo `groups`. */
  ghost predicate GroupsApart(m: Media, wordlines: nat)
    requires m.groups >= 1
  {
    forall k :: 0 < k < m.groups ==> Drift(k, wordlines) % m.groups != 0
  }

  /** All blocks of the namespace together have at most one wordline. */
  predicate OneWordline(m: Media, wordlines: nat) { m.blks == 0 || (m.blks == 1 && wordlines == 1) }

  function Drift(k: int, wordlines: nat): int { k * (wordlines + 1) }

  lemma ChunkDecides(m: Media, W: nat, r1: nat, g1: nat, w1: nat, r2: nat, g2: nat, w2: nat)
    requires m.groups >= 1 && g1 <= g2 < m.groups && w1 < W && w2 < W
    requires GroupsApart(m, W) || (r1 == r2 && W == 1)
    requires Chunk(m, r1, g1, w1, W) == Chunk(m, r2, g2, w2, W)
    ensures r1 == r2 && g1 == g2 && w1 == w2
  {
    var x1, x2 := r1 * W + w1, r2 * W + w2;
    var k := g2 - g1;
    hide Drift;
    DriftOf(g1, g2, W);
    if k > 0 {
      if x1 <= x2 { MoreMultiples(x1, x2, m.groups); } else { DriftIsMultiple(x1 - x2, m.groups, k, W, x1, x2); }
      assert false;
    }
    SameMultiple(x1, x2, m.groups);
    SplitJoin(r1, W, w1);
    SplitJoin(r2, W, w2);
  }

  lemma DriftOf(g1: nat, g2: nat, W: nat)
    requires g1 <= g2
    ensures g2 * (W + 1) == g1 * (W + 1) + Drift(g2 - g1, W) && (g2 > g1 ==> Drift(g2 - g1, W) > 0)
  {
    Distribute(g2 - g1, g1, W + 1);
    if g2 > g1 { MulPositive(g2 - g1, W + 1); }
  }

  lemma MoreMultiples(a: nat, b: nat, n: nat)
    requires a <= b
    ensures a * n <= b * n
  {
    Distribute(b - a, a, n);
  }

  lemma DriftIsMultiple(d: nat, n: nat, k: nat, W: nat, x1: nat, x2: nat)
    requires n >= 1 && x1 * n == x2 * n + Drift(k, W) && d == x1 - x2
    ensures Drift(k, W) % n == 0
  {
    Distribute(d, x2, n);
    SplitJoin(d, n, 0);
  }

  lemma SameMultiple(a: int, b: int, n: int)
    requires n >= 1 && a * n == b * n
    ensures a == b
  {
    Distribute(a, -b, n);
  }

  lemma PgidxInjective(m: Media, p: Zppa, q: Zppa, wordlines: nat)
    requires m.Valid() && m.used == wordlines * m.oneshot && (GroupsApart(m, wordlines) || OneWordline(m, wordlines))
    requires ValidZ(m, p) && ValidZ(m, q) && Ppa2Pgidx(m, p) == Ppa2Pgidx(m, q) && Group(m, p) <= Group(m, q)
    ensures p == q
  {
    PgidxSplit(m, p, wordlines);
    PgidxSplit(m, q, wordlines);
    InUnit(m, p);
    InUnit(m, q);
    JoinSplit(p.pg, wordlines, m.oneshot);
    JoinSplit(q.pg, wordlines, m.oneshot);
    JoinSplit(q.lun, m.groups, m.rows);
    LowBound(p.lun, m.rows);
    hide Ppa2Pgidx, Chunk, High, Low, GroupsApart, Unit;
    var c1 := Chunk(m, p.blk - m.firstBlk, Group(m, p), High(p.pg, m.oneshot), wordlines);
    var c2 := Chunk(m, q.blk - m.firstBlk, Group(m, q), High(q.pg, m.oneshot), wordlines);
    SplitJoin(c1, Unit(m), Join(InGroup(m, p), m.oneshot, Low(p.pg, m.oneshot)));
    SplitJoin(c2, Unit(m), Join(InGroup(m, q), m.oneshot, Low(q.pg, m.oneshot)));
    ChunkDecides(m, wordlines, p.blk - m.firstBlk, Group(m, p), High(p.pg, m.oneshot),
                 q.blk - m.firstBlk, Group(m, q), High(q.pg, m.oneshot));
    SplitJoin(InGroup(m, p), m.oneshot, Low(p.pg, m.oneshot));
    SplitJoin(InGroup(m, q), m.oneshot, Low(q.pg, m.oneshot));
    SplitJoin(Join(Low(p.lun, m.rows), m.nchs, p.ch), m.pls, p.pl);
    SplitJoin(Join(Low(q.lun, m.rows), m.nchs, q.ch), m.pls, q.pl);
    SplitJoin(Low(p.lun, m.rows), m.nchs, p.ch);
    SplitJoin(Low(q.lun, m.rows), m.nchs, q.ch);
  }

  /** When two groups do drift together, two different pages share an index. */
  lemma PgidxCollision(m: Media, wordlines: nat, k0: nat) returns (p: Zppa, q: Zppa)
    requires m.Valid() && m.used == wordlines * m.oneshot && !OneWordline(m, wordlines)
    requires 0 < k0 < m.groups && Drift(k0, wordlines) % m.groups == 0
    ensures ValidZ(m, p) && ValidZ(m, q) && p != q && Ppa2Pgidx(m, p) == Ppa2Pgidx(m, q)
  {
    hide Ppa2Pgidx, Unit, Drift, High, Low;
    var k, x := SmallDrift(m, wordlines, k0);
    var row, w := High(x, wordlines), Low(x, wordlines);
    LowBound(x, wordlines);
    p := Zppa(0, 0, 0, m.firstBlk + row, Join(w, m.oneshot, 0));
    q := Zppa(0, Join(k, m.rows, 0), 0, m.firstBlk, 0);
    JoinBound(w, m.oneshot, 0, wordlines);
    JoinBound(k, m.rows, 0, m.groups);
    MulPositive(m.groups, m.rows);
    assert Join(0, m.rows, 0) == 0 && Join(0, m.oneshot, 0) == 0;
    GroupStart(m, wordlines, p, 0, w);
    GroupStart(m, wordlines, q, k, 0);
    MulPositive(k, m.rows);
    SameChunk(m, wordlines, k, row, w, x);
  }

  lemma OtherDrift(groups: nat, k: nat, W: nat)
    requires k <= groups && Drift(k, W) == W * groups
    ensures Drift(groups - k, W) == groups
  {
    Distribute(groups - k, k, W + 1);
    Distribute(W, 1, groups);
  }

  /** A group that drifts onto the first one within the blocks there are. */
  lemma SmallDrift(m: Media, wordlines: nat, k: nat) returns (j: nat, x: nat)
    requires m.Valid() && m.used == wordlines * m.oneshot && !OneWordline(m, wordlines)
    requires 0 < k < m.groups && Drift(k, wordlines) % m.groups == 0
    ensures 0 < j < m.groups && x * m.groups == Drift(j, wordlines) && wordlines >= 1 && High(x, wordlines) < m.blks
  {
    hide Drift, High;
    DriftBound(m, wordlines, k, Drift(k, wordlines) / m.groups);
    j, x := k, Drift(k, wordlines) / m.groups;
    if x == wordlines && m.blks == 1 {
      OtherDrift(m.groups, k, wordlines);
      j, x := m.groups - k, 1;
      SplitJoin(0, wordlines, 1);
    } else {
      AtMostOne(x, wordlines, High(x, wordlines));
      if x < wordlines { SplitJoin(0, wordlines, x); }
    }
  }

  lemma SameChunk(m: Media, wordlines: nat, k: nat, row: nat, w: nat, x: nat)
    requires x == Join(row, wordlines, w) && x * m.groups == Drift(k, wordlines)
    ensures Chunk(m, row, 0, w, wordlines) == Chunk(m, 0, k, 0, wordlines)
  {}

  lemma DriftBound(m: Media, wordlines: nat, k: nat, x: int)
    requires m.groups >= 1 && m.used >= 1 && m.used == wordlines * m.oneshot
    requires 0 < k < m.groups && Drift(k, wordlines) % m.groups == 0 && x == Drift(k, wordlines) / m.groups
    ensures wordlines >= 1 && 0 <= x <= wordlines && x * m.groups == Drift(k, wordlines)
  {
    MulPositive(k, wordlines + 1);
    if x > wordlines {
      MoreMultiples(wordlines + 1, x, m.groups);
      MulStep(m.groups, k, wordlines + 1);
    }
  }

  lemma AtMostOne(x: nat, n: nat, h: nat)
    requires n >= 1 && x <= n && h == High(x, n)
    ensures h <= 1
  {
    JoinSplit(x, 2, n);
  }

  /** The first page of wordline w in group g. */
  lemma GroupStart(m: Media, wordlines: nat, p: Zppa, g: nat, w: nat)
    requires m.Valid() && m.used == wordlines * m.oneshot && p.blk >= m.firstBlk
    requires p == Zppa(0, Join(g, m.rows, 0), 0, p.blk, Join(w, m.oneshot, 0))
    ensures Ppa2Pgidx(m, p) == Join(Chunk(m, p.blk - m.firstBlk, g, w, wordlines), Unit(m), 0)
  {
    hide Ppa2Pgidx, Unit, Chunk;
    PgidxSplit(m, p, wordlines);
    SplitJoin(w, m.oneshot, 0);
    SplitJoin(g, m.rows, 0);
  }

  /**
    Flat page indices tell all pages of the namespace apart exactly when the groups stay apart, or there is no more
    than one wordline to drift over.
  */
  lemma PgidxInjectiveExactly(m: Media, wordlines: nat)
    requires m.Valid() && m.used == wordlines * m.oneshot
    ensures (forall p, q :: ValidZ(m, p) && ValidZ(m, q) && Ppa2Pgidx(m, p) == Ppa2Pgidx(m, q) ==> p == q)
            <==> GroupsApart(m, wordlines) || OneWordline(m, wordlines)
  {
    hide Ppa2Pgidx;
    if GroupsApart(m, wordlines) || OneWordline(m, wordlines) {
      forall p, q | ValidZ(m, p) && ValidZ(m, q) && Ppa2Pgidx(m, p) == Ppa2Pgidx(m, q) ensures p == q {
        if Group(m, p) <= Group(m, q) { PgidxInjective(m, p, q, wordlines); } else { PgidxInjective(m, q, p, wordlines); }
      }
    } else {
      var k :| 0 < k < m.groups && Drift(k, wordlines) % m.groups == 0;
      var p, q := PgidxCollision(m, wordlines, k);
    }
  }

  /** In particular when line_groups divides the wordlines of a block. */
  lemma DividedGroupsApart(m: Media, wordlines: nat)
    requires m.groups >= 1 && wordlines % m.groups == 0
    ensures GroupsApart(m, wordlines)
  {
    forall k | 0 < k < m.groups ensures Drift(k, wordlines) % m.groups != 0 {
      var c := wordlines / m.groups;
      assert Drift(k, wordlines) == Join(k * c, m.groups, k) by { Mul3(k, c, m.groups); Distribute(wordlines, 1, k); }
      SplitJoin(k * c, m.groups, k);
    }
  }
}
