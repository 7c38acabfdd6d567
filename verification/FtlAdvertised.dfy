/**
  How many pages a namespace offers its host, and how many the flash behind it has: conv_init_namespace takes
  its 100/107 of the raw size, ssd_init_params rounds every block down to whole one-shot pages.
*/
module FtlAdvertised {
  import opened Basics
  import opened LogMachine
  import opened FtlInvariant
  import opened FtlRuns
  import opened FtlCapacity
  import opened FtlBound

  const PAGE: nat := 4096
  const LBA: nat := 512

  /** A drive: partitions, channels of one partition, luns, blocks per plane, bytes per one-shot page. */
  datatype Build = Build(parts: nat, chs: nat, luns: nat, blks: nat, pgsPerOneshot: nat) {
    predicate Valid() { parts >= 1 && chs >= 1 && luns >= 1 && blks >= 1 && pgsPerOneshot >= 1 }
  }

  function DivUp(a: nat, n: nat): nat
    requires n >= 1
  {
    (a + n - 1) / n
  }

  // ---- The flash of one partition ----

  function Blocks(b: Build): nat { b.blks * (b.luns * b.chs) }

  /** blk_size, rounded up to a byte. */
  function BlkSize(b: Build, size: nat): nat
    requires b.Valid()
  {
    BlocksPositive(b);
    DivUp(size / b.parts, Blocks(b))
  }

  /** oneshotpgs_per_blk, rounded down. */
  function Oneshots(b: Build, size: nat): nat
    requires b.Valid()
  {
    BlkSize(b, size) / (b.pgsPerOneshot * PAGE)
  }

  /** pgs_per_line of a device with k one-shot pages per block. */
  function LinePages(b: Build, k: nat): nat { b.luns * b.chs * (k * b.pgsPerOneshot) }

  // ---- What the namespace offers ----

  /** conv_init_namespace and the identify command: logical blocks of 512 bytes. */
  function NamespaceLbas(size: nat): nat { size * 100 / 107 / LBA }

  /** The pages the host can name, by partition: page n belongs to partition n % parts. */
  function Offered(b: Build, size: nat, part: nat): nat
    requires b.Valid() && part < b.parts
  {
    (DivUp(NamespaceLbas(size), 8) + (b.parts - 1 - part)) / b.parts
  }

  lemma BlocksPositive(b: Build)
    requires b.Valid()
    ensures Blocks(b) >= 1 && b.luns * b.chs >= 1
  {
    AtLeastOne(b.luns, b.chs);
    AtLeastOne(b.blks, b.luns * b.chs);
  }

  lemma AtLeastOne(a: nat, b: nat)
    requires a >= 1 && b >= 1
    ensures a * b >= 1
  {}

  lemma DivUpLe(a: nat, n: nat, x: nat)
    requires n >= 1
    ensures DivUp(a, n) <= x <==> a <= x * n
  {
    var q := DivUp(a, n);
    DivUpIs(a, n);
    hide DivUp;
    if q <= x { MulMono(q, x, n); } else { MulMono(x, q - 1, n); }
  }

  lemma DivUpIs(a: nat, n: nat)
    requires n >= 1
    ensures DivUp(a, n) * n >= a && (DivUp(a, n) >= 1 ==> (DivUp(a, n) - 1) * n < a)
  {
    var q := DivUp(a, n);
    assert a + n - 1 == q * n + (a + n - 1) % n;
    assert (q - 1) * n == q * n - n;
  }

  lemma DivLt(a: nat, n: nat, y: nat)
    requires n >= 1
    ensures a / n < y <==> a < y * n
  {
    var q := a / n;
    assert a == q * n + a % n;
    if q < y { MulMono(q + 1, y, n); } else { MulMono(y, q, n); }
  }

  // ---- When the offer fits ----

  /** The largest raw size, in hundredths of 107 bytes, whose namespace fits four lines short of k one-shot pages a block. */
  function Limit(b: Build, k: nat): int { 107 * (PAGE * (b.parts * ((b.blks - 4) * LinePages(b, k))) + LBA) }

  /** Every partition offers at most what all lines but four hold exactly when the raw size is below the limit. */
  lemma OfferFitsExactly(b: Build, size: nat, k: nat)
    requires b.Valid() && b.blks >= 4
    ensures Offered(b, size, 0) <= (b.blks - 4) * LinePages(b, k) <==> size * 100 < Limit(b, k)
  {
    var most: nat := (b.blks - 4) * LinePages(b, k);
    var x := b.parts * most;
    hide LinePages;
    assert Offered(b, size, 0) == DivUp(DivUp(NamespaceLbas(size), 8), b.parts);
    DivUpLe(DivUp(NamespaceLbas(size), 8), b.parts, most);
    assert most * b.parts == x;
    DivUpLe(NamespaceLbas(size), 8, x);
    DivLt(size * 100 / 107, LBA, 8 * x + 1);
    DivLt(size * 100, 107, (8 * x + 1) * LBA);
  }

  lemma FirstPartitionIsLargest(b: Build, size: nat, part: nat)
    requires b.Valid() && part < b.parts
    ensures Offered(b, size, part) <= Offered(b, size, 0)
  {
    var p := DivUp(NamespaceLbas(size), 8);
    DivMono(p + (b.parts - 1 - part), p + (b.parts - 1), b.parts);
  }

  lemma DivMono(a: nat, c: nat, n: nat)
    requires n >= 1 && a <= c
    ensures a / n <= c / n
  {
    DivLt(a, n, c / n + 1);
    DivLt(c, n, c / n + 1);
  }

  /** The configuration of one partition's flash. */
  ghost predicate Behind(b: Build, size: nat, cfg: Config)
    requires b.Valid()
  {
    cfg.L == LinePages(b, Oneshots(b, size)) && cfg.lines == b.blks && OrderOk(cfg)
  }

  /** The check a caller can make: the raw size against the limit of its one-shot pages per block. */
  ghost predicate LittleLost(b: Build, size: nat)
    requires b.Valid()
  {
    size * 100 < Limit(b, Oneshots(b, size))
  }

  /** On a drive that passes the check, no partition ever runs dry and every page reads back its last write. */
  lemma AdvertisedCapacityIsSafe(b: Build, size: nat, part: nat, ss: seq<State>, ws: seq<Write>)
    requires b.Valid() && b.blks >= 4 && part < b.parts && LittleLost(b, size)
    requires Run(ss, ws) && Behind(b, size, ss[0].flash.cfg) && forall w :: w in ws ==> w.lpn < Offered(b, size, part)
    ensures Inv(ss[|ws|]) && !ss[|ws|].flash.dry
    ensures forall lpn: nat :: Read(ss[|ws|].flash, lpn) == LastWrite(ws, lpn)
  {
    hide Init, WriteStep, OrderOk, Inv, Read, LastWrite, Written, LinePages, Oneshots, Offered, Limit;
    OfferFitsExactly(b, size, Oneshots(b, size));
    FirstPartitionIsLargest(b, size, part);
    WrittenBelow(ws, Offered(b, size, part));
    RunsAreCorrect(ss, ws);
  }

  /** Hosts that stay inside the namespace never find the free list empty exactly on the drives that pass the check. */
  lemma AdvertisedSafeExactly(b: Build, size: nat, cfg: Config)
    requires b.Valid() && Behind(b, size, cfg) && Wide(cfg)
    ensures (forall part: nat :: part < b.parts ==> NeverDryBelow(cfg, cfg.lines * cfg.L, Offered(b, size, part)))
            <==> LittleLost(b, size)
  {
    var table, most := cfg.lines * cfg.L, (cfg.lines - 4) * cfg.L;
    assert cfg.lines >= 5 && cfg.L >= 5;
    assert table == most + 4 * cfg.L;
    hide OrderOk, Wide, LinePages, Oneshots, Offered, Limit, NeverDryBelow, NeverDry;
    OfferFitsExactly(b, size, Oneshots(b, size));
    forall part: nat | part < b.parts
      ensures NeverDryBelow(cfg, table, Offered(b, size, part)) <==> Offered(b, size, part) <= most
      ensures Offered(b, size, part) <= Offered(b, size, 0)
    {
      BoundIsExact(cfg, table, Offered(b, size, part));
      FirstPartitionIsLargest(b, size, part);
    }
  }

  // ---- Which drives pass ----

  lemma Regrouped(a: int, b: int, c: int, d: int, e: int, f: int)
    ensures a * (b * (c * (d * (e * f)))) == c * e * (b * d * (f * a))
  {}

  lemma LimitAtLeast(b: Build, k: nat)
    requires b.blks >= 4
    ensures Limit(b, k) > 107 * ((b.blks - 4) * k * (b.parts * (b.luns * b.chs) * (b.pgsPerOneshot * PAGE)))
  {
    Regrouped(PAGE, b.parts, b.blks - 4, b.luns * b.chs, k, b.pgsPerOneshot);
  }

  /** A block loses less than one one-shot page. */
  lemma SizeBelow(b: Build, size: nat)
    requires b.Valid()
    ensures size < (Oneshots(b, size) + 1) * b.blks * (b.parts * (b.luns * b.chs) * (b.pgsPerOneshot * PAGE))
  {
    var u, s, k, cap, blk := Blocks(b), b.pgsPerOneshot * PAGE, Oneshots(b, size), size / b.parts, BlkSize(b, size);
    BlocksPositive(b);
    DivLt(blk, s, k + 1);
    DivUpIs(cap, u);
    DivLt(size, b.parts, cap + 1);
    MulMono(blk + 1, (k + 1) * s, u);
    assert (blk + 1) * u == blk * u + u;
    MulMono(cap + 1, (k + 1) * s * u, b.parts);
    Regrouped(b.parts, 1, k + 1, s, b.blks, b.luns * b.chs);
    SameProduct(k + 1, s, b.blks, b.luns * b.chs, b.parts);
  }

  lemma SameProduct(k: int, s: int, n: int, v: int, p: int)
    ensures k * s * (n * v) * p == k * n * (p * v * s)
  {}

  /** Fifteen one-shot pages per block, and lines enough, are always enough. */
  lemma FifteenOneshotsPass(b: Build, size: nat)
    requires b.Valid() && b.blks >= 1284 && Oneshots(b, size) >= 15
    ensures LittleLost(b, size)
  {
    var k, n, w := Oneshots(b, size), b.blks, b.parts * (b.luns * b.chs) * (b.pgsPerOneshot * PAGE);
    hide Oneshots, Limit;
    SizeBelow(b, size);
    LimitAtLeast(b, k);
    FifteenSixteenths(k, n);
    Compare(size, (k + 1) * n, (n - 4) * k, w, Limit(b, k));
  }

  lemma Compare(size: nat, x: int, y: int, w: nat, limit: int)
    requires size <= x * w && 107 * (y * w) < limit && 100 * x <= 107 * y
    ensures size * 100 < limit
  {
    MulMono(100 * x, 107 * y, w);
    assert 100 * x * w == 100 * (x * w) && 107 * y * w == 107 * (y * w);
  }

  lemma FifteenSixteenths(k: nat, n: nat)
    requires k >= 15 && n >= 1284
    ensures 100 * ((k + 1) * n) <= 107 * ((n - 4) * k)
  {
    MulMono(1284, n, 7 * k - 100);
    assert 107 * ((n - 4) * k) - 100 * ((k + 1) * n) == n * (7 * k - 100) - 428 * k;
  }

  /** A size that is a whole number of one-shot pages per block loses nothing: 62 lines are enough. */
  lemma WholeBlocksPass(b: Build, k: nat)
    requires b.Valid() && b.blks >= 62 && k >= 1
    ensures LittleLost(b, b.parts * (Blocks(b) * (k * (b.pgsPerOneshot * PAGE))))
  {
    var u, s := Blocks(b), b.pgsPerOneshot * PAGE;
    var blk := k * s;
    var size, n, w := b.parts * (u * blk), b.blks, b.parts * (b.luns * b.chs) * s;
    BlocksPositive(b);
    ExactDiv(u * blk, b.parts);
    ExactDivUp(blk, u);
    ExactDiv(k, s);
    hide Limit;
    assert Oneshots(b, size) == k;
    LimitAtLeast(b, k);
    WholeSize(b.parts, n, b.luns * b.chs, k, s);
    assert (n - 4) * k == n * k - 4 * k;
    MulMono(62, n, k);
    Compare(size, n * k, (n - 4) * k, w, Limit(b, k));
  }

  lemma WholeSize(p: int, n: int, v: int, k: int, s: int)
    ensures p * (n * v * (k * s)) == n * k * (p * v * s)
  {}

  lemma ExactDiv(a: nat, n: nat)
    requires n >= 1
    ensures n * a / n == a && a * n / n == a
  {
    DivLt(a * n, n, a);
    DivLt(a * n, n, a + 1);
  }

  lemma ExactDivUp(a: nat, n: nat)
    requires n >= 1
    ensures DivUp(n * a, n) == a
  {
    DivUpLe(n * a, n, a);
    if a > 0 {
      DivUpLe(n * a, n, a - 1);
      assert (a - 1) * n == a * n - n;
    }
  }

  // ---- A drive that does not ----

  /** A 970 PRO on 32 GiB of reserved memory, of which main.c keeps one megabyte. */
  const Samsung: Build := Build(4, 2, 2, 8192, 8)
  const ThirtyTwoGiB: nat := 0x8_0000_0000 - 0x10_0000

  /** Seven one-shot pages a block instead of eight: the namespace offers more pages than there are. */
  lemma ThirtyTwoGiBDoesNotPass()
    ensures Oneshots(Samsung, ThirtyTwoGiB) == 7 && LinePages(Samsung, 7) == 224
    ensures !LittleLost(Samsung, ThirtyTwoGiB) && Offered(Samsung, ThirtyTwoGiB, 0) == 1959896 > 8192 * 224
  {
    assert ThirtyTwoGiB / 4 == 8589672448;
    assert Blocks(Samsung) == 32768;
    assert BlkSize(Samsung, ThirtyTwoGiB) == 262136;
    assert NamespaceLbas(ThirtyTwoGiB) == 62716650;
  }

  /** So its host can run it dry without leaving the namespace. */
  lemma ThirtyTwoGiBRunsDry(cfg: Config) returns (ss: seq<State>, ws: seq<Write>)
    requires Behind(Samsung, ThirtyTwoGiB, cfg)
    ensures Run(ss, ws) && ss[0].flash.cfg == cfg && |ss[0].flash.l2p| == cfg.lines * cfg.L && ss[|ws|].flash.dry
    ensures forall w :: w in ws ==> w.lpn < Offered(Samsung, ThirtyTwoGiB, 0)
  {
    ThirtyTwoGiBDoesNotPass();
    hide Run, OrderOk, Offered;
    SeventeenLines(cfg);
    ss, ws := DryRun(cfg, cfg.lines * cfg.L);
  }
}
