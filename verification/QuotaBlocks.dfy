/**
The blocks of a quota file as 256 words of 32 bits: either references to other blocks, or a four-word header
and 14 entries of 18 words (72 bytes) each; and the entries as dquots.
*/
module QuotaBlocks {
  import opened Basics

  const Slots: nat := 14

  type Block = b: seq<nat> | |b| == 256 witness seq(256, _ => 0)

  function Zeros(): Block { seq(256, _ => 0) }

  predicate AllZero(e: seq<nat>) { forall k :: 0 <= k < |e| ==> e[k] == 0 }

  // ---- Header of a data block or a free block ----

  function Next(b: Block): nat { b[0] }
  function Prev(b: Block): nat { b[1] }
  function Entries(b: Block): nat { b[2] % 0x1_0000 }

  function SetNext(b: Block, to: nat): Block { b[0 := to] }
  function SetPrev(b: Block, to: nat): Block { b[1 := to] }
  function SetEntries(b: Block, n: nat): Block { b[2 := b[2] / 0x1_0000 * 0x1_0000 + n % 0x1_0000] }

  // ---- Entries of a data block ----

  function Entry(b: Block, s: nat): (e: seq<nat>)
    requires s < Slots
  {
    b[4 + 18 * s..22 + 18 * s]
  }

  /** 18 words written from word w on. */
  function PutWords(b: Block, w: nat, e: seq<nat>): Block
    requires w + 18 <= 256 && |e| == 18
  {
    b[..w] + e + b[w + 18..]
  }

  function PutEntry(b: Block, s: nat, e: seq<nat>): Block
    requires s < Slots && |e| == 18
  {
    PutWords(b, 4 + 18 * s, e)
  }

  lemma PutEntryAt(b: Block, s: nat, e: seq<nat>, t: nat)
    requires s < Slots && t < Slots && |e| == 18
    ensures Entry(PutEntry(b, s, e), t) == if t == s then e else Entry(b, t)
    ensures forall k :: 0 <= k < 4 ==> PutEntry(b, s, e)[k] == b[k]
  {
    var r := PutEntry(b, s, e);
    forall k | 0 <= k < 18 ensures Entry(r, t)[k] == if t == s then e[k] else Entry(b, t)[k] {
      assert Entry(r, t)[k] == r[4 + 18 * t + k];
    }
  }

  lemma SetEntriesHolds(b: Block, n: nat)
    requires n < 0x1_0000
    ensures Entries(SetEntries(b, n)) == n
  {}

  /** Everything but the two links. */
  function Body(b: Block): seq<nat> { b[2..] }

  /** The entries alone. */
  function Payload(b: Block): seq<nat> { b[4..] }

  lemma SamePayload(b: Block, c: Block, s: nat)
    requires Payload(b) == Payload(c) && s < Slots
    ensures Entry(b, s) == Entry(c, s)
  {
    assert Entry(b, s) == Payload(b)[18 * s..18 * s + 18];
  }

  lemma SameBody(b: Block, c: Block)
    requires Body(b) == Body(c)
    ensures Payload(b) == Payload(c) && Entries(b) == Entries(c)
  {
    assert Payload(b) == Body(b)[2..];
    assert b[2] == Body(b)[0];
  }

  // ---- How many entries are in use ----

  function Used(b: Block, n: nat): (u: nat)
    requires n <= Slots
    ensures u <= n
  {
    if n == 0 then 0 else Used(b, n - 1) + if AllZero(Entry(b, n - 1)) then 0 else 1
  }

  lemma {:induction false} SameUsed(b: Block, c: Block, n: nat)
    requires Payload(b) == Payload(c) && n <= Slots
    ensures Used(b, n) == Used(c, n)
  {
    if n > 0 {
      SamePayload(b, c, n - 1);
      SameUsed(b, c, n - 1);
    }
  }

  lemma {:induction false} UsedAfterPut(b: Block, s: nat, e: seq<nat>, n: nat)
    requires s < Slots && |e| == 18 && n <= Slots
    ensures Used(PutEntry(b, s, e), n) ==
      Used(b, n) + if s >= n then 0 else (if AllZero(e) then 0 else 1) - (if AllZero(Entry(b, s)) then 0 else 1)
  {
    if n > 0 {
      PutEntryAt(b, s, e, n - 1);
      UsedAfterPut(b, s, e, n - 1);
    }
  }

  lemma {:induction false} UsedPositive(b: Block, s: nat, n: nat)
    requires s < n <= Slots && !AllZero(Entry(b, s))
    ensures Used(b, n) > 0
  {
    if s < n - 1 { UsedPositive(b, s, n - 1); }
  }

  lemma {:induction false} AllUsed(b: Block, n: nat)
    requires n <= Slots && forall s :: 0 <= s < n ==> !AllZero(Entry(b, s))
    ensures Used(b, n) == n
  {
    if n > 0 { AllUsed(b, n - 1); }
  }

  // ---- Dquots and entries ----

  const Words64: nat := 0x1_0000_0000_0000_0000

  /** The limits and usage of struct util_dqblk, in the order of the file. */
  datatype Dqblk = Dqblk(ihard: nat, isoft: nat, curInodes: nat, bhard: nat, bsoft: nat, curSpace: nat, btime: nat, itime: nat) {
    predicate Fits() {
      && ihard < Words64 && isoft < Words64 && curInodes < Words64 && bhard < Words64 && bsoft < Words64
      && curSpace < Words64 && btime < Words64 && itime < Words64
    }

    /** No limits and no usage: the quota became a fake one. */
    predicate Fake() {
      curSpace == 0 && curInodes == 0 && bsoft == 0 && isoft == 0 && bhard == 0 && ihard == 0
    }
  }

  function Lo(x: nat): nat { x % 0x1_0000_0000 }
  function Hi(x: nat): nat { x / 0x1_0000_0000 % 0x1_0000_0000 }
  function Wide(lo: nat, hi: nat): nat { lo + hi * 0x1_0000_0000 }

  function Packed(id: nat, m: Dqblk): (e: seq<nat>)
    ensures |e| == 18
  {
    [Lo(id), 0, Lo(m.ihard), Hi(m.ihard), Lo(m.isoft), Hi(m.isoft), Lo(m.curInodes), Hi(m.curInodes), Lo(m.bhard), Hi(m.bhard),
     Lo(m.bsoft), Hi(m.bsoft), Lo(m.curSpace), Hi(m.curSpace), Lo(m.btime), Hi(m.btime), Lo(m.itime), Hi(m.itime)]
  }

  /** v2r1_mem2diskdqblk into zeroed memory: an entry must not look unused. */
  function Mem2Disk(id: nat, m: Dqblk): (e: seq<nat>)
    ensures |e| == 18
  {
    var e := Packed(id, m);
    if AllZero(e) then e[16 := 1][17 := 0] else e
  }

  function Unpacked(e: seq<nat>): Dqblk
    requires |e| == 18
  {
    Dqblk(Wide(e[2], e[3]), Wide(e[4], e[5]), Wide(e[6], e[7]), Wide(e[8], e[9]),
          Wide(e[10], e[11]), Wide(e[12], e[13]), Wide(e[14], e[15]), Wide(e[16], e[17]))
  }

  /** v2r1_disk2memdqblk: an entry that is zero but for an inode time of 1 stands for all zero. */
  function Disk2Mem(e: seq<nat>): (nat, Dqblk)
    requires |e| == 18
  {
    var m := Unpacked(e);
    (e[0], if e == One() then m.(itime := 0) else m)
  }

  lemma HighWord(x: nat)
    requires x < Words64
    ensures Hi(x) == x / 0x1_0000_0000 && x == Hi(x) * 0x1_0000_0000 + Lo(x)
  {
    var h := x / 0x1_0000_0000;
    assert x == h * 0x1_0000_0000 + Lo(x);
    assert h < 0x1_0000_0000;
    assert h % 0x1_0000_0000 == h;
  }

  lemma SplitWide(x: nat)
    requires x < Words64
    ensures Wide(Lo(x), Hi(x)) == x
  {
    HighWord(x);
    hide Lo, Hi;
  }

  lemma UnpackPacked(id: nat, m: Dqblk)
    requires m.Fits()
    ensures Unpacked(Packed(id, m)) == m
  {
    SplitWide(m.ihard);
    SplitWide(m.isoft);
    SplitWide(m.curInodes);
    SplitWide(m.bhard);
    SplitWide(m.bsoft);
    SplitWide(m.curSpace);
    SplitWide(m.btime);
    SplitWide(m.itime);
  }

  /** What is read back is what was written, in every case but one: dquot 0 with nothing but an inode time of 1. */
  lemma EntryRoundTrip(id: nat, m: Dqblk)
    requires id < 0x1_0000_0000 && m.Fits()
    ensures !AllZero(Mem2Disk(id, m))
    ensures Disk2Mem(Mem2Disk(id, m)) == (id, m) <==> !(id == 0 && m == Dqblk(0, 0, 0, 0, 0, 0, 0, 1))
  {
    hide Wide, Lo, Hi, Unpacked;
    var e := Packed(id, m);
    UnpackPacked(id, m);
    OnePacked();
    OneUnpacks();
    assert e[0] == id by { SmallId(id); }
    if AllZero(e) {
      ZeroUnpacks(e);
      assert Mem2Disk(id, m) == One() && One()[16] == 1;
    }
  }

  // The bytes of an entry

  /** Byte k of the words, each least significant byte first. */
  function Byte(e: seq<nat>, k: nat): nat
    requires k < 4 * |e|
  {
    var w := e[k / 4];
    match k % 4
    case 0 => w % 0x100
    case 1 => w / 0x100 % 0x100
    case 2 => w / 0x100 / 0x100 % 0x100
    case _ => w / 0x100 / 0x100 / 0x100 % 0x100
  }

  /** The little-endian number in n bytes from byte k on. */
  function Little(e: seq<nat>, k: nat, n: nat): nat
    requires k + n <= 4 * |e|
    decreases n
  {
    if n == 0 then 0 else Byte(e, k) + 0x100 * Little(e, k + 1, n - 1)
  }

  lemma LittleStep(e: seq<nat>, k: nat, n: nat)
    requires n >= 1 && k + n <= 4 * |e|
    ensures Little(e, k, n) == Byte(e, k) + 0x100 * Little(e, k + 1, n - 1)
  {}

  lemma FourBytes(x: nat)
    requires x < 0x1_0000_0000
    ensures x == x % 0x100 + 0x100 * (x / 0x100 % 0x100 + 0x100 * (x / 0x100 / 0x100 % 0x100 + 0x100 * (x / 0x100 / 0x100 / 0x100 % 0x100)))
  {
    var a := x / 0x100;
    var b := a / 0x100;
    var c := b / 0x100;
    assert c < 0x100 && b == b % 0x100 + 0x100 * c && a == a % 0x100 + 0x100 * b;
  }

  lemma LittleWord(e: seq<nat>, w: nat)
    requires w < |e| && e[w] < 0x1_0000_0000
    ensures Little(e, 4 * w, 4) == e[w]
  {
    hide Little, Byte;
    var k, x := 4 * w, e[w];
    FourBytes(x);
    LittleStep(e, k, 4);
    LittleStep(e, k + 1, 3);
    LittleStep(e, k + 2, 2);
    LittleStep(e, k + 3, 1);
    NoBytes(e, k + 4);
    FourOf(e, w);
  }

  lemma NoBytes(e: seq<nat>, k: nat)
    requires k <= 4 * |e|
    ensures Little(e, k, 0) == 0
  {}

  lemma FourOf(e: seq<nat>, w: nat)
    requires w < |e|
    ensures Byte(e, 4 * w) == e[w] % 0x100 && Byte(e, 4 * w + 1) == e[w] / 0x100 % 0x100
    ensures Byte(e, 4 * w + 2) == e[w] / 0x100 / 0x100 % 0x100 && Byte(e, 4 * w + 3) == e[w] / 0x100 / 0x100 / 0x100 % 0x100
  {}

  lemma {:induction false} LittleJoins(e: seq<nat>, k: nat, n: nat)
    requires n <= 4 && k + n + 4 <= 4 * |e|
    decreases n
    ensures Little(e, k, n + 4) == Little(e, k, n) + Power256(n) * Little(e, k + n, 4)
  {
    hide Byte;
    if n > 0 {
      LittleJoins(e, k + 1, n - 1);
      TimesByte(Power256(n - 1), Little(e, k + n, 4));
    }
  }

  lemma TimesByte(p: nat, x: nat)
    ensures 0x100 * (p * x) == 0x100 * p * x
  {}

  function Power256(n: nat): nat { if n == 0 then 1 else 0x100 * Power256(n - 1) }

  lemma LittleWide(e: seq<nat>, w: nat)
    requires w + 1 < |e| && e[w] < 0x1_0000_0000 && e[w + 1] < 0x1_0000_0000
    ensures Little(e, 4 * w, 8) == Wide(e[w], e[w + 1])
  {
    hide Little;
    LittleWord(e, w);
    LittleWord(e, w + 1);
    assert Power256(2) == 0x1_0000 && Power256(4) == 0x1_0000_0000;
    LittleJoins(e, 4 * w, 4);
  }

  lemma LittlePacked(e: seq<nat>, w: nat, x: nat)
    requires x < Words64 && w + 1 < |e| && e[w] == Lo(x) && e[w + 1] == Hi(x)
    ensures Little(e, 4 * w, 8) == x
  {
    hide Little;
    SplitWide(x);
    LittleWide(e, w);
  }

  /** Where the fields of struct v2r1_disk_dqblk lie, by the byte, the padding after the id included. */
  lemma EntryLayout(id: nat, m: Dqblk)
    requires id < 0x1_0000_0000 && m.Fits()
    ensures var e := Mem2Disk(id, m);
            && Little(e, 0, 4) == id && Little(e, 4, 4) == 0
            && Little(e, 8, 8) == m.ihard && Little(e, 16, 8) == m.isoft && Little(e, 24, 8) == m.curInodes
            && Little(e, 32, 8) == m.bhard && Little(e, 40, 8) == m.bsoft && Little(e, 48, 8) == m.curSpace
            && Little(e, 56, 8) == m.btime
            && Little(e, 64, 8) == if id == 0 && m == Dqblk(0, 0, 0, 0, 0, 0, 0, 0) then 1 else m.itime
  {
    hide Little, Lo, Hi, Wide, Unpacked;
    var zeros := Dqblk(0, 0, 0, 0, 0, 0, 0, 0);
    SmallId(id);
    UnpackPacked(id, m);
    ZeroPacked();
    OnePacked();
    if AllZero(Packed(id, m)) {
      assert Packed(id, m)[0] == 0;
      ZeroUnpacks(Packed(id, m));
      assert Mem2Disk(id, m) == One();
      PackedLayout(0, zeros.(itime := 1));
    } else {
      PackedLayout(id, m);
    }
  }

  lemma ZeroPacked()
    ensures AllZero(Packed(0, Dqblk(0, 0, 0, 0, 0, 0, 0, 0)))
  {}

  lemma PackedLayout(id: nat, m: Dqblk)
    requires id < 0x1_0000_0000 && m.Fits()
    ensures var e := Packed(id, m);
            && Little(e, 0, 4) == id && Little(e, 4, 4) == 0
            && Little(e, 8, 8) == m.ihard && Little(e, 16, 8) == m.isoft && Little(e, 24, 8) == m.curInodes
            && Little(e, 32, 8) == m.bhard && Little(e, 40, 8) == m.bsoft && Little(e, 48, 8) == m.curSpace
            && Little(e, 56, 8) == m.btime && Little(e, 64, 8) == m.itime
  {
    hide Little, Lo, Hi, Wide;
    var e := Packed(id, m);
    SmallId(id);
    LittleWord(e, 0);
    LittleWord(e, 1);
    LittlePacked(e, 2, m.ihard);
    LittlePacked(e, 4, m.isoft);
    LittlePacked(e, 6, m.curInodes);
    LittlePacked(e, 8, m.bhard);
    LittlePacked(e, 10, m.bsoft);
    LittlePacked(e, 12, m.curSpace);
    LittlePacked(e, 14, m.btime);
    LittlePacked(e, 16, m.itime);
  }

  /** Where the header of a data or free block lies, the references of a tree node, and the words of the entries. */
  lemma BlockLayout(b: Block)
    requires forall i :: 0 <= i < 256 ==> b[i] < 0x1_0000_0000
    ensures Little(b, 0, 4) == Next(b) && Little(b, 4, 4) == Prev(b) && Little(b, 8, 2) == Entries(b)
    ensures forall i: nat :: i < 256 ==> Little(b, 4 * i, 4) == b[i]
    ensures forall s: nat, w: nat :: s < Slots && w < 18 ==> Little(b, 16 + 72 * s + 4 * w, 4) == Entry(b, s)[w]
  {
    hide Little;
    forall i: nat | i < 256 ensures Little(b, 4 * i, 4) == b[i] { LittleWord(b, i); }
    LittleStep(b, 8, 2);
    LittleStep(b, 9, 1);
    NoBytes(b, 10);
    FourOf(b, 2);
    hide Byte;
    LowHalf(b[2]);
    forall s: nat, w: nat | s < Slots && w < 18 ensures Little(b, 16 + 72 * s + 4 * w, 4) == Entry(b, s)[w] {
      assert 16 + 72 * s + 4 * w == 4 * (4 + 18 * s + w);
    }
  }

  lemma LowHalf(x: nat)
    ensures x % 0x100 + 0x100 * (x / 0x100 % 0x100) == x % 0x1_0000
  {
    var a, c := x / 0x100, x / 0x1_0000;
    var low, b := x % 0x100 + 0x100 * (a % 0x100), a / 0x100;
    assert x == low + 0x1_0000 * b && 0 <= low < 0x1_0000;
    assert x == x % 0x1_0000 + 0x1_0000 * c;
    assert b == c;
  }

  function One(): (e: seq<nat>)
    ensures |e| == 18
  {
    [0, 0, 0, 0, 0, 0, 0, 0, 0, 0, 0, 0, 0, 0, 0, 0, 1, 0]
  }

  lemma SmallId(id: nat)
    requires id < 0x1_0000_0000
    ensures Lo(id) == id
  {}

  lemma ZeroUnpacks(e: seq<nat>)
    requires |e| == 18 && AllZero(e)
    ensures Unpacked(e) == Dqblk(0, 0, 0, 0, 0, 0, 0, 0)
  {}

  lemma OneUnpacks()
    ensures Unpacked(One()) == Dqblk(0, 0, 0, 0, 0, 0, 0, 1)
  {}

  lemma OnePacked()
    ensures Packed(0, Dqblk(0, 0, 0, 0, 0, 0, 0, 1)) == One()
  {}

  // ---- Where an entry lies in the file ----

  datatype Spot = Spot(blk: nat, slot: nat)

  /** dqb_off: the byte offset of an entry. */
  function OffsetOf(p: Spot): nat { p.blk * 1024 + 16 + p.slot * 72 }

  lemma OffsetIsSpot(p: Spot)
    requires p.slot < Slots
    ensures OffsetOf(p) / 1024 == p.blk && OffsetOf(p) % 1024 / 4 == 4 + 18 * p.slot
  {}

  // ---- The way of an id through the tree ----

  /** get_index: the depth-th byte of the id, most significant first. */
  function GetIndex(id: nat, depth: nat): (i: nat)
    requires depth < 4
    ensures i < 256
  {
    (if depth == 0 then id / 0x100_0000 else if depth == 1 then id / 0x1_0000 else if depth == 2 then id / 0x100 else id) % 256
  }

  function Path(id: nat): (p: seq<nat>)
    ensures |p| == 4
  {
    [GetIndex(id, 0), GetIndex(id, 1), GetIndex(id, 2), GetIndex(id, 3)]
  }

  /** The id from its bytes. */
  lemma FromBytes(id: nat)
    requires id < 0x1_0000_0000
    ensures id == GetIndex(id, 0) * 0x100_0000 + GetIndex(id, 1) * 0x1_0000 + GetIndex(id, 2) * 0x100 + GetIndex(id, 3)
  {
    var x := id / 0x100;
    var y := x / 0x100;
    var z := y / 0x100;
    assert y == id / 0x1_0000 && z == id / 0x100_0000;
    assert id == x * 0x100 + GetIndex(id, 3);
    assert x == y * 0x100 + GetIndex(id, 2);
    assert y == z * 0x100 + GetIndex(id, 1);
    assert z == GetIndex(id, 0);
  }

  lemma PathInjective(a: nat, b: nat)
    requires a < 0x1_0000_0000 && b < 0x1_0000_0000 && Path(a) == Path(b)
    ensures a == b
  {
    hide GetIndex;
    FromBytes(a);
    FromBytes(b);
    assert Path(a)[0] == Path(b)[0] && Path(a)[1] == Path(b)[1] && Path(a)[2] == Path(b)[2] && Path(a)[3] == Path(b)[3];
  }
}
