/**
  Where a file block lives in f2fs: get_node_path numbers the nodes on the way to a block
  (fsck/node.c), start_bidx_of_node goes back from a leaf number to its first block (fsck/dump.c),
  and IS_DNODE tells leaf numbers from the others (fsck/node.h).
*/
module NodePaths {
  import opened Basics
  import opened Geometry

  /** Block addresses per inode and per direct node, node ids per indirect node, i_nid's first slot. */
  datatype Layout = Layout(perInode: nat, perBlock: nat, nids: nat, dir1: nat) {
    predicate Valid() { perBlock >= 1 && nids >= 1 }
  }

  // ---- Nodes by their place in the tree ----

  /** The way down to a node: slots taken in the inode and in indirect nodes. */
  ghost predicate IsNode(l: Layout, slots: seq<nat>) {
    match |slots|
    case 0 => true
    case 1 => l.dir1 <= slots[0] <= l.dir1 + 4
    case 2 => l.dir1 + 2 <= slots[0] <= l.dir1 + 4 && slots[1] < l.nids
    case 3 => slots[0] == l.dir1 + 4 && slots[1] < l.nids && slots[2] < l.nids
    case _ => false
  }

  /** Whether the node holds block addresses: the inode, the direct nodes, and the bottom of each indirect tree. */
  ghost predicate IsLeaf(l: Layout, slots: seq<nat>) {
    match |slots|
    case 0 => true
    case 1 => slots[0] <= l.dir1 + 1
    case 2 => slots[0] <= l.dir1 + 3
    case _ => true
  }

  /** The number of a node: depth-first, in the order of the slots. */
  function Number(l: Layout, slots: seq<nat>): nat
    requires |slots| <= 3 && (|slots| >= 1 ==> slots[0] >= l.dir1)
  {
    var n := l.nids;
    if slots == [] then 0
    else
      var d := slots[0] - l.dir1;
      if |slots| == 1 then
        if d < 3 then d + 1 else if d == 3 then 4 + n else 5 + 2 * n
      else if |slots| == 2 then
        if d == 2 then 4 + slots[1] else if d == 3 then 5 + n + slots[1] else 6 + 2 * n + Join(slots[1], n + 1, 0)
      else 7 + 2 * n + Join(slots[1], n + 1, slots[2])
  }

  /** IS_DNODE */
  predicate IsDnode(l: Layout, ofs: nat) {
    if ofs == 3 || ofs == 4 + l.nids || ofs == 5 + 2 * l.nids then false
    else if ofs >= 6 + 2 * l.nids then (ofs - (6 + 2 * l.nids)) % (l.nids + 1) != 0
    else true
  }

  /** start_bidx_of_node; its unsigned subtractions never wrap on leaf numbers. */
  function StartBidx(l: Layout, ofs: nat): int {
    var indirectBlks := 2 * l.nids + 4;
    if ofs == 0 then 0
    else if ofs <= 2 then (ofs - 1) * l.perBlock + l.perInode
    else if ofs <= indirectBlks then (ofs - 2 - (ofs - 4) / (l.nids + 1)) * l.perBlock + l.perInode
    else (ofs - 5 - (ofs - indirectBlks - 3) / (l.nids + 1)) * l.perBlock + l.perInode
  }

  // ---- The path to a block ----

  /** How many file blocks there are. */
  function Capacity(l: Layout): nat {
    l.perInode + (2 + 2 * l.nids + l.nids * l.nids) * l.perBlock
  }

  /** The j-th direct node of a file. */
  function LeafSlots(l: Layout, j: nat): seq<nat>
    requires l.Valid()
  {
    if j < 2 then [l.dir1 + j]
    else if j < 2 + l.nids then [l.dir1 + 2, j - 2]
    else if j < 2 + 2 * l.nids then [l.dir1 + 3, j - 2 - l.nids]
    else [l.dir1 + 4, High(j - 2 - 2 * l.nids, l.nids), Low(j - 2 - 2 * l.nids, l.nids)]
  }

  /** The slots down to a block, the last one inside the leaf. */
  function SlotsOf(l: Layout, block: nat): seq<nat>
    requires l.Valid()
  {
    if block < l.perInode then [block]
    else LeafSlots(l, High(block - l.perInode, l.perBlock)) + [Low(block - l.perInode, l.perBlock)]
  }

  lemma LeafIndexBound(l: Layout, block: nat)
    requires l.Valid() && l.perInode <= block < Capacity(l)
    ensures High(block - l.perInode, l.perBlock) < 2 + 2 * l.nids + l.nids * l.nids
    ensures Low(block - l.perInode, l.perBlock) < l.perBlock
  {
    JoinSplit(block - l.perInode, 2 + 2 * l.nids + l.nids * l.nids, l.perBlock);
  }

  lemma LeafIsLeaf(l: Layout, j: nat)
    requires l.Valid() && j < 2 + 2 * l.nids + l.nids * l.nids
    ensures IsNode(l, LeafSlots(l, j)) && IsLeaf(l, LeafSlots(l, j)) && 1 <= |LeafSlots(l, j)| <= 3
    ensures forall k :: 1 <= k < |LeafSlots(l, j)| ==> IsNode(l, LeafSlots(l, j)[..k]) && !IsLeaf(l, LeafSlots(l, j)[..k])
  {
    if j >= 2 + 2 * l.nids { JoinSplit(j - 2 - 2 * l.nids, l.nids, l.nids); }
  }

  /** Numbers decide the kind of node. */
  lemma NumberKind(l: Layout, slots: seq<nat>)
    requires l.Valid() && IsNode(l, slots)
    ensures IsDnode(l, Number(l, slots)) <==> IsLeaf(l, slots)
  {
    if |slots| == 2 && slots[0] == l.dir1 + 4 {
      SplitJoin(slots[1], l.nids + 1, 0);
    } else if |slots| == 3 {
      SplitJoin(slots[1], l.nids + 1, slots[2] + 1);
    }
  }

  /** Different nodes have different numbers. */
  lemma NumberInjective(l: Layout, s: seq<nat>, t: seq<nat>)
    requires l.Valid() && IsNode(l, s) && IsNode(l, t) && Number(l, s) == Number(l, t)
    ensures s == t
  {
    NumberKind(l, s);
    NumberKind(l, t);
    NumberDigits(l, s);
    NumberDigits(l, t);
  }

  /** The slots can be read back from the number. */
  lemma NumberDigits(l: Layout, slots: seq<nat>)
    requires l.Valid() && IsNode(l, slots)
    ensures slots == SlotsAt(l, Number(l, slots))
  {
    if |slots| == 2 && slots[0] == l.dir1 + 4 {
      SplitJoin(slots[1], l.nids + 1, 0);
    } else if |slots| == 3 {
      SplitJoin(slots[1], l.nids + 1, slots[2] + 1);
    }
  }

  function SlotsAt(l: Layout, ofs: nat): seq<nat> {
    var n := l.nids;
    if ofs == 0 then []
    else if ofs <= 3 then [l.dir1 + ofs - 1]
    else if ofs < 4 + n then [l.dir1 + 2, ofs - 4]
    else if ofs == 4 + n then [l.dir1 + 3]
    else if ofs < 5 + 2 * n then [l.dir1 + 3, ofs - 5 - n]
    else if ofs == 5 + 2 * n then [l.dir1 + 4]
    else
      var x := ofs - 6 - 2 * n;
      if Low(x, n + 1) == 0 then [l.dir1 + 4, High(x, n + 1)]
      else [l.dir1 + 4, High(x, n + 1), Low(x, n + 1) - 1]
  }

  /** How many direct nodes come before the one with this number. */
  function Rank(l: Layout, ofs: nat): int {
    if ofs <= 2 then ofs - 1
    else if ofs <= 2 * l.nids + 4 then ofs - 2 - (ofs - 4) / (l.nids + 1)
    else ofs - 5 - (ofs - (2 * l.nids + 4) - 3) / (l.nids + 1)
  }

  lemma LeafRank(l: Layout, j: nat)
    requires l.Valid() && j < 2 + 2 * l.nids + l.nids * l.nids
    ensures Number(l, LeafSlots(l, j)) >= 1 && Rank(l, Number(l, LeafSlots(l, j))) == j
  {
    var n := l.nids;
    if 2 <= j < 2 + n {
      SmallQuotient(j - 2, n + 1);
    } else if 2 + n <= j < 2 + 2 * n {
      SplitJoin(1, n + 1, j - 2 - n);
    } else if j >= 2 + 2 * n {
      var x := j - 2 - 2 * n;
      JoinSplit(x, n, n);
      var a, b := High(x, n), Low(x, n);
      hide High, Low;
      SplitJoin(a, n + 1, b);
      assert a * (n + 1) == a * n + a;
    }
  }

  /** The first block of the j-th direct node, from its number. */
  lemma StartOfLeaf(l: Layout, j: nat)
    requires l.Valid() && j < 2 + 2 * l.nids + l.nids * l.nids
    ensures 1 <= |LeafSlots(l, j)| <= 3
    ensures StartBidx(l, Number(l, LeafSlots(l, j))) == l.perInode + j * l.perBlock
  {
    LeafRank(l, j);
    var ofs := Number(l, LeafSlots(l, j));
    hide Number;
    assert StartBidx(l, ofs) == Rank(l, ofs) * l.perBlock + l.perInode;
  }

  lemma SmallQuotient(x: nat, n: nat)
    requires x < n
    ensures x / n == 0
  {}

  lemma SplitBlock(x: nat, n: nat)
    requires n >= 1
    ensures High(x, n) * n + Low(x, n) == x
  {}

  /** From a block to its leaf's number and the place in the leaf, and back to the block. */
  lemma RoundTrip(l: Layout, block: nat)
    requires l.Valid() && block < Capacity(l)
    ensures var s := SlotsOf(l, block);
            && 1 <= |s| <= 4 && IsNode(l, s[..|s| - 1]) && IsLeaf(l, s[..|s| - 1])
            && StartBidx(l, Number(l, s[..|s| - 1])) + s[|s| - 1] == block
  {
    if block >= l.perInode {
      var j := High(block - l.perInode, l.perBlock);
      LeafIndexBound(l, block);
      LeafIsLeaf(l, j);
      StartOfLeaf(l, j);
      SplitBlock(block - l.perInode, l.perBlock);
      hide Number, StartBidx, LeafSlots, High, Low, IsNode, IsLeaf;
      var s := SlotsOf(l, block);
      assert s[..|s| - 1] == LeafSlots(l, j);
    }
  }

  /** The numbers met on the way are those of the nodes: leaf at the end, indirect ones before it. */
  lemma PathKinds(l: Layout, block: nat, k: nat)
    requires l.Valid() && block < Capacity(l) && k < |SlotsOf(l, block)|
    ensures IsNode(l, SlotsOf(l, block)[..k])
    ensures IsDnode(l, Number(l, SlotsOf(l, block)[..k])) <==> k == 0 || k == |SlotsOf(l, block)| - 1
  {
    if block >= l.perInode {
      var j := High(block - l.perInode, l.perBlock);
      LeafIndexBound(l, block);
      LeafIsLeaf(l, j);
      assert SlotsOf(l, block)[..k] == LeafSlots(l, j)[..k];
      if k == |LeafSlots(l, j)| { assert LeafSlots(l, j)[..k] == LeafSlots(l, j); }
      NumberKind(l, SlotsOf(l, block)[..k]);
    }
  }

  // ---- get_node_path ----

  /** offset[] and noffset[] hold the slots down to the block and the numbers of the nodes on the way. */
  ghost predicate Filled(l: Layout, offset: seq<nat>, noffset: seq<nat>, s: seq<nat>)
    requires |offset| == 4 && |noffset| == 4
  {
    && 1 <= |s| <= 4 && offset[..|s|] == s
    && forall k {:trigger noffset[k]} :: 0 <= k < |s| ==>
         (k >= 1 ==> s[0] >= l.dir1) && noffset[k] == Number(l, s[..k])
  }

  lemma FilledFrom(l: Layout, offset: seq<nat>, noffset: seq<nat>, s: seq<nat>)
    requires |offset| == 4 && |noffset| == 4 && 1 <= |s| <= 4 && offset[..|s|] == s && noffset[0] == 0
    requires |s| >= 2 ==> s[0] >= l.dir1 && noffset[1] == Number(l, [s[0]])
    requires |s| >= 3 ==> noffset[2] == Number(l, [s[0], s[1]])
    requires |s| == 4 ==> noffset[3] == Number(l, [s[0], s[1], s[2]])
    ensures Filled(l, offset, noffset, s)
  {
    forall k | 0 <= k < |s| ensures (k >= 1 ==> s[0] >= l.dir1) && noffset[k] == Number(l, s[..k]) {
      if k == 0 { assert s[..k] == []; }
      if k == 1 { assert s[..k] == [s[0]]; }
      if k == 2 { assert s[..k] == [s[0], s[1]]; }
      if k == 3 { assert s[..k] == [s[0], s[1], s[2]]; }
    }
  }

  /** Dividing what is left of the block number in two ways, as the source does in each tree. */
  lemma Remainders(l: Layout, b: nat, skip: nat)
    requires l.Valid() && b >= skip * l.perBlock
    ensures var x := b - skip * l.perBlock;
            && High(b, l.perBlock) == skip + x / l.perBlock && Low(b, l.perBlock) == x % l.perBlock
            && l.perBlock * l.nids >= 1
            && x / (l.perBlock * l.nids) == High(High(x, l.perBlock), l.nids)
            && (x / l.perBlock) % l.nids == Low(High(x, l.perBlock), l.nids)
  {
    var x := b - skip * l.perBlock;
    var q, r := High(x, l.perBlock), Low(x, l.perBlock);
    LowIsSmall(x, l.perBlock);
    LowIsSmall(q, l.nids);
    MulPositive(l.perBlock, l.nids);
    assert b == Join(skip + q, l.perBlock, r) by { assert (skip + q) * l.perBlock == skip * l.perBlock + q * l.perBlock; }
    SplitJoin(skip + q, l.perBlock, r);
    var a, c := High(q, l.nids), Low(q, l.nids);
    assert x == Join(a, l.perBlock * l.nids, Join(c, l.perBlock, r)) by {
      assert (a * l.nids + c) * l.perBlock == a * l.nids * l.perBlock + c * l.perBlock;
      assert a * l.nids * l.perBlock == a * (l.perBlock * l.nids);
    }
    JoinBound(c, l.perBlock, r, l.nids);
    assert l.nids * l.perBlock == l.perBlock * l.nids;
    SplitJoin(a, l.perBlock * l.nids, Join(c, l.perBlock, r));
  }

  lemma LowIsSmall(x: nat, n: nat)
    requires n >= 1
    ensures Low(x, n) < n && Join(High(x, n), n, Low(x, n)) == x
  {}

  lemma BelowProduct(x: nat, a: nat, n: nat)
    requires n >= 1
    ensures x / n < a <==> x < a * n
  {
    if x < a * n { JoinSplit(x, a, n); } else { LowIsSmall(x, n); if x / n < a { MulStep(a, x / n, n); } }
  }

  /** get_node_path: the depth of the path, None where the source's last ASSERT fails. */
  method GetNodePath(l: Layout, blockIndex: nat, offset: array<nat>, noffset: array<nat>) returns (level: Option<nat>)
    requires l.Valid() && offset.Length == 4 && noffset.Length == 4 && offset != noffset
    modifies offset, noffset
    ensures level.Some? <==> blockIndex < Capacity(l)
    ensures level.Some? ==>
              level.value + 1 == |SlotsOf(l, blockIndex)| && Filled(l, offset[..], noffset[..], SlotsOf(l, blockIndex))
  {
    hide High, Low, SlotsOf, LeafSlots, Number, Filled, Capacity;
    var directBlks := l.perBlock;
    var indirectBlks: nat := l.perBlock * l.nids;
    var dindirectBlks: nat := indirectBlks * l.nids;
    Thresholds(l, blockIndex);
    var block := blockIndex;
    noffset[0] := 0;
    if block < l.perInode {
      offset[0] := block;
      InInode(l, blockIndex, offset[..], noffset[..]);
      return Some(0);
    }
    block := block - l.perInode;
    ghost var b := block;
    if block < directBlks {
      FillDirect(l, b, block, 0, offset, noffset);
      return Some(1);
    }
    block := block - directBlks;
    if block < directBlks {
      FillDirect(l, b, block, 1, offset, noffset);
      return Some(1);
    }
    block := block - directBlks;
    if block < indirectBlks {
      FillIndirect(l, b, block, 0, offset, noffset);
      return Some(2);
    }
    block := block - indirectBlks;
    if block < indirectBlks {
      FillIndirect(l, b, block, 1, offset, noffset);
      return Some(2);
    }
    block := block - indirectBlks;
    if block < dindirectBlks {
      FillDoubleIndirect(l, b, block, offset, noffset);
      return Some(3);
    }
    return None;
  }

  /** The d-th direct node of the inode. */
  method FillDirect(l: Layout, ghost b: nat, block: nat, d: nat, offset: array<nat>, noffset: array<nat>)
    requires l.Valid() && offset.Length == 4 && noffset.Length == 4 && offset != noffset && noffset[0] == 0
    requires d < 2 && b == d * l.perBlock + block && block < l.perBlock
    modifies offset, noffset
    ensures |SlotsOf(l, l.perInode + b)| == 2 && Filled(l, offset[..], noffset[..], SlotsOf(l, l.perInode + b))
  {
    hide SlotsOf, Filled;
    var n := 0;
    offset[n] := l.dir1 + d;
    n := n + 1;
    noffset[n] := d + 1;
    offset[n] := block;
    InDirect(l, b, d, offset[..], noffset[..]);
  }

  /** The k-th indirect tree. */
  method FillIndirect(l: Layout, ghost b: nat, block: nat, k: nat, offset: array<nat>, noffset: array<nat>)
    requires l.Valid() && offset.Length == 4 && noffset.Length == 4 && offset != noffset && noffset[0] == 0
    requires k < 2 && b == 2 * l.perBlock + k * (l.perBlock * l.nids) + block && block < l.perBlock * l.nids
    modifies offset, noffset
    ensures |SlotsOf(l, l.perInode + b)| == 3 && Filled(l, offset[..], noffset[..], SlotsOf(l, l.perInode + b))
  {
    hide SlotsOf, Filled;
    var n := 0;
    offset[n] := l.dir1 + 2 + k;
    n := n + 1;
    noffset[n] := if k == 0 then 3 else 4 + l.nids;
    offset[n] := block / l.perBlock;
    n := n + 1;
    noffset[n] := (if k == 0 then 4 else 5 + l.nids) + offset[n - 1];
    offset[n] := block % l.perBlock;
    InIndirect(l, b, block, k, offset[..], noffset[..]);
  }

  /** The double indirect tree. */
  method FillDoubleIndirect(l: Layout, ghost b: nat, block: nat, offset: array<nat>, noffset: array<nat>)
    requires l.Valid() && offset.Length == 4 && noffset.Length == 4 && offset != noffset && noffset[0] == 0
    requires b == 2 * l.perBlock + 2 * (l.perBlock * l.nids) + block && l.perBlock * l.nids >= 1
    modifies offset, noffset
    ensures |SlotsOf(l, l.perInode + b)| == 4 && Filled(l, offset[..], noffset[..], SlotsOf(l, l.perInode + b))
  {
    hide SlotsOf, Filled;
    var n := 0;
    offset[n] := l.dir1 + 4;
    n := n + 1;
    noffset[n] := 5 + l.nids * 2;
    offset[n] := block / (l.perBlock * l.nids);
    n := n + 1;
    noffset[n] := 6 + l.nids * 2 + offset[n - 1] * (l.nids + 1);
    offset[n] := (block / l.perBlock) % l.nids;
    n := n + 1;
    noffset[n] := 7 + l.nids * 2 + offset[n - 2] * (l.nids + 1) + offset[n - 1];
    offset[n] := block % l.perBlock;
    InDoubleIndirect(l, b, block, offset[..], noffset[..]);
  }

  /** The source's comparisons against the sizes of the five trees. */
  lemma Thresholds(l: Layout, block: nat)
    requires l.Valid()
    ensures Capacity(l) == l.perInode + 2 * l.perBlock + 2 * (l.perBlock * l.nids) + l.perBlock * l.nids * l.nids
    ensures l.perBlock * l.nids >= 1
  {
    MulPositive(l.perBlock, l.nids);
    var A, N := l.perBlock, l.nids;
    assert (2 + 2 * N + N * N) * A == 2 * A + 2 * (A * N) + A * N * N by {
      assert (2 + 2 * N + N * N) * A == 2 * A + 2 * N * A + N * N * A;
      assert N * N * A == A * N * N;
    }
  }

  lemma InInode(l: Layout, block: nat, offset: seq<nat>, noffset: seq<nat>)
    requires l.Valid() && block < l.perInode && |offset| == 4 && |noffset| == 4 && offset[0] == block && noffset[0] == 0
    ensures SlotsOf(l, block) == [block] && Filled(l, offset, noffset, [block])
  {
    FilledFrom(l, offset, noffset, [block]);
  }

  lemma InDirect(l: Layout, b: nat, d: nat, offset: seq<nat>, noffset: seq<nat>)
    requires l.Valid() && d < 2 && d * l.perBlock <= b < d * l.perBlock + l.perBlock && |offset| == 4 && |noffset| == 4
    requires offset[0] == l.dir1 + d && offset[1] == b - d * l.perBlock && noffset[0] == 0 && noffset[1] == d + 1
    ensures SlotsOf(l, l.perInode + b) == offset[..2] && Filled(l, offset, noffset, offset[..2])
  {
    Remainders(l, b, d);
    SmallQuotient(b - d * l.perBlock, l.perBlock);
    FilledFrom(l, offset, noffset, offset[..2]);
  }

  lemma SkipProduct(l: Layout, k: nat)
    ensures (2 + k * l.nids) * l.perBlock == 2 * l.perBlock + k * (l.perBlock * l.nids)
  {
    assert k * l.nids * l.perBlock == k * (l.perBlock * l.nids) by { assert k * l.nids * l.perBlock == k * (l.nids * l.perBlock); }
  }

  lemma InIndirect(l: Layout, b: nat, x: nat, k: nat, offset: seq<nat>, noffset: seq<nat>)
    requires l.Valid() && k < 2 && |offset| == 4 && |noffset| == 4
    requires b == 2 * l.perBlock + k * (l.perBlock * l.nids) + x && x < l.perBlock * l.nids
    requires offset[1] == x / l.perBlock && offset[2] == x % l.perBlock
    requires offset[0] == l.dir1 + 2 + k && noffset[0] == 0 && noffset[1] == (if k == 0 then 3 else 4 + l.nids)
    requires noffset[2] == (if k == 0 then 4 else 5 + l.nids) + offset[1]
    ensures SlotsOf(l, l.perInode + b) == offset[..3] && Filled(l, offset, noffset, offset[..3])
  {
    hide Filled, Number;
    SkipProduct(l, k);
    var skip := 2 + k * l.nids;
    Remainders(l, b, skip);
    BelowProduct(x, l.nids, l.perBlock);
    hide High, Low;
    IndirectNumbers(l, offset, noffset, k);
    IndirectLeaf(l, k, offset[1]);
  }

  lemma IndirectLeaf(l: Layout, k: nat, i: nat)
    requires l.Valid() && k < 2 && i < l.nids
    ensures LeafSlots(l, 2 + k * l.nids + i) == [l.dir1 + 2 + k, i]
  {
    if k == 1 { assert k * l.nids == l.nids; }
  }

  lemma IndirectNumbers(l: Layout, offset: seq<nat>, noffset: seq<nat>, k: nat)
    requires k < 2 && |offset| == 4 && |noffset| == 4 && offset[0] == l.dir1 + 2 + k && noffset[0] == 0
    requires noffset[1] == (if k == 0 then 3 else 4 + l.nids) && noffset[2] == (if k == 0 then 4 else 5 + l.nids) + offset[1]
    ensures Filled(l, offset, noffset, offset[..3])
  {
    FilledFrom(l, offset, noffset, offset[..3]);
  }

  lemma InDoubleIndirect(l: Layout, b: nat, x: nat, offset: seq<nat>, noffset: seq<nat>)
    requires l.Valid() && |offset| == 4 && |noffset| == 4 && l.perBlock * l.nids >= 1
    requires b == 2 * l.perBlock + 2 * (l.perBlock * l.nids) + x
    requires offset[1] == x / (l.perBlock * l.nids) && offset[2] == (x / l.perBlock) % l.nids && offset[3] == x % l.perBlock
    requires offset[0] == l.dir1 + 4 && noffset[0] == 0 && noffset[1] == 5 + l.nids * 2
    requires noffset[2] == 6 + l.nids * 2 + offset[1] * (l.nids + 1)
    requires noffset[3] == 7 + l.nids * 2 + offset[1] * (l.nids + 1) + offset[2]
    ensures SlotsOf(l, l.perInode + b) == offset[..4] && Filled(l, offset, noffset, offset[..4])
  {
    hide Filled, Number;
    SkipProduct(l, 2);
    Remainders(l, b, 2 + 2 * l.nids);
    DoubleIndirectNumbers(l, offset, noffset);
    var q := x / l.perBlock;
    assert High(x, l.perBlock) == q;
    hide High, Low;
    DoubleIndirectLeaf(l, q);
  }

  lemma DoubleIndirectLeaf(l: Layout, q: nat)
    requires l.Valid()
    ensures LeafSlots(l, 2 + 2 * l.nids + q) == [l.dir1 + 4, High(q, l.nids), Low(q, l.nids)]
  {}

  lemma DoubleIndirectNumbers(l: Layout, offset: seq<nat>, noffset: seq<nat>)
    requires |offset| == 4 && |noffset| == 4 && offset[0] == l.dir1 + 4 && noffset[0] == 0 && noffset[1] == 5 + l.nids * 2
    requires noffset[2] == 6 + l.nids * 2 + offset[1] * (l.nids + 1)
    requires noffset[3] == 7 + l.nids * 2 + offset[1] * (l.nids + 1) + offset[2]
    ensures Filled(l, offset, noffset, offset[..4])
  {
    FilledFrom(l, offset, noffset, offset[..4]);
  }
}
