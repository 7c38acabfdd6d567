/** The radix tree over a quota file: which block is the node of which id prefix, and what the nodes on disk say. */
module QuotaRefs {
  import opened Basics
  import opened QuotaBlocks
  import opened QuotaStore

  /** The block of every prefix in the tree; a prefix of full length 4 has a data block. */
  type Refs = map<seq<nat>, nat>

  ghost function Lookup(ref: Refs, q: seq<nat>): nat { if q in ref then ref[q] else 0 }

  /** The node's words are its children's blocks. */
  ghost predicate NodeOk(disk: Disk, ref: Refs, q: seq<nat>) {
    q in ref ==> forall i: nat :: i < 256 ==> At(disk, ref[q])[i] == Lookup(ref, q + [i])
  }

  ghost predicate Upper(disk: Disk, ref: Refs, d: nat) {
    forall q :: q in ref && |q| < d ==> NodeOk(disk, ref, q)
  }

  ghost predicate Lower(disk: Disk, ref: Refs, d: nat) {
    forall q :: q in ref && d <= |q| < 4 ==> NodeOk(disk, ref, q)
  }

  /** Different nodes are different blocks; the root is block 1. */
  ghost predicate RefsOk(ref: Refs, inner: set<nat>) {
    && (forall q :: q in ref ==> |q| <= 4 && ref[q] != 0)
    && (forall q :: q in ref && |q| < 4 ==> if q == [] then ref[q] == 1 else ref[q] in inner)
    && (forall q, r :: q in ref && r in ref && |q| < 4 && |r| < 4 && ref[q] == ref[r] ==> q == r)
  }

  ghost predicate LeafBlocks(ref: Refs, place: map<nat, Spot>) {
    forall id :: id in place ==> Path(id) in ref && ref[Path(id)] == place[id].blk
  }

  ghost predicate Closed(ref: Refs) {
    [] in ref && forall q :: q in ref && q != [] ==> q[..|q| - 1] in ref
  }

  ghost predicate HasPrefix(place: map<nat, Spot>, q: seq<nat>) {
    exists id :: id in place && |q| <= 4 && q == Path(id)[..|q|]
  }

  /** The tree holds the prefixes of the stored ids and no others. */
  ghost predicate Keys(ref: Refs, place: map<nat, Spot>) {
    forall q :: q in ref <==> q == [] || HasPrefix(place, q)
  }

  ghost function InnerBlocks(ref: Refs): set<nat> { set q | q in ref && 0 < |q| < 4 :: ref[q] }

  /** q is a prefix of id's path, of length d or more. */
  ghost predicate OnPath(q: seq<nat>, id: nat, d: nat) { d <= |q| <= 4 && q == Path(id)[..|q|] }

  ghost predicate SameOffPath(a: Refs, b: Refs, id: nat, d: nat) {
    forall q :: !OnPath(q, id, d) ==> SameAt(a, b, q)
  }

  ghost predicate SameAt(a: Refs, b: Refs, q: seq<nat>) {
    (q in a <==> q in b) && (q in a ==> a[q] == b[q])
  }

  lemma KeysClosed(ref: Refs, place: map<nat, Spot>)
    requires Keys(ref, place)
    ensures Closed(ref) && forall q :: q in ref ==> |q| <= 4
  {
    forall q | q in ref && q != [] ensures q[..|q| - 1] in ref {
      var id :| id in place && |q| <= 4 && q == Path(id)[..|q|];
      assert q[..|q| - 1] == Path(id)[..|q| - 1];
      assert HasPrefix(place, q[..|q| - 1]);
    }
  }

  /** A prefix that is in the tree has all its own prefixes in the tree. */
  lemma {:induction false} ClosedDown(ref: Refs, q: seq<nat>, k: nat)
    requires Closed(ref) && q in ref && k <= |q|
    ensures q[..k] in ref
    decreases |q|
  {
    if k == |q| {
      assert q[..k] == q;
    } else {
      ClosedDown(ref, q[..|q| - 1], k);
      assert q[..|q| - 1][..k] == q[..k];
    }
  }

  lemma PathStep(id: nat, d: nat)
    requires d < 4
    ensures Path(id)[..d] + [GetIndex(id, d)] == Path(id)[..d + 1] && |Path(id)[..d]| == d
    ensures Path(id)[..4] == Path(id) && Path(id)[..0] == []
  {
    assert Path(id)[d] == GetIndex(id, d);
  }

  /** A child of a prefix that is not on the path, or another child of one that is, is off the path. */
  lemma OffPath(q: seq<nat>, i: nat, id: nat, d: nat)
    requires d < 4 && |q| == d
    ensures OnPath(q + [i], id, d + 1) <==> q == Path(id)[..d] && i == GetIndex(id, d)
  {
    PathStep(id, d);
    var r := q + [i];
    assert r[..d] == q && r[d] == i;
  }

  /** One level of the recursion is done: the node p of depth d is on disk, or gone, and only it changed. */
  lemma NodeDone(a: Disk, b: Disk, ref0: Refs, ref1: Refs, ref2: Refs, id: nat, d: nat)
    requires d < 4 && Upper(a, ref0, d + 1) && Lower(a, ref1, d + 1) && SameOffPath(ref0, ref1, id, d + 1)
    requires forall q :: q != Path(id)[..d] ==> SameAt(ref1, ref2, q)
    requires forall q :: q in ref0 && |q| < 4 && q != Path(id)[..d] ==> At(b, ref0[q]) == At(a, ref0[q])
    requires forall q :: q in ref1 && |q| < 4 && q != Path(id)[..d] ==> At(b, ref1[q]) == At(a, ref1[q])
    requires NodeOk(b, ref2, Path(id)[..d])
    ensures Upper(b, ref0, d) && Lower(b, ref2, d) && SameOffPath(ref0, ref2, id, d)
  {
    var p := Path(id)[..d];
    forall q | q in ref0 && |q| < d ensures NodeOk(b, ref0, q) { assert NodeOk(a, ref0, q); }
    forall q | q in ref2 && d <= |q| < 4 && q != p ensures NodeOk(b, ref2, q) {
      assert SameAt(ref1, ref2, q);
      if |q| == d {
        SideNode(a, b, ref0, ref1, ref2, id, d, q);
      } else {
        assert NodeOk(a, ref1, q);
        forall i: nat | i < 256 ensures Lookup(ref2, q + [i]) == Lookup(ref1, q + [i]) { assert SameAt(ref1, ref2, q + [i]); }
      }
    }
    forall q | !OnPath(q, id, d) ensures SameAt(ref0, ref2, q) {
      assert SameAt(ref0, ref1, q) && SameAt(ref1, ref2, q);
    }
  }

  lemma SideNode(a: Disk, b: Disk, ref0: Refs, ref1: Refs, ref2: Refs, id: nat, d: nat, q: seq<nat>)
    requires d < 4 && Upper(a, ref0, d + 1) && SameOffPath(ref0, ref1, id, d + 1)
    requires forall r :: r != Path(id)[..d] ==> SameAt(ref1, ref2, r)
    requires forall r :: r in ref0 && |r| < 4 && r != Path(id)[..d] ==> At(b, ref0[r]) == At(a, ref0[r])
    requires |q| == d && q != Path(id)[..d]
    ensures NodeOk(b, ref2, q)
  {
    assert SameAt(ref0, ref1, q) && SameAt(ref1, ref2, q);
    if q in ref2 {
      assert NodeOk(a, ref0, q);
      forall i: nat | i < 256 ensures Lookup(ref2, q + [i]) == Lookup(ref0, q + [i]) {
        OffPath(q, i, id, d);
        assert SameAt(ref0, ref1, q + [i]) && SameAt(ref1, ref2, q + [i]);
      }
    }
  }

  // ---- Insertion ----

  /** ref1 has id's prefixes from length d on besides what ref0 has. */
  ghost predicate Grown(ref0: Refs, ref1: Refs, id: nat, d: nat) {
    && SameOffPath(ref0, ref1, id, d)
    && (forall q :: q in ref0 ==> q in ref1 && ref1[q] == ref0[q])
    && forall k: nat :: d <= k <= 4 ==> Path(id)[..k] in ref1
  }

  /** How many nodes on the way to id, from depth d on, the tree does not have. */
  ghost function Missing(ref: Refs, id: nat, d: nat): nat
    requires d <= 4
    decreases 4 - d
  {
    if d == 4 then 0 else (if Path(id)[..d] in ref then 0 else 1) + Missing(ref, id, d + 1)
  }

  lemma {:induction false} MissingSame(a: Refs, b: Refs, id: nat, d: nat)
    requires d <= 4 && forall k: nat :: d <= k < 4 ==> (Path(id)[..k] in a <==> Path(id)[..k] in b)
    ensures Missing(a, id, d) == Missing(b, id, d)
    decreases 4 - d
  {
    if d < 4 { MissingSame(a, b, id, d + 1); }
  }

  lemma GrownKeys(ref0: Refs, ref1: Refs, place: map<nat, Spot>, id: nat, p: Spot)
    requires Keys(ref0, place) && Grown(ref0, ref1, id, 0) && id !in place
    ensures Keys(ref1, place[id := p])
  {
    var more := place[id := p];
    forall q ensures q in ref1 <==> q == [] || HasPrefix(more, q) {
      assert !OnPath(q, id, 0) ==> SameAt(ref0, ref1, q);
      if HasPrefix(place, q) {
        var i :| i in place && |q| <= 4 && q == Path(i)[..|q|];
        assert more[i] == place[i];
      }
      if OnPath(q, id, 0) {
        assert id in more;
        assert Path(id)[..|q|] in ref1;
      }
      if HasPrefix(more, q) {
        var i :| i in more && |q| <= 4 && q == Path(i)[..|q|];
        assert i in place ==> HasPrefix(place, q);
        assert i == id ==> OnPath(q, id, 0);
      }
    }
  }

  /** An id that is not stored has no leaf. */
  lemma NoLeaf(ref: Refs, place: map<nat, Spot>, id: nat)
    requires Keys(ref, place) && id !in place && id < 0x1_0000_0000 && forall i :: i in place ==> i < 0x1_0000_0000
    ensures Path(id) !in ref
  {
    if Path(id) in ref {
      var i :| i in place && Path(id) == Path(i)[..4];
      PathStep(i, 3);
      PathInjective(i, id);
    }
  }

  // ---- Removal ----

  /** ref1 is ref0 without id's prefixes of length cut and more. */
  ghost predicate Shrunk(ref0: Refs, ref1: Refs, id: nat, cut: nat) {
    && cut <= 4 && (forall q :: q in ref1 <==> q in ref0 && !OnPath(q, id, cut))
    && forall q :: q in ref1 ==> ref1[q] == ref0[q]
  }

  /** Below the removed nodes there was nothing but the way to id. */
  ghost predicate NothingElse(ref: Refs, id: nat, cut: nat) {
    cut <= 4 && forall k: nat, i: nat :: cut <= k < 4 && i < 256 && i != GetIndex(id, k) ==> Path(id)[..k] + [i] !in ref
  }

  /** The deepest node that stays, unless it is the root or above depth d, still has a child. */
  ghost predicate LastHasChild(ref: Refs, id: nat, d: nat, cut: nat) {
    cut <= 4 && (d < cut && cut >= 2 ==> exists i: nat :: Path(id)[..cut - 1] + [i] in ref)
  }

  lemma ShrunkKeys(ref0: Refs, ref1: Refs, place: map<nat, Spot>, id: nat, cut: nat)
    requires Keys(ref0, place) && id in place && id < 0x1_0000_0000 && forall i :: i in place ==> i < 0x1_0000_0000
    requires Shrunk(ref0, ref1, id, cut) && NothingElse(ref0, id, cut) && LastHasChild(ref1, id, 0, cut) && cut >= 1
    ensures Keys(ref1, place - {id})
  {
    var less := place - {id};
    forall q ensures q in ref1 <==> q == [] || HasPrefix(less, q) {
      if q in ref1 && q != [] { StillHeld(ref0, ref1, place, id, cut, q); }
      if HasPrefix(less, q) {
        var i :| i in less && |q| <= 4 && q == Path(i)[..|q|];
        assert HasPrefix(place, q);
        if OnPath(q, id, cut) && q in ref0 { Parting(ref0, place, id, cut, i, |q|); }
      }
    }
  }

  /** Two stored ids part above the cut. */
  lemma {:induction false} Parting(ref0: Refs, place: map<nat, Spot>, id: nat, cut: nat, other: nat, k: nat)
    requires Keys(ref0, place) && id in place && other in place && other != id
    requires id < 0x1_0000_0000 && other < 0x1_0000_0000 && cut <= k <= 4
    requires NothingElse(ref0, id, cut)
    ensures Path(other)[..k] != Path(id)[..k]
    decreases 4 - k
  {
    if Path(other)[..k] == Path(id)[..k] {
      if k == 4 {
        PathStep(id, 3);
        PathStep(other, 3);
        PathInjective(id, other);
      } else {
        PathStep(id, k);
        PathStep(other, k);
        assert HasPrefix(place, Path(other)[..k + 1]);
        assert Path(id)[..k] + [GetIndex(other, k)] in ref0;
        Parting(ref0, place, id, cut, other, k + 1);
      }
      assert false;
    }
  }

  lemma StillHeld(ref0: Refs, ref1: Refs, place: map<nat, Spot>, id: nat, cut: nat, q: seq<nat>)
    requires Keys(ref0, place) && id in place && Shrunk(ref0, ref1, id, cut) && LastHasChild(ref1, id, 0, cut) && cut >= 1
    requires q in ref1 && q != []
    ensures HasPrefix(place - {id}, q)
  {
    hide Keys, Path, HasPrefix, LastHasChild;
    KeysClosed(ref0, place);
    if OnPath(q, id, 0) {
      var i := StillChild(ref0, ref1, id, cut, q);
      HeldBelow(ref0, place, id, cut, i, |q|);
    } else {
      assert q[..|q|] == q;
      HeldByOther(ref0, place, id, q, |q|);
    }
  }

  lemma HeldBelow(ref0: Refs, place: map<nat, Spot>, id: nat, cut: nat, i: nat, n: nat)
    requires Keys(ref0, place) && 1 <= n < cut <= 4
    requires var w := Path(id)[..cut - 1] + [i]; w in ref0 && w != Path(id)[..cut]
    ensures HasPrefix(place - {id}, Path(id)[..n])
  {
    hide Keys, Path, HasPrefix;
    PrefixOfPath(id, cut - 1, i, n);
    HeldByOther(ref0, place, id, Path(id)[..cut - 1] + [i], n);
  }

  lemma PrefixOfPath(id: nat, k: nat, i: nat, n: nat)
    requires k <= 4 && n <= k
    ensures (Path(id)[..k] + [i])[..n] == Path(id)[..n]
  {}

  lemma StillChild(ref0: Refs, ref1: Refs, id: nat, cut: nat, q: seq<nat>) returns (i: nat)
    requires Shrunk(ref0, ref1, id, cut) && LastHasChild(ref1, id, 0, cut) && cut >= 1
    requires q in ref1 && q != [] && OnPath(q, id, 0)
    ensures |q| < cut && cut <= 4
    ensures var w := Path(id)[..cut - 1] + [i]; w in ref0 && |w| == cut && w != Path(id)[..cut]
  {
    assert !OnPath(q, id, cut);
    i :| Path(id)[..cut - 1] + [i] in ref1;
    assert !OnPath(Path(id)[..cut - 1] + [i], id, cut);
  }

  lemma HeldByOther(ref0: Refs, place: map<nat, Spot>, id: nat, w: seq<nat>, n: nat)
    requires Keys(ref0, place) && w in ref0 && w != [] && n <= |w| <= 4 && w != Path(id)[..|w|]
    ensures HasPrefix(place - {id}, w[..n])
  {
    assert HasPrefix(place, w);
    var j :| j in place && w == Path(j)[..|w|];
    assert j in place - {id} && w[..n] == Path(j)[..n];
  }

  // ---- One level up, on the way back ----

  /** Blocks that are allocated for the tree but are not in it yet. */
  ghost function Limbo(inner: set<nat>, ref: Refs): set<nat> { inner - InnerBlocks(ref) }

  /** blk belongs to p, if to any node. */
  ghost predicate Owns(ref: Refs, p: seq<nat>, blk: nat) {
    forall q :: q in ref && |q| < 4 && q != p ==> ref[q] != blk
  }

  lemma OwnsIt(ref: Refs, inner: set<nat>, p: seq<nat>, blk: nat)
    requires RefsOk(ref, inner) && |p| < 4
    requires if p in ref then ref[p] == blk else blk in Limbo(inner, ref) && blk >= 2
    ensures Owns(ref, p, blk)
  {
    forall q | q in ref && |q| < 4 && q != p ensures ref[q] != blk {
      if p !in ref && q != [] { assert ref[q] in InnerBlocks(ref); }
    }
  }

  /** The buffer read at depth d with the child's reference replaced is what the node has to be. */
  lemma NodeFilled(ref0: Refs, ref1: Refs, ref2: Refs, id: nat, d: nat, buf: Block, child: nat)
    requires d < 4 && SameOffPath(ref0, ref1, id, d + 1) && forall q :: q != Path(id)[..d] ==> SameAt(ref1, ref2, q)
    requires forall i: nat :: i < 256 ==> buf[i] == Lookup(ref0, Path(id)[..d] + [i])
    requires child == Lookup(ref1, Path(id)[..d + 1])
    ensures forall i: nat :: i < 256 ==> buf[GetIndex(id, d) := child][i] == Lookup(ref2, Path(id)[..d] + [i])
  {
    var p := Path(id)[..d];
    PathStep(id, d);
    forall i: nat | i < 256 ensures buf[GetIndex(id, d) := child][i] == Lookup(ref2, p + [i]) {
      OffPath(p, i, id, d);
      assert SameAt(ref1, ref2, p + [i]);
      if i != GetIndex(id, d) { assert SameAt(ref0, ref1, p + [i]); }
    }
  }

  /** Back at depth d with the node written (or left alone, when the child's block did not change). */
  lemma NodeWritten(a: Disk, ref0: Refs, ref1: Refs, ref2: Refs, id: nat, d: nat, blk: nat, buf: Block, child: nat)
    requires d < 4 && Upper(a, ref0, d + 1) && Lower(a, ref1, d + 1) && SameOffPath(ref0, ref1, id, d + 1)
    requires forall q :: q != Path(id)[..d] ==> SameAt(ref1, ref2, q)
    requires Owns(ref0, Path(id)[..d], blk) && Owns(ref1, Path(id)[..d], blk)
    requires Path(id)[..d] in ref2 ==> ref2[Path(id)[..d]] == blk
    requires forall i: nat :: i < 256 ==> buf[i] == Lookup(ref0, Path(id)[..d] + [i])
    requires child == Lookup(ref1, Path(id)[..d + 1])
    ensures var b := a[blk := buf[GetIndex(id, d) := child]];
            Upper(b, ref0, d) && Lower(b, ref2, d) && SameOffPath(ref0, ref2, id, d)
  {
    NodeFilled(ref0, ref1, ref2, id, d, buf, child);
    NodeDone(a, a[blk := buf[GetIndex(id, d) := child]], ref0, ref1, ref2, id, d);
  }

  /** Back at depth d with the child's block as before: nothing to write. */
  lemma NodeKept(a: Disk, ref0: Refs, ref1: Refs, id: nat, d: nat)
    requires d < 4 && Upper(a, ref0, d + 1) && Lower(a, ref1, d + 1) && SameOffPath(ref0, ref1, id, d + 1)
    requires Path(id)[..d] in ref0 && Path(id)[..d] in ref1 && ref1[Path(id)[..d]] == ref0[Path(id)[..d]]
    requires Lookup(ref1, Path(id)[..d + 1]) == Lookup(ref0, Path(id)[..d + 1])
    ensures Upper(a, ref0, d) && Lower(a, ref1, d) && SameOffPath(ref0, ref1, id, d)
  {
    var p := Path(id)[..d];
    assert NodeOk(a, ref0, p);
    PathStep(id, d);
    forall i: nat | i < 256 ensures Lookup(ref1, p + [i]) == Lookup(ref0, p + [i]) {
      OffPath(p, i, id, d);
      if i != GetIndex(id, d) { assert SameAt(ref0, ref1, p + [i]); }
    }
    NodeDone(a, a, ref0, ref1, ref1, id, d);
  }

  /** Nothing that the tree's nodes are on has changed. */
  lemma NodesSame(a: Disk, b: Disk, ref: Refs, inner: set<nat>, d: nat)
    requires RefsOk(ref, inner) && InnerSame(a, b, inner) && d <= 4
    ensures Upper(a, ref, d) ==> Upper(b, ref, d)
    ensures Lower(a, ref, d) ==> Lower(b, ref, d)
  {
    forall q | q in ref && |q| < 4 && NodeOk(a, ref, q) ensures NodeOk(b, ref, q) {}
  }

  // ---- The steps of an insertion ----

  /** buf is what the node of prefix q holds, or zeros if there is no such node. */
  ghost predicate NodeRead(buf: Block, ref: Refs, q: seq<nat>) {
    forall i: nat :: i < 256 ==> buf[i] == Lookup(ref, q + [i])
  }

  lemma NodeIsRead(disk: Disk, ref: Refs, q: seq<nat>)
    requires Upper(disk, ref, 4) && q in ref && |q| < 4
    ensures NodeRead(At(disk, ref[q]), ref, q)
  {
    assert NodeOk(disk, ref, q);
  }

  lemma ChildRead(buf: Block, ref: Refs, id: nat, d: nat)
    requires d < 4 && NodeRead(buf, ref, Path(id)[..d])
    ensures buf[GetIndex(id, d)] == Lookup(ref, Path(id)[..d + 1])
  {
    PathStep(id, d);
  }

  lemma LookupZero(ref: Refs, inner: set<nat>, q: seq<nat>)
    requires RefsOk(ref, inner)
    ensures Lookup(ref, q) == 0 <==> q !in ref
  {}

  /** A node that is not in the tree has no children there. */
  lemma NoNodeRead(ref: Refs, q: seq<nat>)
    requires Closed(ref) && q !in ref
    ensures NodeRead(Zeros(), ref, q)
  {
    forall i: nat | i < 256 ensures q + [i] !in ref {
      assert (q + [i])[..|q + [i]| - 1] == q;
    }
  }

  lemma MoreInner(ref: Refs, inner: set<nat>, blk: nat)
    requires RefsOk(ref, inner) && blk !in inner
    ensures RefsOk(ref, inner + {blk}) && Limbo(inner + {blk}, ref) == Limbo(inner, ref) + {blk}
  {}

  lemma LeafAdded(disk: Disk, ref: Refs, inner: set<nat>, place: map<nat, Spot>, id: nat, p: Spot)
    requires RefsOk(ref, inner) && LeafBlocks(ref, place) && id !in place && id < 0x1_0000_0000 && p.blk != 0
    requires Path(id) !in ref && forall i :: i in place ==> i < 0x1_0000_0000
    ensures var ref1 := ref[Path(id) := p.blk];
            && RefsOk(ref1, inner) && LeafBlocks(ref1, place[id := p]) && Grown(ref, ref1, id, 4)
            && Lower(disk, ref1, 4) && Limbo(inner, ref1) == Limbo(inner, ref)
  {
    var ref1 := ref[Path(id) := p.blk];
    PathStep(id, 3);
    forall q | !OnPath(q, id, 4) ensures SameAt(ref, ref1, q) {}
    SameInnerBlocks(ref, ref1);
  }

  lemma SameInnerBlocks(a: Refs, b: Refs)
    requires forall q :: |q| < 4 ==> SameAt(a, b, q)
    ensures InnerBlocks(a) == InnerBlocks(b)
  {
    forall q | |q| < 4 ensures SameAt(a, b, q) {}
  }

  /** The node at depth d joins the tree, unless it was there. */
  ghost function Joined(ref: Refs, q: seq<nat>, blk: nat): Refs { if q in ref then ref else ref[q := blk] }

  lemma NodeJoins(ref0: Refs, ref1: Refs, inner: set<nat>, place: map<nat, Spot>, id: nat, d: nat, blk: nat)
    requires d < 4 && RefsOk(ref1, inner) && LeafBlocks(ref1, place) && Grown(ref0, ref1, id, d + 1)
    requires var p := Path(id)[..d]; if p in ref1 then ref1[p] == blk else blk in Limbo(inner, ref1) && blk >= 2 && d > 0
    ensures var p := Path(id)[..d];
            var ref2 := Joined(ref1, p, blk);
            && RefsOk(ref2, inner) && LeafBlocks(ref2, place) && Lookup(ref2, p) == blk
            && Limbo(inner, ref2) == Limbo(inner, ref1) - (if p in ref1 then {} else {blk})
            && (forall q :: q != p ==> SameAt(ref1, ref2, q)) && Owns(ref1, p, blk)
  {
    var p := Path(id)[..d];
    OwnsIt(ref1, inner, p, blk);
    if p !in ref1 { JoinedBlocks(ref1, p, blk); }
  }

  lemma JoinedBlocks(ref: Refs, p: seq<nat>, blk: nat)
    requires p !in ref && 0 < |p| < 4
    ensures InnerBlocks(ref[p := blk]) == InnerBlocks(ref) + {blk}
  {
    var more := ref[p := blk];
    forall b | b in InnerBlocks(ref) ensures b in InnerBlocks(more) {
      var q :| q in ref && 0 < |q| < 4 && ref[q] == b;
      assert more[q] == b;
    }
    assert more[p] == blk;
  }

  lemma JoinedGrown(ref0: Refs, ref1: Refs, id: nat, d: nat, blk: nat)
    requires d < 4 && Grown(ref0, ref1, id, d + 1) && (Path(id)[..d] in ref1 || Path(id)[..d] !in ref0)
    ensures Grown(ref0, Joined(ref1, Path(id)[..d], blk), id, d)
  {
    var ref2 := Joined(ref1, Path(id)[..d], blk);
    PathStep(id, d);
    forall q | !OnPath(q, id, d) ensures SameAt(ref0, ref2, q) {
      assert SameAt(ref0, ref1, q);
    }
  }

  /** blk is q's block in the tree, or allocated to become it. */
  ghost predicate BlockFor(ref: Refs, limbo: set<nat>, q: seq<nat>, blk: nat) {
    if q in ref then ref[q] == blk else blk in limbo && blk >= 2
  }

  /** The node is written only when its child is new. */
  ghost function NodeStored(a: Disk, blk: nat, buf: Block, i: nat, child: nat): Disk
    requires i < 256
  {
    if buf[i] == 0 then a[blk := buf[i := child]] else a
  }

  ghost function LimboLeft(limbo: set<nat>, ref: Refs, q: seq<nat>, blk: nat): set<nat> {
    if q in ref then limbo else limbo - {blk}
  }

  /** The insertion is done below depth d; writing (or keeping) the node and joining it to the tree does it at depth d. */
  lemma InsertedAt(a: Disk, ref0: Refs, ref1: Refs, inner1: set<nat>, inner2: set<nat>, place: map<nat, Spot>,
                   id: nat, d: nat, blk: nat, buf: Block, child: nat)
    requires d < 4 && Upper(a, ref0, d + 1) && Lower(a, ref1, d + 1) && Grown(ref0, ref1, id, d + 1)
    requires RefsOk(ref0, inner1) && RefsOk(ref1, inner2) && LeafBlocks(ref1, place) && Closed(ref0)
    requires Limbo(inner2, ref1) == Limbo(inner1, ref0)
    requires NodeRead(buf, ref0, Path(id)[..d]) && child == Lookup(ref1, Path(id)[..d + 1])
    requires BlockFor(ref0, Limbo(inner1, ref0), Path(id)[..d], blk)
    ensures var p := Path(id)[..d];
            var ref2, b := Joined(ref1, p, blk), NodeStored(a, blk, buf, GetIndex(id, d), child);
            && Upper(b, ref0, d) && Lower(b, ref2, d) && Grown(ref0, ref2, id, d)
            && RefsOk(ref2, inner2) && LeafBlocks(ref2, place) && Lookup(ref2, p) == blk
            && Limbo(inner2, ref2) == LimboLeft(Limbo(inner1, ref0), ref0, p, blk)
    ensures blk == 1 || blk in inner2
  {
    var p := Path(id)[..d];
    PathStep(id, d);
    assert !OnPath(p, id, d + 1);
    assert SameAt(ref0, ref1, p);
    OwnsIt(ref0, inner1, p, blk);
    hide Upper, Lower, RefsOk, LeafBlocks, NodeRead, Owns;
    NodeJoins(ref0, ref1, inner2, place, id, d, blk);
    JoinedGrown(ref0, ref1, id, d, blk);
    TreeBlock(ref1, inner2, p, blk);
    ChildRead(buf, ref0, id, d);
    LookupZero(ref0, inner1, Path(id)[..d + 1]);
    if buf[GetIndex(id, d)] == 0 {
      NodeReadIs(buf, ref0, p);
      NodeWritten(a, ref0, ref1, Joined(ref1, p, blk), id, d, blk, buf, child);
    } else {
      ClosedDown(ref0, Path(id)[..d + 1], d);
      assert Path(id)[..d + 1][..d] == p;
      NodeKept(a, ref0, ref1, id, d);
    }
  }

  lemma NodeReadIs(buf: Block, ref: Refs, q: seq<nat>)
    requires NodeRead(buf, ref, q)
    ensures forall i: nat :: i < 256 ==> buf[i] == Lookup(ref, q + [i])
  {}

  lemma TreeBlock(ref: Refs, inner: set<nat>, q: seq<nat>, blk: nat)
    requires RefsOk(ref, inner) && |q| < 4 && if q in ref then ref[q] == blk else blk in Limbo(inner, ref)
    ensures blk == 1 || blk in inner
  {}

  // ---- The steps of a removal ----

  lemma ShrunkOff(ref0: Refs, ref1: Refs, id: nat, d: nat, cut: nat)
    requires Shrunk(ref0, ref1, id, cut) && d <= cut
    ensures SameOffPath(ref0, ref1, id, d)
  {
    forall q | !OnPath(q, id, d) ensures SameAt(ref0, ref1, q) {}
  }

  /** What is known at depth d when the removal below it is done. */
  ghost predicate BackFromBelow(a: Disk, ref0: Refs, ref1: Refs, id: nat, d: nat, cut: nat, blk: nat) {
    && d < cut <= 4 && Upper(a, ref0, d + 1) && Lower(a, ref1, d + 1) && Shrunk(ref0, ref1, id, cut)
    && Path(id)[..d] in ref0 && ref0[Path(id)[..d]] == blk && Path(id)[..d + 1] in ref0
  }

  lemma StaysInTree(a: Disk, ref0: Refs, ref1: Refs, id: nat, d: nat, cut: nat, blk: nat)
    requires BackFromBelow(a, ref0, ref1, id, d, cut, blk)
    ensures Path(id)[..d] in ref1 && ref1[Path(id)[..d]] == blk && SameOffPath(ref0, ref1, id, d + 1)
    ensures Path(id)[..d + 1] in ref1 <==> cut > d + 1
  {
    PathStep(id, d);
    ShrunkOff(ref0, ref1, id, d + 1, cut);
  }

  /** The child stayed: nothing to write. */
  lemma RemovedBelow(a: Disk, ref0: Refs, ref1: Refs, id: nat, d: nat, cut: nat, blk: nat)
    requires BackFromBelow(a, ref0, ref1, id, d, cut, blk) && cut > d + 1
    ensures Upper(a, ref0, d) && Lower(a, ref1, d)
    ensures LastHasChild(ref1, id, d + 1, cut) ==> LastHasChild(ref1, id, d, cut)
  {
    StaysInTree(a, ref0, ref1, id, d, cut, blk);
    NodeKept(a, ref0, ref1, id, d);
  }

  /** The child went and the node stays. */
  lemma ChildRemoved(a: Disk, ref0: Refs, ref1: Refs, inner: set<nat>, more: set<nat>, id: nat, d: nat, blk: nat, buf: Block)
    requires BackFromBelow(a, ref0, ref1, id, d, d + 1, blk) && RefsOk(ref1, inner) && RefsOk(ref0, more) && 1 !in more
    requires NodeRead(buf, ref0, Path(id)[..d])
    requires blk == 1 || !AllZero(buf[GetIndex(id, d) := 0])
    ensures var b := a[blk := buf[GetIndex(id, d) := 0]]; Upper(b, ref0, d) && Lower(b, ref1, d)
    ensures LastHasChild(ref1, id, d, d + 1)
  {
    var p := Path(id)[..d];
    StaysInTree(a, ref0, ref1, id, d, d + 1, blk);
    OwnsIt(ref0, more, p, blk);
    OwnsIt(ref1, inner, p, blk);
    hide Upper, Lower, LastHasChild;
    NodeReadIs(buf, ref0, p);
    NodeWritten(a, ref0, ref1, ref1, id, d, blk, buf, 0);
    OtherChild(ref0, ref1, more, id, d, blk, buf);
  }

  lemma OtherChild(ref0: Refs, ref1: Refs, inner: set<nat>, id: nat, d: nat, blk: nat, buf: Block)
    requires d < 4 && SameOffPath(ref0, ref1, id, d + 1) && NodeRead(buf, ref0, Path(id)[..d])
    requires RefsOk(ref0, inner) && 1 !in inner && Path(id)[..d] in ref0 && ref0[Path(id)[..d]] == blk
    requires blk == 1 || !AllZero(buf[GetIndex(id, d) := 0])
    ensures LastHasChild(ref1, id, d, d + 1)
  {
    var p, rest := Path(id)[..d], buf[GetIndex(id, d) := 0];
    if blk == 1 {
      assert p == [] by { RootIsOne(ref0, inner, p); }
    } else {
      var j: nat :| j < 256 && rest[j] != 0;
      OffPath(p, j, id, d);
      assert SameAt(ref0, ref1, p + [j]);
      assert Lookup(ref0, p + [j]) != 0;
    }
  }

  lemma RootIsOne(ref: Refs, inner: set<nat>, q: seq<nat>)
    requires RefsOk(ref, inner) && q in ref && |q| < 4 && ref[q] == 1 && 1 !in inner
    ensures q == []
  {}

  /** The child went and it was the last: the node goes, too. */
  lemma NodeRemoved(a: Disk, b: Disk, ref0: Refs, ref1: Refs, inner: set<nat>, more: set<nat>, place: map<nat, Spot>,
                    id: nat, d: nat, blk: nat, buf: Block)
    requires BackFromBelow(a, ref0, ref1, id, d, d + 1, blk) && RefsOk(ref1, inner) && RefsOk(ref0, more)
    requires NodeRead(buf, ref0, Path(id)[..d]) && NothingElse(ref0, id, d + 1) && LeafBlocks(ref1, place)
    requires blk != 1 && AllZero(buf[GetIndex(id, d) := 0]) && forall i: nat :: i != blk ==> At(b, i) == At(a, i)
    ensures var ref2 := ref1 - {Path(id)[..d]};
            && Upper(b, ref0, d) && Lower(b, ref2, d) && Shrunk(ref0, ref2, id, d) && NothingElse(ref0, id, d)
            && RefsOk(ref2, inner - {blk}) && Limbo(inner - {blk}, ref2) == Limbo(inner, ref1) && LeafBlocks(ref2, place)
            && blk in inner
  {
    var p := Path(id)[..d];
    var ref2 := ref1 - {p};
    StaysInTree(a, ref0, ref1, id, d, d + 1, blk);
    OwnsIt(ref0, more, p, blk);
    OwnsIt(ref1, inner, p, blk);
    LeftJoined(ref1, inner, p, blk, place);
    hide RefsOk, Upper, Lower, LeafBlocks;
    NodeDone(a, b, ref0, ref1, ref2, id, d);
    NothingAtAll(ref0, more, id, d, buf);
    forall q ensures q in ref2 <==> q in ref0 && !OnPath(q, id, d) { PathStep(id, d); }
  }

  lemma NothingAtAll(ref: Refs, inner: set<nat>, id: nat, d: nat, buf: Block)
    requires d < 4 && RefsOk(ref, inner) && NodeRead(buf, ref, Path(id)[..d]) && AllZero(buf[GetIndex(id, d) := 0])
    requires NothingElse(ref, id, d + 1)
    ensures NothingElse(ref, id, d)
  {
    forall i: nat | i < 256 && i != GetIndex(id, d) ensures Path(id)[..d] + [i] !in ref {
      var q := Path(id)[..d] + [i];
      assert buf[GetIndex(id, d) := 0][i] == 0;
      assert Lookup(ref, q) == 0;
    }
  }

  lemma LeftJoined(ref: Refs, inner: set<nat>, p: seq<nat>, blk: nat, place: map<nat, Spot>)
    requires RefsOk(ref, inner) && p in ref && |p| < 4 && ref[p] == blk != 1 && LeafBlocks(ref, place)
    ensures var ref2 := ref - {p};
            && RefsOk(ref2, inner - {blk}) && Limbo(inner - {blk}, ref2) == Limbo(inner, ref) && LeafBlocks(ref2, place)
            && blk in inner
  {
    var ref2 := ref - {p};
    assert InnerBlocks(ref2) == InnerBlocks(ref) - {blk};
  }

  lemma LeafRemoved(disk: Disk, ref: Refs, inner: set<nat>, place: map<nat, Spot>, id: nat)
    requires RefsOk(ref, inner) && LeafBlocks(ref, place) && id in place && id < 0x1_0000_0000
    requires forall i :: i in place ==> i < 0x1_0000_0000
    ensures var ref1 := ref - {Path(id)};
            && RefsOk(ref1, inner) && LeafBlocks(ref1, place - {id}) && Shrunk(ref, ref1, id, 4) && Lower(disk, ref1, 4)
            && Limbo(inner, ref1) == Limbo(inner, ref) && NothingElse(ref, id, 4)
  {
    hide LeafBlocks, InnerBlocks, Path;
    var ref1 := ref - {Path(id)};
    PathStep(id, 3);
    OtherLeaves(ref, place, id);
    SameInnerBlocks(ref, ref1);
  }

  lemma OtherLeaves(ref: Refs, place: map<nat, Spot>, id: nat)
    requires LeafBlocks(ref, place) && id in place && id < 0x1_0000_0000 && forall i :: i in place ==> i < 0x1_0000_0000
    ensures LeafBlocks(ref - {Path(id)}, place - {id})
  {
    forall i | i in place - {id} ensures Path(i) in ref - {Path(id)} {
      if Path(i) == Path(id) { PathInjective(i, id); }
    }
  }
}
