/** The nodes of dict.c as a memory of records linked by address, and the trees they stand for. */
module DictLinks {
  import opened Basics
  import opened RedBlack

  /** dnode_t; address 0 is the dictionary's own sentinel nilnode. */
  datatype Dnode = Dnode(left: nat, right: nat, parent: nat, color: Color, key: int)

  function RootId(t: Tree): nat { if t.Nil? then 0 else t.id }

  function CtxId(x: Ctx): nat { if x.Top? then 0 else x.id }

  /** The records reachable from t's root are linked like t, and its root's parent is p. */
  ghost predicate Links(s: seq<Dnode>, t: Tree, p: nat) {
    t.Node? ==>
      && 0 < t.id < |s| && s[t.id].left == RootId(t.l) && s[t.id].right == RootId(t.r)
      && s[t.id].parent == p && s[t.id].color == t.c && Links(s, t.l, t.id) && Links(s, t.r, t.id)
  }

  function Side(x: Ctx): Tree
    requires x != Top
  {
    if x.InLeft? then x.r else x.l
  }

  /** The records around the hole are linked like x, with `hole` in the hole. */
  ghost predicate UpLinks(s: seq<Dnode>, x: Ctx, hole: nat) {
    if x == Top then |s| > 0 && s[0].left == hole
    else
      && 0 < x.id < |s| && s[x.id].left == (if x.InLeft? then hole else RootId(x.l))
      && s[x.id].right == (if x.InLeft? then RootId(x.r) else hole)
      && s[x.id].parent == CtxId(x.up) && s[x.id].color == x.c && Links(s, Side(x), x.id) && UpLinks(s, x.up, x.id)
  }

  ghost predicate Sentinel(s: seq<Dnode>) { |s| > 0 && s[0].color.Black? && s[0].right == 0 }

  /** No address occurs twice, and the sentinel's not at all. */
  ghost predicate Distinct(q: seq<nat>) { NoDup(q) && 0 !in q }

  ghost function Around(x: Ctx): seq<nat> { Before(x) + After(x) }

  ghost function Whole(x: Ctx, t: Tree): seq<nat> { Before(x) + InOrder(t) + After(x) }

  // ---- Taking a frame off or putting it on ----

  lemma CloseLinks(s: seq<Dnode>, x: Ctx, t: Tree)
    requires x != Top
    ensures UpLinks(s, x, RootId(t)) && Links(s, t, x.id)
       <==> UpLinks(s, x.up, x.id) && Links(s, Close(x, t, x.c), CtxId(x.up))
  {}

  lemma CloseWhole(x: Ctx, t: Tree, c: Color)
    requires x != Top
    ensures Whole(x, t) == Whole(x.up, Close(x, t, c))
  {
    CloseOrder(x, t, c);
  }

  lemma {:induction false} PlugLinks(s: seq<Dnode>, x: Ctx, t: Tree)
    requires UpLinks(s, x, RootId(t)) && Links(s, t, CtxId(x))
    ensures Links(s, Plug(x, t), 0) && |s| > 0 && s[0].left == RootId(Plug(x, t))
  {
    if x != Top {
      CloseLinks(s, x, t);
      PlugLinks(s, x.up, Close(x, t, x.c));
    }
  }

  // ---- Frames: what does not change a record does not change the tree ----

  lemma {:induction false} LinksFrame(s: seq<Dnode>, r: seq<Dnode>, t: Tree, p: nat)
    requires Links(s, t, p) && |r| == |s| && forall i :: i in InOrder(t) && i < |s| ==> r[i] == s[i]
    ensures Links(r, t, p)
  {
    if t.Node? {
      LinksFrame(s, r, t.l, t.id);
      LinksFrame(s, r, t.r, t.id);
    }
  }

  /** Only the root's parent pointer changes. */
  lemma LinksReparent(s: seq<Dnode>, r: seq<Dnode>, t: Tree, p: nat, q: nat)
    requires Links(s, t, p) && |r| == |s| && NoDup(InOrder(t))
    requires forall i :: i in InOrder(t) && i < |s| ==> r[i] == if i == RootId(t) then s[i].(parent := q) else s[i]
    ensures Links(r, t, q)
  {
    if t.Node? {
      RootElsewhere(t);
      LinksFrame(s, r, t.l, t.id);
      LinksFrame(s, r, t.r, t.id);
    }
  }

  lemma RootElsewhere(t: Tree)
    requires t.Node? && NoDup(InOrder(t))
    ensures t.id !in InOrder(t.l) && t.id !in InOrder(t.r) && t.id in InOrder(t)
    ensures NoDup(InOrder(t.l)) && NoDup(InOrder(t.r))
    ensures forall i :: i in InOrder(t.l) ==> i !in InOrder(t.r)
  {
    NoDupParts(InOrder(t.l), t.id, InOrder(t.r));
  }

  lemma NoDupParts(a: seq<nat>, i: nat, b: seq<nat>)
    requires NoDup(a + [i] + b)
    ensures NoDup(a) && NoDup(b) && i !in a && i !in b && i in a + [i] + b && forall j :: j in a ==> j !in b
  {
    var q := a + [i] + b;
    forall k | 0 <= k < |a| ensures q[k] == a[k] {}
    forall k | 0 <= k < |b| ensures q[|a| + 1 + k] == b[k] {}
    assert q[|a|] == i;
    forall x, y | 0 <= x < |a| && 0 <= y < |b| ensures a[x] != b[y] { assert q[x] != q[|a| + 1 + y]; }
  }

  lemma {:induction false} UpFrame(s: seq<Dnode>, r: seq<Dnode>, x: Ctx, hole: nat)
    requires UpLinks(s, x, hole) && |r| == |s| > 0 && r[0].left == s[0].left
    requires forall i :: i in Around(x) && i < |s| ==> r[i] == s[i]
    ensures UpLinks(r, x, hole)
  {
    if x != Top {
      LinksFrame(s, r, Side(x), x.id);
      UpFrame(s, r, x.up, x.id);
    }
  }

  /** Only the child pointer into the hole changes. */
  lemma UpRehole(s: seq<Dnode>, r: seq<Dnode>, x: Ctx, hole: nat, other: nat)
    requires UpLinks(s, x, hole) && |r| == |s| > 0 && NoDup(Around(x))
    requires if x == Top then r[0].left == other
             else r[0].left == s[0].left && x.id < |s|
                  && r[x.id] == (if x.InLeft? then s[x.id].(left := other) else s[x.id].(right := other))
    requires forall i :: i in Around(x) && i < |s| && i != CtxId(x) ==> r[i] == s[i]
    ensures UpLinks(r, x, other)
  {
    if x != Top {
      FrameElsewhere(x);
      LinksFrame(s, r, Side(x), x.id);
      UpFrame(s, r, x.up, x.id);
    }
  }

  lemma FrameElsewhere(x: Ctx)
    requires x != Top && NoDup(Around(x))
    ensures x.id !in InOrder(Side(x)) && x.id !in Around(x.up)
  {
    if x.InLeft? {
      assert Around(x) == Before(x.up) + [x.id] + (InOrder(x.r) + After(x.up));
      NoDupParts(Before(x.up), x.id, InOrder(x.r) + After(x.up));
    } else {
      NoDupParts(Before(x.up) + InOrder(x.l), x.id, After(x.up));
    }
  }

  // ---- Rotations on the records ----

  function SetLeft(s: seq<Dnode>, i: nat, to: nat): seq<Dnode>
    requires i < |s|
  {
    s[i := s[i].(left := to)]
  }

  function SetRight(s: seq<Dnode>, i: nat, to: nat): seq<Dnode>
    requires i < |s|
  {
    s[i := s[i].(right := to)]
  }

  function SetParent(s: seq<Dnode>, i: nat, to: nat): seq<Dnode>
    requires i < |s|
  {
    s[i := s[i].(parent := to)]
  }

  function SetColor(s: seq<Dnode>, i: nat, c: Color): seq<Dnode>
    requires i < |s|
  {
    s[i := s[i].(color := c)]
  }

  /** The addresses a rotation at `upper` goes through. */
  predicate CanRotate(s: seq<Dnode>, upper: nat, lower: nat, inner: nat) {
    && 0 < upper < |s| && 0 < lower < |s| && inner < |s| && s[upper].parent < |s|
    && upper != lower && inner != upper && inner != lower && s[upper].parent != upper && s[upper].parent != lower
    && (inner == s[upper].parent ==> inner == 0)
  }

  /** rotate_left, assignment by assignment. */
  function RotatedLeft(s: seq<Dnode>, upper: nat): seq<Dnode>
    requires upper < |s| && s[upper].right < |s| && CanRotate(s, upper, s[upper].right, s[s[upper].right].left)
  {
    var lower := s[upper].right;
    var lowleft := s[lower].left;
    var upparent := s[upper].parent;
    var a := SetParent(SetRight(s, upper, lowleft), lowleft, upper);
    var b := SetParent(a, lower, upparent);
    var c := if b[upparent].left == upper then SetLeft(b, upparent, lower) else SetRight(b, upparent, lower);
    SetParent(SetLeft(c, lower, upper), upper, lower)
  }

  /** rotate_right */
  function RotatedRight(s: seq<Dnode>, upper: nat): seq<Dnode>
    requires upper < |s| && s[upper].left < |s| && CanRotate(s, upper, s[upper].left, s[s[upper].left].right)
  {
    var lower := s[upper].left;
    var lowright := s[lower].right;
    var upparent := s[upper].parent;
    var a := SetParent(SetLeft(s, upper, lowright), lowright, upper);
    var b := SetParent(a, lower, upparent);
    var c := if b[upparent].right == upper then SetRight(b, upparent, lower) else SetLeft(b, upparent, lower);
    SetParent(SetRight(c, lower, upper), upper, lower)
  }

  lemma RotatedLeftAt(s: seq<Dnode>, upper: nat, i: nat)
    requires upper < |s| && s[upper].right < |s| && CanRotate(s, upper, s[upper].right, s[s[upper].right].left) && i < |s|
    ensures |RotatedLeft(s, upper)| == |s|
    ensures var r, lower, inner, up := RotatedLeft(s, upper)[i], s[upper].right, s[s[upper].right].left, s[upper].parent;
            && r.color == s[i].color && r.key == s[i].key
            && r.left == (if i == lower then upper else if i == up && s[up].left == upper then lower else s[i].left)
            && r.right == (if i == upper then inner else if i == up && s[up].left != upper then lower else s[i].right)
            && r.parent == (if i == upper then lower else if i == lower then up else if i == inner then upper else s[i].parent)
  {}

  lemma RotatedRightAt(s: seq<Dnode>, upper: nat, i: nat)
    requires upper < |s| && s[upper].left < |s| && CanRotate(s, upper, s[upper].left, s[s[upper].left].right) && i < |s|
    ensures |RotatedRight(s, upper)| == |s|
    ensures var r, lower, inner, up := RotatedRight(s, upper)[i], s[upper].left, s[s[upper].left].right, s[upper].parent;
            && r.color == s[i].color && r.key == s[i].key
            && r.right == (if i == lower then upper else if i == up && s[up].right == upper then lower else s[i].right)
            && r.left == (if i == upper then inner else if i == up && s[up].right != upper then lower else s[i].left)
            && r.parent == (if i == upper then lower else if i == lower then up else if i == inner then upper else s[i].parent)
  {}

  ghost predicate SameKeys(s: seq<Dnode>, r: seq<Dnode>) {
    |r| == |s| && forall i :: 0 <= i < |s| ==> r[i].key == s[i].key
  }

  /** What stands where before a rotation: subtree t in context x. */
  ghost predicate Placed(s: seq<Dnode>, x: Ctx, t: Tree) {
    && Sentinel(s) && UpLinks(s, x, RootId(t)) && Links(s, t, CtxId(x)) && Distinct(Whole(x, t))
  }

  /** The pieces around a rotation keep apart. */
  lemma Apart(x: Ctx, a: Tree, u: nat, cu: Color, b: Tree, w: nat, cw: Color, d: Tree)
    requires Distinct(Whole(x, Node(a, u, cu, Node(b, w, cw, d))))
    ensures NoDup(Around(x)) && NoDup(InOrder(b)) && u != w
    ensures forall i :: i in Around(x) ==> i != u && i != w && i != 0 && i !in InOrder(a) && i !in InOrder(b) && i !in InOrder(d)
    ensures forall i :: i in InOrder(a) ==> i != u && i != w && i != 0 && i !in InOrder(b) && i !in InOrder(d)
    ensures forall i :: i in InOrder(b) ==> i != u && i != w && i != 0 && i !in InOrder(d)
    ensures forall i :: i in InOrder(d) ==> i != u && i != w && i != 0
    ensures u != 0 && w != 0
  {
    hide Distinct, InOrder, Before, After, Whole;
    WholeOfTwo(x, a, u, cu, b, w, cw, d);
    SevenApart(Before(x), InOrder(a), u, InOrder(b), w, InOrder(d), After(x));
  }

  lemma WholeOfTwo(x: Ctx, a: Tree, u: nat, cu: Color, b: Tree, w: nat, cw: Color, d: Tree)
    ensures Whole(x, Node(a, u, cu, Node(b, w, cw, d)))
         == Before(x) + (InOrder(a) + [u] + (InOrder(b) + [w] + InOrder(d))) + After(x)
  {
    hide Before, After;
    var lower := Node(b, w, cw, d);
    assert InOrder(lower) == InOrder(b) + [w] + InOrder(d);
  }

  lemma SevenApart(P: seq<nat>, A: seq<nat>, u: nat, B: seq<nat>, w: nat, D: seq<nat>, Q: seq<nat>)
    requires Distinct(P + (A + [u] + (B + [w] + D)) + Q)
    ensures NoDup(P + Q) && NoDup(B) && u != w && u != 0 && w != 0
    ensures forall i :: i in P + Q ==> i != u && i != w && i != 0 && i !in A && i !in B && i !in D
    ensures forall i :: i in A ==> i != u && i != w && i != 0 && i !in B && i !in D
    ensures forall i :: i in B ==> i != u && i != w && i != 0 && i !in D
    ensures forall i :: i in D ==> i != u && i != w && i != 0
  {
    hide NoDup;
    var q, rest := P + (A + [u] + (B + [w] + D)) + Q, B + [w] + (D + Q);
    assert q == (P + A) + [u] + rest;
    NoDupParts(P + A, u, rest);
    NoDupParts(B, w, D + Q);
    SplitNoDup(P, A);
    SplitNoDup(D, Q);
    assert forall i :: i in q <==> i in P || i in A || i == u || i in B || i == w || i in D || i in Q;
    assert forall i :: i in rest <==> i in B || i == w || i in D || i in Q;
    assert forall i :: i in P ==> i in P + A;
    JoinNoDup(P, Q);
  }

  lemma SplitNoDup(a: seq<nat>, b: seq<nat>)
    requires NoDup(a + b)
    ensures NoDup(a) && NoDup(b) && forall i :: i in a ==> i !in b
  {
    var q := a + b;
    forall k | 0 <= k < |a| ensures q[k] == a[k] {}
    forall k | 0 <= k < |b| ensures q[|a| + k] == b[k] {}
    forall x, y | 0 <= x < |a| && 0 <= y < |b| ensures a[x] != b[y] { assert q[x] != q[|a| + y]; }
  }

  lemma JoinNoDup(a: seq<nat>, b: seq<nat>)
    requires NoDup(a) && NoDup(b) && forall i :: i in a ==> i !in b
    ensures NoDup(a + b)
  {
    forall i, j | 0 <= i < j < |a + b| ensures (a + b)[i] != (a + b)[j] {
      if i < |a| <= j { assert a[i] in a && b[j - |a|] in b; }
    }
  }

  lemma RootIn(t: Tree)
    ensures t.Node? ==> t.id in InOrder(t)
  {}

  lemma CtxIn(x: Ctx)
    ensures x != Top ==> x.id in Around(x)
  {}

  /** rotate_left on the records is the rotation of the tree they stand for. */
  lemma RotateLeftLinks(s: seq<Dnode>, x: Ctx, a: Tree, u: nat, cu: Color, b: Tree, w: nat, cw: Color, d: Tree)
    requires Placed(s, x, Node(a, u, cu, Node(b, w, cw, d)))
    ensures u < |s| && s[u].right < |s| && CanRotate(s, u, s[u].right, s[s[u].right].left)
    ensures SameKeys(s, RotatedLeft(s, u)) && Placed(RotatedLeft(s, u), x, Node(Node(a, u, cu, b), w, cw, d))
    ensures Whole(x, Node(Node(a, u, cu, b), w, cw, d)) == Whole(x, Node(a, u, cu, Node(b, w, cw, d)))
  {
    hide NoDup, Whole;
    Apart(x, a, u, cu, b, w, cw, d);
    RotateLeftView(s, x, a, u, cu, b, w, cw, d);
    assert CanRotate(s, u, w, RootId(b));
    var r := RotatedLeft(s, u);
    RotateOrder(a, u, b, w, d, cu, cw, cw, cu);
    hide RotatedLeft;
    forall i: nat | i < |s| ensures RotatedLeftFields(s, r, u, i) { RotatedLeftAt(s, u, i); }
    RotateLeftPieces(s, r, x, a, u, cu, b, w, cw, d);
    SameWhole(x, Node(a, u, cu, Node(b, w, cw, d)), Node(Node(a, u, cu, b), w, cw, d));
  }

  lemma SameWhole(x: Ctx, t: Tree, r: Tree)
    requires InOrder(r) == InOrder(t)
    ensures Whole(x, r) == Whole(x, t)
  {}

  /** The records of the two nodes, their subtrees and the hole's parent. */
  lemma RotateLeftView(s: seq<Dnode>, x: Ctx, a: Tree, u: nat, cu: Color, b: Tree, w: nat, cw: Color, d: Tree)
    requires Placed(s, x, Node(a, u, cu, Node(b, w, cw, d)))
    ensures 0 < u < |s| && 0 < w < |s| && s[u] == Dnode(RootId(a), w, CtxId(x), cu, s[u].key)
    ensures s[w] == Dnode(RootId(b), RootId(d), u, cw, s[w].key)
    ensures Links(s, a, u) && Links(s, b, w) && Links(s, d, w)
    ensures RootId(a) < |s| && RootId(b) < |s| && RootId(d) < |s| && CtxId(x) < |s|
    ensures RootId(a) == 0 || RootId(a) in InOrder(a)
    ensures RootId(b) == 0 || RootId(b) in InOrder(b)
    ensures RootId(d) == 0 || RootId(d) in InOrder(d)
    ensures CtxId(x) == 0 || CtxId(x) in Around(x)
    ensures s[CtxId(x)].left == u <==> !x.InRight?
    ensures x.InRight? ==> s[CtxId(x)].right == u
    ensures x.Top? <==> CtxId(x) == 0
  {
    var lower := Node(b, w, cw, d);
    var t := Node(a, u, cu, lower);
    assert Links(s, lower, u);
    Apart(x, a, u, cu, b, w, cw, d);
    hide NoDup;
    CtxIn(x);
    SideIn(x);
  }

  /** Which fields rotate_left sets. */
  ghost predicate RotatedLeftFields(s: seq<Dnode>, r: seq<Dnode>, upper: nat, i: nat) {
    && |r| == |s| && i < |s| && upper < |s| && s[upper].right < |s|
    && var lower, inner, up := s[upper].right, s[s[upper].right].left, s[upper].parent;
       && up < |s| && r[i].color == s[i].color && r[i].key == s[i].key
       && r[i].left == (if i == lower then upper else if i == up && s[up].left == upper then lower else s[i].left)
       && r[i].right == (if i == upper then inner else if i == up && s[up].left != upper then lower else s[i].right)
       && r[i].parent == (if i == upper then lower else if i == lower then up else if i == inner then upper else s[i].parent)
  }

  lemma RotateLeftPieces(s: seq<Dnode>, r: seq<Dnode>, x: Ctx, a: Tree, u: nat, cu: Color, b: Tree, w: nat, cw: Color, d: Tree)
    requires Placed(s, x, Node(a, u, cu, Node(b, w, cw, d))) && |r| == |s|
    requires forall i: nat :: i < |s| ==> RotatedLeftFields(s, r, u, i)
    ensures Sentinel(r) && UpLinks(r, x, w) && Links(r, Node(Node(a, u, cu, b), w, cw, d), CtxId(x)) && SameKeys(s, r)
  {
    hide NoDup, Around;
    Apart(x, a, u, cu, b, w, cw, d);
    RotateLeftView(s, x, a, u, cu, b, w, cw, d);
    hide Links, UpLinks, Whole, InOrder;
    assert RotatedLeftFields(s, r, u, 0) && RotatedLeftFields(s, r, u, u) && RotatedLeftFields(s, r, u, w);
    assert RotatedLeftFields(s, r, u, CtxId(x));
    forall i: nat | i in InOrder(a) && i < |s| ensures r[i] == s[i] { assert RotatedLeftFields(s, r, u, i); }
    LinksFrame(s, r, a, u);
    forall i: nat | i in InOrder(d) && i < |s| ensures r[i] == s[i] { assert RotatedLeftFields(s, r, u, i); }
    LinksFrame(s, r, d, w);
    forall i: nat | i in InOrder(b) && i < |s| ensures r[i] == if i == RootId(b) then s[i].(parent := u) else s[i] {
      assert RotatedLeftFields(s, r, u, i);
    }
    LinksReparent(s, r, b, w, u);
    forall i: nat | i in Around(x) && i < |s| && i != CtxId(x) ensures r[i] == s[i] { assert RotatedLeftFields(s, r, u, i); }
    UpRehole(s, r, x, u, w);
    forall i: nat | i < |s| ensures r[i].key == s[i].key { assert RotatedLeftFields(s, r, u, i); }
    TwoNodeLinks(r, a, u, cu, b, w, cw, d, CtxId(x));
  }

  lemma TwoNodeLinks(r: seq<Dnode>, a: Tree, u: nat, cu: Color, b: Tree, w: nat, cw: Color, d: Tree, p: nat)
    requires Links(r, a, u) && Links(r, b, u) && Links(r, d, w) && 0 < u < |r| && 0 < w < |r|
    requires r[u] == Dnode(RootId(a), RootId(b), w, cu, r[u].key) && r[w] == Dnode(u, RootId(d), p, cw, r[w].key)
    ensures Links(r, Node(Node(a, u, cu, b), w, cw, d), p)
  {
    assert Links(r, Node(a, u, cu, b), w);
  }

  /** The hole's sibling is not the tree in the hole. */
  lemma SideIn(x: Ctx)
    ensures x != Top ==> RootId(Side(x)) == 0 || RootId(Side(x)) in Around(x)
  {
    if x != Top { RootIn(Side(x)); }
  }

  // ---- The mirror image ----

  lemma RotateRightLinks(s: seq<Dnode>, x: Ctx, a: Tree, u: nat, cu: Color, b: Tree, w: nat, cw: Color, d: Tree)
    requires Placed(s, x, Node(Node(a, u, cu, b), w, cw, d))
    ensures w < |s| && s[w].left < |s| && CanRotate(s, w, s[w].left, s[s[w].left].right)
    ensures SameKeys(s, RotatedRight(s, w)) && Placed(RotatedRight(s, w), x, Node(a, u, cu, Node(b, w, cw, d)))
    ensures Whole(x, Node(a, u, cu, Node(b, w, cw, d))) == Whole(x, Node(Node(a, u, cu, b), w, cw, d))
  {
    hide NoDup, Whole;
    RotateOrder(a, u, b, w, d, cu, cw, cw, cu);
    SameWhole(x, Node(Node(a, u, cu, b), w, cw, d), Node(a, u, cu, Node(b, w, cw, d)));
    Apart(x, a, u, cu, b, w, cw, d);
    RotateRightView(s, x, a, u, cu, b, w, cw, d);
    assert CanRotate(s, w, u, RootId(b));
    var r := RotatedRight(s, w);
    hide RotatedRight;
    forall i: nat | i < |s| ensures RotatedRightFields(s, r, w, i) { RotatedRightAt(s, w, i); }
    RotateRightPieces(s, r, x, a, u, cu, b, w, cw, d);
  }

  lemma RotateRightView(s: seq<Dnode>, x: Ctx, a: Tree, u: nat, cu: Color, b: Tree, w: nat, cw: Color, d: Tree)
    requires Placed(s, x, Node(Node(a, u, cu, b), w, cw, d))
    requires Distinct(Whole(x, Node(a, u, cu, Node(b, w, cw, d))))
    ensures 0 < u < |s| && 0 < w < |s| && s[w] == Dnode(u, RootId(d), CtxId(x), cw, s[w].key)
    ensures s[u] == Dnode(RootId(a), RootId(b), w, cu, s[u].key)
    ensures Links(s, a, u) && Links(s, b, u) && Links(s, d, w)
    ensures RootId(a) < |s| && RootId(b) < |s| && RootId(d) < |s| && CtxId(x) < |s|
    ensures RootId(a) == 0 || RootId(a) in InOrder(a)
    ensures RootId(b) == 0 || RootId(b) in InOrder(b)
    ensures RootId(d) == 0 || RootId(d) in InOrder(d)
    ensures CtxId(x) == 0 || CtxId(x) in Around(x)
    ensures s[CtxId(x)].right == w <==> x.InRight?
    ensures !x.InRight? ==> s[CtxId(x)].left == w
    ensures x.Top? <==> CtxId(x) == 0
  {
    var lower := Node(a, u, cu, b);
    assert Links(s, lower, w);
    Apart(x, a, u, cu, b, w, cw, d);
    hide NoDup;
    CtxIn(x);
    SideIn(x);
  }

  ghost predicate RotatedRightFields(s: seq<Dnode>, r: seq<Dnode>, upper: nat, i: nat) {
    && |r| == |s| && i < |s| && upper < |s| && s[upper].left < |s|
    && var lower, inner, up := s[upper].left, s[s[upper].left].right, s[upper].parent;
       && up < |s| && r[i].color == s[i].color && r[i].key == s[i].key
       && r[i].right == (if i == lower then upper else if i == up && s[up].right == upper then lower else s[i].right)
       && r[i].left == (if i == upper then inner else if i == up && s[up].right != upper then lower else s[i].left)
       && r[i].parent == (if i == upper then lower else if i == lower then up else if i == inner then upper else s[i].parent)
  }

  lemma RotateRightPieces(s: seq<Dnode>, r: seq<Dnode>, x: Ctx, a: Tree, u: nat, cu: Color, b: Tree, w: nat, cw: Color, d: Tree)
    requires Placed(s, x, Node(Node(a, u, cu, b), w, cw, d)) && |r| == |s|
    requires Distinct(Whole(x, Node(a, u, cu, Node(b, w, cw, d))))
    requires forall i: nat :: i < |s| ==> RotatedRightFields(s, r, w, i)
    ensures Sentinel(r) && UpLinks(r, x, u) && Links(r, Node(a, u, cu, Node(b, w, cw, d)), CtxId(x)) && SameKeys(s, r)
  {
    hide NoDup, Around;
    Apart(x, a, u, cu, b, w, cw, d);
    RotateRightView(s, x, a, u, cu, b, w, cw, d);
    hide Links, UpLinks, Whole, InOrder;
    assert RotatedRightFields(s, r, w, 0) && RotatedRightFields(s, r, w, u) && RotatedRightFields(s, r, w, w);
    assert RotatedRightFields(s, r, w, CtxId(x));
    forall i: nat | i in InOrder(a) && i < |s| ensures r[i] == s[i] { assert RotatedRightFields(s, r, w, i); }
    LinksFrame(s, r, a, u);
    forall i: nat | i in InOrder(d) && i < |s| ensures r[i] == s[i] { assert RotatedRightFields(s, r, w, i); }
    LinksFrame(s, r, d, w);
    forall i: nat | i in InOrder(b) && i < |s| ensures r[i] == if i == RootId(b) then s[i].(parent := w) else s[i] {
      assert RotatedRightFields(s, r, w, i);
    }
    LinksReparent(s, r, b, u, w);
    forall i: nat | i in Around(x) && i < |s| && i != CtxId(x) ensures r[i] == s[i] { assert RotatedRightFields(s, r, w, i); }
    UpRehole(s, r, x, w, u);
    forall i: nat | i < |s| ensures r[i].key == s[i].key { assert RotatedRightFields(s, r, w, i); }
    TwoNodeLinksRight(r, a, u, cu, b, w, cw, d, CtxId(x));
  }

  lemma TwoNodeLinksRight(r: seq<Dnode>, a: Tree, u: nat, cu: Color, b: Tree, w: nat, cw: Color, d: Tree, p: nat)
    requires Links(r, a, u) && Links(r, b, w) && Links(r, d, w) && 0 < u < |r| && 0 < w < |r|
    requires r[u] == Dnode(RootId(a), w, p, cu, r[u].key) && r[w] == Dnode(RootId(b), RootId(d), u, cw, r[w].key)
    ensures Links(r, Node(a, u, cu, Node(b, w, cw, d)), p)
  {
    assert Links(r, Node(b, w, cw, d), u);
  }

  // ---- Colours on the records ----

  function WithColor(t: Tree, i: nat, c: Color): Tree {
    if t.Nil? then Nil
    else Node(WithColor(t.l, i, c), t.id, if t.id == i then c else t.c, WithColor(t.r, i, c))
  }

  lemma {:induction false} RecolorLinks(s: seq<Dnode>, t: Tree, p: nat, i: nat, c: Color)
    requires Links(s, t, p) && i < |s|
    ensures Links(SetColor(s, i, c), WithColor(t, i, c), p) && InOrder(WithColor(t, i, c)) == InOrder(t)
    ensures RootId(WithColor(t, i, c)) == RootId(t)
  {
    if t.Node? {
      RecolorLinks(s, t.l, t.id, i, c);
      RecolorLinks(s, t.r, t.id, i, c);
    }
  }

  lemma {:induction false} ColorElsewhere(t: Tree, i: nat, c: Color)
    requires i !in InOrder(t)
    ensures WithColor(t, i, c) == t
  {
    if t.Node? {
      ColorElsewhere(t.l, i, c);
      ColorElsewhere(t.r, i, c);
    }
  }

  /** Colouring a node inside the hole. */
  lemma RecolorPlaced(s: seq<Dnode>, x: Ctx, t: Tree, i: nat, c: Color)
    requires Placed(s, x, t) && i in InOrder(t)
    ensures i < |s| && Placed(SetColor(s, i, c), x, WithColor(t, i, c)) && SameKeys(s, SetColor(s, i, c))
    ensures Whole(x, WithColor(t, i, c)) == Whole(x, t)
  {
    hide NoDup;
    InTheHole(x, t, i);
    InBounds(s, t, CtxId(x), i);
    RecolorLinks(s, t, CtxId(x), i, c);
    SameWhole(x, t, WithColor(t, i, c));
    UpFrame(s, SetColor(s, i, c), x, RootId(t));
  }

  lemma {:induction false} InBounds(s: seq<Dnode>, t: Tree, p: nat, i: nat)
    requires Links(s, t, p) && i in InOrder(t)
    ensures i < |s|
  {
    if i in InOrder(t.l) { InBounds(s, t.l, t.id, i); }
    if i in InOrder(t.r) { InBounds(s, t.r, t.id, i); }
  }

  lemma InTheHole(x: Ctx, t: Tree, i: nat)
    requires Distinct(Whole(x, t)) && i in InOrder(t)
    ensures i !in Around(x) && i != 0
  {
    hide InOrder, Before, After;
    var P, T, Q := Before(x), InOrder(t), After(x);
    SplitNoDup(P + T, Q);
    SplitNoDup(P, T);
    assert i in P + T;
    assert i in P + T + Q;
  }

  // ---- One round of the repair loop of dict_insert ----

  lemma PlacedUp(s: seq<Dnode>, x: Ctx, t: Tree)
    requires Placed(s, x, t) && x != Top
    ensures Placed(s, x.up, Close(x, t, x.c)) && Whole(x.up, Close(x, t, x.c)) == Whole(x, t)
  {
    CloseLinks(s, x, t);
    CloseWhole(x, t, x.c);
    hide NoDup, UpLinks, Links, Whole;
  }

  /** Where parent, grandparent and uncle are found in the records. */
  lemma FamilyView(s: seq<Dnode>, x: Ctx, t: Tree)
    requires Placed(s, x, t) && t.Node?
    ensures CtxId(x) < |s| && s[CtxId(x)].color == CtxColor(x) && (CtxId(x) == 0 <==> x == Top)
    ensures x != Top ==> CtxId(x.up) < |s| && s[x.id].parent == CtxId(x.up)
    ensures x != Top ==> (s[x.id].right == t.id <==> x.InRight?) && (s[x.id].left == t.id <==> x.InLeft?)
    ensures x != Top ==> Distinct(Whole(x.up, Close(x, t, x.c)))
  {
    hide NoDup;
    if x != Top {
      CloseWhole(x, t, x.c);
      SideApart(x, t);
      assert UpLinks(s, x.up, x.id);
    }
  }

  lemma SideApart(x: Ctx, t: Tree)
    requires x != Top && t.Node? && Distinct(Whole(x, t))
    ensures RootId(Side(x)) != t.id && x.id != 0 && t.id != 0
  {
    RootIn(Side(x));
    RootIn(t);
    SideIn(x);
    CtxIn(x);
    assert t.id in Whole(x, t);
    assert x.id in Whole(x, t);
    InTheHole(x, t, t.id);
  }

  /** The uncle's record. */
  lemma UncleView(s: seq<Dnode>, x: Ctx, t: Tree)
    requires Placed(s, x, t) && t.Node? && Deep(x)
    ensures x.up.id < |s| && RootId(Uncle(x)) < |s| && s[RootId(Uncle(x))].color == RootColor(Uncle(x))
    ensures RootId(Uncle(x)) == if x.up.InLeft? then s[x.up.id].right else s[x.up.id].left
    ensures s[x.up.id].left == x.id <==> x.up.InLeft?
  {
    hide NoDup;
    PlacedUp(s, x, t);
    FamilyView(s, x.up, Close(x, t, x.c));
    assert Uncle(x) == Side(x.up) && Links(s, Side(x.up), x.up.id);
  }

  lemma TwoUp(s: seq<Dnode>, x: Ctx, t: Tree)
    requires Placed(s, x, t) && Deep(x)
    ensures var g := Close(x.up, Close(x, t, x.c), x.up.c);
            Placed(s, x.up.up, g) && Whole(x.up.up, g) == Whole(x, t)
  {
    hide Placed;
    PlacedUp(s, x, t);
    PlacedUp(s, x.up, Close(x, t, x.c));
  }

  lemma HoleNoDup(x: Ctx, t: Tree)
    requires Distinct(Whole(x, t))
    ensures NoDup(InOrder(t))
  {
    hide InOrder, Before, After, NoDup;
    SplitNoDup(Before(x) + InOrder(t), After(x));
    SplitNoDup(Before(x), InOrder(t));
  }

  /** Painting parent, uncle and grandparent one after the other. */
  lemma Painted(x: Ctx, t: Tree)
    requires Deep(x) && Uncle(x).Node? && NoDup(InOrder(Close(x.up, Close(x, t, x.c), x.up.c)))
    ensures var g := Close(x.up, Close(x, t, x.c), x.up.c);
            && x.id in InOrder(g) && Uncle(x).id in InOrder(g) && x.up.id in InOrder(g)
            && WithColor(WithColor(WithColor(g, x.id, Black), Uncle(x).id, Black), x.up.id, Red) == Recolored(x, t)
  {
    var p := Close(x, t, x.c);
    var g := Close(x.up, p, x.up.c);
    RootElsewhere(g);
    RootElsewhere(p);
    RootElsewhere(Uncle(x));
    hide NoDup;
    var u, i, q, k := Uncle(x), x.id, Uncle(x).id, x.up.id;
    assert InOrder(p) == if x.InLeft? then InOrder(t) + [i] + InOrder(x.r) else InOrder(x.l) + [i] + InOrder(t);
    assert InOrder(u) == InOrder(u.l) + [q] + InOrder(u.r);
    NotTouched(t, i, q, k);
    NotTouched(Side(x), i, q, k);
    NotTouched(u.l, i, q, k);
    NotTouched(u.r, i, q, k);
  }

  lemma NotTouched(t: Tree, i: nat, q: nat, k: nat)
    requires i !in InOrder(t) && q !in InOrder(t) && k !in InOrder(t)
    ensures WithColor(t, i, Black) == t && WithColor(t, q, Black) == t && WithColor(t, k, Red) == t
  {
    ColorElsewhere(t, i, Black);
    ColorElsewhere(t, q, Black);
    ColorElsewhere(t, k, Red);
  }

  lemma UncleRedLinks(s: seq<Dnode>, x: Ctx, t: Tree)
    requires Placed(s, x, t) && Deep(x) && Uncle(x).Node?
    ensures x.id < |s| && Uncle(x).id < |s| && x.up.id < |s|
    ensures var r := SetColor(SetColor(SetColor(s, x.id, Black), Uncle(x).id, Black), x.up.id, Red);
            && Placed(r, x.up.up, Recolored(x, t)) && SameKeys(s, r)
            && Whole(x.up.up, Recolored(x, t)) == Whole(x, t)
  {
    var y, g := x.up.up, Close(x.up, Close(x, t, x.c), x.up.c);
    TwoUp(s, x, t);
    HoleNoDup(y, g);
    Painted(x, t);
    hide Placed, SetColor, Whole, Recolored, WithColor, InOrder;
    RecolorPlaced(s, y, g, x.id, Black);
    SameNodes(g, x.id, Black);
    var g1 := WithColor(g, x.id, Black);
    RecolorPlaced(SetColor(s, x.id, Black), y, g1, Uncle(x).id, Black);
    SameNodes(g1, Uncle(x).id, Black);
    var g2 := WithColor(g1, Uncle(x).id, Black);
    RecolorPlaced(SetColor(SetColor(s, x.id, Black), Uncle(x).id, Black), y, g2, x.up.id, Red);
  }

  lemma {:induction false} SameNodes(t: Tree, i: nat, c: Color)
    ensures InOrder(WithColor(t, i, c)) == InOrder(t)
  {
    if t.Node? {
      SameNodes(t.l, i, c);
      SameNodes(t.r, i, c);
    }
  }

  /** Parent black, grandparent red, rotate the grandparent to the right. */
  lemma FinishRight(s: seq<Dnode>, y: Ctx, a: Tree, p: nat, cp: Color, b: Tree, g: nat, cg: Color, u: Tree)
    requires Placed(s, y, Node(Node(a, p, cp, b), g, cg, u))
    ensures p < |s| && g < |s|
    ensures var r := SetColor(SetColor(s, p, Black), g, Red);
            && r[g].left < |r| && CanRotate(r, g, r[g].left, r[r[g].left].right)
            && Placed(RotatedRight(r, g), y, Node(a, p, Black, Node(b, g, Red, u))) && SameKeys(s, RotatedRight(r, g))
            && Whole(y, Node(a, p, Black, Node(b, g, Red, u))) == Whole(y, Node(Node(a, p, cp, b), g, cg, u))
  {
    var t := Node(Node(a, p, cp, b), g, cg, u);
    HoleNoDup(y, t);
    PaintedTwo(a, p, cp, b, g, cg, u);
    hide Placed, Whole, InOrder, NoDup, WithColor, RotatedRight, CanRotate;
    RecolorPlaced(s, y, t, p, Black);
    SameNodes(t, p, Black);
    RecolorPlaced(SetColor(s, p, Black), y, WithColor(t, p, Black), g, Red);
    hide SetColor;
    RotateRightLinks(SetColor(SetColor(s, p, Black), g, Red), y, a, p, Black, b, g, Red, u);
  }

  lemma PaintedTwo(a: Tree, p: nat, cp: Color, b: Tree, g: nat, cg: Color, u: Tree)
    requires NoDup(InOrder(Node(Node(a, p, cp, b), g, cg, u)))
    ensures var t := Node(Node(a, p, cp, b), g, cg, u);
            && p in InOrder(t) && g in InOrder(t)
            && WithColor(WithColor(t, p, Black), g, Red) == Node(Node(a, p, Black, b), g, Red, u)
  {
    var l := Node(a, p, cp, b);
    var t := Node(l, g, cg, u);
    RootElsewhere(t);
    RootElsewhere(l);
    hide NoDup;
    assert InOrder(l) == InOrder(a) + [p] + InOrder(b);
    NotTouched(a, p, p, g);
    NotTouched(b, p, p, g);
    NotTouched(u, p, p, g);
  }

  lemma FinishLeft(s: seq<Dnode>, y: Ctx, u: Tree, g: nat, cg: Color, a: Tree, p: nat, cp: Color, b: Tree)
    requires Placed(s, y, Node(u, g, cg, Node(a, p, cp, b)))
    ensures p < |s| && g < |s|
    ensures var r := SetColor(SetColor(s, p, Black), g, Red);
            && r[g].right < |r| && CanRotate(r, g, r[g].right, r[r[g].right].left)
            && Placed(RotatedLeft(r, g), y, Node(Node(u, g, Red, a), p, Black, b)) && SameKeys(s, RotatedLeft(r, g))
            && Whole(y, Node(Node(u, g, Red, a), p, Black, b)) == Whole(y, Node(u, g, cg, Node(a, p, cp, b)))
  {
    var t := Node(u, g, cg, Node(a, p, cp, b));
    HoleNoDup(y, t);
    PaintedTwoLeft(u, g, cg, a, p, cp, b);
    hide Placed, Whole, InOrder, NoDup, WithColor, RotatedLeft, CanRotate;
    RecolorPlaced(s, y, t, p, Black);
    SameNodes(t, p, Black);
    RecolorPlaced(SetColor(s, p, Black), y, WithColor(t, p, Black), g, Red);
    hide SetColor;
    RotateLeftLinks(SetColor(SetColor(s, p, Black), g, Red), y, u, g, Red, a, p, Black, b);
  }

  lemma PaintedTwoLeft(u: Tree, g: nat, cg: Color, a: Tree, p: nat, cp: Color, b: Tree)
    requires NoDup(InOrder(Node(u, g, cg, Node(a, p, cp, b))))
    ensures var t := Node(u, g, cg, Node(a, p, cp, b));
            && p in InOrder(t) && g in InOrder(t)
            && WithColor(WithColor(t, p, Black), g, Red) == Node(u, g, Red, Node(a, p, Black, b))
  {
    var l := Node(a, p, cp, b);
    var t := Node(u, g, cg, l);
    RootElsewhere(t);
    RootElsewhere(l);
    hide NoDup;
    assert InOrder(l) == InOrder(a) + [p] + InOrder(b);
    NotTouched(a, p, p, g);
    NotTouched(b, p, p, g);
    NotTouched(u, p, p, g);
  }

  // ---- Linking a new node, and reading the finished tree ----

  lemma NewWhole(x: Ctx, node: nat)
    requires Distinct(Whole(x, Nil)) && node !in Whole(x, Nil) && node != 0
    ensures Whole(x, Node(Nil, node, Red, Nil)) == Before(x) + [node] + After(x)
    ensures Distinct(Before(x) + [node] + After(x)) && NoDup(Around(x)) && node !in Around(x)
  {
    assert InOrder(Node(Nil, node, Red, Nil)) == [node];
    assert Whole(x, Nil) == Around(x);
    WithMiddle(Before(x), node, After(x));
  }

  lemma WithMiddle(a: seq<nat>, i: nat, b: seq<nat>)
    requires NoDup(a + b) && i !in a + b
    ensures NoDup(a + [i] + b)
  {
    var q, r, m := a + b, a + [i] + b, |a|;
    forall j, k | 0 <= j < k < |r| ensures r[j] != r[k] {
      if j == m {
        assert r[k] == q[k - 1];
      } else if k == m {
        assert r[j] == q[j];
      } else {
        assert r[j] == q[if j < m then j else j - 1] && r[k] == q[if k < m then k else k - 1];
      }
    }
  }

  /** A red leaf linked into an empty hole. */
  lemma LinkNew(s: seq<Dnode>, r: seq<Dnode>, x: Ctx, node: nat)
    requires Placed(s, x, Nil) && |r| == |s| && 0 < node < |s| && node !in Whole(x, Nil)
    requires CtxId(x) < |s| && CtxId(x) != node
    requires r == s[CtxId(x) := if x.InRight? then s[CtxId(x)].(right := node) else s[CtxId(x)].(left := node)]
                   [node := Dnode(0, 0, CtxId(x), Red, s[node].key)]
    ensures Placed(r, x, Node(Nil, node, Red, Nil)) && SameKeys(s, r)
    ensures Whole(x, Node(Nil, node, Red, Nil)) == Before(x) + [node] + After(x)
  {
    NewWhole(x, node);
    CtxIn(x);
    var a := Around(x);
    assert forall i :: i in a ==> i != node;
    assert a == Before(x) + After(x);
    hide Whole, Before, After, NoDup, Around, InOrder;
    UpRehole(s, r, x, 0, node);
    var t := Node(Nil, node, Red, Nil);
    assert Sentinel(r);
    assert Links(r, t, CtxId(x));
    assert Distinct(Whole(x, t));
    assert SameKeys(s, r);
  }

  /** A record outside the tree is free to change. */
  lemma PlacedFrame(s: seq<Dnode>, t: Tree, i: nat, d: Dnode)
    requires Placed(s, Top, t) && 0 < i < |s| && i !in InOrder(t)
    ensures Placed(s[i := d], Top, t)
  {
    LinksFrame(s, s[i := d], t, 0);
  }

  /** The whole tree, once it is put together. */
  lemma PlugPlaced(s: seq<Dnode>, x: Ctx, t: Tree)
    requires Placed(s, x, t)
    ensures Placed(s, Top, Plug(x, t)) && InOrder(Plug(x, t)) == Whole(x, t)
    ensures Whole(Top, Plug(x, t)) == Whole(x, t)
  {
    PlugLinks(s, x, t);
    PlugInOrder(x, t);
  }

  /** Painting the root. */
  lemma BlackenPlaced(s: seq<Dnode>, t: Tree)
    requires Placed(s, Top, t) && t.Node?
    ensures t.id < |s| && Placed(SetColor(s, t.id, Black), Top, Blacken(t)) && SameKeys(s, SetColor(s, t.id, Black))
  {
    assert Whole(Top, t) == InOrder(t);
    RootElsewhere(t);
    RecolorPlaced(s, Top, t, t.id, Black);
    ColorElsewhere(t.l, t.id, Black);
    ColorElsewhere(t.r, t.id, Black);
  }
}
