/** Red-black trees as values: what dict.c's node links stand for, and what insertion does to them. */
module RedBlack {
  import opened Basics

  datatype Color = Red | Black

  /** Nodes are named; a name is what the C code has a pointer to. */
  datatype Tree = Nil | Node(l: Tree, id: nat, c: Color, r: Tree)

  /** A tree with a hole: the way from the hole up to the root. */
  datatype Ctx = Top | InLeft(up: Ctx, id: nat, c: Color, r: Tree) | InRight(l: Tree, id: nat, c: Color, up: Ctx)

  function Plug(x: Ctx, t: Tree): Tree {
    match x
    case Top => t
    case InLeft(up, id, c, r) => Plug(up, Node(t, id, c, r))
    case InRight(l, id, c, up) => Plug(up, Node(l, id, c, t))
  }

  function InOrder(t: Tree): seq<nat> {
    match t
    case Nil => []
    case Node(l, id, _, r) => InOrder(l) + [id] + InOrder(r)
  }

  /** The nodes before and after the hole, in order. */
  function Before(x: Ctx): seq<nat> {
    match x
    case Top => []
    case InLeft(up, _, _, _) => Before(up)
    case InRight(l, id, _, up) => Before(up) + InOrder(l) + [id]
  }

  function After(x: Ctx): seq<nat> {
    match x
    case Top => []
    case InLeft(up, id, _, r) => [id] + InOrder(r) + After(up)
    case InRight(_, _, _, up) => After(up)
  }

  lemma {:induction false} PlugInOrder(x: Ctx, t: Tree)
    ensures InOrder(Plug(x, t)) == Before(x) + InOrder(t) + After(x)
  {
    match x
    case Top =>
    case InLeft(up, id, c, r) =>
      PlugInOrder(up, Node(t, id, c, r));
    case InRight(l, id, c, up) =>
      PlugInOrder(up, Node(l, id, c, t));
  }

  // ---- Colours ----

  function RootColor(t: Tree): Color { if t.Nil? then Black else t.c }

  /** Every path down has h black nodes, counting the sentinel. */
  ghost predicate BlackHeight(t: Tree, h: nat) {
    match t
    case Nil => h == 1
    case Node(l, _, c, r) =>
      h >= 1 && BlackHeight(l, if c.Red? then h else h - 1) && BlackHeight(r, if c.Red? then h else h - 1)
  }

  /** No red node has a red child. */
  ghost predicate NoRedRed(t: Tree) {
    t.Node? ==>
      && NoRedRed(t.l) && NoRedRed(t.r)
      && (t.c.Red? ==> RootColor(t.l).Black? && RootColor(t.r).Black?)
  }

  ghost predicate RedBlackTree(t: Tree) {
    RootColor(t).Black? && NoRedRed(t) && exists h: nat :: BlackHeight(t, h)
  }

  /** verify_redblack: the black height, 0 when the tree is not red-black. */
  function VerifyRedblack(t: Tree): nat {
    if t.Nil? then 1
    else
      var hl, hr := VerifyRedblack(t.l), VerifyRedblack(t.r);
      if hl == 0 || hr == 0 || hl != hr then 0
      else if t.c.Red? then (if RootColor(t.l).Black? && RootColor(t.r).Black? then hl else 0)
      else hl + 1
  }

  /** The recursive check finds exactly the trees with equal black heights and no red-red edge. */
  lemma {:induction false} VerifyDecides(t: Tree, h: nat)
    requires h >= 1
    ensures VerifyRedblack(t) == h <==> NoRedRed(t) && BlackHeight(t, h)
  {
    if t.Node? {
      var k := if t.c.Red? then h else h - 1;
      if k >= 1 {
        VerifyDecides(t.l, k);
        VerifyDecides(t.r, k);
      } else {
        HeightPositive(t.l, k);
      }
    }
  }

  lemma {:induction false} HeightPositive(t: Tree, h: nat)
    ensures BlackHeight(t, h) ==> h >= 1
  {}

  /** The context's colours fit around a hole of black height h: only the edge into the hole may be red-red. */
  ghost predicate CtxOk(x: Ctx, h: nat) {
    match x
    case Top => true
    case InLeft(up, _, c, r) =>
      && NoRedRed(r) && BlackHeight(r, h) && (c.Red? ==> RootColor(r).Black? && CtxColor(up).Black? && up != Top)
      && CtxOk(up, if c.Red? then h else h + 1)
    case InRight(l, _, c, up) =>
      && NoRedRed(l) && BlackHeight(l, h) && (c.Red? ==> RootColor(l).Black? && CtxColor(up).Black? && up != Top)
      && CtxOk(up, if c.Red? then h else h + 1)
  }

  /** The colour of the hole's parent, the sentinel being black. */
  function CtxColor(x: Ctx): Color { if x.Top? then Black else x.c }

  /** A tree in a fitting hole under a black parent makes a red-black tree, up to the root's colour. */
  lemma {:induction false} PlugKeepsColors(x: Ctx, t: Tree, h: nat)
    requires CtxOk(x, h) && NoRedRed(t) && BlackHeight(t, h) && (CtxColor(x).Red? ==> RootColor(t).Black?)
    ensures NoRedRed(Plug(x, t)) && exists k: nat :: BlackHeight(Plug(x, t), k)
    ensures x != Top && CtxRootBlack(x) ==> RootColor(Plug(x, t)).Black?
  {
    match x
    case Top =>
      assert BlackHeight(t, h);
    case InLeft(up, id, c, r) =>
      PlugKeepsColors(up, Node(t, id, c, r), if c.Red? then h else h + 1);
    case InRight(l, id, c, up) =>
      PlugKeepsColors(up, Node(l, id, c, t), if c.Red? then h else h + 1);
  }

  /** The root of the context, if there is one, is black. */
  function CtxRootBlack(x: Ctx): bool {
    match x
    case Top => true
    case InLeft(up, _, c, _) => if up.Top? then c.Black? else CtxRootBlack(up)
    case InRight(_, _, c, up) => if up.Top? then c.Black? else CtxRootBlack(up)
  }

  /** Going down from the root of a red-black tree, the way back up is a fitting context. */
  lemma DownLeft(x: Ctx, t: Tree, h: nat)
    requires t.Node? && CtxOk(x, h) && NoRedRed(t) && BlackHeight(t, h) && (CtxColor(x).Red? || x == Top ==> t.c.Black?)
    ensures var y, k := InLeft(x, t.id, t.c, t.r), if t.c.Red? then h else h - 1;
            && Plug(y, t.l) == Plug(x, t) && CtxOk(y, k) && NoRedRed(t.l) && BlackHeight(t.l, k)
            && (CtxColor(y).Red? ==> RootColor(t.l).Black?)
  {}

  lemma DownRight(x: Ctx, t: Tree, h: nat)
    requires t.Node? && CtxOk(x, h) && NoRedRed(t) && BlackHeight(t, h) && (CtxColor(x).Red? || x == Top ==> t.c.Black?)
    ensures var y, k := InRight(t.l, t.id, t.c, x), if t.c.Red? then h else h - 1;
            && Plug(y, t.r) == Plug(x, t) && CtxOk(y, k) && NoRedRed(t.r) && BlackHeight(t.r, k)
            && (CtxColor(y).Red? ==> RootColor(t.r).Black?)
  {}

  /** Context and tree fit: together they are a red-black tree, up to the root's colour. */
  ghost predicate Fits(x: Ctx, t: Tree, h: nat) {
    CtxOk(x, h) && NoRedRed(t) && BlackHeight(t, h) && (CtxColor(x).Red? ==> RootColor(t).Black?)
  }

  /** Painting the root black settles it. */
  lemma FittedBlackened(x: Ctx, t: Tree, h: nat)
    requires Fits(x, t, h)
    ensures RedBlackTree(Blacken(Plug(x, t))) && InOrder(Blacken(Plug(x, t))) == Before(x) + InOrder(t) + After(x)
  {
    PlugKeepsColors(x, t, h);
    PlugInOrder(x, t);
    var p := Plug(x, t);
    hide InOrder, Plug, CtxOk;
    assert InOrder(Blacken(p)) == InOrder(p) by { SameOrder(p); }
    var k: nat :| BlackHeight(p, k);
    assert BlackHeight(Blacken(p), if RootColor(p).Red? then k + 1 else k);
  }

  lemma SameOrder(t: Tree)
    ensures InOrder(Blacken(t)) == InOrder(t)
  {}

  // ---- Repairing a red-red edge ----

  /** A red root without red children, over a fitting context: the loop's situation. */
  ghost predicate RedFocus(x: Ctx, t: Tree, h: nat) {
    t.Node? && t.c.Red? && NoRedRed(t) && BlackHeight(t, h) && CtxOk(x, h)
  }

  /** The hole has a parent and a grandparent. */
  predicate Deep(x: Ctx) { x != Top && x.up != Top }

  /** The other child of the hole's grandparent. */
  function Uncle(x: Ctx): Tree
    requires Deep(x)
  {
    if x.up.InLeft? then x.up.r else x.up.l
  }

  /** The frame nearest the hole closed over t, in colour c. */
  function Close(x: Ctx, t: Tree, c: Color): Tree
    requires x != Top
  {
    if x.InLeft? then Node(t, x.id, c, x.r) else Node(x.l, x.id, c, t)
  }

  /** The frame with another tree on its other side. */
  function WithOther(x: Ctx, other: Tree): Ctx
    requires x != Top
  {
    if x.InLeft? then x.(r := other) else x.(l := other)
  }

  function Blacken(t: Tree): Tree { if t.Nil? then t else t.(c := Black) }

  /** Red parent and red uncle turn black, the grandparent red. */
  function Recolored(x: Ctx, t: Tree): Tree
    requires Deep(x)
  {
    Close(WithOther(x.up, Blacken(Uncle(x))), Close(x, t, Black), Red)
  }

  /** Then the trouble is two levels up. */
  lemma RecoloredFocus(x: Ctx, t: Tree, h: nat)
    requires RedFocus(x, t, h) && Deep(x) && x.c.Red? && RootColor(Uncle(x)).Red?
    ensures RedFocus(x.up.up, Recolored(x, t), h + 1)
    ensures Before(x) + InOrder(t) + After(x) == Before(x.up.up) + InOrder(Recolored(x, t)) + After(x.up.up)
  {
    TwoFrames(x, h);
    var p, q := Close(x, t, Black), Blacken(Uncle(x));
    assert NoRedRed(p) && BlackHeight(p, h + 1) && NoRedRed(q) && BlackHeight(q, h + 1);
    CloseOrder(x, t, Black);
    CloseOrder(WithOther(x.up, q), p, Red);
    assert InOrder(q) == InOrder(Uncle(x));
  }

  /** Under a red frame comes a black one, and the uncle is as high as the hole. */
  lemma TwoFrames(x: Ctx, h: nat)
    requires CtxOk(x, h) && Deep(x) && x.c.Red?
    ensures x.up.c.Black? && CtxOk(x.up, h) && CtxOk(x.up.up, h + 1)
    ensures NoRedRed(Uncle(x)) && BlackHeight(Uncle(x), h)
    ensures var sib := if x.InLeft? then x.r else x.l; NoRedRed(sib) && BlackHeight(sib, h) && RootColor(sib).Black?
  {}

  lemma CloseOrder(x: Ctx, t: Tree, c: Color)
    requires x != Top
    ensures Before(x) + InOrder(t) + After(x) == Before(x.up) + InOrder(Close(x, t, c)) + After(x.up)
  {}

  /** Red parent and black uncle: a black node with two red children in the grandparent's place. */
  function Rotated(x: Ctx, t: Tree): Tree
    requires Deep(x) && t.Node?
  {
    if x.up.InLeft? then
      if x.InLeft? then Node(t, x.id, Black, Node(x.r, x.up.id, Red, x.up.r))
      else Node(Node(x.l, x.id, Red, t.l), t.id, Black, Node(t.r, x.up.id, Red, x.up.r))
    else
      if x.InRight? then Node(Node(x.up.l, x.up.id, Red, x.l), x.id, Black, t)
      else Node(Node(x.up.l, x.up.id, Red, t.l), t.id, Black, Node(t.r, x.id, Red, x.r))
  }

  lemma RotatedFits(x: Ctx, t: Tree, h: nat)
    requires RedFocus(x, t, h) && Deep(x) && x.c.Red? && RootColor(Uncle(x)).Black?
    ensures CtxOk(x.up.up, h + 1)
    ensures NoRedRed(Rotated(x, t)) && BlackHeight(Rotated(x, t), h + 1) && RootColor(Rotated(x, t)).Black?
    ensures Before(x) + InOrder(t) + After(x) == Before(x.up.up) + InOrder(Rotated(x, t)) + After(x.up.up)
  {
    TwoFrames(x, h);
    CloseOrder(x, t, Red);
    CloseOrder(x.up, Close(x, t, Red), Black);
    var u := Rotated(x, t);
    assert NoRedRed(u.l) && NoRedRed(u.r) && BlackHeight(u.l, h) && BlackHeight(u.r, h);
    RotationOrder(x, t);
  }

  lemma RotationOrder(x: Ctx, t: Tree)
    requires Deep(x) && t.Node?
    ensures InOrder(Rotated(x, t)) == InOrder(Close(x.up, Close(x, t, Red), Black))
  {
    var g := x.up.id;
    if x.up.InLeft? {
      if x.InLeft? {
        RotateOrder(t, x.id, x.r, g, x.up.r, Red, Black, Red, Black);
      } else {
        RotateOrder(x.l, x.id, t.l, t.id, t.r, Red, Red, t.c, Red);
        RotateOrder(Node(x.l, x.id, Red, t.l), t.id, t.r, g, x.up.r, Red, Black, Red, Black);
      }
    } else {
      if x.InRight? {
        RotateOrder(x.up.l, g, x.l, x.id, t, Red, Black, Red, Black);
      } else {
        RotateOrder(t.l, t.id, t.r, x.id, x.r, t.c, Red, Red, Red);
        RotateOrder(x.up.l, g, t.l, t.id, Node(t.r, x.id, Red, x.r), Red, Black, Red, Black);
      }
    }
  }

  /** A rotation, whatever the colours, keeps the order. */
  lemma RotateOrder(a: Tree, u: nat, b: Tree, w: nat, d: Tree, c1: Color, c2: Color, c3: Color, c4: Color)
    ensures InOrder(Node(Node(a, u, c1, b), w, c2, d)) == InOrder(Node(a, u, c4, Node(b, w, c3, d)))
  {}
}
