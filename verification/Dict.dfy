/** The red-black dictionary of f2fs-tools' dict.c: insertion, lookup and in-order traversal. */
module Dict {
  import opened Basics
  import opened RedBlack
  import opened DictLinks

  /** Keys never fall along the order; without duplicates they rise. */
  ghost predicate KeysOrdered(s: seq<Dnode>, q: seq<nat>, dupes: bool) {
    && (forall i :: 0 <= i < |q| ==> q[i] < |s|)
    && forall i, j :: 0 <= i < j < |q| ==> s[q[i]].key <= s[q[j]].key && (dupes || s[q[i]].key != s[q[j]].key)
  }

  /** A place in the order where `key` may go: nothing greater before it, only greater keys after it. */
  ghost predicate Divides(s: seq<Dnode>, before: seq<nat>, after: seq<nat>, key: int) {
    && (forall i :: 0 <= i < |before| ==> before[i] < |s| && s[before[i]].key <= key)
    && forall i :: 0 <= i < |after| ==> after[i] < |s| && key < s[after[i]].key
  }

  lemma InsertedOrdered(s: seq<Dnode>, before: seq<nat>, after: seq<nat>, node: nat, dupes: bool)
    requires KeysOrdered(s, before + after, dupes) && node < |s| && Divides(s, before, after, s[node].key)
    requires !dupes ==> forall i :: 0 <= i < |before| ==> s[before[i]].key != s[node].key
    ensures KeysOrdered(s, before + [node] + after, dupes)
  {
    var q, r, m := before + after, before + [node] + after, |before|;
    forall i, j | 0 <= i < j < |r| ensures s[r[i]].key <= s[r[j]].key && (dupes || s[r[i]].key != s[r[j]].key) {
      if i == m {
        assert r[j] == after[j - m - 1];
      } else if j == m {
        assert r[i] == before[i];
      } else {
        var u, v := if i < m then i else i - 1, if j < m then j else j - 1;
        assert r[i] == q[u] && r[j] == q[v];
      }
    }
  }

  lemma OrderedSame(s: seq<Dnode>, r: seq<Dnode>, q: seq<nat>, dupes: bool)
    requires KeysOrdered(s, q, dupes) && |r| == |s| && forall i :: 0 <= i < |q| ==> r[q[i]].key == s[q[i]].key
    ensures KeysOrdered(r, q, dupes)
  {}

  lemma DividesSame(s: seq<Dnode>, r: seq<Dnode>, a: seq<nat>, b: seq<nat>, key: int)
    requires Divides(s, a, b, key) && SameKeys(s, r)
    ensures Divides(r, a, b, key)
  {}

  /** Going left at a node with a greater key. */
  lemma DivideLeft(s: seq<Dnode>, a: seq<nat>, l: seq<nat>, i: nat, r: seq<nat>, b: seq<nat>, key: int, dupes: bool)
    requires KeysOrdered(s, a + (l + [i] + r) + b, dupes) && Divides(s, a, b, key) && i < |s| && key < s[i].key
    ensures Divides(s, a, [i] + r + b, key)
  {
    var q, c := a + (l + [i] + r) + b, [i] + r + b;
    var m := |a| + |l|;
    forall k | 0 <= k < |c| ensures c[k] < |s| && key < s[c[k]].key {
      assert c[k] == q[m + k] && q[m] == i;
    }
  }

  /** Going right at a node with a key not greater. */
  lemma DivideRight(s: seq<Dnode>, a: seq<nat>, l: seq<nat>, i: nat, r: seq<nat>, b: seq<nat>, key: int, dupes: bool)
    requires KeysOrdered(s, a + (l + [i] + r) + b, dupes) && Divides(s, a, b, key) && i < |s| && s[i].key <= key
    ensures Divides(s, a + l + [i], b, key)
  {
    var q, c := a + (l + [i] + r) + b, a + l + [i];
    var m := |a| + |l|;
    forall k | 0 <= k < |c| ensures c[k] < |s| && s[c[k]].key <= key {
      assert c[k] == q[k] && q[m] == i;
    }
  }

  /** One step down from a placed subtree, to the left. */
  lemma StepLeft(s: seq<Dnode>, x: Ctx, t: Tree, key: int, dupes: bool)
    requires Placed(s, x, t) && t.Node? && KeysOrdered(s, Whole(x, t), dupes) && Divides(s, Before(x), After(x), key)
    requires t.id < |s| && key < s[t.id].key
    ensures var y := InLeft(x, t.id, t.c, t.r);
            && Placed(s, y, t.l) && Whole(y, t.l) == Whole(x, t) && Divides(s, Before(y), After(y), key)
  {
    var y := InLeft(x, t.id, t.c, t.r);
    CloseLinks(s, y, t.l);
    CloseWhole(y, t.l, t.c);
    DivideLeft(s, Before(x), InOrder(t.l), t.id, InOrder(t.r), After(x), key, dupes);
  }

  lemma StepRight(s: seq<Dnode>, x: Ctx, t: Tree, key: int, dupes: bool)
    requires Placed(s, x, t) && t.Node? && KeysOrdered(s, Whole(x, t), dupes) && Divides(s, Before(x), After(x), key)
    requires t.id < |s| && s[t.id].key <= key
    ensures var y := InRight(t.l, t.id, t.c, x);
            && Placed(s, y, t.r) && Whole(y, t.r) == Whole(x, t) && Divides(s, Before(y), After(y), key)
  {
    var y := InRight(t.l, t.id, t.c, x);
    CloseLinks(s, y, t.r);
    CloseWhole(y, t.r, t.c);
    DivideRight(s, Before(x), InOrder(t.l), t.id, InOrder(t.r), After(x), key, dupes);
  }

  lemma TopFits(t: Tree) returns (h: nat)
    requires RedBlackTree(t)
    ensures Fits(Top, t, h) && RootColor(t).Black?
  {
    h :| BlackHeight(t, h);
  }

  lemma WholeTop(t: Tree)
    ensures Whole(Top, t) == InOrder(t)
  {}

  lemma WholeNil(x: Ctx)
    ensures Whole(x, Nil) == Before(x) + After(x)
  {}

  lemma EmptyDivides(s: seq<Dnode>, key: int)
    ensures Divides(s, Before(Top), After(Top), key)
  {}

  /** What the record at the top of a placed subtree holds. */
  lemma RootAt(s: seq<Dnode>, x: Ctx, t: Tree)
    requires Placed(s, x, t)
    ensures |s| > 0 && (x == Top ==> s[0].left == RootId(t)) && (RootId(t) == 0 <==> t.Nil?)
    ensures t.Node? ==> t.id < |s| && s[t.id].left == RootId(t.l) && s[t.id].right == RootId(t.r)
  {}

  lemma ParentAt(s: seq<Dnode>, x: Ctx, t: Tree)
    requires Placed(s, x, t) && t.Node?
    ensures t.id < |s| && s[t.id].parent == CtxId(x)
  {}

  /** A key outside the order is free to change. */
  lemma OrderedFrame(s: seq<Dnode>, r: seq<Dnode>, q: seq<nat>, dupes: bool, i: nat)
    requires KeysOrdered(s, q, dupes) && i !in q && |r| == |s| && forall k :: 0 <= k < |s| && k != i ==> r[k] == s[k]
    ensures KeysOrdered(r, q, dupes)
  {}

  lemma CtxAt(s: seq<Dnode>, x: Ctx, t: Tree)
    requires Placed(s, x, t)
    ensures CtxId(x) < |s| && (CtxId(x) == 0 || CtxId(x) in Before(x) + After(x))
  {
    CtxIn(x);
  }

  lemma WholeIs(x: Ctx, t: Tree)
    ensures Whole(x, t) == Before(x) + InOrder(t) + After(x)
  {}

  /** A new red leaf is the repair loop's first situation. */
  lemma NewFocus(x: Ctx, node: nat, h: nat)
    requires Fits(x, Nil, h)
    ensures RedFocus(x, Node(Nil, node, Red, Nil), h)
  {}

  /** Relinking and painting leave the keys alone, and the new node where it belongs. */
  lemma InsertedKeys(keyed: seq<Dnode>, linked: seq<Dnode>, repaired: seq<Dnode>, s: seq<Dnode>,
                     before: seq<nat>, after: seq<nat>, node: nat, dupes: bool)
    requires SameKeys(keyed, linked) && SameKeys(linked, repaired) && SameKeys(repaired, s)
    requires KeysOrdered(keyed, before + after, dupes) && node < |keyed| && Divides(keyed, before, after, keyed[node].key)
    requires dupes || forall i :: 0 <= i < |before + after| ==> keyed[(before + after)[i]].key != keyed[node].key
    ensures KeysOrdered(s, before + [node] + after, dupes) && Divides(s, before, after, keyed[node].key)
    ensures |s| == |keyed| && forall i :: 0 <= i < |s| ==> s[i].key == keyed[i].key
  {
    OrderedSame(keyed, s, before + after, dupes);
    DividesSame(keyed, s, before, after, keyed[node].key);
    assert forall i :: 0 <= i < |before| ==> before[i] == (before + after)[i];
    InsertedOrdered(s, before, after, node, dupes);
  }

  lemma TopLacks(s: seq<Dnode>, key: int)
    ensures Lacks(s, Before(Top), key) && Lacks(s, After(Top), key)
  {}

  lemma LacksIsFirst(s: seq<Dnode>, q: seq<nat>, key: int)
    requires Lacks(s, q, key)
    ensures IsFirstWith(s, q, key, 0)
  {}

  lemma NextIsFirst(x: Ctx, t: Tree)
    requires t.Node? && t.l.Nil? && Before(x) == []
    ensures |Whole(x, t)| > 0 && Whole(x, t)[0] == t.id
  {
    assert InOrder(t) == [t.id] + InOrder(t.r);
  }

  lemma FitsLeft(x: Ctx, t: Tree, h: nat)
    requires Fits(x, t, h) && t.Node? && (x == Top ==> t.c.Black?)
    ensures t.c.Red? || h >= 1
    ensures Fits(InLeft(x, t.id, t.c, t.r), t.l, if t.c.Red? then h else h - 1)
  {
    DownLeft(x, t, h);
  }

  lemma FitsRight(x: Ctx, t: Tree, h: nat)
    requires Fits(x, t, h) && t.Node? && (x == Top ==> t.c.Black?)
    ensures t.c.Red? || h >= 1
    ensures Fits(InRight(t.l, t.id, t.c, x), t.r, if t.c.Red? then h else h - 1)
  {
    DownRight(x, t, h);
  }

  lemma RedIsDeep(x: Ctx, h: nat)
    requires CtxOk(x, h) && CtxColor(x).Red?
    ensures Deep(x)
  {}

  lemma {:induction false} PlugNode(x: Ctx, t: Tree)
    requires t.Node?
    ensures Plug(x, t).Node?
  {
    if x != Top { PlugNode(x.up, Close(x, t, x.c)); }
  }

  // ---- Searching ----

  ghost predicate Lacks(s: seq<Dnode>, q: seq<nat>, key: int) {
    forall i :: 0 <= i < |q| ==> q[i] < |s| && s[q[i]].key != key
  }

  /** r is the first address in q with this key, or 0 when no address has it. */
  ghost predicate IsFirstWith(s: seq<Dnode>, q: seq<nat>, key: int, r: nat) {
    if r == 0 then Lacks(s, q, key)
    else r < |s| && s[r].key == key && exists k :: 0 <= k < |q| && q[k] == r && Lacks(s, q[..k], key)
  }

  lemma FirstAt(s: seq<Dnode>, a: seq<nat>, i: nat, b: seq<nat>, key: int)
    requires Lacks(s, a, key) && 0 < i < |s| && s[i].key == key
    ensures IsFirstWith(s, a + [i] + b, key, i)
  {
    var q := a + [i] + b;
    assert q[|a|] == i && q[..|a|] == a;
  }

  lemma LacksBoth(s: seq<Dnode>, a: seq<nat>, b: seq<nat>, key: int)
    requires Lacks(s, a, key) && Lacks(s, b, key)
    ensures Lacks(s, a + b, key)
  {}

  /** Where the key at i is greater, nothing from i on has the key; where it is smaller, nothing up to i. */
  lemma LacksBeyond(s: seq<Dnode>, a: seq<nat>, l: seq<nat>, i: nat, r: seq<nat>, b: seq<nat>, key: int, dupes: bool)
    requires KeysOrdered(s, a + (l + [i] + r) + b, dupes) && i < |s|
    ensures key < s[i].key ==> Lacks(s, [i] + r + b, key)
    ensures s[i].key < key ==> Lacks(s, a + l + [i], key)
    ensures s[i].key == key && !dupes ==> Lacks(s, a + l, key)
  {
    var q, m := a + (l + [i] + r) + b, |a| + |l|;
    assert q[m] == i;
    forall k | 0 <= k < |[i] + r + b| && key < s[i].key
      ensures ([i] + r + b)[k] < |s| && s[([i] + r + b)[k]].key != key
    {
      assert ([i] + r + b)[k] == q[m + k];
    }
    forall k | 0 <= k < |a + l + [i]| && s[i].key < key
      ensures (a + l + [i])[k] < |s| && s[(a + l + [i])[k]].key != key
    {
      assert (a + l + [i])[k] == q[k];
    }
    forall k | 0 <= k < |a + l| && s[i].key == key && !dupes
      ensures (a + l)[k] < |s| && s[(a + l)[k]].key != key
    {
      assert (a + l)[k] == q[k];
    }
  }

  /** What a comparison at a placed node tells, and the two ways on from it. */
  lemma SearchAt(s: seq<Dnode>, x: Ctx, t: Tree, key: int, dupes: bool)
    requires Placed(s, x, t) && t.Node? && KeysOrdered(s, Whole(x, t), dupes)
    ensures t.id < |s| && t.id != 0
    ensures var y := InLeft(x, t.id, t.c, t.r);
            && Placed(s, y, t.l) && Whole(y, t.l) == Whole(x, t) && Before(y) == Before(x)
            && After(y) == [t.id] + InOrder(t.r) + After(x)
            && (key < s[t.id].key ==> Lacks(s, After(y), key))
    ensures var y := InRight(t.l, t.id, t.c, x);
            && Placed(s, y, t.r) && Whole(y, t.r) == Whole(x, t) && After(y) == After(x)
            && Before(y) == Before(x) + InOrder(t.l) + [t.id]
            && (s[t.id].key < key ==> Lacks(s, Before(y), key))
    ensures s[t.id].key == key && !dupes ==> IsFirstWith(s, Whole(x, t), key, t.id)
  {
    Children(s, x, t);
    RootAt(s, x, t);
    hide Placed, Lacks, KeysOrdered, IsFirstWith;
    LacksBeyond(s, Before(x), InOrder(t.l), t.id, InOrder(t.r), After(x), key, dupes);
    if s[t.id].key == key && !dupes {
      FirstAt(s, Before(x) + InOrder(t.l), t.id, InOrder(t.r) + After(x), key);
      assert Whole(x, t) == (Before(x) + InOrder(t.l)) + [t.id] + (InOrder(t.r) + After(x));
    }
  }

  /** Left of a node with the key and unequal to it means smaller. */
  lemma SmallerBefore(s: seq<Dnode>, x: Ctx, t: Tree, saved: nat, key: int, dupes: bool)
    requires KeysOrdered(s, Whole(x, t), dupes) && t.Node? && After(x) != [] && After(x)[0] == saved
    ensures t.id < |s| && saved < |s| && s[t.id].key <= s[saved].key
  {
    var a, l, r, b := Before(x), InOrder(t.l), InOrder(t.r), After(x);
    var q := Whole(x, t);
    assert q == a + (l + [t.id] + r) + b;
    assert q[|a| + |l|] == t.id && q[|a| + |l| + 1 + |r|] == saved;
  }

  lemma FoundLeftmost(s: seq<Dnode>, x: Ctx, saved: nat, key: int)
    requires Lacks(s, Before(x), key) && After(x) != [] && After(x)[0] == saved && 0 < saved < |s| && s[saved].key == key
    ensures IsFirstWith(s, Whole(x, Nil), key, saved)
  {
    FirstAt(s, Before(x), saved, After(x)[1..], key);
    assert Whole(x, Nil) == Before(x) + [saved] + After(x)[1..];
  }

  /** The node `i` of a placed tree, in its own context. */
  lemma {:induction false} Locate(s: seq<Dnode>, x: Ctx, t: Tree, i: nat) returns (y: Ctx, u: Tree)
    requires Placed(s, x, t) && i in InOrder(t)
    ensures Placed(s, y, u) && u.Node? && u.id == i && Whole(y, u) == Whole(x, t)
    decreases t
  {
    Children(s, x, t);
    hide Placed, Whole;
    if i == t.id {
      y, u := x, t;
    } else if i in InOrder(t.l) {
      y, u := Locate(s, InLeft(x, t.id, t.c, t.r), t.l, i);
    } else {
      y, u := Locate(s, InRight(t.l, t.id, t.c, x), t.r, i);
    }
  }

  /** The two children of a placed node, each placed in its turn. */
  lemma Children(s: seq<Dnode>, x: Ctx, t: Tree)
    requires Placed(s, x, t) && t.Node?
    ensures var y := InLeft(x, t.id, t.c, t.r); Placed(s, y, t.l) && Whole(y, t.l) == Whole(x, t)
    ensures var y := InRight(t.l, t.id, t.c, x); Placed(s, y, t.r) && Whole(y, t.r) == Whole(x, t)
  {
    var y, z := InLeft(x, t.id, t.c, t.r), InRight(t.l, t.id, t.c, x);
    CloseLinks(s, y, t.l);
    CloseWhole(y, t.l, t.c);
    CloseLinks(s, z, t.r);
    CloseWhole(z, t.r, t.c);
  }

  /** r follows i in the order, or i is last and r is 0. */
  ghost predicate IsNext(q: seq<nat>, i: nat, r: nat) {
    exists k :: 0 <= k < |q| && q[k] == i && r == if k + 1 < |q| then q[k + 1] else 0
  }

  lemma NextAt(q: seq<nat>, k: nat)
    requires k < |q|
    ensures IsNext(q, q[k], if k + 1 < |q| then q[k + 1] else 0)
  {}

  /** With nothing to the right the next node is the first one after the hole. */
  lemma NextIsAfter(x: Ctx, t: Tree)
    requires t.Node? && t.r.Nil?
    ensures IsNext(Whole(x, t), t.id, if After(x) == [] then 0 else After(x)[0])
  {
    var q, k := Whole(x, t), |Before(x)| + |InOrder(t.l)|;
    assert InOrder(t.r) == [];
    assert InOrder(t) == InOrder(t.l) + [t.id];
    assert q == Before(x) + InOrder(t.l) + [t.id] + After(x);
    NextAt(q, k);
  }

  /** A node with no left child comes right after what is before its subtree. */
  lemma NextIsLeftmost(x: Ctx, t: Tree, i: nat, before: seq<nat>)
    requires t.Node? && t.l.Nil? && Before(x) == before + [i]
    ensures IsNext(Whole(x, t), i, t.id)
  {
    var q, k := Whole(x, t), |before|;
    assert InOrder(t.l) == [];
    assert InOrder(t) == [t.id] + InOrder(t.r);
    assert q == before + [i] + ([t.id] + InOrder(t.r)) + After(x);
    assert q[k] == i && q[k + 1] == t.id;
  }

  class Dict {
    const nodes: array<Dnode>   // all nodes by address; 0 is nilnode
    var nodecount: nat
    const maxcount: nat
    const dupes: bool
    ghost var tree: Tree

    ghost predicate Valid()
      reads this, nodes
    {
      && Placed(nodes[..], Top, tree) && RedBlackTree(tree)
      && KeysOrdered(nodes[..], Order(), dupes) && nodecount == |Order()| <= maxcount
    }

    /** The nodes in key order. */
    ghost function Order(): seq<nat>
      reads this
    {
      InOrder(tree)
    }

    /** dict_verify's colour checks pass. */
    lemma PassesVerify()
      requires Valid()
      ensures RootColor(tree).Black? && VerifyRedblack(tree) >= 1 && NoDup(Order()) && 0 !in Order()
    {
      var h: nat :| BlackHeight(tree, h);
      HeightPositive(tree, h);
      VerifyDecides(tree, h);
      WholeTop(tree);
    }

    /** dict_init; node memory is given by its size. */
    constructor (memory: nat, max: nat, allowDupes: bool)
      ensures Valid() && Order() == [] && nodes.Length == memory + 1 && maxcount == max && dupes == allowDupes
      ensures fresh(nodes)
    {
      nodes := new Dnode[memory + 1](_ => Dnode(0, 0, 0, Black, 0));
      nodecount, maxcount, dupes, tree := 0, max, allowDupes, Nil;
      new;
      assert BlackHeight(Nil, 1);
    }

    /** rotate_left */
    method RotateLeft(upper: nat)
      requires upper < nodes.Length && nodes[upper].right < nodes.Length
      requires CanRotate(nodes[..], upper, nodes[upper].right, nodes[nodes[upper].right].left)
      modifies nodes
      ensures nodes[..] == RotatedLeft(old(nodes[..]), upper)
    {
      var lower := nodes[upper].right;
      var lowleft := nodes[lower].left;
      nodes[upper] := nodes[upper].(right := lowleft);
      nodes[lowleft] := nodes[lowleft].(parent := upper);
      var upparent := nodes[upper].parent;
      nodes[lower] := nodes[lower].(parent := upparent);
      if upper == nodes[upparent].left {
        nodes[upparent] := nodes[upparent].(left := lower);
      } else {
        nodes[upparent] := nodes[upparent].(right := lower);
      }
      nodes[lower] := nodes[lower].(left := upper);
      nodes[upper] := nodes[upper].(parent := lower);
    }

    /** rotate_right */
    method RotateRight(upper: nat)
      requires upper < nodes.Length && nodes[upper].left < nodes.Length
      requires CanRotate(nodes[..], upper, nodes[upper].left, nodes[nodes[upper].left].right)
      modifies nodes
      ensures nodes[..] == RotatedRight(old(nodes[..]), upper)
    {
      var lower := nodes[upper].left;
      var lowright := nodes[lower].right;
      nodes[upper] := nodes[upper].(left := lowright);
      nodes[lowright] := nodes[lowright].(parent := upper);
      var upparent := nodes[upper].parent;
      nodes[lower] := nodes[lower].(parent := upparent);
      if upper == nodes[upparent].right {
        nodes[upparent] := nodes[upparent].(right := lower);
      } else {
        nodes[upparent] := nodes[upparent].(left := lower);
      }
      nodes[lower] := nodes[lower].(right := upper);
      nodes[upper] := nodes[upper].(parent := lower);
    }

    method Paint(i: nat, c: Color)
      requires i < nodes.Length
      modifies nodes
      ensures nodes[..] == SetColor(old(nodes[..]), i, c)
    {
      nodes[i] := nodes[i].(color := c);
    }

    /** The black-uncle branch when the parent is a left child. */
    method FixLeft(node: nat, parent: nat, grandpa: nat, ghost x: Ctx, ghost t: Tree)
      requires Placed(nodes[..], x, t) && t.Node? && Deep(x) && x.up.InLeft? && x.c.Red?
      requires node == t.id && parent == x.id && grandpa == x.up.id
      modifies nodes
      ensures Placed(nodes[..], x.up.up, Rotated(x, t)) && SameKeys(old(nodes[..]), nodes[..])
      ensures Whole(x.up.up, Rotated(x, t)) == Whole(x, t)
    {
      hide Placed, Whole, RotatedLeft, RotatedRight, CanRotate, SetColor, InOrder;
      ghost var s, y := nodes[..], x.up.up;
      FamilyView(s, x, t);
      PlacedUp(s, x, t);
      var p := parent;
      if node == nodes[parent].right {
        RotateLeftLinks(s, x.up, x.l, x.id, x.c, t.l, t.id, t.c, t.r);
        RotateLeft(parent);
        p := node;
        ghost var n := Node(Node(x.l, x.id, x.c, t.l), t.id, t.c, t.r);
        PlacedUp(nodes[..], x.up, n);
        FinishRight(nodes[..], y, n.l, n.id, n.c, n.r, x.up.id, x.up.c, x.up.r);
      } else {
        ghost var n := Close(x, t, x.c);
        PlacedUp(nodes[..], x.up, n);
        FinishRight(nodes[..], y, n.l, n.id, n.c, n.r, x.up.id, x.up.c, x.up.r);
      }
      Paint(p, Black);
      Paint(grandpa, Red);
      RotateRight(grandpa);
    }

    /** The black-uncle branch when the parent is a right child. */
    method FixRight(node: nat, parent: nat, grandpa: nat, ghost x: Ctx, ghost t: Tree)
      requires Placed(nodes[..], x, t) && t.Node? && Deep(x) && x.up.InRight? && x.c.Red?
      requires node == t.id && parent == x.id && grandpa == x.up.id
      modifies nodes
      ensures Placed(nodes[..], x.up.up, Rotated(x, t)) && SameKeys(old(nodes[..]), nodes[..])
      ensures Whole(x.up.up, Rotated(x, t)) == Whole(x, t)
    {
      hide Placed, Whole, RotatedLeft, RotatedRight, CanRotate, SetColor, InOrder;
      ghost var s, y := nodes[..], x.up.up;
      FamilyView(s, x, t);
      PlacedUp(s, x, t);
      var p := parent;
      if node == nodes[parent].left {
        RotateRightLinks(s, x.up, t.l, t.id, t.c, t.r, x.id, x.c, x.r);
        RotateRight(parent);
        p := node;
        ghost var n := Node(t.l, t.id, t.c, Node(t.r, x.id, x.c, x.r));
        PlacedUp(nodes[..], x.up, n);
        FinishLeft(nodes[..], y, x.up.l, x.up.id, x.up.c, n.l, n.id, n.c, n.r);
      } else {
        ghost var n := Close(x, t, x.c);
        PlacedUp(nodes[..], x.up, n);
        FinishLeft(nodes[..], y, x.up.l, x.up.id, x.up.c, n.l, n.id, n.c, n.r);
      }
      Paint(p, Black);
      Paint(grandpa, Red);
      RotateLeft(grandpa);
    }

    /** Where a new key goes: the empty place after the last key not greater. */
    method Descend(key: int) returns (parent: nat, left: bool, ghost x: Ctx, ghost h: nat)
      requires Valid()
      requires dupes || forall i :: 0 <= i < |Order()| ==> nodes[Order()[i]].key != key
      ensures Placed(nodes[..], x, Nil) && Fits(x, Nil, h) && Before(x) + After(x) == Order()
      ensures parent == CtxId(x) && (left <==> !x.InRight?) && Divides(nodes[..], Before(x), After(x), key)
    {
      hide Placed, RedBlackTree, CtxOk, NoRedRed, BlackHeight, KeysOrdered, Divides, Before, After, InOrder;
      ghost var s, t := nodes[..], tree;
      x := Top;
      h := TopFits(tree);
      WholeTop(tree);
      EmptyDivides(s, key);
      RootAt(s, Top, tree);
      var where := nodes[0].left;
      parent, left := 0, true;
      while where != 0
        invariant Placed(s, x, t) && where == RootId(t) && parent == CtxId(x) && (left <==> !x.InRight?)
        invariant Fits(x, t, h) && (x == Top ==> RootColor(t).Black?)
        invariant Whole(x, t) == Order() && Divides(s, Before(x), After(x), key)
        decreases t
      {
        RootAt(s, x, t);
        parent := where;
        if key < nodes[where].key {
          StepLeft(s, x, t, key, dupes);
          FitsLeft(x, t, h);
          left, where := true, nodes[where].left;
          x, t, h := InLeft(x, t.id, t.c, t.r), t.l, if t.c.Red? then h else h - 1;
        } else {
          StepRight(s, x, t, key, dupes);
          FitsRight(x, t, h);
          left, where := false, nodes[where].right;
          x, t, h := InRight(t.l, t.id, t.c, x), t.r, if t.c.Red? then h else h - 1;
        }
      }
      RootAt(s, x, t);
      WholeNil(x);
    }

    /** The red-uncle branch: the trouble is at the grandparent afterwards. */
    method PaintFamily(parent: nat, uncle: nat, grandpa: nat, ghost x: Ctx, ghost t: Tree)
      requires Placed(nodes[..], x, t) && t.Node? && Deep(x) && Uncle(x).Node?
      requires parent == x.id && uncle == Uncle(x).id && grandpa == x.up.id
      modifies nodes
      ensures Placed(nodes[..], x.up.up, Recolored(x, t)) && SameKeys(old(nodes[..]), nodes[..])
      ensures Whole(x.up.up, Recolored(x, t)) == Whole(x, t) && Recolored(x, t).Node? && Recolored(x, t).id == grandpa
      ensures grandpa < nodes.Length && nodes[grandpa].parent == CtxId(x.up.up) < nodes.Length
      ensures nodes[CtxId(x.up.up)].color == CtxColor(x.up.up)
    {
      hide Placed, SetColor, Whole, Uncle;
      UncleRedLinks(nodes[..], x, t);
      Paint(parent, Black);
      Paint(uncle, Black);
      Paint(grandpa, Red);
      FamilyView(nodes[..], x.up.up, Recolored(x, t));
      ParentAt(nodes[..], x.up.up, Recolored(x, t));
    }

    /** The repair loop: the red-red edge at `added` moves up until a rotation removes it. */
    method Repair(added: nat, above: nat, ghost x0: Ctx, ghost t0: Tree, ghost h0: nat)
      returns (ghost x: Ctx, ghost t: Tree, ghost h: nat)
      requires Placed(nodes[..], x0, t0) && RedFocus(x0, t0, h0) && added == t0.id && above == CtxId(x0)
      modifies nodes
      ensures Placed(nodes[..], x, t) && Fits(x, t, h) && Whole(x, t) == Whole(x0, t0) && Plug(x, t).Node?
      ensures SameKeys(old(nodes[..]), nodes[..])
    {
      hide Placed, CtxOk, NoRedRed, BlackHeight, Whole, SetColor, Uncle, Recolored, Rotated;
      var node, parent := added, above;
      x, t, h := x0, t0, h0;
      FamilyView(nodes[..], x, t);
      while nodes[parent].color.Red?
        invariant Placed(nodes[..], x, t) && RedFocus(x, t, h) && node == t.id && parent == CtxId(x)
        invariant Whole(x, t) == Whole(x0, t0) && SameKeys(old(nodes[..]), nodes[..])
        invariant parent < nodes.Length && nodes[parent].color == CtxColor(x)
        decreases x
      {
        FamilyView(nodes[..], x, t);
        RedIsDeep(x, h);
        UncleView(nodes[..], x, t);
        var grandpa := nodes[parent].parent;
        if parent == nodes[grandpa].left {
          var uncle := nodes[grandpa].right;
          if nodes[uncle].color.Red? {
            RecoloredFocus(x, t, h);
            PaintFamily(parent, uncle, grandpa, x, t);
            node, parent := grandpa, nodes[grandpa].parent;
            x, t, h := x.up.up, Recolored(x, t), h + 1;
          } else {
            RotatedFits(x, t, h);
            FixLeft(node, parent, grandpa, x, t);
            x, t, h := x.up.up, Rotated(x, t), h + 1;
            break;
          }
        } else {
          var uncle := nodes[grandpa].left;
          if nodes[uncle].color.Red? {
            RecoloredFocus(x, t, h);
            PaintFamily(parent, uncle, grandpa, x, t);
            node, parent := grandpa, nodes[grandpa].parent;
            x, t, h := x.up.up, Recolored(x, t), h + 1;
          } else {
            RotatedFits(x, t, h);
            FixRight(node, parent, grandpa, x, t);
            x, t, h := x.up.up, Rotated(x, t), h + 1;
            break;
          }
        }
      }
      PlugNode(x, t);
    }

    /** The new node becomes a red leaf at the empty place. */
    method Link(node: nat, parent: nat, left: bool, ghost x: Ctx)
      requires Placed(nodes[..], x, Nil) && 0 < node < nodes.Length && node !in Before(x) + After(x)
      requires parent == CtxId(x) && (left <==> !x.InRight?)
      modifies nodes
      ensures Placed(nodes[..], x, Node(Nil, node, Red, Nil)) && SameKeys(old(nodes[..]), nodes[..])
      ensures Whole(x, Node(Nil, node, Red, Nil)) == Before(x) + [node] + After(x)
    {
      hide Placed, Whole, Before, After, InOrder, CtxId, SameKeys;
      ghost var s := nodes[..];
      WholeNil(x);
      CtxAt(s, x, Nil);
      if left {
        nodes[parent] := nodes[parent].(left := node);
      } else {
        nodes[parent] := nodes[parent].(right := node);
      }
      nodes[node] := nodes[node].(parent := parent, left := 0, right := 0);
      nodes[node] := nodes[node].(color := Red);
      LinkNew(s, nodes[..], x, node);
    }

    /** The root is painted black. */
    method BlackenRoot(ghost x: Ctx, ghost t: Tree)
      requires Placed(nodes[..], x, t) && Plug(x, t).Node?
      modifies nodes
      ensures Placed(nodes[..], Top, Blacken(Plug(x, t))) && SameKeys(old(nodes[..]), nodes[..])
    {
      hide Placed, Whole, InOrder, Plug, SetColor, SameKeys;
      PlugPlaced(nodes[..], x, t);
      RootAt(nodes[..], Top, Plug(x, t));
      BlackenPlaced(nodes[..], Plug(x, t));
      var root := nodes[0].left;
      Paint(root, Black);
    }

    /** dict_insert: the new node comes last among the equal keys. */
    method Insert(node: nat, key: int) returns (ghost before: seq<nat>, ghost after: seq<nat>)
      requires Valid() && nodecount != maxcount
      requires 0 < node < nodes.Length && node !in Order()
      requires dupes || forall i :: 0 <= i < |Order()| ==> nodes[Order()[i]].key != key
      modifies this, nodes
      ensures Valid() && nodecount == old(nodecount) + 1
      ensures old(Order()) == before + after && Order() == before + [node] + after
      ensures Divides(nodes[..], before, after, key) && nodes[node].key == key
      ensures forall i :: 0 <= i < nodes.Length && i != node ==> nodes[i].key == old(nodes[i].key)
    {
      hide Placed, Fits, KeysOrdered, Divides, Whole, InOrder, RedBlackTree, Before, After, Plug, SameKeys, RedFocus, CtxId, Blacken;
      ghost var s := nodes[..];
      nodes[node] := nodes[node].(key := key);
      PlacedFrame(s, tree, node, nodes[node]);
      OrderedFrame(s, nodes[..], Order(), dupes, node);
      ghost var keyed := nodes[..];
      ghost var x, t, h;
      var parent, left;
      parent, left, x, h := Descend(key);
      before, after := Before(x), After(x);
      Link(node, parent, left, x);
      ghost var linked := nodes[..];
      nodecount := nodecount + 1;
      NewFocus(x, node, h);
      x, t, h := Repair(node, parent, x, Node(Nil, node, Red, Nil), h);
      ghost var repaired := nodes[..];
      BlackenRoot(x, t);
      FittedBlackened(x, t, h);
      WholeIs(x, t);
      tree := Blacken(Plug(x, t));
      InsertedKeys(keyed, linked, repaired, nodes[..], before, after, node, dupes);
    }

    /** dict_lookup */
    method Lookup(key: int) returns (found: nat)
      requires Valid()
      ensures IsFirstWith(nodes[..], Order(), key, found)
    {
      hide Placed, RedBlackTree, Lacks, KeysOrdered, IsFirstWith, Whole, Before, After, InOrder;
      ghost var s, x, t := nodes[..], Top, tree;
      WholeTop(tree);
      TopLacks(s, key);
      RootAt(s, Top, tree);
      var root := nodes[0].left;
      while root != 0
        invariant Placed(s, x, t) && root == RootId(t) && Whole(x, t) == Order()
        invariant Lacks(s, Before(x), key) && Lacks(s, After(x), key)
        decreases t
      {
        RootAt(s, x, t);
        SearchAt(s, x, t, key, dupes);
        if key < nodes[root].key {
          root := nodes[root].left;
          x, t := InLeft(x, t.id, t.c, t.r), t.l;
        } else if key > nodes[root].key {
          root := nodes[root].right;
          x, t := InRight(t.l, t.id, t.c, x), t.r;
        } else if !dupes {
          return root;
        } else {
          found := Leftmost(key, root, x, t);
          return;
        }
      }
      RootAt(s, x, t);
      WholeNil(x);
      LacksBoth(s, Before(x), After(x), key);
      found := 0;
      LacksIsFirst(s, Order(), key);
    }

    /** The loop of dict_lookup that goes on to the leftmost of several equal keys. */
    method Leftmost(key: int, start: nat, ghost x0: Ctx, ghost t0: Tree) returns (saved: nat)
      requires Placed(nodes[..], x0, t0) && t0.Node? && start == t0.id < nodes.Length && nodes[start].key == key
      requires KeysOrdered(nodes[..], Whole(x0, t0), true) && Lacks(nodes[..], Before(x0), key)
      ensures IsFirstWith(nodes[..], Whole(x0, t0), key, saved)
    {
      hide Placed, Lacks, KeysOrdered, IsFirstWith, Whole, Before, After, InOrder;
      ghost var s, x, t := nodes[..], x0, t0;
      var root := start;
      saved := start;
      RootAt(s, x, t);
      while true
        invariant Placed(s, x, t) && root == RootId(t) && t.Node? && Whole(x, t) == Whole(x0, t0)
        invariant Lacks(s, Before(x), key) && root < nodes.Length && nodes[root].key == key
        decreases t
      {
        RootAt(s, x, t);
        SearchAt(s, x, t, key, true);
        saved := root;
        root := nodes[root].left;
        ghost var before := t;
        x, t := InLeft(x, t.id, t.c, t.r), t.l;
        RootAt(s, x, t);
        while root != 0 && key != nodes[root].key
          invariant Placed(s, x, t) && root == RootId(t) < nodes.Length && (t.Nil? <==> root == 0)
          invariant Whole(x, t) == Whole(x0, t0) && t < before
          invariant Lacks(s, Before(x), key) && After(x) != [] && After(x)[0] == saved
          decreases t
        {
          SearchAt(s, x, t, key, true);
          SmallerBefore(s, x, t, saved, key, true);
          RootAt(s, x, t);
          root := nodes[root].right;
          x, t := InRight(t.l, t.id, t.c, x), t.r;
          RootAt(s, x, t);
        }
        if root == 0 { break; }
      }
      FoundLeftmost(s, x, saved, key);
    }

    /** dict_first */
    method First() returns (r: nat)
      requires Valid()
      ensures r == if Order() == [] then 0 else Order()[0]
    {
      hide Placed, RedBlackTree, KeysOrdered, Whole;
      RootAt(nodes[..], Top, tree);
      WholeTop(tree);
      var root := nodes[0].left;
      if root == 0 { return 0; }
      ghost var x, t;
      r, x, t := GoLeft(root, Top, tree);
      NextIsFirst(x, t);
    }

    /** The loop that goes down to the left as far as it can. */
    method GoLeft(start: nat, ghost x0: Ctx, ghost t0: Tree) returns (r: nat, ghost x: Ctx, ghost t: Tree)
      requires Placed(nodes[..], x0, t0) && t0.Node? && start == t0.id
      ensures Placed(nodes[..], x, t) && t.Node? && t.l.Nil? && r == t.id
      ensures Whole(x, t) == Whole(x0, t0) && Before(x) == Before(x0)
    {
      hide Placed, Whole;
      r, x, t := start, x0, t0;
      RootAt(nodes[..], x, t);
      while nodes[r].left != 0
        invariant Placed(nodes[..], x, t) && t.Node? && r == t.id < nodes.Length
        invariant Whole(x, t) == Whole(x0, t0) && Before(x) == Before(x0)
        decreases t
      {
        RootAt(nodes[..], x, t);
        Children(nodes[..], x, t);
        r := nodes[r].left;
        x, t := InLeft(x, t.id, t.c, t.r), t.l;
        RootAt(nodes[..], x, t);
      }
      RootAt(nodes[..], x, t);
      Children(nodes[..], x, t);
      RootAt(nodes[..], InLeft(x, t.id, t.c, t.r), t.l);
    }

    /** dict_next */
    method Next(from: nat) returns (r: nat)
      requires Valid() && from in Order()
      ensures IsNext(Order(), from, r)
    {
      hide Placed, RedBlackTree, KeysOrdered, Whole, InOrder, IsNext;
      ghost var s := nodes[..];
      WholeTop(tree);
      ghost var x, t := Locate(s, Top, tree, from);
      RootAt(s, x, t);
      Children(s, x, t);
      RootAt(s, InRight(t.l, t.id, t.c, x), t.r);
      if nodes[from].right != 0 {
        ghost var y, u;
        r, y, u := GoLeft(nodes[from].right, InRight(t.l, t.id, t.c, x), t.r);
        NextIsLeftmost(y, u, from, Before(x) + InOrder(t.l));
        return;
      }
      NextIsAfter(x, t);
      FamilyView(s, x, t);
      ParentAt(s, x, t);
      ghost var after := After(x);
      var curr, parent := from, nodes[from].parent;
      while parent != 0 && curr == nodes[parent].right
        invariant Placed(s, x, t) && t.Node? && curr == t.id && parent == CtxId(x) < nodes.Length && After(x) == after
        invariant parent == 0 <==> x == Top
        decreases x
      {
        FamilyView(s, x, t);
        PlacedUp(s, x, t);
        curr, t, x := parent, Close(x, t, x.c), x.up;
        FamilyView(s, x, t);
        parent := nodes[curr].parent;
        ParentAt(s, x, t);
      }
      FamilyView(s, x, t);
      r := parent;
    }
  }
}
