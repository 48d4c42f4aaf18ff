/** The red-black conditions on shapes, and why each fix-up step restores them. */
module RbColour {
  import opened Common
  import opened RbShape

  ghost predicate Black<K>(t: Tree<K>) {
    t.Leaf? || !t.red
  }

  // Every path down `t` meets `h` black nodes, and no red node has a red child.
  ghost predicate RedBlack<K>(t: Tree<K>, h: nat) {
    match t
    case Leaf => h == 0
    case T(_, red, l, r) =>
      if red then Black(l) && Black(r) && RedBlack(l, h) && RedBlack(r, h)
      else h > 0 && RedBlack(l, h - 1) && RedBlack(r, h - 1)
  }

  // A focus of black height `h` completes `c` to a red-black tree with a black root;
  // `red` says that the focus may be red.
  ghost predicate RedBlackCtx<K>(c: Ctx<K>, h: nat, red: bool) {
    match c
    case Top => !red
    case Down(_, _, nred, sib, up) =>
      RedBlack(sib, h) &&
      if nred then !red && Black(sib) && RedBlackCtx(up, h, true)
      else RedBlackCtx(up, h + 1, false)
  }

  // The red-black conditions, except that the root of `t` may be red above red children.
  ghost predicate NearlyRedBlack<K>(t: Tree<K>, h: nat) {
    if t.T? && t.red then RedBlack(t.l, h) && RedBlack(t.r, h) else RedBlack(t, h)
  }

  ghost function Blackened<K>(t: Tree<K>): Tree<K> {
    if t.T? then t.(red := false) else t
  }

  lemma {:induction false} RedBlackPlug<K>(c: Ctx<K>, t: Tree<K>, h: nat) returns (bh: nat)
    requires RedBlack(t, h) && RedBlackCtx(c, h, !Black(t))
    ensures RedBlack(Plug(c, t), bh) && Black(Plug(c, t))
    decreases c
  {
    match c
    case Top => bh := h;
    case Down(d, n, red, sib, up) =>
      bh := RedBlackPlug(up, Join(n, red, d, t, sib), if red then h else h + 1);
  }

  // The converse: any focus of a red-black tree splits it this way.
  lemma {:induction false} RedBlackUnplug<K>(c: Ctx<K>, t: Tree<K>, bh: nat) returns (h: nat)
    requires RedBlack(Plug(c, t), bh) && Black(Plug(c, t))
    ensures RedBlack(t, h) && RedBlackCtx(c, h, !Black(t))
    decreases c
  {
    match c
    case Top => h := bh;
    case Down(d, n, red, sib, up) =>
      h := RedBlackUnplug(up, Join(n, red, d, t, sib), bh);
      h := if red then h else h - 1;
  }

  lemma CtxWeaken<K>(c: Ctx<K>, h: nat)
    requires RedBlackCtx(c, h, true)
    ensures RedBlackCtx(c, h, false)
  {
  }

  ghost function Depth<K>(c: Ctx<K>): nat {
    if c.Down? then Depth(c.up) + 1 else 0
  }

  // The largest height a tree of black height `h` can have, and the fewest nodes.
  ghost function Height<K>(t: Tree<K>): nat {
    match t
    case Leaf => 0
    case T(_, _, l, r) => 1 + if Height(l) > Height(r) then Height(l) else Height(r)
  }

  lemma {:induction false} BlackHeightBounds<K>(t: Tree<K>, h: nat)
    requires RedBlack(t, h)
    ensures Height(t) <= 2 * h + (if Black(t) then 0 else 1)
    ensures Size(t) + 1 >= Pow2(h)
  {
    match t
    case Leaf =>
    case T(_, red, l, r) =>
      var k := if red then h else h - 1;
      BlackHeightBounds(l, k);
      BlackHeightBounds(r, k);
  }

  lemma {:induction false} Pow2Double(n: nat)
    ensures Pow2(2 * n) == Pow2(n) * Pow2(n)
  {
    if n > 0 {
      Pow2Double(n - 1);
      assert Pow2(2 * n) == 2 * Pow2(2 * n - 1) == 4 * Pow2(2 * (n - 1));
    }
  }

  // The height is at most 2 * log2(n + 1), in integers.
  lemma HeightIsLogarithmic<K>(t: Tree<K>, h: nat)
    requires RedBlack(t, h) && Black(t)
    ensures Pow2(Height(t)) <= (Size(t) + 1) * (Size(t) + 1)
  {
    BlackHeightBounds(t, h);
    Pow2Monotone(Height(t), 2 * h);
    Pow2Double(h);
    MulMonotone(Pow2(h), Size(t) + 1);
  }

  lemma MulMonotone(x: nat, y: nat)
    requires x <= y
    ensures x * x <= y * y
  {
    assert x * x <= x * y <= y * y;
  }

  // ---- insertion ----

  // `insert` with a red uncle: the red violation moves two levels up.
  ghost function Recoloured<K>(c: Ctx<K>, t: Tree<K>): Tree<K>
    requires c.Down? && c.up.Down?
  {
    Join(c.up.n, true, c.up.d, Join(c.n, false, c.d, t, c.sib), Blackened(c.up.sib))
  }

  // `insert` with a black uncle: the subtree that replaces the grandparent's.
  ghost function InsertRotated<K>(c: Ctx<K>, t: Tree<K>): Tree<K>
    requires t.T? && c.Down? && c.up.Down?
  {
    var e, g, u := c.up.d, c.up.n, c.up.sib;
    if c.d == e then
      Join(c.n, false, !e, Join(g, true, !e, u, c.sib), t)
    else
      Join(t.n, false, !e, Join(g, true, !e, u, Kid(t, !e)), Join(c.n, c.red, e, c.sib, Kid(t, e)))
  }

  // The parent of a red focus is red, so there is a black grandparent.
  lemma Grandparent<K>(c: Ctx<K>, h: nat)
    requires c.Down? && c.red && RedBlackCtx(c, h, false)
    ensures c.up.Down? && !c.up.red && RedBlack(c.up.sib, h) && RedBlackCtx(c.up.up, h + 1, false)
  {
  }

  lemma UnderBlack<K>(c: Ctx<K>, h: nat)
    requires c.Down? && !c.red && RedBlackCtx(c, h, false)
    ensures RedBlackCtx(c, h, true)
  {
  }

  lemma BlackenedRedBlack<K>(t: Tree<K>, h: nat)
    requires t.T? && t.red && (NearlyRedBlack(t, h) || RedBlack(t, h))
    ensures RedBlack(Blackened(t), h + 1)
  {
  }

  lemma RecolouredRedBlack<K>(c: Ctx<K>, t: Tree<K>, h: nat)
    requires t.T? && t.red && RedBlack(t, h) && c.Down? && c.red && RedBlackCtx(c, h, false)
    requires c.up.Down? && !Black(c.up.sib)
    ensures RedBlack(Recoloured(c, t), h + 1) && RedBlackCtx(c.up.up, h + 1, false)
  {
  }

  lemma InsertRotatedRedBlack<K>(c: Ctx<K>, t: Tree<K>, h: nat)
    requires t.T? && t.red && RedBlack(t, h) && c.Down? && c.red && RedBlackCtx(c, h, false)
    requires c.up.Down? && Black(c.up.sib)
    ensures RedBlack(InsertRotated(c, t), h + 1) && Black(InsertRotated(c, t)) && RedBlackCtx(c.up.up, h + 1, false)
  {
  }

  // ---- the fix-up steps keep the nodes in order ----

  // Any change at the focus that keeps its order keeps the order of the whole tree.
  lemma SameOrder<K>(c: Ctx<K>, t: Tree<K>, u: Tree<K>)
    requires Order(t) == Order(u)
    ensures Order(Plug(c, t)) == Order(Plug(c, u))
  {
    PlugOrder(c, t);
    PlugOrder(c, u);
  }

  lemma JoinOrder<K>(n: Node<K>, red: bool, red': bool, d: bool, a: Tree<K>, a': Tree<K>, b: Tree<K>, b': Tree<K>)
    requires Order(a) == Order(a') && Order(b) == Order(b')
    ensures Order(Join(n, red, d, a, b)) == Order(Join(n, red', d, a', b'))
  {
  }

  lemma BlackenedOrder<K>(t: Tree<K>)
    ensures Order(Blackened(t)) == Order(t)
  {
  }

  lemma RecolouredOrder<K>(c: Ctx<K>, t: Tree<K>)
    requires c.Down? && c.up.Down?
    ensures Order(Plug(c.up.up, Recoloured(c, t))) == Order(Plug(c, t))
  {
    hide Order;
    var p, p' := Join(c.n, c.red, c.d, t, c.sib), Join(c.n, false, c.d, t, c.sib);
    JoinOrder(c.n, c.red, false, c.d, t, t, c.sib, c.sib);
    BlackenedOrder(c.up.sib);
    JoinOrder(c.up.n, c.up.red, true, c.up.d, p, p', c.up.sib, Blackened(c.up.sib));
    SameOrder(c.up.up, Join(c.up.n, c.up.red, c.up.d, p, c.up.sib), Recoloured(c, t));
  }

  lemma InsertRotatedOrder<K>(c: Ctx<K>, t: Tree<K>)
    requires t.T? && c.Down? && c.up.Down?
    ensures Order(Plug(c.up.up, InsertRotated(c, t))) == Order(Plug(c, t))
  {
    hide Order, Plug, InsertRotated;
    var e, g, u := c.up.d, c.up.n, c.up.sib;
    var p := Join(c.n, c.red, c.d, t, c.sib);
    var was := Join(g, c.up.red, e, p, u);
    PlugTwice(c, t);
    InsertRotatedDef(c, t);
    if c.d == e {
      RotateOrder(g, true, c.n, false, !e, u, c.sib, t);
      JoinOrder(c.n, c.red, false, !e, c.sib, c.sib, t, t);
      JoinOrder(g, c.up.red, true, !e, u, u, p, Join(c.n, false, !e, c.sib, t));
    } else {
      var inner := Join(c.n, c.red, e, c.sib, Kid(t, e));
      RotateOrder(c.n, c.red, t.n, t.red, e, c.sib, Kid(t, e), Kid(t, !e));
      RotateOrder(g, true, t.n, false, !e, u, Kid(t, !e), inner);
      JoinOrder(t.n, t.red, false, !e, Kid(t, !e), Kid(t, !e), inner, inner);
      JoinOrder(g, c.up.red, true, !e, u, u, p, Join(t.n, false, !e, Kid(t, !e), inner));
    }
    SameOrder(c.up.up, was, InsertRotated(c, t));
  }

  lemma InsertRotatedDef<K>(c: Ctx<K>, t: Tree<K>)
    requires t.T? && c.Down? && c.up.Down?
    ensures var e, g, u := c.up.d, c.up.n, c.up.sib;
      InsertRotated(c, t) == if c.d == e then
        Join(c.n, false, !e, Join(g, true, !e, u, c.sib), t)
      else
        Join(t.n, false, !e, Join(g, true, !e, u, Kid(t, !e)), Join(c.n, c.red, e, c.sib, Kid(t, e)))
  {
  }

  lemma PlugTwice<K>(c: Ctx<K>, t: Tree<K>)
    requires c.Down? && c.up.Down?
    ensures Plug(c, t) == Plug(c.up.up, Join(c.up.n, c.up.red, c.up.d, Join(c.n, c.red, c.d, t, c.sib), c.up.sib))
  {
  }

  // ---- deletion ----

  lemma JoinRedBlack<K>(n: Node<K>, red: bool, d: bool, a: Tree<K>, b: Tree<K>, h: nat)
    ensures RedBlack(Join(n, red, d, a, b), h) <==>
      if red then Black(a) && Black(b) && RedBlack(a, h) && RedBlack(b, h)
      else h > 0 && RedBlack(a, h - 1) && RedBlack(b, h - 1)
  {
  }

  lemma KidsRedBlack<K>(t: Tree<K>, d: bool, h: nat)
    requires RedBlack(t, h) && t.T?
    ensures t.red ==> Black(Kid(t, d)) && RedBlack(Kid(t, d), h)
    ensures !t.red ==> h > 0 && RedBlack(Kid(t, d), h - 1)
  {
  }

  // `remove_bottom`, red sibling: after the rotation the focus has a black sibling.
  ghost function RedSiblingCtx<K>(c: Ctx<K>): Ctx<K>
    requires c.Down? && c.sib.T?
  {
    Down(c.d, c.n, true, Kid(c.sib, c.d), Down(c.d, c.sib.n, false, Kid(c.sib, !c.d), c.up))
  }

  // `remove_bottom`, black sibling with black children: the shortage moves to the parent.
  ghost function PushedUp<K>(c: Ctx<K>, t: Tree<K>): Tree<K>
    requires c.Down? && c.sib.T?
  {
    Join(c.n, c.red, c.d, t, c.sib.(red := true))
  }

  // `remove_bottom`, black sibling whose far child is black: its near child is rotated up.
  ghost function NearRotated<K>(sib: Tree<K>, d: bool): Tree<K>
    requires sib.T? && Kid(sib, d).T?
  {
    var near := Kid(sib, d);
    Join(near.n, false, !d, Join(sib.n, true, !d, Kid(sib, !d), Kid(near, !d)), Kid(near, d))
  }

  // `remove_bottom`, black sibling whose far child is red: the last rotation.
  ghost function FarRotated<K>(c: Ctx<K>, t: Tree<K>): Tree<K>
    requires c.Down? && c.sib.T?
  {
    Join(c.sib.n, c.red, c.d, Join(c.n, false, c.d, t, Kid(c.sib, c.d)), Blackened(Kid(c.sib, !c.d)))
  }

  lemma SiblingExists<K>(c: Ctx<K>, h: nat)
    requires c.Down? && RedBlackCtx(c, h + 1, false)
    ensures c.sib.T?
    ensures !Black(c.sib) ==> Kid(c.sib, c.d).T?
  {
    KidsRedBlack(c.sib, c.d, h + 1);
  }

  lemma RedSiblingRedBlack<K>(c: Ctx<K>, h: nat)
    requires c.Down? && RedBlackCtx(c, h + 1, false) && !Black(c.sib)
    ensures RedBlackCtx(RedSiblingCtx(c), h + 1, false)
    ensures RedSiblingCtx(c).sib.T? && Black(RedSiblingCtx(c).sib)
  {
    KidsRedBlack(c.sib, c.d, h + 1);
    KidsRedBlack(c.sib, !c.d, h + 1);
  }

  lemma PushedUpRedBlack<K>(c: Ctx<K>, t: Tree<K>, h: nat)
    requires RedBlack(t, h) && Black(t) && c.Down? && RedBlackCtx(c, h + 1, false)
    requires Black(c.sib) && c.sib.T? && Black(c.sib.l) && Black(c.sib.r)
    ensures var h' := if c.red then h else h + 1;
      NearlyRedBlack(PushedUp(c, t), h') && RedBlackCtx(c.up, h' + 1, false)
  {
    if c.red { CtxWeaken(c.up, h + 1); }
  }

  lemma NearRotatedRedBlack<K>(c: Ctx<K>, h: nat)
    requires c.Down? && RedBlackCtx(c, h + 1, false)
    requires Black(c.sib) && c.sib.T? && Kid(c.sib, c.d).T? && !Black(Kid(c.sib, c.d)) && Black(Kid(c.sib, !c.d))
    ensures var s := NearRotated(c.sib, c.d);
      RedBlackCtx(c.(sib := s), h + 1, false) && Black(s) && Kid(s, !c.d).T? && !Black(Kid(s, !c.d))
  {
    hide RedBlack;
    var s, d := c.sib, c.d;
    var near, far := Kid(s, d), Kid(s, !d);
    KidsRedBlack(s, d, h + 1);
    KidsRedBlack(s, !d, h + 1);
    KidsRedBlack(near, d, h);
    KidsRedBlack(near, !d, h);
    JoinRedBlack(s.n, true, !d, far, Kid(near, !d), h);
    JoinRedBlack(near.n, false, !d, Join(s.n, true, !d, far, Kid(near, !d)), Kid(near, d), h + 1);
  }

  lemma FarRotatedRedBlack<K>(c: Ctx<K>, t: Tree<K>, h: nat) returns (h': nat)
    requires RedBlack(t, h) && Black(t) && c.Down? && RedBlackCtx(c, h + 1, false)
    requires Black(c.sib) && c.sib.T? && !Black(Kid(c.sib, !c.d))
    ensures RedBlack(FarRotated(c, t), h') && RedBlackCtx(c.up, h', !Black(FarRotated(c, t)))
  {
    hide RedBlack;
    var s, d := c.sib, c.d;
    var near, far := Kid(s, d), Kid(s, !d);
    KidsRedBlack(s, d, h + 1);
    KidsRedBlack(s, !d, h + 1);
    BlackenedRedBlack(far, h);
    JoinRedBlack(c.n, false, d, t, near, h + 1);
    h' := if c.red then h + 1 else h + 2;
    JoinRedBlack(s.n, c.red, d, Join(c.n, false, d, t, near), Blackened(far), h');
  }

  // When the fix-up stops, blackening the focus restores the whole tree.
  lemma BlackenedPlug<K>(c: Ctx<K>, t: Tree<K>, h: nat) returns (bh: nat)
    requires NearlyRedBlack(t, h) && RedBlackCtx(c, h + 1, false) && (c.Top? || !Black(t))
    ensures RedBlack(Plug(c, Blackened(t)), bh) && Black(Plug(c, Blackened(t)))
  {
    if Black(t) {
      bh := h;
    } else {
      BlackenedRedBlack(t, h);
      bh := RedBlackPlug(c, Blackened(t), h + 1);
    }
  }

  lemma RedSiblingOrder<K>(c: Ctx<K>, t: Tree<K>)
    requires c.Down? && c.sib.T?
    ensures Order(Plug(RedSiblingCtx(c), t)) == Order(Plug(c, t))
  {
    hide Order;
    var s, d := c.sib, c.d;
    var x := Join(c.n, true, d, t, Kid(s, d));
    RotateOrder(c.n, true, s.n, false, d, t, Kid(s, d), Kid(s, !d));
    JoinOrder(s.n, s.red, false, d, Kid(s, d), Kid(s, d), Kid(s, !d), Kid(s, !d));
    JoinOrder(c.n, c.red, true, d, t, t, s, Join(s.n, false, d, Kid(s, d), Kid(s, !d)));
    SameOrder(c.up, Join(c.n, c.red, d, t, s), Join(s.n, false, d, x, Kid(s, !d)));
  }

  lemma PushedUpOrder<K>(c: Ctx<K>, t: Tree<K>)
    requires c.Down? && c.sib.T?
    ensures Order(Plug(c.up, PushedUp(c, t))) == Order(Plug(c, t))
  {
    hide Order;
    JoinOrder(c.sib.n, c.sib.red, true, false, c.sib.l, c.sib.l, c.sib.r, c.sib.r);
    JoinOrder(c.n, c.red, c.red, c.d, t, t, c.sib, c.sib.(red := true));
    SameOrder(c.up, Join(c.n, c.red, c.d, t, c.sib), PushedUp(c, t));
  }

  lemma NearRotatedOrder<K>(c: Ctx<K>, t: Tree<K>)
    requires c.Down? && c.sib.T? && Kid(c.sib, c.d).T?
    ensures Order(Plug(c.(sib := NearRotated(c.sib, c.d)), t)) == Order(Plug(c, t))
  {
    hide Order;
    var s, d := c.sib, c.d;
    var near, far := Kid(s, d), Kid(s, !d);
    RotateOrder(s.n, true, near.n, false, !d, far, Kid(near, !d), Kid(near, d));
    JoinOrder(near.n, near.red, false, !d, Kid(near, !d), Kid(near, !d), Kid(near, d), Kid(near, d));
    JoinOrder(s.n, s.red, true, !d, far, far, near, Join(near.n, false, !d, Kid(near, !d), Kid(near, d)));
    JoinOrder(c.n, c.red, c.red, d, t, t, s, NearRotated(s, d));
    SameOrder(c.up, Join(c.n, c.red, d, t, s), Join(c.n, c.red, d, t, NearRotated(s, d)));
  }

  lemma FarRotatedOrder<K>(c: Ctx<K>, t: Tree<K>)
    requires c.Down? && c.sib.T?
    ensures Order(Plug(c.up, FarRotated(c, t))) == Order(Plug(c, t))
  {
    hide Order;
    var s, d := c.sib, c.d;
    var near, far := Kid(s, d), Kid(s, !d);
    BlackenedOrder(far);
    RotateOrder(c.n, false, s.n, c.red, d, t, near, Blackened(far));
    JoinOrder(s.n, s.red, c.red, d, near, near, far, Blackened(far));
    JoinOrder(c.n, c.red, false, d, t, t, s, Join(s.n, c.red, d, near, Blackened(far)));
    SameOrder(c.up, Join(c.n, c.red, d, t, s), FarRotated(c, t));
  }
}
