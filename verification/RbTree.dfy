/** The red-black tree with parent pointers and a sentinel: links, rotation through a reference, insertion,
    removal and the searches, in place on the nodes of a zipper. */
module RbTree {
  import Common
  import opened RbShape
  import opened RbColour

  // A reference to the place that holds a link: the root variable or a child field.
  datatype Slot<K> = AtRoot | AtChild(p: Node<K>, d: bool)

  ghost function SlotOf<K>(c: Ctx<K>): Slot<K> {
    match c
    case Top => AtRoot
    case Down(d, n, _, _, _) => AtChild(n, d)
  }

  class Rbt<K> {
    const nil: Node<K>
    const rank: K -> int
    var root: Node<K>
    ghost var nodes: set<Node<K>>
    ghost var tree: Tree<K>
    ghost var bh: nat

    // The links of one well-formed tree, focused on `t` inside `c`.
    ghost predicate Shape(c: Ctx<K>, t: Tree<K>)
      reads this`nodes, this`root, nil, nodes`par, nodes`red, nodes`ch0, nodes`ch1
    {
      CtxNodes(c) + Nodes(t) == nodes && nil !in nodes && NilOk(nil) && Separate(c, t) &&
      Linked(t, CtxPtr(c, nil), nil) && LinkedCtx(c, Ptr(t, nil), root, nil)
    }

    // The same, with every subtree size right.
    ghost predicate Zip(c: Ctx<K>, t: Tree<K>)
      reads this`nodes, this`root, nil, nodes`par, nodes`red, nodes`ch0, nodes`ch1, nodes`size
    {
      Shape(c, t) && Sized(t) && SizedCtx(c, Size(t))
    }

    ghost predicate Valid()
      reads this, nil, nodes`par, nodes`red, nodes`ch0, nodes`ch1, nodes`size, nodes`key
    {
      Zip(Top, tree) && RedBlack(tree, bh) && Black(tree) && (OrderNodes(tree); SortedNodes(Order(tree), rank))
    }

    ghost function Repr(): set<object>
      reads this`nodes
    {
      {this, nil} + nodes
    }

    // The keys in the order of a walk.
    ghost function Contents(): seq<K>
      requires Valid()
      reads this, nil, nodes`par, nodes`red, nodes`ch0, nodes`ch1, nodes`size, nodes`key
    {
      OrderNodes(tree);
      KeysOf(Order(tree))
    }

    constructor (rank: K -> int, nilKey: K)
      ensures Valid() && Contents() == [] && this.rank == rank && fresh(Repr())
    {
      var s := new Node.Sentinel(nilKey);
      nil, root := s, s;
      this.rank := rank;
      nodes, tree, bh := {}, Leaf, 0;
    }

    // The focus may be moved between a node and its child `d`.
    lemma ZipMove(c: Ctx<K>, n: Node<K>, red: bool, d: bool, a: Tree<K>, b: Tree<K>)
      ensures Zip(c, Join(n, red, d, a, b)) <==> Zip(Down(d, n, red, b, c), a)
    {
      hide Shape;
      ShapeMove(c, n, red, d, a, b);
    }

    lemma ShapeMove(c: Ctx<K>, n: Node<K>, red: bool, d: bool, a: Tree<K>, b: Tree<K>)
      ensures Shape(c, Join(n, red, d, a, b)) <==> Shape(Down(d, n, red, b, c), a)
    {
      hide Nodes, CtxNodes, Separate, Distinct;
      MoveSeparate(c, n, red, d, a, b);
    }

    static lemma MoveSeparate(c: Ctx<K>, n: Node<K>, red: bool, d: bool, a: Tree<K>, b: Tree<K>)
      ensures CtxNodes(c) + Nodes(Join(n, red, d, a, b)) == CtxNodes(Down(d, n, red, b, c)) + Nodes(a)
      ensures Separate(c, Join(n, red, d, a, b)) <==> Separate(Down(d, n, red, b, c), a)
    {
      JoinSeparate(n, red, d, a, b);
    }

    // ---- opening and closing the definitions ----

    lemma LinkedJoin(n: Node<K>, red: bool, d: bool, a: Tree<K>, b: Tree<K>, p: Node<K>)
      ensures Linked(Join(n, red, d, a, b), p, nil) <==>
        n.par == p && n.red == red && n.Ch(d) == Ptr(a, nil) && n.Ch(!d) == Ptr(b, nil) && Linked(a, n, nil)
            && Linked(b, n, nil)
    {
    }

    lemma SizedJoin(n: Node<K>, red: bool, d: bool, a: Tree<K>, b: Tree<K>)
      ensures Sized(Join(n, red, d, a, b)) <==> n.size == Size(a) + Size(b) + 1 && Sized(a) && Sized(b)
      ensures Size(Join(n, red, d, a, b)) == Size(a) + Size(b) + 1
    {
    }

    static lemma JoinSeparate(n: Node<K>, red: bool, d: bool, a: Tree<K>, b: Tree<K>)
      ensures var t := Join(n, red, d, a, b);
        && Nodes(t) == Nodes(a) + {n} + Nodes(b)
        && (Distinct(t) <==> n !in Nodes(a) && n !in Nodes(b) && Nodes(a) !! Nodes(b) && Distinct(a) && Distinct(b))
    {
    }

    // The subtree `t`, hung below `q`, is hung below `p` instead.
    method Reparent(x: Node<K>, p: Node<K>, ghost t: Tree<K>, ghost q: Node<K>)
      requires Linked(t, q, nil) && Distinct(t) && x == Ptr(t, nil)
      modifies x`par
      ensures Linked(t, p, nil) && x.par == p
    {
      x.par := p;
    }

    lemma SlotHolds(c: Ctx<K>, x: Node<K>)
      requires LinkedCtx(c, x, root, nil)
      ensures match c case Top => root == x case Down(d, n, _, _, _) => n.Ch(d) == x
    {
    }

    // Redirects the link at the bottom of a context.
    method Redirect(s: Slot<K>, y: Node<K>, ghost c: Ctx<K>, ghost x: Node<K>)
      requires LinkedCtx(c, x, root, nil) && DistinctCtx(c) && s == SlotOf(c)
      modifies this`root, (if s.AtRoot? then {} else {s.p})`ch0, (if s.AtRoot? then {} else {s.p})`ch1
      ensures LinkedCtx(c, y, root, nil)
    {
      match s
      case AtRoot => root := y;
      case AtChild(p, d) => if d { p.ch1 := y; } else { p.ch0 := y; }
    }

    ghost predicate RotateParts(c: Ctx<K>, x: Node<K>, y: Node<K>, a: Tree<K>, b: Tree<K>, e: Tree<K>)
      reads this
    {
      && x != y && {x, y} !! Nodes(a) && {x, y} !! Nodes(b) && {x, y} !! Nodes(e) && {x, y} !! CtxNodes(c)
      && Nodes(a) !! Nodes(b) && Nodes(a) !! Nodes(e) && Nodes(b) !! Nodes(e)
      && CtxNodes(c) !! Nodes(a) && CtxNodes(c) !! Nodes(b) && CtxNodes(c) !! Nodes(e)
      && Distinct(a) && Distinct(b) && Distinct(e) && DistinctCtx(c)
      && nodes == CtxNodes(c) + {x, y} + Nodes(a) + Nodes(b) + Nodes(e)
    }

    lemma RotateSeparate(c: Ctx<K>, x: Node<K>, xr: bool, y: Node<K>, yr: bool, d: bool, a: Tree<K>, b: Tree<K>,
            e: Tree<K>)
      ensures var t := Join(x, xr, d, a, Join(y, yr, d, b, e));
        RotateParts(c, x, y, a, b, e) <==> CtxNodes(c) + Nodes(t) == nodes && Separate(c, t)
    {
      var u := Join(y, yr, d, b, e);
      JoinSeparate(y, yr, d, b, e);
      JoinSeparate(x, xr, d, a, u);
    }

    lemma RotatedSeparate(c: Ctx<K>, x: Node<K>, xr: bool, y: Node<K>, yr: bool, d: bool, a: Tree<K>, b: Tree<K>,
            e: Tree<K>)
      ensures var t := Join(y, yr, d, Join(x, xr, d, a, b), e);
        RotateParts(c, x, y, a, b, e) <==> CtxNodes(c) + Nodes(t) == nodes && Separate(c, t)
    {
      var u := Join(x, xr, d, a, b);
      JoinSeparate(x, xr, d, a, b);
      JoinSeparate(y, yr, d, u, e);
    }

    function Get(s: Slot<K>): Node<K>
      reads this`root, if s.AtRoot? then {} else {s.p}
    {
      if s.AtRoot? then root else s.p.Ch(s.d)
    }

    // The pointer surgery of a rotation; the caller redirects the link that held `x`.
    method Swing(x: Node<K>, d: bool, ghost xr: bool, y: Node<K>, ghost yr: bool, ghost a: Tree<K>, ghost b: Tree<K>,
            ghost e: Tree<K>, ghost p: Node<K>)
      requires Linked(Join(x, xr, d, a, Join(y, yr, d, b, e)), p, nil)
      requires Nodes(a) + Nodes(b) + Nodes(e) <= nodes
      requires x != y && {x, y} !! Nodes(a) && {x, y} !! Nodes(b) && {x, y} !! Nodes(e)
      requires Nodes(a) !! Nodes(b) && Nodes(b) !! Nodes(e) && Distinct(b)
      requires nil !in nodes && nil !in {x, y}
      modifies x`par, x`ch0, x`ch1, y`par, y`ch0, y`ch1, Ptr(b, nil)`par
      ensures Linked(Join(y, yr, d, Join(x, xr, d, a, b), e), p, nil)
    {
      hide Linked, Distinct, Nodes;
      LinkedJoin(x, xr, d, a, Join(y, yr, d, b, e), p);
      LinkedJoin(y, yr, d, b, e, x);
      PtrIn(b);
      y.par := x.par;
      var z := y.Ch(d);
      Reparent(z, x, b, y);
      if d { x.ch0 := z; y.ch1 := x; } else { x.ch1 := z; y.ch0 := x; }
      x.par := y;
      assert Linked(a, x, nil) && Linked(e, y, nil) && Linked(b, x, nil);
      LinkedJoin(x, xr, d, a, b, y);
      LinkedJoin(y, yr, d, Join(x, xr, d, a, b), e, p);
    }

    // The subtree sizes after a rotation.
    method SwingSizes(x: Node<K>, d: bool, ghost xr: bool, y: Node<K>, ghost yr: bool, ghost a: Tree<K>,
            ghost b: Tree<K>, ghost e: Tree<K>)
      requires Sized(Join(x, xr, d, a, Join(y, yr, d, b, e))) && nil.size == 0
      requires x != y && {x, y} !! Nodes(a) && {x, y} !! Nodes(b) && {x, y} !! Nodes(e) && nil !in {x, y}
      requires x.Ch(d) == Ptr(a, nil) && x.Ch(!d) == Ptr(b, nil)
      modifies x`size, y`size
      ensures Sized(Join(y, yr, d, Join(x, xr, d, a, b), e))
    {
      hide Sized, Size, Nodes;
      SizedJoin(x, xr, d, a, Join(y, yr, d, b, e));
      SizedJoin(y, yr, d, b, e);
      PtrSize(a);
      PtrSize(b);
      y.size := x.size;
      x.size := x.ch0.size + x.ch1.size + 1;
      SizedJoin(x, xr, d, a, b);
      SizedJoin(y, yr, d, Join(x, xr, d, a, b), e);
    }

    // The links of a rotation.
    method RotateLinks(s: Slot<K>, d: bool, ghost c: Ctx<K>, ghost x: Node<K>, ghost xr: bool, ghost y: Node<K>,
            ghost yr: bool, ghost a: Tree<K>, ghost b: Tree<K>, ghost e: Tree<K>)
      returns (u: Node<K>, v: Node<K>)
      requires RotateParts(c, x, y, a, b, e) && nil !in nodes && s == SlotOf(c)
      requires Linked(Join(x, xr, d, a, Join(y, yr, d, b, e)), CtxPtr(c, nil), nil) && LinkedCtx(c, x, root, nil)
      modifies this`root, nodes`par, nodes`ch0, nodes`ch1, nil`par
      ensures Linked(Join(y, yr, d, Join(x, xr, d, a, b), e), CtxPtr(c, nil), nil) && LinkedCtx(c, y, root, nil)
      ensures u == x && v == y
    {
      hide Nodes, CtxNodes, Linked, LinkedCtx, Distinct;
      SlotHolds(c, x);
      LinkedJoin(x, xr, d, a, Join(y, yr, d, b, e), CtxPtr(c, nil));
      u := Get(s);
      v := u.Ch(!d);
      PtrIn(b);
      SlotIn(c);
      Swing(u, d, xr, v, yr, a, b, e, CtxPtr(c, nil));
      RotatedSeparate(c, x, xr, y, yr, d, a, b, e);
      Redirect(s, v, c, u);
    }

    // The code's `rotate`: the child opposite to `d` comes up.
    method Rotate(s: Slot<K>, d: bool, ghost c: Ctx<K>, ghost x: Node<K>, ghost xr: bool, ghost y: Node<K>,
            ghost yr: bool, ghost a: Tree<K>, ghost b: Tree<K>, ghost e: Tree<K>)
      requires Zip(c, Join(x, xr, d, a, Join(y, yr, d, b, e))) && s == SlotOf(c)
      modifies this`root, nodes`par, nodes`ch0, nodes`ch1, nodes`size, nil`par
      ensures Zip(c, Join(y, yr, d, Join(x, xr, d, a, b), e))
    {
      hide Nodes, CtxNodes, Linked, Sized, SizedCtx, LinkedCtx, Separate, Size, Distinct, Zip, Shape;
      ZipParts(c, x, xr, y, yr, d, a, b, e);
      var u, v := RotateLinks(s, d, c, x, xr, y, yr, a, b, e);
      LinkedJoin(y, yr, d, Join(x, xr, d, a, b), e, CtxPtr(c, nil));
      LinkedJoin(x, xr, d, a, b, y);
      SwingSizes(u, d, xr, v, yr, a, b, e);
      PartsZip(c, x, xr, y, yr, d, a, b, e);
    }

    // What the parts of a rotation are to each other before it, and what they make afterwards.
    lemma ZipParts(c: Ctx<K>, x: Node<K>, xr: bool, y: Node<K>, yr: bool, d: bool, a: Tree<K>, b: Tree<K>, e: Tree<K>)
      requires Zip(c, Join(x, xr, d, a, Join(y, yr, d, b, e)))
      ensures var t := Join(x, xr, d, a, Join(y, yr, d, b, e));
        && RotateParts(c, x, y, a, b, e) && CtxNodes(c) + Nodes(t) == nodes && nil !in nodes && NilOk(nil)
        && Linked(t, CtxPtr(c, nil), nil) && LinkedCtx(c, x, root, nil) && Sized(t)
        && var t' := Join(y, yr, d, Join(x, xr, d, a, b), e);
          SizedCtx(c, Size(t')) && CtxNodes(c) + Nodes(t') == nodes
    {
      hide Nodes, CtxNodes, Linked, Sized, SizedCtx, LinkedCtx, Separate, Size, Distinct;
      RotateSeparate(c, x, xr, y, yr, d, a, b, e);
      RotatedSeparate(c, x, xr, y, yr, d, a, b, e);
      RotateSize(x, xr, y, yr, d, a, b, e);
    }

    lemma PartsZip(c: Ctx<K>, x: Node<K>, xr: bool, y: Node<K>, yr: bool, d: bool, a: Tree<K>, b: Tree<K>, e: Tree<K>)
      requires RotateParts(c, x, y, a, b, e) && nil !in nodes && NilOk(nil)
      requires var t := Join(y, yr, d, Join(x, xr, d, a, b), e);
        Linked(t, CtxPtr(c, nil), nil) && LinkedCtx(c, y, root, nil) && Sized(t) && SizedCtx(c, Size(t))
      ensures Zip(c, Join(y, yr, d, Join(x, xr, d, a, b), e))
    {
      hide Nodes, CtxNodes, Linked, Sized, SizedCtx, LinkedCtx, Separate, Size, Distinct;
      RotatedSeparate(c, x, xr, y, yr, d, a, b, e);
    }

    lemma SlotIn(c: Ctx<K>)
      ensures c.Down? ==> c.n in CtxNodes(c)
    {
    }

    lemma RotateSize(x: Node<K>, xr: bool, y: Node<K>, yr: bool, d: bool, a: Tree<K>, b: Tree<K>, e: Tree<K>)
      ensures Size(Join(y, yr, d, Join(x, xr, d, a, b), e)) == Size(Join(x, xr, d, a, Join(y, yr, d, b, e)))
    {
    }

    lemma PtrIn(t: Tree<K>)
      ensures t.T? ==> t.n in Nodes(t)
    {
    }

    lemma PtrSize(t: Tree<K>)
      requires Sized(t) && nil.size == 0
      ensures Ptr(t, nil).size == Size(t)
      ensures t.T? ==> t.n in Nodes(t)
    {
    }

    // What the heap holds around the focus.
    lemma Look(c: Ctx<K>, t: Tree<K>)
      requires Shape(c, t) || Zip(c, t)
      ensures t.T? ==> t.n in nodes && t.n != nil && t.n.red == t.red && t.n.par == CtxPtr(c, nil) &&
                       t.n.ch0 == Ptr(t.l, nil) && t.n.ch1 == Ptr(t.r, nil)
      ensures match c
        case Top => root == Ptr(t, nil)
        case Down(d, n, red, sib, up) =>
          n in nodes && n != nil && n.red == red && n.par == CtxPtr(up, nil) && n.Ch(d) == Ptr(t, nil) &&
          n.Ch(!d) == Ptr(sib, nil) && (t.T? || sib.T? ==> Ptr(t, nil) != Ptr(sib, nil)) &&
          (t.T? ==> root != t.n) && root in nodes && Ptr(sib, nil).red == !Black(sib)
      ensures !nil.red && nil !in nodes
    {
      LookRoot(c, Ptr(t, nil));
    }

    lemma {:induction false} LookRoot(c: Ctx<K>, x: Node<K>)
      requires LinkedCtx(c, x, root, nil)
      ensures c.Top? ==> root == x
      ensures c.Down? ==> root in CtxNodes(c)
      decreases c
    {
      if c.Down? { LookRoot(c.up, c.n); }
    }

    method Recolour(n: Node<K>, v: bool, ghost c: Ctx<K>, ghost red: bool, ghost d: bool, ghost a: Tree<K>,
            ghost b: Tree<K>)
      requires Zip(c, Join(n, red, d, a, b))
      modifies n`red
      ensures Zip(c, Join(n, v, d, a, b))
    {
      hide Sized, SizedCtx, Linked, LinkedCtx, Size, Nodes, CtxNodes, Distinct, DistinctCtx;
      JoinSeparate(n, red, d, a, b);
      JoinSeparate(n, v, d, a, b);
      LinkedJoin(n, red, d, a, b, CtxPtr(c, nil));
      SizedJoin(n, red, d, a, b);
      n.red := v;
      LinkedJoin(n, v, d, a, b, CtxPtr(c, nil));
      SizedJoin(n, v, d, a, b);
    }

    // The slot that holds the focus: the root variable, or the right child field of the parent.
    method GetRef(n: Node<K>, ghost c: Ctx<K>, ghost t: Tree<K>) returns (s: Slot<K>)
      requires Zip(c, t) && t.T? && n == t.n
      ensures s == SlotOf(c)
    {
      Look(c, t);
      if n == root { s := AtRoot; } else { s := AtChild(n.par, n.par.ch1 == n); }
    }

    // `insert`, uncle red: both reds of the parent generation turn black and the grandparent red.
    method InsertRecolour(p: Node<K>, g: Node<K>, u: Node<K>, ghost c: Ctx<K>, ghost t: Tree<K>)
      requires Zip(c, t) && c.Down? && c.up.Down? && p == c.n && g == c.up.n
      requires c.up.sib.T? && u == c.up.sib.n
      modifies nodes`red
      ensures Zip(c.up.up, Recoloured(c, t))
    {
      hide Zip;
      ghost var up, unc := c.up, c.up.sib;
      Look(c, t);
      ZipMove(up, p, c.red, c.d, t, c.sib);
      Recolour(p, false, up, c.red, c.d, t, c.sib);
      ghost var t1 := Join(p, false, c.d, t, c.sib);
      Look(up, t1);
      ZipMove(up.up, g, up.red, up.d, t1, unc);
      ZipMove(up.up, g, up.red, !up.d, unc, t1);
      Look(Down(!up.d, g, up.red, t1, up.up), unc);
      Recolour(u, false, Down(!up.d, g, up.red, t1, up.up), unc.red, false, unc.l, unc.r);
      ZipMove(up.up, g, up.red, !up.d, Blackened(unc), t1);
      Recolour(g, true, up.up, up.red, up.d, t1, Blackened(unc));
    }

    // `insert`, uncle black: at most two rotations end the fix-up.
    method InsertRotate(cur0: Node<K>, p0: Node<K>, g: Node<K>, pd: bool, ghost c: Ctx<K>, ghost t: Tree<K>)
      requires Zip(c, t) && t.T? && c.Down? && c.up.Down?
      requires cur0 == t.n && p0 == c.n && g == c.up.n && pd == !c.up.d
      modifies this`root, nodes`par, nodes`ch0, nodes`ch1, nodes`size, nodes`red, nil`par
      ensures Zip(c.up.up, InsertRotated(c, t))
    {
      hide Zip;
      var cur, par := cur0, p0;
      ghost var e, u, up := c.up.d, c.up.sib, c.up.up;
      Look(c, t);
      ZipMove(c.up, par, c.red, c.d, t, c.sib);
      ghost var q := Join(par, c.red, c.d, t, c.sib);
      if (cur == par.ch0) != pd {
        Rotate(AtChild(g, !pd), !pd, c.up, par, c.red, cur, t.red, c.sib, Kid(t, e), Kid(t, !e));
        q := Join(cur, t.red, e, Join(par, c.red, e, c.sib, Kid(t, e)), Kid(t, !e));
        Look(c.up, q);
        ZipMove(c.up, cur, t.red, e, Join(par, c.red, e, c.sib, Kid(t, e)), Kid(t, !e));
        Look(Down(e, cur, t.red, Kid(t, !e), c.up), Join(par, c.red, e, c.sib, Kid(t, e)));
        cur := par;
        par := cur.par;
      }
      InsertFinish(par, g, pd, c.up, q);
    }

    method InsertFinish(par: Node<K>, g: Node<K>, pd: bool, ghost c: Ctx<K>, ghost q: Tree<K>)
      requires Zip(c, q) && c.Down? && q.T? && par == q.n && g == c.n && pd == !c.d
      modifies this`root, nodes`par, nodes`ch0, nodes`ch1, nodes`size, nodes`red, nil`par
      ensures Zip(c.up, Join(par, false, pd, Join(g, true, pd, c.sib, Kid(q, pd)), Kid(q, !pd)))
    {
      hide Zip;
      Look(c, q);
      ghost var up, a, b := c.up, Kid(q, pd), Kid(q, !pd);
      Recolour(par, false, c, q.red, pd, a, b);
      ghost var q' := Join(par, false, pd, a, b);
      ZipMove(up, g, c.red, c.d, q', c.sib);
      Recolour(g, true, up, c.red, c.d, q', c.sib);
      var s := GetRef(g, up, Join(g, true, c.d, q', c.sib));
      Rotate(s, pd, up, g, true, par, false, c.sib, a, b);
    }

    // The fix-up loop of `insert`, from a fresh red leaf at `t`.
    method InsertFixUp(cur0: Node<K>, ghost c0: Ctx<K>, ghost t0: Tree<K>)
      returns (ghost shape: Tree<K>, ghost height: nat)
      requires Zip(c0, t0) && t0.T? && t0.red && cur0 == t0.n
      requires RedBlack(t0, 0) && RedBlackCtx(c0, 0, false)
      modifies this`root, nodes`par, nodes`ch0, nodes`ch1, nodes`size, nodes`red, nil`par
      ensures Zip(Top, shape) && RedBlack(shape, height) && Black(shape)
      ensures Order(shape) == Order(Plug(c0, t0))
    {
      hide Zip, RedBlack, RedBlackCtx, Order, InsertRotated;
      var cur := cur0;
      var par := cur.par;
      ghost var c, t, h := c0, t0, 0;
      Look(c, t);
      while par != nil && par.red
        invariant Zip(c, t) && t.T? && t.red && cur == t.n && RedBlack(t, h) && RedBlackCtx(c, h, false)
        invariant Order(Plug(c, t)) == Order(Plug(c0, t0))
        invariant par == CtxPtr(c, nil)
        invariant c.Down? ==> par != nil && par.red == c.red
        decreases c
      {
        Grandparent(c, h);
        Look(c, t);
        var gpar := par.par;
        ZipMove(c.up, c.n, c.red, c.d, t, c.sib);
        Look(c.up, Join(c.n, c.red, c.d, t, c.sib));
        var parDir := par == gpar.ch0;
        var uncle := gpar.Ch(parDir);
        if uncle.red {
          InsertRecolour(par, gpar, uncle, c, t);
          RecolouredRedBlack(c, t, h);
          RecolouredOrder(c, t);
          cur := gpar;
          c, t, h := c.up.up, Recoloured(c, t), h + 1;
          Look(c, t);
          par := cur.par;
        } else {
          InsertRotate(cur, par, gpar, parDir, c, t);
          InsertRotatedRedBlack(c, t, h);
          InsertRotatedOrder(c, t);
          shape := Plug(c.up.up, InsertRotated(c, t));
          height := RedBlackPlug(c.up.up, InsertRotated(c, t), h + 1);
          ZipPlug(c.up.up, InsertRotated(c, t));
          return;
        }
      }
      BlackenedRedBlack(t, h);
      Look(c, t);
      if par == nil {
        Recolour(cur, false, Top, true, false, t.l, t.r);
        shape, height := Blackened(t), h + 1;
        BlackenedOrder(t);
      } else {
        shape := Plug(c, t);
        UnderBlack(c, h);
        height := RedBlackPlug(c, t, h);
        ZipPlug(c, t);
      }
    }

    // A focused tree, seen from the root.
    lemma {:induction false} ZipPlug(c: Ctx<K>, t: Tree<K>)
      ensures Zip(c, t) <==> Zip(Top, Plug(c, t))
      decreases c
    {
      hide Zip;
      if c.Down? {
        ZipMove(c.up, c.n, c.red, c.d, t, c.sib);
        ZipPlug(c.up, Join(c.n, c.red, c.d, t, c.sib));
      }
    }

    // ---- insertion ----

    lemma OpenSizes(c: Ctx<K>, t: Tree<K>, d: bool)
      requires Shape(c, t) && Sized(t) && t.T?
      ensures t.n.size == Size(t) && Sized(Kid(t, d)) && Sized(Kid(t, !d))
      ensures t.n !in Nodes(Kid(t, d)) && t.n !in Nodes(Kid(t, !d)) && t.n !in CtxNodes(c)
    {
    }

    lemma CloseSizes(c: Ctx<K>, t: Tree<K>, d: bool)
      requires t.T? && t.n.size == Size(t) + 1 && Sized(Kid(t, !d)) && SizedCtx(c, Size(t) + 1)
      ensures SizedCtx(Down(d, t.n, t.red, Kid(t, !d), c), Size(Kid(t, d)) + 1)
    {
    }

    // Hangs the fresh red leaf `n` in the place of the empty focus.
    method Attach(n: Node<K>, par: Node<K>, d: bool, ghost c: Ctx<K>)
      requires Shape(c, Leaf) && SizedCtx(c, 1) && c.Down? && par == c.n && d == c.d
      requires n !in nodes && n != nil && n.par == par && n.red && n.size == 1 && n.ch0 == nil && n.ch1 == nil
      modifies par`ch0, par`ch1, this`nodes
      ensures nodes == old(nodes) + {n} && Zip(c, T(n, true, Leaf, Leaf))
    {
      if d { par.ch1 := n; } else { par.ch0 := n; }
      nodes := nodes + {n};
    }

    // `insert` into the empty tree.
    method InsertFirst(val: K)
      requires Valid() && root == nil
      modifies this
      ensures Valid() && fresh(nodes) && old(Contents()) == [] && Contents() == [val]
    {
      Look(Top, tree);
      var n := new Node.Fresh(val, nil, false, nil);
      root := n;
      nodes, tree, bh := {n}, T(n, false, Leaf, Leaf), 1;
      assert Nodes(tree) == {n} && Order(tree) == [n];
    }

    // The walk of `insert` down to the empty place for `val`, counting the node to come.
    method WalkDown(val: K) returns (par: Node<K>, ghost c: Ctx<K>)
      requires Valid() && root != nil
      modifies nodes`size
      ensures Shape(c, Leaf) && SizedCtx(c, 1) && c.Down? && par == c.n && Plug(c, Leaf) == tree
      ensures c.d <==> rank(par.key) < rank(val)
      ensures AllBelow(Before(c), rank, rank(val)) && AllFrom(After(c), rank, rank(val))
    {
      hide Zip, Shape, RedBlack, Before, After, SortedNodes, AllBelow, AllFrom, Order, RedBlackCtx, Sized, SizedCtx,
          Nodes, CtxNodes, Size;
      Members();
      ghost var t: Tree<K>;
      c, t := Top, tree;
      Look(c, t);
      TopKeys(rank(val));
      StartWalk();
      par := nil;
      var cur := root;
      while cur != nil
        invariant Shape(c, t) && Sized(t) && SizedCtx(c, Size(t) + 1)
        invariant cur == Ptr(t, nil) && Plug(c, t) == tree
        invariant c.Down? ==> par == c.n && (c.d <==> rank(par.key) < rank(val))
        invariant t.Leaf? ==> c.Down?
        invariant SortedNodes(Order(tree), rank)
        invariant AllBelow(Before(c), rank, rank(val)) && AllFrom(After(c), rank, rank(val))
        decreases t
      {
        Look(c, t);
        var d := rank(cur.key) < rank(val);
        Descend(c, t, d, rank(val));
        ShapeMove(c, t.n, t.red, d, Kid(t, d), Kid(t, !d));
        OpenSizes(c, t, d);
        cur.size := cur.size + 1;
        CloseSizes(c, t, d);
        par := cur;
        cur := cur.Ch(d);
        c, t := Down(d, t.n, t.red, Kid(t, !d), c), Kid(t, d);
        Look(c, t);
      }
      Look(c, t);
    }

    lemma StartWalk()
      requires Zip(Top, tree)
      ensures Shape(Top, tree) && Sized(tree) && SizedCtx<K>(Top, Size(tree) + 1)
    {
    }

    // The second half of `insert`: the new leaf and the fix-up.
    method InsertAt(val: K, par: Node<K>, ghost c: Ctx<K>) returns (ghost n: Node<K>)
      requires Shape(c, Leaf) && SizedCtx(c, 1) && c.Down? && par == c.n && (c.d <==> rank(par.key) < rank(val))
      requires RedBlack(Plug(c, Leaf), bh) && Black(Plug(c, Leaf))
      modifies this, nodes`par, nodes`ch0, nodes`ch1, nodes`size, nodes`red, nil`par
      ensures fresh(n) && nodes == old(nodes) + {n} && n.key == val
      ensures Zip(Top, tree) && RedBlack(tree, bh) && Black(tree)
      ensures Order(tree) == Before(c) + [n] + After(c)
    {
      hide Zip, Shape, RedBlack, Before, After, Order, RedBlackCtx, SizedCtx;
      Look(c, Leaf);
      ShapeNodes(c, Leaf);
      StartFixUp(c);
      var x := new Node.Fresh(val, par, true, nil);
      Attach(x, par, rank(par.key) < rank(val), c);
      LeafFacts(x);
      tree, bh := InsertFixUp(x, c, T(x, true, Leaf, Leaf));
      PlugOrder(c, T(x, true, Leaf, Leaf));
      n := x;
    }

    // `insert` into a tree with nodes.
    method InsertBelow(val: K) returns (ghost at: nat, ghost n: Node<K>)
      requires Valid() && root != nil
      modifies this, nodes`par, nodes`ch0, nodes`ch1, nodes`size, nodes`red, nil`par
      ensures fresh(n) && nodes == old(nodes) + {n} && n.key == val
      ensures Zip(Top, tree) && RedBlack(tree, bh) && Black(tree)
      ensures Splits(old(Contents()), at, rank(val))
      ensures Order(tree) == old(Order(tree)[..at] + [n] + Order(tree)[at..])
    {
      hide Zip, Shape, RedBlack, Before, After, AllBelow, AllFrom, Order, RedBlackCtx, SortedNodes, SizedCtx;
      TopNodes();
      ghost var ks, o := Contents(), Order(tree);
      assert forall i :: 0 <= i < |o| ==> o[i] in nodes && o[i].key == ks[i];
      var par, c := WalkDown(val);
      PlugOrder(c, Leaf);
      TopKeys(rank(val));
      SplitFound(c, o, ks, rank(val));
      at := |Before(c)|;
      n := InsertAt(val, par, c);
    }

    method Insert(val: K) returns (ghost at: nat)
      requires Valid()
      modifies Repr()
      ensures Valid() && fresh(nodes - old(nodes))
      ensures Splits(old(Contents()), at, rank(val))
      ensures Contents() == old(Contents()[..at] + [val] + Contents()[at..])
    {
      hide Zip, RedBlack, Order, SortedNodes;
      TopNodes();
      if root == nil {
        InsertFirst(val);
        at := 0;
      } else {
        ghost var ks, o := Contents(), Order(tree);
        SortedKeys(o, ks);
        assert forall i :: 0 <= i < |o| ==> o[i] in nodes && o[i].key == ks[i];
        ghost var n;
        at, n := InsertBelow(val);
        FinishInsert(o, at, n, ks, val);
      }
    }

    lemma StartFixUp(c: Ctx<K>)
      requires RedBlack(Plug(c, Leaf), bh) && Black(Plug(c, Leaf))
      ensures RedBlackCtx(c, 0, false)
    {
      var h := RedBlackUnplug(c, Leaf, bh);
    }

    lemma ShapeNodes(c: Ctx<K>, t: Tree<K>)
      requires Shape(c, t)
      ensures CtxNodes(c) <= nodes
    {
    }

    lemma LeafFacts(n: Node<K>)
      ensures RedBlack(T(n, true, Leaf, Leaf), 0) && Order(T(n, true, Leaf, Leaf)) == [n]
    {
    }

    lemma TopNodes()
      requires Zip(Top, tree)
      ensures forall i :: 0 <= i < |Order(tree)| ==> Order(tree)[i] in nodes
    {
      Members();
      OrderNodes(tree);
    }

    lemma SortedKeys(o: seq<Node<K>>, ks: seq<K>)
      requires ks == KeysOf(o)
      ensures SortedNodes(o, rank) <==> Sorted(ks)
    {
    }

    lemma ContentsSorted()
      requires Valid()
      ensures Sorted(Contents()) && |Contents()| == |Order(tree)|
    {
      TopNodes();
      SortedKeys(Order(tree), Contents());
    }

    ghost predicate Sorted(ks: seq<K>) {
      forall i, j :: 0 <= i < j < |ks| ==> rank(ks[i]) <= rank(ks[j])
    }

    lemma SplitFound(c: Ctx<K>, o: seq<Node<K>>, ks: seq<K>, v: int)
      requires o == Before(c) + After(c) && |ks| == |o| && forall i :: 0 <= i < |o| ==> o[i].key == ks[i]
      requires AllBelow(Before(c), rank, v) && AllFrom(After(c), rank, v)
      ensures Splits(ks, |Before(c)|, v)
    {
      hide Before, After;
      var k := |Before(c)|;
      assert forall i :: 0 <= i < k ==> o[i] == Before(c)[i];
      assert forall i :: k <= i < |o| ==> o[i] == After(c)[i - k];
    }

    lemma FinishInsert(o: seq<Node<K>>, at: nat, n: Node<K>, ks: seq<K>, val: K)
      requires |ks| == |o| && forall i :: 0 <= i < |o| ==> o[i].key == ks[i]
      requires n.key == val && Sorted(ks) && Splits(ks, at, rank(val))
      ensures var o' := o[..at] + [n] + o[at..];
        KeysOf(o') == ks[..at] + [val] + ks[at..] && SortedNodes(o', rank)
    {
      hide Sorted, SortedNodes;
      InsertSorted(ks, at, val);
      SortedKeys(o[..at] + [n] + o[at..], ks[..at] + [val] + ks[at..]);
    }

    lemma InsertSorted(ks: seq<K>, at: nat, val: K)
      requires Sorted(ks) && Splits(ks, at, rank(val))
      ensures Sorted(ks[..at] + [val] + ks[at..])
    {
      var ks' := ks[..at] + [val] + ks[at..];
      assert forall i :: 0 <= i < at ==> ks'[i] == ks[i];
      assert forall i :: at < i < |ks'| ==> ks'[i] == ks[i - 1];
    }

    // ---- deletion ----

    // `remove_bottom`, red sibling.
    method RemoveRedSibling(p: Node<K>, s: Node<K>, d: bool, ghost c: Ctx<K>, ghost t: Tree<K>)
      requires Zip(c, t) && c.Down? && c.sib.T? && Kid(c.sib, c.d).T? && p == c.n && s == c.sib.n && d == c.d
      modifies this`root, nodes`par, nodes`ch0, nodes`ch1, nodes`size, nodes`red, nil`par
      ensures Zip(RedSiblingCtx(c), t)
    {
      hide Zip;
      ghost var up, sib := c.up, c.sib;
      ZipMove(up, p, c.red, d, t, sib);
      Look(c, t);
      Recolour(p, true, up, c.red, d, t, sib);
      ZipMove(up, p, true, !d, sib, t);
      Look(Down(!d, p, true, t, up), sib);
      Recolour(s, false, Down(!d, p, true, t, up), sib.red, d, Kid(sib, d), Kid(sib, !d));
      ghost var sib' := Join(s, false, d, Kid(sib, d), Kid(sib, !d));
      ZipMove(up, p, true, !d, sib', t);
      var ref := GetRef(p, up, Join(p, true, d, t, sib'));
      Rotate(ref, d, up, p, true, s, false, t, Kid(sib, d), Kid(sib, !d));
      ZipMove(up, s, false, d, Join(p, true, d, t, Kid(sib, d)), Kid(sib, !d));
      ZipMove(Down(d, s, false, Kid(sib, !d), up), p, true, d, t, Kid(sib, d));
    }

    // `remove_bottom`, black sibling with black children.
    method RemovePushUp(s: Node<K>, ghost c: Ctx<K>, ghost t: Tree<K>)
      requires Zip(c, t) && c.Down? && c.sib.T? && s == c.sib.n
      modifies nodes`red
      ensures Zip(c.up, PushedUp(c, t))
    {
      hide Zip;
      ghost var up, sib, d := c.up, c.sib, c.d;
      ZipMove(up, c.n, c.red, d, t, sib);
      ZipMove(up, c.n, c.red, !d, sib, t);
      Look(Down(!d, c.n, c.red, t, up), sib);
      Recolour(s, true, Down(!d, c.n, c.red, t, up), sib.red, false, sib.l, sib.r);
      ZipMove(up, c.n, c.red, !d, sib.(red := true), t);
    }

    // `remove_bottom`, black sibling whose near child is red and far child black.
    method RemoveNear(p: Node<K>, s: Node<K>, d: bool, ghost c: Ctx<K>, ghost t: Tree<K>)
      requires Zip(c, t) && c.Down? && c.sib.T? && Kid(c.sib, c.d).T? && p == c.n && s == c.sib.n && d == c.d
      modifies this`root, nodes`par, nodes`ch0, nodes`ch1, nodes`size, nodes`red, nil`par
      ensures Zip(c.(sib := NearRotated(c.sib, d)), t)
    {
      hide Zip;
      ghost var up, sib := c.up, c.sib;
      ghost var near, far := Kid(sib, d), Kid(sib, !d);
      ghost var c1 := Down(!d, p, c.red, t, up);
      ZipMove(up, p, c.red, d, t, sib);
      ZipMove(up, p, c.red, !d, sib, t);
      Look(c1, sib);
      var m := s.Ch(d);
      ZipMove(c1, s, sib.red, d, near, far);
      Look(Down(d, s, sib.red, far, c1), near);
      Recolour(m, false, Down(d, s, sib.red, far, c1), near.red, d, Kid(near, d), Kid(near, !d));
      ghost var near' := Join(m, false, d, Kid(near, d), Kid(near, !d));
      ZipMove(c1, s, sib.red, d, near', far);
      Look(c1, Join(s, sib.red, d, near', far));
      Recolour(s, true, c1, sib.red, d, near', far);
      Look(c1, Join(s, true, d, near', far));
      Rotate(AtChild(p, s == p.ch1), !d, c1, s, true, m, false, far, Kid(near, !d), Kid(near, d));
      ZipMove(up, p, c.red, !d, NearRotated(sib, d), t);
      ZipMove(up, p, c.red, d, t, NearRotated(sib, d));
    }

    // `remove_bottom`, black sibling whose far child is red: the last rotation.
    method RemoveFar(p: Node<K>, s: Node<K>, d: bool, ghost c: Ctx<K>, ghost t: Tree<K>)
      requires Zip(c, t) && c.Down? && c.sib.T? && Kid(c.sib, !c.d).T? && p == c.n && s == c.sib.n && d == c.d
      modifies this`root, nodes`par, nodes`ch0, nodes`ch1, nodes`size, nodes`red, nil`par
      ensures Zip(c.up, FarRotated(c, t))
    {
      hide Zip;
      ghost var up, sib := c.up, c.sib;
      ghost var near, far := Kid(sib, d), Kid(sib, !d);
      ghost var c1 := Down(!d, p, c.red, t, up);
      ZipMove(up, p, c.red, d, t, sib);
      ZipMove(up, p, c.red, !d, sib, t);
      Look(c, t);
      Look(c1, sib);
      Recolour(s, p.red, c1, sib.red, d, near, far);
      ghost var sib' := Join(s, c.red, d, near, far);
      ZipMove(up, p, c.red, !d, sib', t);
      Look(up, Join(p, c.red, d, t, sib'));
      Recolour(p, false, up, c.red, d, t, sib');
      ghost var c2 := Down(!d, p, false, t, up);
      ZipMove(up, p, false, !d, sib', t);
      Look(c2, sib');
      ZipMove(c2, s, c.red, !d, far, near);
      var f := s.Ch(!d);
      Look(Down(!d, s, c.red, near, c2), far);
      Recolour(f, false, Down(!d, s, c.red, near, c2), far.red, false, far.l, far.r);
      ZipMove(c2, s, c.red, !d, Blackened(far), near);
      ZipMove(up, p, false, !d, Join(s, c.red, d, near, Blackened(far)), t);
      var ref := GetRef(p, up, Join(p, false, d, t, Join(s, c.red, d, near, Blackened(far))));
      Rotate(ref, d, up, p, false, s, c.red, t, near, Blackened(far));
    }

    // One round of `remove_bottom`, first part: make the sibling black.
    method BlackenSibling(n: Node<K>, p: Node<K>, d: bool, ghost c: Ctx<K>, ghost t: Tree<K>, ghost h: nat)
      returns (s: Node<K>, ghost c1: Ctx<K>)
      requires Zip(c, t) && n == Ptr(t, nil) && c.Down? && p == c.n && d == c.d
      requires RedBlack(t, h) && RedBlackCtx(c, h + 1, false)
      modifies this`root, nodes`par, nodes`ch0, nodes`ch1, nodes`size, nodes`red, nil`par
      ensures Zip(c1, t) && RedBlackCtx(c1, h + 1, false) && Order(Plug(c1, t)) == Order(Plug(c, t))
      ensures c1.Down? && c1.n == p && c1.d == d && c1.sib.T? && s == c1.sib.n && Black(c1.sib)
      ensures c1 == c || (c1.red && !Black(c.sib))
    {
      hide Zip, RedBlack, RedBlackCtx, Order, Plug;
      Look(c, t);
      SiblingExists(c, h);
      c1 := c;
      s := p.Ch(!d);
      if s.red {
        RemoveRedSibling(p, s, d, c, t);
        RedSiblingRedBlack(c, h);
        RedSiblingOrder(c, t);
        c1 := RedSiblingCtx(c);
        Look(c1, t);
        s := p.Ch(!d);
      }
    }

    // One round of `remove_bottom`, last part: a red child of the black sibling ends the fix-up.
    method RemoveFinish(p: Node<K>, s0: Node<K>, dir: bool, ghost c: Ctx<K>, ghost t: Tree<K>, ghost h: nat)
      returns (ghost shape: Tree<K>, ghost height: nat)
      requires Zip(c, t) && c.Down? && p == c.n && dir == c.d && c.sib.T? && s0 == c.sib.n
      requires RedBlack(t, h) && Black(t) && RedBlackCtx(c, h + 1, false) && Black(c.sib)
      requires !Black(c.sib.l) || !Black(c.sib.r)
      modifies this`root, nodes`par, nodes`ch0, nodes`ch1, nodes`size, nodes`red, nil`par
      ensures Zip(Top, shape) && RedBlack(shape, height) && Black(shape)
      ensures Order(shape) == Order(Plug(c, t))
    {
      hide Zip, RedBlack, RedBlackCtx, Order, FarRotated, Plug;
      var s := s0;
      ghost var c1 := c;
      KidColours(c, t, dir);
      if !s.Ch(!dir).red {
        RemoveNear(p, s, dir, c, t);
        NearRotatedRedBlack(c, h);
        NearRotatedOrder(c, t);
        c1 := c.(sib := NearRotated(c.sib, dir));
        Look(c1, t);
        s := p.Ch(!dir);
      }
      RemoveFar(p, s, dir, c1, t);
      FarRotatedOrder(c1, t);
      ghost var h' := FarRotatedRedBlack(c1, t, h);
      shape := Plug(c1.up, FarRotated(c1, t));
      height := RedBlackPlug(c1.up, FarRotated(c1, t), h');
      ZipPlug(c1.up, FarRotated(c1, t));
    }

    // The fix-up loop of `remove_bottom`, from a focus one black node short.  The focus may be the
    // sentinel, whose parent link is then the scratch the unlinking left in it.
    method RemoveFixUp(n0: Node<K>, ghost c0: Ctx<K>, ghost t0: Tree<K>, ghost h0: nat)
      returns (ghost shape: Tree<K>, ghost height: nat)
      requires Zip(c0, t0) && n0 == Ptr(t0, nil) && n0.par == CtxPtr(c0, nil)
      requires RedBlack(t0, h0) && Black(t0) && RedBlackCtx(c0, h0 + 1, false)
      modifies this`root, nodes`par, nodes`ch0, nodes`ch1, nodes`size, nodes`red, nil`par, nil`red
      ensures Zip(Top, shape) && RedBlack(shape, height) && Black(shape)
      ensures Order(shape) == Order(Plug(c0, t0))
    {
      hide Zip, RedBlack, RedBlackCtx, Order, Plug;
      var n := n0;
      ghost var c, t, h := c0, t0, h0;
      StartRemove(t, h);
      Look(c, t);
      while n != root && !n.red
        invariant Zip(c, t) && n == Ptr(t, nil) && n.par == CtxPtr(c, nil)
        invariant NearlyRedBlack(t, h) && RedBlackCtx(c, h + 1, false)
        invariant Order(Plug(c, t)) == Order(Plug(c0, t0))
        // zero once the focus is red or the root, else one more than its depth
        decreases if c.Top? || !Black(t) then 0 else Depth(c) + 1
      {
        Look(c, t);
        SiblingExists(c, h);
        BlackNearly(t, h);
        var p := n.par;
        var d := n != p.ch0;
        ghost var c1;
        var s;
        s, c1 := BlackenSibling(n, p, d, c, t, h);
        Look(c1, t);
        KidColours(c1, t, d);
        if !s.ch0.red && !s.ch1.red {
          RemovePushUp(s, c1, t);
          PushedUpRedBlack(c1, t, h);
          PushedUpOrder(c1, t);
          h := if c1.red then h else h + 1;
          c, t := c1.up, PushedUp(c1, t);
          Look(c, t);
          n := p;
        } else {
          shape, height := RemoveFinish(p, s, n == p.ch1, c1, t, h);
          return;
        }
      }
      Look(c, t);
      SetBlack(n, c, t);
      shape := Plug(c, Blackened(t));
      height := BlackenedPlug(c, t, h);
      ZipPlug(c, Blackened(t));
      BlackenedOrder(t);
      SameOrder(c, t, Blackened(t));
    }

    // `set_black` on a focus that may be the sentinel.
    method SetBlack(n: Node<K>, ghost c: Ctx<K>, ghost t: Tree<K>)
      requires Zip(c, t) && n == Ptr(t, nil)
      modifies n`red
      ensures Zip(c, Blackened(t))
    {
      hide Sized, SizedCtx, Linked, LinkedCtx, Size, Nodes, CtxNodes, Distinct, DistinctCtx;
      ghost var p := CtxPtr(c, nil);
      if t.T? {
        JoinSeparate(n, t.red, false, t.l, t.r);
        JoinSeparate(n, false, false, t.l, t.r);
        LinkedJoin(n, t.red, false, t.l, t.r, p);
        SizedJoin(n, t.red, false, t.l, t.r);
      }
      n.red := false;
      if t.T? {
        LinkedJoin(n, false, false, t.l, t.r, p);
        SizedJoin(n, false, false, t.l, t.r);
      }
    }

    lemma KidColours(c: Ctx<K>, t: Tree<K>, d: bool)
      requires Zip(c, t) && c.Down? && c.sib.T?
      ensures c.sib.n.Ch(d).red == !Black(Kid(c.sib, d)) && c.sib.n.Ch(!d).red == !Black(Kid(c.sib, !d))
      ensures c.sib.n.ch0.red == !Black(c.sib.l) && c.sib.n.ch1.red == !Black(c.sib.r)
    {
      assert Linked(c.sib.l, c.sib.n, nil) && Linked(c.sib.r, c.sib.n, nil);
    }

    lemma StartRemove(t: Tree<K>, h: nat)
      requires RedBlack(t, h)
      ensures Black(t) ==> NearlyRedBlack(t, h)
    {
    }

    lemma BlackNearly(t: Tree<K>, h: nat)
      requires NearlyRedBlack(t, h) && Black(t)
      ensures RedBlack(t, h)
    {
    }

    // The first loop of `remove_bottom`: every node from `n` up to the root counts one node less.
    method CountDown(n: Node<K>, ghost c: Ctx<K>, ghost t: Tree<K>)
      requires Zip(c, t) && t.T? && n == t.n
      modifies nodes`size
      ensures Shape(c, t) && Sized(t.l) && Sized(t.r) && SizedCtx(c, Size(t) - 1)
    {
      hide Zip, Shape, Sized, SizedCtx, Linked, LinkedCtx, Nodes, CtxNodes, Spine, SpineSizes, BesideNodes,
          BesideSized, Distinct, DistinctCtx;
      Look(c, t);
      CountDownFacts(c, t);
      ghost var spine, want := Spine(c), SpineSizes(c, Size(t) - 1);
      n.size := n.size - 1;
      var i := n.par;
      ghost var k := 0;
      while i != nil
        invariant k <= |spine| && i == if k < |spine| then spine[k] else nil
        invariant Shape(c, t) && BesideSized(c) && Sized(t.l) && Sized(t.r)
        invariant Chain(spine, nil)
        invariant forall j :: 0 <= j < k ==> spine[j].size == want[j]
        invariant forall j :: k <= j < |spine| ==> spine[j].size == want[j] + 1
        decreases |spine| - k
      {
        i.size := i.size - 1;
        i := i.par;
        k := k + 1;
      }
      SizedCtxFlat(c, Size(t) - 1);
    }

    lemma CountDownFacts(c: Ctx<K>, t: Tree<K>)
      requires Zip(c, t) && t.T?
      ensures Shape(c, t) && Sized(t.l) && Sized(t.r) && BesideSized(c) && Size(t) > 0
      ensures var out := Nodes(t.l) + Nodes(t.r) + BesideNodes(c);
        t.n !in out && t.n !in Spine(c) && forall k :: 0 <= k < |Spine(c)| ==>
            Spine(c)[k] in nodes && Spine(c)[k] !in out
      ensures nil !in nodes && CtxPtr(c, nil) == (if |Spine(c)| > 0 then Spine(c)[0] else nil)
      ensures Chain(Spine(c), nil) && forall j, k :: 0 <= j < k < |Spine(c)| ==> Spine(c)[j] != Spine(c)[k]
      ensures forall k :: 0 <= k < |Spine(c)| ==> Spine(c)[k].size == SpineSizes(c, Size(t) - 1)[k] + 1
    {
      TreeFacts(t);
      hide Sized, SizedCtx, Linked, LinkedCtx, Nodes, CtxNodes, Spine, SpineSizes, BesideNodes, BesideSized, Distinct,
          DistinctCtx, Size, NilOk, Chain;
      SizedCtxFlat(c, Size(t));
      forall k | 0 <= k < |Spine(c)| { SpineSizesShift(c, Size(t) - 1, k); }
      SpineChain(c, Ptr(t, nil), root, nil);
      SpineApart(c, t);
    }

    static lemma SpineApart(c: Ctx<K>, t: Tree<K>)
      requires t.T? && CtxNodes(c) !! Nodes(t) && Distinct(t)
      requires BesideNodes(c) <= CtxNodes(c)
      requires forall k :: 0 <= k < |Spine(c)| ==> Spine(c)[k] in CtxNodes(c) && Spine(c)[k] !in BesideNodes(c)
      ensures t.n !in BesideNodes(c) && t.n !in Spine(c)
      ensures forall k :: 0 <= k < |Spine(c)| ==> Spine(c)[k] !in Nodes(t.l) && Spine(c)[k] !in Nodes(t.r)
    {
      hide Spine, BesideNodes, CtxNodes;
    }

    static lemma TreeFacts(t: Tree<K>)
      requires t.T? && Sized(t) && Distinct(t)
      ensures Nodes(t) == Nodes(t.l) + {t.n} + Nodes(t.r) && Sized(t.l) && Sized(t.r) && Size(t) > 0
      ensures t.n !in Nodes(t.l) && t.n !in Nodes(t.r)
    {
    }

    // The only child a node to be unlinked may have.
    static ghost function OnlyKid(t: Tree<K>): Tree<K>
      requires t.T?
    {
      if t.l.Leaf? then t.r else t.l
    }

    // `remove_bottom` takes the node `t.n` out; its only child, or the sentinel, takes its place.
    method Unlink(s: Slot<K>, ghost c: Ctx<K>, ghost t: Tree<K>) returns (n: Node<K>, x: Node<K>)
      requires Shape(c, t) && t.T? && (t.l.Leaf? || t.r.Leaf?) && s == SlotOf(c)
      requires Sized(t.l) && Sized(t.r) && SizedCtx(c, Size(t) - 1)
      modifies this`root, this`nodes, nodes`par, nodes`ch0, nodes`ch1, nil`par
      ensures n == t.n && nodes == old(nodes) - {n}
      ensures x == Ptr(OnlyKid(t), nil) && Zip(c, OnlyKid(t)) && x.par == CtxPtr(c, nil)
    {
      hide Linked, LinkedCtx, Sized, SizedCtx, Nodes, CtxNodes, Distinct, DistinctCtx;
      ghost var k := OnlyKid(t);
      UnlinkFacts(c, t);
      n := Get(s);
      x := n.Ch(n.ch0 == nil);
      Reparent(x, n.par, k, n);
      Redirect(s, x, c, n);
      nodes := nodes - {n};
    }

    lemma UnlinkFacts(c: Ctx<K>, t: Tree<K>)
      requires Shape(c, t) && t.T? && (t.l.Leaf? || t.r.Leaf?)
      ensures var n, k := t.n, OnlyKid(t);
        && Linked(k, n, nil) && Distinct(k) && n.Ch(n.ch0 == nil) == Ptr(k, nil) && n.par == CtxPtr(c, nil)
        && Nodes(t) == Nodes(k) + {n} && n !in Nodes(k) && Size(k) == Size(t) - 1
        && (c.Down? ==> c.n in CtxNodes(c)) && Get(SlotOf(c)) == n
        && (k.T? ==> k.n in Nodes(k))
    {
      SlotHolds(c, t.n);
      PtrIn(OnlyKid(t));
    }

    method RemoveBottom(s: Slot<K>, ghost c: Ctx<K>, ghost t: Tree<K>)
      requires Zip(c, t) && t.T? && (t.l.Leaf? || t.r.Leaf?) && s == SlotOf(c)
      requires RedBlack(Plug(c, t), bh) && Black(Plug(c, t))
      modifies this`root, this`nodes, this`tree, this`bh, nil`par, nil`red
      modifies nodes`par, nodes`ch0, nodes`ch1, nodes`size, nodes`red
      ensures nodes == old(nodes) - {t.n}
      ensures Zip(Top, tree) && RedBlack(tree, bh) && Black(tree)
      ensures Order(tree) == Before(c) + Order(OnlyKid(t)) + After(c)
    {
      hide Zip, Shape, RedBlack, RedBlackCtx, Order, Before, After, Plug, Sized, SizedCtx, Size;
      ghost var k := OnlyKid(t);
      ghost var h := RedBlackUnplug(c, t, bh);
      RemovedRedBlack(c, t, h);
      SlotLook(c, t);
      CountDown(Get(s), c, t);
      Look(c, t);
      var n, x := Unlink(s, c, t);
      PlugOrder(c, k);
      Look(c, k);
      if n.red {
        tree := Plug(c, k);
        bh := RedBlackPlug(c, k, h);
        ZipPlug(c, k);
      } else if x.red {
        SetBlack(x, c, k);
        BlackenedOrder(k);
        SameOrder(c, k, Blackened(k));
        tree := Plug(c, Blackened(k));
        bh := RedBlackPlug(c, Blackened(k), h);
        ZipPlug(c, Blackened(k));
      } else {
        tree, bh := RemoveFixUp(x, c, k, h - 1);
      }
    }

    lemma SlotLook(c: Ctx<K>, t: Tree<K>)
      requires Zip(c, t) && t.T?
      ensures Get(SlotOf(c)) == t.n
    {
      SlotHolds(c, t.n);
    }

    static lemma RemovedRedBlack(c: Ctx<K>, t: Tree<K>, h: nat)
      requires t.T? && (t.l.Leaf? || t.r.Leaf?) && RedBlack(t, h) && RedBlackCtx(c, h, !Black(t))
      ensures var k := OnlyKid(t);
        && (t.red ==> Black(k) && RedBlack(k, h) && RedBlackCtx(c, h, false))
        && (!t.red ==> h > 0 && RedBlack(k, h - 1) && RedBlackCtx(c, h, false))
        && (!t.red && !Black(k) ==> RedBlack(Blackened(k), h))
    {
      if t.red { CtxWeaken(c, h); }
      if !Black(OnlyKid(t)) { BlackenedRedBlack(OnlyKid(t), h - 1); }
    }

    // The node that `erase` takes out: `ptr` itself, or the leftmost node to its right.
    method Victim(ptr: Node<K>, ghost c: Ctx<K>, ghost t: Tree<K>)
      returns (prev: Node<K>, ghost pc: Ctx<K>, ghost pt: Tree<K>)
      requires Zip(c, t) && t.T? && ptr == t.n
      ensures Zip(pc, pt) && pt.T? && prev == pt.n && Plug(pc, pt) == Plug(c, t)
      ensures t.r.Leaf? ==> prev == ptr && pc == c && pt == t
      ensures t.r.T? ==> prev != ptr && pt.l.Leaf? && |Before(pc)| == |Before(c)| + |Order(t.l)| + 1
    {
      hide Zip, Order, CtxNodes, Nodes;
      Look(c, t);
      ZipMove(c, t.n, t.red, true, t.r, t.l);
      SlotIn(Down(true, t.n, t.red, t.l, c));
      ghost var f;
      pc, f := Down(true, t.n, t.red, t.l, c), t.r;
      prev := nil;
      var cur := ptr.ch1;
      Look(pc, f);
      while cur != nil
        invariant Zip(pc, f) && cur == Ptr(f, nil) && Plug(pc, f) == Plug(c, t)
        invariant pc.Down? && |Before(pc)| == |Before(c)| + |Order(t.l)| + 1
        invariant ptr in CtxNodes(pc)
        invariant if prev == nil then f == t.r && pc == Down(true, t.n, t.red, t.l, c)
            else !pc.d && prev == pc.n && t.r.T? && prev != ptr
        decreases f
      {
        ghost var pc' := Down(false, f.n, f.red, f.r, pc);
        Look(pc, f);
        ZipMove(pc, f.n, f.red, false, f.l, f.r);
        OtherNode(pc, f, ptr);
        prev := cur;
        cur := cur.ch0;
        pc, f := pc', f.l;
        Look(pc, f);
      }
      Look(pc, f);
      if prev != nil {
        ZipMove(pc.up, pc.n, pc.red, pc.d, f, pc.sib);
        pt := Join(pc.n, pc.red, pc.d, f, pc.sib);
        pc := pc.up;
      } else {
        ZipMove(c, t.n, t.red, true, t.r, t.l);
        pc, pt := c, t;
        prev := ptr;
      }
    }

    lemma OtherNode(c: Ctx<K>, t: Tree<K>, x: Node<K>)
      requires Zip(c, t) && t.T? && x in CtxNodes(c)
      ensures t.n != x && x in CtxNodes(Down(false, t.n, t.red, t.r, c))
    {
    }

    // Taking out the victim takes out one place of the order.
    static lemma EraseOrders(c: Ctx<K>, t: Tree<K>, pc: Ctx<K>, pt: Tree<K>, at: nat)
      requires t.T? && pt.T? && Plug(pc, pt) == Plug(c, t) && |Before(c)| + |Order(t.l)| == at
      requires if t.r.Leaf? then pc == c && pt == t else pt.l.Leaf? && |Before(pc)| == at + 1
      ensures var o, k := Order(Plug(c, t)), if t.r.Leaf? then at else at + 1;
        k < |o| && o[k] == pt.n && Before(pc) + Order(OnlyKid(pt)) + After(pc) == o[..k] + o[k + 1..]
    {
      hide Before, After, Plug, Order, OnlyKid;
      PlugOrder(pc, pt);
      OnlyKidOrder(pt);
      ghost var k := if t.r.Leaf? then at else at + 1;
      assert k == |Before(pc)| + |Order(pt.l)|;
      CutOut(Order(Plug(c, t)), Before(pc), Order(pt.l), pt.n, Order(pt.r), After(pc), Order(pt), Order(OnlyKid(pt)),
          k);
    }

    static lemma OnlyKidOrder(t: Tree<K>)
      requires t.T? && (t.l.Leaf? || t.r.Leaf?)
      ensures Order(t) == Order(t.l) + [t.n] + Order(t.r) && Order(OnlyKid(t)) == Order(t.l) + Order(t.r)
      ensures t.l.Leaf? ==> Order(t.l) == []
    {
    }

    static lemma CutOut(o: seq<Node<K>>, a: seq<Node<K>>, l: seq<Node<K>>, n: Node<K>, r: seq<Node<K>>,
            c: seq<Node<K>>, m: seq<Node<K>>, rest: seq<Node<K>>, k: nat)
      requires o == a + m + c && m == l + [n] + r && rest == l + r && k == |a| + |l|
      ensures k < |o| && o[k] == n && a + rest + c == o[..k] + o[k + 1..]
    {
      assert o[..k] == a + l && o[k + 1..] == r + c;
    }

    lemma FinishErase(o: seq<Node<K>>, ks: seq<K>, at: nat, k: nat)
      requires at < |o| == |ks| && at <= k <= at + 1 && k < |o| && Sorted(ks)
      requires forall i :: 0 <= i < |o| ==> o[i].key == if i == at then ks[k] else ks[i]
      ensures var o' := o[..k] + o[k + 1..];
        KeysOf(o') == ks[..at] + ks[at + 1..] && SortedNodes(o', rank)
    {
      var o', ks' := o[..k] + o[k + 1..], ks[..at] + ks[at + 1..];
      assert KeysOf(o') == ks';
      assert forall i :: 0 <= i < at ==> ks'[i] == ks[i];
      assert forall i :: at <= i < |ks'| ==> ks'[i] == ks[i + 1];
      assert Sorted(ks');
      SortedKeys(o', ks');
    }

    // The node that `erase` unlinks, at place `k`: the one at place `at` or the next.
    method FindVictim(ptr: Node<K>, ghost at: nat, ghost ks: seq<K>)
      returns (prev: Node<K>, ghost pc: Ctx<K>, ghost pt: Tree<K>, ghost k: nat)
      requires Valid() && at < |Order(tree)| && Order(tree)[at] == ptr && ks == KeysOf(Order(tree))
      ensures Zip(pc, pt) && pt.T? && (pt.l.Leaf? || pt.r.Leaf?) && Plug(pc, pt) == tree
      ensures prev == pt.n && prev in nodes && at <= k <= at + 1 && k < |ks| == |Order(tree)| && prev.key == ks[k]
      ensures Before(pc) + Order(OnlyKid(pt)) + After(pc) == Order(tree)[..k] + Order(tree)[k + 1..]
    {
      hide Zip, RedBlack, Order, Before, After, SortedNodes, Plug, Repr, Contents;
      Members();
      TopNodes();
      ghost var c, t := Locate(Top, tree, at);
      PlugTop(tree);
      ZipPlug(c, t);
      prev, pc, pt := Victim(ptr, c, t);
      EraseOrders(c, t, pc, pt, at);
      k := if t.r.Leaf? then at else at + 1;
    }

    // The body of `erase`: the victim at place `k` gives its key to `ptr` and is taken out.
    method MoveAndRemove(ptr: Node<K>, ghost at: nat, ghost ks: seq<K>) returns (ghost k: nat)
      requires Valid() && at < |Order(tree)| && Order(tree)[at] == ptr && ptr in nodes && ks == KeysOf(Order(tree))
      modifies this`root, this`nodes, this`tree, this`bh, nil`par, nil`red
      modifies nodes`par, nodes`ch0, nodes`ch1, nodes`size, nodes`red, ptr`key
      ensures nodes <= old(nodes) && Zip(Top, tree) && RedBlack(tree, bh) && Black(tree)
      ensures at <= k <= at + 1 && k < |old(Order(tree))|
      ensures Order(tree) == old(Order(tree)[..k] + Order(tree)[k + 1..])
      ensures ptr.key == ks[k]
    {
      hide Zip, RedBlack, Order, Before, After, SortedNodes, Plug, Repr, Contents, OnlyKid, KeysOf;
      Members();
      TopNodes();
      var prev;
      ghost var pc, pt;
      prev, pc, pt, k := FindVictim(ptr, at, ks);
      ptr.key := prev.key;
      var s := GetRef(prev, pc, pt);
      RemoveBottom(s, pc, pt);
    }

    // `erase` of a node in the tree.
    method EraseNode(ptr: Node<K>, ghost at: nat)
      requires Valid() && at < |Order(tree)| && Order(tree)[at] == ptr
      modifies this`root, this`nodes, this`tree, this`bh, nil`par, nil`red
      modifies nodes`par, nodes`ch0, nodes`ch1, nodes`size, nodes`red, ptr`key
      ensures nodes <= old(nodes) && Zip(Top, tree) && RedBlack(tree, bh) && Black(tree)
      ensures SortedNodes(Order(tree), rank)
      ensures KeysOf(Order(tree)) == old(Contents()[..at] + Contents()[at + 1..])
    {
      hide Zip, RedBlack, Order, SortedNodes, Sorted;
      TopNodes();
      ghost var ks, o := Contents(), Order(tree);
      NoDup(at);
      SortedKeys(o, ks);
      assert forall i :: 0 <= i < |o| ==> o[i] in nodes && o[i].key == ks[i];
      ghost var k := MoveAndRemove(ptr, at, ks);
      FinishErase(o, ks, at, k);
    }

    lemma NoDup(at: nat)
      requires Zip(Top, tree) && at < |Order(tree)|
      ensures forall i :: 0 <= i < |Order(tree)| && i != at ==> Order(tree)[i] != Order(tree)[at]
    {
      OrderNoDup(tree);
    }

    static lemma PlugTop(t: Tree<K>)
      ensures Plug(Top, t) == t && Before<K>(Top) == []
    {
    }

    method Erase(ptr: Node?<K>, ghost at: nat)
      requires Valid()
      requires ptr != null && ptr != nil ==> at < |Order(tree)| && Order(tree)[at] == ptr
      modifies Repr()
      ensures Valid() && nodes <= old(nodes)
      ensures ptr == null || ptr == nil ==> Contents() == old(Contents()) && nodes == old(nodes)
      ensures ptr != null && ptr != nil ==> Contents() == old(Contents()[..at] + Contents()[at + 1..])
    {
      if ptr == nil || ptr == null {
        return;
      }
      hide Zip, RedBlack, Order, SortedNodes;
      TopNodes();
      EraseNode(ptr, at);
    }

    // ---- searching ----

    // `at` is where the keys not below `v` begin.
    ghost predicate Splits(ks: seq<K>, at: nat, v: int) {
      at <= |ks| && (forall j :: 0 <= j < at ==> rank(ks[j]) < v) && (forall j :: at <= j < |ks| ==> v <= rank(ks[j]))
    }

    // One step of a search: the focus moves to child `d` of `t`.
    lemma Descend(c: Ctx<K>, t: Tree<K>, d: bool, v: int)
      requires t.T? && SortedNodes(Order(Plug(c, t)), rank)
      requires AllBelow(Before(c), rank, v) && AllFrom(After(c), rank, v)
      requires d <==> rank(t.n.key) < v
      ensures var c' := Down(d, t.n, t.red, Kid(t, !d), c);
        && Plug(c', Kid(t, d)) == Plug(c, t)
        && AllBelow(Before(c'), rank, v) && AllFrom(After(c'), rank, v)
        && After(c') == (if d then After(c) else [t.n] + Order(t.r) + After(c))
        && Before(c') == (if d then Before(c) + (Order(t.l) + [t.n]) else Before(c))
    {
      hide SortedNodes, Order, AllBelow, AllFrom;
      DescendKeys(c, t.n, t.red, t.l, t.r, rank, v);
    }

    lemma SearchDone(c: Ctx<K>, v: int)
      requires Valid() && Plug(c, Leaf) == tree
      requires AllBelow(Before(c), rank, v) && AllFrom(After(c), rank, v)
      ensures Splits(Contents(), |Before(c)|, v)
      ensures Order(tree) == Before(c) + After(c) && nil !in Order(tree)
    {
      hide Zip, RedBlack, SortedNodes, Before, After;
      OrderNodes(tree);
      Members();
      PlugOrder(c, Leaf);
      assert Order<K>(Leaf) == [];
      assert Order(tree) == Before(c) + After(c);
    }

    lemma Members()
      requires Zip(Top, tree)
      ensures nodes == Nodes(tree) && nil !in nodes
    {
    }

    method FindGe(val: K) returns (r: Node?<K>, ghost at: nat, ghost steps: nat)
      requires Valid()
      ensures Splits(Contents(), at, rank(val))
      ensures r == null <==> at == |Contents()|
      ensures r != null ==> r == Order(tree)[at] && r.key == Contents()[at] && r != nil
      ensures steps <= Height(tree)
    {
      hide Zip, RedBlack, Shape, Before, After, SortedNodes, AllBelow, AllFrom;
      var cur, pos := root, nil;
      ghost var c, t: Tree<K> := Top, tree;
      steps := 0;
      Look(c, t);
      TopKeys(rank(val));
      while cur != nil
        invariant Valid() && Zip(c, t) && cur == Ptr(t, nil) && Plug(c, t) == tree
        invariant AllBelow(Before(c), rank, rank(val)) && AllFrom(After(c), rank, rank(val))
        invariant pos == if After(c) == [] then nil else After(c)[0]
        invariant steps + Height(t) <= Height(tree)
        decreases t
      {
        Look(c, t);
        var d := rank(cur.key) < rank(val);
        Descend(c, t, d, rank(val));
        ZipMove(c, t.n, t.red, d, Kid(t, d), Kid(t, !d));
        if d {
          cur := cur.ch1;
        } else {
          pos := cur;
          cur := cur.ch0;
        }
        c, t := Down(d, t.n, t.red, Kid(t, !d), c), Kid(t, d);
        steps := steps + 1;
      }
      Look(c, t);
      SearchDone(c, rank(val));
      at := |Before(c)|;
      r := if pos == nil then null else pos;
    }

    method FindLe(val: K) returns (r: Node?<K>, ghost at: nat, ghost steps: nat)
      requires Valid()
      ensures Splits(Contents(), at, rank(val) + 1)
      ensures r == null <==> at == 0
      ensures r != null ==> r == Order(tree)[at - 1] && r.key == Contents()[at - 1] && r != nil
      ensures steps <= Height(tree)
    {
      hide Zip, RedBlack, Shape, Before, After, SortedNodes, AllBelow, AllFrom;
      var cur, pos := root, nil;
      ghost var c, t: Tree<K> := Top, tree;
      steps := 0;
      Look(c, t);
      TopKeys(rank(val) + 1);
      while cur != nil
        invariant Valid() && Zip(c, t) && cur == Ptr(t, nil) && Plug(c, t) == tree
        invariant AllBelow(Before(c), rank, rank(val) + 1) && AllFrom(After(c), rank, rank(val) + 1)
        invariant pos == if Before(c) == [] then nil else Before(c)[|Before(c)| - 1]
        invariant steps + Height(t) <= Height(tree)
        decreases t
      {
        Look(c, t);
        var d := rank(cur.key) <= rank(val);
        Descend(c, t, d, rank(val) + 1);
        ZipMove(c, t.n, t.red, d, Kid(t, d), Kid(t, !d));
        if d {
          pos := cur;
          cur := cur.ch1;
        } else {
          cur := cur.ch0;
        }
        c, t := Down(d, t.n, t.red, Kid(t, !d), c), Kid(t, d);
        steps := steps + 1;
      }
      Look(c, t);
      SearchDone(c, rank(val) + 1);
      at := |Before(c)|;
      r := if pos == nil then null else pos;
    }

    // The `k`-th node of the walk, counted from 0; `KthNegative` is about the other arguments.
    method FindKth(k: nat) returns (r: Node?<K>)
      requires Valid()
      ensures r == null <==> k >= |Contents()|
      ensures r != null ==> r == Order(tree)[k] && r.key == Contents()[k]
    {
      hide Shape, Zip, RedBlack, SortedNodes, Before, After;
      Look(Top, tree);
      SizeAt(Top, tree);
      TopNodes();
      if k >= root.size {
        return null;
      }
      var i, t := k, root;
      ghost var c, f: Tree<K> := Top, tree;
      TopKeys(0);
      while true
        invariant Valid() && Zip(c, f) && f.T? && t == f.n && Plug(c, f) == tree
        invariant 0 <= i < |Order(f)| && i + |Before(c)| == k
        decreases f
      {
        Look(c, f);
        ZipMove(c, f.n, f.red, false, f.l, f.r);
        ZipMove(c, f.n, f.red, true, f.r, f.l);
        SizeAt(Down(false, f.n, f.red, f.r, c), f.l);
        Look(Down(false, f.n, f.red, f.r, c), f.l);
        FocusAt(c, f);
        if i >= t.ch0.size {
          if i == t.ch0.size {
            return t;
          }
          i := i - (t.ch0.size + 1);
          t := t.ch1;
          c, f := Down(true, f.n, f.red, f.l, c), f.r;
        } else {
          t := t.ch0;
          c, f := Down(false, f.n, f.red, f.r, c), f.l;
        }
        Look(c, f);
        NonEmpty(f, i);
      }
    }

    // The tree after `n` steps to the left.
    static ghost function LeftBelow(t: Tree<K>, n: nat): Tree<K> {
      if n == 0 then t else
      var below := LeftBelow(t, n - 1);
      if below.T? then below.l else Leaf
    }

    // For a negative `k` the first test fails and round `n` of the loop goes to the left, however
    // large `n` is: the loop never returns, but stays on the sentinel in the end.
    lemma {:induction false} KthNegative(k: int, n: nat) returns (c: Ctx<K>)
      requires Valid() && k < 0
      ensures k < root.size && root == Ptr(LeftBelow(tree, 0), nil)
      ensures Zip(c, LeftBelow(tree, n))
      ensures var t := Ptr(LeftBelow(tree, n), nil); k < t.ch0.size && t.ch0 == Ptr(LeftBelow(tree, n + 1), nil)
    {
      hide Shape, RedBlack, SortedNodes;
      Look(Top, tree);
      SizeAt(Top, tree);
      if n == 0 {
        c := Top;
      } else {
        var up := KthNegative(k, n - 1);
        c := LeftOnce(up, LeftBelow(tree, n - 1));
      }
      var next := LeftOnce(c, LeftBelow(tree, n));
      SizeAt(next, LeftBelow(tree, n + 1));
    }

    lemma LeftOnce(c: Ctx<K>, f: Tree<K>) returns (c': Ctx<K>)
      requires Zip(c, f)
      ensures Zip(c', if f.T? then f.l else Leaf)
      ensures Ptr(f, nil).ch0 == Ptr(if f.T? then f.l else Leaf, nil)
    {
      c' := c;
      if f.T? {
        ZipMove(c, f.n, f.red, false, f.l, f.r);
        Look(c, f);
        c' := Down(false, f.n, f.red, f.r, c);
      }
    }

    static lemma NonEmpty(t: Tree<K>, i: nat)
      requires i < |Order(t)|
      ensures t.T?
    {
    }

    lemma SizeAt(c: Ctx<K>, t: Tree<K>)
      requires Zip(c, t)
      ensures Ptr(t, nil).size == |Order(t)|
    {
      OrderSize(t);
    }

    lemma FocusAt(c: Ctx<K>, t: Tree<K>)
      requires t.T? && Plug(c, t) == tree
      ensures Order(t) == Order(t.l) + [t.n] + Order(t.r)
      ensures |Before(c)| + |Order(t.l)| < |Order(tree)| && Order(tree)[|Before(c)| + |Order(t.l)|] == t.n
      ensures |Before(Down(true, t.n, t.red, t.l, c))| == |Before(c)| + |Order(t.l)| + 1
      ensures Before(Down(false, t.n, t.red, t.r, c)) == Before(c)
    {
      PlugOrder(c, t);
    }

    // `walk`: the keys handed to the callback, in order.
    function Walk(): (ks: seq<K>)
      requires Valid()
      reads this, nil, nodes`par, nodes`red, nodes`ch0, nodes`ch1, nodes`size, nodes`key
      ensures ks == Contents()
    {
      Look(Top, tree);
      WalkBelow(root, Top, tree)
    }

    function WalkBelow(n: Node<K>, ghost c: Ctx<K>, ghost t: Tree<K>): (ks: seq<K>)
      requires Zip(c, t) && n == Ptr(t, nil)
      reads this, nil, nodes`par, nodes`red, nodes`ch0, nodes`ch1, nodes`size, nodes`key
      ensures (OrderNodes(t); ks == KeysOf(Order(t)))
      decreases t
    {
      Look(c, t);
      if n == nil then []
      else
        ZipMove(c, t.n, t.red, false, t.l, t.r);
        ZipMove(c, t.n, t.red, true, t.r, t.l);
        KeysJoin(Order(t.l), n, Order(t.r));
        WalkBelow(n.ch0, Down(false, t.n, t.red, t.r, c), t.l) + [n.key]
        + WalkBelow(n.ch1, Down(true, t.n, t.red, t.l, c), t.r)
    }

    static lemma KeysJoin(a: seq<Node<K>>, n: Node<K>, b: seq<Node<K>>)
      ensures KeysOf(a + [n] + b) == KeysOf(a) + [n.key] + KeysOf(b)
    {
    }

    // A search takes at most 2 * log2(n + 1) steps: the tree is no higher than that.
    lemma SearchIsLogarithmic()
      requires Valid()
      ensures Common.Pow2(Height(tree)) <= (|Contents()| + 1) * (|Contents()| + 1)
    {
      hide Height, Common.Pow2, Size, Order, Zip, RedBlack, SortedNodes;
      HeightIsLogarithmic(tree, bh);
      OrderSize(tree);
      OrderNodes(tree);
    }

    lemma TopKeys(v: int)
      ensures Size<K>(Leaf) == 0 && Order<K>(Leaf) == []
      ensures Before<K>(Top) == [] && After<K>(Top) == []
      ensures AllBelow(Before<K>(Top), rank, v) && AllFrom(After<K>(Top), rank, v)
    {
    }
  }
}
