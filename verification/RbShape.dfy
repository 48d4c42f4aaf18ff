/** The nodes of the intrusive tree and the ghost shapes that describe them.

    A `Tree` is the shape hanging below a link and a `Ctx` (a zipper) is everything above and
    beside it.  Both hold the nodes themselves, so `Linked` and `LinkedCtx` can say that the heap
    realises a shape: child links, parent links and colours agree with it.  `Sized` and
    `SizedCtx` say the same of the subtree sizes. */
module RbShape {

  class Node<K> {
    var par: Node<K>
    var red: bool
    var size: int
    var ch0: Node<K>
    var ch1: Node<K>
    var key: K

    // The sentinel: black, its own parent and both of its own children.
    constructor Sentinel(k: K)
      ensures par == this && !red && size == 0 && ch0 == this && ch1 == this && key == k
    {
      par, ch0, ch1 := this, this, this;
      red, size, key := false, 0, k;
    }

    // A node fresh from the allocator, filled in by `insert`.
    constructor Fresh(k: K, parent: Node<K>, isRed: bool, nil: Node<K>)
      ensures par == parent && red == isRed && size == 1 && ch0 == nil && ch1 == nil && key == k
    {
      par, ch0, ch1 := parent, nil, nil;
      red, size, key := isRed, 1, k;
    }

    function Ch(d: bool): Node<K>
      reads this`ch0, this`ch1
    {
      if d then ch1 else ch0
    }
  }

  datatype Tree<K> = Leaf | T(n: Node<K>, red: bool, l: Tree<K>, r: Tree<K>)

  // One step up: the focus is child `d` of `n`, whose other child is `sib`.
  datatype Ctx<K> = Top | Down(d: bool, n: Node<K>, red: bool, sib: Tree<K>, up: Ctx<K>)

  // The node `n` with `a` as child `d` and `b` as the other child.
  ghost function Join<K>(n: Node<K>, red: bool, d: bool, a: Tree<K>, b: Tree<K>): Tree<K> {
    if d then T(n, red, b, a) else T(n, red, a, b)
  }

  ghost function Kid<K>(t: Tree<K>, d: bool): Tree<K>
    requires t.T?
  {
    if d then t.r else t.l
  }

  ghost function Plug<K>(c: Ctx<K>, t: Tree<K>): Tree<K>
    decreases c
  {
    match c
    case Top => t
    case Down(d, n, red, sib, up) => Plug(up, Join(n, red, d, t, sib))
  }

  ghost function Ptr<K>(t: Tree<K>, nil: Node<K>): Node<K> {
    if t.T? then t.n else nil
  }

  ghost function CtxPtr<K>(c: Ctx<K>, nil: Node<K>): Node<K> {
    if c.Down? then c.n else nil
  }

  ghost function Nodes<K>(t: Tree<K>): set<Node<K>> {
    match t
    case Leaf => {}
    case T(n, _, l, r) => Nodes(l) + {n} + Nodes(r)
  }

  ghost function CtxNodes<K>(c: Ctx<K>): set<Node<K>> {
    match c
    case Top => {}
    case Down(_, n, _, sib, up) => {n} + Nodes(sib) + CtxNodes(up)
  }

  // No node occurs twice.
  ghost predicate Distinct<K>(t: Tree<K>) {
    match t
    case Leaf => true
    case T(n, _, l, r) =>
      n !in Nodes(l) && n !in Nodes(r) && Nodes(l) !! Nodes(r) && Distinct(l) && Distinct(r)
  }

  ghost predicate DistinctCtx<K>(c: Ctx<K>) {
    match c
    case Top => true
    case Down(_, n, _, sib, up) =>
      n !in Nodes(sib) && n !in CtxNodes(up) && Nodes(sib) !! CtxNodes(up) && Distinct(sib) && DistinctCtx(up)
  }

  ghost function Size<K>(t: Tree<K>): nat {
    match t
    case Leaf => 0
    case T(_, _, l, r) => Size(l) + Size(r) + 1
  }

  // The nodes in key order.
  ghost function Order<K>(t: Tree<K>): seq<Node<K>> {
    match t
    case Leaf => []
    case T(n, _, l, r) => Order(l) + [n] + Order(r)
  }

  // The nodes of the context before and after the focus.
  ghost function Before<K>(c: Ctx<K>): seq<Node<K>> {
    match c
    case Top => []
    case Down(d, n, _, sib, up) => if d then Before(up) + (Order(sib) + [n]) else Before(up)
  }

  ghost function After<K>(c: Ctx<K>): seq<Node<K>> {
    match c
    case Top => []
    case Down(d, n, _, sib, up) => if d then After(up) else ([n] + Order(sib)) + After(up)
  }

  // The heap realises the shape `t` below the parent `p`.
  ghost predicate Linked<K>(t: Tree<K>, p: Node<K>, nil: Node<K>)
    reads Nodes(t)`par, Nodes(t)`red, Nodes(t)`ch0, Nodes(t)`ch1
    decreases t
  {
    match t
    case Leaf => true
    case T(n, red, l, r) =>
      n.par == p && n.red == red && n.ch0 == Ptr(l, nil) && n.ch1 == Ptr(r, nil) &&
      Linked(l, n, nil) && Linked(r, n, nil)
  }

  // The heap realises the context `c` around a focus `x`.
  ghost predicate LinkedCtx<K>(c: Ctx<K>, x: Node<K>, root: Node<K>, nil: Node<K>)
    reads CtxNodes(c)`par, CtxNodes(c)`red, CtxNodes(c)`ch0, CtxNodes(c)`ch1
    decreases c
  {
    match c
    case Top => root == x
    case Down(d, n, red, sib, up) =>
      n.par == CtxPtr(up, nil) && n.red == red && n.Ch(d) == x && n.Ch(!d) == Ptr(sib, nil) &&
      Linked(sib, n, nil) && LinkedCtx(up, n, root, nil)
  }

  ghost predicate Sized<K>(t: Tree<K>)
    reads Nodes(t)`size
    decreases t
  {
    match t
    case Leaf => true
    case T(n, _, l, r) => n.size == Size(l) + Size(r) + 1 && Sized(l) && Sized(r)
  }

  // The sizes in the context are right for a focus of size `sz`.
  ghost predicate SizedCtx<K>(c: Ctx<K>, sz: nat)
    reads CtxNodes(c)`size
    decreases c
  {
    match c
    case Top => true
    case Down(_, n, _, sib, up) =>
      n.size == sz + Size(sib) + 1 && Sized(sib) && SizedCtx(up, sz + Size(sib) + 1)
  }

  // The path from the focus up to the root, and the sizes its nodes must have.
  ghost function Spine<K>(c: Ctx<K>): seq<Node<K>> {
    match c
    case Top => []
    case Down(_, n, _, _, up) => [n] + Spine(up)
  }

  ghost function SpineSizes<K>(c: Ctx<K>, sz: nat): (s: seq<nat>)
    ensures |s| == |Spine(c)|
  {
    match c
    case Top => []
    case Down(_, _, _, sib, up) => [sz + Size(sib) + 1] + SpineSizes(up, sz + Size(sib) + 1)
  }

  ghost function BesideNodes<K>(c: Ctx<K>): set<Node<K>> {
    match c
    case Top => {}
    case Down(_, _, _, sib, up) => Nodes(sib) + BesideNodes(up)
  }

  ghost predicate BesideSized<K>(c: Ctx<K>)
    reads BesideNodes(c)`size
  {
    match c
    case Top => true
    case Down(_, _, _, sib, up) => Sized(sib) && BesideSized(up)
  }

  ghost predicate SizesAre<K>(s: seq<Node<K>>, w: seq<nat>)
    reads s`size
  {
    |s| == |w| && forall k :: 0 <= k < |s| ==> s[k].size == w[k]
  }

  lemma SizesCons<K>(n: Node<K>, s: seq<Node<K>>, m: nat, w: seq<nat>)
    ensures SizesAre([n] + s, [m] + w) <==> n.size == m && SizesAre(s, w)
  {
    var s', w' := [n] + s, [m] + w;
    assert s' != [] && w' != [] && s'[0] == n && w'[0] == m;
    if SizesAre(s', w') {
      forall k | 0 <= k < |s| ensures s[k].size == w[k] {
        assert s'[k + 1].size == w'[k + 1];
      }
    }
  }

  lemma {:induction false} SizedCtxFlat<K>(c: Ctx<K>, sz: nat)
    ensures SizedCtx(c, sz) <==> BesideSized(c) && SizesAre(Spine(c), SpineSizes(c, sz))
    decreases c
  {
    if c.Down? {
      var m := sz + Size(c.sib) + 1;
      SizedCtxFlat(c.up, m);
      SizesCons(c.n, Spine(c.up), m, SpineSizes(c.up, m));
    }
  }

  lemma {:induction false} SpineSizesShift<K>(c: Ctx<K>, sz: nat, k: nat)
    requires k < |Spine(c)|
    ensures SpineSizes(c, sz + 1)[k] == SpineSizes(c, sz)[k] + 1
    decreases c
  {
    var m := sz + Size(c.sib) + 1;
    if k > 0 {
      SpineSizesShift(c.up, m, k - 1);
      assert SpineSizes(c, sz + 1) == [m + 1] + SpineSizes(c.up, m + 1);
      assert SpineSizes(c, sz) == [m] + SpineSizes(c.up, m);
    }
  }

  // The spine is a duplicate-free chain of parent links, apart from the subtrees beside it.
  lemma {:induction false} SpineChain<K>(c: Ctx<K>, x: Node<K>, root: Node<K>, nil: Node<K>)
    requires LinkedCtx(c, x, root, nil) && DistinctCtx(c)
    ensures if c.Down? then |Spine(c)| > 0 && Spine(c)[0] == c.n else Spine(c) == []
    ensures BesideNodes(c) <= CtxNodes(c)
    ensures forall k :: 0 <= k < |Spine(c)| ==> Spine(c)[k] in CtxNodes(c) && Spine(c)[k] !in BesideNodes(c)
    ensures Chain(Spine(c), nil)
    ensures forall j, k :: 0 <= j < k < |Spine(c)| ==> Spine(c)[j] != Spine(c)[k]
    decreases c
  {
    if c.Down? {
      SpineChain(c.up, c.n, root, nil);
      var s, u := Spine(c), Spine(c.up);
      forall k | 0 < k < |s| ensures s[k] == u[k - 1] && s[k].par == Next(s, k, nil) {
        assert u[k - 1].par == Next(u, k - 1, nil);
      }
    }
  }

  ghost function Next<K>(s: seq<Node<K>>, k: nat, nil: Node<K>): Node<K> {
    if k + 1 < |s| then s[k + 1] else nil
  }

  ghost predicate Chain<K>(s: seq<Node<K>>, nil: Node<K>)
    reads s`par
  {
    forall k {:trigger s[k].par} :: 0 <= k < |s| ==> s[k].par == Next(s, k, nil)
  }

  ghost predicate NilOk<K>(nil: Node<K>)
    reads nil`red, nil`size, nil`ch0, nil`ch1
  {
    !nil.red && nil.size == 0 && nil.ch0 == nil && nil.ch1 == nil
  }

  ghost predicate Separate<K>(c: Ctx<K>, t: Tree<K>) {
    Distinct(t) && DistinctCtx(c) && CtxNodes(c) !! Nodes(t)
  }

  // ---- orders ----

  lemma Assoc<A>(a: seq<A>, b: seq<A>, c: seq<A>)
    ensures (a + b) + c == a + (b + c)
  {
  }

  lemma {:induction false} PlugOrder<K>(c: Ctx<K>, t: Tree<K>)
    ensures Order(Plug(c, t)) == Before(c) + Order(t) + After(c)
    decreases c
  {
    match c
    case Top =>
      assert Before(c) + Order(t) + After(c) == Order(t);
    case Down(d, n, red, sib, up) =>
      PlugOrder(up, Join(n, red, d, t, sib));
      if d {
        Assoc(Before(up), Order(sib) + [n], Order(t));
      } else {
        Assoc(Order(t), [n], Order(sib));
        Assoc(Before(up), Order(t), [n] + Order(sib));
        Assoc(Before(up) + Order(t), [n] + Order(sib), After(up));
      }
  }

  // Rotation, as a change of shape, keeps the nodes in the same order.
  lemma RotateOrder<K>(x: Node<K>, xr: bool, y: Node<K>, yr: bool, d: bool, a: Tree<K>, b: Tree<K>, e: Tree<K>)
    ensures Order(Join(y, yr, d, Join(x, xr, d, a, b), e)) == Order(Join(x, xr, d, a, Join(y, yr, d, b, e)))
  {
    hide Order;
    assert forall n: Node<K>, red, l, r :: Order(T(n, red, l, r)) == Order(l) + [n] + Order(r) by { OrderDef<K>(); }
    if d {
      Assoc(Order(e) + [y], Order(b), [x]);
      Assoc(Order(e) + [y], Order(b) + [x], Order(a));
    } else {
      Assoc(Order(a) + [x], Order(b), [y]);
      Assoc(Order(a) + [x], Order(b) + [y], Order(e));
    }
  }

  lemma OrderDef<K>()
    ensures forall n: Node<K>, red, l, r :: Order(T(n, red, l, r)) == Order(l) + [n] + Order(r)
  {
  }

  // ---- keys ----

  lemma {:induction false} OrderNodes<K>(t: Tree<K>)
    ensures forall n: Node<K> :: n in Order(t) <==> n in Nodes(t)
    ensures forall i :: 0 <= i < |Order(t)| ==> Order(t)[i] in Nodes(t)
  {
    if t.T? {
      OrderNodes(t.l);
      OrderNodes(t.r);
    }
  }

  lemma {:induction false} CtxOrderNodes<K>(c: Ctx<K>)
    ensures forall n: Node<K> :: n in Before(c) || n in After(c) <==> n in CtxNodes(c)
    decreases c
  {
    if c.Down? {
      CtxOrderNodes(c.up);
      OrderNodes(c.sib);
    }
  }

  ghost function KeysOf<K>(s: seq<Node<K>>): (ks: seq<K>)
    reads s`key
    ensures |ks| == |s| && forall i :: 0 <= i < |s| ==> ks[i] == s[i].key
  {
    if s == [] then [] else [s[0].key] + KeysOf(s[1..])
  }

  ghost predicate SortedNodes<K>(s: seq<Node<K>>, rank: K -> int)
    reads s`key
  {
    forall i, j :: 0 <= i < j < |s| ==> rank(s[i].key) <= rank(s[j].key)
  }

  ghost predicate AllBelow<K>(s: seq<Node<K>>, rank: K -> int, r: int)
    reads s`key
  {
    forall i :: 0 <= i < |s| ==> rank(s[i].key) < r
  }

  ghost predicate AllFrom<K>(s: seq<Node<K>>, rank: K -> int, r: int)
    reads s`key
  {
    forall i :: 0 <= i < |s| ==> r <= rank(s[i].key)
  }

  // Going down to child `d` of `n` is right when the keys on the other side are excluded.
  lemma DescendKeys<K>(c: Ctx<K>, n: Node<K>, red: bool, l: Tree<K>, r: Tree<K>, rank: K -> int, v: int)
    requires SortedNodes(Order(Plug(c, T(n, red, l, r))), rank)
    requires AllBelow(Before(c), rank, v) && AllFrom(After(c), rank, v)
    ensures rank(n.key) < v ==> AllBelow(Before(Down(true, n, red, l, c)), rank, v)
    ensures v <= rank(n.key) ==> AllFrom(After(Down(false, n, red, r, c)), rank, v)
  {
    hide Order, Plug, Before, After;
    var (b, a, ol, or) := (Before(c), After(c), Order(l), Order(r));
    PlugOrder(c, T(n, red, l, r));
    DownOrders(c, n, red, l, r);
    var o := b + (ol + [n] + or) + a;
    var k := |b| + |ol|;
    assert o[k] == n;
    assert forall i :: 0 <= i < |ol| ==> o[|b| + i] == ol[i];
    assert forall i :: 0 <= i < |or| ==> o[k + 1 + i] == or[i];
  }

  lemma DownOrders<K>(c: Ctx<K>, n: Node<K>, red: bool, l: Tree<K>, r: Tree<K>)
    ensures Order(T(n, red, l, r)) == Order(l) + [n] + Order(r)
    ensures Before(Down(true, n, red, l, c)) == Before(c) + (Order(l) + [n])
    ensures After(Down(false, n, red, r, c)) == ([n] + Order(r)) + After(c)
    ensures After(Down(true, n, red, l, c)) == After(c) && Before(Down(false, n, red, r, c)) == Before(c)
  {
  }

  lemma {:induction false} OrderNoDup<K>(t: Tree<K>)
    requires Distinct(t)
    ensures forall i, j :: 0 <= i < j < |Order(t)| ==> Order(t)[i] != Order(t)[j]
  {
    if t.T? {
      OrderNoDup(t.l);
      OrderNoDup(t.r);
      OrderNodes(t.l);
      OrderNodes(t.r);
    }
  }

  // Every node of a walk is the focus of some split of the tree.
  lemma {:induction false} Locate<K>(c: Ctx<K>, t: Tree<K>, i: nat) returns (c': Ctx<K>, t': Tree<K>)
    requires i < |Order(t)|
    ensures Plug(c', t') == Plug(c, t) && t'.T? && t'.n == Order(t)[i]
    ensures |Before(c')| + |Order(t'.l)| == |Before(c)| + i
    decreases t
  {
    var k := |Order(t.l)|;
    if i == k {
      c', t' := c, t;
    } else if i < k {
      c', t' := Locate(Down(false, t.n, t.red, t.r, c), t.l, i);
    } else {
      c', t' := Locate(Down(true, t.n, t.red, t.l, c), t.r, i - k - 1);
    }
  }

  lemma {:induction false} OrderSize<K>(t: Tree<K>)
    ensures |Order(t)| == Size(t)
  {
    if t.T? {
      OrderSize(t.l);
      OrderSize(t.r);
    }
  }
}
