/** The set of free blocks of the kernel heap, indexed by two trees: by size and by start. */
module FreeBlocks {
  import opened Common
  import opened RbShape
  import opened RbTree

  datatype Block = Block(start: nat, size: nat) {
    function End(): nat { start + size }
  }

  ghost predicate Word(b: Block) {
    b.start < WORD && b.size < WORD
  }

  // The two orders of the code, lexicographic on pairs of 32-bit words, as orders of numbers.
  function SizeRank(b: Block): int { b.size * WORD + b.start }

  function StartRank(b: Block): int { b.start * WORD + b.size }

  lemma RanksAreTheOrders(a: Block, b: Block)
    requires Word(a) && Word(b)
    ensures SizeRank(a) < SizeRank(b) <==> a.size < b.size || (a.size == b.size && a.start < b.start)
    ensures StartRank(a) < StartRank(b) <==> a.start < b.start || (a.start == b.start && a.size < b.size)
    ensures StartRank(a) <= StartRank(b) <==> a.start < b.start || (a.start == b.start && a.size <= b.size)
    ensures SizeRank(a) == SizeRank(b) <==> a == b
    ensures StartRank(a) == StartRank(b) <==> a == b
  {
  }

  // `s` lists every element of `xs` once.
  ghost predicate Lists<A(!new)>(s: seq<A>, xs: set<A>) {
    NoDup(s) && forall x :: x in s <==> x in xs
  }

  lemma ListsInsert<A(!new)>(s: seq<A>, xs: set<A>, at: nat, x: A)
    requires Lists(s, xs) && at <= |s| && x !in xs
    ensures Lists(s[..at] + [x] + s[at..], xs + {x})
  {
    var s' := s[..at] + [x] + s[at..];
    assert s'[at] == x;
    assert forall i :: 0 <= i < |s| ==> s[i] == s'[if i < at then i else i + 1];
  }

  lemma ListsErase<A(!new)>(s: seq<A>, xs: set<A>, at: nat)
    requires Lists(s, xs) && at < |s|
    ensures Lists(s[..at] + s[at + 1..], xs - {s[at]})
  {
    var s' := s[..at] + s[at + 1..];
    assert forall i :: 0 <= i < |s'| ==> s'[i] == s[if i < at then i else i + 1];
    assert forall i :: 0 <= i < |s| && i != at ==> s[i] == s'[if i < at then i else i - 1];
  }

  // Static pool of tree nodes.
  const STATIC_SIZE := 1024

  class FreeIndex {
    const treeSize: Rbt<Block>
    const treeStart: Rbt<Block>
    // nodes carved from the pool so far, and those of them on the stack of freed nodes
    var nstatic: nat
    var nfreed: nat
    ghost var blocks: set<Block>

    // The objects the index is made of; erased nodes are never taken out of it.
    ghost var Repr: set<object>

    ghost predicate Apart()
      reads this, treeSize`nodes, treeStart`nodes
    {
      && treeSize.Repr() !! treeStart.Repr() && this !in treeSize.Repr() && this !in treeStart.Repr()
      && {this, treeSize, treeStart} + treeSize.Repr() + treeStart.Repr() <= Repr
    }

    ghost predicate Valid()
      reads this, Repr
      ensures Valid() ==> this in Repr
    {
      && this in Repr && treeSize in Repr && treeStart in Repr && Apart()
      && treeSize.Valid() && treeSize.rank == SizeRank && Lists(treeSize.Contents(), blocks)
      && treeStart.Valid() && treeStart.rank == StartRank && Lists(treeStart.Contents(), blocks)
      && nstatic <= STATIC_SIZE - 1 && nstatic == nfreed + 2 * |blocks|
      && forall b :: b in blocks ==> Word(b)
    }

    constructor ()
      ensures Valid() && blocks == {} && fresh(Repr)
    {
      hide Rbt.Valid, Rbt.Contents;
      var ts := new Rbt(SizeRank, Block(0, 0));
      var tt := new Rbt(StartRank, Block(0, 0));
      treeSize, treeStart := ts, tt;
      nstatic, nfreed, blocks := 0, 0, {};
      Repr := {this, ts, tt} + ts.Repr() + tt.Repr();
    }

    // ---- searches ----

    // `tree_size.find_ge`: the least free block by (size, start) that is not below `req`.
    method FindFit(req: Block) returns (r: Node?<Block>, ghost at: nat)
      requires Valid()
      ensures r == null ==> forall b :: b in blocks ==> SizeRank(b) < SizeRank(req)
      ensures r != null ==> At(treeSize, r, at) && r.key in blocks && SizeRank(req) <= SizeRank(r.key)
      ensures r != null ==> forall b :: b in blocks && SizeRank(req) <= SizeRank(b) ==> SizeRank(r.key) <= SizeRank(b)
    {
      hide Rbt.Valid;
      ghost var steps;
      r, at, steps := treeSize.FindGe(req);
      treeSize.ContentsSorted();
    }

    // `tree_start.find_le`: the last free block by (start, size) that is not above `b`.
    method FindBefore(b: Block) returns (r: Node?<Block>, ghost at: nat)
      requires Valid()
      ensures r == null ==> forall f :: f in blocks ==> StartRank(b) < StartRank(f)
      ensures r != null ==> At(treeStart, r, at) && r.key in blocks && StartRank(r.key) <= StartRank(b)
      ensures r != null ==> forall f :: f in blocks && StartRank(f) <= StartRank(b) ==> StartRank(f) <= StartRank(r.key)
    {
      hide Rbt.Valid;
      ghost var steps;
      r, at, steps := treeStart.FindLe(b);
      treeStart.ContentsSorted();
      if at > 0 { at := at - 1; }
    }

    // `tree_start.find_ge`: the first free block by (start, size) that is not below `b`.
    method FindAfter(b: Block) returns (r: Node?<Block>, ghost at: nat)
      requires Valid()
      ensures r == null ==> forall f :: f in blocks ==> StartRank(f) < StartRank(b)
      ensures r != null ==> At(treeStart, r, at) && r.key in blocks && StartRank(b) <= StartRank(r.key)
      ensures r != null ==> forall f :: f in blocks && StartRank(b) <= StartRank(f) ==> StartRank(r.key) <= StartRank(f)
    {
      hide Rbt.Valid;
      ghost var steps;
      r, at, steps := treeStart.FindGe(b);
      treeStart.ContentsSorted();
    }

    // `ptr` is the node of `t` at place `at` of its walk.
    static ghost predicate At(t: Rbt<Block>, ptr: Node<Block>, at: nat)
      reads t, t.nil, t.nodes, ptr
    {
      t.Valid() && ptr != t.nil && at < |Order(t.tree)| == |t.Contents()| && Order(t.tree)[at] == ptr
          && t.Contents()[at] == ptr.key
    }

    // ---- changes ----

    static lemma ExactGe(ks: seq<Block>, at: nat, b: Block, t: Rbt<Block>)
      requires t.Sorted(ks) && t.Splits(ks, at, t.rank(b)) && b in ks
      requires forall x, y :: x in ks && y in ks && t.rank(x) == t.rank(y) ==> x == y
      ensures at < |ks| && ks[at] == b
    {
      var j :| 0 <= j < |ks| && ks[j] == b;
      assert at <= j;
      assert ks[at] in ks;
    }

    static lemma WordRanks(xs: set<Block>)
      requires forall b :: b in xs ==> Word(b)
      ensures forall x, y :: x in xs && y in xs && SizeRank(x) == SizeRank(y) ==> x == y
      ensures forall x, y :: x in xs && y in xs && StartRank(x) == StartRank(y) ==> x == y
    {
      forall x, y | x in xs && y in xs { RanksAreTheOrders(x, y); }
    }

    // Erases the block `b`, found through the node `ptr` of one tree, and its twin in the other.
    static method EraseBoth(one: Rbt<Block>, other: Rbt<Block>, ptr: Node<Block>, ghost at: nat, b: Block,
            ghost xs: set<Block>)
      requires one.Repr() !! other.Repr() && one != other && one !in other.Repr() && other !in one.Repr()
      requires At(one, ptr, at) && ptr.key == b && Lists(one.Contents(), xs)
      requires other.Valid() && Lists(other.Contents(), xs)
      requires forall x, y :: x in xs && y in xs && other.rank(x) == other.rank(y) ==> x == y
      modifies one.Repr(), other.Repr()
      ensures one.Valid() && other.Valid() && one.nodes <= old(one.nodes) && other.nodes <= old(other.nodes)
      ensures Lists(one.Contents(), xs - {b}) && Lists(other.Contents(), xs - {b})
    {
      hide Rbt.Valid, Rbt.Contents, Lists;
      ListsErase(one.Contents(), xs, at);
      assert b in other.Contents() && forall x :: x in other.Contents() ==> x in xs by {
        InLists(one.Contents(), xs, at);
        InLists2(other.Contents(), xs);
      }
      one.Erase(ptr, at);
      ghost var at2, steps;
      var q;
      q, at2, steps := other.FindGe(b);
      other.ContentsSorted();
      ExactGe(other.Contents(), at2, b, other);
      ListsErase(other.Contents(), xs, at2);
      other.Erase(q, at2);
    }

    static lemma InLists(ks: seq<Block>, xs: set<Block>, at: nat)
      requires Lists(ks, xs) && at < |ks|
      ensures ks[at] in xs
    {
    }

    static lemma InLists2(ks: seq<Block>, xs: set<Block>)
      requires Lists(ks, xs)
      ensures forall x :: x in ks <==> x in xs
    {
    }

    // `tree_size.erase(ptr)`, then the same block out of the other tree.
    method TakeBySize(ptr: Node<Block>, ghost at: nat, b: Block)
      requires Valid() && At(treeSize, ptr, at) && ptr.key == b
      modifies Repr
      ensures Valid() && blocks == old(blocks) - {b} && Repr == old(Repr)
    {
      hide Rbt.Valid, Rbt.Contents, Lists;
      InLists(treeSize.Contents(), blocks, at);
      WordRanks(blocks);
      EraseBoth(treeSize, treeStart, ptr, at, b, blocks);
      blocks := blocks - {b};
      nfreed := nfreed + 2;
    }

    // `tree_start.erase(ptr)`, then the same block out of the other tree.
    method TakeByStart(ptr: Node<Block>, ghost at: nat, b: Block)
      requires Valid() && At(treeStart, ptr, at) && ptr.key == b
      modifies Repr
      ensures Valid() && blocks == old(blocks) - {b} && Repr == old(Repr)
    {
      hide Rbt.Valid, Rbt.Contents, Lists;
      InLists(treeStart.Contents(), blocks, at);
      WordRanks(blocks);
      EraseBoth(treeStart, treeSize, ptr, at, b, blocks);
      blocks := blocks - {b};
      nfreed := nfreed + 2;
    }

    // `Tree_mm::alloc`: a freed node if there is one, else the next of the pool, else a panic.
    method AllocNode() returns (ok: bool)
      modifies this`nstatic, this`nfreed
      ensures ok <==> old(nfreed > 0 || nstatic + 1 < STATIC_SIZE)
      ensures ok ==> nstatic - nfreed == old(nstatic - nfreed) + 1 && nstatic >= old(nstatic)
      ensures ok && old(nstatic) < STATIC_SIZE ==> nstatic < STATIC_SIZE
    {
      ok := true;
      if nfreed > 0 {
        nfreed := nfreed - 1;
      } else if nstatic + 1 >= STATIC_SIZE {
        ok := false;
      } else {
        nstatic := nstatic + 1;
      }
    }

    static method InsertBoth(one: Rbt<Block>, other: Rbt<Block>, b: Block, ghost xs: set<Block>)
      requires one.Repr() !! other.Repr() && one != other && one !in other.Repr() && other !in one.Repr()
      requires one.Valid() && other.Valid() && Lists(one.Contents(), xs) && Lists(other.Contents(), xs) && b !in xs
      modifies one.Repr(), other.Repr()
      ensures one.Valid() && other.Valid() && fresh(one.nodes - old(one.nodes)) && fresh(other.nodes - old(other.nodes))
      ensures one.Repr() !! other.Repr()
      ensures Lists(one.Contents(), xs + {b}) && Lists(other.Contents(), xs + {b})
    {
      hide Rbt.Valid, Rbt.Contents, Lists;
      ghost var at := one.Insert(b);
      ListsInsert(old(one.Contents()), xs, at, b);
      assert other.Valid() && Lists(other.Contents(), xs);
      ghost var ks := other.Contents();
      at := other.Insert(b);
      ListsInsert(ks, xs, at, b);
    }

    // Inserts `b` in both trees; false when the node pool runs out, which halts the kernel.
    method Add(b: Block) returns (ok: bool)
      requires Valid() && b !in blocks && Word(b)
      modifies Repr
      ensures ok <==> |old(blocks)| < 511
      ensures ok ==> Valid() && blocks == old(blocks) + {b} && fresh(Repr - old(Repr))
    {
      hide Rbt.Valid, Rbt.Contents, Lists;
      ok := AllocNode();
      if ok { ok := AllocNode(); }
      if !ok { return; }
      InsertBoth(treeSize, treeStart, b, blocks);
      blocks := blocks + {b};
      Repr := Repr + treeSize.nodes + treeStart.nodes;
    }
  }
}
