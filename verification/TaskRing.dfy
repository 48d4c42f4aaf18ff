/** A circular queue as the sequence of its members from `ptr` on, and the order in which they get
    their turn. */
module TaskRing {
  import opened Common

  // A new member goes behind the one `ptr` points to.
  function Joined<T>(q: seq<T>, x: T): seq<T> {
    if q == [] then [x] else [q[0], x] + q[1..]
  }

  function Place<T(==)>(q: seq<T>, x: T): (i: nat)
    ensures x in q ==> i < |q| && q[i] == x
    ensures x !in q ==> i == |q|
    ensures forall j :: 0 <= j < i ==> q[j] != x
  {
    if q == [] || q[0] == x then 0 else 1 + Place(q[1..], x)
  }

  // The member `x` taken out; `ptr` stays, or moves on when it was at `x`.
  function Left<T(==)>(q: seq<T>, x: T): seq<T> {
    var i := Place(q, x);
    if i == |q| then q else q[..i] + q[i + 1..]
  }

  // The ring as it is met from place `i` on.
  function From<T>(q: seq<T>, i: nat): (r: seq<T>)
    requires i <= |q|
  {
    q[i..] + q[..i]
  }

  // The order of turns when it is the turn of `cur`.
  function Turns<T(==)>(q: seq<T>, cur: T): (r: seq<T>) {
    From(q, Place(q, cur))
  }

  // `queue_next` of `x`.
  function Next<T(==)>(q: seq<T>, x: T): T
    requires x in q
  {
    var i := Place(q, x);
    if i + 1 < |q| then q[i + 1] else q[0]
  }

  lemma PlaceUnique<T>(q: seq<T>, i: nat)
    requires NoDup(q) && i < |q|
    ensures Place(q, q[i]) == i
  {
  }

  // ---- the same by pieces ----

  lemma Split<T>(q: seq<T>, x: T) returns (a: seq<T>, b: seq<T>)
    requires x in q
    ensures q == a + [x] + b && Left(q, x) == a + b
  {
    var i := Place(q, x);
    a, b := q[..i], q[i + 1..];
  }

  lemma Pieces<T>(q: seq<T>, a: seq<T>, x: T, b: seq<T>)
    requires q == a + [x] + b && NoDup(q)
    ensures Turns(q, x) == [x] + b + a && Left(q, x) == a + b
    ensures Next(q, x) == if b != [] then b[0] else if a != [] then a[0] else x
  {
    assert q[|a|] == x;
    PlaceUnique(q, |a|);
    assert q[|a|..] == [x] + b && q[..|a|] == a && q[|a| + 1..] == b;
  }

  lemma TurnsFirst<T>(q: seq<T>, cur: T)
    requires cur in q
    ensures |Turns(q, cur)| == |q| && Turns(q, cur)[0] == cur
    ensures forall x :: x in Turns(q, cur) <==> x in q
  {
    var i := Place(q, cur);
    assert q == q[..i] + q[i..];
  }

  lemma TurnsDistinct<T>(q: seq<T>, cur: T)
    requires NoDup(q) && cur in q
    ensures NoDup(Turns(q, cur))
  {
    var i := Place(q, cur);
    assert q == q[..i] + q[i..];
  }

  // Passing the turn on rotates the order of turns by one.
  lemma TickRotates<T>(q: seq<T>, cur: T)
    requires NoDup(q) && cur in q
    ensures Next(q, cur) in q && Turns(q, Next(q, cur)) == Turns(q, cur)[1..] + [cur]
  {
    hide Turns, Left, Next, NoDup;
    var a, b := Split(q, cur);
    Pieces(q, a, cur, b);
    if b != [] {
      assert q == (a + [cur]) + [b[0]] + b[1..];
      Pieces(q, a + [cur], b[0], b[1..]);
      assert [b[0]] + b[1..] == b;
    } else if a != [] {
      assert q == [] + [a[0]] + (a[1..] + [cur]);
      Pieces(q, [], a[0], a[1..] + [cur]);
      assert [a[0]] + a[1..] == a;
    }
  }

  lemma LeftFacts<T>(q: seq<T>, x: T)
    requires NoDup(q) && x in q
    ensures NoDup(Left(q, x)) && x !in Left(q, x) && |Left(q, x)| == |q| - 1
    ensures forall y :: y in Left(q, x) <==> y in q && y != x
  {
    var i := Place(q, x);
    assert q == q[..i] + [x] + q[i + 1..];
  }

  // The same by places.
  lemma LeftPlaces<T>(q: seq<T>, x: T)
    requires NoDup(q) && x in q
    ensures forall i :: 0 <= i < |Left(q, x)| ==> Left(q, x)[i] in q && Left(q, x)[i] != x
    ensures forall i :: 0 <= i < |q| && q[i] != x ==> q[i] in Left(q, x)
  {
    LeftFacts(q, x);
  }

  lemma JoinedPlaces<T>(q: seq<T>, x: T)
    requires NoDup(q) && x !in q
    ensures forall i :: 0 <= i < |Joined(q, x)| ==> Joined(q, x)[i] in q || Joined(q, x)[i] == x
    ensures x in Joined(q, x) && forall i :: 0 <= i < |q| ==> q[i] in Joined(q, x)
  {
    JoinedFacts(q, x);
  }

  lemma JoinedFacts<T>(q: seq<T>, x: T)
    requires NoDup(q) && x !in q
    ensures NoDup(Joined(q, x)) && |Joined(q, x)| == |q| + 1
    ensures forall y :: y in Joined(q, x) <==> y in q || y == x
  {
    if q != [] { assert q == [q[0]] + q[1..]; }
  }

  // When the member whose turn it is leaves, the others move up by one.
  lemma LeaveSelf<T>(q: seq<T>, cur: T)
    requires NoDup(q) && cur in q && |q| > 1
    ensures Next(q, cur) in Left(q, cur) && Turns(Left(q, cur), Next(q, cur)) == Turns(q, cur)[1..]
  {
    LeftFacts(q, cur);
    hide Turns, Left, Next, NoDup;
    var a, b := Split(q, cur);
    Pieces(q, a, cur, b);
    TailOf(cur, b, a);
    if b != [] {
      TurnsAt(a, b);
    } else {
      NoPiece(a, b);
      TurnsAt(b, a);
    }
  }

  lemma TailOf<T>(x: T, b: seq<T>, a: seq<T>)
    ensures ([x] + b + a)[1..] == b + a
  {
  }

  lemma NoPiece<T>(a: seq<T>, b: seq<T>)
    requires b == []
    ensures a + b == b + a
  {
  }

  lemma TurnsAt<T>(a: seq<T>, b: seq<T>)
    requires NoDup(a + b) && b != []
    ensures Turns(a + b, b[0]) == b + a
  {
    hide Turns, Left, Next, NoDup;
    assert [b[0]] + b[1..] == b;
    assert a + b == a + [b[0]] + b[1..];
    Pieces(a + b, a, b[0], b[1..]);
  }

  // When another member leaves, the order of the rest stays.
  lemma LeaveOther<T>(q: seq<T>, cur: T, x: T)
    requires NoDup(q) && cur in q && x in q && x != cur
    ensures cur in Left(q, x) && Turns(Left(q, x), cur) == Left(Turns(q, cur), x)
  {
    LeftFacts(q, x);
    TurnsDistinct(q, cur);
    hide Turns, Left, Next, NoDup;
    var a, b := Split(q, cur);
    Pieces(q, a, cur, b);
    if x in a {
      var c, d := Split(a, x);
      LeaveBefore(q, c, x, d, cur, b);
    } else {
      var c, d := Split(b, x);
      LeaveAfter(q, a, cur, c, x, d);
    }
  }

  lemma LeaveBefore<T>(q: seq<T>, c: seq<T>, x: T, d: seq<T>, cur: T, b: seq<T>)
    requires q == (c + [x] + d) + [cur] + b && NoDup(q) && NoDup(Left(q, x)) && NoDup(Turns(q, cur))
    ensures Turns(Left(q, x), cur) == Left(Turns(q, cur), x)
  {
    hide Turns, Left, Next, NoDup;
    Pieces(q, c + [x] + d, cur, b);
    Regroup(c + [x], d, [cur], b);
    Pieces(q, c, x, d + [cur] + b);
    Regroup(c, d, [cur], b);
    Pieces(Left(q, x), c + d, cur, b);
    Regroup([cur] + b, c, [x], d);
    Pieces(Turns(q, cur), [cur] + b + c, x, d);
    Regroup([cur], b, c, d);
  }

  lemma LeaveAfter<T>(q: seq<T>, a: seq<T>, cur: T, c: seq<T>, x: T, d: seq<T>)
    requires q == a + [cur] + (c + [x] + d) && NoDup(q) && NoDup(Left(q, x)) && NoDup(Turns(q, cur))
    ensures Turns(Left(q, x), cur) == Left(Turns(q, cur), x)
  {
    hide Turns, Left, Next, NoDup;
    Pieces(q, a, cur, c + [x] + d);
    Regroup(a + [cur], c, [x], d);
    Pieces(q, a + [cur] + c, x, d);
    Regroup(a, [cur], c, d);
    Regroup(a + [cur], c, d, []);
    Pieces(Left(q, x), a, cur, c + d);
    Regroup([cur], c, [x], d);
    Regroup([cur] + c, [x], d, a);
    Pieces(Turns(q, cur), [cur] + c, x, d + a);
    Regroup([cur], c, d, a);
  }

  lemma Regroup<T>(a: seq<T>, b: seq<T>, c: seq<T>, d: seq<T>)
    ensures a + (b + c + d) == (a + b) + c + d == a + b + (c + d) && a + (b + c) + d == a + b + c + d
    ensures a + (b + c) == a + b + c
    ensures d == [] ==> c + d == c
  {
  }

  // A new member gets its turn right after the one that `ptr` points to, and moves nobody otherwise.
  lemma JoinTurns<T>(q: seq<T>, cur: T, x: T) returns (p: nat)
    requires NoDup(q) && cur in q && x !in q
    ensures 0 < p <= |q| == |Turns(q, cur)| && Turns(Joined(q, x), cur) == Turns(q, cur)[..p] + [x] + Turns(q, cur)[p..]
    ensures Turns(q, cur)[p - 1] == q[0]
  {
    hide Turns, Left, Next, NoDup, Joined, Place;
    JoinedFacts(q, x);
    var a, b := Split(q, cur);
    if a == [] {
      p := JoinFront(q, cur, b, x);
    } else {
      assert a == [a[0]] + a[1..];
      p := JoinBehind(q, a[0], a[1..], cur, b, x);
    }
  }

  lemma JoinFront<T>(q: seq<T>, cur: T, b: seq<T>, x: T) returns (p: nat)
    requires q == [] + [cur] + b && NoDup(q) && NoDup(Joined(q, x))
    ensures 0 < p <= |q| == |Turns(q, cur)| && Turns(Joined(q, x), cur) == Turns(q, cur)[..p] + [x] + Turns(q, cur)[p..]
    ensures Turns(q, cur)[p - 1] == q[0]
  {
    hide Turns, Left, Next, NoDup, Place, Joined;
    p := 1;
    Pieces(q, [], cur, b);
    JoinedAfter(q, cur, b, x);
    Pieces(Joined(q, x), [], cur, [x] + b);
    CutFront(cur, b, x);
  }

  lemma JoinedAfter<T>(q: seq<T>, cur: T, b: seq<T>, x: T)
    requires q == [] + [cur] + b
    ensures Joined(q, x) == [] + [cur] + ([x] + b)
  {
    assert q[1..] == b;
  }

  lemma CutFront<T>(cur: T, b: seq<T>, x: T)
    ensures var t := [cur] + b + []; t[..1] + [x] + t[1..] == [cur] + ([x] + b) + []
  {
    var t := [cur] + b + [];
    assert t[1..] == b;
  }

  lemma JoinBehind<T>(q: seq<T>, first: T, a: seq<T>, cur: T, b: seq<T>, x: T) returns (p: nat)
    requires q == [first] + a + [cur] + b && NoDup(q) && NoDup(Joined(q, x))
    ensures 0 < p <= |q| == |Turns(q, cur)| && Turns(Joined(q, x), cur) == Turns(q, cur)[..p] + [x] + Turns(q, cur)[p..]
    ensures Turns(q, cur)[p - 1] == q[0]
  {
    hide Turns, Left, Next, NoDup;
    Pieces(q, [first] + a, cur, b);
    p := 1 + |b| + 1;
    JoinedPieces(q, first, a, cur, b, x);
    Pieces(Joined(q, x), [first, x] + a, cur, b);
    CutAfter([cur] + b, first, a, x);
  }

  lemma JoinedPieces<T>(q: seq<T>, first: T, a: seq<T>, cur: T, b: seq<T>, x: T)
    requires q == [first] + a + [cur] + b
    ensures Joined(q, x) == ([first, x] + a) + [cur] + b
  {
    assert q[1..] == a + [cur] + b;
  }

  lemma CutAfter<T>(c: seq<T>, first: T, a: seq<T>, x: T)
    ensures var t, p := c + ([first] + a), |c| + 1; t[..p] + [x] + t[p..] == c + ([first, x] + a)
  {
    var t, p := c + ([first] + a), |c| + 1;
    assert t[..p] == c + [first] && t[p..] == a;
    assert [first, x] + a == [first] + ([x] + a);
  }
}
