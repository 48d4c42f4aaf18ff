/** Constants and 32-bit arithmetic shared by the kernel modules. */
module Common {

  datatype Option<+T> = None | Some(value: T)

  const WORD := 0x1_0000_0000
  const PAGE := 0x1000

  const KERNEL_STACK_POS := 0xFFFF_F000
  const KERNEL_STACK_SIZE := 4 * 1024
  // The highest multiple of 4 MB below the kernel stack.
  const KERNEL_HEAP_END := (KERNEL_STACK_POS - KERNEL_STACK_SIZE) / 0x40_0000 * 0x40_0000
  const KERNEL_HEAP_BEGIN := KERNEL_HEAP_END - 256 * 1024 * 1024

  ghost predicate NoDup<A>(q: seq<A>) {
    forall i, j :: 0 <= i < j < |q| ==> q[i] != q[j]
  }

  lemma HeapBounds()
    ensures KERNEL_HEAP_BEGIN == 0xEFC0_0000 && KERNEL_HEAP_END == 0xFFC0_0000
  {
  }

  function Add32(a: nat, b: nat): nat {
    (a + b) % WORD
  }

  // Byte `j` of a little-endian word.
  function WordByte(w: nat, j: nat): (b: nat)
    ensures b < 0x100
  {
    (if j == 0 then w else if j == 1 then w / 0x100 else if j == 2 then w / 0x1_0000 else w / 0x100_0000) % 0x100
  }

  // A word and its bytes, in linear terms.
  lemma WordDigits(w: nat)
    requires w < WORD
    ensures var low, high := WordByte(w, 0) + 0x100 * WordByte(w, 1), WordByte(w, 2) + 0x100 * WordByte(w, 3);
      w == low + 0x1_0000 * high && w % 0x1_0000 == low && w / 0x1_0000 == high
  {
    var q1, q2, q3 := w / 0x100, w / 0x1_0000, w / 0x100_0000;
    assert q2 == q1 / 0x100 && q3 == q2 / 0x100;
    Digit(w, q1);
    Digit(q1, q2);
    Digit(q2, q3);
  }

  lemma Digit(w: nat, q: nat)
    requires q == w / 0x100
    ensures w == w % 0x100 + 0x100 * q
  {
  }

  function Pow2(n: nat): (p: nat)
    ensures p > 0
  {
    if n == 0 then 1 else 2 * Pow2(n - 1)
  }

  // `a` rounded up to a multiple of `m`, over the unbounded integers.
  function RoundUp(a: nat, m: nat): nat
    requires m > 0
  {
    if a == 0 then 0 else ((a - 1) / m + 1) * m
  }

  function RoundDown(a: nat, m: nat): nat
    requires m > 0
  {
    a / m * m
  }

  // The code's `get_aligned`, on 32-bit words.
  function GetAligned(addr: nat, palign: nat): nat {
    if addr == 0 then 0 else ((addr - 1) / Pow2(palign) + 1) * Pow2(palign) % WORD
  }

  lemma DivMul(a: nat, m: nat)
    requires m > 0
    ensures a / m * m <= a < a / m * m + m
  {
    assert a == a / m * m + a % m;
  }

  lemma MulMod(q: nat, m: nat)
    requires m > 0
    ensures q * m % m == 0
  {
    var d := q * m / m;
    DivMul(q * m, m);
    if d < q {
      MulOrder(d + 1, q, m);
    } else if d > q {
      MulOrder(q + 1, d, m);
    }
  }

  lemma MulOrder(a: int, b: int, m: nat)
    requires a <= b
    ensures a * m <= b * m
  {
  }

  lemma RoundUpFacts(a: nat, m: nat)
    requires m > 0
    ensures a <= RoundUp(a, m) < a + m && RoundUp(a, m) % m == 0
  {
    if a > 0 {
      DivMul(a - 1, m);
      MulMod((a - 1) / m + 1, m);
    }
  }

  // Rounding up gives the least multiple that is not below.
  lemma RoundUpLeast(a: nat, m: nat, b: nat)
    requires m > 0 && b % m == 0 && a <= b
    ensures RoundUp(a, m) <= b
  {
    if a > 0 {
      var q, k := (a - 1) / m, b / m;
      DivMul(a - 1, m);
      assert b == k * m;
      if q >= k { MulOrder(k, q, m); }
      MulOrder(q + 1, k, m);
    }
  }

  lemma RoundDownFacts(a: nat, m: nat)
    requires m > 0
    ensures RoundDown(a, m) <= a < RoundDown(a, m) + m && RoundDown(a, m) % m == 0
  {
    DivMul(a, m);
    MulMod(a / m, m);
  }

  lemma {:induction false} Pow2Divides(p: nat, q: nat)
    requires p <= q
    ensures Pow2(q) % Pow2(p) == 0
    decreases q - p
  {
    if p < q {
      Pow2Divides(p + 1, q);
      var k := Pow2(q) / Pow2(p + 1);
      assert Pow2(q) == k * (2 * Pow2(p)) == (2 * k) * Pow2(p);
      MulMod(2 * k, Pow2(p));
    } else {
      MulMod(1, Pow2(p));
    }
  }

  // Which alignments the 32-bit rounding computes exactly for every address of the heap.
  lemma AlignExact(p: nat)
    requires p < 32
    ensures (forall a :: 0 < a <= KERNEL_HEAP_END ==> GetAligned(a, p) == RoundUp(a, Pow2(p))) <==> p <= 22
  {
    hide Pow2, GetAligned, RoundUp;
    if p <= 22 {
      forall a | 0 < a <= KERNEL_HEAP_END ensures GetAligned(a, p) == RoundUp(a, Pow2(p)) {
        AlignedInHeap(a, p);
      }
    } else {
      AlignWraps(p);
    }
  }

  lemma AlignedInHeap(a: nat, p: nat)
    requires p <= 22 && 0 < a <= KERNEL_HEAP_END
    ensures GetAligned(a, p) == RoundUp(a, Pow2(p))
  {
    hide Pow2;
    HeapEndAligned(p);
    RoundUpLeast(a, Pow2(p), KERNEL_HEAP_END);
    RoundUpFacts(a, Pow2(p));
  }

  lemma HeapEndAligned(p: nat)
    requires p <= 22
    ensures KERNEL_HEAP_END % Pow2(p) == 0
  {
    hide Pow2;
    Pow2Divides(p, 22);
    Pow2Values();
    MultipleOf(0x40_0000, 1023, Pow2(p));
  }

  lemma MultipleOf(a: nat, k: nat, m: nat)
    requires m > 0 && a % m == 0
    ensures k * a % m == 0
  {
    var q := a / m;
    assert a == q * m;
    assert k * a == (k * q) * m;
    MulMod(k * q, m);
  }

  // Two multiples of `m` less than `m` apart are the same.
  lemma SameMultiple(r: nat, w: nat, m: nat)
    requires m > 0 && r % m == 0 && w % m == 0 && w - m < r <= w
    ensures r == w
  {
    var i, j := r / m, w / m;
    assert r == i * m && w == j * m;
    if i < j {
      MulOrder(i + 1, j, m);
    } else {
      MulOrder(j, i, m);
    }
  }

  // With 8 MB alignment or more, the end of the heap is rounded to address 0.
  lemma AlignWraps(p: nat)
    requires 22 < p < 32
    ensures GetAligned(KERNEL_HEAP_END, p) == 0 && RoundUp(KERNEL_HEAP_END, Pow2(p)) == WORD
  {
    WordIsMultiple(p);
    hide Pow2;
    var m, r := Pow2(p), RoundUp(KERNEL_HEAP_END, Pow2(p));
    RoundUpFacts(KERNEL_HEAP_END, m);
    RoundUpLeast(KERNEL_HEAP_END, m, WORD);
    SameMultiple(r, WORD, m);
  }

  lemma WordIsMultiple(p: nat)
    requires 22 < p < 32
    ensures WORD % Pow2(p) == 0 && Pow2(p) >= 0x80_0000
  {
    WordMultiple(p);
    Pow2Values();
    hide Pow2;
    Pow2Monotone(23, p);
  }

  lemma WordMultiple(p: nat)
    requires p < 32
    ensures WORD % Pow2(p) == 0
  {
    Pow2Values();
    assert Pow2(32) == 2 * Pow2(31);
    hide Pow2;
    Pow2Divides(p, 32);
  }

  lemma {:induction false} Pow2Monotone(p: nat, q: nat)
    requires p <= q
    ensures Pow2(p) <= Pow2(q)
    decreases q - p
  {
    if p < q { Pow2Monotone(p + 1, q); }
  }

  lemma Pow2Values()
    ensures Pow2(12) == PAGE && Pow2(22) == 0x40_0000 && Pow2(23) == 0x80_0000 && Pow2(24) == 0x100_0000
    ensures Pow2(25) == 0x200_0000 && Pow2(26) == 0x400_0000 && Pow2(27) == 0x800_0000 && Pow2(28) == 0x1000_0000
    ensures Pow2(29) == 0x2000_0000 && Pow2(30) == 0x4000_0000 && Pow2(31) == 0x8000_0000
  {
    assert Pow2(4) == 16 && Pow2(8) == 256;
    assert Pow2(12) == 16 * Pow2(8);
    assert Pow2(16) == 16 * Pow2(12);
    assert Pow2(20) == 16 * Pow2(16);
    assert Pow2(24) == 16 * Pow2(20);
    assert Pow2(28) == 16 * Pow2(24);
  }

  lemma {:induction false} SubsetSize<A>(a: set<A>, b: set<A>)
    requires a <= b
    ensures |a| <= |b|
  {
    if a != {} {
      var x :| x in a;
      SubsetSize(a - {x}, b - {x});
    }
  }
}
