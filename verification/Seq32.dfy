/** Sequence numbers and clock values on the 32-bit circle: the comparison macros of lwIP and the
    half-window lemma that turns them into comparisons of integers. */
module Seq32 {
  import opened Words

  const WRAP: int := 0x1_0000_0000
  const HALF: int := 0x8000_0000
  /** Two points within QUARTER of a third one are within HALF of each other. */
  const QUARTER: int := 0x4000_0000

  /** The signed 32-bit value of `a - b`. */
  function Diff(a: U32, b: U32): (r: int)
    ensures -HALF <= r < HALF
    ensures (b + r) % WRAP == a
  {
    var d := (a - b) % WRAP;
    if d < HALF then d else d - WRAP
  }

  function Add(a: U32, n: int): U32 {
    (a + n) % WRAP
  }

  predicate SeqLt(a: U32, b: U32) { Diff(a, b) < 0 }

  predicate SeqLeq(a: U32, b: U32) { Diff(a, b) <= 0 }

  predicate SeqGt(a: U32, b: U32) { Diff(a, b) > 0 }

  predicate SeqGeq(a: U32, b: U32) { Diff(a, b) >= 0 }

  predicate SeqBetween(a: U32, b: U32, c: U32) {
    SeqGeq(a, b) && SeqLeq(a, c)
  }

  /** Half-window lemma: positions less than half a circle apart are compared as integers are. */
  lemma HalfWindow(x: int, y: int)
    requires -HALF <= x - y < HALF
    ensures Diff(x % WRAP, y % WRAP) == x - y
  {
    var a, b := x % WRAP, y % WRAP;
    var d := (a - b) % WRAP;
    assert (a - b - (x - y)) % WRAP == 0;
  }

  /** Two points near `r` differ by the difference of their distances from `r`. */
  lemma DiffNear(a: U32, b: U32, r: U32)
    requires -QUARTER <= Diff(a, r) < QUARTER && -QUARTER <= Diff(b, r) < QUARTER
    ensures Diff(a, b) == Diff(a, r) - Diff(b, r)
  {
    HalfWindow(r + Diff(a, r), r + Diff(b, r));
  }

  /** Moving a point moves its distance by as much. */
  lemma DiffAdd(a: U32, n: int, r: U32)
    requires -HALF <= Diff(a, r) + n < HALF
    ensures Diff(Add(a, n), r) == Diff(a, r) + n
  {
    hide Diff, Add;
    var d := Diff(a, r);
    AddOf(r + d, n);
    HalfWindow(r + d + n, r);
  }

  lemma AddOf(x: int, n: int)
    ensures Add(x % WRAP, n) == (x + n) % WRAP
  {
    ModAdd(x, n);
  }

  lemma ModAdd(x: int, n: int)
    ensures (x % WRAP + n) % WRAP == (x + n) % WRAP
  {
    var k := x / WRAP;
    assert x + n == k * WRAP + (x % WRAP + n);
    SameMod(x % WRAP + n, k);
  }

  lemma SameMod(y: int, k: int)
    ensures (k * WRAP + y) % WRAP == y % WRAP
  {
  }

  /** Moving the reference point moves every distance the other way. */
  lemma DiffRebase(a: U32, r: U32, n: int)
    requires -HALF <= Diff(a, r) - n < HALF
    ensures Diff(a, Add(r, n)) == Diff(a, r) - n
  {
    HalfWindow(r + Diff(a, r), r + n);
  }
}
