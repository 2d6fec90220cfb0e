/** The Internet checksum of inet_chksum.c (RFC 1071, section 2): the three summing loops, the checksum of a pbuf
    chain and the pseudo-header checksums, on a little-endian host. */
module Checksum {
  import opened Words

  /** A 16-bit word from its low and its high byte. */
  function Word(lo: U8, hi: U8): U16 {
    lo + 0x100 * (hi as int)
  }

  // ---------- the sum and its 16-bit value ----------

  /** Sum of the bytes, weighted 1 and 256 in turn; `high` says that the first byte has weight 256. */
  function Sum(b: seq<U8>, high: bool): nat {
    if b == [] then 0 else (if high then Word(0, b[0]) else b[0]) + Sum(b[1..], !high)
  }

  /** The same one's-complement value: equal modulo 65535, with zero set apart. */
  ghost predicate Same(x: int, y: int) {
    (x - y) % 65535 == 0 && x >= 0 && y >= 0 && (x == 0 <==> y == 0)
  }

  /** The 16-bit number that stands for a sum. */
  function Norm(s: nat): U16 {
    if s == 0 then 0 else 1 + (s - 1) % 65535
  }

  /** The checksum of some bytes as the code handles it: not inverted, low byte first. */
  function Chksum(b: seq<U8>): U16 {
    Norm(Sum(b, false))
  }

  /** FOLD_U32T */
  function Fold(x: U32): U32 {
    x / 0x1_0000 + x % 0x1_0000
  }

  /** SWAP_BYTES_IN_WORD, which drops what lies above 16 bits. Also lwip_htons. */
  function Swap(x: U32): U16 {
    x % 0x100 * 0x100 + x / 0x100 % 0x100
  }

  function Invert(x: U16): U16 {
    0xFFFF - x
  }

  function Add32(x: U32, y: U32): U32 {
    (x + y) % 0x1_0000_0000
  }

  lemma Via(x: int, y: int, z: int)
    requires Same(x, y) || Same(y, x)
    requires Same(y, z) || Same(z, y)
    ensures Same(x, z) && Same(z, x)
  {
  }

  lemma Flip(x: int, y: int)
    requires Same(x, y)
    ensures Same(y, x)
  {
  }

  lemma SameAdd(x: int, y: int, z: nat)
    requires Same(x, y)
    ensures Same(x + z, y + z)
  {
  }

  lemma NormIs(x: nat)
    ensures Same(x, Norm(x)) && (x <= 0xFFFF ==> Norm(x) == x)
  {
  }

  lemma NormEq(x: int, y: int)
    requires Same(x, y)
    ensures Norm(x) == Norm(y) && (x <= 0xFFFF ==> x == Norm(y))
  {
  }

  lemma FoldSame(x: U32)
    ensures Same(Fold(x), x)
    ensures Fold(x) <= 0x1_FFFE && (x <= 0x1_FFFE ==> Fold(x) <= 0xFFFF)
  {
    assert x == 0x1_0000 * (x / 0x1_0000) + x % 0x1_0000;
  }

  /** Two folds bring any sum down to 16 bits. */
  lemma FoldTwice(x: U32)
    ensures Fold(x) <= 0x1_FFFE && Fold(Fold(x)) <= 0xFFFF && Same(Fold(Fold(x)), x)
  {
    hide Same, Fold;
    FoldSame(x);
    FoldSame(Fold(x));
    Via(Fold(Fold(x)), Fold(x), x);
  }

  lemma SwapWord(x: U16)
    ensures Swap(x) == Word(x / 0x100, x % 0x100)
  {
  }

  /** On 16 bits, swapping the bytes is multiplying by 256. */
  lemma SwapSame(x: U16)
    ensures Same(Swap(x), 256 * x) && Swap(Swap(x)) == x
  {
    var h, l := x / 0x100, x % 0x100;
    assert x == 0x100 * h + l;
    assert 256 * x - Swap(x) == 65535 * h;
  }

  lemma SameTimes256(x: int, y: int)
    requires Same(x, y)
    ensures Same(256 * x, 256 * y)
  {
    var k := (x - y) / 65535;
    assert x - y == 65535 * k;
    WholeTurns(256 * x - 256 * y, 256 * k);
  }

  lemma WholeTurns(d: int, k: int)
    requires d == 65535 * k
    ensures d % 65535 == 0
  {
  }

  lemma {:induction false} SumConcat(a: seq<U8>, b: seq<U8>, high: bool)
    ensures Sum(a + b, high) == Sum(a, high) + Sum(b, high != (|a| % 2 == 1))
  {
    if a == [] {
      assert a + b == b;
    } else {
      assert (a + b)[0] == a[0] && (a + b)[1..] == a[1..] + b;
      SumConcat(a[1..], b, !high);
    }
  }

  /** Moving the bytes by one place multiplies the sum by 256. */
  lemma {:induction false} SumShift(b: seq<U8>, high: bool)
    ensures Same(Sum(b, !high), 256 * Sum(b, high))
  {
    if b != [] {
      SumShift(b[1..], !high);
      ShiftByte(b[0], high, Sum(b[1..], high), Sum(b[1..], !high));
    }
  }

  lemma ShiftByte(x: U8, high: bool, s: nat, t: nat)
    requires Same(s, 256 * t)
    ensures Same((if high then x else Word(0, x)) + s, 256 * ((if high then Word(0, x) else x) + t))
  {
    var y: nat := x;
    SameAdd(s, 256 * t, 256 * y);
    if high {
      SameAdd(y, 256 * (256 * y), s);
      SameAdd(s, 256 * t, 256 * (256 * y));
      hide Same;
      Via(y + s, 256 * (256 * y) + s, 256 * t + 256 * (256 * y));
    }
  }

  lemma {:induction false} SumBound(b: seq<U8>, high: bool)
    ensures Sum(b, high) <= 65535 * (|b| / 2) + if |b| % 2 == 0 then 0 else if high then 65280 else 255
  {
    if |b| == 1 {
      assert Sum(b[1..], !high) == 0;
    } else if |b| > 1 {
      assert b[1..][1..] == b[2..];
      SumBound(b[2..], high);
    }
  }

  lemma SumTwo(b: seq<U8>, high: bool)
    requires |b| >= 2
    ensures Sum(b, high) == (if high then Word(b[1], b[0]) else Word(b[0], b[1])) + Sum(b[2..], high)
  {
    assert b[1..][1..] == b[2..];
  }

  // ---------- the definition of RFC 1071 ----------

  /** One's-complement addition: the carry is added back. */
  function OnesAdd(x: U16, y: U16): U16 {
    if x + y > 0xFFFF then x + y - 0xFFFF else x + y
  }

  /** The one's-complement sum of the 16-bit words in network order, the last byte padded with zero. */
  function Rfc1071(b: seq<U8>): U16 {
    if b == [] then 0
    else if |b| == 1 then Word(0, b[0])
    else OnesAdd(Word(b[1], b[0]), Rfc1071(b[2..]))
  }

  /** What the code computes is the sum of RFC 1071 with its bytes swapped. */
  lemma ChksumIsRfc1071(b: seq<U8>)
    ensures Swap(Chksum(b)) == Rfc1071(b)
  {
    hide Same, Norm, Sum, Swap, Rfc1071;
    RfcSame(b);
    Flip(Sum(b, true), Rfc1071(b));
    NormEq(Rfc1071(b), Sum(b, true));
    SwapNorm(b, false);
  }

  lemma {:induction false} SumZero(b: seq<U8>, high: bool)
    ensures Sum(b, high) == 0 <==> forall i :: 0 <= i < |b| ==> b[i] == 0
  {
    if b != [] {
      SumZero(b[1..], !high);
      assert forall i :: 1 <= i < |b| ==> b[i] == b[1..][i - 1];
    }
  }

  /** It is zero for zero bytes only. */
  lemma ChksumZero(b: seq<U8>)
    ensures Chksum(b) == 0 <==> forall i :: 0 <= i < |b| ==> b[i] == 0
  {
    SumZero(b, false);
  }

  lemma OnesAddSame(x: U16, y: U16)
    ensures Same(x + y, OnesAdd(x, y))
  {
  }

  lemma {:induction false} RfcSame(b: seq<U8>)
    ensures Same(Sum(b, true), Rfc1071(b))
  {
    hide Same, OnesAdd, Word;
    if b == [] {
      NormIs(0);
      assert Sum(b, true) == 0 == Rfc1071(b);
      Via(0, Norm(0), 0);
    } else if |b| == 1 {
      assert Sum(b[1..], false) == 0;
      NormIs(Word(0, b[0]));
      Via(Word(0, b[0]), Norm(Word(0, b[0])), Word(0, b[0]));
    } else {
      var w: nat, s, r: nat := Word(b[1], b[0]), Sum(b[2..], true), Rfc1071(b[2..]);
      SumTwo(b, true);
      RfcSame(b[2..]);
      SameAdd(s, r, w);
      OnesAddSame(w, r);
      Via(s + w, r + w, OnesAdd(w, r));
    }
  }

  /** Swapping the checksum of one alignment gives that of the other. */
  lemma SwapNorm(b: seq<U8>, high: bool)
    ensures Swap(Norm(Sum(b, high))) == Norm(Sum(b, !high))
  {
    hide Same, Norm, Sum, Swap;
    var s := Sum(b, high);
    NormIs(s);
    SwapSame(Norm(s));
    SameTimes256(s, Norm(s));
    SumShift(b, high);
    Via(256 * s, 256 * Norm(s), Swap(Norm(s)));
    Via(Swap(Norm(s)), 256 * s, Sum(b, !high));
    NormEq(Swap(Norm(s)), Sum(b, !high));
  }

  /** A message that carries the inverted checksum of the rest, at an even place, has checksum 0xFFFF, so a
      receiver computes zero. */
  lemma CarriesItsChecksum(a: seq<U8>, c: seq<U8>, b: seq<U8>)
    requires |a| % 2 == 0 && |c| == 2
    requires Word(c[0], c[1]) == Invert(Chksum(a + [0, 0] + b))
    ensures Invert(Chksum(a + c + b)) == 0
  {
    var s := Sum(a + [0, 0] + b, false);
    SumField(a, [0, 0], b);
    SumField(a, c, b);
    assert Word(0, 0) == 0;
  }

  lemma SumField(a: seq<U8>, m: seq<U8>, b: seq<U8>)
    requires |a| % 2 == 0 && |m| == 2
    ensures Sum(a + m + b, false) == Sum(a, false) + Word(m[0], m[1]) + Sum(b, false)
  {
    assert a + m + b == a + (m + b);
    SumConcat(a, m + b, false);
    SumConcat(m, b, false);
    SumTwo(m, false);
    assert Sum(m[2..], false) == 0;
  }

  // ---------- the three loops of lwip_standard_chksum ----------

  /** Largest length for which no sum of 16-bit words can overflow 32 bits. */
  const MAXLEN: nat := 0x2_0002

  /** What a 32-bit accumulator without carries makes of a buffer whose first byte has weight 256 or 1. */
  ghost function Wrapped(data: seq<U8>, high: bool): U16 {
    var w := Norm(Sum(data, high) % 0x1_0000_0000);
    if high then Swap(w) else w
  }

  lemma WrapStep(acc: U32, done: nat, w: U16)
    requires acc == done % 0x1_0000_0000
    ensures Add32(acc, w) == (done + w) % 0x1_0000_0000
  {
    var k := done / 0x1_0000_0000;
    assert done + w == k * 0x1_0000_0000 + (acc + w);
    WrapTurns(acc + w, k);
  }

  lemma WrapTurns(x: nat, k: nat)
    ensures (k * 0x1_0000_0000 + x) % 0x1_0000_0000 == x % 0x1_0000_0000
  {
  }

  /** Up to MAXLEN bytes nothing wraps around. */
  lemma WrappedFits(data: seq<U8>, high: bool)
    requires |data| <= MAXLEN
    ensures Sum(data, high) <= 0xFFFF_FFFF && Wrapped(data, high) == Chksum(data)
  {
    hide Sum, Norm, Swap;
    SumBound(data, high);
    SwapNorm(data, true);
  }

  lemma TakeWord(data: seq<U8>, i: nat, high: bool)
    requires i + 2 <= |data|
    ensures Sum(data[i..], high) ==
            (if high then Word(data[i + 1], data[i]) else Word(data[i], data[i + 1])) + Sum(data[i + 2..], high)
  {
    SumTwo(data[i..], high);
    assert data[i..][2..] == data[i + 2..];
  }

  lemma TakeLast(data: seq<U8>, i: nat, high: bool)
    requires i + 1 == |data|
    ensures Sum(data[i..], high) == if high then Word(0, data[i]) else data[i]
  {
    assert Sum(data[i..][1..], !high) == 0;
  }

  lemma TakeNothing(data: seq<U8>, high: bool)
    ensures Sum(data[|data|..], high) == 0 && data[0..] == data
  {
  }

  /** Version 1: byte pairs in network order. */
  method StandardChksum1(data: seq<U8>) returns (r: U16)
    ensures r == Wrapped(data, true) && (|data| <= MAXLEN ==> r == Chksum(data))
  {
    hide Sum, Word, Same, Norm, Fold, Swap, Add32;
    var acc: U32, i, len := 0, 0, |data|;
    ghost var done: nat := 0;
    TakeNothing(data, true);
    while len > 1
      invariant 0 <= len && i + len == |data| && done + Sum(data[i..], true) == Sum(data, true)
      invariant acc == done % 0x1_0000_0000
      decreases len
    {
      TakeWord(data, i, true);
      WrapStep(acc, done, Word(data[i + 1], data[i]));
      acc, done := Add32(acc, Word(data[i + 1], data[i])), done + Word(data[i + 1], data[i]);
      i, len := i + 2, len - 2;
    }
    if len > 0 {
      TakeLast(data, i, true);
      WrapStep(acc, done, Word(0, data[i]));
      acc, done := Add32(acc, Word(0, data[i])), done + Word(0, data[i]);
    }
    ghost var sum := acc;
    FoldSame(acc);
    FoldTwice(acc);
    acc := Fold(acc);
    if acc >= 0x1_0000 {
      acc := Fold(acc);
    }
    NormEq(acc, sum);
    r := Swap(acc);
    if |data| <= MAXLEN {
      WrappedFits(data, true);
    }
  }

  /** What a buffer at an odd address adds up to: its first byte goes to the high half of a word. */
  lemma SumOdd(data: seq<U8>, i: nat, high: bool)
    requires i == if high && data != [] then 1 else 0
    ensures Sum(data, high) == Word(0, if i == 1 then data[0] else 0) + Sum(data[i..], false)
  {
    assert data[0..] == data;
  }

  /** Version 2: 16-bit words, for a buffer that may start at an odd address. */
  method StandardChksum2(data: seq<U8>, addr: nat) returns (r: U16)
    ensures r == Wrapped(data, addr % 2 == 1) && (|data| <= MAXLEN ==> r == Chksum(data))
  {
    hide Sum, Word, Norm, Swap;
    var odd := addr % 2 == 1;
    var hi: U8, i: nat := 0, 0;
    if odd && |data| > 0 {
      hi, i := data[0], 1;
    }
    SumOdd(data, i, odd);
    r := SumTail(data, i, 0, hi, odd);
    if |data| <= MAXLEN {
      WrappedFits(data, odd);
    }
  }

  /** The common end of versions 2 and 3: the 16-bit words that remain, the end bytes, and the folding. */
  method SumTail(data: seq<U8>, start: nat, start_sum: U32, hi: U8, odd: bool) returns (r: U16)
    requires start <= |data|
    ensures var w := Norm((start_sum + Word(0, hi) + Sum(data[start..], false)) % 0x1_0000_0000);
            r == if odd then Swap(w) else w
  {
    hide Sum, Word, Norm, Swap, Add32;
    var sum: U32, lo: U8, i, len := start_sum, 0, start, |data| - start;
    ghost var done: nat := start_sum;
    TakeNothing(data, false);
    while len > 1
      invariant 0 <= len && i + len == |data|
      invariant done + Sum(data[i..], false) == start_sum + Sum(data[start..], false)
      invariant sum == done % 0x1_0000_0000
      decreases len
    {
      TakeWord(data, i, false);
      WrapStep(sum, done, Word(data[i], data[i + 1]));
      sum, done := Add32(sum, Word(data[i], data[i + 1])), done + Word(data[i], data[i + 1]);
      i, len := i + 2, len - 2;
    }
    if len > 0 {
      TakeLast(data, i, false);
      lo := data[i];
    }
    WordSplit(lo, hi);
    WrapStep(sum, done, Word(lo, hi));
    r := FoldAndSwap(Add32(sum, Word(lo, hi)), odd);
  }

  lemma WordSplit(lo: U8, hi: U8)
    ensures Word(lo, hi) == lo as int + Word(0, hi) as int
  {
  }

  method FoldAndSwap(sum: U32, odd: bool) returns (r: U16)
    ensures r == if odd then Swap(Norm(sum)) else Norm(sum)
  {
    hide Same, Norm, Fold, Swap;
    FoldTwice(sum);
    r := Fold(Fold(sum));
    NormEq(r, sum);
    if odd {
      r := Swap(r);
    }
  }

  /** Adding with the carry added back keeps the one's-complement value. */
  function AddCarry(sum: U32, x: U32): (tmp: U32)
    ensures Same(tmp, sum + x)
  {
    var t := Add32(sum, x);
    if t < sum then t + 1 else t
  }

  function Word32(b0: U8, b1: U8, b2: U8, b3: U8): U32 {
    Word(b0, b1) + 0x1_0000 * (Word(b2, b3) as int)
  }

  lemma SumFour(data: seq<U8>, i: nat)
    requires i + 4 <= |data|
    ensures Sum(data[i..], false) ==
            Word(data[i], data[i + 1]) + Word(data[i + 2], data[i + 3]) + Sum(data[i + 4..], false)
  {
    hide Word;
    TakeWord(data, i, false);
    TakeWord(data, i + 2, false);
  }

  /** A 32-bit word counts as its two halves. */
  lemma HalvesSame(lo: U16, hi: U16, s: nat)
    ensures Same(lo + 0x1_0000 * (hi as int) + s, lo + hi + s)
  {
    assert lo + 0x1_0000 * (hi as int) + s - (lo + hi + s) == 65535 * (hi as int);
  }

  /** Version 3: 32-bit words with the carry added back, eight bytes a turn. Any length will do. */
  method StandardChksum3(data: seq<U8>, addr: nat) returns (r: U16)
    ensures r == Chksum(data)
  {
    hide Sum, Word, Same, Norm, Fold, Swap;
    var odd := addr % 2 == 1;
    var sum: U32, hi: U8, i: nat := 0, 0, 0;
    if odd && |data| > 0 {
      hi, i := data[0], 1;
    }
    SumOdd(data, i, odd);
    if (addr + i) % 4 != 0 && |data| - i > 1 {
      TakeWord(data, i, false);
      sum := Word(data[i], data[i + 1]);
      i := i + 2;
    }
    ghost var total := Sum(data, odd);
    NormIs(total);
    Via(total, Norm(total), total);
    sum, i := SumBulk(data, i, sum, hi, total);
    FoldSame(sum);
    SameAdd(Fold(sum), sum, Word(0, hi) + Sum(data[i..], false));
    Via(Fold(sum) + (Word(0, hi) + Sum(data[i..], false)), sum + Word(0, hi) + Sum(data[i..], false), total);
    SumBound(data[i..], false);
    NormEq(Fold(sum) + Word(0, hi) + Sum(data[i..], false), total);
    NoWrap(Fold(sum) + Word(0, hi) + Sum(data[i..], false));
    SwapNorm(data, true);
    r := SumTail(data, i, Fold(sum), hi, odd);
  }

  lemma NoWrap(x: nat)
    requires x < 0x1_0000_0000
    ensures x % 0x1_0000_0000 == x
  {
  }

  method SumBulk(data: seq<U8>, start: nat, start_sum: U32, ghost hi: U8, ghost total: nat) returns (sum: U32, i: nat)
    requires start <= |data| && Same(start_sum + Word(0, hi) + Sum(data[start..], false), total)
    ensures i <= |data| <= i + 7 && Same(sum + Word(0, hi) + Sum(data[i..], false), total)
  {
    hide Sum, Word, Same, AddCarry;
    var len := |data| - start;
    sum, i := start_sum, start;
    while len > 7
      invariant 0 <= len && i + len == |data|
      invariant Same(sum + Word(0, hi) + Sum(data[i..], false), total)
      decreases len
    {
      var w0 := Word32(data[i], data[i + 1], data[i + 2], data[i + 3]);
      var w1 := Word32(data[i + 4], data[i + 5], data[i + 6], data[i + 7]);
      var tmp := AddCarry(sum, w0);
      SumFour(data, i);
      SumFour(data, i + 4);
      HalvesSame(Word(data[i], data[i + 1]), Word(data[i + 2], data[i + 3]), Sum(data[i + 4..], false));
      HalvesSame(Word(data[i + 4], data[i + 5]), Word(data[i + 6], data[i + 7]), Sum(data[i + 8..], false));
      PingPong(sum, w0, tmp, Word(0, hi), Sum(data[i..], false), Sum(data[i + 4..], false), total);
      PingPong(tmp, w1, AddCarry(tmp, w1), Word(0, hi), Sum(data[i + 4..], false), Sum(data[i + 8..], false), total);
      sum := AddCarry(tmp, w1);
      i, len := i + 8, len - 8;
    }
  }

  lemma PingPong(sum: nat, w: nat, tmp: nat, t: nat, s: nat, s': nat, total: int)
    requires Same(sum + t + s, total) && Same(w + s', s) && Same(tmp, sum + w)
    ensures Same(tmp + t + s', total)
  {
    hide Same;
    SameAdd(tmp, sum + w, t + s');
    SameAdd(w + s', s, sum + t);
    Via(tmp + (t + s'), sum + w + (t + s'), s + (sum + t));
    Via(tmp + t + s', s + (sum + t), total);
  }

  /** `n` bytes of the largest value. */
  lemma {:induction false} SumOnes(n: nat, high: bool)
    ensures Sum(seq(n, _ => 0xFF), high) == 65535 * (n / 2) + (if n % 2 == 0 then 0 else if high then 65280 else 255)
  {
    var b: seq<U8> := seq(n, _ => 0xFF);
    if n >= 2 {
      SumTwo(b, high);
      assert b[2..] == seq(n - 2, _ => 0xFF);
      SumOnes(n - 2, high);
    } else if n == 1 {
      assert Sum(b[1..], !high) == 0;
    }
  }

  /** A sum that wraps around once has lost one. */
  lemma LosesOne(s: nat)
    requires 0x1_0000_0000 <= s < 0x2_0000_0000
    ensures Norm(s % 0x1_0000_0000) != Norm(s)
  {
    var t := s - 0x1_0000_0000;
    assert s % 0x1_0000_0000 == t;
    assert 0x1_0000_0000 == 65535 * 65537 + 1;
  }

  /** MAXLEN + 1 bytes of the largest value, and zeros. */
  function Heavy(n: nat): seq<U8>
    requires n > MAXLEN
  {
    seq(MAXLEN + 1, _ => 0xFF) + seq(n - MAXLEN - 1, _ => 0)
  }

  lemma {:induction false} HeavyWraps(n: nat, high: bool)
    requires n > MAXLEN
    ensures |Heavy(n)| == n && Wrapped(Heavy(n), high) != Chksum(Heavy(n))
  {
    hide Norm, Swap, Sum, Same;
    var ones: seq<U8>, zeros: seq<U8> := seq(MAXLEN + 1, _ => 0xFF), seq(n - MAXLEN - 1, _ => 0);
    SumConcat(ones, zeros, high);
    SumOnes(MAXLEN + 1, high);
    SumZero(zeros, high != (|ones| % 2 == 1));
    LosesOne(Sum(Heavy(n), high));
    SwapNorm(Heavy(n), true);
    if high {
      SwapSame(Norm(Sum(Heavy(n), high) % 0x1_0000_0000));
      SwapSame(Norm(Sum(Heavy(n), high)));
    }
  }

  /** The length limit of versions 1 and 2 is exact, for either weight of the first byte: they are right on all
      buffers of a length if and only if it is at most MAXLEN. */
  lemma {:induction false} LimitIsExact(n: nat, high: bool)
    ensures n <= MAXLEN <==> forall data: seq<U8> :: |data| == n ==> Wrapped(data, high) == Chksum(data)
  {
    hide Wrapped, Chksum;
    if n <= MAXLEN {
      forall data: seq<U8> | |data| == n ensures Wrapped(data, high) == Chksum(data) {
        WrappedFits(data, high);
      }
    } else {
      HeavyWraps(n, high);
    }
  }

  // ---------- chains of buffers ----------

  function Flat(chain: seq<seq<U8>>): seq<U8> {
    if chain == [] then [] else chain[0] + Flat(chain[1..])
  }

  lemma FlatSnoc(chain: seq<seq<U8>>, q: seq<U8>)
    ensures Flat(chain + [q]) == Flat(chain) + q
  {
    if chain == [] {
      assert chain + [q] == [q] && [q][1..] == [];
    } else {
      assert (chain + [q])[0] == chain[0] && (chain + [q])[1..] == chain[1..] + [q];
      FlatSnoc(chain[1..], q);
    }
  }

  lemma FlatSplit(chain: seq<seq<U8>>, i: nat)
    requires i < |chain|
    ensures Flat(chain[..i + 1]) == Flat(chain[..i]) + chain[i]
    ensures Flat(chain[i..]) == chain[i] + Flat(chain[i + 1..])
  {
    assert chain[..i + 1] == chain[..i] + [chain[i]];
    FlatSnoc(chain[..i], chain[i]);
    assert chain[i..][1..] == chain[i + 1..];
  }

  /** The accumulator after the bytes `done` of a chain, with `base` added at the start: it fits 16 bits, and its
      bytes are swapped while an odd number of bytes is done. */
  ghost predicate Running(acc: U32, swapped: bool, base: nat, done: seq<U8>) {
    acc <= 0xFFFF && Same(acc, Shifted(base, swapped) + Sum(done, swapped))
  }

  ghost function Shifted(base: nat, swapped: bool): nat {
    if swapped then 256 * base else base
  }

  lemma Begin(base: U16)
    ensures Running(base, false, base, [])
  {
  }

  /** One turn of the loops over a chain, as in tcp_seg_add_chksum: add, fold once, and swap after an odd length. One
      fold is enough to stay within 16 bits, so that the swap drops nothing. */
  lemma StepRunning(acc: U16, swapped: bool, base: nat, done: seq<U8>, q: seq<U8>, c: U16)
    requires Running(acc, swapped, base, done) && swapped == (|done| % 2 == 1) && Same(Sum(q, false), c)
    ensures Fold(acc + c) <= 0xFFFF && Running(Fold(acc + c), swapped, base, done + q)
  {
    hide Same, Sum, Fold, Shifted;
    var s, w := Sum(q, false), Shifted(base, swapped) + Sum(done, swapped);
    SameAdd(acc, w, c);
    Flip(s, c);
    SameAdd(c, s, w);
    FoldSame(acc + c);
    Via(acc + c, w + c, s + w);
    Via(Fold(acc + c), acc + c, s + w);
    SumConcat(done, q, swapped);
  }

  lemma SwapRunning(acc: U16, swapped: bool, base: nat, done: seq<U8>)
    requires Running(acc, swapped, base, done)
    ensures Running(Swap(acc), !swapped, base, done)
  {
    hide Same, Sum, Swap;
    SwapSame(acc);
    SumShift(done, swapped);
    var w, s := Shifted(base, swapped), Sum(done, swapped);
    SameTimes256(acc, w + s);
    Via(Swap(acc), 256 * acc, 256 * (w + s));
    ShiftedSame(base, swapped);
    SameAdd(Shifted(base, !swapped), 256 * w, 256 * s);
    SameAdd(Sum(done, !swapped), 256 * s, Shifted(base, !swapped));
    Via(Sum(done, !swapped) + Shifted(base, !swapped), 256 * s + Shifted(base, !swapped), 256 * w + 256 * s);
    Via(Swap(acc), 256 * (w + s), Shifted(base, !swapped) + Sum(done, !swapped));
  }

  lemma ShiftedSame(base: nat, swapped: bool)
    ensures Same(Shifted(base, !swapped), 256 * Shifted(base, swapped))
  {
    assert 256 * (256 * base) - base == 65535 * base;
  }

  /** inet_chksum */
  method InetChksum(data: seq<U8>, addr: nat) returns (r: U16)
    requires |data| <= 0xFFFF
    ensures r == Invert(Chksum(data))
  {
    var c := StandardChksum2(data, addr);
    r := Invert(c);
  }

  /** The loop that inet_chksum_pbuf and inet_cksum_pseudo_base have in common. */
  method SumChain(chain: seq<seq<U8>>, addrs: seq<nat>, start: U16) returns (acc: U16)
    requires |addrs| == |chain| && forall i :: 0 <= i < |chain| ==> |chain[i]| <= 0xFFFF
    ensures Same(acc, start + Sum(Flat(chain), false))
  {
    hide Same, Norm, Sum, Fold, Swap, Running;
    var i, swapped := 0, false;
    acc := start;
    Begin(start);
    while i < |chain|
      invariant 0 <= i <= |chain| && swapped == (|Flat(chain[..i])| % 2 == 1)
      invariant Running(acc, swapped, start, Flat(chain[..i]))
    {
      var q := chain[i];
      var c := StandardChksum2(q, addrs[i]);
      NormIs(Sum(q, false));
      StepRunning(acc, swapped, start, Flat(chain[..i]), q, c);
      FlatSplit(chain, i);
      acc := Fold(acc + c);
      if |q| % 2 != 0 {
        SwapRunning(acc, swapped, start, Flat(chain[..i + 1]));
        swapped := !swapped;
        acc := Swap(acc);
      }
      i := i + 1;
    }
    assert chain[..i] == chain;
    if swapped {
      SwapRunning(acc, swapped, start, Flat(chain));
      acc := Swap(acc);
    }
    End(acc, start, Flat(chain));
  }

  lemma End(acc: U16, base: nat, done: seq<U8>)
    requires Running(acc, false, base, done)
    ensures Same(acc, base + Sum(done, false))
  {
  }

  /** inet_chksum_pbuf: the same as inet_chksum of the bytes in one piece. */
  method InetChksumPbuf(chain: seq<seq<U8>>, addrs: seq<nat>) returns (r: U16)
    requires |addrs| == |chain| && forall i :: 0 <= i < |chain| ==> |chain[i]| <= 0xFFFF
    ensures r == Invert(Chksum(Flat(chain)))
  {
    hide Same, Norm, Sum;
    var acc := SumChain(chain, addrs, 0);
    NormEq(acc, Sum(Flat(chain), false));
    r := Invert(acc);
  }

  /** The pseudo header of TCP and UDP over IPv4: both addresses, a zero, the protocol and the length. */
  function PseudoHeader(src: seq<U8>, dst: seq<U8>, proto: U8, len: U16): seq<U8> {
    src + dst + [0, proto] + [len / 0x100, len % 0x100]
  }

  lemma PseudoSum(src: seq<U8>, dst: seq<U8>, proto: U8, len: U16, body: seq<U8>)
    requires |src| == |dst| == 4
    ensures Sum(PseudoHeader(src, dst, proto, len) + body, false) ==
            Word(src[0], src[1]) + Word(src[2], src[3]) + Word(dst[0], dst[1]) + Word(dst[2], dst[3])
            + Word(0, proto) + Word(len / 0x100, len % 0x100) + Sum(body, false)
  {
    hide Sum, Word;
    SumConcat(PseudoHeader(src, dst, proto, len), body, false);
    SumConcat(src + dst + [0, proto], [len / 0x100, len % 0x100], false);
    SumConcat(src + dst, [0, proto], false);
    SumConcat(src, dst, false);
    SumFourWords(src);
    SumFourWords(dst);
    SumPair(0, proto);
    SumPair(len / 0x100, len % 0x100);
  }

  lemma SumPair(x: U8, y: U8)
    ensures Sum([x, y], false) == Word(x, y)
  {
    SumTwo([x, y], false);
    assert Sum([x, y][2..], false) == 0;
  }

  lemma SumFourWords(b: seq<U8>)
    requires |b| == 4
    ensures Sum(b, false) == Word(b[0], b[1]) + Word(b[2], b[3])
  {
    hide Word;
    SumTwo(b, false);
    SumTwo(b[2..], false);
    assert Sum(b[2..][2..], false) == 0;
  }

  /** The addresses as the pseudo header counts them. */
  ghost function AddressSum(src: seq<U8>, dst: seq<U8>): nat
    requires |src| == |dst| == 4
  {
    Word(src[0], src[1]) + Word(src[2], src[3]) + Word(dst[0], dst[1]) + Word(dst[2], dst[3])
  }

  /** The part of inet_chksum_pseudo that adds up the addresses, each loaded as a 32-bit word. */
  method SumAddresses(src: seq<U8>, dst: seq<U8>) returns (acc: U16)
    requires |src| == |dst| == 4
    ensures Same(acc, AddressSum(src, dst))
  {
    hide Same, Fold, Word;
    var addr := Word32(src[0], src[1], src[2], src[3]);
    HalvesOf(Word(src[0], src[1]), Word(src[2], src[3]));
    var a := addr % 0x1_0000 + addr / 0x1_0000 % 0x1_0000;
    addr := Word32(dst[0], dst[1], dst[2], dst[3]);
    HalvesOf(Word(dst[0], dst[1]), Word(dst[2], dst[3]));
    a := a + addr % 0x1_0000;
    a := a + addr / 0x1_0000 % 0x1_0000;
    FoldTwice(a);
    acc := Fold(Fold(a));
  }

  lemma HalvesOf(lo: U16, hi: U16)
    ensures (lo as int + 0x1_0000 * (hi as int)) % 0x1_0000 == lo
            && (lo as int + 0x1_0000 * (hi as int)) / 0x1_0000 % 0x1_0000 == hi
  {
  }

  /** The last steps of the pseudo-header checksums. */
  method Finish(acc: U16, ghost start: U16, ghost chain: seq<U8>, proto: U8, len: U16, src: seq<U8>, dst: seq<U8>)
    returns (r: U16)
    requires |src| == |dst| == 4
    requires Same(start, AddressSum(src, dst)) && Same(acc, start + Sum(chain, false))
    ensures r == Invert(Chksum(PseudoHeader(src, dst, proto, len) + chain))
  {
    hide Same, Fold, Swap, Norm, Sum, Word;
    var a := acc + Swap(proto) + Swap(len);
    FoldTwice(a);
    var f: U16 := Fold(Fold(a));
    SwapWord(proto);
    SwapWord(len);
    PseudoSum(src, dst, proto, len, chain);
    ghost var more: nat, adr := Swap(proto) + Swap(len), AddressSum(src, dst);
    ghost var sum := Sum(chain, false);
    SameAdd(acc, start + sum, more);
    SameAdd(start, adr, sum + more);
    Via(acc + more, start + sum + more, adr + (sum + more));
    Via(f, a, adr + (sum + more));
    NormEq(f, Sum(PseudoHeader(src, dst, proto, len) + chain, false));
    r := Invert(f);
  }

  /** inet_chksum_pseudo with inet_cksum_pseudo_base: the checksum of the pseudo header followed by the chain. */
  method InetChksumPseudo(chain: seq<seq<U8>>, addrs: seq<nat>, proto: U8, len: U16, src: seq<U8>, dst: seq<U8>)
    returns (r: U16)
    requires |src| == |dst| == 4
    requires |addrs| == |chain| && forall i :: 0 <= i < |chain| ==> |chain[i]| <= 0xFFFF
    ensures r == Invert(Chksum(PseudoHeader(src, dst, proto, len) + Flat(chain)))
  {
    hide Same, Sum, Norm;
    var start := SumAddresses(src, dst);
    var acc := SumChain(chain, addrs, start);
    r := Finish(acc, start, Flat(chain), proto, len, src, dst);
  }

  /** The first `n` bytes, or all there are. */
  function Upto(b: seq<U8>, n: nat): seq<U8> {
    if n < |b| then b[..n] else b
  }

  /** The loop of inet_cksum_pseudo_partial_base. It swaps by the length of the whole buffer also where it sums only a
      part of it; that is the last turn then, and the swap behind the loop makes up for it. The assertion in the
      loop is taken as a no-op. */
  method SumPart(chain: seq<seq<U8>>, addrs: seq<nat>, chksum_len: U16, start: U16) returns (acc: U16)
    requires |addrs| == |chain| && forall i :: 0 <= i < |chain| ==> |chain[i]| <= 0xFFFF
    ensures Same(acc, start + Sum(Upto(Flat(chain), chksum_len), false))
  {
    hide Same, Sum, Norm, Fold, Swap, Running;
    acc := start;
    Begin(start);
    var left: U16, i, swapped := chksum_len, 0, false;
    ghost var done: seq<U8> := [];
    while i < |chain| && left > 0
      invariant 0 <= i <= |chain| && 0 <= left <= chksum_len
      invariant left > 0 ==> swapped == (|done| % 2 == 1)
      invariant done + Upto(Flat(chain[i..]), left) == Upto(Flat(chain), chksum_len)
      invariant Running(acc, swapped, start, done)
    {
      var q := chain[i];
      var chklen := if |q| > left then left else |q|;
      var c := StandardChksum2(q[..chklen], addrs[i]);
      NormIs(Sum(q[..chklen], false));
      StepRunning(acc, swapped, start, done, q[..chklen], c);
      UptoStep(done, q, Flat(chain[i + 1..]), left);
      FlatSplit(chain, i);
      done := done + q[..chklen];
      acc := Fold(acc + c);
      left := left - chklen;
      if |q| % 2 != 0 {
        SwapRunning(acc, swapped, start, done);
        swapped := !swapped;
        acc := Swap(acc);
      }
      i := i + 1;
    }
    assert done == Upto(Flat(chain), chksum_len);
    if swapped {
      SwapRunning(acc, swapped, start, done);
      acc := Swap(acc);
    }
    End(acc, start, done);
  }

  lemma UptoStep(done: seq<U8>, q: seq<U8>, rest: seq<U8>, left: nat)
    ensures var chklen := if |q| > left then left else |q|;
            done + q[..chklen] + Upto(rest, left - chklen) == done + Upto(q + rest, left)
  {
  }

  /** inet_chksum_pseudo_partial: the checksum of the pseudo header and the first `chksum_len` bytes of the chain. */
  method InetChksumPseudoPartial(chain: seq<seq<U8>>, addrs: seq<nat>, proto: U8, len: U16, chksum_len: U16,
                                 src: seq<U8>, dst: seq<U8>) returns (r: U16)
    requires |src| == |dst| == 4
    requires |addrs| == |chain| && forall i :: 0 <= i < |chain| ==> |chain[i]| <= 0xFFFF
    ensures r == Invert(Chksum(PseudoHeader(src, dst, proto, len) + Upto(Flat(chain), chksum_len)))
  {
    hide Same, Sum, Norm;
    var start := SumAddresses(src, dst);
    var acc := SumPart(chain, addrs, chksum_len, start);
    r := Finish(acc, start, Upto(Flat(chain), chksum_len), proto, len, src, dst);
  }
}
