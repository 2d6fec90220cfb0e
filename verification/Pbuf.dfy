/** The contents and the shape of pbuf chains (pbuf.c), for a chain that has one owner. */
module Pbuf {
  import opened Seqs
  import opened Words
  import opened PbufCopy

  /** One pbuf of a chain: its payload, of length `len`, and its `tot_len`. */
  datatype Buf = Buf(data: seq<U8>, tot_len: U16)

  datatype Err = ERR_OK | ERR_MEM | ERR_ARG | ERR_VAL

  /** The bytes of a chain in one piece. */
  function Flat(bufs: seq<Buf>): seq<U8> {
    if bufs == [] then [] else bufs[0].data + Flat(bufs[1..])
  }

  /** `tot_len` of each pbuf is its own length and that of all that follow. */
  ghost predicate Shape(bufs: seq<Buf>) {
    bufs == [] || (bufs[0].tot_len == |Flat(bufs)| && Shape(bufs[1..]))
  }

  /** `d` written over `s` at `at`. */
  function Splice(s: seq<U8>, at: nat, d: seq<U8>): seq<U8>
    requires at + |d| <= |s|
  {
    s[..at] + d + s[at + |d|..]
  }

  // ---------- flattening ----------

  lemma {:induction false} FlatConcat(a: seq<Buf>, b: seq<Buf>)
    ensures Flat(a + b) == Flat(a) + Flat(b)
    decreases |a|
  {
    if a == [] {
      assert a + b == b;
    } else {
      assert (a + b)[0] == a[0] && (a + b)[1..] == a[1..] + b;
      FlatConcat(a[1..], b);
    }
  }

  /** The chain taken apart in front of and behind buffer `i`. */
  lemma FlatAt(bufs: seq<Buf>, i: nat)
    requires i < |bufs|
    ensures Flat(bufs) == Flat(bufs[..i]) + bufs[i].data + Flat(bufs[i + 1..])
    ensures Flat(bufs[i..]) == bufs[i].data + Flat(bufs[i + 1..])
    ensures Flat(bufs[..i + 1]) == Flat(bufs[..i]) + bufs[i].data
  {
    Parts(bufs, i);
    FlatMiddle(bufs[..i], bufs[i], bufs[i + 1..]);
  }

  lemma FlatMiddle(a: seq<Buf>, x: Buf, c: seq<Buf>)
    ensures Flat([x] + c) == x.data + Flat(c)
    ensures Flat(a + [x]) == Flat(a) + x.data
    ensures Flat(a + ([x] + c)) == Flat(a) + x.data + Flat(c)
  {
    assert Flat([x]) == x.data;
    hide Flat;
    FlatConcat(a, [x]);
    FlatConcat([x], c);
    FlatConcat(a, [x] + c);
  }

  lemma Parts(bufs: seq<Buf>, i: nat)
    requires i < |bufs|
    ensures bufs[i..] == [bufs[i]] + bufs[i + 1..] && bufs[..i + 1] == bufs[..i] + [bufs[i]]
    ensures bufs == bufs[..i] + ([bufs[i]] + bufs[i + 1..])
  {
  }

  lemma {:induction false} ShapeTail(bufs: seq<Buf>, i: nat)
    requires Shape(bufs) && i <= |bufs|
    ensures Shape(bufs[i..]) && (i < |bufs| ==> bufs[i].tot_len == |Flat(bufs[i..])|)
  {
    if i > 0 {
      ShapeTail(bufs[1..], i - 1);
      assert bufs[1..][i - 1..] == bufs[i..];
    }
  }

  /** New payloads of the same lengths leave the shape as it is. */
  lemma {:induction false} ShapeKept(bufs: seq<Buf>, bufs': seq<Buf>)
    requires Shape(bufs) && |bufs'| == |bufs|
    requires forall i :: 0 <= i < |bufs| ==> |bufs'[i].data| == |bufs[i].data| && bufs'[i].tot_len == bufs[i].tot_len
    ensures Shape(bufs') && |Flat(bufs')| == |Flat(bufs)|
    decreases |bufs|
  {
    if bufs != [] {
      ShapeKept(bufs[1..], bufs'[1..]);
    }
  }

  /** Writing into one buffer is writing into the flattened bytes. */
  lemma SpliceFlat(bufs: seq<Buf>, i: nat, off: nat, d: seq<U8>)
    requires i < |bufs| && off + |d| <= |bufs[i].data|
    ensures var bufs' := bufs[i := bufs[i].(data := Splice(bufs[i].data, off, d))];
            && |Flat(bufs[..i])| + off + |d| <= |Flat(bufs)|
            && Flat(bufs') == Splice(Flat(bufs), |Flat(bufs[..i])| + off, d)
  {
    hide Flat;
    var bufs' := bufs[i := bufs[i].(data := Splice(bufs[i].data, off, d))];
    FlatAt(bufs, i);
    FlatAt(bufs', i);
    assert bufs'[..i] == bufs[..i] && bufs'[i + 1..] == bufs[i + 1..];
    SpliceMiddle(Flat(bufs[..i]), bufs[i].data, Flat(bufs[i + 1..]), off, d);
  }

  lemma SpliceMiddle(a: seq<U8>, b: seq<U8>, c: seq<U8>, off: nat, d: seq<U8>)
    requires off + |d| <= |b|
    ensures a + Splice(b, off, d) + c == Splice(a + b + c, |a| + off, d)
  {
  }

  /** Writing piece by piece is writing in one piece. */
  lemma SpliceTwice(s: seq<U8>, at: nat, d: seq<U8>, e: seq<U8>)
    requires at + |d| + |e| <= |s|
    ensures Splice(Splice(s, at, d), at + |d|, e) == Splice(s, at, d + e)
  {
  }

  lemma SplicedThenSliced(s: seq<U8>, at: nat, d: seq<U8>)
    requires at + |d| <= |s|
    ensures |Splice(s, at, d)| == |s| && Splice(s, at, d)[at..at + |d|] == d
    ensures forall i :: 0 <= i < |s| && !(at <= i < at + |d|) ==> Splice(s, at, d)[i] == s[i]
  {
  }

  // ---------- shape ----------

  /** pbuf_alloc for PBUF_POOL: a chain of buffers of the pool. `have` tells how many the pool still has. */
  method PoolAlloc(length: U16, offset: nat, bufsize: nat, have: nat) returns (ok: bool, bufs: seq<Buf>)
    requires offset < bufsize
    ensures ok ==> Shape(bufs) && |Flat(bufs)| == length && bufs != [] && |bufs| <= have
    ensures ok ==> forall i :: 0 <= i < |bufs| ==> |bufs[i].data| <= bufsize && (i > 0 ==> |bufs[i].data| > 0)
    ensures ok ==> forall i :: 0 <= i < |bufs| - 1 ==> |bufs[i].data| == if i == 0 then bufsize - offset else bufsize
    ensures ok <==> have > 0 && length <= bufsize - offset + (have - 1) * bufsize
  {
    hide Building, Room;
    var rem_len: nat, off, k := length, offset, 0;
    bufs := [];
    BuildingNone(length);
    RoomStep(0, bufsize, offset);
    while rem_len > 0 || bufs == []
      invariant |bufs| == k <= have && 0 <= rem_len <= length
      invariant off == if bufs == [] then offset else 0
      invariant rem_len > 0 ==> length - rem_len == Room(k, bufsize, offset)
      invariant bufs == [] ==> rem_len == length
      invariant bufs != [] && rem_len == 0 ==> length <= Room(k, bufsize, offset)
      invariant Building(bufs, length, rem_len)
      invariant forall i :: 0 <= i < |bufs| ==> |bufs[i].data| <= bufsize && (i > 0 ==> |bufs[i].data| > 0)
      invariant forall i :: 0 <= i < |bufs| - (if rem_len > 0 then 0 else 1) ==>
                  |bufs[i].data| == if i == 0 then bufsize - offset else bufsize
      decreases rem_len, if bufs == [] then 1 else 0
    {
      if k == have {
        RoomGrows(have, bufsize, offset, k);
        return false, [];
      }
      var qlen := Min(rem_len, bufsize - off);
      BuildingStep(bufs, length, rem_len, qlen);
      RoomStep(k, bufsize, offset);
      bufs := bufs + [Buf(seq(qlen, _ => 0), rem_len)];
      rem_len, off, k := rem_len - qlen, 0, k + 1;
    }
    BuildingDone(bufs, length);
    RoomGrows(have, bufsize, offset, k);
    ok := true;
  }

  /** A chain that lacks its last `rem` bytes, while the `tot_len`s count them already. */
  ghost predicate Building(bufs: seq<Buf>, length: nat, rem: nat) {
    if bufs == [] then length == rem
    else bufs[0].tot_len == length && |bufs[0].data| <= length && Building(bufs[1..], length - |bufs[0].data|, rem)
  }

  lemma {:induction false} BuildingStep(bufs: seq<Buf>, length: nat, rem: nat, n: nat)
    requires Building(bufs, length, rem) && n <= rem <= 0xFFFF
    ensures Building(bufs + [Buf(seq(n, _ => 0), rem)], length, rem - n)
    decreases |bufs|
  {
    var b := Buf(seq(n, _ => 0), rem);
    if bufs == [] {
      assert bufs + [b] == [b] && [b][1..] == [];
    } else {
      assert (bufs + [b])[1..] == bufs[1..] + [b];
      BuildingStep(bufs[1..], length - |bufs[0].data|, rem, n);
    }
  }

  lemma {:induction false} BuildingDone(bufs: seq<Buf>, length: nat)
    requires Building(bufs, length, 0)
    ensures Shape(bufs) && |Flat(bufs)| == length
    decreases |bufs|
  {
    if bufs != [] {
      BuildingDone(bufs[1..], length - |bufs[0].data|);
    }
  }

  lemma BuildingNone(length: nat)
    ensures Building([], length, length)
  {
  }

  /** The room that `k` buffers of the pool have. */
  function Room(k: nat, bufsize: nat, offset: nat): int {
    if k == 0 then 0 else bufsize - offset + (k - 1) * bufsize
  }

  lemma RoomStep(k: nat, bufsize: nat, offset: nat)
    ensures Room(k + 1, bufsize, offset) == Room(k, bufsize, offset) + if k == 0 then bufsize - offset else bufsize
    ensures Room(0, bufsize, offset) == 0
  {
  }

  lemma RoomGrows(have: nat, bufsize: nat, offset: nat, k: nat)
    requires k <= have && bufsize > offset
    ensures Room(k, bufsize, offset) <= Room(have, bufsize, offset)
    ensures have > 0 ==> Room(have, bufsize, offset) == bufsize - offset + (have - 1) * bufsize
  {
    if k > 0 {
      assert (have - 1) * bufsize == (k - 1) * bufsize + (have - k) * bufsize;
    }
  }

  /** With `n` added to every `tot_len`, in 16-bit arithmetic. */
  function Longer(bufs: seq<Buf>, n: nat): seq<Buf> {
    if bufs == [] then [] else [bufs[0].(tot_len := (bufs[0].tot_len + n) % 0x1_0000)] + Longer(bufs[1..], n)
  }

  lemma {:induction false} LongerKeeps(bufs: seq<Buf>, n: nat)
    ensures Flat(Longer(bufs, n)) == Flat(bufs) && |Longer(bufs, n)| == |bufs|
  {
    if bufs != [] {
      LongerKeeps(bufs[1..], n);
      var x := bufs[0].(tot_len := (bufs[0].tot_len + n) % 0x1_0000);
      assert ([x] + Longer(bufs[1..], n))[1..] == Longer(bufs[1..], n);
    }
  }

  /** Chaining two packets gives a well-formed one if and only if the total length fits 16 bits. */
  lemma {:induction false} CatShapeIff(h: seq<Buf>, t: seq<Buf>)
    requires Shape(h) && Shape(t) && h != []
    ensures Shape(Longer(h, |Flat(t)|) + t) <==> |Flat(h)| + |Flat(t)| <= 0xFFFF
    decreases |h|
  {
    hide Flat, Shape, Longer;
    var n := |Flat(t)|;
    LongerHead(h, t, n);
    ShapeHead(h);
    ShapeHead(Longer(h, n) + t);
    if |h| > 1 {
      CatShapeIff(h[1..], t);
    } else {
      LongerNone(h, t, n);
    }
  }

  lemma {:induction false} LongerHead(h: seq<Buf>, t: seq<Buf>, n: nat)
    requires h != [] && n == |Flat(t)|
    ensures var q := Longer(h, n) + t;
            q != [] && q[0].tot_len == (h[0].tot_len + n) % 0x1_0000 && q[1..] == Longer(h[1..], n) + t
            && |Flat(q)| == |Flat(h)| + n
  {
    LongerKeeps(h, n);
    FlatConcat(Longer(h, n), t);
  }

  lemma {:induction false} LongerNone(h: seq<Buf>, t: seq<Buf>, n: nat)
    requires |h| == 1
    ensures Longer(h[1..], n) + t == t && |Flat(h[1..])| == 0
  {
    assert h[1..] == [] && [] + t == t;
  }

  lemma {:induction false} ShapeHead(bufs: seq<Buf>)
    requires bufs != []
    ensures Shape(bufs) <==> bufs[0].tot_len == |Flat(bufs)| && Shape(bufs[1..])
    ensures |Flat(bufs[1..])| <= |Flat(bufs)|
  {
  }

  /** With `n` taken off every `tot_len`. */
  function Shorter(bufs: seq<Buf>, n: nat): seq<Buf> {
    if bufs == [] then [] else [bufs[0].(tot_len := (bufs[0].tot_len - n) % 0x1_0000)] + Shorter(bufs[1..], n)
  }

  lemma {:induction false} ShorterSnoc(bufs: seq<Buf>, b: Buf, n: nat)
    ensures Shorter(bufs + [b], n) == Shorter(bufs, n) + [b.(tot_len := (b.tot_len - n) % 0x1_0000)]
    ensures |Shorter(bufs, n)| == |bufs|
  {
    if bufs == [] {
      assert bufs + [b] == [b] && [b][1..] == [];
    } else {
      assert (bufs + [b])[0] == bufs[0] && (bufs + [b])[1..] == bufs[1..] + [b];
      ShorterSnoc(bufs[1..], b, n);
    }
  }

  /** Cutting a chain off within buffer `i`. */
  lemma {:induction false} CutShape(bufs: seq<Buf>, i: nat, rem: nat, n: nat)
    requires Shape(bufs) && i < |bufs| && rem <= |bufs[i].data|
    requires n == |Flat(bufs)| - |Flat(bufs[..i])| - rem
    ensures var q := Shorter(bufs[..i], n) + [Buf(bufs[i].data[..rem], rem)];
            Shape(q) && Flat(q) == Flat(bufs)[..|Flat(bufs[..i])| + rem]
    decreases i
  {
    hide Flat, Shape, Shorter;
    ShapeTail(bufs, i);
    FlatAt(bufs, i);
    var last := Buf(bufs[i].data[..rem], rem);
    if i == 0 {
      ShorterNone(bufs, n, last);
      CutFirst(bufs, rem);
    } else {
      var x, rest := bufs[0], bufs[1..];
      FirstBuf(bufs);
      ShorterHead(bufs, i, n, last);
      CutShape(rest, i - 1, rem, n);
      var x' := x.(tot_len := (x.tot_len - n) % 0x1_0000);
      var q' := Shorter(rest[..i - 1], n) + [last];
      FlatPrefix(rest, i - 1, rem);
      LongerChain(x', q');
    }
  }

  lemma {:induction false} ShorterNone(bufs: seq<Buf>, n: nat, last: Buf)
    ensures Shorter(bufs[..0], n) + [last] == [last] && Flat(bufs[..0]) == []
  {
    assert bufs[..0] == [];
  }

  lemma {:induction false} ShorterHead(bufs: seq<Buf>, i: nat, n: nat, last: Buf)
    requires 0 < i < |bufs|
    ensures Shorter(bufs[..i], n) + [last] ==
            [bufs[0].(tot_len := (bufs[0].tot_len - n) % 0x1_0000)] + (Shorter(bufs[1..][..i - 1], n) + [last])
    ensures |Flat(bufs[..i])| == |bufs[0].data| + |Flat(bufs[1..][..i - 1])| && bufs[1..][i - 1] == bufs[i]
  {
    assert bufs[..i][1..] == bufs[1..][..i - 1];
  }

  lemma {:induction false} FlatPrefix(bufs: seq<Buf>, i: nat, rem: nat)
    requires i < |bufs| && rem <= |bufs[i].data|
    ensures |Flat(bufs[..i])| + rem <= |Flat(bufs)|
  {
    FlatAt(bufs, i);
  }

  lemma {:induction false} LongerChain(x: Buf, q: seq<Buf>)
    ensures Flat([x] + q) == x.data + Flat(q)
    ensures Shape([x] + q) <==> x.tot_len == |x.data| + |Flat(q)| && Shape(q)
  {
    Head(x, q);
  }

  lemma CutFirst(bufs: seq<Buf>, rem: nat)
    requires Shape(bufs) && bufs != [] && rem <= |bufs[0].data|
    ensures var last := Buf(bufs[0].data[..rem], rem); Shape([last]) && Flat([last]) == Flat(bufs)[..rem]
  {
    var last := Buf(bufs[0].data[..rem], rem);
    assert Flat([last]) == last.data;
    assert [last][1..] == [];
    assert bufs[0].data[..rem] == Flat(bufs)[..rem];
  }

  lemma FirstTotal(bufs: seq<Buf>)
    requires Shape(bufs) && bufs != []
    ensures bufs[0].tot_len == |Flat(bufs)|
  {
  }

  lemma Whole(bufs: seq<Buf>, i: nat)
    requires i <= |bufs|
    ensures i == |bufs| ==> bufs[..i] == bufs
  {
  }

  lemma NoBytes()
    ensures Flat([]) == []
  {
  }

  /** The slice of `n` bytes at `off`, as far as there are any. */
  function Slice(s: seq<U8>, off: nat, n: nat): seq<U8> {
    if off <= |s| then s[off..Min(off + n, |s|)] else []
  }

  lemma SliceBehind(b: seq<U8>, r: seq<U8>, off: nat, n: nat)
    requires off >= |b|
    ensures Slice(b + r, off, n) == Slice(r, off - |b|, n)
  {
    if off <= |b + r| {
      BehindRange(b, r, off, Min(off + n, |b + r|));
    }
  }

  lemma BehindRange(b: seq<U8>, r: seq<U8>, i: nat, j: nat)
    requires |b| <= i <= j <= |b| + |r|
    ensures (b + r)[i..j] == r[i - |b|..j - |b|]
  {
  }

  lemma SliceAcross(b: seq<U8>, r: seq<U8>, off: nat, n: nat, m: nat)
    requires off <= |b| && m == Min(|b| - off, n)
    ensures Slice(b + r, off, n) == b[off..off + m] + Slice(r, 0, n - m)
  {
  }

  lemma SliceNothing(s: seq<U8>, off: nat, n: nat)
    ensures n == 0 || s == [] ==> Slice(s, off, n) == []
  {
  }

  /** pbuf_skip: the buffer that holds the byte at `offset`, and its place there. */
  method Skip(bufs: seq<Buf>, offset: nat) returns (q: nat, left: nat)
    ensures q <= |bufs| && |Flat(bufs[..q])| + left == offset
    ensures q < |bufs| <==> offset < |Flat(bufs)|
    ensures q < |bufs| ==> left < |bufs[q].data| && left + |Flat(bufs)| == offset + |Flat(bufs[q..])|
  {
    q, left := 0, offset;
    assert bufs[..0] == [] && bufs[0..] == bufs;
    while q < |bufs| && |bufs[q].data| <= left
      invariant q <= |bufs| && |Flat(bufs[..q])| + left == offset
      invariant |Flat(bufs)| == |Flat(bufs[..q])| + |Flat(bufs[q..])|
      decreases |bufs| - q
    {
      FlatAt(bufs, q);
      left := left - |bufs[q].data|;
      q := q + 1;
    }
    if q < |bufs| {
      FlatAt(bufs, q);
    }
  }

  /** pbuf_get_at: zero behind the end. */
  method GetAt(bufs: seq<Buf>, offset: nat) returns (x: U8)
    ensures x == if offset < |Flat(bufs)| then Flat(bufs)[offset] else 0
  {
    var q, i := Skip(bufs, offset);
    if q < |bufs| {
      FlatAt(bufs, q);
      return bufs[q].data[i];
    }
    return 0;
  }

  /** pbuf_copy_partial: the slice of the bytes, as far as there are any. */
  method CopyPartial(bufs: seq<Buf>, len: U16, offset: U16) returns (data: seq<U8>)
    ensures data == Slice(Flat(bufs), offset, len)
  {
    hide Flat, Slice;
    data := [];
    var left: nat, off: nat, p: nat := len, offset, 0;
    ghost var rest := Flat(bufs);
    assert bufs[0..] == bufs;
    while left != 0 && p < |bufs|
      invariant p <= |bufs| && rest == Flat(bufs[p..])
      invariant data + Slice(rest, off, left) == Slice(Flat(bufs), offset, len)
      decreases |bufs| - p
    {
      FlatAt(bufs, p);
      ghost var b, r := bufs[p].data, Flat(bufs[p + 1..]);
      if off != 0 && off >= |bufs[p].data| {
        SliceBehind(b, r, off, left);
        off := off - |bufs[p].data|;
      } else {
        var n := Min(|bufs[p].data| - off, left);
        SliceAcross(b, r, off, left, n);
        data := data + bufs[p].data[off..off + n];
        left, off := left - n, 0;
      }
      p, rest := p + 1, r;
    }
    NoBytes();
    assert p == |bufs| ==> bufs[p..] == [];
    SliceNothing(rest, off, left);
  }

  /** The loop of pbuf_take, from buffer `start` on. */
  method TakeFrom(bufs: seq<Buf>, start: nat, data: seq<U8>) returns (r: seq<Buf>)
    requires Shape(bufs) && start <= |bufs| && |Flat(bufs[..start])| + |data| <= |Flat(bufs)|
    ensures Shape(r) && |r| == |bufs| && Flat(r) == Splice(Flat(bufs), |Flat(bufs[..start])|, data)
  {
    hide Shape, Flat, Splice;
    ghost var at := |Flat(bufs[..start])|;
    var p, done := start, 0;
    r := bufs;
    SpliceNothing(Flat(bufs), at);
    assert data[..0] == [];
    while done != |data|
      invariant start <= p <= |r| == |bufs| && 0 <= done <= |data| && Shape(r)
      invariant |Flat(r)| == |Flat(bufs)| && Flat(r) == Splice(Flat(bufs), at, data[..done])
      invariant done < |data| ==> |Flat(r[..p])| == at + done
      decreases |r| - p
    {
      Inside(r, p, at + done);
      var n := Min(|data| - done, |r[p].data|);
      WriteAt(r, p, 0, data[done..done + n]);
      SpliceTwice(Flat(bufs), at, data[..done], data[done..done + n]);
      assert data[..done + n] == data[..done] + data[done..done + n];
      r := r[p := r[p].(data := Splice(r[p].data, 0, data[done..done + n]))];
      AfterWrite(r, p);
      done, p := done + n, p + 1;
    }
    assert data[..done] == data;
  }

  lemma AfterWrite(r: seq<Buf>, p: nat)
    requires p < |r|
    ensures |Flat(r[..p + 1])| == |Flat(r[..p])| + |r[p].data|
  {
    FlatAt(r, p);
  }

  lemma SpliceNothing(s: seq<U8>, at: nat)
    requires at <= |s|
    ensures Splice(s, at, []) == s
  {
  }

  /** `mem` is found in `s` at `k`. */
  predicate MatchAt(s: seq<U8>, mem: seq<U8>, k: nat) {
    k + |mem| <= |s| && s[k..k + |mem|] == mem
  }

  /** pbuf_memcmp: 0 for equal bytes, 0xFFFF if there are too few, else one more than the place of the first
      difference. */
  method MemCmp(bufs: seq<Buf>, offset: U16, s2: seq<U8>) returns (r: U16)
    requires Shape(bufs) && bufs != [] && |s2| <= 0xFFFF
    ensures offset + |s2| > |Flat(bufs)| ==> r == 0xFFFF
    ensures offset + |s2| <= |Flat(bufs)| ==>
              if r == 0 then MatchAt(Flat(bufs), s2, offset)
              else r <= |s2| && Flat(bufs)[offset + r - 1] != s2[r - 1] && MatchAt(Flat(bufs), s2[..r - 1], offset)
  {
    hide Shape, Flat, MatchAt;
    FirstTotal(bufs);
    if bufs[0].tot_len < offset + |s2| {
      return 0xFFFF;
    }
    var q, start := Skip(bufs, offset);
    var i := 0;
    ghost var b := Flat(bufs);
    MatchNothing(b, s2, offset);
    while i < |s2|
      invariant 0 <= i <= |s2| && MatchAt(b, s2[..i], offset)
    {
      if q < |bufs| {
        SameByte(bufs, q, start, offset, i);
      }
      var a := GetAt(bufs[q..], start + i);
      if a != s2[i] {
        return Min(i + 1, 0xFFFF);
      }
      MatchMore(b, s2, offset, i);
      i := i + 1;
    }
    assert s2[..i] == s2;
    return 0;
  }

  lemma MatchNothing(b: seq<U8>, mem: seq<U8>, k: nat)
    requires k <= |b|
    ensures MatchAt(b, mem[..0], k)
  {
  }

  lemma MatchMore(b: seq<U8>, mem: seq<U8>, k: nat, i: nat)
    requires i < |mem| && k + i < |b| && MatchAt(b, mem[..i], k) && b[k + i] == mem[i]
    ensures MatchAt(b, mem[..i + 1], k)
  {
  }

  /** pbuf_memfind: the first match at or behind `start`, or 0xFFFF. */
  method MemFind(bufs: seq<Buf>, mem: seq<U8>, start: U16) returns (r: U16)
    requires Shape(bufs) && bufs != [] && |mem| <= 0xFFFF && |Flat(bufs)| <= 0xFFFE
    ensures r != 0xFFFF ==> start <= r && MatchAt(Flat(bufs), mem, r)
    ensures forall k: nat :: start <= k < r ==> !MatchAt(Flat(bufs), mem, k)
  {
    FirstTotal(bufs);
    if bufs[0].tot_len >= |mem| + start {
      var i: nat, max := start, bufs[0].tot_len - |mem|;
      while i <= max
        invariant start <= i <= max + 1
        invariant forall k: nat :: start <= k < i ==> !MatchAt(Flat(bufs), mem, k)
        decreases max + 1 - i
      {
        var plus := MemCmp(bufs, i, mem);
        if plus == 0 {
          return i;
        }
        i := i + 1;
      }
    }
    return 0xFFFF;
  }

  /** What is left of `s` behind its first `n` bytes. */
  function Behind(s: seq<U8>, n: nat): seq<U8> {
    if n < |s| then s[n..] else []
  }

  lemma BehindAll(b: seq<U8>, r: seq<U8>, n: nat)
    requires n >= |b|
    ensures Behind(b + r, n) == Behind(r, n - |b|)
  {
  }

  lemma BehindPart(b: seq<U8>, r: seq<U8>, n: nat)
    requires n < |b|
    ensures Behind(b + r, n) == b[n..] + r
  {
  }

  lemma BehindNone(s: seq<U8>)
    ensures Behind(s, 0) == s && forall n :: n >= 0 && s == [] ==> Behind(s, n) == []
  {
  }

  lemma FirstBuf(bufs: seq<Buf>)
    requires Shape(bufs) && bufs != []
    ensures Flat(bufs) == bufs[0].data + Flat(bufs[1..]) && Shape(bufs[1..]) && bufs[0].tot_len == |Flat(bufs)|
  {
  }

  lemma HeaderGone(bufs: seq<Buf>, n: nat)
    requires Shape(bufs) && bufs != [] && n < |bufs[0].data|
    ensures var q := [Buf(bufs[0].data[n..], bufs[0].tot_len - n)] + bufs[1..];
            Shape(q) && Flat(q) == bufs[0].data[n..] + Flat(bufs[1..])
  {
    Head(Buf(bufs[0].data[n..], bufs[0].tot_len - n), bufs[1..]);
  }

  class Chain {
    var bufs: seq<Buf>

    ghost predicate Valid()
      reads this
    {
      Shape(bufs)
    }

    ghost function Bytes(): seq<U8>
      reads this
    {
      Flat(bufs)
    }

    constructor (bufs: seq<Buf>)
      ensures this.bufs == bufs
    {
      this.bufs := bufs;
    }

    /** pbuf_cat. The code does not check whether the sum of the lengths fits 16 bits. */
    method Cat(t: seq<Buf>)
      requires Valid() && Shape(t)
      modifies this
      ensures if old(bufs) == [] || t == [] then bufs == old(bufs)
              else Bytes() == old(Bytes()) + Flat(t) && (Valid() <==> |old(Bytes())| + |Flat(t)| <= 0xFFFF)
    {
      hide Flat, Shape;
      if bufs == [] || t == [] {
        return;
      }
      CatShapeIff(bufs, t);
      LongerKeeps(bufs, |Flat(t)|);
      FlatConcat(Longer(bufs, |Flat(t)|), t);
      FirstTotal(t);
      var head: seq<Buf>, p, n := [], bufs, t[0].tot_len;
      while |p| > 1
        invariant bufs == old(bufs) && p != [] && head + Longer(p, n) == Longer(bufs, n)
        decreases |p|
      {
        Regroup(head, p[0].(tot_len := (p[0].tot_len + n) % 0x1_0000), Longer(p[1..], n));
        head := head + [p[0].(tot_len := (p[0].tot_len + n) % 0x1_0000)];
        p := p[1..];
      }
      assert Longer(p, n) == [p[0].(tot_len := (p[0].tot_len + n) % 0x1_0000)];
      bufs := head + [p[0].(tot_len := (p[0].tot_len + n) % 0x1_0000)] + t;
    }

    /** pbuf_realloc: a prefix of the bytes. */
    method Realloc(new_len: U16)
      requires Valid() && bufs != []
      modifies this
      ensures Valid() && bufs != []
              && Bytes() == if new_len < |old(Bytes())| then old(Bytes())[..new_len] else old(Bytes())
    {
      hide Flat, Shape;
      FirstTotal(bufs);
      if new_len >= bufs[0].tot_len {
        return;
      }
      var shrink := bufs[0].tot_len - new_len;
      var rem_len: nat, head: seq<Buf>, q := new_len, [], bufs;
      ghost var i: nat := 0;
      assert bufs[..0] == [] && bufs[0..] == bufs;
      NoBytes();
      while rem_len > |q[0].data|
        invariant bufs == old(bufs) && i < |bufs| && q == bufs[i..] && head == Shorter(bufs[..i], shrink)
        invariant |Flat(bufs[..i])| + rem_len == new_len < |Flat(bufs)|
        decreases |q|
      {
        FlatAt(bufs, i);
        ShorterSnoc(bufs[..i], bufs[i], shrink);
        assert bufs[..i + 1] == bufs[..i] + [bufs[i]];
        head := head + [q[0].(tot_len := (q[0].tot_len - shrink) % 0x1_0000)];
        rem_len, q, i := rem_len - |q[0].data|, q[1..], i + 1;
        Whole(bufs, i);
      }
      CutShape(bufs, i, rem_len, shrink);
      bufs := head + [Buf(q[0].data[..rem_len], rem_len)];
    }

    /** pbuf_free_header: a suffix of the bytes. */
    method FreeHeader(size: U16)
      requires Valid()
      modifies this
      ensures Valid() && Bytes() == Behind(old(Bytes()), size)
    {
      hide Flat, Shape, Behind;
      var free_left := size;
      ghost var goal := Behind(Bytes(), size);
      while free_left > 0 && bufs != []
        invariant Valid() && free_left >= 0 && Behind(Bytes(), free_left) == goal
        decreases |bufs|, free_left
      {
        var p := bufs[0];
        FirstBuf(bufs);
        if free_left >= |p.data| {
          BehindAll(p.data, Flat(bufs[1..]), free_left);
          free_left := free_left - |p.data|;
          bufs := bufs[1..];
        } else {
          BehindPart(p.data, Flat(bufs[1..]), free_left);
          HeaderGone(bufs, free_left);
          bufs := [Buf(p.data[free_left..], p.tot_len - free_left)] + bufs[1..];
          free_left := 0;
          BehindNone(Flat(bufs));
        }
      }
      NoBytes();
      BehindNone(Bytes());
    }

    // ---------- contents ----------

    /** pbuf_take */
    method Take(data: seq<U8>) returns (err: Err)
      requires Valid() && |data| <= 0xFFFF
      modifies this
      ensures Valid() && |bufs| == |old(bufs)|
      ensures err == if old(bufs) == [] then ERR_ARG else if |data| > |old(Bytes())| then ERR_MEM else ERR_OK
      ensures Bytes() == if err == ERR_OK then Splice(old(Bytes()), 0, data) else old(Bytes())
    {
      if bufs == [] {
        return ERR_ARG;
      }
      if bufs[0].tot_len < |data| {
        return ERR_MEM;
      }
      assert bufs[..0] == [];
      bufs := TakeFrom(bufs, 0, data);
      return ERR_OK;
    }

    /** pbuf_take_at: succeeds if and only if the offset lies within the chain and the data does too. */
    method TakeAt(data: seq<U8>, offset: U16) returns (err: Err)
      requires Valid() && |data| <= 0xFFFF
      modifies this
      ensures Valid() && |bufs| == |old(bufs)|
      ensures err == if offset < |old(Bytes())| && offset + |data| <= |old(Bytes())| then ERR_OK else ERR_MEM
      ensures Bytes() == if err == ERR_OK then Splice(old(Bytes()), offset, data) else old(Bytes())
    {
      hide Flat, Shape, Splice;
      var q, target := Skip(bufs, offset);
      if q < |bufs| {
        ShapeTail(bufs, q);
      }
      if q < |bufs| && bufs[q].tot_len >= target + |data| {
        var first := Min(|bufs[q].data| - target, |data|);
        ghost var b := Bytes();
        WriteAt(bufs, q, target, data[..first]);
        bufs := bufs[q := bufs[q].(data := Splice(bufs[q].data, target, data[..first]))];
        if |data| - first > 0 {
          AfterWrite(bufs, q);
          SpliceTwice(b, offset, data[..first], data[first..]);
          assert data[..first] + data[first..] == data;
          bufs := TakeFrom(bufs, q + 1, data[first..]);
        } else {
          assert data[..first] == data;
        }
        return ERR_OK;
      }
      return ERR_MEM;
    }

    /** pbuf_copy: the bytes of `from` go over the first ones of this chain, exactly when CopyFits says so of the
        lengths. Otherwise `n` bytes are copied before the loop takes an empty buffer for a second packet. */
    method Copy(from: seq<Buf>) returns (err: Err, ghost n: nat)
      requires Valid() && Shape(from)
      modifies this
      ensures Valid() && |bufs| == |old(bufs)| && Lens(bufs) == Lens(old(bufs))
      ensures err == ERR_OK <==>
                old(bufs) != [] && from != [] && |Flat(from)| <= |old(Bytes())| && CopyFits(Lens(old(bufs)), Lens(from))
      ensures n <= |Flat(from)| && n <= |old(Bytes())| && Bytes() == Splice(old(Bytes()), 0, Flat(from)[..n])
      ensures err == ERR_OK ==> n == |Flat(from)|
      ensures old(bufs) == [] || from == [] || |Flat(from)| > |old(Bytes())| ==> err == ERR_ARG && bufs == old(bufs)
    {
      hide Flat, Shape, Lens, CopyFits, Walk, Splice;
      LensTotal(bufs);
      LensTotal(from);
      n := 0;
      assert Flat(from)[..0] == [];
      SpliceNothing(Flat(bufs), 0);
      if bufs == [] || from == [] {
        return ERR_ARG, 0;
      }
      FirstTotal(bufs);
      FirstTotal(from);
      if bufs[0].tot_len < from[0].tot_len {
        return ERR_ARG, 0;
      }
      CopyIff(Lens(bufs), Lens(from));
      err, bufs, n := CopyLoop(bufs, from);
    }
  }

  /** What pbuf_take_at has written pbuf_copy_partial reads back, and all other bytes are as before. */
  method WriteThenRead(c: Chain, data: seq<U8>, offset: U16) returns (err: Err, back: seq<U8>)
    requires c.Valid() && |data| <= 0xFFFF
    modifies c
    ensures c.Valid() && |c.Bytes()| == |old(c.Bytes())|
    ensures err == ERR_OK ==> back == data
    ensures forall i :: 0 <= i < |c.Bytes()| && !(err == ERR_OK && offset <= i < offset + |data|) ==>
              c.Bytes()[i] == old(c.Bytes())[i]
  {
    hide Flat, Shape, Splice;
    ghost var s := c.Bytes();
    err := c.TakeAt(data, offset);
    if err == ERR_OK {
      SplicedThenSliced(s, offset, data);
    }
    back := CopyPartial(c.bufs, |data|, offset);
  }

  /** Bytes remain, so buffer `p` exists. */
  lemma Inside(bufs: seq<Buf>, p: nat, n: nat)
    requires p <= |bufs| && |Flat(bufs[..p])| == n < |Flat(bufs)|
    ensures p < |bufs|
  {
    Whole(bufs, p);
  }

  lemma WriteAt(bufs: seq<Buf>, p: nat, off: nat, d: seq<U8>)
    requires Shape(bufs) && p < |bufs| && off + |d| <= |bufs[p].data|
    ensures var bufs' := bufs[p := bufs[p].(data := Splice(bufs[p].data, off, d))];
            && Shape(bufs') && |Flat(bufs')| == |Flat(bufs)| && bufs'[..p] == bufs[..p]
            && |bufs'[p].data| == |bufs[p].data|
            && bufs'[p].tot_len == bufs[p].tot_len
            && |Flat(bufs[..p])| + off + |d| <= |Flat(bufs)|
            && Flat(bufs') == Splice(Flat(bufs), |Flat(bufs[..p])| + off, d)
  {
    SpliceFlat(bufs, p, off, d);
    ShapeKept(bufs, bufs[p := bufs[p].(data := Splice(bufs[p].data, off, d))]);
  }

  lemma SameByte(bufs: seq<Buf>, q: nat, start: nat, offset: nat, i: nat)
    requires q < |bufs| && |Flat(bufs[..q])| + start == offset && offset + i < |Flat(bufs)|
    ensures start + i < |Flat(bufs[q..])| && Flat(bufs[q..])[start + i] == Flat(bufs)[offset + i]
  {
    FlatAt(bufs, q);
  }

  /** The lengths of the buffers. */
  function Lens(bufs: seq<Buf>): seq<nat> {
    if bufs == [] then [] else [|bufs[0].data|] + Lens(bufs[1..])
  }

  lemma {:induction false} LensTotal(bufs: seq<Buf>)
    ensures Total(Lens(bufs)) == |Flat(bufs)| && (Lens(bufs) == [] <==> bufs == [])
  {
    if bufs != [] {
      LensTotal(bufs[1..]);
      assert Lens(bufs)[1..] == Lens(bufs[1..]);
    }
  }

  lemma {:induction false} LensKept(bufs: seq<Buf>, bufs': seq<Buf>)
    requires |bufs'| == |bufs| && forall i :: 0 <= i < |bufs| ==> |bufs'[i].data| == |bufs[i].data|
    ensures Lens(bufs') == Lens(bufs)
    decreases |bufs|
  {
    if bufs != [] {
      LensKept(bufs[1..], bufs'[1..]);
    }
  }

  /** What is left of a chain at byte `o` of buffer `p`. */
  ghost function Rem(bufs: seq<Buf>, p: nat, o: nat): seq<nat>
    requires p <= |bufs| && (p < |bufs| ==> o <= |bufs[p].data|)
  {
    if p == |bufs| then [] else [|bufs[p].data| - o] + Lens(bufs[p + 1..])
  }

  lemma RemStart(bufs: seq<Buf>)
    requires bufs != []
    ensures Rem(bufs, 0, 0) == Lens(bufs)
  {
  }

  /** Moving on by `n` bytes, and to the next buffer if this one is done. */
  lemma RemMoves(bufs: seq<Buf>, p: nat, o: nat, n: nat)
    requires p < |bufs| && o + n <= |bufs[p].data|
    ensures var l := Rem(bufs, p, o);
            && l != [] && l[0] == |bufs[p].data| - o
            && Less(l, n) == (if o + n == |bufs[p].data| then Rem(bufs, p + 1, 0) else Rem(bufs, p, o + n))
  {
    hide Lens, Less;
    LessOfCons(|bufs[p].data| - o, Lens(bufs[p + 1..]), n);
    LensFrom(bufs, p + 1);
  }

  lemma LessOfCons(a: nat, t: seq<nat>, n: nat)
    requires n <= a
    ensures Less([a] + t, n) == if n == a then t else [a - n] + t
  {
  }

  lemma LensFrom(bufs: seq<Buf>, p: nat)
    requires p <= |bufs|
    ensures Lens(bufs[p..]) == if p == |bufs| then [] else [|bufs[p].data|] + Lens(bufs[p + 1..])
  {
    if p < |bufs| {
      assert bufs[p..][1..] == bufs[p + 1..];
    }
  }

  /** The test of the loop for a second packet, by `tot_len`. */
  lemma RemFine(bufs: seq<Buf>, p: nat, o: nat)
    requires Shape(bufs) && p <= |bufs| && (p < |bufs| ==> o <= |bufs[p].data|)
    ensures Fine(Rem(bufs, p, o)) <==> !(p < |bufs| && |bufs[p].data| == bufs[p].tot_len && p + 1 < |bufs|)
    ensures Rem(bufs, p, o) == [] <==> p == |bufs|
  {
    if p < |bufs| {
      ShapeTail(bufs, p);
      FlatAt(bufs, p);
      LensTotal(bufs[p + 1..]);
      LensLength(bufs[p + 1..]);
      assert Rem(bufs, p, o)[1..] == Lens(bufs[p + 1..]);
    }
  }

  lemma {:induction false} LensLength(bufs: seq<Buf>)
    ensures |Lens(bufs)| == |bufs|
  {
    if bufs != [] {
      LensLength(bufs[1..]);
    }
  }

  /** Where the loop stands in the bytes: at byte `o` of buffer `p`, `at` bytes from the start of the chain. */
  ghost predicate Cursor(bufs: seq<Buf>, p: nat, o: nat, at: nat) {
    p <= |bufs| && at == |Flat(bufs[..p])| + o && if p == |bufs| then o == 0 else o <= |bufs[p].data|
  }

  lemma CursorStart(bufs: seq<Buf>)
    requires bufs != []
    ensures Cursor(bufs, 0, 0, 0)
  {
    assert bufs[..0] == [];
  }

  lemma CursorMoves(bufs: seq<Buf>, p: nat, o: nat, at: nat, n: nat)
    requires Cursor(bufs, p, o, at) && p < |bufs| && o + n <= |bufs[p].data|
    ensures if o + n == |bufs[p].data| then Cursor(bufs, p + 1, 0, at + n) else Cursor(bufs, p, o + n, at + n)
  {
    FlatAt(bufs, p);
  }

  /** A cursor behind the last buffer is behind the last byte. */
  lemma CursorEnd(bufs: seq<Buf>, p: nat, o: nat, at: nat)
    requires Cursor(bufs, p, o, at)
    ensures p <= |bufs| && at <= |Flat(bufs)| && if p == |bufs| then at == |Flat(bufs)| else o <= |bufs[p].data|
  {
    Whole(bufs, p);
    if p < |bufs| {
      FlatAt(bufs, p);
    }
  }

  lemma FromSlice(from: seq<Buf>, p: nat, o: nat, at: nat, n: nat)
    requires Cursor(from, p, o, at) && p < |from| && o + n <= |from[p].data|
    ensures at + n <= |Flat(from)| && from[p].data[o..o + n] == Flat(from)[at..at + n]
  {
    FlatAt(from, p);
  }

  function Answer(w: Outcome): Err {
    match w
    case Done => ERR_OK
    case TooShort => ERR_ARG
    case TwoPackets => ERR_VAL
  }

  /** The loop of pbuf_copy, with its tests by `tot_len`. */
  method CopyLoop(to: seq<Buf>, from: seq<Buf>) returns (err: Err, r: seq<Buf>, ghost n: nat)
    requires Shape(to) && Shape(from) && to != [] && from != [] && |Flat(to)| >= |Flat(from)|
    ensures Lens(to) != [] && Lens(from) != [] && err == Answer(Walk(Lens(to), Lens(from)))
    ensures Shape(r) && |r| == |to| && Lens(r) == Lens(to)
    ensures n <= |Flat(from)| && Flat(r) == Splice(Flat(to), 0, Flat(from)[..n])
            && (err == ERR_OK ==> n == |Flat(from)|)
  {
    hide Flat, Shape, Splice, Cursor, Lens, Walk, Rem, Less, Fine;
    var t: nat, ot: nat, f: nat, of: nat := 0, 0, 0, 0;
    ghost var at: nat, b, all := 0, Flat(to), Flat(from);
    r := to;
    LensTotal(to);
    LensTotal(from);
    CursorStart(to);
    CursorStart(from);
    RemStart(to);
    RemStart(from);
    SpliceNothing(b, 0);
    assert all[..0] == [];
    while true
      invariant at <= |all| && Shape(r) && |r| == |to| && f < |from| && t < |r| && Lens(r) == Lens(to)
      invariant ot <= |r[t].data| && of <= |from[f].data|
      invariant Cursor(r, t, ot, at) && Cursor(from, f, of, at)
      invariant |Flat(r)| == |b| && Flat(r) == Splice(b, 0, all[..at])
      invariant Rem(r, t, ot) != [] && Rem(from, f, of) != []
      invariant Walk(Rem(r, t, ot), Rem(from, f, of)) == Walk(Lens(to), Lens(from))
      decreases |r| - t + |from| - f
    {
      var len := if |r[t].data| - ot >= |from[f].data| - of then |from[f].data| - of else |r[t].data| - ot;
      FromSlice(from, f, of, at, len);
      WriteAt(r, t, ot, from[f].data[of..of + len]);
      WriteCursor(r, t, ot, at, from[f].data[of..of + len]);
      SpliceTwice(b, 0, all[..at], all[at..at + len]);
      assert all[..at + len] == all[..at] + all[at..at + len];
      r := r[t := r[t].(data := Splice(r[t].data, ot, from[f].data[of..of + len]))];
      CursorMoves(r, t, ot, at, len);
      CursorMoves(from, f, of, at, len);
      RemMoves(r, t, ot, len);
      RemMoves(from, f, of, len);
      Turn(Rem(r, t, ot), Rem(from, f, of), len);
      at, ot, of := at + len, ot + len, of + len;
      if of >= |from[f].data| {
        of, f := 0, f + 1;
      }
      var moved := ot == |r[t].data|;
      if moved {
        ot, t := 0, t + 1;
      }
      CursorEnd(from, f, of, at);
      CursorEnd(r, t, ot, at);
      RemFine(from, f, of);
      RemFine(r, t, ot);
      if moved && t == |r| && f < |from| {
        return ERR_ARG, r, at;
      }
      if f < |from| && |from[f].data| == from[f].tot_len && f + 1 < |from| {
        return ERR_VAL, r, at;
      }
      if t < |r| && |r[t].data| == r[t].tot_len && t + 1 < |r| {
        return ERR_VAL, r, at;
      }
      if f == |from| {
        break;
      }
    }
    assert all[..at] == all;
    err, n := ERR_OK, at;
  }

  lemma WriteCursor(bufs: seq<Buf>, p: nat, o: nat, at: nat, d: seq<U8>)
    requires Cursor(bufs, p, o, at) && p < |bufs| && o + |d| <= |bufs[p].data|
    ensures var bufs' := bufs[p := bufs[p].(data := Splice(bufs[p].data, o, d))];
            Cursor(bufs', p, o, at) && Lens(bufs') == Lens(bufs) && Rem(bufs', p, o) == Rem(bufs, p, o)
  {
    var bufs' := bufs[p := bufs[p].(data := Splice(bufs[p].data, o, d))];
    assert bufs'[..p] == bufs[..p] && bufs'[p + 1..] == bufs[p + 1..];
    LensKept(bufs, bufs');
  }
}
