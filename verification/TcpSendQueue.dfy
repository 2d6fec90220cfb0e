/** The send queues of tcp_out.c as lists of segments, and what holding one contiguous stretch of the stream means
    for two lists that are merged by sequence number. */
module TcpSendQueue {
  import opened Seqs
  import opened Words
  import opened Seq32
  import opened TcpChecksum

  /** struct tcp_seg; `clen` is pbuf_clen of its pbuf chain, `sum` the checksum kept of its payload. */
  datatype Seg = Seg(seqno: U32, data: seq<U8>, syn: bool, fin: bool, psh: bool, clen: nat, sum: Pair) {
    /** TCP_TCPLEN */
    function TcpLen(): nat {
      |data| + if syn || fin then 1 else 0
    }

    /** Sequence number behind the segment. */
    function Next(): U32 {
      Add(seqno, TcpLen())
    }
  }

  /** The sequence number of a position. */
  function Num(p: int): U32 {
    p % WRAP
  }

  predicate Before(a: Seg, b: Seg) {
    SeqLt(a.seqno, b.seqno)
  }

  /** The connection: the position of its SYN, and all bytes that were ever written to it. Positions are integers;
      sequence numbers are positions on the 32-bit circle. */
  datatype Conn = Conn(iss: int, stream: seq<U8>) {
    ghost function End(fin: bool): int {
      iss + 1 + |stream| + if fin then 1 else 0
    }
  }

  /** The bytes `d` are those of the stream from place `i` on. */
  ghost predicate Matches(d: seq<U8>, stream: seq<U8>, i: int) {
    0 <= i && i + |d| <= |stream| && forall k :: 0 <= k < |d| ==> d[k] == stream[i + k]
  }

  /** A segment that stands at position `p` and carries what the connection has there: the SYN, or bytes of the
      stream, with a FIN only at the end of the stream; and the checksum of those bytes. */
  ghost predicate Holds(s: Seg, p: int, c: Conn) {
    && s.seqno == Num(p) && s.TcpLen() > 0 && s.sum == PairOf(s.data)
    && (s.syn ==> p == c.iss && s.data == [] && !s.fin)
    && (!s.syn ==>
         var i := p - c.iss - 1;
         && Matches(s.data, c.stream, i)
         && (s.fin ==> i + |s.data| == |c.stream|))
  }

  /** Contiguous segments from `p` to `end`. */
  ghost predicate Flight(f: seq<Seg>, p: int, c: Conn, end: int) {
    if f == [] then p == end else Holds(f[0], p, c) && Flight(f[1..], p + f[0].TcpLen(), c, end)
  }

  /** `f` is a merge of `a` and `b`: each segment of `f` is the next one of `a` or of `b`. */
  ghost predicate Merged(f: seq<Seg>, a: seq<Seg>, b: seq<Seg>)
    decreases |f|
  {
    if f == [] then a == [] && b == []
    else
      || (a != [] && a[0] == f[0] && Merged(f[1..], a[1..], b))
      || (b != [] && b[0] == f[0] && Merged(f[1..], a, b[1..]))
  }

  function Bytes(q: seq<Seg>): nat {
    if q == [] then 0 else |q[0].data| + Bytes(q[1..])
  }

  function Pbufs(q: seq<Seg>): nat {
    if q == [] then 0 else q[0].clen + Pbufs(q[1..])
  }

  /** The payload of a list of segments. */
  function Payload(q: seq<Seg>): seq<U8> {
    if q == [] then [] else q[0].data + Payload(q[1..])
  }

  lemma Unfolded(q: seq<Seg>)
    requires q != []
    ensures Payload(q) == q[0].data + Payload(q[1..]) && Bytes(q) == |q[0].data| + Bytes(q[1..])
    ensures |q| == 1 ==> Payload(q) == q[0].data && Bytes(q) == |q[0].data|
  {
    if |q| == 1 {
      assert q[1..] == [];
    }
  }

  lemma LastTail(q: seq<Seg>)
    requires |q| > 1
    ensures q[1..][|q| - 2] == q[|q| - 1]
  {
  }

  // ---------- what a flight says ----------

  lemma {:induction false} FlightBounds(f: seq<Seg>, p: int, c: Conn, end: int)
    requires Flight(f, p, c, end)
    ensures p <= end
    ensures f != [] ==> c.iss <= p < p + f[0].TcpLen() <= end <= c.End(true)
    ensures f != [] && f[0].fin ==> |f| == 1
    decreases |f|
  {
    hide Num;
    if f != [] {
      FlightBounds(f[1..], p + f[0].TcpLen(), c, end);
    }
  }

  lemma {:induction false} FlightBytes(f: seq<Seg>, p: int, c: Conn, end: int)
    requires Flight(f, p, c, end) && p > c.iss && f != []
    ensures p - c.iss - 1 + Bytes(f) <= |c.stream| && end - p == Bytes(f) + if f[|f| - 1].fin then 1 else 0
    decreases |f|
  {
    hide Num;
    FlightBounds(f, p, c, end);
    if |f| > 1 {
      LastTail(f);
      FlightBytes(f[1..], p + f[0].TcpLen(), c, end);
    } else {
      assert f[1..] == [] && Bytes(f[1..]) == 0;
    }
  }

  /** The payload of a contiguous flight is the stream from the place where the flight starts. */
  lemma {:induction false} FlightPayload(f: seq<Seg>, p: int, c: Conn, end: int)
    requires Flight(f, p, c, end) && p > c.iss && f != []
    ensures var i := p - c.iss - 1;
            i + Bytes(f) <= |c.stream| && Payload(f) == c.stream[i..i + Bytes(f)]
    decreases |f|
  {
    hide Flight, Holds, Payload, Bytes;
    var i, n := p - c.iss - 1, |f[0].data|;
    FirstBytes(f, p, c, end);
    Unfolded(f);
    if |f| > 1 {
      FlightPayload(f[1..], p + n, c, end);
      TwoSlices(c.stream, f[0].data, Payload(f[1..]), i, n, Bytes(f[1..]));
    }
  }

  lemma FirstBytes(f: seq<Seg>, p: int, c: Conn, end: int)
    requires Flight(f, p, c, end) && p > c.iss && f != []
    ensures var i, n := p - c.iss - 1, |f[0].data|;
            && i + n <= |c.stream| && f[0].data == c.stream[i..i + n]
            && (|f| > 1 ==> Flight(f[1..], p + n, c, end))
  {
    FlightBounds(f, p, c, end);
    var i, n := p - c.iss - 1, |f[0].data|;
    assert f[0].data == c.stream[i..i + n];
  }

  lemma TwoSlices(s: seq<U8>, d: seq<U8>, e: seq<U8>, i: nat, n: nat, m: nat)
    requires i + n + m <= |s| && d == s[i..i + n] && e == s[i + n..i + n + m]
    ensures d + e == s[i..i + n + m]
  {
  }

  /** No flight is longer than its bytes and the two flags. */
  lemma {:induction false} FlightSpan(f: seq<Seg>, p: int, c: Conn, end: int)
    requires Flight(f, p, c, end)
    ensures end - p <= Bytes(f) + 2
  {
    hide Num, Holds;
    if f != [] {
      FlightBounds(f, p, c, end);
      if p > c.iss {
        FlightBytes(f, p, c, end);
      } else if f[1..] != [] {
        FlightBytes(f[1..], p + f[0].TcpLen(), c, end);
      }
    }
  }

  lemma {:induction false} FlightAppend(f: seq<Seg>, g: seq<Seg>, p: int, c: Conn, mid: int, end: int)
    requires Flight(f, p, c, mid)
    ensures Flight(f + g, p, c, end) <==> Flight(g, mid, c, end)
    decreases |f|
  {
    hide Num;
    if f == [] {
      assert f + g == g;
    } else {
      assert (f + g)[0] == f[0] && (f + g)[1..] == f[1..] + g;
      FlightAppend(f[1..], g, p + f[0].TcpLen(), c, mid, end);
    }
  }

  /** A flight taken apart in the middle. */
  lemma {:induction false} FlightSplit(f: seq<Seg>, g: seq<Seg>, p: int, c: Conn, end: int) returns (mid: int)
    requires Flight(f + g, p, c, end)
    ensures Flight(f, p, c, mid) && Flight(g, mid, c, end) && p <= mid
    decreases |f|
  {
    hide Num;
    if f == [] {
      assert f + g == g;
      mid := p;
    } else {
      assert (f + g)[0] == f[0] && (f + g)[1..] == f[1..] + g;
      mid := FlightSplit(f[1..], g, p + f[0].TcpLen(), c, end);
    }
  }

  /** While no FIN is queued, the stream may grow. */
  lemma {:induction false} FlightGrows(f: seq<Seg>, p: int, c: Conn, end: int, more: seq<U8>)
    requires Flight(f, p, c, end) && end <= c.End(false)
    ensures Flight(f, p, Conn(c.iss, c.stream + more), end)
    decreases |f|
  {
    if f != [] {
      FlightBounds(f[1..], p + f[0].TcpLen(), c, end);
      FlightGrows(f[1..], p + f[0].TcpLen(), c, end, more);
    }
  }

  lemma Compare(x: Seg, px: int, y: Seg, py: int)
    requires x.seqno == Num(px) && y.seqno == Num(py) && -HALF < px - py < HALF
    ensures Before(x, y) <==> px < py
  {
    HalfWindow(px, py);
  }

  // ---------- merging ----------

  lemma {:induction false} MergedSwap(f: seq<Seg>, a: seq<Seg>, b: seq<Seg>)
    requires Merged(f, a, b)
    ensures Merged(f, b, a)
    decreases |f|
  {
    if f != [] {
      if a != [] && a[0] == f[0] && Merged(f[1..], a[1..], b) {
        MergedSwap(f[1..], a[1..], b);
      } else {
        MergedSwap(f[1..], a, b[1..]);
      }
    }
  }

  /** Nothing is lost and nothing is doubled. */
  lemma {:induction false} MergedSums(f: seq<Seg>, a: seq<Seg>, b: seq<Seg>)
    requires Merged(f, a, b)
    ensures Bytes(f) == Bytes(a) + Bytes(b) && Pbufs(f) == Pbufs(a) + Pbufs(b)
    ensures |f| == |a| + |b|
    ensures multiset(f) == multiset(a) + multiset(b)
    decreases |f|
  {
    if f != [] {
      assert f == [f[0]] + f[1..];
      if a != [] && a[0] == f[0] && Merged(f[1..], a[1..], b) {
        assert a == [a[0]] + a[1..];
        MergedSums(f[1..], a[1..], b);
      } else {
        assert b == [b[0]] + b[1..];
        MergedSums(f[1..], a, b[1..]);
      }
    }
  }

  lemma {:induction false} MergedOne(f: seq<Seg>)
    ensures Merged(f, [], f)
    decreases |f|
  {
    if f != [] {
      MergedOne(f[1..]);
    }
  }

  lemma {:induction false} MergedOnly(f: seq<Seg>, b: seq<Seg>)
    requires Merged(f, [], b)
    ensures b == f
    decreases |f|
  {
    if f != [] {
      MergedOnly(f[1..], b[1..]);
      assert b == [b[0]] + b[1..] && f == [f[0]] + f[1..];
    }
  }

  /** What goes to the end of the second list goes to the end of the merge. */
  lemma {:induction false} MergedAppend(f: seq<Seg>, a: seq<Seg>, b: seq<Seg>, g: seq<Seg>)
    requires Merged(f, a, b)
    ensures Merged(f + g, a, b + g)
    decreases |f|
  {
    if f == [] {
      assert f + g == g == b + g;
      MergedOne(g);
    } else {
      assert (f + g)[0] == f[0] && (f + g)[1..] == f[1..] + g;
      if a != [] && a[0] == f[0] && Merged(f[1..], a[1..], b) {
        MergedAppend(f[1..], a[1..], b, g);
      } else {
        assert (b + g)[0] == b[0] && (b + g)[1..] == b[1..] + g;
        MergedAppend(f[1..], a, b[1..], g);
      }
    }
  }

  /** Where the first segment of a list stands. */
  lemma {:induction false} HeadPos(f: seq<Seg>, p: int, c: Conn, end: int, a: seq<Seg>, b: seq<Seg>) returns (q: int)
    requires Flight(f, p, c, end) && Merged(f, a, b) && a != []
    ensures p <= q && q + a[0].TcpLen() <= end && Holds(a[0], q, c)
    ensures b != [] && b[0] == f[0] && Merged(f[1..], a, b[1..]) ==> q > p
    decreases |f|
  {
    hide Num;
    FlightBounds(f[1..], p + f[0].TcpLen(), c, end);
    if b != [] && b[0] == f[0] && Merged(f[1..], a, b[1..]) {
      q := HeadPos(f[1..], p + f[0].TcpLen(), c, end, a, b[1..]);
    } else {
      q := p;
    }
  }

  lemma {:induction false} LastPos(f: seq<Seg>, p: int, c: Conn, end: int, a: seq<Seg>, b: seq<Seg>) returns (q: int)
    requires Flight(f, p, c, end) && Merged(f, a, b) && a != []
    ensures var l := a[|a| - 1]; p <= q && q + l.TcpLen() <= end && Holds(l, q, c)
    ensures b != [] && b[0] == f[0] && Merged(f[1..], a, b[1..]) ==> q > p
    decreases |f|
  {
    hide Num;
    var p' := p + f[0].TcpLen();
    FlightBounds(f[1..], p', c, end);
    if b != [] && b[0] == f[0] && Merged(f[1..], a, b[1..]) {
      q := LastPos(f[1..], p', c, end, a, b[1..]);
    } else if |a| == 1 {
      q := p;
    } else {
      LastTail(a);
      q := LastPos(f[1..], p', c, end, a[1..], b);
    }
  }

  // ---------- inserting by sequence number ----------

  /** The loop of tcp_rexmit and tcp_output that looks for the place of a segment in a sorted list. */
  function Insert(q: seq<Seg>, x: Seg): seq<Seg> {
    if q == [] || !Before(q[0], x) then [x] + q else [q[0]] + Insert(q[1..], x)
  }

  /** Moving the first segment of one list to its place in the other one leaves the merge as it is. */
  lemma {:induction false} InsertMerged(f: seq<Seg>, p: int, c: Conn, end: int, a: seq<Seg>, b: seq<Seg>)
    requires Flight(f, p, c, end) && end - p < HALF && Merged(f, a, b) && a != []
    ensures Merged(f, a[1..], Insert(b, a[0]))
    decreases |f|
  {
    hide Num;
    var x, p' := a[0], p + f[0].TcpLen();
    FlightBounds(f[1..], p', c, end);
    if x == f[0] && Merged(f[1..], a[1..], b) {
      if b != [] {
        MergedSwap(f[1..], a[1..], b);
        var q := HeadPos(f[1..], p', c, end, b, a[1..]);
        Compare(b[0], q, x, p);
      }
      Head(x, b);
    } else {
      var q := HeadPos(f, p, c, end, a, b);
      Compare(b[0], p, x, q);
      InsertMerged(f[1..], p', c, end, a, b[1..]);
      Head(b[0], Insert(b[1..], x));
    }
  }

  /** A segment that does not lie before the last one of a list belongs at its end. */
  lemma {:induction false} InsertAtEnd(f: seq<Seg>, p: int, c: Conn, end: int, a: seq<Seg>, b: seq<Seg>)
    requires Flight(f, p, c, end) && end - p < HALF && Merged(f, a, b) && b != [] && a != []
    requires !Before(b[0], a[|a| - 1])
    ensures Insert(a, b[0]) == a + [b[0]]
    decreases |f|
  {
    hide Num, PairOf;
    var x, p' := b[0], p + f[0].TcpLen();
    FlightBounds(f[1..], p', c, end);
    if x == f[0] && Merged(f[1..], a, b[1..]) {
      var q := LastPos(f, p, c, end, a, b);
      Compare(x, p, a[|a| - 1], q);
      assert false;
    } else {
      MergedSwap(f, a, b);
      var q := HeadPos(f, p, c, end, b, a);
      MergedSwap(f[1..], a[1..], b);
      Compare(a[0], p, x, q);
      if |a| > 1 {
        LastTail(a);
        InsertAtEnd(f[1..], p', c, end, a[1..], b);
        assert a + [x] == [a[0]] + (a[1..] + [x]);
      } else {
        assert a[1..] == [] && a + [x] == [a[0]] + [x];
      }
    }
  }

  /** tcp_rexmit_rto_prepare puts one list in front of the other. The result is in order if and only if the last
      segment of the first list lies before the first one of the second. */
  lemma {:induction false} JoinedIff(f: seq<Seg>, p: int, c: Conn, end: int, a: seq<Seg>, b: seq<Seg>)
    requires Flight(f, p, c, end) && end - p < HALF && Merged(f, a, b)
    ensures f == a + b <==> a == [] || b == [] || Before(a[|a| - 1], b[0])
    decreases |f|
  {
    hide Num, PairOf;
    if a == [] {
      MergedOnly(f, b);
      assert a + b == b;
    } else if b == [] {
      MergedSwap(f, a, b);
      MergedOnly(f, a);
      assert a + b == a;
    } else {
      var p' := p + f[0].TcpLen();
      FlightBounds(f[1..], p', c, end);
      if a[0] == f[0] && Merged(f[1..], a[1..], b) {
        JoinedIff(f[1..], p', c, end, a[1..], b);
        assert (a + b)[1..] == a[1..] + b;
        assert f == [f[0]] + f[1..] && a + b == [a[0]] + (a[1..] + b);
        if |a| > 1 {
          LastTail(a);
        } else {
          MergedSwap(f[1..], a[1..], b);
          var q := HeadPos(f[1..], p', c, end, b, a[1..]);
          Compare(a[0], p, b[0], q);
          MergedSwap(f[1..], b, a[1..]);
          assert a[1..] == [];
          MergedOnly(f[1..], b);
        }
      } else {
        var q := LastPos(f, p, c, end, a, b);
        Compare(a[|a| - 1], q, b[0], p);
        var r := HeadPos(f, p, c, end, a, b);
        assert Holds(a[0], r, c) && r > p;
        assert a[0] != f[0] by {
          if a[0] == f[0] {
            Compare(a[0], r, f[0], p);
            Compare(f[0], p, a[0], r);
          }
        }
      }
    }
  }

  // ---------- acknowledging ----------

  /** tcp_free_acked_segments */
  function DropAcked(q: seq<Seg>, ackno: U32): seq<Seg> {
    if q != [] && SeqLeq(q[0].Next(), ackno) then DropAcked(q[1..], ackno) else q
  }

  lemma NextLeq(s: Seg, p: int, ack: int)
    requires s.seqno == Num(p) && -HALF < p + s.TcpLen() - ack < HALF
    ensures SeqLeq(s.Next(), Num(ack)) <==> p + s.TcpLen() <= ack
  {
    HalfWindow(p + s.TcpLen(), ack);
    NextNum(s, p);
  }

  lemma {:induction false} NothingAcked(f: seq<Seg>, p: int, c: Conn, end: int, a: seq<Seg>, b: seq<Seg>, ack: int)
    requires Flight(f, p, c, end) && end - p < HALF && Merged(f, a, b) && f != []
    requires ack < p + f[0].TcpLen() && end - ack < HALF
    ensures DropAcked(a, Num(ack)) == a && DropAcked(b, Num(ack)) == b
  {
    hide Num;
    FlightBounds(f[1..], p + f[0].TcpLen(), c, end);
    if a != [] {
      var q := HeadPos(f, p, c, end, a, b);
      HeadBehind(f, p, c, end, a, b, q);
      NextLeq(a[0], q, ack);
    }
    if b != [] {
      MergedSwap(f, a, b);
      var q := HeadPos(f, p, c, end, b, a);
      HeadBehind(f, p, c, end, b, a, q);
      NextLeq(b[0], q, ack);
    }
  }

  lemma HeadBehind(f: seq<Seg>, p: int, c: Conn, end: int, a: seq<Seg>, b: seq<Seg>, q: int)
    requires Flight(f, p, c, end) && end - p < HALF && f != [] && a != []
    requires p <= q && q + a[0].TcpLen() <= end && Holds(a[0], q, c) && Merged(f, a, b)
    ensures q + a[0].TcpLen() >= p + f[0].TcpLen()
  {
    hide Num;
    FlightBounds(f[1..], p + f[0].TcpLen(), c, end);
    if a[0] != f[0] {
      assert Merged(f[1..], a, b[1..]);
      var r := HeadPos(f[1..], p + f[0].TcpLen(), c, end, a, b[1..]);
      Compare(a[0], q, a[0], r);
      Compare(a[0], r, a[0], q);
    }
  }

  /** What is acknowledged is taken off the front of the merge, and nothing else. */
  lemma {:induction false} DropMerged(f: seq<Seg>, p: int, c: Conn, end: int, a: seq<Seg>, b: seq<Seg>, ack: int)
    returns (f': seq<Seg>, p': int)
    requires Flight(f, p, c, end) && end - p < HALF && Merged(f, a, b) && p <= ack <= end
    ensures Merged(f', DropAcked(a, Num(ack)), DropAcked(b, Num(ack))) && Flight(f', p', c, end)
    ensures p <= p' <= ack && (f' != [] ==> ack < p' + f'[0].TcpLen())
    ensures |f'| <= |f| && f[|f| - |f'|..] == f'
    decreases |f|
  {
    hide Num, SeqLeq, DropAcked, Holds, Merged, Flight;
    if f == [] {
      NoneDropped(a, b, Num(ack));
      f', p' := f, p;
    } else if ack < p + f[0].TcpLen() {
      NothingAcked(f, p, c, end, a, b, ack);
      f', p' := f, p;
      assert f[0..] == f;
    } else {
      FlightHead(f, p, c, end);
      HeadAcked(f[0], p, c, ack);
      var ofA := MergedHead(f, a, b);
      if ofA {
        DropsHead(a, Num(ack));
        f', p' := DropMerged(f[1..], p + f[0].TcpLen(), c, end, a[1..], b, ack);
      } else {
        DropsHead(b, Num(ack));
        f', p' := DropMerged(f[1..], p + f[0].TcpLen(), c, end, a, b[1..], ack);
      }
      SuffixOfTail(f, f');
    }
  }

  lemma FlightHead(f: seq<Seg>, p: int, c: Conn, end: int)
    requires Flight(f, p, c, end) && f != []
    ensures Holds(f[0], p, c) && Flight(f[1..], p + f[0].TcpLen(), c, end) && p < p + f[0].TcpLen() <= end
  {
    hide Num;
    FlightBounds(f[1..], p + f[0].TcpLen(), c, end);
  }

  lemma MergedHead(f: seq<Seg>, a: seq<Seg>, b: seq<Seg>) returns (ofA: bool)
    requires Merged(f, a, b) && f != []
    ensures if ofA then a != [] && a[0] == f[0] && Merged(f[1..], a[1..], b)
            else b != [] && b[0] == f[0] && Merged(f[1..], a, b[1..])
  {
    ofA := a != [] && a[0] == f[0] && Merged(f[1..], a[1..], b);
  }

  lemma NoneDropped(a: seq<Seg>, b: seq<Seg>, ackno: U32)
    requires Merged([], a, b)
    ensures a == b == DropAcked(a, ackno) == []
  {
  }

  lemma HeadAcked(s: Seg, p: int, c: Conn, ack: int)
    requires Holds(s, p, c) && p + s.TcpLen() <= ack < p + s.TcpLen() + HALF
    ensures SeqLeq(s.Next(), Num(ack))
  {
    hide Num;
    NextLeq(s, p, ack);
  }

  lemma DropsHead(q: seq<Seg>, ackno: U32)
    requires q != [] && SeqLeq(q[0].Next(), ackno)
    ensures DropAcked(q, ackno) == DropAcked(q[1..], ackno)
  {
  }

  lemma SuffixOfTail(f: seq<Seg>, t: seq<Seg>)
    requires f != [] && |t| < |f| && f[1..][|f| - 1 - |t|..] == t
    ensures f[|f| - |t|..] == t
  {
  }

  // ---------- changing the ends of a queue ----------

  /** A queue whose last segment ends where the flight ends holds the last segment of the flight. */
  lemma {:induction false} TailLast(f: seq<Seg>, p: int, c: Conn, end: int, a: seq<Seg>, b: seq<Seg>)
    requires Flight(f, p, c, end) && end - p < HALF && Merged(f, a, b)
    requires b != [] && b[|b| - 1].Next() == Num(end)
    ensures f != [] && f[|f| - 1] == b[|b| - 1] && Merged(f[..|f| - 1], a, b[..|b| - 1])
    decreases |f|
  {
    hide Num, PairOf;
    var p' := p + f[0].TcpLen();
    FlightBounds(f, p, c, end);
    if a != [] && a[0] == f[0] && Merged(f[1..], a[1..], b) {
      TailLast(f[1..], p', c, end, a[1..], b);
      assert f[..|f| - 1] == [f[0]] + f[1..][..|f| - 2];
    } else if |b| > 1 {
      LastTail(b);
      TailLast(f[1..], p', c, end, a, b[1..]);
      assert f[..|f| - 1] == [f[0]] + f[1..][..|f| - 2];
      assert b[..|b| - 1] == [b[0]] + b[1..][..|b| - 2];
    } else {
      NextNum(f[0], p);
      if f[1..] != [] {
        FlightBounds(f[1..], p', c, end);
        NumDiffers(p', end);
      } else {
        assert b[1..] == [] && a == [];
        assert b[..|b| - 1] == [] && f[..|f| - 1] == [];
      }
    }
  }

  lemma NextNum(s: Seg, p: int)
    requires s.seqno == Num(p)
    ensures s.Next() == Num(p + s.TcpLen())
  {
    AddOf(p, s.TcpLen());
  }

  lemma NumDiffers(p: int, q: int)
    requires p < q < p + HALF
    ensures Num(p) != Num(q)
  {
    HalfWindow(p, q);
    HalfWindow(q, q);
  }

  /** The other way round: if the flight ends with the queue, the queue's last segment ends where the flight ends. */
  lemma TailEnds(f: seq<Seg>, p: int, c: Conn, end: int)
    requires Flight(f, p, c, end) && f != []
    ensures f[|f| - 1].Next() == Num(end)
    decreases |f|
  {
    hide Num;
    if |f| > 1 {
      LastTail(f);
      TailEnds(f[1..], p + f[0].TcpLen(), c, end);
    } else {
      assert f[1..] == [];
      NextNum(f[0], p);
    }
  }

  /** Replacing the head of the second queue replaces it in the merge. */
  lemma {:induction false} HeadReplaced(f: seq<Seg>, a: seq<Seg>, b: seq<Seg>, hs: seq<Seg>)
    returns (f1: seq<Seg>, f2: seq<Seg>)
    requires Merged(f, a, b) && b != []
    ensures f == f1 + [b[0]] + f2 && Merged(f1 + hs + f2, a, hs + b[1..])
    decreases |f|
  {
    if a != [] && a[0] == f[0] && Merged(f[1..], a[1..], b) {
      f1, f2 := HeadReplaced(f[1..], a[1..], b, hs);
      assert f == [f[0]] + f[1..] == [f[0]] + f1 + [b[0]] + f2;
      assert [f[0]] + f1 + hs + f2 == [f[0]] + (f1 + hs + f2);
      Head(f[0], f1 + hs + f2);
      f1 := [f[0]] + f1;
    } else {
      f1, f2 := [], f[1..];
      MergedPrepend(f[1..], a, b[1..], hs);
      assert f == [f[0]] + f[1..];
      assert [] + hs + f[1..] == hs + f[1..];
    }
  }

  lemma {:induction false} MergedPrepend(f: seq<Seg>, a: seq<Seg>, b: seq<Seg>, hs: seq<Seg>)
    requires Merged(f, a, b)
    ensures Merged(hs + f, a, hs + b)
    decreases |hs|
  {
    if hs == [] {
      assert hs + f == f && hs + b == b;
    } else {
      MergedPrepend(f, a, b, hs[1..]);
      assert (hs + f)[0] == hs[0] && (hs + f)[1..] == hs[1..] + f;
      assert (hs + b)[0] == hs[0] && (hs + b)[1..] == hs[1..] + b;
    }
  }

  lemma BytesConcat(a: seq<Seg>, b: seq<Seg>)
    ensures Bytes(a + b) == Bytes(a) + Bytes(b) && Pbufs(a + b) == Pbufs(a) + Pbufs(b)
  {
    if a == [] {
      assert a + b == b;
    } else {
      assert (a + b)[0] == a[0] && (a + b)[1..] == a[1..] + b;
      BytesConcat(a[1..], b);
    }
  }

  lemma BytesOne(x: Seg)
    ensures Bytes([x]) == |x.data| && Pbufs([x]) == x.clen
  {
    assert [x][1..] == [];
  }

  lemma InsertSums(q: seq<Seg>, x: Seg)
    ensures Bytes(Insert(q, x)) == |x.data| + Bytes(q) && Pbufs(Insert(q, x)) == x.clen + Pbufs(q)
  {
    if q == [] || !Before(q[0], x) {
      Head(x, q);
    } else {
      InsertSums(q[1..], x);
      Head(q[0], Insert(q[1..], x));
    }
  }

  // ---------- splitting a segment ----------

  /** The two parts of tcp_split_unsent_seg. The flags of the head are only ever added to: FIN and PSH stay on it as
      well as going to the remainder. */
  function SplitSeg(h: Seg, split: nat, clen: nat): (Seg, Seg)
    requires split <= |h.data|
  {
    (h.(data := h.data[..split], clen := clen, sum := PairOf(h.data[..split])),
     Seg(Add(h.seqno, split), h.data[split..], false, h.fin, h.psh, 1, PairOf(h.data[split..])))
  }

  /** The split head and the remainder hold the place of the old head if and only if the old one had no FIN: with
      one, the head keeps its FIN and runs into the remainder. */
  lemma SplitIff(h: Seg, p: int, c: Conn, split: nat, clen: nat)
    requires Holds(h, p, c) && 0 < split < |h.data|
    ensures var (h1, h2) := SplitSeg(h, split, clen);
            Flight([h1, h2], p, c, p + h.TcpLen()) <==> !h.fin
  {
    hide PairOf;
    var (h1, h2) := SplitSeg(h, split, clen);
    assert [h1, h2][1..] == [h2] && [h2][1..] == [];
    var i, n := p - c.iss - 1, |h.data|;
    assert Add(Num(p), split) == Num(p + split);
    if !h.fin {
      assert Holds(h1, p, c) && Holds(h2, p + split, c);
      assert Flight([h2], p + split, c, p + n);
    } else {
      assert h1.fin && i + split < |c.stream|;
    }
  }

  /** A FIN ends everything: nothing of the same queue comes behind it, whatever the other one holds. */
  lemma {:induction false} NothingBehindFin(f: seq<Seg>, p: int, c: Conn, end: int, a: seq<Seg>, b: seq<Seg>)
    requires Flight(f, p, c, end) && Merged(f, a, b) && b != [] && b[0].fin
    ensures |b| == 1
    decreases |f|
  {
    hide Holds;
    FlightBounds(f, p, c, end);
    if a != [] && a[0] == f[0] && Merged(f[1..], a[1..], b) {
      NothingBehindFin(f[1..], p + f[0].TcpLen(), c, end, a[1..], b);
    }
  }
}
