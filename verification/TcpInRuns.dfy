/** Whole runs of the receive side: what reaches the application after any sequence of arrivals, failed copies
    and dropped queues. */
module TcpInRuns {
  import opened Words
  import opened Seq32
  import opened TcpOoseq
  import opened TcpIn

  /** A run, newest step outermost. Between the steps the window may be anything the application leaves it;
      `wnd` is what it was when the segment arrived. */
  datatype Run =
    | Begin(f: Frame)
    | Arrive(before: Run, wnd: nat, seg: Seg, copied: bool, f: Frame, q: seq<Seg>, data: seq<U8>, fin: bool)
    | Drop(before: Run)
  {
    function Frame(): Frame {
      match this
      case Begin(f) => f
      case Arrive(_, _, _, _, f, _, _, _) => f
      case Drop(r) => r.Frame()
    }

    function Queue(): seq<Seg> {
      match this
      case Begin(_) => []
      case Arrive(_, _, _, _, _, q, _, _) => q
      case Drop(_) => []
    }

    /** Every step is one that tcp_receive makes. */
    ghost predicate Valid() {
      match this
      case Begin(f) => f.off == 0
      case Arrive(r, wnd, seg, copied, f, q, data, fin) =>
        && r.Valid() && r.Frame().off <= |r.Frame().stream|
        && Good(seg, r.Frame())
        && Received(r.Frame(), r.Queue(), wnd, seg, copied, f, q, data, fin)
      case Drop(r) => r.Valid()
    }

    /** Everything handed to the application, in the order in which it was handed over. */
    function Delivered(): seq<U8> {
      match this
      case Begin(_) => []
      case Arrive(r, _, _, _, _, _, data, _) => r.Delivered() + data
      case Drop(r) => r.Delivered()
    }

    /** The stream positions that arrived inside the window. */
    ghost function Arrived(): set<int> {
      match this
      case Begin(_) => {}
      case Arrive(r, wnd, seg, _, _, _, _, _) =>
        r.Arrived() + Range(Pos(seg, r.Frame()), Min(End(seg, r.Frame()), r.Frame().off + wnd))
      case Drop(r) => r.Arrived()
    }

    /** No copy failed, no queue was dropped, and no segment came to lie strictly inside a queued one. */
    ghost predicate Lossless() {
      match this
      case Begin(_) => true
      case Arrive(r, _, seg, copied, _, _, _, _) => r.Lossless() && copied && Lost(r.Queue(), seg, r.Frame()) == {}
      case Drop(_) => false
    }
  }

  /** Reassembly safety: whatever arrives in whatever order, the application has got exactly the stream up to
      rcv_nxt, and the queue is sorted, disjoint, true to the stream and above rcv_nxt. */
  lemma {:induction false} DeliveredIsPrefix(r: Run)
    requires r.Valid()
    ensures var f := r.Frame();
            && 0 <= f.off
            && r.Delivered() == f.stream[..Min(f.off, |f.stream|)]
            && f.off <= |f.stream| + 1
            && Chain(r.Queue(), f, f.off + 1)
  {
    match r
    case Begin(_) =>
    case Drop(r') => DeliveredIsPrefix(r');
    case Arrive(r', wnd, seg, copied, f, q, data, fin) =>
      DeliveredIsPrefix(r');
      ReceivedFacts(r'.Frame(), r'.Queue(), wnd, seg, copied, f, q, data, fin);
  }

  /** Nothing is invented: what is held has arrived. */
  lemma {:induction false} HeldArrived(r: Run)
    requires r.Valid()
    ensures Held(r.Frame(), r.Queue()) <= r.Arrived()
  {
    hide Range;
    match r
    case Begin(f) =>
    case Drop(r') => HeldArrived(r');
    case Arrive(r', wnd, seg, copied, f, q, data, fin) => HeldArrived(r');
  }

  /** Reassembly completeness: when nothing is lost on the way, what is held is what has arrived, so rcv_nxt
      stands at the first byte that has not. */
  lemma {:induction false} HeldIsArrived(r: Run)
    requires r.Valid() && r.Lossless()
    ensures Held(r.Frame(), r.Queue()) == r.Arrived()
    ensures forall p :: 0 <= p < Min(r.Frame().off, |r.Frame().stream|) ==> p in r.Arrived()
    ensures r.Frame().off < |r.Frame().stream| ==> r.Frame().off !in r.Arrived()
  {
    hide Chain, Within, HasFin, Lost, Good;
    var f := r.Frame();
    DeliveredIsPrefix(r);
    BytesBounds(r.Queue(), f, f.off + 1);
    match r
    case Begin(_) =>
    case Drop(r') => assert false;
    case Arrive(r', wnd, seg, copied, f', q, data, fin) =>
      HeldIsArrived(r');
      InWindowArrived(r', wnd, seg, f', q, data, fin);
  }

  lemma InWindowArrived(r: Run, wnd: nat, seg: Seg, f: Frame, q: seq<Seg>, data: seq<U8>, fin: bool)
    requires Lost(r.Queue(), seg, r.Frame()) == {}
    requires Received(r.Frame(), r.Queue(), wnd, seg, true, f, q, data, fin)
    ensures Held(f, q) == Held(r.Frame(), r.Queue())
              + Range(Pos(seg, r.Frame()), Min(End(seg, r.Frame()), r.Frame().off + wnd))
  {
  }

  /** The order of arrival does not matter: two lossless runs over the same stream in which the same bytes
      arrived have delivered the same data. */
  lemma {:induction false} OrderDoesNotMatter(a: Run, b: Run)
    requires a.Valid() && a.Lossless() && b.Valid() && b.Lossless()
    requires a.Frame().stream == b.Frame().stream && a.Arrived() == b.Arrived()
    ensures a.Delivered() == b.Delivered()
  {
    DeliveredIsPrefix(a);
    DeliveredIsPrefix(b);
    HeldIsArrived(a);
    HeldIsArrived(b);
    var s, i, j := a.Frame().stream, a.Frame().off, b.Frame().off;
    if Min(i, |s|) < Min(j, |s|) {
      assert false;
    } else if Min(j, |s|) < Min(i, |s|) {
      assert false;
    }
  }

  /** When a new segment makes a queued one lose bytes: exactly when it lies strictly inside one without a FIN. */
  lemma {:induction false} LostExactly(q: seq<Seg>, seg: Seg, f: Frame)
    requires forall i :: 0 <= i < |q| ==> Good(q[i], f)
    ensures Lost(q, seg, f) != {} <==>
            exists i :: 0 <= i < |q| && Pos(q[i], f) < Pos(seg, f) && End(seg, f) < End(q[i], f) && !q[i].fin
  {
    if q != [] {
      LostExactly(q[1..], seg, f);
      if Pos(q[0], f) < Pos(seg, f) && End(seg, f) < End(q[0], f) && !q[0].fin {
        assert End(seg, f) in Lost(q, seg, f);
      } else if exists i :: 0 <= i < |q| && Pos(q[i], f) < Pos(seg, f) && End(seg, f) < End(q[i], f) && !q[i].fin {
        var i :| 0 <= i < |q| && Pos(q[i], f) < Pos(seg, f) && End(seg, f) < End(q[i], f) && !q[i].fin;
        assert q[1..][i - 1] == q[i];
      } else {
        forall i | 0 <= i < |q[1..]|
          ensures !(Pos(q[1..][i], f) < Pos(seg, f) && End(seg, f) < End(q[1..][i], f) && !q[1..][i].fin)
        {
          assert q[1..][i] == q[i + 1];
        }
      }
    }
  }

  /** It does happen: bytes 10..20 are queued, bytes 12..14 arrive, and bytes 14..20 are gone. */
  lemma NestedSegmentLoses(s: seq<U8>)
    requires |s| == 100
    ensures var f := Frame(0, 0, s);
            var big, seg := Seg(10, s[10..20], false), Seg(12, s[12..14], false);
            && Chain([big], f, 1) && Good(seg, f)
            && Lost([big], seg, f) == Range(14, 20)
            && forall q, edge :: Queued([big], seg, true, q, f, 1, edge) && 100 <= edge ==> Bytes(q, f) == Range(10, 14)
  {
    var f := Frame(0, 0, s);
    var big, seg := Seg(10, s[10..20], false), Seg(12, s[12..14], false);
    assert [big][1..] == [];
    RangeSplit(10, 14, 20);
    RangeSplit(10, 12, 14);
    assert Bytes([big], f) == Range(10, 20);
    assert Lost([big], seg, f) == Range(14, 20);
    forall q, edge | Queued([big], seg, true, q, f, 1, edge) && 100 <= edge ensures Bytes(q, f) == Range(10, 14) {
      assert Bytes(q, f) == Range(10, 20) - Range(14, 20) + Range(12, 14);
    }
  }

  /** Why the peer has to keep to the window: on an empty queue a segment that runs past the right edge is
      linked as it is, and the queue reaches past rcv_nxt + rcv_wnd. */
  lemma OverrunIsQueued(s: seq<U8>)
    requires |s| == 100
    ensures var f, seg := Frame(0, 0, s), Seg(10, s[10..60], false);
            && Good(seg, f) && !WindowRespected(seg, f, [], 50)
            && forall q :: Queued([], seg, true, q, f, 1, 50) ==> !Within(q, f, 50)
  {
    var f, seg := Frame(0, 0, s), Seg(10, s[10..60], false);
    assert Within([], f, 50);
  }
}
