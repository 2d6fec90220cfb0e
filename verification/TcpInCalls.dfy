/** Runs of whole calls on the receive side of a connection: arrivals, window updates and what the application answers,
    one after the other in the lwIP thread. */
module TcpInCalls {
  import opened TcpStates
  import opened Words
  import opened Seq32
  import opened TcpOoseq
  import opened TcpIn

  datatype Call =
    | Arrive(seg: Seg, copied: bool, synAcked: bool, finAcked: bool, first: Verdict, second: Verdict, quits: bool)
    | Retry(verdict: Verdict, giveUp: bool)
    | Recved(len: U16, mem: bool)
    | SendSegment
    | DropOoseq
    | Close

  /** The peer and the network: what arrives is part of the stream, not too old, and keeps to the window. */
  predicate Genuine(seg: Seg, f: Frame, q: seq<Seg>, wnd: int) {
    Good(seg, f) && f.off - QUARTER / 2 <= Pos(seg, f) && WindowRespected(seg, f, q, wnd)
  }

  predicate Ascending(s: seq<int>) {
    forall i, j :: 0 <= i <= j < |s| ==> s[i] <= s[j]
  }

  predicate Remembered(calls: seq<Call>) {
    forall i :: 0 <= i < |calls| && calls[i].Recved? ==> calls[i].mem
  }

  /** Over every run of calls, from any valid state: what was accepted, and then what waits because it was refused, or
      was thrown away in TIME_WAIT, is the stream up to rcv_nxt; the end of the stream is reported at most once, when
      all of it was accepted; the right edges announced, before the first call and after each one, never move left, and
      lie within the window. If there is always memory, no worthwhile part of the window is kept back: the window
      announced is open wherever the real one is large enough. The state is the one that belongs to both sides
      (`Valid`). Calls with segments that are not genuine are passed over, and so are window updates that find no
      memory after MAX_FAILURES others in a row, of which there were `failed` at first. `off` is the stream position of
      rcv_nxt. */
  method Serve(p: RecvPcb, stream: seq<U8>, start: nat, failed: nat, calls: seq<Call>)
    returns (alive: bool, off: nat, reports: nat, ghost edges: seq<int>)
    requires p.Valid() && p.stream == stream && p.off == start && p.failures <= failed <= MAX_FAILURES
    modifies p
    ensures alive ==> p.Valid() && off == p.off
    ensures alive ==> p.accepted + p.refused_data + p.purged == stream[..Min(off, |stream|)]
    ensures alive ==> p.rcv_ann_wnd <= p.rcv_wnd <= TCP_WND && p.Edge() <= p.rcv_ann_wnd
    ensures alive && !old(p.pending) && Remembered(calls) ==>
              p.rcv_wnd - p.Edge() <= MaxLag(p.mss) && (p.rcv_wnd > MaxLag(p.mss) ==> p.Edge() > 0)
    ensures Ascending(edges) && 0 < |edges| <= |calls| + 1 && edges[0] == start + old(p.Edge())
    ensures alive ==> |edges| == |calls| + 1 && edges[|calls|] == off + p.Edge()
    ensures reports <= 1 && (reports == 1 ==> !old(p.eof) && p.accepted == stream)
    ensures alive ==> (p.eof <==> old(p.eof) || reports == 1)
    ensures alive ==> (p.sides.ourFin <==> old(p.sides.ourFin) || Close in calls)
  {
    hide RecvPcb.QueueValid, RecvPcb.DeliveryValid, RecvPcb.LagValid, RecvPcb.SidesValid, WindowOk, Good,
         WindowRespected, Received, Diff, Genuine, Queued, Taken, Heeded, Open, Writable;
    alive, off, reports, edges := true, start, 0, [start + p.Edge()];
    var failures, i := failed, 0;
    while i < |calls| && alive
      invariant 0 <= i <= |calls| && p.stream == stream && p.mss == old(p.mss)
      invariant reports <= 1 && (reports == 1 ==> !old(p.eof) && p.accepted == stream)
      invariant alive ==> p.Valid() && off == p.off && p.failures <= failures <= MAX_FAILURES
      invariant alive ==> (p.eof <==> old(p.eof) || reports == 1)
      invariant Ascending(edges) && 0 < |edges| <= i + 1 && edges[0] == start + old(p.Edge())
      invariant alive ==> |edges| == i + 1 && edges[i] == off + p.Edge()
      invariant alive && !old(p.pending) && Remembered(calls) ==> !p.pending
      invariant alive ==> (p.sides.ourFin <==> old(p.sides.ourFin) || Close in calls[..i])
    {
      assert calls[..i + 1] == calls[..i] + [calls[i]];
      var reported;
      alive, off, reported, failures := ServeOne(p, off, failures, calls[i], stream);
      reports := reports + if reported then 1 else 0;
      if alive {
        edges := edges + [off + p.Edge()];
      }
      i := i + 1;
    }
    if alive {
      assert calls[..i] == calls;
      Promised(p);
    }
  }

  method ServeOne(p: RecvPcb, start: nat, failed: nat, call: Call, stream: seq<U8>)
    returns (alive: bool, off: nat, reported: bool, failures: nat)
    requires p.Valid() && p.stream == stream && p.off == start && p.failures <= failed <= MAX_FAILURES
    modifies p
    ensures p.stream == stream && p.mss == old(p.mss)
    ensures alive ==> p.Valid() && off == p.off && p.failures <= failures <= MAX_FAILURES
    ensures alive ==> start + old(p.Edge()) <= off + p.Edge()
    ensures old(p.eof) ==> p.accepted == stream && !reported
    ensures if reported then !old(p.eof) && p.accepted == stream && p.eof else alive ==> p.eof == old(p.eof)
    ensures alive && !old(p.pending) && (call.Recved? ==> call.mem) ==> !p.pending
    ensures alive ==> (p.sides.ourFin <==> old(p.sides.ourFin) || call.Close?)
  {
    hide RecvPcb.QueueValid, RecvPcb.DeliveryValid, RecvPcb.LagValid, RecvPcb.SidesValid, WindowOk, Good,
         WindowRespected, Received, Diff, Genuine, Queued, Taken, Heeded, Open, Writable;
    alive, off, reported, failures := true, start, false, failed;
    p.EofFacts();
    match call {
      case Arrive(seg, copied, synAcked, finAcked, first, second, quits) =>
        if !p.Heard(seg, synAcked) || Genuine(seg, Frame(p.rcv_nxt, off, stream), p.ooseq, p.rcv_wnd) {
          var n;
          alive, reported, n := ServeArrival(p, seg, copied, synAcked, finAcked, first, second, quits);
          off := off + n;
        }
      case Retry(verdict, giveUp) =>
        if p.refused_data != [] {
          alive, reported := p.ProcessRefusedData(verdict, giveUp);
        }
      case Recved(len, mem) =>
        if mem || failures < MAX_FAILURES {
          p.Recved(len, mem);
          failures := failures + if mem then 0 else 1;
        }
      case SendSegment =>
        Allowed(p);
        p.Announce();
        failures := 0;
      case DropOoseq =>
        p.FreeOoseq();
      case Close =>
        p.CloseFin();
    }
  }

  lemma Allowed(p: RecvPcb)
    requires p.Valid()
    ensures OfferOk(p.rcv_wnd, p.rcv_ann_wnd, p.Edge(), p.mss, p.eof)
  {
  }

  lemma Promised(p: RecvPcb)
    requires p.Valid()
    ensures p.accepted + p.refused_data + p.purged == p.stream[..Min(p.off, |p.stream|)]
    ensures p.rcv_ann_wnd <= p.rcv_wnd <= TCP_WND && p.Edge() <= p.rcv_ann_wnd
    ensures !p.pending ==> p.rcv_wnd - p.Edge() <= MaxLag(p.mss)
  {
  }

  /** One arrival. `n` is how far rcv_nxt moves. */
  method ServeArrival(p: RecvPcb, seg: Seg, copied: bool, synAcked: bool, finAcked: bool, first: Verdict,
                      second: Verdict, quits: bool)
    returns (alive: bool, closed: bool, n: nat)
    requires p.Valid() && p.failures <= MAX_FAILURES
    requires !p.Heard(seg, synAcked) || Genuine(seg, p.F(), p.ooseq, p.rcv_wnd)
    modifies p
    ensures p.stream == old(p.stream) && p.failures == old(p.failures) && p.pending == old(p.pending)
            && p.mss == old(p.mss)
    ensures alive ==> p.Valid() && p.off == old(p.off) + n && p.off + p.Edge() == old(p.off + p.Edge())
    ensures old(p.eof) ==> p.accepted == p.stream && !closed
    ensures if closed then !old(p.eof) && p.eof && p.accepted == p.stream else alive ==> p.eof == old(p.eof)
    ensures p.sides.ourFin == old(p.sides.ourFin)
  {
    hide RecvPcb.QueueValid, RecvPcb.DeliveryValid, RecvPcb.LagValid, WindowOk, Good, WindowRespected, Received, Diff,
         Queued, Open;
    ghost var f, q, wnd := p.F(), p.ooseq, p.rcv_wnd;
    var heard := p.Heard(seg, synAcked);
    p.EofFacts();
    p.SidesFacts();
    var dropped, freed, data, gotFin;
    alive, closed, dropped, freed, data, gotFin := p.Input(seg, copied, synAcked, finAcked, first, second, quits);
    n := 0;
    if !dropped && heard {
      Moved(f, q, wnd, seg, copied, p.F(), p.ooseq, data, gotFin);
      n := |data| + if gotFin then 1 else 0;
    }
  }

  lemma Moved(f: Frame, q: seq<Seg>, wnd: int, seg: Seg, copied: bool, f': Frame, q': seq<Seg>, data: seq<U8>,
              fin: bool)
    requires Received(f, q, wnd, seg, copied, f', q', data, fin)
    ensures f'.off == f.off + |data| + if fin then 1 else 0
  {
  }

  /** A segment that brings the whole stream to an empty queue is taken at once. */
  lemma WholeStream(f: Frame, wnd: int, seg: Seg, f': Frame, q': seq<Seg>, data: seq<U8>, fin: bool)
    requires Received(f, [], wnd, seg, true, f', q', data, fin)
    requires f.off == 0 == Pos(seg, f) && seg.data == f.stream && seg.fin && |f.stream| < wnd
    ensures fin && data == f.stream
  {
    BytesBounds(q', f', f'.off + 1);
    assert |data| < |f.stream| ==> |data| in Held(f', q');
  }

  /** What CLOSING does to refused data: our SYN is acknowledged, the application closes, the whole stream comes in one
      segment and is refused, and the last acknowledgement arrives while it still is. The connection is at its end, none
      of the stream was accepted, and nothing waits. */
  method RefusedIsLost(nxt: U32, mss: U16, stream: seq<U8>) returns (p: RecvPcb)
    requires 0 < |stream| <= 1000
    ensures p.Valid() && p.state == TIME_WAIT && p.off == |stream| + 1
    ensures p.stream == stream && p.accepted == p.refused_data == [] && p.purged == stream && !p.eof
  {
    hide RecvPcb.LagValid, WindowOk, Received, Diff, Near, RecvPcb.QueueValid;
    p := ClosedFirst(nxt, mss, stream);
    var seg := Seg(nxt, stream, true);
    AtStart(seg, p.F());
    ghost var f, wnd := p.F(), p.rcv_wnd;
    var alive, closed, dropped, freed, data, gotFin := p.Input(seg, true, false, false, Refuse, Refuse, false);
    WholeStream(f, wnd, seg, p.F(), p.ooseq, data, gotFin);
    alive, closed, dropped, freed, data, gotFin :=
      p.Input(Seg(p.rcv_nxt, [], false), true, false, true, Refuse, Refuse, false);
  }

  method ClosedFirst(nxt: U32, mss: U16, stream: seq<U8>) returns (p: RecvPcb)
    requires stream != []
    ensures fresh(p) && p.Valid() && p.state == FIN_WAIT_1 && p.sides == Sides(true, true, false, false, false)
    ensures p.F() == Frame(nxt, 0, stream) && p.rcv_wnd == TCP_WND && p.failures == 0 && p.ooseq == []
    ensures p.accepted == p.refused_data == p.purged == [] && !p.eof && !p.rx_closed
  {
    hide RecvPcb.LagValid, WindowOk, Received, Diff, Near, RecvPcb.QueueValid;
    p := new RecvPcb(nxt, mss, stream);
    var alive, closed, dropped, freed, data, gotFin :=
      p.Input(Seg(nxt, [], false), true, true, false, Refuse, Refuse, false);
    p.CloseFin();
  }

  lemma AtStart(seg: Seg, f: Frame)
    requires seg.seqno == f.nxt && f.off == 0 && seg.data == f.stream && |f.stream| <= 1000
    ensures Pos(seg, f) == 0 && Near(seg, f) && FromStream(seg, f)
  {
    DiffAdd(f.nxt, 0, f.nxt);
  }
}
