/** The receive side of a connection: reassembly, delivery to a callback that may refuse, and the advertised
    window (tcp_in.c, and the window and refused-data part of tcp.c). */
module TcpIn {
  import opened TcpStates
  import opened Words
  import opened Seq32
  import opened TcpOoseq

  const TCP_WND: int := 32 * 1024

  /** Moving rcv_nxt forward changes no stream position. */
  ghost function Advanced(f: Frame, n: int): (r: Frame)
    ensures r.off == f.off + n && r.stream == f.stream
  {
    Frame(Add(f.nxt, n), f.off + n, f.stream)
  }

  lemma Rebase(q: seq<Seg>, f: Frame, lo: int, n: int, edge: int)
    requires 0 <= n <= 0x2_0000 && f.off <= lo && Chain(q, f, lo)
    ensures Chain(q, Advanced(f, n), lo)
    ensures Bytes(q, Advanced(f, n)) == Bytes(q, f)
    ensures Within(q, Advanced(f, n), edge) <==> Within(q, f, edge)
  {
    if q != [] {
      DiffRebase(q[0].seqno, f.nxt, n);
      Rebase(q[1..], f, End(q[0], f), n, edge);
    }
  }

  /** Taking the head of the queue that is next in sequence. */
  lemma TakeHead(q: seq<Seg>, f: Frame, edge: int)
    requires q != [] && Chain(q, f, f.off) && q[0].seqno == f.nxt && 0 <= f.off
    requires Within(q, f, edge)
    ensures Pos(q[0], f) == f.off && q[0].TcpLen() <= 0x1_0000
    ensures 0 < q[0].TcpLen() <= edge - f.off
    ensures f.off + |q[0].data| <= |f.stream| && q[0].data == f.stream[f.off..f.off + |q[0].data|]
    ensures q[0].fin ==> q[1..] == [] && f.off + |q[0].data| == |f.stream|
    ensures var f' := Advanced(f, q[0].TcpLen());
            && Chain(q[1..], f', f'.off) && Within(q[1..], f', edge)
            && Bytes(q, f) == Range(f.off, f.off + |q[0].data|) + Bytes(q[1..], f')
  {
    DiffAdd(f.nxt, 0, f.nxt);
    GoodNear(q[0], f);
    Rebase(q[1..], f, End(q[0], f), q[0].TcpLen(), edge);
  }

  lemma AdvancedTwice(f: Frame, a: int, b: int)
    ensures Advanced(Advanced(f, a), b) == Advanced(f, a + b)
  {
  }

  lemma RangeSplit(lo: int, mid: int, hi: int)
    requires lo <= mid <= hi
    ensures Range(lo, hi) == Range(lo, mid) + Range(mid, hi)
  {
  }

  /** The comparisons of tcp_update_rcv_ann_wnd, in terms of the distance of the announced edge from rcv_nxt. */
  lemma CompareEdges(nxt: U32, wnd: int, edge: U32, step: int)
    requires 0 <= wnd <= TCP_WND && 0 <= step <= TCP_WND && -QUARTER < Diff(edge, nxt) <= wnd
    ensures SeqGeq(Add(nxt, wnd), Add(edge, step)) <==> Diff(edge, nxt) + step <= wnd
    ensures SeqGt(nxt, edge) <==> Diff(edge, nxt) < 0
    ensures (Add(nxt, wnd) - edge) % WRAP == wnd - Diff(edge, nxt)
    ensures Diff(edge, nxt) >= 0 ==> Cast16(edge, nxt) == Diff(edge, nxt)
  {
    DiffAdd(nxt, wnd, nxt);
    DiffAdd(edge, step, nxt);
    DiffNear(Add(nxt, wnd), Add(edge, step), nxt);
    DiffNear(Add(nxt, wnd), edge, nxt);
    DiffNear(nxt, edge, nxt);
  }

  /** The part of the advertised window the C code keeps: rcv_wnd, rcv_ann_wnd and the distance of
      rcv_ann_right_edge from rcv_nxt. */
  ghost predicate WindowOk(wnd: int, ann: int, edge: int) {
    && 0 <= ann <= wnd <= TCP_WND
    && edge <= ann
    && -QUARTER < edge
  }

  /** How far the announced edge lies behind the real one: no more than a window for each update that failed and one
      more. */
  ghost predicate LagOk(wnd: int, edge: int, failures: nat, eof: bool) {
    wnd - edge <= TCP_WND * (1 + failures) + if eof then 1 else 0
  }

  function Max(x: int, y: int): int {
    if x < y then y else x
  }

  /** What is offered next: the whole window, if the right edge then moves by a worthwhile amount, or what is left of
      the window announced. */
  ghost predicate Offered(wnd: int, ann: int, edge: int, mss: int) {
    ann == if edge + Min(TCP_WND / 2, mss) <= wnd then wnd else if edge < 0 then 0 else edge
  }

  /** That is so at all times, but for the one number that the FIN gives back. */
  ghost predicate OfferOk(wnd: int, ann: int, edge: int, mss: int, eof: bool) {
    Offered(wnd, ann, edge, mss) || (eof && Offered(wnd - 1, ann, edge, mss))
  }

  /** The announced edge is never this far behind the real one unless an announcement is owed. */
  function MaxLag(mss: int): int {
    Max(Min(TCP_WND / 2, mss), Min(TCP_WND / 4, 4 * 1460))
  }

  ghost predicate PromptOk(wnd: int, edge: int, mss: int, eof: bool) {
    wnd - edge < MaxLag(mss) + if eof then 1 else 0
  }

  lemma LagGrows(wnd: int, edge: int, failures: nat, eof: bool, wnd': int)
    requires LagOk(wnd, edge, failures, eof) && 0 <= wnd && wnd' <= TCP_WND
    ensures LagOk(wnd', edge, failures + 1, eof)
  {
  }

  /** After an announcement the edge stands where it was offered. */
  lemma AnnouncedLag(wnd: int, ann: int, edge: int, mss: int, eof: bool)
    requires OfferOk(wnd, ann, edge, mss, eof) && WindowOk(wnd, ann, edge) && mss >= 0
    ensures LagOk(wnd, ann, 0, eof) && OfferOk(wnd, ann, ann, mss, eof) && PromptOk(wnd, ann, mss, eof)
  {
  }

  /** `data`, and a FIN if `fin` is set, came off the front of the queue `all`; `q` is left. */
  ghost predicate Joined(all: seq<Seg>, f0: Frame, data: seq<U8>, fin: bool, q: seq<Seg>, f: Frame) {
    && f.stream == f0.stream && f.off == f0.off + |data| + (if fin then 1 else 0)
    && 0 <= f0.off && f0.off + |data| <= |f.stream| && data == f.stream[f0.off..f0.off + |data|]
    && (fin ==> q == [] && f.off == |f.stream| + 1)
    && Chain(q, f, f.off)
    && Range(f0.off, f0.off + |data|) + Bytes(q, f) == Bytes(all, f0)
    && (fin || HasFin(q) <==> HasFin(all))
  }

  lemma TakeFirst(head: Seg, q: seq<Seg>, f: Frame, edge: int)
    requires Chain([head] + q, f, f.off) && Within([head] + q, f, edge) && head.seqno == f.nxt && 0 <= f.off
    ensures var f' := Advanced(f, head.TcpLen());
            && 0 < head.TcpLen() <= edge - f.off
            && Joined([head] + q, f, head.data, head.fin, q, f') && Within(q, f', edge)
  {
    var all := [head] + q;
    assert all[0] == head && all[1..] == q;
    TakeHead(all, f, edge);
  }

  lemma JoinStep(all: seq<Seg>, f0: Frame, data: seq<U8>, fin: bool, q: seq<Seg>, f: Frame, edge: int)
    requires Joined(all, f0, data, fin, q, f) && Within(q, f, edge) && q != [] && q[0].seqno == f.nxt
    ensures var f' := Advanced(f, q[0].TcpLen());
            && 0 < q[0].TcpLen() <= edge - f.off
            && f' == Advanced(f0, f'.off - f0.off) <== f == Advanced(f0, f.off - f0.off)
    ensures var f' := Advanced(f, q[0].TcpLen());
            Joined(all, f0, data + q[0].data, q[0].fin, q[1..], f') && Within(q[1..], f', edge)
  {
    hide Diff, Good, Add, Advanced, Range, Bytes, Span;
    TakeHead(q, f, edge);
    AdvancedTwice(f0, f.off - f0.off, q[0].TcpLen());
  }

  lemma JoinDone(all: seq<Seg>, f0: Frame, data: seq<U8>, fin: bool, q: seq<Seg>, f: Frame)
    requires Joined(all, f0, data, fin, q, f) && (q != [] ==> q[0].seqno != f.nxt)
    ensures Chain(q, f, f.off + 1) && f.off <= |f.stream| + 1 && (f.off == |f.stream| + 1 ==> q == [])
  {
    if q != [] {
      DiffAdd(f.nxt, 0, f.nxt);
    }
  }

  /** The queue starts above the segment that is next in sequence. */
  lemma AboveNext(seg: Seg, q: seq<Seg>, f: Frame, edge: int)
    requires Good(seg, f) && seg.seqno == f.nxt && Chain(q, f, f.off + 1)
    ensures q != [] ==> q[0].seqno != seg.seqno
    ensures !seg.fin ==> Dropping(seg, q, seg, q, f, edge)
    ensures seg.fin || q == [] ==> Linked(seg, q, [seg], f, edge)
  {
    DiffAdd(f.nxt, 0, f.nxt);
    ChainLower(q, f, f.off + 1, f.off);
    if seg.fin {
      FinLinked(seg, q, f, edge);
    }
    assert [seg][1..] == [];
  }

  /** The stream positions the receiver has: delivered, or queued. */
  ghost function Held(f: Frame, q: seq<Seg>): set<int> {
    Range(0, Min(f.off, |f.stream|)) + Bytes(q, f)
  }

  /** What tcp_receive does with a segment: it consumes `data`, and a FIN if `fin` is set, from the stream;
      what is held afterwards is what was held, without what a queued segment lost to one inside it, and with the
      part of the new segment that lies in the window, if it is in sequence or its copy found memory. */
  ghost predicate Received(f: Frame, q: seq<Seg>, wnd: int, seg: Seg, copied: bool,
                           f': Frame, q': seq<Seg>, data: seq<U8>, fin: bool) {
    var edge := f.off + wnd;
    var inSequence := Pos(seg, f) <= f.off;
    && f' == Advanced(f, |data| + if fin then 1 else 0)
    && 0 <= f.off && f.off + |data| <= |f.stream| && data == f.stream[f.off..f.off + |data|]
    && (fin ==> f'.off == |f.stream| + 1)
    && (f'.off == |f.stream| + 1 ==> q' == [])
    && Chain(q', f', f'.off + 1) && Within(q', f', edge)
    && Held(f', q') == Held(f, q) - (if copied then Lost(q, seg, f) else {})
                       + (if inSequence || copied then Range(Pos(seg, f), Min(End(seg, f), edge)) else {})
    && (fin || HasFin(q') <==>
        || HasFin(q)
        || (seg.fin && f.off <= End(seg, f) < edge && (inSequence || (copied && !Repeats(q, seg)))))
  }

  /** The segment as it reaches the in-sequence branch: without what rcv_nxt has passed already. */
  lemma TrimLeft(orig: Seg, seg: Seg, f: Frame)
    requires Good(orig, f) && Pos(orig, f) <= f.off <= End(orig, f) && (orig.fin || f.off < End(orig, f)) && 0 <= f.off
    requires seg == Seg(f.nxt, orig.data[f.off - Pos(orig, f)..], orig.fin)
    ensures Good(seg, f) && Pos(seg, f) == f.off && End(seg, f) == End(orig, f)
  {
    DiffAdd(f.nxt, 0, f.nxt);
  }

  /** Cutting the segment at the right edge of the window, where the FIN falls off. */
  lemma TrimRight(seg: Seg, c: Seg, f: Frame, wnd: int)
    requires Good(seg, f) && Pos(seg, f) == f.off && 0 < wnd
    requires c == if seg.TcpLen() > wnd then seg.(fin := false, data := seg.data[..wnd]) else seg
    ensures Good(c, f) && c.seqno == seg.seqno && f.off + c.TcpLen() <= f.off + wnd
    ensures End(c, f) == Min(End(seg, f), f.off + wnd)
    ensures c.fin <==> seg.fin && End(seg, f) < f.off + wnd
  {
    if seg.TcpLen() > wnd {
      Prefix(seg, wnd, f);
    }
  }

  lemma LinkedFits(c: Seg, q: seq<Seg>, all: seq<Seg>, f: Frame, edge: int)
    requires Linked(c, q, all, f, edge) && Within(q, f, edge) && Pos(c, f) + c.TcpLen() <= edge
    ensures Chain(all, f, Pos(c, f)) && Within(all, f, edge) && all[0].seqno == c.seqno
  {
  }

  lemma InSequenceHeld(f: Frame, q: seq<Seg>, seg: Seg, kept: int, f': Frame, q': seq<Seg>, data: seq<U8>, fin: bool)
    requires 0 <= Pos(seg, f) <= f.off && f.off <= kept
    requires f'.stream == f.stream && f'.off == f.off + |data| + (if fin then 1 else 0)
    requires f.off + |data| <= |f.stream| && (fin ==> f'.off == |f.stream| + 1)
    requires Range(f.off, f.off + |data|) + Bytes(q', f') == Range(f.off, kept) + Bytes(q, f)
    ensures Held(f', q') == Held(f, q) + Range(Pos(seg, f), kept)
  {
    hide Pos, Bytes;
    RangeSplit(0, f.off, f.off + |data|);
    RangeSplit(0, f.off, kept);
    RangeSplit(0, Pos(seg, f), f.off);
    RangeSplit(Pos(seg, f), f.off, kept);
    assert Held(f', q') == Range(0, f.off) + (Range(f.off, f.off + |data|) + Bytes(q', f'));
  }

  lemma GoodPos(g: Seg, f: Frame)
    requires Good(g, f)
    ensures 0 <= Pos(g, f)
  {
  }

  lemma BehindNext(q: seq<Seg>, seg: Seg, f: Frame)
    requires Chain(q, f, f.off + 1) && Pos(seg, f) <= f.off
    ensures Lost(q, seg, f) == {} && !Repeats(q, seg)
  {
    ChainLower(q, f, f.off + 1, if q == [] then 0 else Pos(q[0], f));
    Behind(q, seg, f);
  }

  lemma InSequenceDone(f: Frame, q: seq<Seg>, wnd: int, orig: Seg, c: Seg, all: seq<Seg>, copied: bool,
                       f': Frame, q': seq<Seg>, data: seq<U8>, fin: bool)
    requires Good(orig, f) && Pos(orig, f) <= f.off && 0 < wnd
    requires Chain(q, f, f.off + 1) && Within(q, f, f.off + wnd)
    requires Pos(c, f) == f.off && End(c, f) == Min(End(orig, f), f.off + wnd)
    requires c.fin <==> orig.fin && f.off <= End(orig, f) < f.off + wnd
    requires f.off <= End(c, f)
    requires Linked(c, q, all, f, f.off + wnd) && Joined(all, f, data, fin, q', f')
    requires f' == Advanced(f, f'.off - f.off)
    requires Chain(q', f', f'.off + 1) && Within(q', f', f.off + wnd) && (f'.off == |f.stream| + 1 ==> q' == [])
    ensures Received(f, q, wnd, orig, copied, f', q', data, fin)
  {
    hide Diff, Add, Good, Advanced, Chain, Within, Bytes, HasFin, Lost;
    GoodPos(orig, f);
    BehindNext(q, orig, f);
    InSequenceHeld(f, q, orig, End(c, f), f', q', data, fin);
  }

  /** The tests tcp_receive makes on an arriving segment, in terms of stream positions. */
  lemma ArrivalTests(seg: Seg, f: Frame, wnd: int)
    requires Good(seg, f) && f.off - QUARTER / 2 <= Pos(seg, f) && 0 <= wnd <= TCP_WND
    ensures SeqBetween(f.nxt, Add(seg.seqno, 1), Add(seg.seqno, seg.TcpLen() - 1)) <==>
            Pos(seg, f) < f.off < Pos(seg, f) + seg.TcpLen()
    ensures Pos(seg, f) < f.off <= End(seg, f) ==> Cast16(f.nxt, seg.seqno) == f.off - Pos(seg, f)
    ensures SeqBetween(seg.seqno, f.nxt, Add(f.nxt, wnd - 1)) <==> f.off <= Pos(seg, f) < f.off + wnd
    ensures f.nxt == seg.seqno <==> Pos(seg, f) == f.off
  {
    hide SeqBetween, Cast16, Add;
    ArrivalOverlap(seg, f);
    ArrivalInWindow(seg, f, wnd);
  }

  lemma ArrivalOverlap(seg: Seg, f: Frame)
    requires Good(seg, f) && f.off - QUARTER / 2 <= Pos(seg, f)
    ensures SeqBetween(f.nxt, Add(seg.seqno, 1), Add(seg.seqno, seg.TcpLen() - 1)) <==>
            Pos(seg, f) < f.off < Pos(seg, f) + seg.TcpLen()
    ensures Pos(seg, f) < f.off <= End(seg, f) ==> Cast16(f.nxt, seg.seqno) == f.off - Pos(seg, f)
  {
    DiffAdd(seg.seqno, 1, f.nxt);
    DiffAdd(seg.seqno, seg.TcpLen() - 1, f.nxt);
    DiffAdd(f.nxt, 0, f.nxt);
    DiffNear(f.nxt, Add(seg.seqno, 1), f.nxt);
    DiffNear(f.nxt, Add(seg.seqno, seg.TcpLen() - 1), f.nxt);
    DiffNear(f.nxt, seg.seqno, f.nxt);
    Cast16Diff(f.nxt, seg.seqno);
  }

  lemma ArrivalInWindow(seg: Seg, f: Frame, wnd: int)
    requires Good(seg, f) && f.off - QUARTER / 2 <= Pos(seg, f) && 0 <= wnd <= TCP_WND
    ensures SeqBetween(seg.seqno, f.nxt, Add(f.nxt, wnd - 1)) <==> f.off <= Pos(seg, f) < f.off + wnd
    ensures f.nxt == seg.seqno <==> Pos(seg, f) == f.off
  {
    DiffAdd(f.nxt, 0, f.nxt);
    DiffAdd(f.nxt, wnd - 1, f.nxt);
    DiffNear(seg.seqno, Add(f.nxt, wnd - 1), f.nxt);
  }

  /** A segment outside the window changes nothing. */
  lemma {:induction false} Outside(f: Frame, q: seq<Seg>, wnd: int, seg: Seg, copied: bool)
    requires Good(seg, f) && 0 <= f.off <= |f.stream| && 0 <= wnd
    requires Chain(q, f, f.off + 1) && Within(q, f, f.off + wnd)
    requires Pos(seg, f) + seg.TcpLen() <= f.off || f.off + wnd <= Pos(seg, f) || wnd == 0
    ensures Received(f, q, wnd, seg, copied, f, q, [], false)
  {
    hide Chain, Within, HasFin, Bytes, Lost, Repeats, Range, Diff, Good;
    assert f.stream[f.off..f.off] == [];
    GoodPos(seg, f);
    OutsideLoses(f, q, wnd, seg);
  }

  lemma {:induction false} OutsideLoses(f: Frame, q: seq<Seg>, wnd: int, seg: Seg)
    requires Good(seg, f) && Chain(q, f, f.off + 1) && Within(q, f, f.off + wnd) && 0 <= wnd
    requires Pos(seg, f) + seg.TcpLen() <= f.off || f.off + wnd <= Pos(seg, f) || wnd == 0
    ensures Lost(q, seg, f) == {}
  {
    if Pos(seg, f) <= f.off {
      ChainLower(q, f, f.off + 1, if q == [] then 0 else Pos(q[0], f));
      Behind(q, seg, f);
    } else {
      LostAbove(q, seg, f, f.off + 1, f.off + wnd);
    }
  }

  lemma LostAbove(q: seq<Seg>, seg: Seg, f: Frame, lo: int, edge: int)
    requires Chain(q, f, lo) && Within(q, f, edge) && edge <= Pos(seg, f)
    ensures Lost(q, seg, f) == {}
  {
    if q != [] {
      LostAbove(q[1..], seg, f, End(q[0], f), edge);
    }
  }

  lemma {:induction false} QueuedReceived(f: Frame, q: seq<Seg>, wnd: int, seg: Seg, copied: bool, q': seq<Seg>)
    requires Good(seg, f) && 0 <= f.off <= |f.stream| && 0 <= wnd
    requires Chain(q, f, f.off + 1) && Within(q, f, f.off + wnd) && f.off < Pos(seg, f) < f.off + wnd
    requires WindowRespected(seg, f, q, wnd)
    requires Queued(q, seg, copied, q', f, f.off + 1, f.off + wnd)
    ensures Received(f, q, wnd, seg, copied, f, q', [], false)
  {
    hide Good, Chain, Within, HasFin, Bytes, Lost, Repeats, Range, Pos, Diff;
    assert Advanced(f, 0) == f;
    assert f.stream[f.off..f.off] == [];
    if copied {
      LostApart(q, seg, f);
    }
    if Repeats(q, seg) {
      RepeatFits(q, seg, f, f.off + 1, f.off + wnd);
    }
  }

  lemma {:induction false} RepeatFits(q: seq<Seg>, seg: Seg, f: Frame, lo: int, edge: int)
    requires Repeats(q, seg) && Chain(q, f, lo) && Within(q, f, edge)
    ensures End(seg, f) <= edge
  {
    if !(q[0].seqno == seg.seqno && |seg.data| <= |q[0].data|) {
      RepeatFits(q[1..], seg, f, End(q[0], f), edge);
    }
  }

  lemma LostApart(q: seq<Seg>, seg: Seg, f: Frame)
    requires Good(seg, f) && f.off < Pos(seg, f)
    ensures Range(0, f.off) !! Lost(q, seg, f)
  {
    LostBehind(q, seg, f);
  }

  lemma LostBehind(q: seq<Seg>, seg: Seg, f: Frame)
    ensures forall p :: p in Lost(q, seg, f) ==> End(seg, f) <= p
  {
  }

  /** What the peer has to keep to: a segment that is to be queued ends inside the window, or comes behind the
      last queued one, where tcp_receive trims it, or repeats a queued one. Otherwise in front of the queue, inside it,
      and on an empty queue it does not trim. */
  predicate WindowRespected(seg: Seg, f: Frame, q: seq<Seg>, wnd: int) {
    || Pos(seg, f) <= f.off
    || Pos(seg, f) + seg.TcpLen() <= f.off + wnd
    || f.off + wnd <= Pos(seg, f)
    || (q != [] && Pos(q[|q| - 1], f) < Pos(seg, f))
    || Repeats(q, seg)
  }

  /** No less will do: the queue stays within the window exactly then. */
  lemma {:induction false} OverrunsIff(q: seq<Seg>, seg: Seg, q': seq<Seg>, f: Frame, wnd: int)
    requires f.off < Pos(seg, f) < f.off + wnd && Within(q, f, f.off + wnd)
    requires Queued(q, seg, true, q', f, f.off + 1, f.off + wnd)
    ensures Within(q', f, f.off + wnd) <==> WindowRespected(seg, f, q, wnd)
  {
    hide Chain, Within, HasFin, Bytes, Lost, Repeats, Range, Pos;
  }

  /** What tcp_receive makes of a segment, if it gets to see it (`heard`): it delivers and queues what it should, or
      queues more than the window holds. */
  ghost predicate Taken(heard: bool, f: Frame, q: seq<Seg>, wnd: int, seg: Seg, copied: bool,
                        f': Frame, q': seq<Seg>, data: seq<U8>, fin: bool) {
    if !heard then f' == f && q' == q && data == [] && !fin
    else if WindowRespected(seg, f, q, wnd) then Received(f, q, wnd, seg, copied, f', q', data, fin)
    else f' == f && data == [] && !fin && Queued(q, seg, copied, q', f, f.off + 1, f.off + wnd)
  }

  lemma NothingTaken(heard: bool, f: Frame, q: seq<Seg>, wnd: int, seg: Seg, copied: bool)
    requires !heard
    ensures Taken(heard, f, q, wnd, seg, copied, f, q, [], false)
  {
  }

  lemma TakenNothing(heard: bool, f: Frame, q: seq<Seg>, wnd: int, wnd': int, seg: Seg, copied: bool, f': Frame,
                     q': seq<Seg>, data: seq<U8>, fin: bool)
    requires Taken(heard, f, q, wnd, seg, copied, f', q', data, fin) && (heard ==> wnd == wnd')
    ensures Taken(heard, f, q, wnd', seg, copied, f', q', data, fin)
    ensures !heard ==> f' == f && q' == q && data == [] && !fin
  {
  }

  lemma ReceivedFacts(f: Frame, q: seq<Seg>, wnd: int, seg: Seg, copied: bool, f': Frame, q': seq<Seg>, data: seq<U8>,
                      fin: bool)
    requires Received(f, q, wnd, seg, copied, f', q', data, fin) && f.off <= |f.stream|
    ensures f'.stream == f.stream && f.off <= f'.off
    ensures f'.off == |f.stream| + 1 <==> fin
    ensures f.stream[..Min(f'.off, |f.stream|)] == f.stream[..f.off] + data
    ensures !fin ==> f'.off <= |f.stream|
  {
  }

  lemma WithinMore(q: seq<Seg>, f: Frame, edge: int, edge': int)
    requires Within(q, f, edge) && edge <= edge'
    ensures Within(q, f, edge')
  {
  }

  /** So many window updates in a row may fail before the announced edge can be a quarter of the circle behind. */
  const MAX_FAILURES: nat := 16000

  /** What the receive callback answers: ERR_OK, an error that is not fatal, or ERR_ABRT. */
  datatype Verdict = Accept | Refuse | Abort

  class RecvPcb {
    var state: State
    var rcv_nxt: U32
    var rcv_wnd: U16
    var rcv_ann_wnd: U16
    var rcv_ann_right_edge: U32
    var mss: U16
    var ooseq: seq<Seg>
    /** Data the callback refused, [] for NULL, and the FIN flag on its pbuf. */
    var refused_data: seq<U8>
    var refused_fin: bool
    var rx_closed: bool
    ghost var stream: seq<U8>
    ghost var off: nat
    /** What the callback has accepted so far, and whether it was told that the stream has ended. */
    ghost var accepted: seq<U8>
    ghost var eof: bool
    /** What was refused and then thrown away, because both FINs were acknowledged. */
    ghost var purged: seq<U8>
    /** How many window updates in a row there was no memory for; and whether an announcement is owed. */
    ghost var failures: nat
    ghost var pending: bool
    /** What has happened on both sides. */
    ghost var sides: Sides

    /** A connection that a SYN has opened; `stream` is what the peer is going to send. */
    constructor (nxt: U32, mss: U16, ghost stream: seq<U8>)
      ensures Valid() && rcv_nxt == nxt && off == 0 && accepted == [] && this.stream == stream
      ensures rcv_wnd == TCP_WND && ooseq == [] && state == SYN_RCVD && failures == 0 && !sides.ourFin && !eof
      ensures refused_data == [] && !rx_closed
    {
      state := SYN_RCVD;
      rcv_nxt, rcv_wnd, rcv_ann_wnd, rcv_ann_right_edge := nxt, TCP_WND, TCP_WND, nxt;
      this.mss, ooseq, refused_data, refused_fin, rx_closed := mss, [], [], false, false;
      this.stream, off, accepted, eof, failures, pending, purged := stream, 0, [], false, 0, true, [];
      sides := Sides(false, false, false, false, false);
      new;
      DiffAdd(nxt, 0, nxt);
    }

    ghost function F(): Frame
      reads `rcv_nxt, `off, `stream
    {
      Frame(rcv_nxt, off, stream)
    }

    ghost function Edge(): int
      reads `rcv_nxt, `rcv_ann_right_edge
    {
      Diff(rcv_ann_right_edge, rcv_nxt)
    }

    /** tcp_update_rcv_ann_wnd: never move the announced right edge to the left; move it to the right only by
        a worthwhile amount. */
    method UpdateRcvAnnWnd() returns (inflation: U32)
      requires rcv_wnd <= TCP_WND && -QUARTER < Edge() <= rcv_wnd
      modifies `rcv_ann_wnd
      ensures rcv_ann_wnd ==
                if Edge() + Min(TCP_WND / 2, mss) <= rcv_wnd then rcv_wnd else if Edge() < 0 then 0 else Edge()
      ensures inflation == if Edge() + Min(TCP_WND / 2, mss) <= rcv_wnd then rcv_wnd - Edge() else 0
      ensures WindowOk(rcv_wnd, rcv_ann_wnd, Edge()) && Offer()
    {
      var new_right_edge := Add(rcv_nxt, rcv_wnd);
      var wanted := Add(rcv_ann_right_edge, Min(TCP_WND / 2, mss));
      CompareEdges(rcv_nxt, rcv_wnd, rcv_ann_right_edge, Min(TCP_WND / 2, mss));
      hide Diff, Add, SeqGeq, SeqGt, Cast16;
      if SeqGeq(new_right_edge, wanted) {
        rcv_ann_wnd := rcv_wnd;
        inflation := (new_right_edge - rcv_ann_right_edge) % WRAP;
      } else {
        if SeqGt(rcv_nxt, rcv_ann_right_edge) {
          rcv_ann_wnd := 0;
        } else {
          rcv_ann_wnd := Cast16(rcv_ann_right_edge, rcv_nxt);
        }
        inflation := 0;
      }
    }

    ghost predicate Offer()
      reads `rcv_nxt, `rcv_wnd, `rcv_ann_wnd, `rcv_ann_right_edge, `mss
    {
      Offered(rcv_wnd, rcv_ann_wnd, Edge(), mss)
    }

    /** Everything but the queue stays; the window invariant and the bound on how far the announced edge lags. */
    ghost predicate WindowValid(lag: int)
      reads `rcv_nxt, `rcv_wnd, `rcv_ann_wnd, `rcv_ann_right_edge
    {
      WindowOk(rcv_wnd, rcv_ann_wnd, Edge()) && -lag < Edge()
    }

    ghost predicate QueueValid()
      reads `rcv_nxt, `rcv_wnd, `ooseq, `off, `stream
    {
      && off <= |stream| + 1
      && (off == |stream| + 1 ==> ooseq == [])
      && Chain(ooseq, F(), off + 1)
      && Within(ooseq, F(), off + rcv_wnd)
    }

    /** rcv_nxt moves over `n` sequence numbers that are now consumed. */
    method Advance(n: nat)
      requires n <= rcv_wnd && rcv_wnd <= TCP_WND && -QUARTER + n < Edge() <= rcv_wnd
      modifies `rcv_nxt, `rcv_wnd, `rcv_ann_wnd, `off
      ensures F() == Advanced(old(F()), n) && rcv_wnd == old(rcv_wnd) - n
      ensures Edge() == old(Edge()) - n
      ensures WindowOk(rcv_wnd, rcv_ann_wnd, Edge()) && Offer()
    {
      DiffRebase(rcv_ann_right_edge, rcv_nxt, n);
      rcv_nxt := Add(rcv_nxt, n);
      off := off + n;
      rcv_wnd := rcv_wnd - n;
      var _ := UpdateRcvAnnWnd();
    }

    /** The loop that moves queued segments that have become next in sequence to the application. `head` is what
        the arriving segment contributed; it is taken first. */
    method JoinQueue(head: Seg) returns (data: seq<U8>, gotFin: bool)
      requires rcv_wnd <= TCP_WND && WindowValid(QUARTER / 2)
      requires head.seqno == rcv_nxt
      requires Chain([head] + ooseq, F(), off) && Within([head] + ooseq, F(), off + rcv_wnd)
      modifies `rcv_nxt, `rcv_wnd, `rcv_ann_wnd, `off, `ooseq
      ensures QueueValid() && WindowOk(rcv_wnd, rcv_ann_wnd, Edge()) && Offer()
      ensures F() == Advanced(old(F()), off - old(off)) && rcv_wnd == old(rcv_wnd) - (off - old(off))
      ensures Edge() == old(Edge()) - (off - old(off))
      ensures Joined([head] + old(ooseq), old(F()), data, gotFin, ooseq, F())
    {
      hide Diff, Good, Add, Advanced, Pos, Chain, Within, HasFin, Bytes, Joined, Offered;
      ghost var all, edge, f0, rest := [head] + ooseq, off + rcv_wnd, F(), ooseq;
      ghost var f := Advanced(f0, head.TcpLen());
      TakeFirst(head, ooseq, f0, edge);
      Advance(head.TcpLen());
      data, gotFin := head.data, head.fin;
      while ooseq != [] && ooseq[0].seqno == rcv_nxt
        invariant f == F() == Advanced(f0, f.off - f0.off) && 0 <= f.off - f0.off && f.off + rcv_wnd == edge
        invariant Edge() == old(Edge()) - (f.off - f0.off) && WindowOk(rcv_wnd, rcv_ann_wnd, Edge()) && Offer()
        invariant Joined(all, f0, data, gotFin, ooseq, f) && Within(ooseq, f, edge)
        decreases |ooseq|
      {
        var cseg := ooseq[0];
        JoinStep(all, f0, data, gotFin, ooseq, f, edge);
        f := Advanced(f, cseg.TcpLen());
        Advance(cseg.TcpLen());
        data := data + cseg.data;
        gotFin := cseg.fin;
        ooseq := ooseq[1..];
      }
      JoinDone(all, f0, data, gotFin, ooseq, f);
    }

    /** The first half of the in-sequence branch of tcp_receive: drop what the arriving segment covers, or
        everything if it carries a FIN, and trim it to the first queued segment that is left. */
    method TrimToQueue(seg: Seg, ghost edge: int) returns (inseg: Seg)
      requires Good(seg, F()) && seg.seqno == rcv_nxt
      requires Chain(ooseq, F(), off + 1)
      modifies `ooseq
      ensures Linked(seg, old(ooseq), [inseg] + ooseq, F(), edge)
    {
      ghost var q, f := ooseq, F();
      AboveNext(seg, ooseq, f, edge);
      hide Dropping, Linked, SeqGeq, SeqGt, Cast16, Good, Chain;
      inseg := seg;
      assert [seg] + [] == [seg];
      if ooseq != [] {
        if inseg.fin {
          while ooseq != []
            decreases |ooseq|
          {
            ooseq := ooseq[1..];
          }
        } else {
          var next, tcplen := ooseq, inseg.TcpLen();
          while next != [] && SeqGeq(Add(inseg.seqno, tcplen), Add(next[0].seqno, |next[0].data|))
            invariant Dropping(seg, q, inseg, next, f, edge)
            invariant next != [] ==> tcplen == |inseg.data|
            decreases |next|
          {
            DropStep(seg, q, inseg, next, f, edge);
            if next[0].fin {
              inseg := inseg.(fin := true);
              tcplen := inseg.TcpLen();
            }
            next := next[1..];
          }
          DropDone(seg, q, inseg, next, f, edge);
          if next != [] && SeqGt(Add(inseg.seqno, tcplen), next[0].seqno) {
            inseg := inseg.(data := inseg.data[..Cast16(next[0].seqno, inseg.seqno)]);
          }
          ooseq := next;
        }
      }
    }

    /** The in-sequence branch of tcp_receive; `orig` is the segment before its front was trimmed. */
    method ReceiveInSequence(seg: Seg, ghost orig: Seg, ghost copied: bool) returns (data: seq<U8>, gotFin: bool)
      requires QueueValid() && WindowValid(QUARTER / 2) && 0 < rcv_wnd
      requires Good(orig, F()) && Pos(orig, F()) <= off <= End(orig, F()) && (orig.fin || off < End(orig, F()))
      requires seg == Seg(rcv_nxt, orig.data[off - Pos(orig, F())..], orig.fin)
      modifies `rcv_nxt, `rcv_wnd, `rcv_ann_wnd, `off, `ooseq
      ensures QueueValid() && WindowOk(rcv_wnd, rcv_ann_wnd, Edge()) && Offer()
      ensures off + rcv_wnd == old(off + rcv_wnd) && off + Edge() == old(off + Edge())
      ensures Received(old(F()), old(ooseq), old(rcv_wnd), orig, copied, F(), ooseq, data, gotFin)
    {
      hide Diff, Add, Good, Chain, Within, HasFin, Bytes, Received, Linked, Joined, Offered;
      ghost var f, q, wnd := F(), ooseq, rcv_wnd;
      TrimLeft(orig, seg, f);
      var inseg := seg;
      if inseg.TcpLen() > rcv_wnd {
        inseg := inseg.(fin := false, data := inseg.data[..rcv_wnd]);
      }
      TrimRight(seg, inseg, f, rcv_wnd);
      ghost var c := inseg;
      inseg := TrimToQueue(inseg, off + rcv_wnd);
      ghost var all := [inseg] + ooseq;
      LinkedFits(c, q, all, f, f.off + wnd);
      data, gotFin := JoinQueue(inseg);
      InSequenceDone(f, q, wnd, orig, c, all, copied, F(), ooseq, data, gotFin);
    }

    /** tcp_receive, for a segment that carries data or a FIN. `copied` tells whether tcp_seg_copy finds memory. A
        segment that does not keep to the window is queued all the same, and makes it reach beyond the window. */
    method Receive(seg: Seg, copied: bool) returns (data: seq<U8>, gotFin: bool)
      requires QueueValid() && WindowValid(QUARTER / 2) && off <= |stream|
      requires Good(seg, F()) && off - QUARTER / 2 <= Pos(seg, F())
      modifies `rcv_nxt, `rcv_wnd, `rcv_ann_wnd, `off, `ooseq
      ensures QueueValid() <==> !copied || old(WindowRespected(seg, F(), ooseq, rcv_wnd))
      ensures WindowOk(rcv_wnd, rcv_ann_wnd, Edge()) && (old(Offer()) ==> Offer())
      ensures off + rcv_wnd == old(off + rcv_wnd) && off + Edge() == old(off + Edge())
      ensures old(WindowRespected(seg, F(), ooseq, rcv_wnd)) ==>
                Received(old(F()), old(ooseq), old(rcv_wnd), seg, copied, F(), ooseq, data, gotFin)
      ensures !old(WindowRespected(seg, F(), ooseq, rcv_wnd)) ==>
                && F() == old(F()) && data == [] && !gotFin
                && Queued(old(ooseq), seg, copied, ooseq, F(), off + 1, off + rcv_wnd)
    {
      hide Diff, Add, Chain, Within, HasFin, Bytes, Lost, Repeats, SeqBetween, Cast16, Offered;
      ghost var f, q, wnd := F(), ooseq, rcv_wnd;
      data, gotFin := [], false;
      ArrivalTests(seg, f, wnd);
      var inseg := seg;
      if SeqBetween(rcv_nxt, Add(seg.seqno, 1), Add(seg.seqno, seg.TcpLen() - 1)) {
        inseg := Seg(rcv_nxt, seg.data[Cast16(rcv_nxt, seg.seqno)..], seg.fin);
        TrimLeft(seg, inseg, f);
        ArrivalTests(inseg, f, wnd);
      }
      if SeqBetween(inseg.seqno, rcv_nxt, Add(rcv_nxt, rcv_wnd - 1)) {
        if rcv_nxt == inseg.seqno {
          data, gotFin := ReceiveInSequence(inseg, seg, copied);
        } else {
          ooseq := QueueSegment(ooseq, inseg, copied, rcv_nxt, rcv_wnd, f);
          if WindowRespected(seg, f, q, wnd) {
            QueuedReceived(f, q, wnd, seg, copied, ooseq);
          }
          if copied {
            OverrunsIff(q, seg, ooseq, f, wnd);
          }
        }
      } else {
        Outside(f, q, wnd, seg, copied);
      }
    }

    /** Accepted bytes and refused data, or what was thrown away of that in TIME_WAIT, are the stream up to rcv_nxt; the
        end of the stream is reported after the last byte was accepted, and is kept for later on refused data. */
    ghost predicate DeliveryValid()
      reads `off, `stream, `accepted, `eof, `refused_data, `refused_fin, `purged, `state
    {
      && off <= |stream| + 1
      && accepted + refused_data + purged == stream[..Min(off, |stream|)]
      && (off == |stream| + 1 <==> eof || refused_fin || purged != [])
      && (refused_fin ==> refused_data != [] && !eof)
      && (eof ==> refused_data == [])
      && (purged != [] ==> refused_data == [] && !refused_fin && !eof && state.TIME_WAIT?)
    }

    /** The announced edge: how far it may lag, what is offered next, and that nothing worthwhile is kept back. */
    ghost predicate LagValid()
      reads `rcv_nxt, `rcv_wnd, `rcv_ann_wnd, `rcv_ann_right_edge, `mss, `eof, `failures, `pending
    {
      && LagOk(rcv_wnd, Edge(), failures, eof)
      && OfferOk(rcv_wnd, rcv_ann_wnd, Edge(), mss, eof)
      && (!pending ==> PromptOk(rcv_wnd, Edge(), mss, eof))
    }

    /** The state is the one that belongs to what happened on both sides. */
    ghost predicate SidesValid()
      reads `state, `sides, `off, `stream
    {
      Stands(state, sides) && (sides.peerFin <==> off == |stream| + 1)
    }

    ghost predicate Valid()
      reads this
    {
      QueueValid() && WindowOk(rcv_wnd, rcv_ann_wnd, Edge()) && DeliveryValid() && LagValid() && SidesValid()
    }

    /** The FIN takes one sequence number of the window that the application will not give back. */
    method ReturnFin()
      requires QueueValid() && WindowOk(rcv_wnd, rcv_ann_wnd, Edge()) && off == |stream| + 1
      modifies `rcv_wnd
      ensures rcv_wnd == Min(old(rcv_wnd) + 1, TCP_WND) && old(rcv_wnd) <= rcv_wnd
      ensures QueueValid() && WindowOk(rcv_wnd, rcv_ann_wnd, Edge())
    {
      if rcv_wnd != TCP_WND {
        rcv_wnd := rcv_wnd + 1;
      }
    }

    lemma RefusedFacts()
      requires Valid()
      ensures refused_fin ==> !Open(state) && off == |stream| + 1
    {
    }

    /** tcp_process_refused_data: offer the refused data again. `closed` tells whether the end of the stream is
        reported, which the callback may answer with ERR_ABRT (`quits`); `alive` is false when a callback aborted the
        connection. */
    method ProcessRefusedData(verdict: Verdict, quits: bool) returns (alive: bool, closed: bool)
      requires Valid() && refused_data != []
      modifies `refused_data, `refused_fin, `rcv_wnd, `accepted, `eof
      ensures alive <==> verdict != Abort && !(closed && quits)
      ensures alive ==> Valid()
      ensures verdict == Accept ==> accepted == old(accepted + refused_data) && refused_data == [] && !refused_fin
      ensures verdict == Refuse ==> accepted == old(accepted) && refused_data == old(refused_data)
                                    && refused_fin == old(refused_fin) && rcv_wnd == old(rcv_wnd) && eof == old(eof)
      ensures verdict == Abort ==> accepted == old(accepted)
      ensures (closed <==> verdict == Accept && old(refused_fin)) && (closed ==> !Open(state))
      ensures verdict == Refuse ==> purged == old(purged)
      ensures closed ==> rcv_wnd == Min(old(rcv_wnd) + 1, TCP_WND)
      ensures if closed then !old(eof) && eof && accepted == stream else eof == old(eof) && rcv_wnd == old(rcv_wnd)
    {
      hide QueueValid, WindowOk, Diff, Add, Good, LagOk, OfferOk, PromptOk, Open;
      RefusedFacts();
      if refused_fin {
        LagFin(rcv_wnd, rcv_ann_wnd, Edge(), mss, failures);
      }
      var refused_flags, data := refused_fin, refused_data;
      refused_data, refused_fin := [], false;
      alive, closed := true, false;
      match verdict
      case Accept =>
        accepted := accepted + data;
        if refused_flags {
          ReturnFin();
          closed, eof := true, true;
          alive := !quits;
        }
      case Abort =>
        alive := false;
      case Refuse =>
        refused_data, refused_fin := data, refused_flags;
    }

    /** `data` and a FIN have come behind what the application has, or was offered. */
    ghost predicate Deliverable(data: seq<U8>, gotFin: bool)
      reads `off, `stream, `accepted, `eof, `refused_data, `refused_fin, `purged, `state
    {
      && off <= |stream| + 1 && accepted + refused_data + purged + data == stream[..Min(off, |stream|)]
      && (data != [] || gotFin ==> refused_data == [] && purged == [])
      && (off == |stream| + 1 <==> eof || refused_fin || purged != [] || gotFin)
      && (refused_fin ==> refused_data != [])
      && (eof || refused_fin ==> !gotFin && data == []) && !(eof && refused_fin) && (eof ==> refused_data == [])
      && (purged != [] ==> refused_data == [] && !refused_fin && !eof && state.TIME_WAIT?)
    }

    /** The delivery part of tcp_input: hand `data` to the callback, keep it if the callback refuses it, and
        report the end of the stream unless data is still waiting. */
    method Deliver(data: seq<U8>, gotFin: bool, verdict: Verdict, quits: bool) returns (alive: bool, closed: bool)
      requires WindowOk(rcv_wnd, rcv_ann_wnd, Edge()) && LagValid() && SidesValid() && Deliverable(data, gotFin)
      requires data != [] || gotFin ==> QueueValid()
      modifies `refused_data, `refused_fin, `rcv_wnd, `accepted, `eof
      ensures alive ==> (Valid() <==> old(QueueValid()))
      ensures alive <==> (data == [] || (!rx_closed && verdict != Abort)) && !(closed && quits)
      ensures (alive || closed) && data != [] ==>
                if verdict == Accept then accepted == old(accepted) + data && refused_data == []
                else accepted == old(accepted) && refused_data == data
      ensures data == [] ==> accepted == old(accepted) && refused_data == old(refused_data)
      ensures closed <==> (data == [] || (!rx_closed && verdict != Abort)) && gotFin && refused_data == []
      ensures closed ==> !old(eof) && eof && accepted == stream
      ensures !closed ==> eof == old(eof) && rcv_wnd == old(rcv_wnd)
      ensures closed ==> rcv_wnd == Min(old(rcv_wnd) + 1, TCP_WND)
    {
      hide QueueValid, WindowOk, Diff, Add, SidesValid, LagOk, OfferOk, PromptOk;
      if !eof {
        LagFin(rcv_wnd, rcv_ann_wnd, Edge(), mss, failures);
      }
      alive, closed := true, false;
      if data != [] {
        if rx_closed || verdict == Abort {
          alive := false;
          return;
        }
        if verdict == Accept {
          accepted := accepted + data;
        } else {
          refused_data := data;
        }
      }
      if gotFin {
        if refused_data != [] {
          refused_fin := true;
        } else {
          ReturnFin();
          closed, eof := true, true;
          alive := !quits;
        }
      }
    }

    /** The segment has something for tcp_receive, which is called once our SYN is acknowledged. */
    predicate Heard(seg: Seg, synAcked: bool)
      reads `state
    {
      seg.TcpLen() > 0 && Open(state) && (state.SYN_RCVD? ==> synAcked)
    }

    /** An arriving segment leaves the queue in order: there is nothing to receive, or no memory to queue it, or it
        keeps to the window. */
    ghost predicate Fitting(seg: Seg, copied: bool, synAcked: bool)
      reads `rcv_nxt, `rcv_wnd, `ooseq, `off, `stream, `state
    {
      !Heard(seg, synAcked) || !copied || WindowRespected(seg, F(), ooseq, rcv_wnd)
    }

    lemma SidesFacts()
      requires SidesValid()
      ensures (Open(state) <==> !sides.peerFin) && (Writable(state) <==> !sides.ourFin)
      ensures state.TIME_WAIT? ==>
                !sides.peerFirst && forall finAcked, gotFin :: !gotFin ==> Heeded(sides, sides, false, finAcked, gotFin)
    {
    }

    lemma NothingFits(seg: Seg, copied: bool, synAcked: bool)
      ensures !Heard(seg, synAcked) ==> Fitting(seg, copied, synAcked)
      ensures Heard(seg, synAcked) ==> Open(state) && seg.TcpLen() > 0
    {
    }

    /** Once the end was reported, nothing waits and nothing more comes. */
    lemma EofFacts()
      requires Valid()
      ensures eof ==> refused_data == [] && !Open(state) && accepted == stream
      ensures purged != [] ==> state.TIME_WAIT? && !eof
    {
    }

    /** tcp_receive, as tcp_process calls it. */
    method Hear(seg: Seg, copied: bool) returns (data: seq<U8>, gotFin: bool)
      requires QueueValid() && WindowOk(rcv_wnd, rcv_ann_wnd, Edge()) && DeliveryValid() && LagValid()
      requires failures <= MAX_FAILURES && refused_data == [] && off <= |stream|
      requires Good(seg, F()) && off - QUARTER / 2 <= Pos(seg, F())
      modifies `rcv_nxt, `rcv_wnd, `rcv_ann_wnd, `off, `ooseq
      ensures QueueValid() <==> !copied || old(WindowRespected(seg, F(), ooseq, rcv_wnd))
      ensures WindowOk(rcv_wnd, rcv_ann_wnd, Edge()) && LagValid() && Deliverable(data, gotFin)
      ensures (data != [] || gotFin ==> QueueValid()) && off + Edge() == old(off + Edge())
      ensures off + rcv_wnd == old(off + rcv_wnd)
      ensures off == |stream| + 1 <==> gotFin
      ensures Taken(true, old(F()), old(ooseq), old(rcv_wnd), seg, copied, F(), ooseq, data, gotFin)
    {
      hide QueueValid, Diff, Add, Good, Received, WindowRespected, Queued, LagOk, OfferOk, PromptOk, WindowOk;
      ghost var f, q, wnd, edge := F(), ooseq, rcv_wnd, Edge();
      ghost var respected := WindowRespected(seg, f, q, wnd);
      OffersWhole(rcv_wnd, rcv_ann_wnd, Edge(), mss, failures);
      data, gotFin := Receive(seg, copied);
      LagMoves(wnd, edge, rcv_wnd, rcv_ann_wnd, Edge(), mss, failures);
      if respected {
        ReceivedFacts(f, q, wnd, seg, copied, F(), ooseq, data, gotFin);
      }
    }

    /** The part of tcp_process behind tcp_receive. */
    method Move(gotFin: bool, finAcked: bool, ghost data: seq<U8>) returns (freed: bool)
      requires !state.TIME_WAIT? && (gotFin ==> Open(state)) && Deliverable(data, gotFin)
      requires Stands(state, sides) && (off == |stream| + 1 <==> sides.peerFin || gotFin)
      modifies `state, `refused_data, `refused_fin, `purged, `sides
      ensures freed <==> old(sides.ourFin) && finAcked && old(sides.peerFirst)
      ensures (!freed ==> SidesValid()) && (Writable(state) <==> old(Writable(state)))
      ensures Heeded(old(sides), sides, old(state).SYN_RCVD?, finAcked, gotFin)
      ensures Deliverable(data, gotFin)
      ensures if old(state).CLOSING? && finAcked then purged == old(refused_data) && refused_data == []
              else purged == old(purged) && refused_data == old(refused_data)
    {
      freed := state.LAST_ACK? && finAcked;
      NextStands(state, sides, gotFin, finAcked);
      hide Stands, Writable, Open, NextState;
      ghost var x := sides;
      sides := Sides(x.up || state.SYN_RCVD?, x.ourFin, x.ourAcked || (x.ourFin && finAcked), x.peerFin || gotFin,
                     x.peerFirst || (gotFin && !x.ourFin));
      state := NextState(state, gotFin, finAcked);
      if state.TIME_WAIT? {
        purged, refused_data, refused_fin := refused_data, [], false;
      }
    }

    lemma NothingHeard()
      requires DeliveryValid()
      ensures Deliverable([], false) && off <= |stream| + 1
    {
    }

    /** What tcp_process does with a segment: receive what it carries, and move on to the next state. `synAcked` and
        `finAcked` tell whether it acknowledges our SYN and our FIN. In TIME_WAIT what is still refused is thrown away;
        a connection in LAST_ACK is `freed`. */
    method Process(seg: Seg, copied: bool, synAcked: bool, finAcked: bool)
      returns (data: seq<U8>, gotFin: bool, freed: bool)
      requires Valid() && failures <= MAX_FAILURES && (refused_data != [] ==> seg.TcpLen() == 0) && !state.TIME_WAIT?
      requires Heard(seg, synAcked) ==> Good(seg, F()) && off - QUARTER / 2 <= Pos(seg, F())
      modifies `rcv_nxt, `rcv_wnd, `rcv_ann_wnd, `off, `ooseq, `state, `refused_data, `refused_fin, `purged, `sides
      ensures (QueueValid() <==> old(Fitting(seg, copied, synAcked))) && (data != [] || gotFin ==> QueueValid())
      ensures WindowOk(rcv_wnd, rcv_ann_wnd, Edge()) && LagValid() && Deliverable(data, gotFin)
      ensures off + Edge() == old(off + Edge()) && off + rcv_wnd == old(off + rcv_wnd)
      ensures Taken(old(Heard(seg, synAcked)), old(F()), old(ooseq), old(rcv_wnd), seg, copied, F(), ooseq, data,
                gotFin)
      ensures freed <==> old(sides.ourFin) && finAcked && old(sides.peerFirst)
      ensures (!freed ==> SidesValid()) && (Writable(state) <==> old(Writable(state)))
      ensures Heeded(old(sides), sides, synAcked && old(state).SYN_RCVD?, finAcked, gotFin)
      ensures if old(state).CLOSING? && finAcked then purged == old(refused_data) && refused_data == []
              else purged == old(purged) && refused_data == old(refused_data)
    {
      hide QueueValid, Diff, Add, Good, Received, WindowRespected, Queued, LagValid, WindowOk, Deliverable,
           DeliveryValid, Stands, Open, Writable;
      data, gotFin, freed := [], false, false;
      StandsFacts(state, sides);
      NothingHeard();
      if state.SYN_RCVD? && !synAcked {
        return;
      }
      if seg.TcpLen() > 0 && Open(state) {
        data, gotFin := Hear(seg, copied);
      }
      freed := Move(gotFin, finAcked, data);
    }

    /** The part of tcp_input before tcp_process: refused data is offered again. */
    method OfferAgain(seg: Seg, verdict: Verdict, quits: bool) returns (alive: bool, closed: bool, dropped: bool)
      requires Valid()
      modifies `refused_data, `refused_fin, `rcv_wnd, `accepted, `eof
      ensures dropped <==>
                old(refused_data) != []
                && if verdict == Accept then old(refused_fin) && quits else verdict == Abort || seg.TcpLen() > 0
      ensures (alive ==> Valid()) && (!dropped ==> alive) && (closed && !alive ==> quits) && (old(eof) ==> alive)
      ensures closed <==> old(refused_data) != [] && verdict == Accept && old(refused_fin)
      ensures alive <==> !(closed && quits) && !(old(refused_data) != [] && verdict == Abort)
      ensures if closed then !old(eof) && eof && accepted == stream else eof == old(eof)
      ensures accepted == old(accepted) + if verdict == Accept then old(refused_data) else []
      ensures alive ==> refused_data == if verdict == Accept then [] else old(refused_data)
      ensures forall c, a :: Fitting(seg, c, a) == old(Fitting(seg, c, a))
      ensures rcv_wnd == (if closed then Min(old(rcv_wnd) + 1, TCP_WND) else old(rcv_wnd)) && (Open(state) ==> !closed)
    {
      hide QueueValid, DeliveryValid, WindowOk, Diff, Good, WindowRespected, LagValid, Stands, Open;
      EofFacts();
      alive, closed, dropped := true, false, false;
      if refused_data != [] {
        alive, closed := ProcessRefusedData(verdict, quits);
        dropped := !alive || (refused_data != [] && seg.TcpLen() > 0);
      }
    }

    /** The part of tcp_input from tcp_process on. */
    method Arrive(seg: Seg, copied: bool, synAcked: bool, finAcked: bool, verdict: Verdict, quits: bool)
      returns (alive: bool, closed: bool, freed: bool, recv_data: seq<U8>, gotFin: bool)
      requires Valid() && failures <= MAX_FAILURES && (refused_data != [] ==> seg.TcpLen() == 0) && !state.TIME_WAIT?
      requires Heard(seg, synAcked) ==> Good(seg, F()) && off - QUARTER / 2 <= Pos(seg, F())
      modifies `rcv_nxt, `rcv_wnd, `rcv_ann_wnd, `off, `ooseq, `state, `refused_data, `refused_fin, `purged, `sides,
               `accepted, `eof
      ensures alive ==> (Valid() <==> old(Fitting(seg, copied, synAcked))) && off + Edge() == old(off + Edge())
      ensures var wnd := old(off + rcv_wnd) - off; rcv_wnd == if closed then Min(wnd + 1, TCP_WND) else wnd
      ensures closed <==> !freed && gotFin && (recv_data == [] || (!rx_closed && verdict == Accept))
      ensures alive <==> !freed && (recv_data == [] || (!rx_closed && verdict != Abort)) && !(closed && quits)
      ensures if closed then !old(eof) && eof && accepted == stream else eof == old(eof)
      ensures Taken(old(Heard(seg, synAcked)), old(F()), old(ooseq), old(rcv_wnd), seg, copied,
                    F(), ooseq, recv_data, gotFin)
      ensures alive && recv_data != [] ==>
                if verdict == Accept then accepted == old(accepted) + recv_data && refused_data == []
                else accepted == old(accepted) && refused_data == recv_data
      ensures recv_data == [] ==> accepted == old(accepted)
      ensures freed <==> old(sides.ourFin) && finAcked && old(sides.peerFirst)
      ensures (!freed ==> SidesValid()) && (Writable(state) <==> old(Writable(state)))
      ensures Heeded(old(sides), sides, synAcked && old(state).SYN_RCVD?, finAcked, gotFin)
      ensures if old(state).CLOSING? && finAcked then purged == old(refused_data) else purged == old(purged)
    {
      hide QueueValid, DeliveryValid, Deliverable, WindowOk, Diff, Good, Received, WindowRespected, Queued, Taken,
           LagValid, Open, Stands, Writable, Heeded, SidesValid;
      EofFacts();
      SidesFacts();
      NothingFits(seg, copied, synAcked);
      ghost var f, q, wnd, heard := F(), ooseq, rcv_wnd, Heard(seg, synAcked);
      recv_data, gotFin, freed := Process(seg, copied, synAcked, finAcked);
      TakenNothing(heard, f, q, wnd, wnd, seg, copied, F(), ooseq, recv_data, gotFin);
      alive, closed := false, false;
      if !freed {
        alive, closed := Deliver(recv_data, gotFin, verdict, quits);
      }
    }

    /** tcp_input for a segment of this connection, as far as receiving goes. A segment with data is dropped
        while refused data cannot be delivered. `first` answers the refused data, `second` the new data, `quits` the
        report that the stream has ended. */
    method Input(seg: Seg, copied: bool, synAcked: bool, finAcked: bool, first: Verdict, second: Verdict, quits: bool)
      returns (alive: bool, closed: bool, dropped: bool, freed: bool, recv_data: seq<U8>, gotFin: bool)
      requires Valid() && failures <= MAX_FAILURES
      requires Heard(seg, synAcked) ==> Good(seg, F()) && off - QUARTER / 2 <= Pos(seg, F())
      modifies `rcv_nxt, `rcv_wnd, `rcv_ann_wnd, `off, `ooseq, `state, `refused_data, `refused_fin, `purged, `sides,
               `accepted, `eof
      ensures alive ==>
                (Valid() <==> dropped || old(Fitting(seg, copied, synAcked))) && off + Edge() == old(off + Edge())
      ensures alive <==>
                && (if dropped then first == Refuse else !freed && (recv_data == [] || (!rx_closed && second != Abort)))
                && !(closed && quits)
      ensures closed <==>
                || (!old(state).TIME_WAIT? && old(refused_data) != [] && first == Accept && old(refused_fin))
                || (!dropped && !freed && gotFin && (recv_data == [] || (!rx_closed && second == Accept)))
      ensures if closed then !old(eof) && eof && accepted == stream else alive ==> eof == old(eof)
      ensures old(eof) ==> accepted == old(accepted)
      ensures dropped <==>
                !old(state).TIME_WAIT? && old(refused_data) != []
                && if first == Accept then old(refused_fin) && quits else first == Abort || seg.TcpLen() > 0
      ensures var wnd := old(off + rcv_wnd) - off; rcv_wnd == if closed then Min(wnd + 1, TCP_WND) else wnd
      ensures dropped ==> F() == old(F()) && ooseq == old(ooseq) && state == old(state) && sides == old(sides)
      ensures dropped || (recv_data == [] && !old(state).TIME_WAIT?) ==>
                accepted == old(accepted) + if first == Accept then old(refused_data) else []
      ensures !dropped ==> Taken(old(Heard(seg, synAcked)), old(F()), old(ooseq), old(rcv_wnd), seg, copied,
                                 F(), ooseq, recv_data, gotFin)
      ensures !dropped && alive && recv_data != [] ==>
                if second == Accept then accepted == old(accepted + refused_data) + recv_data && refused_data == []
                else accepted == old(accepted + refused_data) && refused_data == recv_data
      ensures freed <==> !dropped && old(sides.ourFin) && finAcked && old(sides.peerFirst)
      ensures (!freed ==> SidesValid()) && (Writable(state) <==> old(Writable(state)))
      ensures !dropped ==> Heeded(old(sides), sides, synAcked && old(state).SYN_RCVD?, finAcked, gotFin)
      ensures old(state).TIME_WAIT? ==> alive && state.TIME_WAIT? && sides == old(sides)
      ensures alive ==>
                if !dropped && old(state).CLOSING? && finAcked && first == Refuse
                then purged == old(refused_data) else purged == old(purged)
    {
      hide Add, LagOk, OfferOk, PromptOk, QueueValid, DeliveryValid, Deliverable, WindowOk, Diff, Good, Received,
           WindowRespected, Queued, Taken, LagValid, Stands, Writable, Open, Fitting, Heard, SidesValid, Heeded;
      EofFacts();
      SidesFacts();
      alive, closed, dropped, freed, recv_data, gotFin := true, false, false, false, [], false;
      NothingFits(seg, copied, synAcked);
      if !state.TIME_WAIT? {
        alive, closed, dropped := OfferAgain(seg, first, quits);
        if !dropped {
          ghost var f, q, wnd, heard := F(), ooseq, rcv_wnd, Heard(seg, synAcked);
          var ended;
          alive, ended, freed, recv_data, gotFin := Arrive(seg, copied, synAcked, finAcked, second, quits);
          TakenNothing(heard, f, q, wnd, old(rcv_wnd), seg, copied, F(), ooseq, recv_data, gotFin);
          closed := closed || ended;
        }
      } else {
        NothingTaken(false, F(), ooseq, rcv_wnd, seg, copied);
      }
    }

    /** tcp_close_shutdown_fin, as far as the state goes: our FIN is queued. */
    method CloseFin()
      requires Valid()
      modifies `state, `sides
      ensures Valid() && sides == old(sides).(ourFin := true)
    {
      hide QueueValid, WindowOk, LagValid, Diff;
      match state {
        case SYN_RCVD => state := FIN_WAIT_1;
        case ESTABLISHED => state := FIN_WAIT_1;
        case CLOSE_WAIT => state := LAST_ACK;
        case _ =>
      }
      sides := sides.(ourFin := true);
    }

    method Grow(len: U16)
      requires Valid()
      modifies `rcv_wnd
      ensures QueueValid() && DeliveryValid() && rcv_wnd == Min(old(rcv_wnd) + len, TCP_WND)
    {
      hide Chain, Within, Diff;
      rcv_wnd := Grown(rcv_wnd, len);
      WithinMore(ooseq, F(), off + old(rcv_wnd), off + rcv_wnd);
    }

    /** tcp_recved: the application is done with `len` bytes; grow the window, and announce it if and only if the right
        edge moves by a worthwhile amount. There may be no memory for the announcement. */
    method Recved(len: U16, mem: bool)
      requires Valid() && failures <= MAX_FAILURES
      modifies `rcv_wnd, `rcv_ann_wnd, `rcv_ann_right_edge, `failures, `pending
      ensures Valid() && (mem ==> failures <= old(failures)) && failures <= old(failures) + 1
      ensures rcv_wnd == Min(old(rcv_wnd) + len, TCP_WND)
      ensures var due := Max(Min(TCP_WND / 2, mss), Min(TCP_WND / 4, 4 * 1460)) <= rcv_wnd - old(Edge());
              && Edge() == (if due && mem then rcv_wnd else old(Edge())) && (pending <==> due && !mem)
      ensures mem ==> rcv_wnd - Edge() < Max(Min(TCP_WND / 2, mss), Min(TCP_WND / 4, 4 * 1460))
      ensures Edge() == old(Edge()) || Edge() == rcv_ann_wnd
      ensures Edge() >= old(Edge())
    {
      hide QueueValid, DeliveryValid, SidesValid, Diff, LagOk, OfferOk, PromptOk, Offered;
      LagGrows(rcv_wnd, Edge(), failures, eof, Min(rcv_wnd + len, TCP_WND));
      Grow(len);
      var inflation := UpdateRcvAnnWnd();
      UnannouncedLag(rcv_wnd, rcv_ann_wnd, Edge(), mss, inflation, failures, eof);
      pending := false;
      if inflation >= Min(TCP_WND / 4, 4 * 1460) {
        if mem {
          Announce();
        } else {
          failures, pending := failures + 1, true;
        }
      }
    }

    /** Every segment that is sent announces rcv_ann_wnd: the right edge the peer sees never moves left, and
        never past what can be taken; and no worthwhile part of the window is kept back. */
    method Announce()
      requires WindowOk(rcv_wnd, rcv_ann_wnd, Edge()) && OfferOk(rcv_wnd, rcv_ann_wnd, Edge(), mss, eof)
      modifies `rcv_ann_right_edge, `failures, `pending
      ensures WindowOk(rcv_wnd, rcv_ann_wnd, Edge()) && LagValid() && failures == 0 && !pending
      ensures old(Valid()) ==> Valid()
      ensures old(Edge()) <= Edge() == rcv_ann_wnd <= rcv_wnd
    {
      hide QueueValid, DeliveryValid, SidesValid, Diff, LagOk, OfferOk, PromptOk;
      AnnouncedLag(rcv_wnd, rcv_ann_wnd, Edge(), mss, eof);
      failures, pending := 0, false;
      DiffAdd(rcv_nxt, rcv_ann_wnd, rcv_nxt);
      rcv_ann_right_edge := Add(rcv_nxt, rcv_ann_wnd);
    }

    /** tcp_free_ooseq: queued segments may be dropped at any time; the peer sends them again. */
    method FreeOoseq()
      requires Valid()
      modifies `ooseq
      ensures Valid() && ooseq == []
    {
      ooseq := [];
    }
  }

  lemma OffersWhole(wnd: int, ann: int, edge: int, mss: int, failures: nat)
    requires OfferOk(wnd, ann, edge, mss, false) && LagOk(wnd, edge, failures, false) && WindowOk(wnd, ann, edge)
    requires failures <= MAX_FAILURES
    ensures Offered(wnd, ann, edge, mss) && -(QUARTER / 2) < edge
  {
  }

  /** An arrival moves both edges alike. */
  lemma LagMoves(wnd: int, edge: int, wnd': int, ann': int, edge': int, mss: int, failures: nat)
    requires wnd - edge == wnd' - edge' && Offered(wnd', ann', edge', mss)
    ensures LagOk(wnd, edge, failures, false) ==> LagOk(wnd', edge', failures, false)
    ensures OfferOk(wnd', ann', edge', mss, false)
    ensures PromptOk(wnd, edge, mss, false) ==> PromptOk(wnd', edge', mss, false)
  {
  }

  /** What the lag allows, it allows too after the FIN has given back its number. */
  lemma LagFin(wnd: int, ann: int, edge: int, mss: int, failures: nat)
    requires LagOk(wnd, edge, failures, false) && OfferOk(wnd, ann, edge, mss, false)
    ensures LagOk(wnd, edge, failures, true) && OfferOk(wnd, ann, edge, mss, true)
    ensures LagOk(wnd + 1, edge, failures, true) && OfferOk(wnd + 1, ann, edge, mss, true)
    ensures PromptOk(wnd, edge, mss, false) ==> PromptOk(wnd, edge, mss, true) && PromptOk(wnd + 1, edge, mss, true)
  {
  }

  /** What is not worth announcing is less than a window. */
  lemma UnannouncedLag(wnd: int, ann: int, edge: int, mss: int, inflation: int, failures: nat, eof: bool)
    requires wnd <= TCP_WND && inflation == if edge + Min(TCP_WND / 2, mss) <= wnd then wnd - edge else 0
    requires Offered(wnd, ann, edge, mss) && mss >= 0
    ensures inflation < Min(TCP_WND / 4, 4 * 1460) <==> wnd - edge < MaxLag(mss)
    ensures inflation < Min(TCP_WND / 4, 4 * 1460) ==> LagOk(wnd, edge, failures, eof) && PromptOk(wnd, edge, mss, eof)
    ensures OfferOk(wnd, ann, edge, mss, eof) && (wnd - edge >= MaxLag(mss) ==> ann == wnd)
  {
  }

  /** The receive window with `len` bytes given back, in 16-bit arithmetic. */
  function Grown(wnd: U16, len: U16): (r: U16)
    requires wnd <= TCP_WND
    ensures r == Min(wnd + len, TCP_WND)
  {
    var sum := (wnd + len) % 0x1_0000;
    if sum > TCP_WND || sum < wnd then TCP_WND else sum
  }

  /** What tcp_process does to the state after tcp_receive; `finAcked` tells that our FIN was sent and is
      acknowledged. */
  function NextState(s: State, gotFin: bool, finAcked: bool): State {
    match s
    case SYN_RCVD => if gotFin then CLOSE_WAIT else ESTABLISHED
    case ESTABLISHED => if gotFin then CLOSE_WAIT else ESTABLISHED
    case FIN_WAIT_1 =>
      if gotFin then (if finAcked then TIME_WAIT else CLOSING) else if finAcked then FIN_WAIT_2 else FIN_WAIT_1
    case FIN_WAIT_2 => if gotFin then TIME_WAIT else FIN_WAIT_2
    case CLOSING => if finAcked then TIME_WAIT else CLOSING
    case CLOSE_WAIT => CLOSE_WAIT
    case LAST_ACK => LAST_ACK
    case TIME_WAIT => TIME_WAIT
  }

  /** The next state is the one that belongs to the sides afterwards, unless the connection is gone. */
  lemma NextStands(s: State, x: Sides, gotFin: bool, finAcked: bool)
    requires Stands(s, x) && !s.TIME_WAIT? && (gotFin ==> Open(s))
    ensures var t := NextState(s, gotFin, finAcked);
            var y := Sides(x.up || s.SYN_RCVD?, x.ourFin, x.ourAcked || (x.ourFin && finAcked), x.peerFin || gotFin,
                           x.peerFirst || (gotFin && !x.ourFin));
            && (s.LAST_ACK? && finAcked <==> x.ourFin && finAcked && x.peerFirst)
            && (!(s.LAST_ACK? && finAcked) ==> Stands(t, y))
            && (Writable(t) <==> Writable(s)) && (t.TIME_WAIT? && !gotFin ==> s.CLOSING? && finAcked)
            && (s.CLOSING? && finAcked ==> t.TIME_WAIT?)
  {
  }

  lemma StandsFacts(s: State, x: Sides)
    requires Stands(s, x)
    ensures (Open(s) <==> !x.peerFin) && (Writable(s) <==> !x.ourFin)
    ensures (s.TIME_WAIT? ==> x.peerFin && x.ourAcked && !x.peerFirst) && (s.SYN_RCVD? ==> !x.ourFin)
  {
  }
}
