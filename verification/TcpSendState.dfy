/** The state of the send side of a connection (tcp_out.c) as a value, its invariant, and what each step of the code
    does to it. */
module TcpSendState {
  import opened TcpStates
  import opened Seqs
  import opened Words
  import opened Seq32
  import opened TcpChecksum
  import opened TcpSendQueue

  const TCP_MSS: nat := 1460
  const TCP_SND_BUF: nat := 32 * 1024
  const TCP_SND_QUEUELEN: nat := (4 * TCP_SND_BUF + (TCP_MSS - 1)) / TCP_MSS
  const TCP_OVERSIZE: nat := TCP_MSS

  datatype Err = ERR_OK | ERR_MEM | ERR_VAL | ERR_CONN | ERR_RTE

  function LastOf(q: seq<Seg>): Seg
    requires q != []
  {
    q[|q| - 1]
  }

  // ---------- the invariant, on values ----------

  /** The fields of the pcb that the send side changes. */
  datatype Queues = Queues(unacked: seq<Seg>, unsent: seq<Seg>, oversize: nat, lastack: U32, snd_nxt: U32, snd_lbb: U32,
                           snd_buf: int, snd_queuelen: int, state: State)

  /** What the fields stand for: everything ever written, both queues merged by sequence number and the position where
      that begins, the positions of lastack and snd_nxt, and whether a FIN is queued. `piggy`: it sits on a segment
      with data; tcp_send_fin leaves snd_lbb alone then. */
  datatype View = View(conn: Conn, flight: seq<Seg>, start: int, una: int, nxt: int, fin: bool, piggy: bool) {
    ghost function End(): int {
      conn.End(fin)
    }
  }

  /** Merged by sequence number, the queues hold one contiguous stretch of the stream, which starts no later than the
      first unacknowledged byte and ends with the last byte written. What was sent lies between. */
  ghost predicate Contiguous(g: View, unacked: seq<Seg>, unsent: seq<Seg>) {
    && Merged(g.flight, unacked, unsent)
    && Flight(g.flight, g.start, g.conn, g.End())
    && g.conn.iss <= g.una && g.start <= g.una <= g.nxt <= g.End()
  }

  ghost predicate Pointers(g: View, s: Queues) {
    && s.lastack == Num(g.una) && s.snd_nxt == Num(g.nxt)
    && s.snd_lbb == Num(g.conn.End(g.fin && !g.piggy))
    && (Writable(s.state) ==> !g.fin) && (g.piggy ==> g.fin)
  }

  /** What is left of the send buffer and what is queued always add up; the queue length counts the pbufs. */
  ghost predicate Conserved(s: Queues) {
    && s.snd_buf >= 0 && s.snd_buf + Bytes(s.unacked) + Bytes(s.unsent) == TCP_SND_BUF
    && s.snd_queuelen == Pbufs(s.unacked) + Pbufs(s.unsent)
  }

  /** The last segment of a queue ends at the sequence number `n`. */
  predicate EndsAt(q: seq<Seg>, n: U32) {
    q == [] || LastOf(q).Next() == n
  }

  /** The last unsent segment ends where everything queued ends. */
  ghost predicate TailOk(g: View, s: Queues) {
    EndsAt(s.unsent, Num(g.End()))
  }

  ghost predicate Inv(g: View, s: Queues) {
    && Contiguous(g, s.unacked, s.unsent) && Pointers(g, s) && Conserved(s)
    && (s.oversize > 0 ==> s.unsent != [] && LastOf(s.unsent).data != [] && TailOk(g, s))
  }

  /** No two positions in use are half the circle apart. */
  lemma Span(g: View, s: Queues)
    requires Inv(g, s)
    ensures g.End() - g.start <= TCP_SND_BUF + 2
  {
    hide Flight, Merged, Num;
    MergedSums(g.flight, s.unacked, s.unsent);
    FlightSpan(g.flight, g.start, g.conn, g.End());
  }

  lemma NextAt(s: Seg, p: int, c: Conn)
    requires Holds(s, p, c)
    ensures s.Next() == Num(p + s.TcpLen()) && s.TcpLen() > 0
  {
    hide PairOf;
  }

  lemma TailDropped(q: seq<Seg>, n: U32)
    requires q != [] && EndsAt(q, n)
    ensures EndsAt(q[1..], n)
  {
    if |q| > 1 {
      LastTail(q);
    }
  }

  /** While the application may write, the fields tell whether the last unsent segment ends everything queued. */
  lemma TailByFields(g: View, s: Queues)
    requires Inv(g, s) && Writable(s.state)
    ensures TailOk(g, s) <==> EndsAt(s.unsent, s.snd_lbb)
  {
    hide Contiguous, Conserved, EndsAt, Num;
  }

  // ---------- what each step does to the invariant ----------

  /** tcp_output moves the head of the unsent queue. */
  function Sent(s: Queues): Queues
    requires s.unsent != []
  {
    s.(unacked := Insert(s.unacked, s.unsent[0]), unsent := s.unsent[1..],
       oversize := if |s.unsent| == 1 then 0 else s.oversize,
       snd_nxt := if SeqLt(s.snd_nxt, s.unsent[0].Next()) then s.unsent[0].Next() else s.snd_nxt)
  }

  lemma SentInv(g: View, s: Queues) returns (g': View)
    requires Inv(g, s) && s.unsent != []
    ensures Inv(g', Sent(s)) && g' == g.(nxt := g'.nxt) && g'.nxt >= g.nxt
    ensures g'.nxt == g.nxt ||
            (Num(g'.nxt) == s.unsent[0].Next() && g.start + s.unsent[0].TcpLen() <= g'.nxt <= g.End())
    ensures TailOk(g, s) ==> TailOk(g', Sent(s))
  {
    hide Flight, Merged, Holds, Num, SeqLt, EndsAt, Writable;
    Span(g, s);
    var seg := s.unsent[0];
    var q := SentTo(g, s.unacked, s.unsent);
    g' := if g.nxt < q then g.(nxt := q) else g;
    InsertSums(s.unacked, seg);
    if TailOk(g, s) {
      TailDropped(s.unsent, Num(g.End()));
    }
  }

  /** The merge stays, and the end of the segment is a position that snd_nxt may move to. */
  lemma SentTo(g: View, unacked: seq<Seg>, unsent: seq<Seg>) returns (q: int)
    requires Contiguous(g, unacked, unsent) && g.End() - g.start < HALF && unsent != []
    ensures Contiguous(if g.nxt < q then g.(nxt := q) else g, Insert(unacked, unsent[0]), unsent[1..])
    ensures g.start + unsent[0].TcpLen() <= q <= g.End()
    ensures unsent[0].Next() == Num(q) && (SeqLt(Num(g.nxt), unsent[0].Next()) <==> g.nxt < q)
  {
    var seg := unsent[0];
    MergedSwap(g.flight, unacked, unsent);
    var at := HeadPos(g.flight, g.start, g.conn, g.End(), unsent, unacked);
    NextAt(seg, at, g.conn);
    q := at + seg.TcpLen();
    HalfWindow(g.nxt, q);
    InsertMerged(g.flight, g.start, g.conn, g.End(), unsent, unacked);
    MergedSwap(g.flight, unsent[1..], Insert(unacked, seg));
  }

  /** tcp_rexmit moves the head of the unacked queue back. */
  function Rexmitted(s: Queues, atEnd: bool): Queues
    requires s.unacked != []
  {
    s.(unacked := s.unacked[1..], unsent := Insert(s.unsent, s.unacked[0]), oversize := if atEnd then 0 else s.oversize)
  }

  lemma RexmittedInv(g: View, s: Queues, atEnd: bool)
    requires Inv(g, s) && s.unacked != []
    requires var q := Insert(s.unsent, s.unacked[0]);
             !atEnd ==> s.unsent != [] && q != [] && LastOf(q) == LastOf(s.unsent)
    ensures Inv(g, Rexmitted(s, atEnd))
    ensures TailOk(g, s) && !atEnd ==> TailOk(g, Rexmitted(s, atEnd))
  {
    Span(g, s);
    hide Flight, Num, SeqLt, Writable, Merged;
    InsertMerged(g.flight, g.start, g.conn, g.End(), s.unacked, s.unsent);
    InsertSums(s.unsent, s.unacked[0]);
  }

  /** tcp_rexmit_rto_prepare puts the unacked queue in front of the unsent one. */
  function Requeued(s: Queues): Queues {
    s.(unacked := [], unsent := s.unacked + s.unsent)
  }

  /** What the retransmission timer needs: all of `unacked` lies before all of `unsent`. */
  predicate InOrder(s: Queues) {
    s.unacked == [] || s.unsent == [] || Before(LastOf(s.unacked), s.unsent[0])
  }

  /** The queue that tcp_rexmit_rto_prepare builds is in order if and only if the old queues were one behind the
      other. */
  lemma RequeuedIff(g: View, s: Queues)
    requires Inv(g, s)
    ensures Merged(g.flight, [], s.unacked + s.unsent) <==> InOrder(s)
    ensures InOrder(s) ==> g.flight == s.unacked + s.unsent
  {
    Span(g, s);
    JoinedIff(g.flight, g.start, g.conn, g.End(), s.unacked, s.unsent);
    if Merged(g.flight, [], s.unacked + s.unsent) {
      MergedOnly(g.flight, s.unacked + s.unsent);
    }
    if InOrder(s) {
      MergedOne(g.flight);
    }
  }

  lemma RequeuedInv(g: View, s: Queues)
    requires Inv(g, s) && InOrder(s) && s.unacked != []
    ensures Inv(g, Requeued(s))
    ensures TailOk(g, s) ==> TailOk(g, Requeued(s))
  {
    RequeuedIff(g, s);
    BytesConcat(s.unacked, s.unsent);
    assert g.flight != [] && LastOf(g.flight) == LastOf(s.unacked + s.unsent);
    TailEnds(g.flight, g.start, g.conn, g.End());
  }

  /** tcp_receive for an acknowledgement of new data. */
  function Acked(s: Queues, ackno: U32): Queues {
    var a, b := DropAcked(s.unacked, ackno), DropAcked(s.unsent, ackno);
    s.(unacked := a, unsent := b, lastack := ackno, oversize := if b == [] then 0 else s.oversize,
       snd_buf := s.snd_buf + (Bytes(s.unacked) - Bytes(a)) + (Bytes(s.unsent) - Bytes(b)),
       snd_queuelen := s.snd_queuelen - (Pbufs(s.unacked) - Pbufs(a)) - (Pbufs(s.unsent) - Pbufs(b)))
  }

  lemma AckedIs(s: Queues, ackno: U32)
    ensures var a, b := DropAcked(s.unacked, ackno), DropAcked(s.unsent, ackno);
            var n := Bytes(s.unacked) - Bytes(a) + (Bytes(s.unsent) - Bytes(b));
            var m := Pbufs(s.unacked) - Pbufs(a) + (Pbufs(s.unsent) - Pbufs(b));
            Acked(s, ackno)
            == Queues(a, b, if b == [] then 0 else s.oversize, ackno, s.snd_nxt, s.snd_lbb, s.snd_buf + n,
                      s.snd_queuelen - m, s.state)
  {
  }

  lemma AckedInv(g: View, s: Queues, ackno: U32) returns (g': View)
    requires Inv(g, s) && !SeqLeq(ackno, s.lastack) && SeqBetween(ackno, Add(s.lastack, 1), s.snd_nxt)
    ensures Inv(g', Acked(s, ackno)) && g.una < g'.una <= g.nxt && Num(g'.una) == ackno
    ensures g' == g.(flight := g'.flight, start := g'.start, una := g'.una)
    ensures |g'.flight| <= |g.flight| && g'.flight == g.flight[|g.flight| - |g'.flight|..]
    ensures TailOk(g, s) ==> TailOk(g', Acked(s, ackno))
    ensures g'.flight != [] ==> g'.una < g'.start + g'.flight[0].TcpLen()
  {
    hide Flight, Merged, Num, Bytes, Pbufs, Writable, SeqLeq, SeqBetween, EndsAt, DropAcked, Add;
    Span(g, s);
    var una := AckPosition(g.una, g.nxt, ackno);
    g' := AckedContiguous(g, s.unacked, s.unsent, una);
    DropLast(s.unacked, ackno, Num(g.End()));
    DropLast(s.unsent, ackno, Num(g.End()));
  }

  lemma AckedContiguous(g: View, unacked: seq<Seg>, unsent: seq<Seg>, una: int) returns (g': View)
    requires Contiguous(g, unacked, unsent) && g.End() - g.start < HALF && g.una <= una <= g.nxt
    ensures Contiguous(g', DropAcked(unacked, Num(una)), DropAcked(unsent, Num(una)))
    ensures g' == g.(flight := g'.flight, start := g'.start, una := una)
    ensures |g'.flight| <= |g.flight| && g'.flight == g.flight[|g.flight| - |g'.flight|..]
    ensures g'.flight != [] ==> una < g'.start + g'.flight[0].TcpLen()
  {
    var f', p' := DropMerged(g.flight, g.start, g.conn, g.End(), unacked, unsent, una);
    g' := g.(flight := f', start := p', una := una);
  }

  /** An acceptable acknowledgement lies between lastack and snd_nxt, also as an integer. */
  lemma AckPosition(una: int, nxt: int, ackno: U32) returns (ack: int)
    requires una <= nxt < una + QUARTER
    requires !SeqLeq(ackno, Num(una)) && SeqBetween(ackno, Add(Num(una), 1), Num(nxt))
    ensures una < ack <= nxt && Num(ack) == ackno
  {
    var d := Diff(ackno, Num(una));
    ack := una + d;
    NumAdd(una, d);
    HalfWindow(ack, nxt);
  }

  lemma NumAdd(p: int, d: int)
    ensures Num(p + d) == (Num(p) + d) % WRAP
  {
    var k := p / WRAP;
    assert p == k * WRAP + Num(p);
  }

  lemma DropLast(q: seq<Seg>, ackno: U32, n: U32)
    ensures DropAcked(q, ackno) != [] ==> q != [] && LastOf(DropAcked(q, ackno)) == LastOf(q)
    ensures EndsAt(q, n) ==> EndsAt(DropAcked(q, ackno), n)
    ensures Bytes(DropAcked(q, ackno)) <= Bytes(q)
  {
    if |q| > 1 {
      LastTail(q);
      DropLast(q[1..], ackno, n);
    } else if q != [] {
      assert q[1..] == [];
    }
  }

  /** Replacing the segment that ends the flight and appending others behind it. */
  lemma TailReplaced(g: View, s: Queues, last: Seg, more: seq<Seg>, g': View)
    requires Inv(g, s) && s.unsent != [] && TailOk(g, s)
    requires g' == g.(conn := g'.conn, flight := g'.flight, fin := g'.fin, piggy := g'.piggy)
    requires g'.flight == g.flight[..|g.flight| - 1] + [last] + more && !g.fin
    requires g'.conn.iss == g.conn.iss && g.conn.stream <= g'.conn.stream && g.End() <= g'.End()
    requires forall p :: p + LastOf(s.unsent).TcpLen() == g.End() && Holds(LastOf(s.unsent), p, g.conn) ==>
                           Flight([last] + more, p, g'.conn, g'.End())
    ensures g.flight != []
    ensures Contiguous(g', s.unacked, s.unsent[..|s.unsent| - 1] + [last] + more)
  {
    hide Flight, Num, Holds, Merged;
    Span(g, s);
    var f, b := g.flight, s.unsent;
    TailLast(f, g.start, g.conn, g.End(), s.unacked, b);
    var f0, b0 := f[..|f| - 1], b[..|b| - 1];
    assert f == f0 + [LastOf(f)];
    LastReplaced(f0, LastOf(f), [last] + more, g.start, g.conn, g.End(), g'.conn, g'.End());
    MergedAppend(f0, s.unacked, b0, [last] + more);
    assert f0 + [last] + more == f0 + ([last] + more) && b0 + [last] + more == b0 + ([last] + more);
  }

  lemma LastReplaced(f: seq<Seg>, l: Seg, r: seq<Seg>, start: int, c: Conn, end: int, c': Conn, end': int)
    requires Flight(f + [l], start, c, end) && end <= c.End(false) && c.iss == c'.iss && c.stream <= c'.stream
    requires forall p :: p + l.TcpLen() == end && Holds(l, p, c) ==> Flight(r, p, c', end')
    ensures Flight(f + r, start, c', end')
  {
    var mid := FlightSplit(f, [l], start, c, end);
    assert Flight([l][1..], mid + l.TcpLen(), c, end);
    FlightGrows(f, start, c, mid, c'.stream[|c.stream|..]);
    assert c' == Conn(c.iss, c.stream + c'.stream[|c.stream|..]);
    FlightAppend(f, r, start, c', mid, end');
  }

  lemma Appended(g: View, s: Queues, more: seq<Seg>, g': View)
    requires Inv(g, s) && !g.fin && g.conn.iss == g'.conn.iss && g.conn.stream <= g'.conn.stream && g.End() <= g'.End()
    requires g' == g.(conn := g'.conn, flight := g.flight + more, fin := g'.fin, piggy := g'.piggy)
    requires Flight(more, g.End(), g'.conn, g'.End())
    ensures Contiguous(g', s.unacked, s.unsent + more)
  {
    FlightGrows(g.flight, g.start, g.conn, g.End(), g'.conn.stream[|g.conn.stream|..]);
    assert g'.conn == Conn(g.conn.iss, g.conn.stream + g'.conn.stream[|g.conn.stream|..]);
    FlightAppend(g.flight, more, g.start, g'.conn, g.End(), g'.End());
    MergedAppend(g.flight, s.unacked, s.unsent, more);
  }

  /** tcp_split_unsent_seg; `clen` is the length of the pbuf chain that the head has left. */
  function Split(s: Queues, split: nat, clen: nat): Queues
    requires s.unsent != [] && split <= |s.unsent[0].data|
  {
    var (h1, h2) := SplitSeg(s.unsent[0], split, clen);
    s.(unsent := [h1, h2] + s.unsent[1..], snd_queuelen := s.snd_queuelen - s.unsent[0].clen + clen + 1,
       oversize := if |s.unsent| == 1 then 0 else s.oversize)
  }

  lemma SplitInv(g: View, s: Queues, split: nat, clen: nat) returns (g': View)
    requires Inv(g, s) && s.unsent != [] && 0 < split < |s.unsent[0].data| && !s.unsent[0].fin
    ensures Inv(g', Split(s, split, clen)) && g' == g.(flight := g'.flight)
    ensures TailOk(g, s) ==> TailOk(g', Split(s, split, clen))
  {
    hide Flight, Holds, Merged, Num, Writable;
    var h, rest := s.unsent[0], s.unsent[1..];
    var (h1, h2) := SplitSeg(h, split, clen);
    g' := SplitContiguous(g, s.unacked, s.unsent, split, clen);
    BytesConcat([h1, h2], rest);
    SplitTail(s.unsent, split, clen);
    assert s.unsent == [h] + rest;
  }

  /** A head with a FIN keeps it when it is split, and then the queues hold no stretch of any stream. */
  lemma SplitMisplaced(g: View, s: Queues, split: nat, clen: nat)
    requires s.unsent != [] && 0 < split < |s.unsent[0].data| && s.unsent[0].fin
    ensures !Contiguous(g, s.unacked, Split(s, split, clen).unsent)
  {
    hide Flight, Merged, Num, Add;
    var b := Split(s, split, clen).unsent;
    if Contiguous(g, s.unacked, b) {
      NothingBehindFin(g.flight, g.start, g.conn, g.End(), s.unacked, b);
    }
  }

  lemma SplitTail(q: seq<Seg>, split: nat, clen: nat)
    requires q != [] && 0 < split < |q[0].data| && !q[0].fin && !q[0].syn
    ensures var (h1, h2) := SplitSeg(q[0], split, clen);
            LastOf([h1, h2] + q[1..]).Next() == LastOf(q).Next() && (|q| > 1 ==> LastOf([h1, h2] + q[1..]) == LastOf(q))
  {
    hide PairOf;
  }

  lemma SplitContiguous(g: View, unacked: seq<Seg>, unsent: seq<Seg>, split: nat, clen: nat) returns (g': View)
    requires Contiguous(g, unacked, unsent) && unsent != [] && 0 < split < |unsent[0].data| && !unsent[0].fin
    ensures var (h1, h2) := SplitSeg(unsent[0], split, clen);
            Contiguous(g', unacked, [h1, h2] + unsent[1..])
    ensures g' == g.(flight := g'.flight) && !unsent[0].syn
  {
    hide Merged, Flight, Holds, Num;
    var h := unsent[0];
    var (h1, h2) := SplitSeg(h, split, clen);
    var f1, f2 := HeadReplaced(g.flight, unacked, unsent, [h1, h2]);
    SplitFlight(f1, h, f2, g.start, g.conn, g.End(), split, clen);
    g' := g.(flight := f1 + [h1, h2] + f2);
  }

  lemma SplitFlight(f1: seq<Seg>, h: Seg, f2: seq<Seg>, start: int, c: Conn, end: int, split: nat, clen: nat)
    requires Flight(f1 + [h] + f2, start, c, end) && 0 < split < |h.data| && !h.fin
    ensures var (h1, h2) := SplitSeg(h, split, clen); Flight(f1 + [h1, h2] + f2, start, c, end)
    ensures !h.syn
  {
    hide Num, Flight, Holds;
    var (h1, h2) := SplitSeg(h, split, clen);
    assert f1 + [h] + f2 == f1 + ([h] + f2) && f1 + [h1, h2] + f2 == f1 + ([h1, h2] + f2);
    var p := FlightSplit(f1, [h] + f2, start, c, end);
    FirstHolds(h, f2, p, c, end);
    SplitIff(h, p, c, split, clen);
    FlightAppend([h1, h2], f2, p, c, p + h.TcpLen(), end);
    FlightAppend(f1, [h1, h2] + f2, start, c, p, end);
  }

  lemma FirstHolds(h: Seg, rest: seq<Seg>, p: int, c: Conn, end: int)
    requires Flight([h] + rest, p, c, end)
    ensures Holds(h, p, c) && Flight(rest, p + h.TcpLen(), c, end) && (h.data != [] ==> !h.syn)
  {
    hide Num;
    Head(h, rest);
  }

  /** tcp_send_fin sets the FIN on the last unsent segment, and leaves snd_lbb as it is. */
  function FinOnLast(s: Queues, next: State): Queues
    requires s.unsent != []
  {
    s.(unsent := s.unsent[..|s.unsent| - 1] + [LastOf(s.unsent).(fin := true)], state := next)
  }

  lemma FinOnLastInv(g: View, s: Queues, next: State) returns (g': View)
    requires Inv(g, s) && s.unsent != [] && Writable(s.state) && !Writable(next)
    requires !LastOf(s.unsent).syn && TailOk(g, s)
    ensures Inv(g', FinOnLast(s, next)) && TailOk(g', FinOnLast(s, next))
    ensures g' == g.(flight := g'.flight, fin := true, piggy := true)
  {
    hide Merged, Flight, PairOf;
    var l := LastOf(s.unsent);
    var l' := l.(fin := true);
    NotEmpty(g, s);
    g' := g.(flight := g.flight[..|g.flight| - 1] + [l'] + [], fin := true, piggy := true);
    forall p | p + l.TcpLen() == g.End() && Holds(l, p, g.conn) ensures Flight([l'] + [], p, g.conn, g'.End()) {
      LoneFlight(l', p, g.conn, g'.End());
    }
    TailReplaced(g, s, l', [], g');
    LastSums(s.unsent, l', []);
    assert s.unsent[..|s.unsent| - 1] + [l'] + [] == FinOnLast(s, next).unsent;
    TailIs(g', s.unacked, FinOnLast(s, next).unsent);
  }

  lemma NotEmpty(g: View, s: Queues)
    requires Contiguous(g, s.unacked, s.unsent) && s.unsent != []
    ensures g.flight != []
  {
  }

  lemma LoneFlight(x: Seg, p: int, c: Conn, end: int)
    requires Holds(x, p, c) && p + x.TcpLen() == end
    ensures Flight([x] + [], p, c, end)
  {
    assert ([x] + [])[1..] == [];
  }

  lemma LastSums(q: seq<Seg>, l: Seg, more: seq<Seg>)
    requires q != []
    ensures var q' := q[..|q| - 1] + [l] + more;
            && Bytes(q') == Bytes(q) - |LastOf(q).data| + |l.data| + Bytes(more)
            && Pbufs(q') == Pbufs(q) - LastOf(q).clen + l.clen + Pbufs(more)
  {
    var q0 := q[..|q| - 1];
    assert q == q0 + [LastOf(q)];
    BytesConcat(q0, [LastOf(q)]);
    BytesConcat(q0 + [l], more);
    BytesConcat(q0, [l]);
    BytesOne(l);
    BytesOne(LastOf(q));
  }

  lemma TailIs(g: View, unacked: seq<Seg>, unsent: seq<Seg>)
    requires Contiguous(g, unacked, unsent) && g.flight != [] && unsent != [] && LastOf(g.flight) == LastOf(unsent)
    ensures EndsAt(unsent, Num(g.End()))
  {
    TailEnds(g.flight, g.start, g.conn, g.End());
  }

  /** tcp_enqueue_flags for a FIN: a segment of its own at snd_lbb. */
  function FinQueued(s: Queues, next: State): Queues {
    s.(unsent := s.unsent + [Seg(s.snd_lbb, [], false, true, false, 1, PairOf([]))], snd_lbb := Add(s.snd_lbb, 1),
       snd_queuelen := s.snd_queuelen + 1, oversize := 0, state := next)
  }

  lemma FinQueuedInv(g: View, s: Queues, next: State) returns (g': View)
    requires Inv(g, s) && Writable(s.state) && !Writable(next)
    ensures Inv(g', FinQueued(s, next)) && TailOk(g', FinQueued(s, next))
    ensures g' == g.(flight := g'.flight, fin := true, piggy := false)
  {
    hide PairOf;
    var x := Seg(s.snd_lbb, [], false, true, false, 1, PairOf([]));
    assert Holds(x, g.End(), g.conn);
    NumAdd(g.End(), 1);
    hide Merged, Flight, Holds;
    g' := g.(flight := g.flight + [x], fin := true, piggy := false);
    LoneFlight(x, g.End(), g.conn, g'.End());
    assert [x] + [] == [x];
    Appended(g, s, [x], g');
    BytesConcat(s.unsent, [x]);
    BytesOne(x);
    TailIs(g', s.unacked, s.unsent + [x]);
  }

  /** tcp_send_fin: the FIN goes onto the last unsent segment unless that has a SYN or a FIN already. */
  function FinSent(s: Queues, next: State): Queues {
    if s.unsent != [] && !LastOf(s.unsent).syn && !LastOf(s.unsent).fin then FinOnLast(s, next) else FinQueued(s, next)
  }

  lemma FinSentState(s: Queues, next: State)
    ensures FinSent(s, next).state == next
  {
  }

  /** tcp_write: `ext` bytes of the data go onto the last unsent segment, with `pbufs` more pbufs, and the others
      into the segments `segs`. */
  function Written(s: Queues, data: seq<U8>, ext: nat, pbufs: nat, psh: bool, segs: seq<Seg>, oversize: nat): Queues
    requires ext <= |data|
  {
    var tail := if s.unsent == [] || !(ext > 0 || psh) then s.unsent
                else s.unsent[..|s.unsent| - 1] + [Extended(LastOf(s.unsent), data[..ext], pbufs, psh)];
    s.(unsent := tail + segs, snd_lbb := Add(s.snd_lbb, |data|), snd_buf := s.snd_buf - |data|,
       snd_queuelen := s.snd_queuelen + pbufs + Pbufs(segs), oversize := oversize)
  }

  lemma WrittenIs(s: Queues, data: seq<U8>, ext: nat, pbufs: nat, psh: bool, segs: seq<Seg>, oversize: nat)
    requires ext <= |data|
    ensures var s' := Written(s, data, ext, pbufs, psh, segs, oversize);
            && s'.unacked == s.unacked && s'.snd_lbb == Add(s.snd_lbb, |data|) && s'.snd_buf == s.snd_buf - |data|
            && s'.state == s.state && s'.lastack == s.lastack && s'.snd_nxt == s.snd_nxt
  {
  }

  function Extended(l: Seg, more: seq<U8>, pbufs: nat, psh: bool): Seg {
    l.(data := l.data + more, clen := l.clen + pbufs, psh := l.psh || psh, sum := PairOf(l.data + more))
  }

  /** A successful tcp_write appends exactly the given bytes to the stream, provided that what it extends is the end
      of everything queued. */
  lemma WrittenInv(g: View, s: Queues, data: seq<U8>, ext: nat, pbufs: nat, psh: bool, segs: seq<Seg>, oversize: nat)
    returns (g': View)
    requires Inv(g, s) && Writable(s.state) && ext <= |data| <= s.snd_buf
    requires ext > 0 || psh ==> s.unsent != [] && LastOf(s.unsent).data != [] && TailOk(g, s)
    requires ext == 0 ==> pbufs == 0
    requires Flight(segs, g.End() + ext, Conn(g.conn.iss, g.conn.stream + data), g.End() + |data|)
    requires oversize > 0 ==>
               s.unsent + segs != [] && (segs == [] ==> LastOf(s.unsent).data != []) && (data == [] ==> TailOk(g, s))
    requires segs != [] ==> LastOf(segs).data != []
    ensures Inv(g', Written(s, data, ext, pbufs, psh, segs, oversize))
    ensures g' == g.(conn := Conn(g.conn.iss, g.conn.stream + data), flight := g'.flight)
    ensures data != [] || TailOk(g, s) ==> TailOk(g', Written(s, data, ext, pbufs, psh, segs, oversize))
  {
    hide Contiguous, Flight, Num, EndsAt, PairOf;
    var s' := Written(s, data, ext, pbufs, psh, segs, oversize);
    if ext > 0 || psh {
      g' := WrittenOn(g, s, data, ext, pbufs, psh, segs);
    } else {
      g' := WrittenBehind(g, s, data, segs);
    }
    NumAdd(g.End(), |data|);
    assert Pointers(g', s');
    assert Conserved(s');
  }

  lemma WrittenOn(g: View, s: Queues, data: seq<U8>, ext: nat, pbufs: nat, psh: bool, segs: seq<Seg>) returns (g': View)
    requires Inv(g, s) && !g.fin && ext <= |data|
    requires s.unsent != [] && LastOf(s.unsent).data != [] && TailOk(g, s)
    requires Flight(segs, g.End() + ext, Conn(g.conn.iss, g.conn.stream + data), g.End() + |data|)
    ensures var q := s.unsent[..|s.unsent| - 1] + [Extended(LastOf(s.unsent), data[..ext], pbufs, psh)] + segs;
            && Contiguous(g', s.unacked, q) && EndsAt(q, Num(g'.End()))
            && Bytes(q) == Bytes(s.unsent) + |data| && Pbufs(q) == Pbufs(s.unsent) + pbufs + Pbufs(segs)
    ensures g' == g.(conn := Conn(g.conn.iss, g.conn.stream + data), flight := g'.flight)
  {
    hide Merged, Holds, Flight, Num;
    var c := Conn(g.conn.iss, g.conn.stream + data);
    var l := LastOf(s.unsent);
    var l' := Extended(l, data[..ext], pbufs, psh);
    NotEmpty(g, s);
    g' := g.(conn := c, flight := g.flight[..|g.flight| - 1] + [l'] + segs);
    ExtendedFlight(g, l, data, ext, pbufs, psh, segs);
    TailReplaced(g, s, l', segs, g');
    LastSums(s.unsent, l', segs);
    FreshBytes(segs, g.End() + ext, c, g.End() + |data|);
    TailIs(g', s.unacked, s.unsent[..|s.unsent| - 1] + [l'] + segs);
  }

  lemma WrittenBehind(g: View, s: Queues, data: seq<U8>, segs: seq<Seg>) returns (g': View)
    requires Inv(g, s) && !g.fin
    requires Flight(segs, g.End(), Conn(g.conn.iss, g.conn.stream + data), g.End() + |data|)
    ensures var q := s.unsent + segs;
            && Contiguous(g', s.unacked, q) && (data != [] || TailOk(g, s) ==> EndsAt(q, Num(g'.End())))
            && Bytes(q) == Bytes(s.unsent) + |data| && Pbufs(q) == Pbufs(s.unsent) + Pbufs(segs)
    ensures g' == g.(conn := Conn(g.conn.iss, g.conn.stream + data), flight := g'.flight)
  {
    hide PairOf;
    var c := Conn(g.conn.iss, g.conn.stream + data);
    assert segs == [] ==> data == [];
    hide Merged, Holds, Flight, Num;
    g' := g.(conn := c, flight := g.flight + segs);
    Appended(g, s, segs, g');
    BytesConcat(s.unsent, segs);
    FreshBytes(segs, g.End(), c, g.End() + |data|);
    if segs != [] {
      TailIs(g', s.unacked, s.unsent + segs);
    } else {
      assert s.unsent + segs == s.unsent;
    }
  }

  lemma FreshBytes(segs: seq<Seg>, p: int, c: Conn, end: int)
    requires Flight(segs, p, c, end) && p > c.iss && end <= c.End(false)
    ensures Bytes(segs) == end - p
  {
    if segs != [] {
      FlightBytes(segs, p, c, end);
    }
  }

  lemma ExtendedFlight(g: View, l: Seg, data: seq<U8>, ext: nat, pbufs: nat, psh: bool, segs: seq<Seg>)
    requires !g.fin && l.data != [] && ext <= |data|
    requires Flight(segs, g.End() + ext, Conn(g.conn.iss, g.conn.stream + data), g.End() + |data|)
    ensures forall p :: p + l.TcpLen() == g.End() && Holds(l, p, g.conn) ==>
                          Flight([Extended(l, data[..ext], pbufs, psh)] + segs, p,
                                 Conn(g.conn.iss, g.conn.stream + data), g.End() + |data|)
  {
    var c, l' := Conn(g.conn.iss, g.conn.stream + data), Extended(l, data[..ext], pbufs, psh);
    Head(l', segs);
  }

  // ---------- where the end of the unsent queue is not the end of the flight ----------

  lemma InsertLast(q: seq<Seg>, x: Seg)
    requires q != [] && !Before(LastOf(q), x)
    ensures Insert(q, x) != [] && LastOf(Insert(q, x)) == LastOf(q)
  {
    if Before(q[0], x) {
      LastTail(q);
      InsertLast(q[1..], x);
    }
  }

  /** A fast retransmission leaves the end of the unsent queue in place if and only if something was unsent, or the
      segment was the only one there is. */
  lemma RexmitTailIff(g: View, s: Queues, atEnd: bool)
    requires Inv(g, s) && TailOk(g, s) && s.unacked != []
    ensures TailOk(g, Rexmitted(s, atEnd)) <==> s.unsent != [] || |s.unacked| == 1
  {
    Span(g, s);
    hide Merged, Flight, Num, Before;
    if s.unsent != [] {
      RexmitKeepsLast(g, s.unacked, s.unsent);
    } else {
      RexmitAlone(g, s.unacked);
    }
  }

  lemma RexmitKeepsLast(g: View, a: seq<Seg>, b: seq<Seg>)
    requires Contiguous(g, a, b) && g.End() - g.start < HALF && a != [] && b != [] && EndsAt(b, Num(g.End()))
    ensures Insert(b, a[0]) != [] && LastOf(Insert(b, a[0])) == LastOf(b)
  {
    var f := g.flight;
    TailLast(f, g.start, g.conn, g.End(), a, b);
    hide Merged, Num, Before;
    var f0 := f[..|f| - 1];
    assert f == f0 + [LastOf(f)];
    var mid := FlightSplit(f0, [LastOf(f)], g.start, g.conn, g.End());
    var q := HeadPos(f0, g.start, g.conn, mid, a, b[..|b| - 1]);
    Compare(LastOf(b), mid, a[0], q);
    InsertLast(b, a[0]);
  }

  lemma RexmitAlone(g: View, a: seq<Seg>)
    requires Contiguous(g, a, []) && g.End() - g.start < HALF && a != []
    ensures EndsAt(Insert([], a[0]), Num(g.End())) <==> |a| == 1
  {
    var f := g.flight;
    MergedSwap(f, a, []);
    MergedOnly(f, a);
    if |a| == 1 {
      TailEnds(f, g.start, g.conn, g.End());
    } else {
      FlightBounds(f, g.start, g.conn, g.End());
      FlightBounds(f[1..], g.start + a[0].TcpLen(), g.conn, g.End());
      NextAt(a[0], g.start, g.conn);
      HalfWindow(g.start + a[0].TcpLen(), g.End());
      HalfWindow(g.End(), g.End());
    }
  }

  /** If the last segment of a queue does not end the flight, another one follows it there. */
  lemma {:induction false} Follower(f: seq<Seg>, p: int, c: Conn, end: int, a: seq<Seg>, b: seq<Seg>) returns (y: Seg)
    requires Flight(f, p, c, end) && Merged(f, a, b) && b != [] && !EndsAt(b, Num(end))
    ensures y in f && y.seqno == LastOf(b).Next() && y.TcpLen() > 0
    decreases |f|
  {
    hide Num, Add, Holds;
    var p' := p + f[0].TcpLen();
    if a != [] && a[0] == f[0] && Merged(f[1..], a[1..], b) {
      y := Follower(f[1..], p', c, end, a[1..], b);
    } else if |b| > 1 {
      LastTail(b);
      y := Follower(f[1..], p', c, end, a, b[1..]);
    } else {
      y := Second(f, p, c, end);
    }
  }

  lemma Second(f: seq<Seg>, p: int, c: Conn, end: int) returns (y: Seg)
    requires f != [] && Flight(f, p, c, end) && f[0].Next() != Num(end)
    ensures y in f && y.seqno == f[0].Next() && y.TcpLen() > 0
  {
    NextAt(f[0], p, c);
    y := f[1];
    assert f[1..][0] == y;
  }

  /** Two segments of a flight do not overlap. */
  lemma {:induction false} Apart(f: seq<Seg>, p: int, c: Conn, end: int, x: Seg, y: Seg) returns (px: int, py: int)
    requires Flight(f, p, c, end) && x in f && y in f && x != y
    ensures Holds(x, px, c) && Holds(y, py, c) && p <= px <= end && p <= py <= end
    ensures px + x.TcpLen() <= py || py + y.TcpLen() <= px
    decreases |f|
  {
    var p' := p + f[0].TcpLen();
    FlightBounds(f[1..], p', c, end);
    if f[0] == x {
      px := p;
      py := Somewhere(f[1..], p', c, end, y);
    } else if f[0] == y {
      px := Somewhere(f[1..], p', c, end, x);
      py := p;
    } else {
      px, py := Apart(f[1..], p', c, end, x, y);
    }
  }

  lemma {:induction false} Somewhere(f: seq<Seg>, p: int, c: Conn, end: int, x: Seg) returns (px: int)
    requires Flight(f, p, c, end) && x in f
    ensures Holds(x, px, c) && p <= px <= end
    decreases |f|
  {
    FlightBounds(f, p, c, end);
    px := p;
    if f[0] != x {
      px := Somewhere(f[1..], p + f[0].TcpLen(), c, end, x);
    }
  }

  /** tcp_write may put bytes on the last unsent segment if and only if that segment ends everything queued.
      Otherwise the bytes run into the segment behind it, and no view of the queues makes them contiguous again. */
  lemma WriteOnLastIff(g: View, s: Queues, data: seq<U8>, ext: nat, pbufs: nat, psh: bool, segs: seq<Seg>)
    requires Inv(g, s) && Writable(s.state) && 0 < ext <= |data| <= s.snd_buf
    requires s.unsent != [] && LastOf(s.unsent).data != []
    requires Flight(segs, g.End() + ext, Conn(g.conn.iss, g.conn.stream + data), g.End() + |data|)
    ensures (exists g': View :: g'.conn == Conn(g.conn.iss, g.conn.stream + data) && !g'.fin
              && Contiguous(g', s.unacked, Written(s, data, ext, pbufs, psh, segs, 0).unsent)) <==> TailOk(g, s)
  {
    var s' := Written(s, data, ext, pbufs, psh, segs, 0);
    if TailOk(g, s) {
      var g' := WrittenOn(g, s, data, ext, pbufs, psh, segs);
    } else {
      forall g': View | g'.conn == Conn(g.conn.iss, g.conn.stream + data) && !g'.fin
        ensures !Contiguous(g', s.unacked, s'.unsent)
      {
        if Contiguous(g', s.unacked, s'.unsent) {
          WrittenSpan(g, s, data, ext, pbufs, psh, segs, g');
          RunsInto(g, s, Extended(LastOf(s.unsent), data[..ext], pbufs, psh), segs, g');
        }
      }
    }
  }

  /** A last segment that has grown although another one follows it. */
  lemma RunsInto(g: View, s: Queues, l': Seg, more: seq<Seg>, g': View)
    requires Inv(g, s) && !g.fin && s.unsent != [] && LastOf(s.unsent).data != [] && !TailOk(g, s)
    requires l'.seqno == LastOf(s.unsent).seqno && l'.TcpLen() > |LastOf(s.unsent).data|
    requires g'.End() - g'.start < QUARTER
    ensures !Contiguous(g', s.unacked, s.unsent[..|s.unsent| - 1] + [l'] + more)
  {
    var l, q := LastOf(s.unsent), s.unsent[..|s.unsent| - 1];
    hide Merged, Flight, Holds, Num, Conserved, Pointers, SeqLt, Add;
    var y := Follower(g.flight, g.start, g.conn, g.End(), s.unacked, s.unsent);
    LastAt(g, s, l);
    Elsewhere(g.flight, s.unacked, s.unsent, y);
    if Contiguous(g', s.unacked, q + [l'] + more) {
      Members(g'.flight, s.unacked, q + [l'] + more);
      assert l' in q + [l'] + more && (y in q ==> y in q + [l'] + more);
      var pl, py := Apart(g'.flight, g'.start, g'.conn, g'.End(), l', y);
      StandsInside(l', pl, y, py, |l.data|, g'.conn);
      assert false;
    }
  }

  /** tcp_send_fin may put the FIN on the last unsent segment if and only if that segment ends everything queued. */
  lemma FinOnLastIff(g: View, s: Queues, next: State)
    requires Inv(g, s) && Writable(s.state) && !Writable(next) && s.unsent != [] && LastOf(s.unsent).data != []
    ensures (exists g': View :: g'.conn == g.conn && g'.fin && Contiguous(g', s.unacked, FinOnLast(s, next).unsent))
            <==> TailOk(g, s)
  {
    var l' := LastOf(s.unsent).(fin := true);
    var b := s.unsent[..|s.unsent| - 1] + [l'];
    if TailOk(g, s) {
      LastAt(g, s, LastOf(s.unsent));
      var g' := FinOnLastInv(g, s, next);
    } else {
      hide Merged, Flight, Num, EndsAt;
      LastSums(s.unsent, l', []);
      assert b + [] == b;
      forall g': View | g'.conn == g.conn && g'.fin ensures !Contiguous(g', s.unacked, b) {
        if Contiguous(g', s.unacked, b) {
          MergedSums(g'.flight, s.unacked, b);
          FlightSpan(g'.flight, g'.start, g'.conn, g'.End());
          RunsInto(g, s, l', [], g');
        }
      }
    }
  }

  /** The segment that tcp_send_fin puts the FIN on has data. */
  lemma {:induction false} FinMisplaced(g: View, s: Queues, next: State)
    requires Inv(g, s) && Writable(s.state) && !Writable(next) && s.unsent != [] && !LastOf(s.unsent).syn
             && !TailOk(g, s)
    ensures forall g': View :: g'.conn == g.conn && g'.fin ==> !Inv(g', FinOnLast(s, next))
  {
    hide Contiguous, Pointers, Conserved, TailOk;
    NoFinYet(g, s);
    LastHasBytes(g, s);
    FinOnLastIff(g, s, next);
  }

  /** Every queued segment has the checksum of its payload. */
  lemma SumsKept(g: View, s: Queues)
    requires Inv(g, s)
    ensures forall x :: x in s.unacked || x in s.unsent ==> x.sum == PairOf(x.data)
    ensures s.unsent != [] ==> LastOf(s.unsent).sum == PairOf(LastOf(s.unsent).data)
  {
    hide PairOf, Flight, Merged;
    FlightKeepsSums(g.flight, g.start, g.conn, g.End(), s.unacked, s.unsent);
  }

  lemma {:induction false} FlightKeepsSums(f: seq<Seg>, p: int, c: Conn, end: int, a: seq<Seg>, b: seq<Seg>)
    requires Flight(f, p, c, end) && Merged(f, a, b)
    ensures forall x :: x in a || x in b ==> x.sum == PairOf(x.data)
    decreases |f|
  {
    hide PairOf, Num;
    if f != [] {
      var p' := p + f[0].TcpLen();
      if a != [] && a[0] == f[0] && Merged(f[1..], a[1..], b) {
        FlightKeepsSums(f[1..], p', c, end, a[1..], b);
        assert a == [a[0]] + a[1..];
      } else {
        FlightKeepsSums(f[1..], p', c, end, a, b[1..]);
        assert b == [b[0]] + b[1..];
      }
    }
  }

  lemma LastHasBytes(g: View, s: Queues)
    requires Inv(g, s) && s.unsent != [] && !LastOf(s.unsent).syn && !LastOf(s.unsent).fin
    ensures LastOf(s.unsent).data != []
  {
    MergedSwap(g.flight, s.unacked, s.unsent);
    var q := LastPos(g.flight, g.start, g.conn, g.End(), s.unsent, s.unacked);
  }

  lemma LastAt(g: View, s: Queues, l: Seg)
    requires Inv(g, s) && !g.fin && s.unsent != [] && l == LastOf(s.unsent) && l.data != []
    ensures !l.syn && !l.fin && 0 < |l.data| <= TCP_SND_BUF && l.Next() != l.seqno
  {
    NotFlagged(g, s.unacked, s.unsent);
    BytesOfLast(s.unsent);
    hide Num, Merged, Flight, Holds;
    assert l.TcpLen() == |l.data|;
  }

  lemma NotFlagged(g: View, unacked: seq<Seg>, unsent: seq<Seg>)
    requires Contiguous(g, unacked, unsent) && !g.fin && unsent != [] && LastOf(unsent).data != []
    ensures !LastOf(unsent).syn && !LastOf(unsent).fin
  {
    hide Num;
    MergedSwap(g.flight, unacked, unsent);
    var q := LastPos(g.flight, g.start, g.conn, g.End(), unsent, unacked);
  }

  lemma BytesOfLast(q: seq<Seg>)
    requires q != []
    ensures |LastOf(q).data| <= Bytes(q)
  {
    BytesConcat(q[..|q| - 1], [LastOf(q)]);
    BytesOne(LastOf(q));
    assert q == q[..|q| - 1] + [LastOf(q)];
  }

  lemma Members(f: seq<Seg>, a: seq<Seg>, b: seq<Seg>)
    requires Merged(f, a, b)
    ensures forall x :: x in f <==> x in a || x in b
  {
    MergedSums(f, a, b);
    forall x ensures x in f <==> x in a || x in b {
      assert x in f <==> x in multiset(f);
      assert x in a <==> x in multiset(a);
      assert x in b <==> x in multiset(b);
    }
  }

  lemma Elsewhere(f: seq<Seg>, a: seq<Seg>, b: seq<Seg>, y: Seg)
    requires Merged(f, a, b) && y in f && b != [] && y.seqno != LastOf(b).seqno
    ensures y in a || y in b[..|b| - 1]
  {
    Members(f, a, b);
  }

  lemma WrittenSpan(g: View, s: Queues, data: seq<U8>, ext: nat, pbufs: nat, psh: bool, segs: seq<Seg>, g': View)
    requires Inv(g, s) && ext <= |data| <= s.snd_buf && s.unsent != []
    requires Flight(segs, g.End() + ext, Conn(g.conn.iss, g.conn.stream + data), g.End() + |data|) && !g.fin
    requires Contiguous(g', s.unacked,
                        s.unsent[..|s.unsent| - 1] + [Extended(LastOf(s.unsent), data[..ext], pbufs, psh)] + segs)
    ensures g'.End() - g'.start <= TCP_SND_BUF + 2
  {
    hide Flight, Merged, Holds, Num;
    var l' := Extended(LastOf(s.unsent), data[..ext], pbufs, psh);
    var b := s.unsent[..|s.unsent| - 1] + [l'] + segs;
    FreshBytes(segs, g.End() + ext, Conn(g.conn.iss, g.conn.stream + data), g.End() + |data|);
    LastSums(s.unsent, l', segs);
    MergedSums(g'.flight, s.unacked, b);
    FlightSpan(g'.flight, g'.start, g'.conn, g'.End());
  }

  lemma StandsInside(l: Seg, pl: int, y: Seg, py: int, n: nat, c: Conn)
    requires Holds(l, pl, c) && Holds(y, py, c) && n < l.TcpLen() && -QUARTER < py - pl < QUARTER && n < QUARTER
    requires y.seqno == Add(l.seqno, n)
    ensures py < pl + l.TcpLen() && pl < py + y.TcpLen()
  {
    NumAdd(pl, n);
    HalfWindow(py, pl + n);
    HalfWindow(py, py);
  }

  // ---------- payloads ----------

  lemma FlightSums(g: View, s: Queues)
    requires Inv(g, s)
    ensures Bytes(g.flight) == Bytes(s.unacked) + Bytes(s.unsent)
  {
    MergedSums(g.flight, s.unacked, s.unsent);
  }

  lemma PayloadConcat(a: seq<Seg>, b: seq<Seg>)
    ensures Payload(a + b) == Payload(a) + Payload(b)
    ensures |b| == 1 ==> Payload(b) == b[0].data
  {
    if a == [] {
      assert a + b == b;
      if |b| == 1 {
        assert b[1..] == [];
      }
    } else {
      assert (a + b)[0] == a[0] && (a + b)[1..] == a[1..] + b;
      PayloadConcat(a[1..], b);
    }
  }

  lemma SplitPayload(q: seq<Seg>, h1: Seg, h2: Seg)
    requires q != [] && h1.data + h2.data == q[0].data
    ensures Payload([h1, h2] + q[1..]) == Payload(q)
  {
    PayloadConcat([h1, h2], q[1..]);
    PayloadConcat([h1], [h2]);
    PayloadConcat([], [h1]);
    assert [h1] + [h2] == [h1, h2] && [] + [h1] == [h1];
  }

  lemma {:induction false} LastPayload(q: seq<Seg>, l: Seg, more: seq<U8>)
    requires q != [] && l.data == LastOf(q).data + more
    ensures Payload(q[..|q| - 1] + [l]) == Payload(q) + more
  {
    hide Payload;
    LonerPayload(q[..|q| - 1], LastOf(q), l, more);
    assert q == q[..|q| - 1] + [LastOf(q)];
  }

  lemma {:induction false} LonerPayload(q: seq<Seg>, x: Seg, l: Seg, more: seq<U8>)
    requires l.data == x.data + more
    ensures Payload(q + [l]) == Payload(q + [x]) + more
  {
    hide Payload;
    PayloadConcat(q, [x]);
    PayloadConcat(q, [l]);
  }

  lemma {:induction false} WrittenPayload(g: View, s: Queues, data: seq<U8>, ext: nat, pbufs: nat, psh: bool,
                                          segs: seq<Seg>, oversize: nat)
    requires !g.fin && ext <= |data| && (ext > 0 || psh ==> s.unsent != [])
    requires Flight(segs, g.End() + ext, Conn(g.conn.iss, g.conn.stream + data), g.End() + |data|)
    ensures Payload(Written(s, data, ext, pbufs, psh, segs, oversize).unsent) == Payload(s.unsent) + data
  {
    hide Flight, PairOf;
    FreshPayload(g, data, ext, segs);
    var tail := if ext > 0 || psh
                then s.unsent[..|s.unsent| - 1] + [Extended(LastOf(s.unsent), data[..ext], pbufs, psh)]
                else s.unsent;
    if ext > 0 || psh {
      LastPayload(s.unsent, Extended(LastOf(s.unsent), data[..ext], pbufs, psh), data[..ext]);
    } else {
      assert data[..ext] == [];
    }
    hide Extended;
    PayloadConcat(tail, segs);
  }

  lemma {:induction false} FreshPayload(g: View, data: seq<U8>, ext: nat, segs: seq<Seg>)
    requires !g.fin && ext <= |data|
    requires Flight(segs, g.End() + ext, Conn(g.conn.iss, g.conn.stream + data), g.End() + |data|)
    ensures Payload(segs) == data[ext..]
  {
    hide Payload, Bytes, Holds;
    var c := Conn(g.conn.iss, g.conn.stream + data);
    if segs == [] {
      NoPayload();
    } else {
      FreshBytes(segs, g.End() + ext, c, g.End() + |data|);
      FlightPayload(segs, g.End() + ext, c, g.End() + |data|);
    }
  }

  lemma NoPayload()
    ensures Payload([]) == []
  {
  }

  lemma WrittenSizes(s: Queues, data: seq<U8>, ext: nat, pbufs: nat, psh: bool, segs: seq<Seg>, oversize: nat, mss: nat)
    requires ext <= |data| && (s.unsent != [] ==> |LastOf(s.unsent).data| + ext <= mss)
    requires forall x :: x in segs ==> |x.data| <= mss
    ensures forall x :: x in Written(s, data, ext, pbufs, psh, segs, oversize).unsent ==>
              x in s.unsent || |x.data| <= mss
  {
  }

  lemma NoFinYet(g: View, s: Queues)
    requires Inv(g, s) && Writable(s.state) && s.unsent != []
    ensures !LastOf(s.unsent).fin
  {
    MergedSwap(g.flight, s.unacked, s.unsent);
    var q := LastPos(g.flight, g.start, g.conn, g.End(), s.unsent, s.unacked);
  }

  // ---------- new segments ----------

  lemma NoFlight(p: int, c: Conn)
    ensures Flight([], p, c, p) && Pbufs([]) == 0
  {
  }

  lemma FreshHolds(x: Seg, data: seq<U8>, pos: nat, n: nat, c: Conn, p: int)
    requires 0 < n && pos + n <= |data| && p > c.iss && p - c.iss - 1 + |data| == |c.stream|
             && c.stream[p - c.iss - 1..] == data
    requires x.seqno == Add(Num(p), pos) && x.data == data[pos..pos + n] && !x.syn && !x.fin && x.sum == PairOf(x.data)
    ensures Holds(x, p + pos, c)
  {
    NumAdd(p, pos);
    forall k | 0 <= k < n ensures x.data[k] == c.stream[p - c.iss - 1 + pos + k] {
      assert c.stream[p - c.iss - 1..][pos + k] == c.stream[p - c.iss - 1 + pos + k];
    }
  }

  lemma SnocFlight(f: seq<Seg>, x: Seg, p: int, c: Conn, mid: int)
    requires Flight(f, p, c, mid) && Holds(x, mid, c)
    ensures Flight(f + [x], p, c, mid + x.TcpLen())
  {
    LoneFlight(x, mid, c, mid + x.TcpLen());
    assert [x] + [] == [x];
    FlightAppend(f, [x], p, c, mid, mid + x.TcpLen());
  }

  lemma StreamEnd(g: View, s: Queues, data: seq<U8>)
    requires Inv(g, s) && Writable(s.state)
    ensures var c := Conn(g.conn.iss, g.conn.stream + data);
            && s.snd_lbb == Num(g.End()) && g.End() > c.iss && g.End() - c.iss - 1 + |data| == |c.stream|
            && c.stream[g.End() - c.iss - 1..] == data
  {
  }

  /** What fits the window in 32-bit arithmetic fits it as integers. */
  lemma WithinWindow(g: View, s: Queues, wnd: int, q: int)
    requires Inv(g, s) && s.unsent != [] && g.End() - g.start <= TCP_SND_BUF + 2
    requires 0 <= (s.unsent[0].seqno - s.lastack + |s.unsent[0].data|) % WRAP <= wnd < QUARTER
    requires g.start + s.unsent[0].TcpLen() <= q <= g.End() && s.unsent[0].Next() == Num(q)
    ensures q <= g.una + wnd + 1
  {
    var x := s.unsent[0];
    hide Merged, Flight, Bytes, Pbufs, EndsAt;
    var n: int, flag: int := |x.data|, x.TcpLen() - |x.data|;
    var w := (x.seqno - s.lastack + n) % WRAP;
    CongruentWindow(x.seqno, s.lastack, n, flag, w, q, g.una);
  }

  /** The data of a queued segment ends inside the peer's window, in stream positions. */
  ghost predicate InWindow(g: View, x: Seg, wnd: int) {
    exists p :: StandsAt(g, x, p) && g.una <= p + |x.data| <= g.una + wnd
  }

  /** The segment stands at position `p`. */
  ghost predicate StandsAt(g: View, x: Seg, p: int) {
    g.start <= p && p + x.TcpLen() <= g.End() && Holds(x, p, g.conn)
  }

  lemma SameWindow(g: View, g': View, x: Seg, wnd: int)
    requires g' == g.(nxt := g'.nxt)
    ensures InWindow(g, x, wnd) <==> InWindow(g', x, wnd)
  {
    hide Holds;
    forall p ensures StandsAt(g, x, p) <==> StandsAt(g', x, p) {
    }
  }

  /** The test of tcp_output, in 32-bit arithmetic, finds that out. */
  lemma HeadInWindow(g: View, s: Queues, wnd: int)
    requires Inv(g, s) && s.unsent != [] && 0 <= wnd < QUARTER
    ensures (s.unsent[0].seqno - s.lastack + |s.unsent[0].data|) % WRAP <= wnd <==> InWindow(g, s.unsent[0], wnd)
  {
    var x := s.unsent[0];
    Span(g, s);
    MergedSwap(g.flight, s.unacked, s.unsent);
    var at := HeadPos(g.flight, g.start, g.conn, g.End(), s.unsent, s.unacked);
    hide Merged, Flight, Bytes, Pbufs, EndsAt, Conserved, PairOf;
    assert StandsAt(g, x, at);
    forall p | StandsAt(g, x, p)
      ensures (x.seqno - s.lastack + |x.data|) % WRAP <= wnd <==> g.una <= p + |x.data| <= g.una + wnd
    {
      AheadOf(x.seqno, s.lastack, |x.data|, p, g.una, wnd);
    }
  }

  lemma AheadOf(seqno: U32, lastack: U32, n: nat, p: int, una: int, wnd: int)
    requires seqno == p % WRAP && lastack == una % WRAP && -QUARTER < p + n - una < QUARTER && 0 <= wnd < QUARTER
    ensures (seqno - lastack + n) % WRAP <= wnd <==> una <= p + n <= una + wnd
  {
    var j, k := p / WRAP, una / WRAP;
    assert p == j * WRAP + seqno && una == k * WRAP + lastack;
    assert seqno - lastack + n == (p + n - una) + (k - j) * WRAP;
    Around(p + n - una, k - j);
  }

  lemma Around(d: int, k: int)
    requires -QUARTER < d < QUARTER
    ensures (d + k * WRAP) % WRAP == if d >= 0 then d else d + WRAP
  {
  }

  lemma CongruentWindow(seqno: U32, lastack: U32, n: int, flag: int, w: int, q: int, una: int)
    requires w == (seqno - lastack + n) % WRAP && lastack == una % WRAP && Add(seqno, n + flag) == q % WRAP
    requires -QUARTER < q - flag - una < QUARTER && 0 <= w < QUARTER
    ensures q - flag == una + w
  {
    var j, k := (seqno - lastack + n) / WRAP, una / WRAP;
    assert seqno - lastack + n == j * WRAP + w && una == k * WRAP + lastack;
    var l, m := (seqno + (n + flag)) / WRAP, q / WRAP;
    assert seqno + (n + flag) == l * WRAP + q % WRAP && q == m * WRAP + q % WRAP;
    assert q - flag - (una + w) == (m - l + j - k) * WRAP;
  }

  /** The state after a passive open. */
  lemma OpenInv(iss: U32)
    ensures var syn := Seg(iss, [], true, false, false, 1, PairOf([]));
            Inv(View(Conn(iss, []), [syn], iss, iss, iss, false, false),
                Queues([], [syn], 0, iss, iss, Add(iss, 1), TCP_SND_BUF, 1, SYN_RCVD))
  {
    var syn, c := Seg(iss, [], true, false, false, 1, PairOf([])), Conn(iss, []);
    LoneFlight(syn, iss, c, c.End(false));
    assert [syn] + [] == [syn];
    MergedOne([syn]);
    BytesOne(syn);
    NumAdd(iss, 1);
  }

  /** What the methods need to know of the invariant. */
  lemma Facts(g: View, s: Queues)
    requires Inv(g, s)
    ensures s.oversize > 0 ==> s.unsent != [] && LastOf(s.unsent).data != [] && TailOk(g, s)
    ensures Writable(s.state) ==> !g.fin
    ensures s.snd_buf >= 0 && g.una <= g.nxt && Contiguous(g, s.unacked, s.unsent)
  {
  }

  // ---------- a run that breaks the order ----------

  function Syn(iss: U32): Seg {
    Seg(iss, [], true, false, false, 1, PairOf([]))
  }

  function Opened(iss: U32): Queues {
    Queues([], [Syn(iss)], 0, iss, iss, Add(iss, 1), TCP_SND_BUF, 1, SYN_RCVD)
  }

  /** A segment with one byte. */
  function OneByte(seqno: U32, b: U8): Seg {
    Seg(seqno, [b], false, false, true, 1, PairOf([b]))
  }

  function ByteSent(s: Queues, b: U8): Queues {
    Sent(Written(s, [b], 0, 0, false, [OneByte(s.snd_lbb, b)], 0))
  }

  /** The SYN is sent and acknowledged, then a byte is written and sent, and another one. */
  function TwoSent(iss: U32, a: U8, b: U8): Queues {
    ByteSent(ByteSent(Acked(Sent(Opened(iss)), Add(iss, 1)), a), b)
  }

  lemma NextNumber(n: U32)
    ensures SeqLt(n, Add(n, 1)) && !SeqLeq(Add(n, 1), n) && SeqLeq(n, n) && SeqBetween(n, n, n)
    ensures Diff(Add(n, 1), n) == 1
  {
    HalfWindow(n, n + 1);
    HalfWindow(n + 1, n);
    HalfWindow(n, n);
  }

  /** The facts about numbers and lists that the run needs. */
  lemma {:induction false} SynSteps(iss: U32)
    ensures var syn, n := Syn(iss), Add(iss, 1);
            && Insert([], syn) == [syn] && syn.Next() == n && SeqLt(iss, n) && !SeqLeq(n, iss) && SeqBetween(n, n, n)
            && DropAcked([syn], n) == [] && DropAcked([], n) == []
            && Bytes([syn]) == 0 && Bytes([]) == 0 && Pbufs([syn]) == 1 && Pbufs([]) == 0
  {
    hide Add, SeqBetween, SeqLt, Diff;
    var syn := Syn(iss);
    NextNumber(iss);
    NextNumber(Add(iss, 1));
    assert [syn][1..] == [];
    BytesOne(syn);
  }

  lemma {:induction false} SynSent(iss: U32)
    ensures Sent(Opened(iss)) == Queues([Syn(iss)], [], 0, iss, Add(iss, 1), Add(iss, 1), TCP_SND_BUF, 1, SYN_RCVD)
  {
    hide Insert, SeqLt, Add;
    SynSteps(iss);
    assert [Syn(iss)][1..] == [];
  }

  lemma {:induction false} OpenedAndAcked(iss: U32) returns (g: View)
    ensures var n := Add(iss, 1);
            && Inv(g, Acked(Sent(Opened(iss)), n)) && g.conn == Conn(iss, []) && !g.fin && g.nxt == g.End()
            && Acked(Sent(Opened(iss)), n) == Queues([], [], 0, n, n, n, TCP_SND_BUF, 0, SYN_RCVD)
  {
    hide Inv, Insert, DropAcked, Bytes, Pbufs, SeqLt, SeqLeq, SeqBetween, Add, Sent, Num;
    OpenInv(iss);
    SynSteps(iss);
    SynSent(iss);
    var g0 := View(Conn(iss, []), [Syn(iss)], iss, iss, iss, false, false);
    var g1 := SentInv(g0, Opened(iss));
    g := AckedInv(g1, Sent(Opened(iss)), Add(iss, 1));
    SynAtEnd(g1, Sent(Opened(iss)), iss);
  }

  lemma SynAtEnd(g: View, s: Queues, iss: U32)
    requires Inv(g, s) && g.conn == Conn(iss, []) && !g.fin && s.snd_nxt == Add(iss, 1)
    ensures g.nxt == g.End()
  {
    hide Merged, Flight, Conserved, EndsAt, Num, Add;
    NumOf(iss);
    NumAddTo(iss, g.nxt);
  }

  lemma NumOf(n: U32)
    ensures Num(n) == n
  {
  }

  lemma {:induction false} ByteSentInv(g: View, s: Queues, b: U8) returns (g': View)
    requires Inv(g, s) && Writable(s.state) && s.unsent == [] && s.oversize == 0 && s.snd_buf > 0 && g.nxt == g.End()
    ensures Inv(g', ByteSent(s, b)) && g'.conn == Conn(g.conn.iss, g.conn.stream + [b]) && !g'.fin && g'.nxt == g'.End()
    ensures var n := Add(s.snd_lbb, 1);
            ByteSent(s, b) == Queues(Insert(s.unacked, OneByte(s.snd_lbb, b)), [], 0, s.lastack, n, n, s.snd_buf - 1,
                                     s.snd_queuelen + 1, s.state)
  {
    hide Inv, Insert, Written, Sent, Flight, TailOk, Num, Add;
    var x := OneByte(s.snd_lbb, b);
    LoneByte(g, s, b);
    Facts(g, s);
    ByteWritten(s, b);
    var g1 := WrittenInv(g, s, [b], 0, 0, false, [x], 0);
    g' := SentInv(g1, Written(s, [b], 0, 0, false, [x], 0));
    ByteAtEnd(g, s, g', ByteSent(s, b));
  }

  lemma ByteAtEnd(g: View, s: Queues, g': View, s': Queues)
    requires Inv(g, s) && Inv(g', s') && g.nxt == g.End() && !g.fin && !g'.fin && g.nxt <= g'.nxt <= g'.End()
    requires g'.End() == g.End() + 1 && s'.snd_nxt == Add(s.snd_lbb, 1)
    ensures g'.nxt == g'.End()
  {
    hide Merged, Flight, Conserved, EndsAt, Num, Add;
    NumAddTo(g.End(), g'.nxt);
  }

  lemma NumAddTo(p: int, q: int)
    requires p <= q <= p + 1 && Num(q) == Add(Num(p), 1)
    ensures q == p + 1
  {
    NumAdd(p, 1);
    HalfWindow(q, p + 1);
    HalfWindow(q, q);
  }

  lemma {:induction false} ByteWritten(s: Queues, b: U8)
    requires s.unsent == [] && s.oversize == 0 && s.snd_nxt == s.snd_lbb
    ensures var x, n := OneByte(s.snd_lbb, b), Add(s.snd_lbb, 1);
            var w := Written(s, [b], 0, 0, false, [x], 0);
            && w.unsent == [x]
            && Sent(w) == Queues(Insert(s.unacked, x), [], 0, s.lastack, n, n, s.snd_buf - 1,
                              s.snd_queuelen + 1, s.state)
  {
    hide Insert, Add, SeqLt, Pbufs;
    var x := OneByte(s.snd_lbb, b);
    assert [] + [x] == [x] && [x][1..] == [];
    BytesOne(x);
    NextNumber(s.snd_lbb);
  }

  lemma LoneByte(g: View, s: Queues, b: U8)
    requires Inv(g, s) && Writable(s.state) && g.nxt == g.End()
    ensures Flight([OneByte(s.snd_lbb, b)], g.End() + 0, Conn(g.conn.iss, g.conn.stream + [b]), g.End() + 1)
    ensures s.snd_nxt == s.snd_lbb
  {
    var x, c := OneByte(s.snd_lbb, b), Conn(g.conn.iss, g.conn.stream + [b]);
    assert Holds(x, g.End(), c);
    LoneFlight(x, g.End(), c, g.End() + 1);
    assert [x] + [] == [x];
  }

  /** The conditions of RequeuedIff, WriteOnLastIff and FinOnLastIff fail in a state that is reached: two segments of
      one byte are sent, and the first one is retransmitted. The retransmission timer would put the second one in front
      of the first; a write, or a FIN, would go behind the first one, where the second one stands. */
  lemma {:induction false} FastRetransmitBreaksOrder(iss: U32, a: U8, b: U8) returns (g: View)
    ensures var s := Rexmitted(TwoSent(iss, a, b), true);
            && Inv(g, s) && Writable(s.state) && |s.unacked| == |s.unsent| == 1 && s.unacked[0].data == [b]
            && s.unsent[0].data == [a]
            && !InOrder(s) && !TailOk(g, s)
            && !Merged(g.flight, [], s.unacked + s.unsent)
            && (forall c: U8, psh: bool, g': View :: g'.conn == Conn(g.conn.iss, g.conn.stream + [c]) && !g'.fin ==>
                 !Contiguous(g', s.unacked, Written(s, [c], 1, 1, psh, [], 0).unsent))
            && forall g': View :: g'.conn == g.conn && g'.fin ==>
                 !Contiguous(g', s.unacked, FinOnLast(s, FIN_WAIT_1).unsent)
  {
    hide Inv, Insert, Contiguous, Merged, Written, ByteSent, Acked, InOrder, Flight, SeqLt, TailOk, Before, Num, Add;
    g := TwoUnacked(iss, a, b);
    var s := TwoSent(iss, a, b);
    RexmittedInv(g, s, true);
    RexmitTailIff(g, s, true);
    InsertNone(s.unacked[0]);
    var s' := Rexmitted(s, true);
    NotInOrder(s');
    RequeuedIff(g, s');
    FinOnLastIff(g, s', FIN_WAIT_1);
    Facts(g, s');
    forall c: U8, psh: bool, g': View | g'.conn == Conn(g.conn.iss, g.conn.stream + [c]) && !g'.fin
      ensures !Contiguous(g', s'.unacked, Written(s', [c], 1, 1, psh, [], 0).unsent)
    {
      NoFlight(g.End() + 1, Conn(g.conn.iss, g.conn.stream + [c]));
      WriteOnLastIff(g, s', [c], 1, 1, psh, []);
    }
  }

  lemma {:induction false} TwoUnacked(iss: U32, a: U8, b: U8) returns (g: View)
    ensures var s := TwoSent(iss, a, b);
            && Inv(g, s) && !g.fin && Writable(s.state) && TailOk(g, s) && s.unsent == [] && s.snd_buf > 0
            && |s.unacked| == 2 && s.unacked[0].data == [a] && s.unacked[1].data == [b]
            && Before(s.unacked[0], s.unacked[1])
            && !Before(s.unacked[1], s.unacked[0])
  {
    hide Inv, Insert, Acked, Num, Add, Merged, ByteSent, Before;
    var s := Acked(Sent(Opened(iss)), Add(iss, 1));
    g := OpenedAndAcked(iss);
    g := ByteSentInv(g, s, a);
    g := ByteSentInv(g, ByteSent(s, a), b);
    InsertNone(OneByte(s.snd_lbb, a));
    InsertBehind(OneByte(s.snd_lbb, a), OneByte(Add(s.snd_lbb, 1), b));
  }

  lemma InsertNone(x: Seg)
    ensures Insert([], x) == [x]
  {
  }

  lemma InsertBehind(x: Seg, y: Seg)
    requires y.seqno == Add(x.seqno, 1)
    ensures Insert([x], y) == [x, y] && Before(x, y) && !Before(y, x)
  {
    hide Add, Diff;
    NextNumber(x.seqno);
    assert [x][1..] == [];
  }

  lemma NotInOrder(s: Queues)
    requires s.unacked != [] && s.unsent != [] && !Before(LastOf(s.unacked), s.unsent[0])
    ensures !InOrder(s)
  {
  }
}
