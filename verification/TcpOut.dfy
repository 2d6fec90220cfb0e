/** The send side of a connection: tcp_write, tcp_output, the retransmissions and the splitting of tcp_out.c, and the
    part of tcp_receive in tcp_in.c that handles acknowledgements. */
module TcpOut {
  import opened TcpStates
  import opened Seqs
  import opened Words
  import opened Seq32
  import opened Checksum
  import opened TcpChecksum
  import opened TcpSendQueue
  import opened TcpSendState
  import opened TcpSendSize

  /** LWIP_MEM_ALIGN_SIZE for four-byte alignment. */
  function AlignUp(n: nat): nat {
    (n + 3) / 4 * 4
  }

  /** The loop of tcp_rexmit and tcp_output that puts a segment at its place in a sorted list. */
  method InsertSorted(q: seq<Seg>, x: Seg) returns (r: seq<Seg>, atEnd: bool)
    ensures r == Insert(q, x) && r != []
    ensures !atEnd ==> q != [] && LastOf(r) == LastOf(q)
  {
    hide Insert, Before, LastOf, PairOf;
    var front: seq<Seg>, cur := [], q;
    while cur != [] && Before(cur[0], x)
      invariant q == front + cur && Insert(q, x) == front + Insert(cur, x)
      decreases |cur|
    {
      InsertStep(cur, x);
      Regroup(front, cur[0], Insert(cur[1..], x));
      front, cur := front + [cur[0]], cur[1..];
    }
    InsertStep(cur, x);
    r := front + ([x] + cur);
    atEnd := cur == [];
    SameLast(front, x, cur);
  }

  lemma SameLast(a: seq<Seg>, x: Seg, b: seq<Seg>)
    ensures a + ([x] + b) != [] && (b != [] ==> LastOf(a + ([x] + b)) == LastOf(a + b))
  {
  }

  lemma InsertStep(q: seq<Seg>, x: Seg)
    ensures Insert(q, x) == if q == [] || !Before(q[0], x) then [x] + q else [q[0]] + Insert(q[1..], x)
  {
  }

  /** The place of a segment in the unacked queue, as tcp_output finds it. (A segment of no length would not go
      there, but none is ever queued.) */
  method ToUnacked(unacked: seq<Seg>, seg: Seg, ghost g: View, ghost unsent: seq<Seg>) returns (r: seq<Seg>)
    requires Contiguous(g, unacked, unsent) && g.End() - g.start < HALF && unsent != [] && unsent[0] == seg
    ensures r == Insert(unacked, seg) && r != []
  {
    if unacked == [] {
      r := [seg];
    } else if Before(seg, LastOf(unacked)) {
      var end;
      r, end := InsertSorted(unacked, seg);
    } else {
      InsertAtEnd(g.flight, g.start, g.conn, g.End(), unacked, unsent);
      r := unacked + [seg];
    }
  }

  const IP_PROTO_TCP: U8 := 6

  /** What tcp_output meets: whether it runs inside input processing, where it leaves the work to later; whether an
      empty acknowledgement is due, and what comes of sending that; whether there is a route; and what comes of sending
      the k-th segment. */
  datatype Path = Path(inInput: bool, ackNow: bool, ack: Err, route: bool, sent: nat -> Err)

  /** The checksum of a new segment's payload. */
  method SumOf(data: seq<U8>, copied: bool, addr: nat) returns (sum: Pair)
    requires |data| <= 0xFFFF
    ensures sum == PairOf(data)
  {
    var seg := new SegChksum(data, copied, addr);
    sum := seg.Fields();
  }

  /** A chain of pbufs that holds some bytes, cut at the lengths given, as far as they go. */
  function Pieces(data: seq<U8>, lens: seq<nat>): seq<seq<U8>>
    decreases |lens|, |data|
  {
    var n := Min(|data|, if lens == [] then 0xFFFF else Min(lens[0], 0xFFFF));
    if lens != [] then [data[..n]] + Pieces(data[n..], lens[1..])
    else if data == [] then [] else [data[..n]] + Pieces(data[n..], lens)
  }

  lemma {:induction false} PiecesFlat(data: seq<U8>, lens: seq<nat>)
    ensures Flat(Pieces(data, lens)) == data
    ensures forall i :: 0 <= i < |Pieces(data, lens)| ==> |Pieces(data, lens)[i]| <= 0xFFFF
    decreases |lens|, |data|
  {
    var n := Min(|data|, if lens == [] then 0xFFFF else Min(lens[0], 0xFFFF));
    if lens != [] {
      PiecesFlat(data[n..], lens[1..]);
    } else if data != [] {
      PiecesFlat(data[n..], lens);
    }
    assert data[..n] + data[n..] == data;
  }

  /** The checksum of a trimmed segment, from the chain of pbufs that holds its headers and what is left of its data. */
  method SumAnew(data: seq<U8>, hdr: seq<U8>, lens: seq<nat>) returns (sum: Pair)
    ensures sum == PairOf(data)
  {
    hide PairOf, Pieces, Flat;
    PiecesFlat(hdr + data, lens);
    TcpChecksum.NoBytes();
    assert (hdr + data)[|hdr|..] == data;
    var seg := new SegChksum.Of(Pair(0, false), []);
    seg.Resum(Pieces(hdr + data, lens), |hdr|);
    sum := seg.Fields();
  }

  /** The checksum of a segment that holds the first `pos` bytes of `data` behind `front`, when the next `n` come:
      in phase 1 they are copied into the room at its end, in phase 2 they are chained on. */
  method SumMore(ghost front: seq<U8>, sum: Pair, data: seq<U8>, pos: nat, n: nat, copied: bool, copy: bool,
                 at: nat -> nat)
    returns (sum': Pair)
    requires pos + n <= |data| <= 0xFFFF && sum == PairOf(front + data[..pos])
    ensures sum' == PairOf(front + data[..pos + n])
  {
    hide PairOf;
    assert front + data[..pos] + data[pos..pos + n] == front + data[..pos + n];
    var seg := new SegChksum.Of(sum, front + data[..pos]);
    if copied {
      seg.AppendCopy(data[pos..pos + n], at(pos));
    } else {
      seg.AppendConcat(data[pos..pos + n], copy, at(pos));
    }
    sum' := seg.Fields();
  }

  class SendPcb {
    var state: State
    var unacked: seq<Seg>
    var unsent: seq<Seg>
    /** Room at the end of the last pbuf of the last unsent segment. */
    var unsent_oversize: nat
    var lastack: U32
    var snd_nxt: U32
    var snd_lbb: U32
    var snd_buf: int
    var snd_queuelen: int
    var snd_wnd_max: nat
    var mss: U16
    var nodelay: bool
    var infr: bool
    var nagle_mem_err: bool
    var closepend: bool

    ghost var g: View

    function Now(): Queues
      reads this
    {
      Queues(unacked, unsent, unsent_oversize, lastack, snd_nxt, snd_lbb, snd_buf, snd_queuelen, state)
    }

    /** Both queues together hold one contiguous stretch of what was ever written, up to its end, the counters
        agree with them, and no segment is too large. */
    ghost predicate Valid()
      reads this
    {
      Inv(g, Now()) && mss > 0 && Sized(Now(), MssLocal())
    }

    /** The largest segment that tcp_write makes. */
    function MssLocal(): nat
      reads `mss, `snd_wnd_max
    {
      MssOf(mss, snd_wnd_max)
    }

    /** The last unsent segment ends where everything queued ends. */
    ghost predicate Tail()
      reads this
    {
      TailOk(g, Now())
    }

    /** A write of `len` bytes would go onto the last unsent segment in phase 2, but that one does not end what is
        queued: tcp_rexmit has put it there. */
    predicate WriteAstray(len: nat)
      reads this
    {
      Writable(state) && Chains(len) && !EndsAt(unsent, snd_lbb)
    }

    /** The same for a FIN. */
    predicate FinAstray()
      reads this
    {
      Writable(state) && unsent != [] && !LastOf(unsent).syn && !EndsAt(unsent, snd_lbb)
    }

    /** A passive open: what tcp_listen_input sets up before the SYN, ACK is sent. */
    constructor (iss: U32, mss: U16, snd_wnd: U16)
      requires mss > 0
      ensures Valid() && Tail() && g.conn == Conn(iss, []) && state == SYN_RCVD
      ensures this.mss == mss && snd_wnd_max == snd_wnd && unsent_oversize == 0 && !closepend
      ensures g.una == iss && unacked == [] && unsent == [Seg(iss, [], true, false, false, 1, Pair(0, false))]
    {
      var syn := Seg(iss, [], true, false, false, 1, Pair(0, false));
      state, unacked, unsent, unsent_oversize := SYN_RCVD, [], [syn], 0;
      lastack, snd_nxt, snd_lbb := iss, iss, Add(iss, 1);
      snd_buf, snd_queuelen, this.mss, snd_wnd_max := TCP_SND_BUF, 1, mss, snd_wnd;
      nodelay, infr, nagle_mem_err, closepend := false, false, false, false;
      g := View(Conn(iss, []), [syn], iss, iss, iss, false, false);
      new;
      TcpChecksum.NoBytes();
      OpenInv(iss);
    }

    // ---------- tcp_output ----------

    /** tcp_do_output_nagle, and the flags that override it: an earlier memory error, or a FIN that is queued. */
    predicate MaySend(memErr: bool)
      reads `unacked, `unsent, `nodelay, `infr, `mss, `snd_buf, `snd_queuelen, `state
    {
      || unacked == [] || nodelay || infr
      || (unsent != [] && (|unsent| > 1 || |unsent[0].data| >= mss))
      || snd_buf == 0 || snd_queuelen >= TCP_SND_QUEUELEN
      || memErr || !Writable(state)
    }

    /** Does the head of the unsent queue fit the window? In 32-bit arithmetic. */
    predicate HeadFits(wnd: U32)
      requires unsent != []
      reads `unsent, `lastack
    {
      (unsent[0].seqno - lastack + |unsent[0].data|) % WRAP <= wnd
    }

    /** tcp_output. It does nothing inside input processing, without a route, or if nothing can be sent while an empty
        acknowledgement is due, which it sends instead. Otherwise it sends `n` segments, in order and as many as it
        may: it stops only when all is sent, at a segment that does not end inside the window, at one that the driver
        does not take, or at a last short segment, while data is in flight, that the Nagle algorithm holds back
        (section 4.2.3.4 of RFC 1122), unless the buffer or the queue is full, a FIN is queued, or memory ran out
        before. */
    method Output(wnd: U32, path: Path) returns (err: Err, ghost n: nat)
      requires Valid() && wnd < QUARTER
      modifies `unacked, `unsent, `unsent_oversize, `snd_nxt, `g, `nagle_mem_err
      ensures Valid() && g == old(g).(nxt := g.nxt)
      ensures old(Tail()) ==> Tail()
      ensures n <= |old(unsent)| && unsent == old(unsent)[n..] && forall k: nat :: k < n ==> path.sent(k) == ERR_OK
      ensures old(g.nxt) <= g.nxt && (g.nxt == old(g.nxt) || g.nxt <= g.una + wnd + 1)
      ensures path.inInput || (old(unsent) != [] && !path.route) ==>
                && err == (if path.inInput then ERR_OK else ERR_RTE)
                && Now() == old(Now()) && g == old(g) && nagle_mem_err == old(nagle_mem_err)
      ensures !path.inInput && (old(unsent) == [] || (path.route && !old(InWindow(g, unsent[0], wnd)))) ==>
                && Now() == old(Now()) && g == old(g)
                && (if path.ackNow then err == path.ack && nagle_mem_err == old(nagle_mem_err)
                    else err == ERR_OK && !nagle_mem_err)
      ensures !path.inInput && path.route && old(unsent) != [] && old(InWindow(g, unsent[0], wnd)) ==>
                && nagle_mem_err == (err != ERR_OK)
                && (err == ERR_OK && unsent != [] ==>
                      || !InWindow(g, unsent[0], wnd)
                      || (&& unacked != [] && !nodelay && !infr && |unsent| == 1 && |unsent[0].data| < mss
                          && snd_buf > 0 && snd_queuelen < TCP_SND_QUEUELEN && !old(nagle_mem_err) && Writable(state)))
                && (err != ERR_OK ==> unsent != [] && InWindow(g, unsent[0], wnd) && err == path.sent(n))
      ensures !path.inInput && path.route && old(unacked) == [] && old(unsent) != []
              && old(InWindow(g, unsent[0], wnd)) ==>
                path.sent(0) == ERR_OK ==> n > 0
      ensures forall k: nat :: k < n ==> InWindow(old(g), old(unsent)[k], wnd)
      ensures n == |old(unsent)| > 0 ==>
                || (n == 1 && old(unacked) == []) || nodelay || infr || |old(unsent)[n - 1].data| >= mss
                || snd_buf == 0 || snd_queuelen >= TCP_SND_QUEUELEN || old(nagle_mem_err) || !Writable(state)
    {
      hide Inv, TailOk, Sized, MssOf, MaySend, HeadFits, EndsAt, Num, PairOf, InWindow;
      if path.inInput {
        return ERR_OK, 0;
      }
      if unsent == [] {
        if path.ackNow {
          return path.ack, 0;
        }
        nagle_mem_err := false;
        return ERR_OK, 0;
      }
      if !path.route {
        return ERR_RTE, 0;
      }
      WindowTest(wnd);
      if !HeadFits(wnd) {
        if path.ackNow {
          return path.ack, 0;
        }
        nagle_mem_err := false;
        return ERR_OK, 0;
      }
      err, n := SendAll(wnd, path.sent);
    }

    lemma WindowTest(wnd: U32)
      requires Valid() && wnd < QUARTER && unsent != []
      ensures HeadFits(wnd) <==> InWindow(g, unsent[0], wnd)
    {
      hide Inv, InWindow;
      HeadInWindow(g, Now(), wnd);
    }

    /** The Nagle algorithm holds the rest back. */
    ghost predicate Waits(memErr: bool)
      reads `unacked, `unsent, `nodelay, `infr, `mss, `snd_buf, `snd_queuelen, `state
    {
      && unacked != [] && !nodelay && !infr && |unsent| == 1 && |unsent[0].data| < mss
      && snd_buf > 0 && snd_queuelen < TCP_SND_QUEUELEN && !memErr && Writable(state)
    }

    /** The last one of the unsent segments `u` is let go behind the others. */
    ghost predicate Released(acks: seq<Seg>, u: seq<Seg>, memErr: bool)
      requires u != []
      reads `nodelay, `infr, `mss, `snd_buf, `snd_queuelen, `state
    {
      || (|u| == 1 && acks == []) || nodelay || infr || |u[|u| - 1].data| >= mss
      || snd_buf == 0 || snd_queuelen >= TCP_SND_QUEUELEN || memErr || !Writable(state)
    }

    lemma Goes(acks: seq<Seg>, u: seq<Seg>, k: nat, memErr: bool)
      requires k < |u| && unsent == u[k..] && !Waits(memErr) && snd_buf >= 0
      requires if k == 0 then unacked == acks else unacked != []
      ensures k + 1 == |u| ==> Released(acks, u, memErr)
    {
    }

    lemma Nagle(memErr: bool)
      requires Valid() && unsent != []
      ensures (MaySend(memErr) <==> !Waits(memErr)) && snd_buf >= 0
      ensures unacked == [] ==> MaySend(memErr)
    {
      hide Inv, Sized, MssOf;
      Facts(g, Now());
    }

    /** The loop of tcp_output. */
    method SendAll(wnd: U32, sent: nat -> Err) returns (err: Err, ghost n: nat)
      requires Valid() && wnd < QUARTER && unsent != []
      modifies `unacked, `unsent, `unsent_oversize, `snd_nxt, `g, `nagle_mem_err
      ensures Valid() && g == old(g).(nxt := g.nxt)
      ensures old(Tail()) ==> Tail()
      ensures n <= |old(unsent)| && unsent == old(unsent)[n..] && forall k: nat :: k < n ==> sent(k) == ERR_OK
      ensures old(g.nxt) <= g.nxt && (g.nxt == old(g.nxt) || g.nxt <= g.una + wnd + 1)
      ensures nagle_mem_err == (err != ERR_OK)
      ensures err == ERR_OK && unsent != [] ==> !InWindow(g, unsent[0], wnd) || Waits(old(nagle_mem_err))
      ensures err != ERR_OK ==> unsent != [] && InWindow(g, unsent[0], wnd) && err == sent(n)
      ensures old(unacked) == [] && old(InWindow(g, unsent[0], wnd)) && sent(0) == ERR_OK ==> n > 0
      ensures forall k: nat :: k < n ==> InWindow(old(g), old(unsent)[k], wnd)
      ensures n == |old(unsent)| > 0 ==> Released(old(unacked), old(unsent), old(nagle_mem_err))
    {
      hide Inv, TailOk, Sized, MssOf, MaySend, HeadFits, EndsAt, Num, PairOf, InWindow, Waits, Released, Sent, Insert;
      var k: nat := 0;
      ghost var u := unsent;
      assert unsent == u[k..];
      WindowTest(wnd);
      while unsent != [] && HeadFits(wnd)
        invariant Valid() && (old(Tail()) ==> Tail()) && g == old(g).(nxt := g.nxt)
        invariant k <= |u| && unsent == u[k..] && forall j: nat :: j < k ==> sent(j) == ERR_OK
        invariant nagle_mem_err == old(nagle_mem_err)
        invariant old(g.nxt) <= g.nxt && (g.nxt == old(g.nxt) || g.nxt <= g.una + wnd + 1)
        invariant unsent != [] ==> (HeadFits(wnd) <==> InWindow(g, unsent[0], wnd))
        invariant if k == 0 then unacked == old(unacked) && g == old(g) else unacked != []
        invariant forall j: nat :: j < k ==> InWindow(old(g), u[j], wnd)
        invariant k == |u| ==> Released(old(unacked), u, old(nagle_mem_err))
        decreases |unsent|
      {
        Nagle(nagle_mem_err);
        if !MaySend(nagle_mem_err) {
          break;
        }
        if sent(k) != ERR_OK {
          nagle_mem_err := true;
          return sent(k), k;
        }
        SameWindow(old(g), g, unsent[0], wnd);
        Goes(old(unacked), u, k, nagle_mem_err);
        SendHead(wnd);
        k := k + 1;
        assert unsent == u[k..];
        if unsent != [] {
          WindowTest(wnd);
        }
      }
      nagle_mem_err := false;
      return ERR_OK, k;
    }

    /** The loop body of tcp_output. */
    method SendHead(ghost wnd: U32)
      requires Valid() && unsent != [] && HeadFits(wnd) && wnd < QUARTER
      modifies `unacked, `unsent, `unsent_oversize, `snd_nxt, `g
      ensures Valid() && (old(Tail()) ==> Tail()) && g == old(g).(nxt := g.nxt)
      ensures Now() == Sent(old(Now())) && unsent == old(unsent)[1..] && unacked != []
      ensures old(g.nxt) <= g.nxt && (g.nxt == old(g.nxt) || g.nxt <= g.una + wnd + 1)
    {
      hide Inv, TailOk, Insert, Before, SeqLt, Num, Add, EndsAt, Sized, MssOf, PairOf;
      ghost var s := Now();
      SizedSent(s, MssLocal());
      var seg := unsent[0];
      Span(g, s);
      Facts(g, s);
      ghost var g' := SentInv(g, s);
      if g'.nxt != g.nxt {
        WithinWindow(g, s, wnd, g'.nxt);
      }
      unacked := ToUnacked(unacked, seg, g, unsent);
      unsent := unsent[1..];
      if SeqLt(snd_nxt, seg.Next()) {
        snd_nxt := seg.Next();
      }
      if unsent == [] {
        unsent_oversize := 0;
      }
      assert Now() == Sent(s);
      g := g';
    }

    /** The checksum that tcp_output_segment writes into the header of a queued segment, from the one it keeps of the
        payload: that of the whole segment, with the headers it has now and the pseudo header. */
    method WireChksum(seg: Seg, hdr: seq<U8>, lens: seq<nat>, at: nat -> nat, src: seq<U8>, dst: seq<U8>)
      returns (r: U16)
      requires Valid() && (seg in unacked || seg in unsent)
      requires |src| == |dst| == 4 && |hdr| % 2 == 0 && |hdr| + |seg.data| <= 0xFFFF
      ensures r == Invert(Chksum(PseudoHeader(src, dst, IP_PROTO_TCP, |hdr| + |seg.data|) + hdr + seg.data))
    {
      hide Inv, Sized, MssOf, PairOf, Pieces, Flat, Chksum, PseudoHeader;
      SumsKept(g, Now());
      PiecesFlat(hdr + seg.data, lens);
      var chain := Pieces(hdr + seg.data, lens);
      assert (hdr + seg.data)[|hdr|..] == seg.data;
      var seg' := new SegChksum.Of(seg.sum, seg.data);
      var addrs := seq(|chain|, i requires 0 <= i < |chain| => at(i));
      r := seg'.Output(chain, addrs, |hdr|, src, dst, IP_PROTO_TCP, |hdr| + |seg.data|);
      assert PseudoHeader(src, dst, IP_PROTO_TCP, |hdr| + |seg.data|) + (hdr + seg.data)
          == PseudoHeader(src, dst, IP_PROTO_TCP, |hdr| + |seg.data|) + hdr + seg.data;
    }

    // ---------- acknowledgements ----------

    /** tcp_free_acked_segments */
    method FreeAcked(list: seq<Seg>, ackno: U32) returns (rest: seq<Seg>, freed: nat)
      modifies `snd_queuelen
      ensures rest == DropAcked(list, ackno) && freed == Bytes(list) - Bytes(rest)
      ensures snd_queuelen == old(snd_queuelen) - (Pbufs(list) - Pbufs(rest))
    {
      rest, freed := list, 0;
      while rest != [] && SeqLeq(rest[0].Next(), ackno)
        invariant DropAcked(rest, ackno) == DropAcked(list, ackno)
        invariant freed == Bytes(list) - Bytes(rest)
        invariant snd_queuelen == old(snd_queuelen) - (Pbufs(list) - Pbufs(rest))
        decreases |rest|
      {
        snd_queuelen := snd_queuelen - rest[0].clen;
        freed := freed + |rest[0].data|;
        rest := rest[1..];
      }
    }

    /** The part of tcp_receive for an acknowledgement of new data; any other one leaves the queues alone. What is
        taken off is the acknowledged front of the merged queue, whole segments only. */
    method Ack(ackno: U32) returns (acked: nat)
      requires Valid()
      modifies `unacked, `unsent, `unsent_oversize, `lastack, `snd_buf, `snd_queuelen, `g
      ensures Valid() && (old(Tail()) ==> Tail())
      ensures var new_data := !SeqLeq(ackno, old(lastack)) && SeqBetween(ackno, Add(old(lastack), 1), old(snd_nxt));
              if !new_data then Now() == old(Now()) && g == old(g) && acked == 0
              else
                && Now() == Acked(old(Now()), ackno)
                && acked == Bytes(old(g.flight)) - Bytes(g.flight)
                && g == old(g).(flight := g.flight, start := g.start, una := g.una)
                && old(g.una) < g.una <= g.nxt && Num(g.una) == ackno
                && |g.flight| <= |old(g.flight)| && g.flight == old(g.flight)[|old(g.flight)| - |g.flight|..]
                && (g.flight != [] ==> g.una < g.start + g.flight[0].TcpLen())
    {
      hide Inv, TailOk, DropAcked, Bytes, Pbufs, Num, SeqLeq, SeqBetween, Add, Acked, Sized, MssOf, PairOf;
      acked := 0;
      if !SeqLeq(ackno, lastack) && SeqBetween(ackno, Add(lastack, 1), snd_nxt) {
        ghost var s := Now();
        ghost var g' := AckedInv(g, s, ackno);
        FlightSums(g, s);
        FlightSums(g', Acked(s, ackno));
        AckedIs(s, ackno);
        SizedAcked(s, ackno, MssLocal());
        lastack := ackno;
        var n;
        unacked, n := FreeAcked(unacked, ackno);
        acked := n;
        unsent, n := FreeAcked(unsent, ackno);
        acked := acked + n;
        if unsent == [] {
          unsent_oversize := 0;
        }
        snd_buf := snd_buf + acked;
        assert Now() == Acked(s, ackno);
        g := g';
      }
    }

    // ---------- retransmission ----------

    /** tcp_rexmit: the first unacked segment goes back to its place in the unsent queue. */
    method Rexmit(busy: bool) returns (err: Err)
      requires Valid()
      modifies `unacked, `unsent, `unsent_oversize
      ensures Valid()
      ensures err == if old(unacked) == [] || busy then ERR_VAL else ERR_OK
      ensures err != ERR_OK ==> Now() == old(Now())
      ensures err == ERR_OK ==> unacked == old(unacked)[1..] && unsent == Insert(old(unsent), old(unacked)[0])
      ensures err == ERR_OK && old(Tail()) ==> (Tail() <==> old(unsent) != [] || |old(unacked)| == 1)
    {
      if unacked == [] || busy {
        return ERR_VAL;
      }
      var seg := unacked[0];
      var q, atEnd := InsertSorted(unsent, seg);
      RexmittedInv(g, Now(), atEnd);
      SizedRexmitted(Now(), atEnd, MssLocal());
      if Tail() {
        RexmitTailIff(g, Now(), atEnd);
      }
      hide Inv, Insert, EndsAt, Num, Sized, MssOf, PairOf;
      unacked := unacked[1..];
      unsent := q;
      if atEnd {
        unsent_oversize := 0;
      }
      return ERR_OK;
    }

    /** tcp_rexmit_rto_prepare: all unacked segments go in front of the unsent ones. Where that is not the order of
        their sequence numbers, the queue is out of order. */
    method RexmitRtoPrepare(busy: nat -> bool) returns (err: Err)
      requires Valid()
      modifies `unacked, `unsent
      ensures Valid() <==> err != ERR_OK || old(InOrder(Now()))
      ensures old(Tail()) && Valid() ==> Tail()
      ensures err == ERR_OK <==> old(unacked) != [] && forall i :: 0 <= i < |old(unacked)| ==> !busy(i)
      ensures err != ERR_OK ==> Now() == old(Now())
      ensures err == ERR_OK ==> unacked == [] && unsent == old(unacked) + old(unsent)
      ensures err == ERR_OK && old(InOrder(Now())) ==> unsent == g.flight
    {
      if unacked == [] {
        return ERR_VAL;
      }
      var i := 0;
      while i < |unacked|
        invariant 0 <= i <= |unacked| && forall j :: 0 <= j < i ==> !busy(j)
      {
        if busy(i) {
          return ERR_VAL;
        }
        i := i + 1;
      }
      RequeuedIff(g, Now());
      if InOrder(Now()) {
        RequeuedInv(g, Now());
      }
      SizedRequeued(Now(), MssLocal());
      hide Pointers, Conserved, TailOk, InOrder, Sized, MssOf, Flight, Merged, PairOf;
      unsent := unacked + unsent;
      unacked := [];
      return ERR_OK;
    }

    // ---------- splitting ----------

    /** tcp_split_unsent_seg. `mem` says whether the memory for the remainder is there; `clen` is the number of pbufs
        that the trimmed head keeps, `hdr` are the headers in front of its payload, and `lens` says how it lies in
        pbufs. A head with a FIN keeps that too, and the queues are in order no more. */
    method SplitUnsent(split: nat, mem: bool, clen: nat, hdr: seq<U8>, lens: seq<nat>) returns (err: Err)
      requires Valid()
      modifies `unsent, `unsent_oversize, `snd_queuelen, `g
      ensures g == old(g).(flight := g.flight) && (old(Tail()) && Valid() ==> Tail())
      ensures var cut := old(unsent) != [] && 0 < split < |old(unsent)[0].data| && mem;
              && (Valid() <==> !(cut && old(unsent)[0].fin))
              && Now() == (if cut then Split(old(Now()), split, clen) else old(Now()))
              && (err == ERR_OK <==> cut || (old(unsent) != [] && split > 0 && |old(unsent)[0].data| <= split))
              && (cut ==> |unsent| > 1 && unsent[0].data == old(unsent)[0].data[..split]
                          && unsent[1].data == old(unsent)[0].data[split..]
                          && unsent[1].fin == old(unsent)[0].fin && unsent[2..] == old(unsent)[1..])
      ensures Payload(unsent) == old(Payload(unsent))
    {
      hide Contiguous, Pointers, Conserved, TailOk, Payload, Num, EndsAt, Sized, MssOf, PairOf;
      if unsent == [] {
        return ERR_MEM;
      }
      if split == 0 {
        return ERR_VAL;
      }
      var useg := unsent[0];
      if |useg.data| <= split {
        return ERR_OK;
      }
      if !mem {
        return ERR_MEM;
      }
      ghost var g' := g;
      if useg.fin {
        SplitMisplaced(g, Now(), split, clen);
      } else {
        g' := SplitInv(g, Now(), split, clen);
      }
      SizedSplit(Now(), split, clen, MssLocal());
      SizedHead(Now(), mss, snd_wnd_max);
      var sum := SumOf(useg.data[split..], true, 0);
      var seg := Seg(Add(useg.seqno, split), useg.data[split..], false, useg.fin, useg.psh, 1, sum);
      snd_queuelen := snd_queuelen - useg.clen;
      sum := SumAnew(useg.data[..split], hdr, lens);
      useg := useg.(data := useg.data[..split], clen := clen, sum := sum);
      snd_queuelen := snd_queuelen + clen + 1;
      SplitPayload(unsent, useg, seg);
      unsent := [useg, seg] + unsent[1..];
      if |unsent| == 2 {
        unsent_oversize := 0;
      }
      g := g';
      return ERR_OK;
    }

    // ---------- closing ----------

    /** tcp_send_fin, after which the caller moves on to the state `next`. The FIN goes onto the last unsent segment,
        where it is out of place if that one does not end what is queued; or into a segment of its own. */
    method SendFin(mem: bool, next: State) returns (err: Err)
      requires Valid() && Writable(state) && !Writable(next)
      modifies `unsent, `unsent_oversize, `snd_lbb, `snd_queuelen, `state, `nagle_mem_err, `g
      ensures Valid() <==> !old(FinAstray())
      ensures (old(Tail()) ==> Tail()) && Payload(unsent) == old(Payload(unsent))
      ensures if err == ERR_OK then
                && Now() == FinSent(old(Now()), next) && nagle_mem_err == old(nagle_mem_err)
                && g == old(g).(flight := g.flight, fin := true, piggy := g.piggy)
              else err == ERR_MEM && !mem && nagle_mem_err && Now() == old(Now()) && g == old(g)
    {
      hide Inv, TailOk, Num, EndsAt, Payload, Add, Sized, MssOf, PairOf;
      if unsent != [] {
        NoFinYet(g, Now());
        if !LastOf(unsent).syn && !LastOf(unsent).fin {
          ghost var g' := g.(fin := true, piggy := true);
          TailByFields(g, Now());
          if Tail() {
            g' := FinOnLastInv(g, Now(), next);
          } else {
            FinMisplaced(g, Now(), next);
          }
          SizedFinOnLast(Now(), next, MssLocal());
          LastPayload(unsent, LastOf(unsent).(fin := true), []);
          unsent := unsent[..|unsent| - 1] + [LastOf(unsent).(fin := true)];
          state := next;
          g := g';
          return ERR_OK;
        }
      }
      if !mem {
        nagle_mem_err := true;
        return ERR_MEM;
      }
      EnqueueFin(next);
      return ERR_OK;
    }

    /** tcp_enqueue_flags for a FIN, when the memory is there. */
    method EnqueueFin(next: State)
      requires Valid() && Writable(state) && !Writable(next)
      modifies `unsent, `unsent_oversize, `snd_lbb, `snd_queuelen, `state, `g
      ensures Valid() && Tail() && Now() == FinQueued(old(Now()), next) && Payload(unsent) == old(Payload(unsent))
      ensures g == old(g).(flight := g.flight, fin := true, piggy := false)
    {
      hide Inv, TailOk, Num, EndsAt, Payload, Add, Sized, MssOf, PairOf;
      ghost var g' := FinQueuedInv(g, Now(), next);
      SizedFinQueued(Now(), next, MssLocal());
      TcpChecksum.NoBytes();
      var seg := Seg(snd_lbb, [], false, true, false, 1, Pair(0, false));
      PayloadConcat(unsent, [seg]);
      unsent := unsent + [seg];
      unsent_oversize := 0;
      snd_lbb := Add(snd_lbb, 1);
      snd_queuelen := snd_queuelen + 1;
      state := next;
      g := g';
    }

    /** tcp_close_shutdown_fin. It always reports success: either the FIN is queued behind all data and sending is
        tried at once, of which `n` segments get out; or there was no memory for it, and a flag says that closing is
        to be tried again. */
    method CloseShutdownFin(mem: bool, wnd: U32, path: Path) returns (err: Err, ghost n: nat)
      requires Valid() && wnd < QUARTER
      requires !FinAstray()
      modifies `unacked, `unsent, `unsent_oversize, `snd_nxt, `snd_lbb, `snd_queuelen, `state, `nagle_mem_err,
               `closepend, `g
      ensures Valid() && err == ERR_OK && (old(Tail()) ==> Tail())
      ensures !Writable(old(state)) ==> Now() == old(Now()) && g == old(g) && closepend == old(closepend)
      ensures Writable(state) ==> !mem && closepend && nagle_mem_err && Now() == old(Now()) && g == old(g)
      ensures Writable(old(state)) && !Writable(state) ==>
                var s' := FinSent(old(Now()), if old(state).CLOSE_WAIT? then LAST_ACK else FIN_WAIT_1);
                && n <= |s'.unsent| && unsent == s'.unsent[n..]
                && state == (if old(state).CLOSE_WAIT? then LAST_ACK else FIN_WAIT_1)
                && snd_lbb == s'.snd_lbb && snd_queuelen == s'.snd_queuelen && closepend == old(closepend)
                && g == old(g).(flight := g.flight, fin := true, piggy := g.piggy, nxt := g.nxt)
    {
      hide Inv, TailOk, Num, EndsAt, Payload, Add, Sized, MssOf, FinSent, HeadFits, MaySend, InWindow, PairOf;
      if !Writable(state) {
        return ERR_OK, 0;
      }
      err := SendFin(mem, if state.CLOSE_WAIT? then LAST_ACK else FIN_WAIT_1);
      n := 0;
      if err == ERR_OK {
        FinSentState(old(Now()), if old(state).CLOSE_WAIT? then LAST_ACK else FIN_WAIT_1);
        var ignored;
        ignored, n := Output(wnd, path);
      } else {
        closepend := true;
        err := ERR_OK;
      }
    }

    /** tcp_fasttmr tries a pending close again. */
    method RetryClose(mem: bool, wnd: U32, path: Path)
      requires Valid() && wnd < QUARTER
      requires closepend ==> !FinAstray()
      modifies `unacked, `unsent, `unsent_oversize, `snd_nxt, `snd_lbb, `snd_queuelen, `state, `nagle_mem_err,
               `closepend, `g
      ensures Valid() && (old(Tail()) ==> Tail())
      ensures g.conn == old(g.conn) && g.una == old(g.una)
      ensures !old(closepend) ==> Now() == old(Now()) && g == old(g) && !closepend
      ensures old(closepend) ==>
                (closepend <==> Writable(state)) && (closepend ==> Now() == old(Now()) && g == old(g) && !mem)
    {
      hide Inv, TailOk, Num, EndsAt, Payload, Add, Sized, MssOf, FinSent, PairOf;
      if closepend {
        closepend := false;
        ghost var n;
        var err;
        err, n := CloseShutdownFin(mem, wnd, path);
      }
    }

    // ---------- the peer's window ----------

    /** Where tcp_receive keeps track of the largest window announced. Segments already queued fit the new segment size
        as well, unless the window was at most one byte before. */
    method SeeWindow(snd_wnd: U16)
      requires Valid()
      modifies `snd_wnd_max
      ensures snd_wnd_max == if old(snd_wnd_max) < snd_wnd then snd_wnd else old(snd_wnd_max)
      ensures Valid() <==> Sized(Now(), MssLocal())
      ensures old(snd_wnd_max) >= 2 || snd_wnd < 2 || mss <= snd_wnd / 2 ==> Valid()
    {
      hide Inv, Sized, MssOf, PairOf;
      ghost var m := MssLocal();
      if snd_wnd_max < snd_wnd {
        SizeShrinksIff(mss, snd_wnd_max, snd_wnd);
        snd_wnd_max := snd_wnd;
      }
      if m <= MssLocal() {
        SizedGrows(Now(), m, MssLocal());
      }
    }

    // ---------- tcp_write ----------

    /** What tcp_pbuf_prealloc leaves free at the end of a pbuf. */
    function Prealloc(length: nat, max: nat, more: bool, first: bool): (room: nat)
      reads this
      ensures length + room <= max || (room == 0 && length > max)
    {
      if length < max && (more || (!nodelay && (!first || unsent != [] || unacked != [])))
      then Min(max, AlignUp(length + TCP_OVERSIZE)) - length else 0
    }

    /** Phase 2 of tcp_write will chain a pbuf to the last unsent segment. */
    predicate Chains(len: nat)
      reads this
    {
      unsent != [] && LastOf(unsent).data != [] && unsent_oversize < len
      && |LastOf(unsent).data| + OptLen(LastOf(unsent)) + unsent_oversize < MssLocal()
    }

    /** Phases 1 and 2: how many bytes go onto the last unsent segment, and in how many new pbufs; and what its checksum
        is then. `at(k)` is where the bytes from `k` on lie in memory. */
    method OntoLast(data: seq<U8>, copy: bool, more: bool, adjacent: bool, mem: nat -> bool, at: nat -> nat)
      returns (ok: bool, pos: nat, pbufs: nat, oversize: nat, touched: bool, sum: Pair)
      requires mss > 0 && Sized(Now(), MssLocal()) && |data| <= 0xFFFF
      requires unsent != [] ==> LastOf(unsent).sum == PairOf(LastOf(unsent).data)
      ensures ok && unsent != [] ==> pos <= |data| && sum == PairOf(LastOf(unsent).data + data[..pos])
      ensures ok ==> pos <= |data| && (oversize == 0 || pos == |data|)
      ensures ok ==> (pos > 0 ==> touched) && (pos == 0 ==> pbufs == 0)
      ensures ok && unsent == [] ==> pos == 0 && oversize == 0
      ensures ok && unsent != [] ==> pos == if LastOf(unsent).data != []
                then Min(|data|, MssLocal() - |LastOf(unsent).data| - OptLen(LastOf(unsent))) else 0
      ensures ok ==> pbufs == if Chains(|data|) && (copy || !adjacent) then 1 else 0
      ensures ok && Chains(|data|) ==> pos > 0
      ensures ok && touched ==> unsent_oversize > 0 || Chains(|data|)
      ensures ok && oversize > 0 ==> touched
      ensures ok && (pos > 0 || oversize > 0 || touched) ==> unsent != [] && LastOf(unsent).data != []
      ensures ok && unsent != [] && LastOf(unsent).data != [] ==>
                |LastOf(unsent).data| + OptLen(LastOf(unsent)) + pos + oversize <= MssLocal()
      ensures !ok ==> !mem(0)
    {
      hide MssOf, PairOf, Prealloc;
      MssPositive(mss, snd_wnd_max);
      ok, pos, pbufs, oversize, touched, sum := true, 0, 0, 0, false, Pair(0, false);
      if unsent != [] {
        var last := LastOf(unsent);
        sum := last.sum;
        assert last.data + data[..0] == last.data;
        var space := (MssLocal() - (|last.data| + OptLen(last))) % 0x1_0000;
        oversize := unsent_oversize;
        if oversize > 0 {
          touched := true;
          var used := Min(space, Min(oversize, |data|));
          sum := SumMore(last.data, sum, data, 0, used, true, copy, at);
          pos, oversize, space := pos + used, oversize - used, space - used;
        }
        if pos < |data| && space > 0 && |last.data| > 0 {
          var seglen := Min(space, |data| - pos);
          touched := true;
          if copy {
            if !mem(0) {
              return false, pos, pbufs, oversize, touched, sum;
            }
            oversize, pbufs := Prealloc(seglen, space, more, true), 1;
          } else if !adjacent {
            if !mem(0) {
              return false, pos, pbufs, oversize, touched, sum;
            }
            pbufs := 1;
          }
          sum := SumMore(last.data, sum, data, pos, seglen, false, copy, at);
          pos := pos + seglen;
        }
      }
    }

    /** Phase 3: new segments for what is left. The last one gets the PSH flag, which the code sets at the very end. */
    method NewSegments(data: seq<U8>, from: nat, copy: bool, more: bool, mem: nat -> bool, at: nat -> nat,
                       qlen: int, start_oversize: nat,
                       ghost c: Conn, ghost p: int) returns (ok: bool, segs: seq<Seg>, oversize: nat)
      requires mss > 0 && from <= |data| && snd_lbb == Num(p) && p > c.iss && p - c.iss - 1 + |data| == |c.stream|
      requires c.stream[p - c.iss - 1..] == data && (from < |data| ==> start_oversize == 0)
      ensures ok ==> Flight(segs, p + from, c, p + |data|) && (segs == [] <==> from == |data|)
      ensures ok && segs != [] ==> LastOf(segs).data != []
      ensures ok && segs == [] ==> oversize == start_oversize
      ensures ok ==> (forall x :: x in segs ==> |x.data| <= MssLocal() && !x.syn) && Fresh(segs, MssLocal(), copy, more)
      ensures ok && segs != [] ==> |LastOf(segs).data| + oversize <= MssLocal()
      ensures ok && segs != [] ==> qlen + Pbufs(segs) <= TCP_SND_QUEUELEN
      ensures !ok ==> (exists j: nat :: !mem(j)) || qlen + 2 * (|data| / MssLocal() + 1) > TCP_SND_QUEUELEN
    {
      hide Flight, Holds, Num, Add, MssOf, PairOf, Prealloc, Fresh;
      MssPositive(mss, snd_wnd_max);
      segs, oversize := [], start_oversize;
      NoneFresh(MssLocal(), copy);
      var pos, k, n: nat := from, 1, 0;
      NoFlight(p + from, c);
      while pos < |data|
        invariant from <= pos <= |data| && Flight(segs, p + from, c, p + pos) && (segs == [] <==> pos == from)
        invariant segs != [] ==> LastOf(segs).data != [] && qlen + n <= TCP_SND_QUEUELEN
        invariant n <= 2 * |segs| && (pos < |data| ==> |segs| * MssLocal() == pos - from)
        invariant Fresh(segs, MssLocal(), copy, more || pos < |data|)
        invariant pos < |data| && segs != [] ==> |LastOf(segs).data| == MssLocal()
        invariant n == Pbufs(segs) && (segs == [] ==> oversize == start_oversize)
        invariant forall x :: x in segs ==> |x.data| <= MssLocal() && !x.syn
        invariant segs != [] ==> |LastOf(segs).data| + oversize <= MssLocal()
        invariant !copy && from < |data| ==> oversize == 0
      {
        FullSegments(|segs|, MssLocal(), |data|);
        var seglen := Min(|data| - pos, MssLocal());
        var clen := if copy then 1 else 2;
        if !mem(k) || (!copy && !mem(k + 1)) {
          return false, segs, oversize;
        }
        if copy {
          oversize := Prealloc(seglen, MssLocal(), more, segs == []);
        }
        if qlen + n + clen > TCP_SND_QUEUELEN || !mem(k + 2) {
          return false, segs, oversize;
        }
        var sum := SumOf(data[pos..pos + seglen], copy, at(pos));
        var psh := pos + seglen == |data| && !more;
        var seg := Seg(Add(snd_lbb, pos), data[pos..pos + seglen], false, false, psh, clen, sum);
        FreshHolds(seg, data, pos, seglen, c, p);
        SnocFlight(segs, seg, p + from, c, p + pos);
        BytesConcat(segs, [seg]);
        BytesOne(seg);
        FreshMore(segs, seg, MssLocal(), copy, more || pos + seglen < |data|);
        segs, pos, k, n := segs + [seg], pos + seglen, k + 3, n + clen;
      }
      ok := true;
    }

    /** The three phases of tcp_write, which change nothing yet: what is to be committed, and what it will mean. */
    method Phases(data: seq<U8>, copy: bool, more: bool, adjacent: bool, mem: nat -> bool, at: nat -> nat)
      returns (ok: bool, ext: nat, pbufs: nat, psh: bool, segs: seq<Seg>, oversize: nat, sum: Pair, ghost g': View)
      requires Valid() && Writable(state) && |data| <= snd_buf && |data| <= 0xFFFF
      ensures ok ==> ext <= |data| && (ext > 0 || psh ==> unsent != [])
      ensures ok && unsent != [] ==> sum == PairOf(LastOf(unsent).data + data[..ext])
      ensures ok ==>
                var s' := Written(Now(), data, ext, pbufs, psh, segs, oversize);
                && (Inv(g', s') && Sized(s', MssLocal()) <==> !WriteAstray(|data|))
                && (Inv(g', s') && (data != [] || Tail()) ==> TailOk(g', s'))
                && s'.snd_lbb == Add(snd_lbb, |data|) && s'.snd_buf == snd_buf - |data| && s'.state == state
                && Payload(s'.unsent) == Payload(unsent) + data
                && forall x :: x in s'.unsent ==> x in unsent || |x.data| <= MssLocal()
      ensures ok ==> Packed(unsent, Written(Now(), data, ext, pbufs, psh, segs, oversize).unsent, MssLocal(), copy,
                            more, Chains(|data|) && (copy || !adjacent), data == [])
      ensures g' == g.(conn := Conn(g.conn.iss, g.conn.stream + data), flight := g'.flight)
      ensures !ok ==> (exists j: nat :: !mem(j)) || snd_queuelen + 1 + 2 * (|data| / MssLocal() + 1) > TCP_SND_QUEUELEN
    {
      hide Inv, TailOk, Num, EndsAt, Payload, Add, Flight, Written, Sized, MssOf, Holds, Chains, PairOf, Packed, Fresh;
      ghost var c := Conn(g.conn.iss, g.conn.stream + data);
      segs, psh, g' := [], false, g.(conn := c);
      Facts(g, Now());
      TailByFields(g, Now());
      SumsKept(g, Now());
      var touched;
      ok, ext, pbufs, oversize, touched, sum := OntoLast(data, copy, more, adjacent, mem, at);
      if ok {
        StreamEnd(g, Now(), data);
        ok, segs, oversize := NewSegments(data, ext, copy, more, mem, at, snd_queuelen + pbufs, oversize, c, g.End());
        if ok {
          psh := touched && segs == [] && !more;
          WriteFills(Now(), data, ext, pbufs, psh, segs, oversize, MssLocal(), copy, more,
                     Chains(|data|) && (copy || !adjacent));
          g' := WriteEnds(g, Now(), data, ext, pbufs, psh, segs, oversize, MssLocal());
        }
      }
    }

    /** tcp_write. `mem(k)` says whether the k-th allocation succeeds; `adjacent` that data which is not copied follows
        the last pbuf in memory. Either the given bytes are appended to the stream, or nothing changes. The queues go
        on holding the stream exactly if phase 2 does not extend a segment that others follow. */
    method Write(data: seq<U8>, copy: bool, more: bool, adjacent: bool, mem: nat -> bool, at: nat -> nat)
      returns (err: Err)
      requires Valid() && |data| <= 0xFFFF
      modifies `unsent, `unsent_oversize, `snd_lbb, `snd_buf, `snd_queuelen, `nagle_mem_err, `g
      ensures Valid() <==> err != ERR_OK || !old(WriteAstray(|data|))
      ensures err == ERR_OK || err == ERR_MEM || err == ERR_CONN
      ensures err == ERR_CONN <==> !Writable(state)
      ensures err != ERR_OK ==> Now() == old(Now()) && g == old(g)
      ensures err == ERR_OK ==>
                && g == old(g).(conn := Conn(old(g.conn.iss), old(g.conn.stream) + data), flight := g.flight)
                && Payload(unsent) == old(Payload(unsent)) + data
                && snd_lbb == Add(old(snd_lbb), |data|) && snd_buf == old(snd_buf) - |data|
      ensures err == ERR_OK && Valid() && (data != [] || old(Tail())) ==> Tail()
      ensures err == ERR_OK && data != [] ==> |data| <= old(snd_buf) && old(snd_queuelen) < TCP_SND_QUEUELEN
      ensures err == ERR_MEM ==>
                || (exists j: nat :: !mem(j)) || |data| > old(snd_buf) || old(snd_queuelen) >= TCP_SND_QUEUELEN
                || old(snd_queuelen) + 1 + 2 * (|data| / old(MssLocal()) + 1) > TCP_SND_QUEUELEN
      ensures err == ERR_OK ==> forall x :: x in unsent ==> x in old(unsent) || |x.data| <= old(MssLocal())
      ensures err == ERR_OK ==> Packed(old(unsent), unsent, MssLocal(), copy, more,
                                       old(Chains(|data|)) && (copy || !adjacent), data == [])
      ensures nagle_mem_err == (old(nagle_mem_err) || err == ERR_MEM)
    {
      hide Inv, TailOk, Num, EndsAt, Payload, Add, Flight, Written, Sized, MssOf, Holds, Chains, PairOf, WriteAstray,
           Packed;
      if !Writable(state) {
        return ERR_CONN;
      }
      Facts(g, Now());
      if data != [] && (|data| > snd_buf || snd_queuelen >= TCP_SND_QUEUELEN) {
        nagle_mem_err := true;
        return ERR_MEM;
      }
      ghost var g';
      var ok, ext, pbufs, psh, segs, oversize, sum;
      ok, ext, pbufs, psh, segs, oversize, sum, g' := Phases(data, copy, more, adjacent, mem, at);
      if !ok {
        nagle_mem_err := true;
        return ERR_MEM;
      }
      Commit(data, ext, pbufs, psh, segs, oversize, sum);
      g := g';
      return ERR_OK;
    }

    /** The end of tcp_write. */
    method Commit(data: seq<U8>, ext: nat, pbufs: nat, psh: bool, segs: seq<Seg>, oversize: nat, sum: Pair)
      requires ext <= |data| && (ext > 0 || psh ==> unsent != [])
      requires unsent != [] ==> sum == PairOf(LastOf(unsent).data + data[..ext])
      modifies `unsent, `unsent_oversize, `snd_lbb, `snd_buf, `snd_queuelen
      ensures Now() == Written(old(Now()), data, ext, pbufs, psh, segs, oversize)
    {
      hide PairOf, Add, Pbufs;
      if ext > 0 || psh {
        var last := LastOf(unsent);
        last := last.(data := last.data + data[..ext], clen := last.clen + pbufs, psh := last.psh || psh, sum := sum);
        unsent := unsent[..|unsent| - 1] + [last];
      }
      unsent := unsent + segs;
      unsent_oversize := oversize;
      snd_lbb := Add(snd_lbb, |data|);
      snd_buf := snd_buf - |data|;
      snd_queuelen := snd_queuelen + pbufs + Pbufs(segs);
    }
  }

  // ---------- runs ----------

  /** A call on the connection, with the answers of the memory, the driver and the network. */
  datatype Call =
    | Write(data: seq<U8>, copy: bool, more: bool, adjacent: bool, mem: nat -> bool, at: nat -> nat)
    | Output(wnd: U16, path: Path)
    | Ack(ackno: U32)
    | SeeWindow(snd_wnd: U16)
    | Rexmit(busy: bool)
    | RexmitRto(busies: nat -> bool)
    | SplitUnsent(split: nat, splitMem: bool, clen: nat, hdr: seq<U8>, lens: seq<nat>)
    | Close(finMem: bool, finWnd: U16, finPath: Path)
    | RetryClose(finMem: bool, finWnd: U16, finPath: Path)

  /** The calls that keep the connection in order; the fields before a call tell. Each exception is a fault that the
      lemmas named there are about. */
  predicate Harmless(p: SendPcb, call: Call)
    reads p
  {
    match call
    case Write(data, _, _, _, _, _) => |data| <= 0xFFFF && !p.WriteAstray(|data|) // WriteOnLastIff
    case SeeWindow(w) => Sized(p.Now(), MssOf(p.mss, if p.snd_wnd_max < w then w else p.snd_wnd_max)) // SizesStayIff
    case RexmitRto(_) => InOrder(p.Now()) // RequeuedIff
    case SplitUnsent(split, _, _, _, _) => p.unsent != [] && split < |p.unsent[0].data| ==> !p.unsent[0].fin // SplitIff
    case Close(_, _, _) => !p.FinAstray() // FinOnLastIff
    case RetryClose(_, _, _) => p.closepend ==> !p.FinAstray() // FinOnLastIff
    case _ => true
  }

  /** The lwIP thread serves one call after the other. Over every run of harmless calls the queues stay contiguous, the
      counters right, and the stream is what was written successfully, in order. */
  method Serve(p: SendPcb, calls: seq<Call>) returns (written: seq<U8>)
    requires p.Valid()
    modifies p
    ensures p.Valid()
    ensures p.g.conn == Conn(old(p.g.conn.iss), old(p.g.conn.stream) + written) && old(p.g.una) <= p.g.una
    ensures p.snd_buf + Bytes(p.unacked) + Bytes(p.unsent) == TCP_SND_BUF
    ensures p.snd_queuelen == Pbufs(p.unacked) + Pbufs(p.unsent)
    ensures forall x :: x in p.unacked || x in p.unsent ==> x.sum == PairOf(x.data)
  {
    hide PairOf, SendPcb.Valid, InOrder, MssOf, Payload, Insert, SendPcb.Chains, Sized, SendPcb.WriteAstray,
         SendPcb.FinAstray;
    written := [];
    var i := 0;
    while i < |calls|
      invariant 0 <= i <= |calls| && p.Valid()
      invariant p.g.conn == Conn(old(p.g.conn.iss), old(p.g.conn.stream) + written) && old(p.g.una) <= p.g.una
    {
      if Harmless(p, calls[i]) {
        var more := ServeOne(p, calls[i]);
        assert old(p.g.conn.stream) + (written + more) == old(p.g.conn.stream) + written + more;
        written := written + more;
      }
      i := i + 1;
    }
    Counters(p);
  }

  lemma Counters(p: SendPcb)
    requires p.Valid()
    ensures p.snd_buf + Bytes(p.unacked) + Bytes(p.unsent) == TCP_SND_BUF
    ensures p.snd_queuelen == Pbufs(p.unacked) + Pbufs(p.unsent)
    ensures forall x :: x in p.unacked || x in p.unsent ==> x.sum == PairOf(x.data)
  {
    hide Contiguous, Pointers, Sized, MssOf, PairOf, Bytes, Pbufs, TailOk;
    SumsKept(p.g, p.Now());
  }

  method ServeOne(p: SendPcb, call: Call) returns (written: seq<U8>)
    requires p.Valid() && Harmless(p, call)
    modifies p
    ensures p.Valid() && old(p.g.una) <= p.g.una
    ensures p.g.conn == Conn(old(p.g.conn.iss), old(p.g.conn.stream) + written)
    ensures written == [] || (call.Write? && written == call.data)
  {
    hide Inv, TailOk, InOrder, Sized, MssOf, Payload, Insert, EndsAt, FinSent, Split, Acked, PairOf;
    written := [];
    assert p.g.conn.stream + [] == p.g.conn.stream;
    match call
    case Write(data, copy, more, adjacent, mem, at) =>
      var err := p.Write(data, copy, more, adjacent, mem, at);
      if err == ERR_OK {
        written := data;
      }
    case Output(wnd, path) =>
      var err, n := p.Output(wnd, path);
    case Ack(ackno) =>
      var acked := p.Ack(ackno);
    case SeeWindow(snd_wnd) =>
      p.SeeWindow(snd_wnd);
    case Rexmit(busy) =>
      var err := p.Rexmit(busy);
    case RexmitRto(busies) =>
      var err := p.RexmitRtoPrepare(busies);
    case SplitUnsent(split, mem, clen, hdr, lens) =>
      var err := p.SplitUnsent(split, mem, clen, hdr, lens);
    case Close(mem, wnd, path) =>
      var err, n := p.CloseShutdownFin(mem, wnd, path);
    case RetryClose(mem, wnd, path) =>
      p.RetryClose(mem, wnd, path);
  }

  lemma FullSegments(n: nat, mss: nat, len: nat)
    requires mss > 0
    ensures n * mss <= len ==> n <= len / mss
    ensures (n + 1) * mss == n * mss + mss
  {
    if n > len / mss {
      assert len < (len / mss + 1) * mss;
      assert (n - (len / mss + 1)) * mss >= 0;
      assert n * mss == (len / mss + 1) * mss + (n - (len / mss + 1)) * mss;
    }
  }
}
