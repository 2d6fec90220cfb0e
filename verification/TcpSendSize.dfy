/** The size of queued segments: what the two assertions of tcp_write about the room at the end of the unsent queue
    (core/c/core/tcp_out.c:482 and 502) need, and that every step keeps it. */
module TcpSendSize {
  import Seq32
  import TcpStates
  import opened Words
  import opened TcpChecksum
  import opened TcpSendQueue
  import opened TcpSendState

  /** LWIP_TCP_OPT_LENGTH_SEGMENT without timestamps: a SYN carries the MSS option. */
  function OptLen(s: Seg): nat {
    if s.syn then 4 else 0
  }

  /** The largest segment that tcp_write makes: no more than half the largest window ever announced. */
  function MssOf(mss: nat, snd_wnd_max: nat): nat {
    var m := Min(mss, Min(snd_wnd_max / 2, 0xFFFF));
    if m > 0 then m else mss
  }

  /** All segments that carry data fit, with their options. (A SYN has none; its options may be longer than a tiny
      segment, see SynFitsIff.) */
  predicate Fits(q: seq<Seg>, m: nat) {
    forall x :: x in q && x.data != [] ==> |x.data| + OptLen(x) <= m
  }

  /** So does the last unsent segment together with the room left in its last pbuf. */
  predicate RoomFits(q: seq<Seg>, oversize: nat, m: nat) {
    oversize > 0 ==> q != [] && LastOf(q).data != [] && |LastOf(q).data| + OptLen(LastOf(q)) + oversize <= m
  }

  predicate Sized(s: Queues, m: nat) {
    Fits(s.unacked, m) && Fits(s.unsent, m) && RoomFits(s.unsent, s.oversize, m)
  }

  lemma {:induction false} InsertMembers(q: seq<Seg>, x: Seg)
    ensures forall y :: y in Insert(q, x) ==> y == x || y in q
  {
    if q != [] && Before(q[0], x) {
      InsertMembers(q[1..], x);
    }
  }

  lemma {:induction false} DropMembers(q: seq<Seg>, ackno: U32)
    ensures forall y :: y in DropAcked(q, ackno) ==> y in q
  {
    if q != [] && Seq32.SeqLeq(q[0].Next(), ackno) {
      DropMembers(q[1..], ackno);
    }
  }

  lemma SizedSent(s: Queues, m: nat)
    requires Sized(s, m) && s.unsent != []
    ensures Sized(Sent(s), m)
  {
    hide Insert, Seq32.SeqLt;
    InsertMembers(s.unacked, s.unsent[0]);
  }

  lemma SizedRexmitted(s: Queues, atEnd: bool, m: nat)
    requires Sized(s, m) && s.unacked != []
    requires var q := Insert(s.unsent, s.unacked[0]);
             !atEnd ==> s.unsent != [] && q != [] && LastOf(q) == LastOf(s.unsent)
    ensures Sized(Rexmitted(s, atEnd), m)
  {
    hide Insert;
    InsertMembers(s.unsent, s.unacked[0]);
  }

  lemma SizedRequeued(s: Queues, m: nat)
    requires Sized(s, m)
    ensures Sized(Requeued(s), m)
  {
  }

  lemma SizedAcked(s: Queues, ackno: U32, m: nat)
    requires Sized(s, m)
    ensures Sized(Acked(s, ackno), m)
  {
    hide DropAcked;
    DropMembers(s.unacked, ackno);
    DropMembers(s.unsent, ackno);
    DropLast(s.unsent, ackno, 0);
  }

  lemma SizedSplit(s: Queues, split: nat, clen: nat, m: nat)
    requires Sized(s, m) && s.unsent != [] && 0 < split < |s.unsent[0].data|
    ensures Sized(Split(s, split, clen), m)
  {
    hide Seq32.Add;
    var (h1, h2) := SplitSeg(s.unsent[0], split, clen);
    assert |s.unsent| > 1 ==> LastOf([h1, h2] + s.unsent[1..]) == LastOf(s.unsent);
  }

  lemma SizedFinOnLast(s: Queues, next: TcpStates.State, m: nat)
    requires Sized(s, m) && s.unsent != []
    ensures Sized(FinOnLast(s, next), m)
  {
  }

  lemma SizedFinQueued(s: Queues, next: TcpStates.State, m: nat)
    requires Sized(s, m)
    ensures Sized(FinQueued(s, next), m)
  {
    hide Seq32.Add;
  }

  /** What tcp_write commits fits if its phases kept to the segment size. */
  lemma SizedWritten(s: Queues, data: seq<U8>, ext: nat, pbufs: nat, psh: bool, segs: seq<Seg>, oversize: nat, m: nat)
    requires Sized(s, m) && ext <= |data| && (ext > 0 || psh ==> s.unsent != [] && LastOf(s.unsent).data != [])
    requires s.unsent != [] && LastOf(s.unsent).data != [] ==>
               |LastOf(s.unsent).data| + OptLen(LastOf(s.unsent)) + ext <= m
    requires Fits(segs, m)
    requires if segs != [] then RoomFits(segs, oversize, m)
             else oversize > 0 ==> s.unsent != [] && LastOf(s.unsent).data != []
                                   && |LastOf(s.unsent).data| + OptLen(LastOf(s.unsent)) + ext + oversize <= m
    ensures Sized(Written(s, data, ext, pbufs, psh, segs, oversize), m)
  {
    hide Seq32.Add, Pbufs;
    var tail := if ext > 0 || psh
                then s.unsent[..|s.unsent| - 1] + [Extended(LastOf(s.unsent), data[..ext], pbufs, psh)]
                else s.unsent;
    assert segs != [] ==> LastOf(tail + segs) == LastOf(segs);
    assert segs == [] ==> tail + segs == tail;
  }

  lemma NewFit(segs: seq<Seg>, m: nat)
    requires forall x :: x in segs ==> |x.data| <= m && !x.syn
    ensures Fits(segs, m)
  {
  }

  /** All that the end of a successful tcp_write needs: what its phases have found out, and what follows for the
      committed state. */
  lemma WriteDone(g: View, s: Queues, data: seq<U8>, ext: nat, pbufs: nat, psh: bool, segs: seq<Seg>, oversize: nat,
                  m: nat)
    returns (g': View)
    requires Inv(g, s) && Sized(s, m) && TcpStates.Writable(s.state) && ext <= |data| <= s.snd_buf
    requires ext > 0 || psh || (segs == [] && oversize > 0) ==>
               s.unsent != [] && LastOf(s.unsent).data != [] && TailOk(g, s)
    requires (ext == 0 ==> pbufs == 0) && (segs == [] <==> ext == |data|)
    requires s.unsent != [] && LastOf(s.unsent).data != [] ==>
               |LastOf(s.unsent).data| + OptLen(LastOf(s.unsent)) + ext + (if segs == [] then oversize else 0) <= m
    requires Flight(segs, g.End() + ext, Conn(g.conn.iss, g.conn.stream + data), g.End() + |data|)
    requires forall x :: x in segs ==> |x.data| <= m && !x.syn
    requires segs != [] ==> LastOf(segs).data != [] && |LastOf(segs).data| + oversize <= m
    ensures var s' := Written(s, data, ext, pbufs, psh, segs, oversize);
            && Inv(g', s') && Sized(s', m) && (data != [] || TailOk(g, s) ==> TailOk(g', s'))
            && s'.unacked == s.unacked && s'.snd_lbb == Seq32.Add(s.snd_lbb, |data|) && s'.snd_buf == s.snd_buf - |data|
            && s'.state == s.state && s'.lastack == s.lastack && s'.snd_nxt == s.snd_nxt
            && Payload(s'.unsent) == Payload(s.unsent) + data
            && forall x :: x in s'.unsent ==> x in s.unsent || |x.data| <= m
    ensures g' == g.(conn := Conn(g.conn.iss, g.conn.stream + data), flight := g'.flight)
  {
    hide Inv, TailOk, Payload, Seq32.Add, Flight, Written, Sized, Fits;
    WrittenFacts(g, s);
    g' := WrittenInv(g, s, data, ext, pbufs, psh, segs, oversize);
    WrittenPayload(g, s, data, ext, pbufs, psh, segs, oversize);
    WrittenSizes(s, data, ext, pbufs, psh, segs, oversize, m);
    WrittenIs(s, data, ext, pbufs, psh, segs, oversize);
    NewFit(segs, m);
    SizedWritten(s, data, ext, pbufs, psh, segs, oversize, m);
  }

  /** The same where phase 2 has extended a segment that others follow: all is committed alike, but the queues do not
      hold the stream any more. */
  lemma {:induction false} WriteMisplaced(g: View, s: Queues, data: seq<U8>, ext: nat, pbufs: nat, psh: bool,
                                          segs: seq<Seg>, oversize: nat, m: nat)
    requires Inv(g, s) && TcpStates.Writable(s.state) && 0 < ext <= |data| <= s.snd_buf && !TailOk(g, s)
    requires s.unsent != [] && LastOf(s.unsent).data != [] && |LastOf(s.unsent).data| + ext <= m
    requires Flight(segs, g.End() + ext, Conn(g.conn.iss, g.conn.stream + data), g.End() + |data|)
    requires forall x :: x in segs ==> |x.data| <= m
    ensures var s' := Written(s, data, ext, pbufs, psh, segs, oversize);
            && s'.unacked == s.unacked && s'.snd_lbb == Seq32.Add(s.snd_lbb, |data|)
            && s'.snd_buf == s.snd_buf - |data| && s'.state == s.state
            && Payload(s'.unsent) == Payload(s.unsent) + data
            && (forall x :: x in s'.unsent ==> x in s.unsent || |x.data| <= m)
            && forall g': View :: g'.conn == Conn(g.conn.iss, g.conn.stream + data) && !g'.fin ==> !Inv(g', s')
  {
    hide Contiguous, TailOk, Payload, Seq32.Add, Flight, Written, Pointers, Conserved;
    WrittenFacts(g, s);
    WriteOnLastIff(g, s, data, ext, pbufs, psh, segs);
    WrittenPayload(g, s, data, ext, pbufs, psh, segs, oversize);
    WrittenSizes(s, data, ext, pbufs, psh, segs, oversize, m);
    WrittenIs(s, data, ext, pbufs, psh, segs, oversize);
    SameUnsent(s, data, ext, pbufs, psh, segs, oversize);
  }

  /** The end of a successful tcp_write: all bytes are committed, and the queues go on holding the stream exactly if
      none of them went onto a segment that others follow. */
  lemma {:induction false} WriteEnds(g: View, s: Queues, data: seq<U8>, ext: nat, pbufs: nat, psh: bool,
                                     segs: seq<Seg>, oversize: nat, m: nat) returns (g': View)
    requires Inv(g, s) && Sized(s, m) && TcpStates.Writable(s.state) && ext <= |data| <= s.snd_buf
    requires ext > 0 || psh || (segs == [] && oversize > 0) ==>
               s.unsent != [] && LastOf(s.unsent).data != [] && (ext > 0 || TailOk(g, s))
    requires (ext == 0 ==> pbufs == 0) && (segs == [] <==> ext == |data|)
    requires s.unsent != [] && LastOf(s.unsent).data != [] ==>
               |LastOf(s.unsent).data| + OptLen(LastOf(s.unsent)) + ext + (if segs == [] then oversize else 0) <= m
    requires Flight(segs, g.End() + ext, Conn(g.conn.iss, g.conn.stream + data), g.End() + |data|)
    requires forall x :: x in segs ==> |x.data| <= m && !x.syn
    requires segs != [] ==> LastOf(segs).data != [] && |LastOf(segs).data| + oversize <= m
    ensures var s' := Written(s, data, ext, pbufs, psh, segs, oversize);
            && (Inv(g', s') && Sized(s', m) <==> ext == 0 || TailOk(g, s))
            && (Inv(g', s') && (data != [] || TailOk(g, s)) ==> TailOk(g', s'))
            && s'.snd_lbb == Seq32.Add(s.snd_lbb, |data|) && s'.snd_buf == s.snd_buf - |data| && s'.state == s.state
            && Payload(s'.unsent) == Payload(s.unsent) + data
            && forall x :: x in s'.unsent ==> x in s.unsent || |x.data| <= m
    ensures g' == g.(conn := Conn(g.conn.iss, g.conn.stream + data), flight := g'.flight)
  {
    hide Inv, TailOk, Payload, Seq32.Add, Flight, Written, Sized, OptLen;
    if ext == 0 || TailOk(g, s) {
      g' := WriteDone(g, s, data, ext, pbufs, psh, segs, oversize, m);
    } else {
      g' := g.(conn := Conn(g.conn.iss, g.conn.stream + data));
      WriteMisplaced(g, s, data, ext, pbufs, psh, segs, oversize, m);
      WrittenFacts(g, s);
    }
  }

  /** From the unsent queue `u` to `u'` tcp_write has filled segments of `m` bytes: it puts bytes onto the last one, if
      that has any, with a new pbuf if `chained`; it makes new segments only when that one is full, each of one pbuf, or
      two if the data is not copied; all of them but the last are full; and the last one is pushed, no other, unless
      `more` will come. */
  ghost predicate Packed(u: seq<Seg>, u': seq<Seg>, m: nat, copy: bool, more: bool, chained: bool, empty: bool) {
    && |u| <= |u'|
    && (u != [] ==>
          var last, last' := LastOf(u), u'[|u| - 1];
          && u'[..|u| - 1] == u[..|u| - 1]
          && last'.clen == last.clen + (if chained then 1 else 0)
          && (last.data == [] ==> last' == last)
          && (last.data != [] && |u'| > |u| ==> |last'.data| + OptLen(last') == m)
          && (last'.psh != last.psh ==> last'.psh && |u'| == |u| && !more))
    && (forall i :: |u| <= i < |u'| - 1 ==> |u'[i].data| == m)
    && (forall i :: |u| <= i < |u'| ==>
          u'[i].data != [] && u'[i].clen == (if copy then 1 else 2) && u'[i].psh == (i == |u'| - 1 && !more))
    && (!empty && !more ==> u' != [] && LastOf(u').psh)
  }

  lemma {:induction false} WriteFills(s: Queues, data: seq<U8>, ext: nat, pbufs: nat, psh: bool, segs: seq<Seg>,
                                      oversize: nat, m: nat, copy: bool, more: bool, chained: bool)
    requires Sized(s, m) && ext <= |data| && (segs == [] <==> ext == |data|)
    requires ext == if s.unsent != [] && LastOf(s.unsent).data != []
                    then Min(|data|, m - |LastOf(s.unsent).data| - OptLen(LastOf(s.unsent))) else 0
    requires pbufs == (if chained then 1 else 0) && (pbufs > 0 ==> ext > 0)
    requires psh ==> s.unsent != [] && LastOf(s.unsent).data != [] && segs == [] && !more
    requires ext > 0 && segs == [] && !more ==> psh
    requires Fresh(segs, m, copy, more)
    ensures Packed(s.unsent, Written(s, data, ext, pbufs, psh, segs, oversize).unsent, m, copy, more, chained,
                   data == [])
  {
    hide PairOf, Pbufs;
    var u, u' := s.unsent, Written(s, data, ext, pbufs, psh, segs, oversize).unsent;
    assert |u'| == |u| + |segs| && forall i :: |u| <= i < |u'| ==> u'[i] == segs[i - |u|];
  }

  /** The segments that phase 3 of tcp_write makes. */
  ghost predicate Fresh(segs: seq<Seg>, m: nat, copy: bool, more: bool) {
    forall i :: 0 <= i < |segs| ==>
      && segs[i].data != [] && (i < |segs| - 1 ==> |segs[i].data| == m)
      && segs[i].clen == (if copy then 1 else 2) && segs[i].psh == (i == |segs| - 1 && !more)
  }

  lemma NoneFresh(m: nat, copy: bool)
    ensures forall more :: Fresh([], m, copy, more)
  {
  }

  lemma FreshMore(segs: seq<Seg>, seg: Seg, m: nat, copy: bool, more: bool)
    requires Fresh(segs, m, copy, true) && (segs != [] ==> |LastOf(segs).data| == m)
    requires seg.data != [] && seg.clen == (if copy then 1 else 2) && seg.psh == !more
    ensures Fresh(segs + [seg], m, copy, more)
  {
    assert forall i :: 0 <= i < |segs| ==> (segs + [seg])[i] == segs[i];
  }

  lemma SameUnsent(s: Queues, data: seq<U8>, ext: nat, pbufs: nat, psh: bool, segs: seq<Seg>, oversize: nat)
    requires ext <= |data| && (ext > 0 || psh ==> s.unsent != [])
    ensures Written(s, data, ext, pbufs, psh, segs, oversize).unsent
              == Written(s, data, ext, pbufs, psh, segs, 0).unsent
  {
  }

  lemma WrittenFacts(g: View, s: Queues)
    requires Inv(g, s) && TcpStates.Writable(s.state)
    ensures !g.fin
  {
  }

  lemma MssPositive(mss: nat, snd_wnd_max: nat)
    requires mss > 0
    ensures 0 < MssOf(mss, snd_wnd_max) <= mss
  {
  }

  lemma SizedHead(s: Queues, mss: U16, snd_wnd_max: nat)
    requires Sized(s, MssOf(mss, snd_wnd_max)) && s.unsent != []
    ensures |s.unsent[0].data| <= 0xFFFF
  {
  }

  // ---------- the segment size while the peer's window grows ----------

  lemma SizedGrows(s: Queues, m: nat, n: nat)
    requires Sized(s, m) && m <= n
    ensures Sized(s, n)
  {
  }

  /** The segment size does not shrink when a larger window is announced, unless the window was no larger than one
      byte at first: it counts as unknown then. */
  lemma SizeShrinksIff(mss: nat, old_max: nat, new_max: U16)
    requires mss > 0 && old_max <= new_max
    ensures MssOf(mss, old_max) <= MssOf(mss, new_max) <==> old_max >= 2 || new_max < 2 || mss <= new_max / 2
  {
  }

  /** A connection whose peer has acknowledged the SYN, and `data` written to it as one segment. */
  function Filled(iss: U32, data: seq<U8>): Queues {
    var s := Acked(Sent(Opened(iss)), Seq32.Add(iss, 1));
    Written(s, data, 0, 0, false, [Seg(Seq32.Add(iss, 1), data, false, false, true, 1, PairOf(data))], 0)
  }

  lemma {:induction false} FilledInv(iss: U32, data: seq<U8>, m: nat) returns (g: View)
    requires 0 < |data| <= m && |data| <= TCP_SND_BUF
    ensures Inv(g, Filled(iss, data)) && Sized(Filled(iss, data), m)
    ensures Filled(iss, data).unsent == [Seg(Seq32.Add(iss, 1), data, false, false, true, 1, PairOf(data))]
  {
    hide Inv, Acked, Sent, Flight, Written, TailOk, Payload, Num, PairOf;
    var s := Acked(Sent(Opened(iss)), Seq32.Add(iss, 1));
    var x := Seg(Seq32.Add(iss, 1), data, false, false, true, 1, PairOf(data));
    g := OpenedAndAcked(iss);
    var c := Conn(iss, [] + data);
    StreamEnd(g, s, data);
    assert data[0..0 + |data|] == data;
    FreshHolds(x, data, 0, |data|, c, g.End());
    LoneFlight(x, g.End(), c, g.End() + |data|);
    assert [x] + [] == [x];
    g := WriteDone(g, s, data, 0, 0, false, [x], 0, m);
    FilledUnsent(s, data, x);
  }

  lemma FilledUnsent(s: Queues, data: seq<U8>, x: Seg)
    requires s.unsent == []
    ensures Written(s, data, 0, 0, false, [x], 0).unsent == [x]
  {
  }

  /** Queued segments fit the new segment size, whatever is queued, if and only if it is not the smaller one. */
  lemma {:induction false} SizesStayIff(mss: U16, old_max: nat, new_max: U16)
    requires mss > 0 && old_max <= new_max
    ensures (forall g, s :: Inv(g, s) && Sized(s, MssOf(mss, old_max)) ==> Sized(s, MssOf(mss, new_max)))
            <==> old_max >= 2 || new_max < 2 || mss <= new_max / 2
  {
    hide Inv, Sized, MssOf;
    SizeShrinksIff(mss, old_max, new_max);
    if old_max >= 2 || new_max < 2 || mss <= new_max / 2 {
      forall g, s | Inv(g, s) && Sized(s, MssOf(mss, old_max)) ensures Sized(s, MssOf(mss, new_max)) {
        SizedGrows(s, MssOf(mss, old_max), MssOf(mss, new_max));
      }
    } else {
      var g, s := TooLarge(0, mss, old_max, new_max);
    }
  }

  /** The case that fails: the peer opens with a window of at most one byte, a segment of more than half the later
      window is written, and then that window is announced. */
  lemma {:induction false} TooLarge(iss: U32, mss: U16, old_max: nat, new_max: U16) returns (g: View, s: Queues)
    requires old_max < 2 <= new_max && new_max / 2 < mss
    ensures s == Filled(iss, seq(new_max / 2 + 1, _ => 0))
    ensures Inv(g, s) && Sized(s, MssOf(mss, old_max)) && !Sized(s, MssOf(mss, new_max))
  {
    hide Inv, Filled;
    var data: seq<U8> := seq(new_max / 2 + 1, _ => 0);
    s := Filled(iss, data);
    g := FilledInv(iss, data, MssOf(mss, old_max));
    assert s.unsent[0] in s.unsent && s.unsent[0].data == data;
  }

  /** The assertion "mss_local is too small", for a SYN that is still unsent. */
  lemma SynFitsIff(mss: nat, snd_wnd_max: nat)
    requires mss > 0
    ensures var syn := Seg(0, [], true, false, false, 1, PairOf([]));
            |syn.data| + OptLen(syn) <= MssOf(mss, snd_wnd_max) <==>
            mss >= 4 && (snd_wnd_max < 2 || snd_wnd_max >= 8)
  {
  }
}
