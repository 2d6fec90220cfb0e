/** The out-of-sequence queue of a connection: what it holds, and how tcp_receive links a segment into it
    (tcp_in.c). Positions are counted in the stream the peer sends. */
module TcpOoseq {
  import opened Words
  import opened Seq32

  /** A segment on the out-of-sequence queue, or the one that just arrived. */
  datatype Seg = Seg(seqno: U32, data: seq<U8>, fin: bool) {
    function TcpLen(): nat {
      |data| + if fin then 1 else 0
    }
  }

  /** The sender's whole stream, and the stream position `off` that rcv_nxt == `nxt` stands for. */
  datatype Frame = Frame(nxt: U32, off: int, stream: seq<U8>)

  /** Stream position of the first byte of `g`. */
  function Pos(g: Seg, f: Frame): int {
    f.off + Diff(g.seqno, f.nxt)
  }

  function End(g: Seg, f: Frame): int {
    Pos(g, f) + |g.data|
  }

  ghost function Range(lo: int, hi: int): (r: set<int>)
    ensures forall p :: p in r <==> lo <= p < hi
    decreases hi - lo
  {
    if lo >= hi then {} else {lo} + Range(lo + 1, hi)
  }

  ghost function Span(g: Seg, f: Frame): set<int> {
    Range(Pos(g, f), End(g, f))
  }

  /** Close enough to rcv_nxt for serial comparison to be meaningful. */
  predicate Near(g: Seg, f: Frame) {
    f.off - QUARTER <= Pos(g, f) && |g.data| < 0x1_0000 && End(g, f) < f.off + QUARTER - 0x2_0000
  }

  /** The bytes of `g` are the ones the sender put at its place; a FIN sits at the end of the stream. */
  predicate FromStream(g: Seg, f: Frame) {
    && 0 <= Pos(g, f)
    && End(g, f) <= |f.stream|
    && g.data == f.stream[Pos(g, f)..End(g, f)]
    && (g.fin ==> End(g, f) == |f.stream|)
  }

  predicate Good(g: Seg, f: Frame) {
    Near(g, f) && FromStream(g, f) && g.TcpLen() > 0
  }

  /** A queue: strictly sorted, disjoint, every segment true to the stream, a FIN only at the end. */
  ghost predicate Chain(q: seq<Seg>, f: Frame, lo: int) {
    q == [] ||
    (Good(q[0], f) && lo <= Pos(q[0], f) && (q[0].fin ==> q[1..] == []) && Chain(q[1..], f, End(q[0], f)))
  }

  /** The stream positions whose bytes are queued. */
  ghost function Bytes(q: seq<Seg>, f: Frame): set<int> {
    if q == [] then {} else Span(q[0], f) + Bytes(q[1..], f)
  }

  ghost predicate HasFin(q: seq<Seg>) {
    q != [] && (q[0].fin || HasFin(q[1..]))
  }

  /** Every queued sequence number lies below `edge`. */
  ghost predicate Within(q: seq<Seg>, f: Frame, edge: int) {
    q == [] || (Pos(q[0], f) + q[0].TcpLen() <= edge && Within(q[1..], f, edge))
  }

  /** The comparisons tcp_in.c makes between two segments, in terms of stream positions. */
  lemma CompareSegs(a: Seg, b: Seg, f: Frame)
    requires Near(a, f) && Near(b, f)
    ensures Diff(a.seqno, b.seqno) == Pos(a, f) - Pos(b, f)
    ensures Diff(Add(a.seqno, |a.data|), b.seqno) == End(a, f) - Pos(b, f)
    ensures Diff(Add(a.seqno, |a.data|), Add(b.seqno, |b.data|)) == End(a, f) - End(b, f)
    ensures 0 <= Pos(a, f) - Pos(b, f) < 0x1_0000 ==> Cast16(a.seqno, b.seqno) == Pos(a, f) - Pos(b, f)
  {
    DiffAdd(a.seqno, |a.data|, f.nxt);
    DiffAdd(b.seqno, |b.data|, f.nxt);
    DiffNear(a.seqno, b.seqno, f.nxt);
    DiffNear(Add(a.seqno, |a.data|), b.seqno, f.nxt);
    DiffNear(Add(a.seqno, |a.data|), Add(b.seqno, |b.data|), f.nxt);
    Cast16Diff(a.seqno, b.seqno);
  }

  /** `(u16_t)(a - b)` */
  function Cast16(a: U32, b: U32): U16 {
    (a - b) % WRAP % 0x1_0000
  }

  lemma Cast16Diff(a: U32, b: U32)
    ensures 0 <= Diff(a, b) < 0x1_0000 ==> Cast16(a, b) == Diff(a, b)
  {
  }

  /** The head of a segment is as true to the stream as the whole. */
  lemma Prefix(g: Seg, len: nat, f: Frame)
    requires Good(g, f) && 0 < len <= |g.data|
    ensures Good(g.(data := g.data[..len], fin := false), f)
  {
  }

  /** Nothing of the stream lies behind its end. */
  lemma FinCoversAll(c: Seg, q: seq<Seg>, f: Frame, lo: int)
    requires Good(c, f) && c.fin && Chain(q, f, lo) && Pos(c, f) <= lo
    ensures Bytes(q, f) <= Span(c, f)
  {
    if q != [] {
      FinCoversAll(c, q[1..], f, End(q[0], f));
    }
  }

  lemma ChainLower(q: seq<Seg>, f: Frame, lo: int, lo': int)
    requires Chain(q, f, lo) && (q != [] ==> lo' <= Pos(q[0], f))
    ensures Chain(q, f, lo')
  {
  }

  /** One turn of the loop that drops covered segments: `next` lies inside `c`. */
  lemma Covered(c: Seg, next: seq<Seg>, f: Frame)
    requires Good(c, f) && Chain(next, f, Pos(c, f)) && next != []
    requires SeqGeq(Add(c.seqno, |c.data|), Add(next[0].seqno, |next[0].data|))
    ensures Span(next[0], f) <= Span(c, f)
    ensures Chain(next[1..], f, Pos(c, f))
    ensures next[1..] != [] ==> Pos(c, f) < Pos(next[1], f)
    ensures next[0].fin ==> Good(c.(fin := true), f) && Pos(next[0], f) + next[0].TcpLen() == End(c, f) + 1
  {
    CompareSegs(c, next[0], f);
    assert End(next[0], f) <= End(c, f);
    if next[0].fin {
      assert Good(c.(fin := true), f) && End(next[0], f) == End(c, f);
    }
    ChainLower(next[1..], f, End(next[0], f), Pos(c, f));
  }

  /** Cutting `c` where the first segment that is left begins. */
  lemma Trimmed(c: Seg, next: seq<Seg>, f: Frame)
    requires Good(c, f) && Chain(next, f, Pos(c, f)) && next != []
    requires next[0].seqno != c.seqno
    requires !SeqGeq(Add(c.seqno, |c.data|), Add(next[0].seqno, |next[0].data|))
    ensures SeqGt(Add(c.seqno, |c.data|), next[0].seqno) ==>
              var len := Cast16(next[0].seqno, c.seqno);
              && 0 < len <= |c.data|
              && Good(c.(data := c.data[..len], fin := false), f)
              && Pos(c, f) + len == Pos(next[0], f)
              && Span(c.(data := c.data[..len]), f) + Bytes(next, f) == Span(c, f) + Bytes(next, f)
    ensures !SeqGt(Add(c.seqno, |c.data|), next[0].seqno) ==> End(c, f) <= Pos(next[0], f)
    ensures End(c, f) < End(next[0], f)
  {
    CompareSegs(c, next[0], f);
    CompareSegs(next[0], c, f);
    assert End(c, f) < End(next[0], f);
    if SeqGt(Add(c.seqno, |c.data|), next[0].seqno) {
      var len := Cast16(next[0].seqno, c.seqno);
      Prefix(c, len, f);
      assert Span(c, f) <= Span(c.(data := c.data[..len]), f) + Span(next[0], f);
    }
  }

  /** The loop that drops covered segments: `rest` is left of `next`, and `c` is `cseg`, with a FIN if a dropped
      segment had one. */
  ghost predicate Dropping(cseg: Seg, next: seq<Seg>, c: Seg, rest: seq<Seg>, f: Frame, edge: int) {
    && !cseg.fin && c == cseg.(fin := c.fin) && Good(c, f) && |rest| <= |next|
    && Chain(rest, f, Pos(cseg, f)) && (c.fin ==> rest == [])
    && (rest != next && rest != [] ==> Pos(cseg, f) < Pos(rest[0], f))
    && Span(cseg, f) + Bytes(rest, f) == Span(cseg, f) + Bytes(next, f)
    && (c.fin || HasFin(rest) <==> HasFin(next))
    && (Within(next, f, edge) ==> Within(rest, f, edge) && (c.fin ==> End(c, f) + 1 <= edge))
  }

  lemma DropStep(cseg: Seg, next: seq<Seg>, c: Seg, rest: seq<Seg>, f: Frame, edge: int)
    requires Dropping(cseg, next, c, rest, f, edge) && rest != []
    requires SeqGeq(Add(c.seqno, |c.data|), Add(rest[0].seqno, |rest[0].data|))
    ensures Dropping(cseg, next, if rest[0].fin then c.(fin := true) else c, rest[1..], f, edge)
  {
    hide Diff, Good, Near, SeqGeq;
    Covered(c, rest, f);
  }

  /** What is linked in the end: the segment cut at the first one that is left. */
  ghost predicate Linked(cseg: Seg, next: seq<Seg>, r: seq<Seg>, f: Frame, edge: int) {
    && r != [] && r[0].seqno == cseg.seqno
    && Chain(r, f, Pos(cseg, f))
    && Bytes(r, f) == Span(cseg, f) + Bytes(next, f)
    && (HasFin(r) <==> cseg.fin || HasFin(next))
    && (Within(next, f, edge) ==> (Within(r, f, edge) <==> Pos(cseg, f) + cseg.TcpLen() <= edge))
  }

  lemma DropDone(cseg: Seg, next: seq<Seg>, c: Seg, rest: seq<Seg>, f: Frame, edge: int)
    requires Dropping(cseg, next, c, rest, f, edge)
    requires rest != [] ==> !SeqGeq(Add(c.seqno, |c.data|), Add(rest[0].seqno, |rest[0].data|))
    requires next != [] && next[0].seqno == cseg.seqno ==> |next[0].data| < |cseg.data|
    ensures rest != [] && SeqGt(Add(c.seqno, |c.data|), rest[0].seqno) ==>
              var len := Cast16(rest[0].seqno, c.seqno);
              len <= |c.data| && Linked(cseg, next, [c.(data := c.data[..len])] + rest, f, edge)
    ensures rest == [] || !SeqGt(Add(c.seqno, |c.data|), rest[0].seqno) ==> Linked(cseg, next, [c] + rest, f, edge)
  {
    if rest != [] {
      NotSameStart(cseg, next, c, rest, f, edge);
      Trimmed(c, rest, f);
    }
    hide Diff, Good, SeqGeq, SeqGt, Linked;
    if rest != [] && SeqGt(Add(c.seqno, |c.data|), rest[0].seqno) {
      LinkUp(cseg, next, c, rest, c.(data := c.data[..Cast16(rest[0].seqno, c.seqno)]), f, edge);
    } else {
      LinkUp(cseg, next, c, rest, c, f, edge);
    }
  }

  lemma LinkUp(cseg: Seg, next: seq<Seg>, c: Seg, rest: seq<Seg>, c': Seg, f: Frame, edge: int)
    requires Dropping(cseg, next, c, rest, f, edge)
    requires Good(c', f) && c'.seqno == c.seqno && c'.fin == c.fin && |c'.data| <= |c.data|
    requires Span(c', f) + Bytes(rest, f) == Span(c, f) + Bytes(rest, f)
    requires rest != [] ==> End(c', f) <= Pos(rest[0], f)
    requires |c'.data| < |c.data| ==> rest != [] && End(c, f) < End(rest[0], f)
    ensures Linked(cseg, next, [c'] + rest, f, edge)
  {
    hide Diff, Good;
    var r := [c'] + rest;
    assert r[1..] == rest && r[0] == c';
    assert Bytes(r, f) == Span(c', f) + Bytes(rest, f) && Span(c, f) == Span(cseg, f);
    ChainLower(rest, f, Pos(cseg, f), End(c', f));
    assert HasFin(r) <==> cseg.fin || HasFin(next);
    assert Within(next, f, edge) ==> (Within(r, f, edge) <==> Pos(cseg, f) + cseg.TcpLen() <= edge);
    assert Chain(r, f, Pos(cseg, f));
  }

  lemma NotSameStart(cseg: Seg, next: seq<Seg>, c: Seg, rest: seq<Seg>, f: Frame, edge: int)
    requires Dropping(cseg, next, c, rest, f, edge) && rest != []
    requires !SeqGeq(Add(c.seqno, |c.data|), Add(rest[0].seqno, |rest[0].data|))
    requires next[0].seqno == cseg.seqno ==> |next[0].data| < |cseg.data|
    ensures rest[0].seqno != c.seqno
  {
    if rest[0].seqno == c.seqno {
      assert rest == next;
      SameLenCovered(c, next, f);
    }
  }

  /** A FIN ends the stream, so everything behind it is covered. */
  lemma FinLinked(cseg: Seg, next: seq<Seg>, f: Frame, edge: int)
    requires Good(cseg, f) && cseg.fin && Chain(next, f, Pos(cseg, f))
    ensures Linked(cseg, next, [cseg], f, edge)
  {
    FinCoversAll(cseg, next, f, Pos(cseg, f));
    assert [cseg][1..] == [];
  }

  /** tcp_oos_insert_segment: link `cseg` in front of the list `next`, dropping what it covers and
      trimming it to the first segment that is left. */
  method OosInsertSegment(cseg: Seg, next: seq<Seg>, ghost f: Frame, ghost edge: int) returns (r: seq<Seg>)
    requires Good(cseg, f) && Chain(next, f, Pos(cseg, f))
    requires next != [] && next[0].seqno == cseg.seqno ==> |next[0].data| < |cseg.data|
    ensures Linked(cseg, next, r, f, edge)
  {
    var c, rest := cseg, next;
    if c.fin {
      FinLinked(cseg, next, f, edge);
      rest := [];
    } else {
      assert Dropping(cseg, next, c, rest, f, edge);
      hide Dropping, Linked, SeqGeq, SeqGt, Cast16;
      while rest != [] && SeqGeq(Add(c.seqno, |c.data|), Add(rest[0].seqno, |rest[0].data|))
        invariant Dropping(cseg, next, c, rest, f, edge)
        decreases |rest|
      {
        DropStep(cseg, next, c, rest, f, edge);
        if rest[0].fin {
          c := c.(fin := true);
        }
        rest := rest[1..];
      }
      DropDone(cseg, next, c, rest, f, edge);
      if rest != [] && SeqGt(Add(c.seqno, |c.data|), rest[0].seqno) {
        c := c.(data := c.data[..Cast16(rest[0].seqno, c.seqno)]);
      }
    }
    r := [c] + rest;
  }

  lemma SameLenCovered(c: Seg, next: seq<Seg>, f: Frame)
    requires Good(c, f) && Chain(next, f, Pos(c, f)) && next != [] && next[0].seqno == c.seqno
    requires |next[0].data| <= |c.data|
    ensures SeqGeq(Add(c.seqno, |c.data|), Add(next[0].seqno, |next[0].data|))
  {
    CompareSegs(c, next[0], f);
  }

  lemma GoodNear(g: Seg, f: Frame)
    requires Good(g, f)
    ensures Near(g, f) && g.TcpLen() > 0
  {
  }

  /** End of the last segment of `q`, or `lo`. */
  ghost function Last(q: seq<Seg>, f: Frame, lo: int): int {
    if q == [] then lo else Last(q[1..], f, End(q[0], f))
  }

  /** A segment of `q` that starts before `seg` and ends after it loses what lies behind `seg`: it is cut where
      `seg` starts. A segment that carries a FIN is never cut. */
  ghost function Lost(q: seq<Seg>, seg: Seg, f: Frame): set<int> {
    if q == [] then {}
    else if Pos(q[0], f) < Pos(seg, f) && End(seg, f) < End(q[0], f) && !q[0].fin then Range(End(seg, f), End(q[0], f))
    else Lost(q[1..], seg, f)
  }

  /** Some segment of `q` starts where `seg` does and is at least as long. */
  predicate Repeats(q: seq<Seg>, seg: Seg) {
    q != [] && ((q[0].seqno == seg.seqno && |seg.data| <= |q[0].data|) || Repeats(q[1..], seg))
  }

  /** Everything that is said about a queue, for two queues put together around a segment. */
  lemma Middle(a: seq<Seg>, g: Seg, b: seq<Seg>, f: Frame, lo: int, edge: int)
    ensures Chain(a + [g] + b, f, lo) <==>
            && Chain(a, f, lo) && !HasFin(a)
            && Good(g, f) && Last(a, f, lo) <= Pos(g, f) && (g.fin ==> b == [])
            && Chain(b, f, End(g, f))
    ensures Bytes(a + [g] + b, f) == Bytes(a, f) + Span(g, f) + Bytes(b, f)
    ensures HasFin(a + [g] + b) <==> HasFin(a) || g.fin || HasFin(b)
    ensures Within(a + [g] + b, f, edge) <==> Within(a, f, edge) && Pos(g, f) + g.TcpLen() <= edge && Within(b, f, edge)
  {
    hide Diff, Good;
    var q := a + [g] + b;
    if a == [] {
      assert q[0] == g && q[1..] == b;
    } else {
      assert q[0] == a[0] && q[1..] == a[1..] + [g] + b;
      Middle(a[1..], g, b, f, End(a[0], f), edge);
    }
  }

  lemma BytesBounds(q: seq<Seg>, f: Frame, lo: int)
    requires Chain(q, f, lo)
    ensures lo <= Last(q, f, lo)
    ensures forall p :: p in Bytes(q, f) ==> lo <= p < Last(q, f, lo)
  {
    if q != [] {
      BytesBounds(q[1..], f, End(q[0], f));
    }
  }

  lemma FirstBefore(a: seq<Seg>, prev: Seg, next: seq<Seg>, f: Frame, lo: int)
    requires a != [] && Chain(a + [prev] + next, f, lo)
    ensures End(a[0], f) <= Pos(prev, f)
  {
    var q := a + [prev] + next;
    assert q[1..] == a[1..] + [prev] + next;
    if |a| > 1 {
      FirstBefore(a[1..], prev, next, f, End(a[0], f));
    }
  }

  /** `Repeats` and `Lost` only look at segments that start at or before `seg`. */
  lemma Behind(q: seq<Seg>, seg: Seg, f: Frame)
    requires q == [] || (Chain(q, f, Pos(q[0], f)) && Pos(seg, f) < Pos(q[0], f))
    ensures !Repeats(q, seg) && Lost(q, seg, f) == {}
    ensures q != [] ==> Pos(seg, f) < Pos(q[|q| - 1], f)
  {
    if |q| > 1 {
      assert q[1..][|q[1..]| - 1] == q[|q| - 1];
      Behind(q[1..], seg, f);
    }
  }

  /** The walk has passed `before` and stands at `g`: nothing before `g` is concerned. */
  lemma Passed(before: seq<Seg>, g: Seg, rest: seq<Seg>, seg: Seg, f: Frame, lo: int)
    requires Chain(before + [g] + rest, f, lo) && Good(seg, f) && Pos(g, f) <= Pos(seg, f)
    requires rest != [] ==> Pos(seg, f) < Pos(rest[0], f)
    ensures Repeats(before + [g] + rest, seg) <==> g.seqno == seg.seqno && |seg.data| <= |g.data|
    ensures Lost(before + [g] + rest, seg, f) == Lost([g], seg, f)
    ensures Good(g, f)
  {
    var q := before + [g] + rest;
    if before == [] {
      assert q[0] == g && q[1..] == rest;
      Behind(rest, seg, f);
      Behind([], seg, f);
      ChainLower(rest, f, End(g, f), if rest == [] then 0 else Pos(rest[0], f));
    } else {
      assert q[0] == before[0] && q[1..] == before[1..] + [g] + rest;
      FirstBefore(before, g, rest, f, lo);
      Passed(before[1..], g, rest, seg, f, End(before[0], f));
    }
  }

  /** `prev` cut where `seg` starts, as tcp_receive does before linking `seg` behind it. */
  function CutPrev(prev: Seg, seg: Seg): Seg
    requires SeqGt(Add(prev.seqno, |prev.data|), seg.seqno) ==> Cast16(seg.seqno, prev.seqno) <= |prev.data|
  {
    if SeqGt(Add(prev.seqno, |prev.data|), seg.seqno)
    then prev.(data := prev.data[..Cast16(seg.seqno, prev.seqno)])
    else prev
  }

  lemma CutPrevSpan(prev: Seg, seg: Seg, f: Frame, kept: int)
    requires Good(prev, f) && Good(seg, f) && !prev.fin && Pos(prev, f) < Pos(seg, f)
    requires kept == End(seg, f) || (End(prev, f) <= kept < End(seg, f))
    ensures SeqGt(Add(prev.seqno, |prev.data|), seg.seqno) ==> Cast16(seg.seqno, prev.seqno) <= |prev.data|
    ensures var p := CutPrev(prev, seg);
            && Good(p, f) && !p.fin && p.seqno == prev.seqno
            && End(p, f) <= Pos(seg, f) && End(p, f) <= End(prev, f)
            && Span(p, f) + Range(Pos(seg, f), kept) == Span(prev, f) - Lost([prev], seg, f) + Range(Pos(seg, f), kept)
  {
    CompareSegs(prev, seg, f);
    CompareSegs(seg, prev, f);
    assert Lost([prev][1..], seg, f) == {};
    if End(prev, f) > Pos(seg, f) {
      Prefix(prev, Cast16(seg.seqno, prev.seqno), f);
    }
  }

  /** Linking `r`, which starts with what is kept of `seg`, between the cut `prev` and the rest. */
  lemma Spliced(a: seq<Seg>, prev: Seg, next: seq<Seg>, seg: Seg, r: seq<Seg>, f: Frame, lo: int, kept: int, edge: int)
    requires Chain(a + [prev] + next, f, lo) && Good(seg, f) && !prev.fin
    requires Pos(prev, f) < Pos(seg, f) && (next != [] ==> Pos(seg, f) < Pos(next[0], f))
    requires kept == End(seg, f) || (End(prev, f) <= kept < End(seg, f))
    requires Chain(r, f, Pos(seg, f)) && Bytes(r, f) == Range(Pos(seg, f), kept) + Bytes(next, f)
    ensures SeqGt(Add(prev.seqno, |prev.data|), seg.seqno) ==> Cast16(seg.seqno, prev.seqno) <= |prev.data|
    ensures var q, q' := a + [prev] + next, a + [CutPrev(prev, seg)] + r;
            && Chain(q', f, lo)
            && Bytes(q', f) == Bytes(q, f) - Lost(q, seg, f) + Range(Pos(seg, f), kept)
            && (HasFin(q') <==> HasFin(r)) && (HasFin(q) <==> HasFin(next))
            && (Within(q, f, edge) ==> Within(next, f, edge) && (Within(q', f, edge) <==> Within(r, f, edge)))
  {
    hide Diff, Good, SeqGt;
    Middle(a, prev, next, f, lo, edge);
    CutPrevSpan(prev, seg, f, kept);
    Passed(a, prev, next, seg, f, lo);
    var p := CutPrev(prev, seg);
    ChainLower(r, f, Pos(seg, f), End(p, f));
    Middle(a, p, r, f, lo, edge);
    BytesBounds(a, f, lo);
    BytesBounds(next, f, End(prev, f));
    Exchange(Bytes(a, f), Span(prev, f), Bytes(next, f), Lost([prev], seg, f), Span(p, f), Range(Pos(seg, f), kept));
  }

  lemma Exchange(a: set<int>, s: set<int>, n: set<int>, lost: set<int>, s': set<int>, k: set<int>)
    requires a !! lost && n !! lost && s' + k == s - lost + k
    ensures a + s' + (k + n) == (a + s + n) - lost + k
  {
    forall p ensures p in a + s' + (k + n) <==> p in (a + s + n) - lost + k {
      assert p in s' + k <==> p in s - lost + k;
    }
  }

  /** Where a new segment goes on the queue, and what becomes of it there. */
  ghost predicate Queued(q: seq<Seg>, seg: Seg, copied: bool, q': seq<Seg>, f: Frame, lo: int, edge: int) {
    if !copied then q' == q else
      var appended := q != [] && Pos(q[|q| - 1], f) < Pos(seg, f);
      var fits := Pos(seg, f) + seg.TcpLen() <= edge;
      var kept := if appended && !fits then edge else End(seg, f);
      && Chain(q', f, lo)
      && Bytes(q', f) == Bytes(q, f) - Lost(q, seg, f) + Range(Pos(seg, f), kept)
      && (HasFin(q') <==> HasFin(q) || (seg.fin && !Repeats(q, seg) && (fits || !appended)))
      && (Within(q, f, edge) ==> (Within(q', f, edge) <==> fits || appended || Repeats(q, seg)))
  }

  lemma AtFront(g: Seg, rest: seq<Seg>, seg: Seg, r: seq<Seg>, f: Frame, lo: int, edge: int)
    requires Chain([g] + rest, f, lo) && Good(seg, f) && lo <= Pos(seg, f) < Pos(g, f)
    requires Chain(r, f, Pos(seg, f)) && Bytes(r, f) == Span(seg, f) + Bytes([g] + rest, f)
    requires HasFin(r) <==> seg.fin || HasFin([g] + rest)
    requires Within([g] + rest, f, edge) ==> (Within(r, f, edge) <==> Pos(seg, f) + seg.TcpLen() <= edge)
    ensures Queued([g] + rest, seg, true, r, f, lo, edge)
  {
    var q := [g] + rest;
    ChainLower(q, f, lo, Pos(g, f));
    Behind(q, seg, f);
    ChainLower(r, f, Pos(seg, f), lo);
  }

  lemma AtRepeat(q: seq<Seg>, before: seq<Seg>, g: Seg, rest: seq<Seg>, seg: Seg, copied: bool, f: Frame, lo: int,
                 edge: int)
    requires q == before + [g] + rest
    requires Chain(q, f, lo) && Good(seg, f) && g.seqno == seg.seqno && |seg.data| <= |g.data|
    ensures Queued(q, seg, copied, q, f, lo, edge)
  {
    Middle(before, g, rest, f, lo, edge);
    Passed(before, g, rest, seg, f, lo);
    assert Lost([g][1..], seg, f) == {};
    LastAfter(before, g, rest, f, lo);
  }

  lemma Regroup<T>(a: seq<T>, b: seq<T>)
    requires b != []
    ensures a + [b[0]] + b[1..] == a + b
  {
  }

  lemma LastOf<T>(q: seq<T>, a: seq<T>, b: seq<T>)
    requires b != [] && q == a + b
    ensures q[|q| - 1] == b[|b| - 1]
  {
  }

  lemma LastStart(q: seq<Seg>, f: Frame, lo: int)
    requires q != [] && Chain(q, f, lo)
    ensures lo <= Pos(q[|q| - 1], f)
  {
    if |q| > 1 {
      assert q[1..][|q[1..]| - 1] == q[|q| - 1];
      LastStart(q[1..], f, End(q[0], f));
    }
  }

  lemma LastAfter(before: seq<Seg>, g: Seg, rest: seq<Seg>, f: Frame, lo: int)
    requires Chain(before + [g] + rest, f, lo)
    ensures var q := before + [g] + rest; Pos(g, f) <= Pos(q[|q| - 1], f)
    ensures g.seqno == (before + [g] + rest)[|before|].seqno
  {
    var q := before + [g] + rest;
    Middle(before, g, rest, f, lo, 0);
    if rest != [] {
      LastStart(rest, f, End(g, f));
      assert q[|q| - 1] == rest[|rest| - 1];
    } else {
      assert q[|q| - 1] == g;
    }
  }

  lemma Append(a: seq<Seg>, b: seq<Seg>, f: Frame, lo: int, edge: int)
    requires b != [] && Chain(a, f, lo) && !HasFin(a) && Chain(b, f, Last(a, f, lo))
    ensures Chain(a + b, f, lo)
    ensures Bytes(a + b, f) == Bytes(a, f) + Bytes(b, f)
    ensures HasFin(a + b) <==> HasFin(b)
    ensures Within(a + b, f, edge) <==> Within(a, f, edge) && Within(b, f, edge)
  {
    Middle(a, b[0], b[1..], f, lo, edge);
    Regroup(a, b);
  }

  lemma AtLonger(q: seq<Seg>, before: seq<Seg>, g: Seg, rest: seq<Seg>, seg: Seg, r: seq<Seg>, f: Frame, lo: int,
                 edge: int)
    requires q == before + [g] + rest
    requires Chain(q, f, lo) && Good(seg, f) && g.seqno == seg.seqno && |g.data| < |seg.data|
    requires r != [] && Pos(r[0], f) == Pos(seg, f)
    requires Chain(r, f, Pos(seg, f)) && Bytes(r, f) == Span(seg, f) + Bytes([g] + rest, f)
    requires HasFin(r) <==> seg.fin || HasFin([g] + rest)
    requires Within([g] + rest, f, edge) ==> (Within(r, f, edge) <==> Pos(seg, f) + seg.TcpLen() <= edge)
    ensures Queued(q, seg, true, before + r, f, lo, edge)
  {
    hide Diff, Good, Repeats, Range;
    Middle(before, g, rest, f, lo, edge);
    GoodNear(g, f);
    Passed(before, g, rest, seg, f, lo);
    LastAfter(before, g, rest, f, lo);
    var tail := [g] + rest;
    assert tail[0] == g && tail[1..] == rest;
    ChainLower(r, f, Pos(seg, f), Last(before, f, lo));
    Append(before, r, f, lo, edge);
    Exchange(Bytes(before, f), {}, Bytes(tail, f), {}, {}, Span(seg, f));
  }

  lemma AtMiddle(q: seq<Seg>, a: seq<Seg>, prev: Seg, next: seq<Seg>, seg: Seg, r: seq<Seg>, f: Frame, lo: int,
                 edge: int)
    requires q == a + [prev] + next
    requires Chain(q, f, lo) && Good(seg, f) && next != []
    requires Pos(prev, f) < Pos(seg, f) < Pos(next[0], f)
    requires Chain(r, f, Pos(seg, f)) && Bytes(r, f) == Span(seg, f) + Bytes(next, f)
    requires HasFin(r) <==> seg.fin || HasFin(next)
    requires Within(next, f, edge) ==> (Within(r, f, edge) <==> Pos(seg, f) + seg.TcpLen() <= edge)
    ensures SeqGt(Add(prev.seqno, |prev.data|), seg.seqno) ==> Cast16(seg.seqno, prev.seqno) <= |prev.data|
    ensures Queued(q, seg, true, a + [CutPrev(prev, seg)] + r, f, lo, edge)
  {
    Middle(a, prev, next, f, lo, edge);
    Passed(a, prev, next, seg, f, lo);
    LastStart(next, f, Pos(next[0], f));
    LastOf(q, a + [prev], next);
    hide Diff, Good, SeqGt, Repeats, CutPrev;
    Spliced(a, prev, next, seg, r, f, lo, End(seg, f), edge);
  }

  lemma AtEndWithFin(q: seq<Seg>, a: seq<Seg>, prev: Seg, seg: Seg, copied: bool, f: Frame, lo: int, edge: int)
    requires q == a + [prev] + []
    requires Chain(q, f, lo) && Good(seg, f) && prev.fin && Pos(prev, f) < Pos(seg, f)
    requires Within(q, f, edge)
    ensures Queued(q, seg, copied, q, f, lo, edge)
  {
    Middle(a, prev, [], f, lo, edge);
    Passed(a, prev, [], seg, f, lo);
    assert Lost([prev][1..], seg, f) == {};
    LastOf(q, a, [prev]);
    FinCoversAll(prev, [seg], f, Pos(seg, f));
  }

  lemma AtEnd(q: seq<Seg>, a: seq<Seg>, prev: Seg, seg: Seg, c: Seg, f: Frame, lo: int, edge: int)
    requires q == a + [prev] + []
    requires Chain(q, f, lo) && Within(q, f, edge)
    requires Good(seg, f) && !prev.fin && Pos(prev, f) < Pos(seg, f)
    requires Good(c, f) && c.seqno == seg.seqno
    requires if Pos(seg, f) + seg.TcpLen() <= edge then c == seg else End(c, f) == edge && !c.fin
    ensures SeqGt(Add(prev.seqno, |prev.data|), seg.seqno) ==> Cast16(seg.seqno, prev.seqno) <= |prev.data|
    ensures Queued(q, seg, true, a + [CutPrev(prev, seg)] + [c], f, lo, edge)
  {
    Middle(a, prev, [], f, lo, edge);
    Passed(a, prev, [], seg, f, lo);
    LastOf(q, a, [prev]);
    hide Diff, Good, SeqGt, Repeats, CutPrev, Cast16;
    var kept := if Pos(seg, f) + seg.TcpLen() <= edge then End(seg, f) else edge;
    assert [c][1..] == [];
    Spliced(a, prev, [], seg, [c], f, lo, kept, edge);
  }

  /** The test for a segment that runs past the right edge of the window, and the cut it leads to. */
  lemma Overrun(seg: Seg, nxt: U32, wnd: U16, f: Frame)
    requires Good(seg, f) && nxt == f.nxt && f.off - QUARTER / 2 <= Pos(seg, f) < f.off + wnd
    ensures SeqGt(Add(seg.seqno, seg.TcpLen()), Add(nxt, wnd)) <==> Pos(seg, f) + seg.TcpLen() > f.off + wnd
    ensures Pos(seg, f) + seg.TcpLen() > f.off + wnd ==>
              var len := Cast16(Add(nxt, wnd), seg.seqno);
              && 0 < len <= |seg.data| && Pos(seg, f) + len == f.off + wnd
              && Good(seg.(fin := false, data := seg.data[..len]), f)
  {
    DiffAdd(seg.seqno, seg.TcpLen(), nxt);
    DiffAdd(nxt, wnd, nxt);
    DiffNear(Add(seg.seqno, seg.TcpLen()), Add(nxt, wnd), nxt);
    DiffNear(Add(nxt, wnd), seg.seqno, nxt);
    if Pos(seg, f) + seg.TcpLen() > f.off + wnd {
      Cast16Diff(Add(nxt, wnd), seg.seqno);
      Prefix(seg, Cast16(Add(nxt, wnd), seg.seqno), f);
    }
  }

  lemma Between(prev: Seg, seg: Seg, g: Seg, f: Frame)
    requires Good(prev, f) && Good(seg, f) && Good(g, f) && f.off <= Pos(prev, f) < Pos(g, f) && f.off <= Pos(seg, f)
    ensures SeqBetween(seg.seqno, Add(prev.seqno, 1), Add(g.seqno, -1)) <==> Pos(prev, f) < Pos(seg, f) < Pos(g, f)
  {
    DiffAdd(prev.seqno, 1, f.nxt);
    DiffAdd(g.seqno, -1, f.nxt);
    DiffNear(seg.seqno, Add(prev.seqno, 1), f.nxt);
    DiffNear(seg.seqno, Add(g.seqno, -1), f.nxt);
  }

  /** The walk over `ooseq` has passed `before`, which starts in front of `seg`, and stands at `next[0]`. */
  ghost predicate At(ooseq: seq<Seg>, before: seq<Seg>, next: seq<Seg>, seg: Seg, f: Frame, edge: int) {
    && ooseq == before + next && next != []
    && Chain(ooseq, f, f.off + 1) && Within(ooseq, f, edge)
    && Good(seg, f) && f.off < Pos(seg, f) < edge
    && (before != [] ==> Pos(before[|before| - 1], f) < Pos(seg, f))
  }

  /** What is known of the segment the walk stands at. */
  lemma Walk(ooseq: seq<Seg>, before: seq<Seg>, next: seq<Seg>, seg: Seg, f: Frame, edge: int)
    requires At(ooseq, before, next, seg, f, edge)
    ensures ooseq == before + [next[0]] + next[1..] && next == [next[0]] + next[1..]
    ensures Good(next[0], f) && f.off < Pos(next[0], f) && Chain(next, f, Pos(next[0], f)) && Within(next, f, edge)
  {
    hide Diff, Good, Bytes;
    Regroup(before, next);
    Middle(before, next[0], next[1..], f, f.off + 1, edge);
    BytesBounds(before, f, f.off + 1);
  }

  lemma WalkOn(ooseq: seq<Seg>, before: seq<Seg>, next: seq<Seg>, seg: Seg, f: Frame, edge: int)
    requires At(ooseq, before, next, seg, f, edge) && Pos(next[0], f) < Pos(seg, f) && next[1..] != []
    ensures At(ooseq, before + [next[0]], next[1..], seg, f, edge)
  {
    hide Diff, Good, Chain, Within;
  }

  lemma WalkBack(ooseq: seq<Seg>, before: seq<Seg>, next: seq<Seg>, seg: Seg, f: Frame, edge: int)
    requires At(ooseq, before, next, seg, f, edge) && before != []
    ensures var prev := before[|before| - 1];
            && ooseq == before[..|before| - 1] + [prev] + next
            && Good(prev, f) && f.off <= Pos(prev, f) < Pos(next[0], f)
  {
    var a, prev := before[..|before| - 1], before[|before| - 1];
    assert ooseq == a + [prev] + next;
    hide Diff;
    Middle(a, prev, next, f, f.off + 1, edge);
    BytesBounds(a, f, f.off + 1);
    GoodNear(prev, f);
  }

  /** The comparisons of the walk. */
  lemma WalkCompare(ooseq: seq<Seg>, before: seq<Seg>, next: seq<Seg>, seg: Seg, f: Frame, edge: int)
    requires At(ooseq, before, next, seg, f, edge)
    ensures seg.seqno == next[0].seqno <==> Pos(seg, f) == Pos(next[0], f)
    ensures SeqLt(seg.seqno, next[0].seqno) <==> Pos(seg, f) < Pos(next[0], f)
    ensures SeqGt(seg.seqno, next[0].seqno) <==> Pos(seg, f) > Pos(next[0], f)
    ensures before != [] ==>
              var prev := before[|before| - 1];
              SeqBetween(seg.seqno, Add(prev.seqno, 1), Add(next[0].seqno, -1)) <==> Pos(seg, f) < Pos(next[0], f)
  {
    Walk(ooseq, before, next, seg, f, edge);
    GoodNear(seg, f);
    GoodNear(next[0], f);
    CompareSegs(seg, next[0], f);
    if before != [] {
      WalkBack(ooseq, before, next, seg, f, edge);
      Between(before[|before| - 1], seg, next[0], f);
    }
  }

  lemma WalkEnds(ooseq: seq<Seg>, before: seq<Seg>, next: seq<Seg>, seg: Seg, copied: bool, f: Frame, edge: int)
    requires At(ooseq, before, next, seg, f, edge)
    requires (seg.seqno == next[0].seqno && |seg.data| <= |next[0].data|)
             || (|next| == 1 && next[0].fin && Pos(next[0], f) < Pos(seg, f))
    ensures Queued(ooseq, seg, copied, ooseq, f, f.off + 1, edge)
  {
    Walk(ooseq, before, next, seg, f, edge);
    hide Diff, Good, Chain, Bytes, HasFin, Within, Queued;
    if seg.seqno == next[0].seqno && |seg.data| <= |next[0].data| {
      AtRepeat(ooseq, before, next[0], next[1..], seg, copied, f, f.off + 1, edge);
    } else {
      AtEndWithFin(ooseq, before, next[0], seg, copied, f, f.off + 1, edge);
    }
  }

  method ReplaceSegment(ghost ooseq: seq<Seg>, before: seq<Seg>, next: seq<Seg>, seg: Seg, ghost f: Frame,
                        ghost edge: int)
    returns (q: seq<Seg>)
    requires At(ooseq, before, next, seg, f, edge) && next[0].seqno == seg.seqno && |seg.data| > |next[0].data|
    ensures Queued(ooseq, seg, true, q, f, f.off + 1, edge)
  {
    Walk(ooseq, before, next, seg, f, edge);
    hide Diff, Good, Chain, Bytes, HasFin, Within, Queued;
    var r := OosInsertSegment(seg, next, f, edge);
    AtLonger(ooseq, before, next[0], next[1..], seg, r, f, f.off + 1, edge);
    q := before + r;
  }

  method PutFirst(ghost ooseq: seq<Seg>, next: seq<Seg>, seg: Seg, ghost f: Frame, ghost edge: int)
    returns (q: seq<Seg>)
    requires At(ooseq, [], next, seg, f, edge) && Pos(seg, f) < Pos(next[0], f)
    ensures Queued(ooseq, seg, true, q, f, f.off + 1, edge)
  {
    Walk(ooseq, [], next, seg, f, edge);
    ChainLower(next, f, Pos(next[0], f), Pos(seg, f));
    assert ooseq == next;
    hide Diff, Good, Chain, Bytes, HasFin, Within, Queued;
    q := OosInsertSegment(seg, next, f, edge);
    AtFront(next[0], next[1..], seg, q, f, f.off + 1, edge);
  }

  /** Trim the segment in front of the place of `seg` and link `seg` behind it. */
  method PutBetween(ghost ooseq: seq<Seg>, before: seq<Seg>, next: seq<Seg>, seg: Seg, ghost f: Frame, ghost edge: int)
    returns (q: seq<Seg>)
    requires At(ooseq, before, next, seg, f, edge) && before != [] && Pos(seg, f) < Pos(next[0], f)
    ensures Queued(ooseq, seg, true, q, f, f.off + 1, edge)
  {
    Walk(ooseq, before, next, seg, f, edge);
    WalkBack(ooseq, before, next, seg, f, edge);
    ChainLower(next, f, Pos(next[0], f), Pos(seg, f));
    hide Diff, Good, Chain, Bytes, HasFin, Within, Queued, CutPrev, SeqGt, Cast16;
    var a, prev := before[..|before| - 1], before[|before| - 1];
    var r := OosInsertSegment(seg, next, f, edge);
    AtMiddle(ooseq, a, prev, next, seg, r, f, f.off + 1, edge);
    q := a + [CutPrev(prev, seg)] + r;
  }

  /** Link a copy of `seg` behind the last queued segment, cut to the right edge of the window. */
  method PutLast(ghost ooseq: seq<Seg>, before: seq<Seg>, g: Seg, seg: Seg, nxt: U32, wnd: U16, ghost f: Frame)
    returns (q: seq<Seg>)
    requires At(ooseq, before, [g], seg, f, f.off + wnd) && f.nxt == nxt && !g.fin && Pos(g, f) < Pos(seg, f)
    ensures Queued(ooseq, seg, true, q, f, f.off + 1, f.off + wnd)
  {
    Overrun(seg, nxt, wnd, f);
    assert ooseq == before + [g] + [];
    hide Diff, Good, Chain, Bytes, HasFin, Within, Queued, CutPrev, SeqGt, Cast16;
    var c := seg;
    if SeqGt(Add(seg.seqno, seg.TcpLen()), Add(nxt, wnd)) {
      c := seg.(fin := false, data := seg.data[..Cast16(Add(nxt, wnd), seg.seqno)]);
    }
    AtEnd(ooseq, before, g, seg, c, f, f.off + 1, f.off + wnd);
    q := before + [CutPrev(g, seg)] + [c];
  }

  /** The out-of-sequence branch of tcp_receive: walk to the place of `seg`, trim its neighbours and link a
      copy of it in. `copied` tells whether tcp_seg_copy finds memory. */
  method QueueSegment(ooseq: seq<Seg>, seg: Seg, copied: bool, nxt: U32, wnd: U16, ghost f: Frame)
    returns (q: seq<Seg>)
    requires f.nxt == nxt && Chain(ooseq, f, f.off + 1) && Within(ooseq, f, f.off + wnd)
    requires Good(seg, f) && f.off < Pos(seg, f) < f.off + wnd
    ensures Queued(ooseq, seg, copied, q, f, f.off + 1, f.off + wnd)
  {
    ghost var edge := f.off + wnd;
    q := ooseq;
    AtEmpty(seg, f, f.off + 1, edge);
    var before, next: seq<Seg> := [], ooseq;
    assert ooseq != [] ==> At(ooseq, [], ooseq, seg, f, edge);
    if ooseq == [] {
      q := if copied then [seg] else [];
      return;
    }
    hide Diff, Good, Chain, Within, Queued, SeqLt, SeqGt, SeqBetween, At;
    while next != []
      invariant next != [] && At(ooseq, before, next, seg, f, edge)
      invariant q == ooseq
      decreases |next|
    {
      WalkCompare(ooseq, before, next, seg, f, edge);
      if seg.seqno == next[0].seqno {
        if |seg.data| <= |next[0].data| {
          WalkEnds(ooseq, before, next, seg, copied, f, edge);
        } else if copied {
          q := ReplaceSegment(ooseq, before, next, seg, f, edge);
        }
        return;
      } else if before == [] {
        if SeqLt(seg.seqno, next[0].seqno) {
          if copied {
            q := PutFirst(ooseq, next, seg, f, edge);
          }
          return;
        }
      } else if SeqBetween(seg.seqno, Add(before[|before| - 1].seqno, 1), Add(next[0].seqno, -1)) {
        if copied {
          q := PutBetween(ooseq, before, next, seg, f, edge);
        }
        return;
      }
      if |next| == 1 && SeqGt(seg.seqno, next[0].seqno) {
        if next[0].fin {
          WalkEnds(ooseq, before, next, seg, copied, f, edge);
        } else if copied {
          assert next == [next[0]];
          q := PutLast(ooseq, before, next[0], seg, nxt, wnd, f);
        }
        return;
      }
      WalkOn(ooseq, before, next, seg, f, edge);
      before, next := before + [next[0]], next[1..];
    }
  }

  lemma AtEmpty(seg: Seg, f: Frame, lo: int, edge: int)
    requires Good(seg, f) && lo <= Pos(seg, f)
    ensures Queued([], seg, true, [seg], f, lo, edge)
  {
    assert [seg][1..] == [];
  }
}
