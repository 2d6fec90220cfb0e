/** The checksum that tcp_out.c keeps of a segment's payload while the payload grows, is split and is sent. */
module TcpChecksum {
  import opened Words
  import opened Checksum

  /** `chksum` and `chksum_swapped` of a segment, or the local pair of tcp_write, for the payload `data`. */
  ghost predicate Keeps(chksum: U16, swapped: bool, data: seq<U8>) {
    swapped == (|data| % 2 == 1) && chksum == Norm(Sum(data, swapped))
  }

  datatype Pair = Pair(chksum: U16, swapped: bool)

  /** The pair that is kept for a payload. */
  function PairOf(data: seq<U8>): Pair {
    var swapped := |data| % 2 == 1;
    Pair(Norm(Sum(data, swapped)), swapped)
  }

  lemma NoBytes()
    ensures PairOf([]) == Pair(0, false)
  {
  }

  lemma KeepsRunning(chksum: U16, swapped: bool, data: seq<U8>)
    requires swapped == (|data| % 2 == 1)
    ensures Keeps(chksum, swapped, data) <==> Running(chksum, swapped, 0, data)
  {
    hide Same, Norm, Sum;
    var s := Sum(data, swapped);
    NormIs(s);
    if Keeps(chksum, swapped, data) {
      Flip(s, chksum);
    }
    if Same(chksum, s) {
      NormEq(chksum, s);
    }
  }

  /** tcp_seg_add_chksum */
  method SegAddChksum(chksum: U16, len: U16, seg_chksum: U16, seg_swapped: bool, ghost data: seq<U8>,
                      ghost more: seq<U8>)
    returns (seg_chksum': U16, seg_swapped': bool)
    requires Keeps(seg_chksum, seg_swapped, data) && |more| == len && chksum == Chksum(more)
    ensures Keeps(seg_chksum', seg_swapped', data + more)
  {
    hide Keeps, Running, Fold, Swap, Norm, Sum;
    var helper := chksum + seg_chksum;
    assert seg_swapped == (|data| % 2 == 1) by { Parity(seg_chksum, seg_swapped, data); }
    KeepsRunning(seg_chksum, seg_swapped, data);
    NormIs(Sum(more, false));
    StepRunning(seg_chksum, seg_swapped, 0, data, more, chksum);
    seg_chksum', seg_swapped' := Fold(helper), seg_swapped;
    if len % 2 != 0 {
      SwapRunning(seg_chksum', seg_swapped, 0, data + more);
      seg_swapped' := !seg_swapped;
      seg_chksum' := Swap(seg_chksum');
    }
    KeepsRunning(seg_chksum', seg_swapped', data + more);
  }

  lemma Parity(chksum: U16, swapped: bool, data: seq<U8>)
    requires Keeps(chksum, swapped, data)
    ensures swapped == (|data| % 2 == 1)
  {
  }

  /** struct tcp_seg, as far as the checksum goes. */
  class SegChksum {
    var chksum: U16
    var swapped: bool
    ghost var payload: seq<U8>

    ghost predicate Valid()
      reads this
    {
      Keeps(chksum, swapped, payload)
    }

    /** tcp_create_segment leaves both fields zero; the callers then store those of the payload. The third phase of
        tcp_write computes them with TCP_DATA_COPY2, or by hand for data that is not copied. */
    constructor (data: seq<U8>, copied: bool, addr: nat)
      requires |data| <= 0xFFFF
      ensures Valid() && payload == data
    {
      hide Keeps, Swap, Norm, Sum;
      EmptyKeeps();
      var c, s := 0, false;
      var d := StandardChksum2(data, addr);
      if copied {
        c, s := SegAddChksum(d, |data|, 0, false, [], data);
        assert [] + data == data;
      } else {
        c := d;
        if |data| % 2 == 1 {
          s, c := true, Swap(c);
        }
        ByHand(data);
      }
      chksum, swapped, payload := c, s, data;
    }

    /** A segment that is queued already. */
    constructor Of(pair: Pair, ghost data: seq<U8>)
      requires pair == PairOf(data)
      ensures Valid() && payload == data
    {
      chksum, swapped, payload := pair.chksum, pair.swapped, data;
    }

    /** Both fields. */
    function Fields(): (pair: Pair)
      requires Valid()
      reads this
      ensures pair == PairOf(payload)
    {
      Pair(chksum, swapped)
    }

    /** Phase 1 of tcp_write: TCP_DATA_COPY into the room at the end of the segment. */
    method AppendCopy(data: seq<U8>, addr: nat)
      requires Valid() && |data| <= 0xFFFF
      modifies this
      ensures Valid() && payload == old(payload) + data
    {
      var d := StandardChksum2(data, addr);
      chksum, swapped := SegAddChksum(d, |data|, chksum, swapped, payload, data);
      payload := payload + data;
    }

    /** Phase 2: the sum of the bytes to be chained on is kept aside in the pair `concat`, which is swapped back
        when it is added to the segment's. */
    method AppendConcat(data: seq<U8>, copied: bool, addr: nat)
      requires Valid() && |data| <= 0xFFFF
      modifies this
      ensures Valid() && payload == old(payload) + data
    {
      hide Swap, Norm, Sum;
      EmptyKeeps();
      var d;
      if copied {
        d := StandardChksum2(data, addr);
      } else {
        d := InetChksum(data, addr);
        d := Invert(d);
      }
      var concat, concat_swapped := SegAddChksum(d, |data|, 0, false, [], data);
      assert [] + data == data;
      SwapNorm(data, true);
      if concat_swapped {
        concat := Swap(concat);
      }
      chksum, swapped := SegAddChksum(concat, |data|, chksum, swapped, payload, data);
      payload := payload + data;
    }

    /** The head's part of tcp_split_unsent_seg: sum anew over the trimmed chain of pbufs, the first `hdr` bytes of
        which are headers. */
    method Resum(chain: seq<seq<U8>>, hdr: nat)
      requires forall i :: 0 <= i < |chain| ==> |chain[i]| <= 0xFFFF
      requires hdr <= |Flat(chain)|
      modifies this
      ensures Valid() && payload == Flat(chain)[hdr..]
    {
      hide Keeps, Norm, Sum, Flat;
      var i, offset := SkipHeaders(chain, hdr);
      chksum, swapped := SumRest(chain, i, offset);
      payload := Flat(chain)[hdr..];
    }

    /** The checksum part of tcp_output_segment: header and payload are summed apart, and the result is what
        ip_chksum_pseudo gives for the whole segment. The stored pair is as before. */
    method Output(chain: seq<seq<U8>>, addrs: seq<nat>, hdrLen: U16, src: seq<U8>, dst: seq<U8>, proto: U8, len: U16)
      returns (r: U16)
      requires Valid() && |src| == |dst| == 4
      requires |addrs| == |chain| && forall i :: 0 <= i < |chain| ==> |chain[i]| <= 0xFFFF
      requires hdrLen % 2 == 0 && hdrLen <= |Flat(chain)| && Flat(chain)[hdrLen..] == payload
      modifies this
      ensures Valid() && payload == old(payload) && chksum == old(chksum) && swapped == old(swapped)
      ensures r == Invert(Chksum(PseudoHeader(src, dst, proto, len) + Flat(chain)))
    {
      hide Norm, Sum, Swap;
      ghost var hdr := Flat(chain)[..hdrLen];
      var part := InetChksumPseudoPartial(chain, addrs, proto, len, hdrLen, src, dst);
      SwapNorm(payload, true);
      SwapSame(chksum);
      var wasSwapped := false;
      if swapped {
        wasSwapped := true;
        chksum := Swap(chksum);
        swapped := false;
      }
      var acc := Invert(part) + chksum;
      ghost var front := PseudoHeader(src, dst, proto, len) + hdr;
      assert Upto(Flat(chain), hdrLen) == hdr;
      assert front + payload == PseudoHeader(src, dst, proto, len) + Flat(chain);
      AddTwo(front, payload);
      r := Invert(Fold(acc));
      if wasSwapped {
        chksum := Swap(chksum);
        swapped := true;
      }
    }
  }

  /** Advance to the pbuf where the payload starts. */
  method SkipHeaders(chain: seq<seq<U8>>, hdr: nat) returns (i: nat, offset: nat)
    requires hdr <= |Flat(chain)|
    ensures i <= |chain| && offset <= |Flat(chain[i..])| && Flat(chain[i..])[offset..] == Flat(chain)[hdr..]
    ensures i < |chain| ==> offset <= |chain[i]|
  {
    i, offset := 0, hdr;
    assert chain[0..] == chain;
    while i < |chain| && offset > |chain[i]|
      invariant i <= |chain| && offset <= |Flat(chain[i..])|
      invariant Flat(chain[i..])[offset..] == Flat(chain)[hdr..]
    {
      FlatSplit(chain, i);
      offset := offset - |chain[i]|;
      i := i + 1;
    }
  }

  method SumRest(chain: seq<seq<U8>>, start: nat, start_offset: nat) returns (c: U16, s: bool)
    requires forall i :: 0 <= i < |chain| ==> |chain[i]| <= 0xFFFF
    requires start <= |chain| && start_offset <= |Flat(chain[start..])|
    requires start < |chain| ==> start_offset <= |chain[start]|
    ensures Keeps(c, s, Flat(chain[start..])[start_offset..])
  {
    hide Keeps, Norm, Sum;
    EmptyKeeps();
    c, s := 0, false;
    var i: nat, offset: nat := start, start_offset;
    ghost var done: seq<U8>, rest := [], Flat(chain[start..]);
    while i < |chain|
      invariant i <= |chain| && rest == Flat(chain[i..]) && offset <= |rest|
      invariant i < |chain| ==> offset <= |chain[i]|
      invariant Keeps(c, s, done)
      invariant done + rest[offset..] == Flat(chain[start..])[start_offset..]
    {
      var part := chain[i][offset..];
      var d := InetChksum(part, offset);
      c, s := SegAddChksum(Invert(d), |part|, c, s, done, part);
      FlatSplit(chain, i);
      done, rest := done + part, Flat(chain[i + 1..]);
      i, offset := i + 1, 0;
    }
    assert chain[i..] == [] && rest == [] && done + rest[offset..] == done;
  }

  lemma EmptyKeeps()
    ensures Keeps(0, false, [])
  {
  }

  lemma ByHand(data: seq<U8>)
    ensures Keeps(if |data| % 2 == 1 then Swap(Chksum(data)) else Chksum(data), |data| % 2 == 1, data)
  {
    hide Norm, Sum, Swap;
    SwapNorm(data, false);
  }

  lemma AddTwo(a: seq<U8>, b: seq<U8>)
    requires |a| % 2 == 0
    ensures Fold(Chksum(a) + Chksum(b)) <= 0xFFFF && Fold(Chksum(a) + Chksum(b)) == Chksum(a + b)
  {
    hide Norm, Sum, Fold, Same;
    KeepsRunning(Chksum(a), false, a);
    NormIs(Sum(b, false));
    StepRunning(Chksum(a), false, 0, a, b, Chksum(b));
    End(Fold(Chksum(a) + Chksum(b)), 0, a + b);
    NormEq(Fold(Chksum(a) + Chksum(b)), Sum(a + b, false));
  }
}
