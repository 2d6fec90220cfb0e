/** The heap of mem.c: block headers linked through one array by offset, with a pointer to the lowest free
    block. Every operation is proved against the block list of HeapSpec. */
module Heap {
  import opened Seqs
  import opened Words
  import opened HeapSpec

  /** struct mem */
  datatype Hdr = Hdr(next: nat, prev: nat, used: bool)

  /** The headers of `bs` lie linked in `ram` from `p` up to `q`; `pp` is what the first one has for `prev`. */
  ghost predicate Linked(ram: seq<Hdr>, p: nat, pp: nat, bs: seq<Block>, q: nat)
    decreases |bs|
  {
    if bs == [] then p == q
    else p < q < |ram| && bs[0].off == p < bs[0].end <= q && ram[p] == Hdr(bs[0].end, pp, bs[0].used)
         && Linked(ram, bs[0].end, p, bs[1..], q)
  }

  ghost function EndOf(bs: seq<Block>, p: nat): nat {
    if bs == [] then p else EndOf(bs[1..], bs[0].end)
  }

  /** Offset of the last block of `bs`, or `pp`. */
  ghost function LastOff(bs: seq<Block>, pp: nat): nat {
    if bs == [] then pp else LastOff(bs[1..], bs[0].off)
  }

  lemma LastOffIs(bs: seq<Block>, pp: nat)
    requires bs != []
    ensures LastOff(bs, pp) == bs[|bs| - 1].off
    decreases |bs|
  {
    if |bs| > 1 {
      LastOffIs(bs[1..], bs[0].off);
    }
  }

  ghost predicate AllUsed(bs: seq<Block>) {
    bs == [] || (bs[0].used && AllUsed(bs[1..]))
  }

  lemma LinkedConcat(ram: seq<Hdr>, p: nat, pp: nat, a: seq<Block>, b: seq<Block>, q: nat)
    requires q < |ram|
    ensures Linked(ram, p, pp, a + b, q) <==>
            Linked(ram, p, pp, a, EndOf(a, p)) && Linked(ram, EndOf(a, p), LastOff(a, pp), b, q)
    ensures Linked(ram, p, pp, a + b, q) ==> p <= EndOf(a, p) <= q
    decreases |a|
  {
    if a == [] {
      assert a + b == b;
      LinkedOrder(ram, p, pp, b, q);
    } else {
      assert (a + b)[0] == a[0] && (a + b)[1..] == a[1..] + b;
      LinkedConcat(ram, a[0].end, a[0].off, a[1..], b, q);
      LinkedOrder(ram, EndOf(a, p), LastOff(a, pp), b, q);
      LinkedOrder(ram, p, pp, a, EndOf(a, p));
    }
  }

  lemma LinkedOrder(ram: seq<Hdr>, p: nat, pp: nat, bs: seq<Block>, q: nat)
    ensures Linked(ram, p, pp, bs, q) ==> p <= q && (bs != [] ==> p < q) && EndOf(bs, p) == q
    decreases |bs|
  {
    if bs != [] {
      LinkedOrder(ram, bs[0].end, bs[0].off, bs[1..], q);
    }
  }

  /** Only the headers between `p` and `q` matter. */
  lemma LinkedFrame(ram: seq<Hdr>, ram': seq<Hdr>, p: nat, pp: nat, bs: seq<Block>, q: nat)
    requires Linked(ram, p, pp, bs, q) && |ram'| == |ram| && q < |ram|
    requires forall i :: p <= i < q ==> ram'[i] == ram[i]
    ensures Linked(ram', p, pp, bs, q)
    decreases |bs|
  {
    if bs != [] {
      LinkedFrame(ram, ram', bs[0].end, bs[0].off, bs[1..], q);
    }
  }

  /** Replacing some blocks in the middle: the headers outside stay, and the block behind points back to the
      last new one. */
  lemma Replace(ram: seq<Hdr>, ram': seq<Hdr>, a: seq<Block>, mid: seq<Block>, c: seq<Block>, mid': seq<Block>, q: nat)
    requires |ram'| == |ram| && q < |ram|
    requires Linked(ram, 0, 0, a + mid + c, q)
    requires var s := EndOf(a, 0);
             var e := EndOf(mid, s);
             && (forall i :: 0 <= i < q && (i < s || e < i) ==> ram'[i] == ram[i])
             && Linked(ram', s, LastOff(a, 0), mid', e)
             && (e < q ==> ram'[e] == ram[e].(prev := LastOff(mid', LastOff(a, 0))))
    ensures Linked(ram', 0, 0, a + mid' + c, q)
  {
    var s := EndOf(a, 0);
    var e := EndOf(mid, s);
    assert a + mid + c == a + (mid + c) && a + mid' + c == a + (mid' + c);
    LinkedConcat(ram, 0, 0, a, mid + c, q);
    LinkedConcat(ram, s, LastOff(a, 0), mid, c, q);
    LinkedConcat(ram', 0, 0, a, mid' + c, q);
    LinkedConcat(ram', s, LastOff(a, 0), mid', c, q);
    LinkedFrame(ram, ram', 0, 0, a, s);
    LinkedOrder(ram', s, LastOff(a, 0), mid', e);
    if c != [] {
      LinkedFrame(ram, ram', c[0].end, e, c[1..], q);
    }
  }

  lemma LowestConcat(a: seq<Block>, b: seq<Block>, hi: nat)
    ensures LowestFree(a + b, hi) == if AllUsed(a) then LowestFree(b, hi) else LowestFree(a, hi)
  {
    if a == [] {
      assert a + b == b;
    } else {
      assert (a + b)[0] == a[0] && (a + b)[1..] == a[1..] + b;
      LowestConcat(a[1..], b, hi);
    }
  }

  lemma TilesConcat(a: seq<Block>, b: seq<Block>, lo: nat, hi: nat)
    requires Tiles(a + b, lo, hi)
    ensures Tiles(a, lo, EndOf(a, lo)) && Tiles(b, EndOf(a, lo), hi)
  {
    if a == [] {
      assert a + b == b;
    } else {
      assert (a + b)[0] == a[0] && (a + b)[1..] == a[1..] + b;
      TilesConcat(a[1..], b, a[0].end, hi);
    }
  }

  ghost predicate NoFit(bs: seq<Block>, size: nat) {
    bs == [] || (!Fits(bs[0], size) && NoFit(bs[1..], size))
  }

  /** The search has passed `a`, where nothing fits, and stands at `ptr`, where `rest` begins. */
  ghost predicate Scan(ram: seq<Hdr>, blocks: seq<Block>, a: seq<Block>, rest: seq<Block>, ptr: nat, lfree: nat,
                       hi: nat, size: nat) {
    && blocks == a + rest && hi < |ram|
    && Linked(ram, 0, 0, blocks, hi) && Tiles(blocks, 0, hi)
    && ptr == EndOf(a, 0)
    && NoFit(a, size)
    && lfree == LowestFree(blocks, hi)
    && (if AllUsed(a) then lfree == ptr else lfree == LowestFree(a, hi) < ptr)
  }

  lemma ScanStart(ram: seq<Hdr>, blocks: seq<Block>, hi: nat, size: nat) returns (a: seq<Block>, rest: seq<Block>)
    requires hi < |ram| && Linked(ram, 0, 0, blocks, hi) && Tiles(blocks, 0, hi)
    ensures Scan(ram, blocks, a, rest, LowestFree(blocks, hi), LowestFree(blocks, hi), hi, size)
    ensures rest == [] ==> LowestFree(blocks, hi) == hi
  {
    a, rest := SplitAtLowest(blocks, 0, hi, size);
    LinkedConcat(ram, 0, 0, a, rest, hi);
  }

  lemma ScanHere(ram: seq<Hdr>, blocks: seq<Block>, a: seq<Block>, rest: seq<Block>, ptr: nat, lfree: nat, hi: nat,
                 size: nat)
    requires Scan(ram, blocks, a, rest, ptr, lfree, hi, size) && ptr < hi
    ensures rest != [] && rest[0].off == ptr && ram[ptr].used == rest[0].used && ram[ptr].next == rest[0].end <= hi
  {
    LinkedConcat(ram, 0, 0, a, rest, hi);
  }

  lemma ScanStep(ram: seq<Hdr>, blocks: seq<Block>, a: seq<Block>, rest: seq<Block>, ptr: nat, lfree: nat, hi: nat,
                 size: nat)
    requires Scan(ram, blocks, a, rest, ptr, lfree, hi, size) && ptr < hi && rest != [] && !Fits(rest[0], size)
    ensures Scan(ram, blocks, a + [rest[0]], rest[1..], rest[0].end, lfree, hi, size)
    ensures rest[1..] == [] ==> rest[0].end == hi
  {
    var b := [rest[0]];
    assert blocks == a + [rest[0]] + rest[1..];
    Locate(ram, a, rest[0], rest[1..], hi);
    ConcatOne(a, rest[0], 0, hi, size);
    LinkedConcat(ram, 0, 0, a + b, rest[1..], hi);
    LowestConcat(a, rest, hi);
    TilesConcat(a, rest, 0, hi);
    LowestBound(rest[1..], rest[0].end, hi);
  }

  lemma LowestBound(bs: seq<Block>, lo: nat, hi: nat)
    requires Tiles(bs, lo, hi)
    ensures lo <= LowestFree(bs, hi) <= hi
    decreases |bs|
  {
    if bs != [] {
      LowestBound(bs[1..], bs[0].end, hi);
    }
  }

  lemma ConcatOne(a: seq<Block>, b: Block, p: nat, hi: nat, size: nat)
    ensures EndOf(a + [b], p) == b.end
    ensures NoFit(a + [b], size) <==> NoFit(a, size) && !Fits(b, size)
    ensures AllUsed(a + [b]) <==> AllUsed(a) && b.used
    ensures LowestFree(a + [b], hi) == if AllUsed(a) then LowestFree([b], hi) else LowestFree(a, hi)
    decreases |a|
  {
    if a != [] {
      assert (a + [b])[1..] == a[1..] + [b];
      ConcatOne(a[1..], b, a[0].end, hi, size);
    }
  }

  lemma ScanNothing(ram: seq<Hdr>, blocks: seq<Block>, a: seq<Block>, rest: seq<Block>, ptr: nat, lfree: nat, hi: nat,
                    size: nat)
    requires Scan(ram, blocks, a, rest, ptr, lfree, hi, size) && FirstFit(rest, size) == None
             && Alloc(rest, size) == rest
    ensures FirstFit(blocks, size) == None
  {
    PassOver(a, rest, size);
  }

  /** What the search has found, and what becomes of the block list and the lowest free block. */
  lemma TakenAt(ram: seq<Hdr>, blocks: seq<Block>, a: seq<Block>, b: Block, c: seq<Block>, lfree: nat, hi: nat,
                size: nat)
    requires Scan(ram, blocks, a, [b] + c, b.off, lfree, hi, size) && Fits(b, size)
    ensures blocks == a + [b] + c && Alloc(blocks, size) == a + (Take(b, size) + c)
            && FirstFit(blocks, size) == Some(b.off)
    ensures b.Room() >= size && (b.off == lfree ==> AllUsed(a))
    ensures b.off != lfree ==> LowestFree(a + (Take(b, size) + c), hi) == lfree
  {
    Head(b, c);
    PassOver(a, [b] + c, size);
    LowestConcat(a, Take(b, size) + c, hi);
  }

  lemma ScanEnd(ram: seq<Hdr>, blocks: seq<Block>, a: seq<Block>, rest: seq<Block>, ptr: nat, lfree: nat, hi: nat,
                size: nat)
    requires Scan(ram, blocks, a, rest, ptr, lfree, hi, size) && hi - size <= ptr
    ensures FirstFit(rest, size) == None && Alloc(rest, size) == rest
    ensures ptr == if rest == [] then hi else rest[0].off
  {
    TilesConcat(a, rest, 0, hi);
    NoneBehind(rest, ptr, hi, size);
  }

  /** A block that does not fit is passed over by the search. */
  lemma PassOver(a: seq<Block>, b: seq<Block>, size: nat)
    requires NoFit(a, size)
    ensures FirstFit(a + b, size) == FirstFit(b, size)
    ensures Alloc(a + b, size) == a + Alloc(b, size)
  {
    if a == [] {
      assert a + b == b;
    } else {
      assert (a + b)[0] == a[0] && (a + b)[1..] == a[1..] + b;
      PassOver(a[1..], b, size);
      assert a + Alloc(b, size) == [a[0]] + (a[1..] + Alloc(b, size));
    }
  }

  /** `LWIP_MEM_ALIGN_SIZE`, in 32-bit arithmetic. */
  function AlignSize(size: U32): U32 {
    var up := (size + ALIGN - 1) % 0x1_0000_0000;
    up - up % ALIGN
  }

  /** The request as mem_malloc and mem_trim round it up; None for one they refuse outright. */
  function Rounded(size_in: U32, memSize: nat): (r: Option<nat>)
    ensures r.Some? ==> r.value % ALIGN == 0 && MIN <= r.value <= memSize && size_in <= r.value < size_in + ALIGN + MIN
    ensures r == None <==> size_in > memSize
    requires memSize % ALIGN == 0 && MIN <= memSize < 0x8000_0000
  {
    var size := if AlignSize(size_in) < MIN then MIN else AlignSize(size_in);
    if size > memSize || size < size_in then None else Some(size)
  }

  class Heap {
    const memSize: nat
    const ram: array<Hdr>
    var lfree: nat
    ghost var blocks: seq<Block>

    ghost predicate LinksValid()
      reads `blocks, ram
    {
      && memSize % ALIGN == 0 && MIN + HDR <= memSize < 0x8000_0000
      && ram.Length == memSize + 1 && ram[memSize] == Hdr(memSize, memSize, true)
      && blocks != [] && Linked(ram[..], 0, 0, blocks, memSize)
    }

    ghost predicate Valid()
      reads this, ram
    {
      LinksValid() && Wf(blocks, 0, memSize) && lfree == LowestFree(blocks, memSize)
    }

    /** mem_init */
    constructor (memSize: nat)
      requires memSize % ALIGN == 0 && MIN + HDR <= memSize < 0x8000_0000
      ensures Valid() && fresh(ram) && this.memSize == memSize
      ensures blocks == [Block(0, memSize, false)]
    {
      this.memSize := memSize;
      ram := new Hdr[memSize + 1](i => Hdr(0, 0, false));
      lfree := 0;
      blocks := [Block(0, memSize, false)];
      new;
      ram[0] := Hdr(memSize, 0, false);
      ram[memSize] := Hdr(memSize, memSize, true);
      assert blocks[1..] == [];
      assert Tiles(blocks[1..], memSize, memSize);
    }

    /** The part of mem_malloc that makes the block at `ptr` used, splitting it if there is room for another. */
    method TakeBlock(ptr: nat, size: nat, ghost a: seq<Block>, ghost b: Block, ghost c: seq<Block>)
      requires LinksValid() && blocks == a + [b] + c && b.off == ptr && b.Room() >= size >= MIN
      modifies ram, `blocks
      ensures LinksValid() && blocks == a + (Take(b, size) + c)
    {
      ghost var old_ram := ram[..];
      Locate(old_ram, a, b, c, memSize);
      if ram[ptr].next - (ptr + HDR) >= size + HDR + MIN {
        var ptr2 := ptr + HDR + size;
        ram[ptr2] := Hdr(ram[ptr].next, ptr, false);
        ram[ptr] := ram[ptr].(next := ptr2, used := true);
        if ram[ptr2].next != memSize {
          ram[ram[ptr2].next] := ram[ram[ptr2].next].(prev := ptr2);
        }
      } else {
        ram[ptr] := ram[ptr].(used := true);
      }
      ghost var mid := Take(b, size);
      LastOffIs(mid, LastOff(a, 0));
      Replace(old_ram, ram[..], a, [b], c, mid, memSize);
      blocks := a + Take(b, size) + c;
      assert blocks == a + (Take(b, size) + c);
    }

    /** The part of mem_malloc that looks for the next free block behind the one just taken. */
    method AdjustLfree(ptr: nat, ghost a: seq<Block>, ghost rest: seq<Block>)
      requires LinksValid() && blocks == a + rest && AllUsed(a) && rest != [] && rest[0].off == ptr && rest[0].used
      modifies `lfree
      ensures lfree == LowestFree(blocks, memSize)
    {
      ghost var s: seq<Block>, pp: nat := rest, LastOff(a, 0);
      LinkedConcat(ram[..], 0, 0, a, rest, memSize);
      LowestConcat(a, rest, memSize);
      var cur: nat := ptr;
      while ram[cur].used && cur != memSize
        invariant cur <= memSize && Linked(ram[..], cur, pp, s, memSize)
        invariant LowestFree(blocks, memSize) == LowestFree(s, memSize)
        decreases |s|
      {
        pp := s[0].off;
        s := s[1..];
        cur := ram[cur].next;
      }
      lfree := cur;
    }

    /** The search of mem_malloc, from the lowest free block on. */
    method Search(size: nat) returns (r: Option<nat>, ghost a: seq<Block>, ghost rest: seq<Block>)
      requires Valid() && MIN <= size <= memSize
      ensures Scan(ram[..], blocks, a, rest, if rest == [] then memSize else rest[0].off, lfree, memSize, size)
      ensures r.Some? ==> rest != [] && rest[0].off == r.value && Fits(rest[0], size)
      ensures r == None ==> FirstFit(rest, size) == None && Alloc(rest, size) == rest
    {
      ghost var R := ram[..];
      var ptr: nat := lfree;
      a, rest := ScanStart(R, blocks, memSize, size);
      hide Scan, Tiles, Linked;
      while ptr < memSize - size
        invariant Scan(R, blocks, a, rest, ptr, lfree, memSize, size)
        invariant rest == [] ==> ptr == memSize
        decreases |rest|
      {
        ScanHere(R, blocks, a, rest, ptr, lfree, memSize, size);
        if !ram[ptr].used && ram[ptr].next - (ptr + HDR) >= size {
          return Some(ptr), a, rest;
        }
        ScanStep(R, blocks, a, rest, ptr, lfree, memSize, size);
        a, rest, ptr := a + [rest[0]], rest[1..], ram[ptr].next;
      }
      r := None;
      ScanEnd(R, blocks, a, rest, ptr, lfree, memSize, size);
    }

    /** mem_malloc. The result is the offset of the data. */
    method Malloc(size_in: U32) returns (p: Option<nat>)
      requires Valid()
      modifies this, ram
      ensures Valid()
      ensures var size := if size_in == 0 then None else Rounded(size_in, memSize);
              if size == None || FirstFit(old(blocks), size.value) == None then p == None && blocks == old(blocks)
              else p == Some(FirstFit(old(blocks), size.value).value + HDR) && blocks == Alloc(old(blocks), size.value)
    {
      if size_in == 0 {
        return None;
      }
      var size := if AlignSize(size_in) < MIN then MIN else AlignSize(size_in);
      if size > memSize || size < size_in {
        return None;
      }
      assert Rounded(size_in, memSize) == Some(size);
      p := Allocate(size);
    }

    /** The part of mem_malloc behind the rounding. */
    method Allocate(size: nat) returns (p: Option<nat>)
      requires Valid() && size % ALIGN == 0 && MIN <= size <= memSize
      modifies this, ram
      ensures Valid()
      ensures if FirstFit(old(blocks), size) == None then p == None && blocks == old(blocks)
              else p == Some(FirstFit(old(blocks), size).value + HDR) && blocks == Alloc(old(blocks), size)
    {
      hide Linked, Tiles, Alternating, Scan, FirstFit, Alloc, LowestFree, Fits, AllUsed;
      AllocWf(blocks, 0, memSize, size);
      var r, a, rest := Search(size);
      if r == None {
        ScanNothing(ram[..], blocks, a, rest, if rest == [] then memSize else rest[0].off, lfree, memSize, size);
        return None;
      }
      assert rest == [rest[0]] + rest[1..];
      var ptr := r.value;
      ghost var b, c := rest[0], rest[1..];
      TakenAt(ram[..], blocks, a, b, c, lfree, memSize, size);
      TakeBlock(ptr, size, a, b, c);
      if ptr == lfree {
        AdjustLfree(ptr, a, Take(b, size) + c);
      }
      return Some(ptr + HDR);
    }

    /** mem_link_valid: the header at `mem` fits its neighbours. It holds of every block. */
    method LinkValid(mem: nat, ghost a: seq<Block>, ghost b: Block, ghost c: seq<Block>) returns (valid: bool)
      requires LinksValid() && blocks == a + [b] + c && b.off == mem
      ensures valid
    {
      Locate(ram[..], a, b, c, memSize);
      LinkBack(ram[..], a, b, c, memSize);
      var nmem, pmem := ram[mem].next, ram[mem].prev;
      valid := !(ram[mem].next > memSize || ram[mem].prev > memSize
                 || (ram[mem].prev != mem && ram[pmem].next != mem)
                 || (nmem != memSize && ram[nmem].prev != mem));
    }

    /** plug_holes, for a block that has just become free. */
    method PlugHoles(mem: nat, ghost a: seq<Block>, ghost m: Block, ghost c: seq<Block>)
      requires LinksValid() && blocks == a + [m] + c && m.off == mem && !m.used
      requires Alternating(a + [m.(used := true)] + c)
      requires lfree == LowestFree(blocks, memSize)
      modifies this, ram
      ensures LinksValid() && blocks == Coalesce(old(blocks)) && lfree == LowestFree(blocks, memSize)
    {
      ghost var ram0, m2, c2 := ram[..], MergeNext(m, c), AfterMerge(c);
      CoalesceAt(a, m, c);
      CoalesceLowest(blocks, memSize);
      PlugForward(mem, a, m, c);
      LowestMerged(a, m, c, memSize);
      PlugBackward(mem, a, m2, c2);
    }

    /** The first half of plug_holes: combine with the next block if that is free. */
    method PlugForward(mem: nat, ghost a: seq<Block>, ghost m: Block, ghost c: seq<Block>)
      requires LinksValid() && blocks == a + [m] + c && m.off == mem && !m.used
      requires lfree == LowestFree(blocks, memSize)
      modifies this, ram
      ensures LinksValid() && blocks == a + [MergeNext(m, c)] + AfterMerge(c) && lfree == old(lfree)
    {
      ghost var old_ram := ram[..];
      Locate(old_ram, a, m, c, memSize);
      var nmem := ram[mem].next;
      if mem != nmem && !ram[nmem].used && nmem != memSize {
        if lfree == nmem {
          lfree := mem;
        }
        NextOf(old_ram, a, m, c, memSize);
        ram[mem] := ram[mem].(next := ram[nmem].next);
        if ram[nmem].next != memSize {
          ram[ram[nmem].next] := ram[ram[nmem].next].(prev := mem);
        }
        assert a + [m] + c == a + [m, c[0]] + c[1..];
        Replace(old_ram, ram[..], a, [m, c[0]], c[1..], [MergeNext(m, c)], memSize);
      }
      LowestBefore(old_ram, a, m, c, memSize, memSize);
      blocks := a + [MergeNext(m, c)] + AfterMerge(c);
    }

    /** The second half: combine with the previous block if that is free. */
    method PlugBackward(mem: nat, ghost a: seq<Block>, ghost m: Block, ghost c: seq<Block>)
      requires LinksValid() && blocks == a + [m] + c && m.off == mem && !m.used
      requires lfree == LowestFree(blocks, memSize)
      modifies this, ram
      ensures LinksValid() && blocks == MergeBack(a, m) + c && lfree == old(lfree)
    {
      ghost var old_ram := ram[..];
      Locate(old_ram, a, m, c, memSize);
      LinkBack(old_ram, a, m, c, memSize);
      var pmem := ram[mem].prev;
      if pmem != mem && !ram[pmem].used {
        ghost var a', p := a[..|a| - 1], a[|a| - 1];
        if lfree == mem {
          lfree := pmem;
        }
        ram[pmem] := ram[pmem].(next := ram[mem].next);
        if ram[mem].next != memSize {
          ram[ram[mem].next] := ram[ram[mem].next].(prev := pmem);
        }
        assert a + [m] + c == a' + [p, m] + c;
        assert [p, m][1..] == [m];
        Replace(old_ram, ram[..], a', [p, m], c, [Block(p.off, m.end, false)], memSize);
      }
      LowestBefore(old_ram, a, m, c, memSize, memSize);
      FreeLast(a);
      blocks := MergeBack(a, m) + c;
    }

    /** mem_free. What it is given must be the data of a block, or one of the pointers it turns down itself; freeing a
        block that is free already changes nothing. */
    method Free(rmem: Option<int>)
      requires Valid()
      requires rmem.Some? && rmem.value % ALIGN == 0 && HDR <= rmem.value <= memSize - MIN ==>
                 Find(blocks, rmem.value - HDR).Some?
      modifies this, ram
      ensures Valid()
      ensures var legal := rmem.Some? && rmem.value % ALIGN == 0 && HDR <= rmem.value <= memSize - MIN;
              blocks == if legal && old(Find(blocks, rmem.value - HDR).value.used)
                        then Release(old(blocks), rmem.value - HDR) else old(blocks)
    {
      if rmem == None || rmem.value % ALIGN != 0 || rmem.value - HDR < 0 || rmem.value + MIN > memSize {
        return;
      }
      var mem: nat := rmem.value - HDR;
      ReleaseKeeps(blocks, 0, memSize, mem);
      ghost var a, b, c := SplitAt(blocks, mem, 0);
      hide Tiles, Alternating, Linked, Coalesce, MarkFree, Find, LowestFree;
      Locate(ram[..], a, b, c, memSize);
      if !ram[mem].used {
        return;
      }
      var valid := LinkValid(mem, a, b, c);
      if !valid {
        return;
      }
      MarkUnused(mem, a, b, c);
      PlugHoles(mem, a, b.(used := false), c);
    }

    /** The part of mem_free that marks the block and lowers lfree. */
    method MarkUnused(mem: nat, ghost a: seq<Block>, ghost b: Block, ghost c: seq<Block>)
      requires Valid() && blocks == a + [b] + c && b.off == mem && b.used
      modifies this, ram
      ensures LinksValid() && blocks == a + [b.(used := false)] + c && lfree == LowestFree(blocks, memSize)
    {
      ghost var old_ram, m := ram[..], b.(used := false);
      Locate(old_ram, a, b, c, memSize);
      FreedLowest(old_ram, a, b, c, memSize);
      ram[mem] := ram[mem].(used := false);
      Replace(old_ram, ram[..], a, [b], c, [m], memSize);
      if mem < lfree {
        lfree := mem;
      }
      blocks := a + [m] + c;
    }

    /** mem_trim, for the data of a live block. None is its NULL. */
    method Trim(rmem: nat, new_size: U32) returns (r: Option<nat>)
      requires Valid()
      requires rmem >= HDR && Find(blocks, rmem - HDR).Some? && Find(blocks, rmem - HDR).value.used
      modifies this, ram
      ensures Valid()
      ensures var newsize := Rounded(new_size, memSize);
              if newsize == None || newsize.value > old(Find(blocks, rmem - HDR).value.Room())
              then r == None && blocks == old(blocks)
              else r == Some(rmem) && blocks == Shrink(old(blocks), rmem - HDR, newsize.value)
    {
      var newsize := if AlignSize(new_size) < MIN then MIN else AlignSize(new_size);
      if newsize > memSize || newsize < new_size {
        return None;
      }
      assert Rounded(new_size, memSize) == Some(newsize);
      var ptr := rmem - HDR;
      ghost var a, b, c := SplitAt(blocks, ptr, newsize);
      Locate(ram[..], a, b, c, memSize);
      var size := ram[ptr].next - ptr - HDR;
      if newsize > size {
        return None;
      }
      ShrinkKeeps(blocks, 0, memSize, ptr, newsize);
      if newsize == size {
        assert [b] + c == Shrink([b] + c, ptr, newsize);
        return Some(rmem);
      }
      Cut(ptr, newsize, a, b, c);
      return Some(rmem);
    }

    /** The part of mem_trim that cuts off the end of a block. */
    method Cut(ptr: nat, newsize: nat, ghost a: seq<Block>, ghost b: Block, ghost c: seq<Block>)
      requires Valid() && blocks == a + [b] + c && b.off == ptr && b.used && MIN <= newsize < b.Room()
      modifies this, ram
      ensures LinksValid() && lfree == LowestFree(blocks, memSize)
      ensures blocks == a + Shrink([b] + c, ptr, newsize)
    {
      Head(b, c);
      Locate(ram[..], a, b, c, memSize);
      if !ram[ram[ptr].next].used {
        CutIntoNext(ptr, newsize, a, b, c);
      } else if newsize + HDR + MIN <= ram[ptr].next - ptr - HDR {
        CutOffBlock(ptr, newsize, a, b, c);
      } else {
        assert blocks == a + ([b] + c);
      }
    }

    method CutIntoNext(ptr: nat, newsize: nat, ghost a: seq<Block>, ghost b: Block, ghost c: seq<Block>)
      requires Valid() && blocks == a + [b] + c && b.off == ptr && b.used && MIN <= newsize < b.Room()
      requires c != [] && !c[0].used
      modifies this, ram
      ensures LinksValid() && lfree == LowestFree(blocks, memSize)
      ensures blocks == a + ([Block(ptr, ptr + HDR + newsize, true),
                              Block(ptr + HDR + newsize, c[0].end, false)] + c[1..])
    {
      hide Linked, Tiles, Alternating, LowestFree, EndOf, LastOff;
      ghost var old_ram := ram[..];
      Locate(old_ram, a, b, c, memSize);
      NextOf(old_ram, a, b, c, memSize);
      var mem2, next := ram[ptr].next, ram[ram[ptr].next].next;
      var ptr2 := ptr + HDR + newsize;
      ghost var mid := [Block(ptr, ptr2, true), Block(ptr2, next, false)];
      CutNextLowest(old_ram, a, b, c, ptr2, memSize);
      assert a + [b] + c == a + [b, c[0]] + c[1..];
      CutLinked(old_ram, a, [b, c[0]], c[1..], ptr, ptr2, next, memSize);
      if lfree == mem2 {
        lfree := ptr2;
      }
      Relink(ptr, ptr2, next);
      blocks := a + mid + c[1..];
      assert blocks == a + (mid + c[1..]);
    }

    method CutOffBlock(ptr: nat, newsize: nat, ghost a: seq<Block>, ghost b: Block, ghost c: seq<Block>)
      requires Valid() && blocks == a + [b] + c && b.off == ptr && b.used && MIN <= newsize < b.Room()
      requires c != [] ==> c[0].used
      requires newsize + HDR + MIN <= b.Room()
      modifies this, ram
      ensures LinksValid() && lfree == LowestFree(blocks, memSize)
      ensures blocks == a + ([Block(ptr, ptr + HDR + newsize, true), Block(ptr + HDR + newsize, b.end, false)] + c)
    {
      hide Linked, Tiles, Alternating, LowestFree, EndOf, LastOff;
      ghost var old_ram := ram[..];
      Locate(old_ram, a, b, c, memSize);
      var ptr2 := ptr + HDR + newsize;
      ghost var mid := [Block(ptr, ptr2, true), Block(ptr2, b.end, false)];
      CutOffLowest(old_ram, a, b, c, ptr2, memSize);
      CutLinked(old_ram, a, [b], c, ptr, ptr2, b.end, memSize);
      if ptr2 < lfree {
        lfree := ptr2;
      }
      Relink(ptr, ptr2, ram[ptr].next);
      blocks := a + mid + c;
      assert blocks == a + (mid + c);
    }

    /** The header of the remainder at `ptr2` goes between those at `ptr` and `next`. */
    method Relink(ptr: nat, ptr2: nat, next: nat)
      requires ram.Length == memSize + 1 && ptr < ptr2 < next <= memSize
      modifies ram
      ensures ram[..] == CutRam(old(ram[..]), ptr, ptr2, next, memSize)
      ensures ram[memSize] == old(ram[memSize])
    {
      ram[ptr2] := Hdr(next, ptr, false);
      ram[ptr] := ram[ptr].(next := ptr2);
      if ram[ptr2].next != memSize {
        ram[ram[ptr2].next] := ram[ram[ptr2].next].(prev := ptr2);
      }
    }

    /** mem_sanity: no assertion of it fails. (The alignment assertions compare an address with itself.) */
    method Sanity() returns (ok: bool)
      requires Valid()
      ensures ok
    {
      ghost var a: seq<Block>, p: Block, rest: seq<Block> := [], blocks[0], blocks[1..];
      assert blocks == a + [p] + rest == [p] + rest;
      Locate(ram[..], a, p, rest, memSize);
      ok := ram[0].prev == 0 && ram[0].next <= memSize;
      var lastUsed, mem := ram[0].used, ram[0].next;
      while mem > 0 && mem < memSize
        invariant blocks == a + [p] + rest && Alternating([p] + rest)
        invariant mem == p.end && lastUsed == p.used && 0 < mem <= memSize && ok
        invariant rest == [] <==> mem == memSize
        decreases |rest|
      {
        Head(p, rest);
        Locate(ram[..], a, p, rest, memSize);
        assert blocks == (a + [p]) + [rest[0]] + rest[1..];
        assert rest == [rest[0]] + rest[1..];
        a, p, rest := a + [p], rest[0], rest[1..];
        Locate(ram[..], a, p, rest, memSize);
        var valid := LinkValid(mem, a, p, rest);
        ok := ok && ram[mem].prev <= memSize && ram[mem].next <= memSize && (lastUsed || ram[mem].used) && valid;
        lastUsed, mem := ram[mem].used, ram[mem].next;
      }
      ok := ok && mem == memSize && ram[mem] == Hdr(memSize, memSize, true);
    }
  }

  /** The headers after mem_trim has put one at `ptr2`, behind that at `ptr` and in front of `next`. */
  ghost function CutRam(ram: seq<Hdr>, ptr: nat, ptr2: nat, next: nat, q: nat): seq<Hdr>
    requires ptr < ptr2 < next <= q < |ram|
  {
    var r := ram[ptr2 := Hdr(next, ptr, false)][ptr := ram[ptr].(next := ptr2)];
    if next != q then r[next := r[next].(prev := ptr2)] else r
  }

  lemma {:induction false} CutLinked(ram: seq<Hdr>, a: seq<Block>, gone: seq<Block>, rest: seq<Block>, ptr: nat,
                                     ptr2: nat, next: nat, q: nat)
    requires ptr < ptr2 < next <= q < |ram| && Linked(ram, 0, 0, a + gone + rest, q)
    requires EndOf(a, 0) == ptr && EndOf(gone, ptr) == next && ram[ptr].prev == LastOff(a, 0) && ram[ptr].used
    ensures Linked(CutRam(ram, ptr, ptr2, next, q), 0, 0,
                   a + [Block(ptr, ptr2, true), Block(ptr2, next, false)] + rest, q)
  {
    hide Linked, EndOf, LastOff;
    var ram' := CutRam(ram, ptr, ptr2, next, q);
    var x, y := Block(ptr, ptr2, true), Block(ptr2, next, false);
    LinkTwo(ram', ptr, LastOff(a, 0), x, y);
    Replace(ram, ram', a, gone, rest, [x, y], q);
  }

  /** The lowest free block after the free one behind `b` has grown at the front. */
  lemma {:induction false} CutNextLowest(ram: seq<Hdr>, a: seq<Block>, b: Block, c: seq<Block>, ptr2: nat, hi: nat)
    requires hi < |ram| && Linked(ram, 0, 0, a + [b] + c, hi) && Tiles(a + [b] + c, 0, hi) && b.used
    requires c != [] && !c[0].used && b.off < ptr2
    ensures var l := LowestFree(a + [b] + c, hi);
            LowestFree(a + [Block(b.off, ptr2, true), Block(ptr2, c[0].end, false)] + c[1..], hi)
            == if l == b.end then ptr2 else l
  {
    var x, y := Block(b.off, ptr2, true), Block(ptr2, c[0].end, false);
    Locate(ram, a, b, c, hi);
    LowestUpTo(a + [b], c[0], c[1..], hi);
    LowestUpTo(a + [x], y, c[1..], hi);
    ConcatOne(a, b, 0, hi, 0);
    ConcatOne(a, x, 0, hi, 0);
    LowestInFront(ram, a, b, c, hi);
    assert a + [b] + c == (a + [b]) + [c[0]] + c[1..];
    assert a + [x, y] + c[1..] == (a + [x]) + [y] + c[1..];
  }

  /** The lowest free block after a new one behind `b`. */
  lemma {:induction false} CutOffLowest(ram: seq<Hdr>, a: seq<Block>, b: Block, c: seq<Block>, ptr2: nat, hi: nat)
    requires hi < |ram| && Linked(ram, 0, 0, a + [b] + c, hi) && Tiles(a + [b] + c, 0, hi) && b.used
    requires b.off < ptr2 < b.end
    ensures var l := LowestFree(a + [b] + c, hi);
            LowestFree(a + [Block(b.off, ptr2, true), Block(ptr2, b.end, false)] + c, hi)
              == if ptr2 < l then ptr2 else l
  {
    var x, y := Block(b.off, ptr2, true), Block(ptr2, b.end, false);
    LowestUpTo(a + [x], y, c, hi);
    ConcatOne(a, x, 0, hi, 0);
    LowestInFront(ram, a, b, c, hi);
    assert a + [x, y] + c == (a + [x]) + [y] + c;
  }

  lemma LinkTwo(ram: seq<Hdr>, p: nat, pp: nat, x: Block, y: Block)
    requires p == x.off < x.end == y.off < y.end < |ram|
    requires ram[p] == Hdr(x.end, pp, x.used) && ram[y.off] == Hdr(y.end, p, y.used)
    ensures Linked(ram, p, pp, [x, y], y.end) && EndOf([x, y], p) == y.end && LastOff([x, y], pp) == y.off
  {
    Head(x, [y]);
    assert [x, y] == [x] + [y] && [y][1..] == [];
    assert EndOf([y], x.end) == y.end && LastOff([y], x.off) == y.off;
  }

  /** Where the lowest free block lies, seen from a used block. */
  lemma LowestInFront(ram: seq<Hdr>, a: seq<Block>, b: Block, c: seq<Block>, hi: nat)
    requires hi < |ram| && Linked(ram, 0, 0, a + [b] + c, hi) && Tiles(a + [b] + c, 0, hi) && b.used
    ensures AllUsed(a) ==> LowestFree(a + [b] + c, hi) == LowestFree(c, hi) >= b.end
    ensures !AllUsed(a) ==> LowestFree(a + [b] + c, hi) == LowestFree(a, hi) < b.off
  {
    Locate(ram, a, b, c, hi);
    assert a + [b] + c == a + ([b] + c);
    Head(b, c);
    LowestConcat(a, [b] + c, hi);
    TilesConcat(a, [b] + c, 0, hi);
    LowestBound(c, b.end, hi);
    LinkedConcat(ram, 0, 0, a, [b] + c, hi);
    if !AllUsed(a) {
      LowestIn(ram, 0, 0, a, b.off, hi);
    }
  }

  lemma FreedLowest(ram: seq<Hdr>, a: seq<Block>, b: Block, c: seq<Block>, hi: nat)
    requires hi < |ram| && Linked(ram, 0, 0, a + [b] + c, hi) && Tiles(a + [b] + c, 0, hi) && b.used
    ensures var l := LowestFree(a + [b] + c, hi);
            LowestFree(a + [b.(used := false)] + c, hi) == if b.off < l then b.off else l
  {
    LowestInFront(ram, a, b, c, hi);
    LowestUpTo(a, b.(used := false), c, hi);
    Locate(ram, a, b, c, hi);
  }

  /** The block list taken apart at the block that starts at `off`. */
  lemma SplitAt(bs: seq<Block>, off: nat, size: nat) returns (a: seq<Block>, b: Block, c: seq<Block>)
    requires Find(bs, off).Some?
    ensures bs == a + [b] + c && b.off == off && Find(bs, off) == Some(b)
    ensures MarkFree(bs, off) == a + [b.(used := false)] + c
    ensures Shrink(bs, off, size) == a + Shrink([b] + c, off, size)
  {
    if bs[0].off == off {
      a, b, c := [], bs[0], bs[1..];
      assert bs == [b] + c;
    } else {
      var x, t := bs[0], bs[1..];
      a, b, c := SplitAt(t, off, size);
      assert bs == [x] + t;
      Cons(x, a, [b], c);
      Cons(x, a, [b.(used := false)], c);
      Cons(x, a, Shrink([b] + c, off, size), []);
      assert Shrink([b] + c, off, size) + [] == Shrink([b] + c, off, size);
      a := [x] + a;
    }
  }

  lemma Cons(x: Block, a: seq<Block>, m: seq<Block>, c: seq<Block>)
    ensures [x] + (a + m + c) == ([x] + a) + m + c && a + m + [] == a + m
  {
  }

  function MergeNext(m: Block, c: seq<Block>): Block {
    if c != [] && !c[0].used then Block(m.off, c[0].end, false) else m
  }

  function AfterMerge(c: seq<Block>): seq<Block> {
    if c != [] && !c[0].used then c[1..] else c
  }

  function MergeBack(a: seq<Block>, m: Block): seq<Block> {
    if a != [] && !a[|a| - 1].used then a[..|a| - 1] + [Block(a[|a| - 1].off, m.end, false)] else a + [m]
  }

  /** What the header of a block in the middle says. */
  lemma Locate(ram: seq<Hdr>, a: seq<Block>, b: Block, c: seq<Block>, q: nat)
    requires q < |ram| && Linked(ram, 0, 0, a + [b] + c, q)
    ensures EndOf(a, 0) == b.off && EndOf([b], b.off) == b.end && b.off < b.end <= q
    ensures ram[b.off] == Hdr(b.end, LastOff(a, 0), b.used)
    ensures b.end == q <==> c == []
    ensures c != [] ==> ram[b.end] == Hdr(c[0].end, b.off, c[0].used) && c[0].off == b.end
  {
    assert a + [b] + c == a + ([b] + c);
    LinkedConcat(ram, 0, 0, a, [b] + c, q);
    assert ([b] + c)[0] == b && ([b] + c)[1..] == c;
    LinkedOrder(ram, b.end, b.off, c, q);
  }

  /** The used blocks in front of the lowest free one. */
  lemma SplitAtLowest(bs: seq<Block>, lo: nat, hi: nat, size: nat) returns (a: seq<Block>, rest: seq<Block>)
    requires Tiles(bs, lo, hi)
    ensures bs == a + rest && AllUsed(a) && EndOf(a, lo) == LowestFree(bs, hi)
    ensures NoFit(a, size) && LowestFree(bs, hi) <= hi
    decreases |bs|
  {
    if bs == [] || !bs[0].used {
      a, rest := [], bs;
      TilesBounds(bs, lo, hi);
    } else {
      a, rest := SplitAtLowest(bs[1..], bs[0].end, hi, size);
      a := [bs[0]] + a;
      assert a[1..] == bs[1..][..|a| - 1];
    }
  }

  /** A block that starts too near the end of the heap cannot fit. */
  lemma NoneBehind(bs: seq<Block>, lo: nat, hi: nat, size: nat)
    requires Tiles(bs, lo, hi) && hi - size <= lo
    ensures FirstFit(bs, size) == None && Alloc(bs, size) == bs
    decreases |bs|
  {
    if bs != [] {
      TilesBounds(bs[1..], bs[0].end, hi);
      NoneBehind(bs[1..], bs[0].end, hi, size);
    }
  }

  /** The block in front of `b` points to it. */
  lemma LinkBack(ram: seq<Hdr>, a: seq<Block>, b: Block, c: seq<Block>, q: nat)
    requires q < |ram| && Linked(ram, 0, 0, a + [b] + c, q)
    ensures b.off <= q
    ensures a == [] ==> ram[b.off].prev == b.off
    ensures a != [] ==>
              var p := a[|a| - 1];
              EndOf(a[..|a| - 1], 0) == p.off && ram[b.off].prev == p.off < b.off
              && ram[p.off] == Hdr(b.off, LastOff(a[..|a| - 1], 0), p.used) && p.end == b.off
  {
    Locate(ram, a, b, c, q);
    if a != [] {
      var a', p := a[..|a| - 1], a[|a| - 1];
      assert a + [b] + c == a' + [p] + ([b] + c);
      Locate(ram, a', p, [b] + c, q);
      LastOffIs(a, 0);
    }
  }

  lemma NextOf(ram: seq<Hdr>, a: seq<Block>, b: Block, c: seq<Block>, q: nat)
    requires q < |ram| && Linked(ram, 0, 0, a + [b] + c, q) && c != []
    ensures c[0].end <= q && EndOf([b, c[0]], b.off) == c[0].end && (c[0].end == q <==> c[1..] == [])
    ensures b.end < c[0].end
    ensures c[0].end < q ==> ram[c[0].end] == Hdr(c[1].end, c[0].off, c[1].used)
  {
    Locate(ram, a, b, c, q);
    assert a + [b] + c == (a + [b]) + [c[0]] + c[1..];
    Locate(ram, a + [b], c[0], c[1..], q);
    assert [b, c[0]][1..] == [c[0]];
  }

  lemma LowestUpTo(a: seq<Block>, m: Block, c: seq<Block>, hi: nat)
    requires !m.used
    ensures LowestFree(a + [m] + c, hi) == if AllUsed(a) then m.off else LowestFree(a, hi)
  {
    LowestConcat(a, [m] + c, hi);
    assert a + [m] + c == a + ([m] + c);
  }

  /** The lowest free block is `m` or lies in front of it. */
  lemma LowestBefore(ram: seq<Hdr>, a: seq<Block>, m: Block, c: seq<Block>, q: nat, hi: nat)
    requires q < |ram| && Linked(ram, 0, 0, a + [m] + c, q) && !m.used
    ensures LowestFree(a + [m] + c, hi) <= m.off
    ensures !AllUsed(a) ==> LowestFree(a + [m] + c, hi) < m.off
  {
    LowestUpTo(a, m, c, hi);
    Locate(ram, a, m, c, q);
    assert a + [m] + c == a + ([m] + c);
    LinkedConcat(ram, 0, 0, a, [m] + c, q);
    if !AllUsed(a) {
      LowestIn(ram, 0, 0, a, m.off, hi);
    }
  }

  /** If a block of `a` is free, the lowest free one lies in front of the end of `a`. */
  lemma LowestIn(ram: seq<Hdr>, p: nat, pp: nat, a: seq<Block>, q: nat, hi: nat)
    requires Linked(ram, p, pp, a, q) && !AllUsed(a)
    ensures p <= LowestFree(a, hi) < q
    decreases |a|
  {
    if a[0].used {
      LowestIn(ram, a[0].end, a[0].off, a[1..], q, hi);
    }
  }

  lemma LowestMerged(a: seq<Block>, m: Block, c: seq<Block>, hi: nat)
    requires !m.used
    ensures LowestFree(a + [MergeNext(m, c)] + AfterMerge(c), hi) == LowestFree(a + [m] + c, hi)
  {
    LowestUpTo(a, m, c, hi);
    LowestUpTo(a, MergeNext(m, c), AfterMerge(c), hi);
  }

  lemma FreeLast(a: seq<Block>)
    ensures a != [] && !a[|a| - 1].used ==> !AllUsed(a)
  {
    if |a| > 1 {
      FreeLast(a[1..]);
      assert a[1..][|a| - 2] == a[|a| - 1];
    }
  }

  lemma CoalesceLowest(bs: seq<Block>, hi: nat)
    ensures LowestFree(Coalesce(bs), hi) == LowestFree(bs, hi)
    decreases |bs|
  {
    if |bs| >= 2 {
      if !bs[0].used && !bs[1].used {
        var m := Block(bs[0].off, bs[1].end, false);
        Head(m, bs[2..]);
        CoalesceLowest([m] + bs[2..], hi);
      } else {
        CoalesceLowest(bs[1..], hi);
        Head(bs[0], Coalesce(bs[1..]));
      }
    }
  }

  /** Melting all free neighbours comes down to the neighbours of the one block that has become free. */
  lemma CoalesceAt(a: seq<Block>, m: Block, c: seq<Block>)
    requires !m.used && Alternating(a + [m.(used := true)] + c)
    ensures Coalesce(a + [m] + c) == MergeBack(a, MergeNext(m, c)) + AfterMerge(c)
    decreases |a|
  {
    var u := m.(used := true);
    if a == [] {
      assert a + [m] + c == [m] + c && a + [u] + c == [u] + c;
      Head(u, c);
      CoalesceHead(m, c);
    } else if |a| == 1 {
      assert a == [a[0]];
      CoalesceTwo(a[0], m, c);
    } else {
      var x, a' := a[0], a[1..];
      MergeBackTail(a, MergeNext(m, c));
      CoalesceStep(x, a', m, c);
      CoalesceAt(a', m, c);
    }
  }

  lemma CoalesceStep(x: Block, a: seq<Block>, m: Block, c: seq<Block>)
    requires a != [] && Alternating([x] + a + [m.(used := true)] + c)
    ensures Alternating(a + [m.(used := true)] + c)
    ensures Coalesce([x] + a + [m] + c) == [x] + Coalesce(a + [m] + c)
  {
    var us, ms := a + [m.(used := true)] + c, a + [m] + c;
    assert [x] + a + [m.(used := true)] + c == [x] + us && [x] + a + [m] + c == [x] + ms;
    assert us[0] == a[0] == ms[0];
    hide MergeNext, MergeBack, AfterMerge;
    Head(x, us);
    Head(x, ms);
  }

  lemma MergeBackTail(a: seq<Block>, m: Block)
    requires |a| > 1
    ensures a == [a[0]] + a[1..]
    ensures forall c: seq<Block> :: MergeBack(a, m) + c == [a[0]] + (MergeBack(a[1..], m) + c)
  {
    assert a[1..][|a| - 2] == a[|a| - 1];
    assert a[..|a| - 1] == [a[0]] + a[1..][..|a| - 2];
    assert MergeBack(a, m) == [a[0]] + MergeBack(a[1..], m);
  }

  lemma CoalesceTwo(x: Block, m: Block, c: seq<Block>)
    requires !m.used && Alternating([x] + [m.(used := true)] + c)
    ensures Coalesce([x] + [m] + c) == MergeBack([x], MergeNext(m, c)) + AfterMerge(c)
  {
    var u := m.(used := true);
    assert [x] + [m] + c == [x] + ([m] + c) && [x] + [u] + c == [x] + ([u] + c);
    hide MergeNext, AfterMerge;
    Head(x, [u] + c);
    Head(u, c);
    if x.used {
      BehindUsed(x, m, c);
    } else {
      BehindFree(x, m, c);
    }
  }

  lemma BehindUsed(x: Block, m: Block, c: seq<Block>)
    requires x.used && !m.used && Alternating(c)
    ensures Coalesce([x] + ([m] + c)) == MergeBack([x], MergeNext(m, c)) + AfterMerge(c)
  {
    Head(x, [m] + c);
    Head(m, c);
    CoalesceHead(m, c);
    hide MergeNext, AfterMerge;
    assert [x] + ([MergeNext(m, c)] + AfterMerge(c)) == [x] + [MergeNext(m, c)] + AfterMerge(c);
  }

  lemma BehindFree(x: Block, m: Block, c: seq<Block>)
    requires !x.used && !m.used && Alternating(c)
    ensures Coalesce([x] + ([m] + c)) == MergeBack([x], MergeNext(m, c)) + AfterMerge(c)
  {
    Head(x, [m] + c);
    Head(m, c);
    assert ([x] + ([m] + c))[2..] == c;
    CoalesceHead(Block(x.off, m.end, false), c);
  }

  lemma CoalesceHead(m: Block, c: seq<Block>)
    requires !m.used && Alternating(c)
    ensures Coalesce([m] + c) == [MergeNext(m, c)] + AfterMerge(c)
  {
    Head(m, c);
    CoalesceFixed(c);
    if c != [] && !c[0].used {
      var m2, rest := MergeNext(m, c), c[1..];
      assert ([m] + c)[2..] == rest;
      Head(m2, rest);
      CoalesceFixed(rest);
      assert Coalesce([m2] + rest) == [m2] + rest;
    }
  }
}
