/** The heap of mem.c seen as a list of blocks in address order, and what its operations do to that list. */
module HeapSpec {
  import opened Seqs

  /** MEM_ALIGNMENT, SIZEOF_STRUCT_MEM and MIN_SIZE_ALIGNED, for four-byte alignment. */
  const ALIGN: nat := 4
  const HDR: nat := 12
  const MIN: nat := 12

  datatype Option<T> = None | Some(value: T)

  /** A block: its header at `off`, then its data up to `end`, where the next header is. */
  datatype Block = Block(off: nat, end: nat, used: bool) {
    function Room(): int {
      end - off - HDR
    }
  }

  /** The blocks tile `lo..hi`; each is aligned and has room for MIN bytes. */
  ghost predicate Tiles(bs: seq<Block>, lo: nat, hi: nat) {
    if bs == [] then lo == hi
    else bs[0].off == lo && lo % ALIGN == 0 && bs[0].Room() >= MIN && Tiles(bs[1..], bs[0].end, hi)
  }

  /** No two free blocks side by side. */
  ghost predicate Alternating(bs: seq<Block>) {
    |bs| >= 2 ==> (bs[0].used || bs[1].used) && Alternating(bs[1..])
  }

  ghost predicate Wf(bs: seq<Block>, lo: nat, hi: nat) {
    Tiles(bs, lo, hi) && Alternating(bs) && hi % ALIGN == 0
  }

  function LowestFree(bs: seq<Block>, hi: nat): nat {
    if bs == [] then hi else if !bs[0].used then bs[0].off else LowestFree(bs[1..], hi)
  }

  predicate Fits(b: Block, size: nat) {
    !b.used && b.Room() >= size
  }

  function FirstFit(bs: seq<Block>, size: nat): Option<nat> {
    if bs == [] then None else if Fits(bs[0], size) then Some(bs[0].off) else FirstFit(bs[1..], size)
  }

  /** A fitting block after the allocation: split if what remains can hold a block. */
  function Take(b: Block, size: nat): seq<Block> {
    if b.Room() >= size + HDR + MIN
    then [Block(b.off, b.off + HDR + size, true), Block(b.off + HDR + size, b.end, false)]
    else [b.(used := true)]
  }

  function Alloc(bs: seq<Block>, size: nat): seq<Block> {
    if bs == [] then [] else if Fits(bs[0], size) then Take(bs[0], size) + bs[1..] else [bs[0]] + Alloc(bs[1..], size)
  }

  function Find(bs: seq<Block>, off: nat): Option<Block> {
    if bs == [] then None else if bs[0].off == off then Some(bs[0]) else Find(bs[1..], off)
  }

  function MarkFree(bs: seq<Block>, off: nat): seq<Block> {
    if bs == [] then []
    else if bs[0].off == off then [bs[0].(used := false)] + bs[1..]
    else [bs[0]] + MarkFree(bs[1..], off)
  }

  /** All neighbouring free blocks melted into one. */
  function Coalesce(bs: seq<Block>): seq<Block>
    decreases |bs|
  {
    if |bs| < 2 then bs
    else if !bs[0].used && !bs[1].used then Coalesce([Block(bs[0].off, bs[1].end, false)] + bs[2..])
    else [bs[0]] + Coalesce(bs[1..])
  }

  function Release(bs: seq<Block>, off: nat): seq<Block> {
    Coalesce(MarkFree(bs, off))
  }

  /** The block at `off` cut down to `size` bytes of data. What is cut off goes to the free block behind it, or
      becomes a block of its own if it can hold one, or stays where it is. */
  function Shrink(bs: seq<Block>, off: nat, size: nat): seq<Block> {
    if bs == [] then []
    else if bs[0].off != off then [bs[0]] + Shrink(bs[1..], off, size)
    else
      var cut := Block(off, off + HDR + size, true);
      if bs[0].Room() <= size then bs
      else if |bs| > 1 && !bs[1].used then [cut, Block(cut.end, bs[1].end, false)] + bs[2..]
      else if bs[0].Room() >= size + HDR + MIN then [cut, Block(cut.end, bs[0].end, false)] + bs[1..]
      else bs
  }

  /** The data ranges of the live allocations. */
  ghost function Live(bs: seq<Block>): set<(nat, nat)> {
    if bs == [] then {} else (if bs[0].used then {(bs[0].off + HDR, bs[0].end)} else {}) + Live(bs[1..])
  }

  // ---------- what the operations keep and promise ----------

  /** Blocks lie within the bounds they tile. */
  lemma TilesBounds(bs: seq<Block>, lo: nat, hi: nat)
    requires Tiles(bs, lo, hi)
    ensures lo <= hi
    ensures forall r :: r in Live(bs) ==> lo + HDR <= r.0 < r.1 <= hi
  {
    if bs != [] {
      TilesBounds(bs[1..], bs[0].end, hi);
    }
  }

  lemma {:induction false} AllocWf(bs: seq<Block>, lo: nat, hi: nat, size: nat)
    requires Wf(bs, lo, hi) && size % ALIGN == 0 && size >= MIN
    ensures Wf(Alloc(bs, size), lo, hi)
    ensures |Alloc(bs, size)| > 0 <==> |bs| > 0
    ensures bs != [] && !Fits(bs[0], size) ==> Alloc(bs, size)[0] == bs[0]
    ensures bs != [] && bs[0].used ==> Alloc(bs, size)[0].used
  {
    if bs == [] {
    } else if Fits(bs[0], size) {
      var t, rest := Take(bs[0], size), bs[1..];
      if |t| == 2 {
        assert (t + rest)[1..] == [t[1]] + rest;
        assert ([t[1]] + rest)[1..] == rest;
      } else {
        assert (t + rest)[1..] == rest;
      }
    } else {
      AllocWf(bs[1..], bs[0].end, hi, size);
      assert ([bs[0]] + Alloc(bs[1..], size))[1..] == Alloc(bs[1..], size);
    }
  }

  /** mem_malloc fails exactly when no free block is large enough. */
  lemma {:induction false} AllocFailsIff(bs: seq<Block>, size: nat)
    ensures FirstFit(bs, size) == None <==> forall i :: 0 <= i < |bs| ==> !Fits(bs[i], size)
    ensures FirstFit(bs, size) == None ==> Alloc(bs, size) == bs
  {
    if bs != [] {
      AllocFailsIff(bs[1..], size);
      assert forall i :: 1 <= i < |bs| ==> bs[i] == bs[1..][i - 1];
    }
  }

  /** From `bs` to `bs'` the free block at `off` has become a live allocation of at least `size` bytes, clear of all
      others, and nothing else has changed for them. */
  ghost predicate Allocated(bs: seq<Block>, bs': seq<Block>, off: nat, size: nat) {
    && Find(bs, off).Some? && !Find(bs, off).value.used
    && Find(bs', off).Some? && Find(bs', off).value.used && Find(bs', off).value.Room() >= size
    && var r := (off + HDR, Find(bs', off).value.end);
       && Live(bs') == Live(bs) + {r}
       && forall l :: l in Live(bs) ==> l.1 <= off || r.1 <= l.0
  }

  lemma {:induction false} AllocFinds(bs: seq<Block>, lo: nat, hi: nat, size: nat)
    requires Wf(bs, lo, hi) && FirstFit(bs, size).Some?
    ensures lo <= FirstFit(bs, size).value && Allocated(bs, Alloc(bs, size), FirstFit(bs, size).value, size)
  {
    TilesBounds(bs[1..], bs[0].end, hi);
    if Fits(bs[0], size) {
      TakeFinds(bs[0], bs[1..], size);
    } else {
      AllocFinds(bs[1..], bs[0].end, hi, size);
      AllocatedBehind(bs[0], bs[1..], Alloc(bs[1..], size), FirstFit(bs[1..], size).value, size);
      assert bs == [bs[0]] + bs[1..];
    }
  }

  lemma AllocatedBehind(x: Block, bs: seq<Block>, bs': seq<Block>, off: nat, size: nat)
    requires Allocated(bs, bs', off, size) && x.off < x.end <= off
    ensures Allocated([x] + bs, [x] + bs', off, size)
  {
    Head(x, bs);
    Head(x, bs');
  }

  lemma TakeFinds(b: Block, rest: seq<Block>, size: nat)
    requires Fits(b, size)
    ensures var b' := Find(Take(b, size) + rest, b.off);
            && b'.Some? && b'.value.used && size <= b'.value.Room() && b'.value.end <= b.end
            && Live(Take(b, size) + rest) == Live(rest) + {(b.off + HDR, b'.value.end)}
  {
    var t := Take(b, size);
    if |t| == 2 {
      assert t + rest == [t[0]] + ([t[1]] + rest);
      Head(t[0], [t[1]] + rest);
      Head(t[1], rest);
    } else {
      Head(t[0], rest);
    }
  }

  /** From `bs` to `bs'` block `k`, the first that fits, is taken with as little as a block can be: exactly `size` bytes
      with all the rest free behind it, or the whole block if the rest could not hold another. Nothing else changes. */
  ghost predicate TightAt(bs: seq<Block>, bs': seq<Block>, k: nat, size: nat) {
    && k < |bs| && k < |bs'|
    && Fits(bs[k], size) && (forall i :: 0 <= i < k ==> !Fits(bs[i], size))
    && bs'[k].used && bs'[k].off == bs[k].off && bs'[..k] == bs[..k]
    && size <= bs'[k].Room() < size + HDR + MIN
    && (if bs'[k].end == bs[k].end then bs'[k + 1..] == bs[k + 1..]
        else bs'[k].Room() == size && bs'[k + 1..] == [Block(bs'[k].end, bs[k].end, false)] + bs[k + 1..])
  }

  /** First fit without waste: an allocation takes the lowest block that fits and no more of it than it must. */
  lemma {:induction false} AllocTakes(bs: seq<Block>, size: nat)
    requires FirstFit(bs, size).Some?
    ensures exists k: nat :: TightAt(bs, Alloc(bs, size), k, size) && bs[k].off == FirstFit(bs, size).value
  {
    if Fits(bs[0], size) {
      var t := Take(bs[0], size);
      assert t + bs[1..] == [t[0]] + (t[1..] + bs[1..]);
      assert TightAt(bs, Alloc(bs, size), 0, size);
    } else {
      AllocTakes(bs[1..], size);
      var k: nat :| TightAt(bs[1..], Alloc(bs[1..], size), k, size) && bs[1..][k].off == FirstFit(bs[1..], size).value;
      TightBehind(bs[0], bs[1..], Alloc(bs[1..], size), k, size);
      assert bs == [bs[0]] + bs[1..];
    }
  }

  lemma TightBehind(x: Block, bs: seq<Block>, bs': seq<Block>, k: nat, size: nat)
    requires TightAt(bs, bs', k, size) && !Fits(x, size)
    ensures TightAt([x] + bs, [x] + bs', k + 1, size)
  {
    var xs, xs' := [x] + bs, [x] + bs';
    assert xs[k + 2..] == bs[k + 1..] && xs'[k + 2..] == bs'[k + 1..];
    assert xs[..k + 1] == [x] + bs[..k] && xs'[..k + 1] == [x] + bs'[..k];
    assert forall i :: 0 < i < k + 1 ==> xs[i] == bs[i - 1];
  }

  lemma {:induction false} CoalesceKeeps(bs: seq<Block>, lo: nat, hi: nat)
    requires Tiles(bs, lo, hi)
    ensures Tiles(Coalesce(bs), lo, hi) && Alternating(Coalesce(bs)) && Live(Coalesce(bs)) == Live(bs)
    ensures (Coalesce(bs) == [] <==> bs == []) && (bs != [] ==> Coalesce(bs)[0].used == bs[0].used)
    decreases |bs|
  {
    if |bs| >= 2 {
      if !bs[0].used && !bs[1].used {
        var m := Block(bs[0].off, bs[1].end, false);
        Head(m, bs[2..]);
        assert bs[1..][1..] == bs[2..];
        CoalesceKeeps([m] + bs[2..], lo, hi);
      } else {
        CoalesceKeeps(bs[1..], bs[0].end, hi);
        Head(bs[0], Coalesce(bs[1..]));
      }
    }
  }

  lemma {:induction false} CoalesceFixed(bs: seq<Block>)
    requires Alternating(bs)
    ensures Coalesce(bs) == bs
  {
    if |bs| >= 2 {
      CoalesceFixed(bs[1..]);
    }
  }

  lemma {:induction false} MarkFreeKeeps(bs: seq<Block>, lo: nat, hi: nat, off: nat)
    requires Tiles(bs, lo, hi) && Find(bs, off).Some?
    ensures Tiles(MarkFree(bs, off), lo, hi) && |MarkFree(bs, off)| == |bs|
    ensures lo <= off < hi
    ensures Live(MarkFree(bs, off)) == Live(bs) - {(off + HDR, Find(bs, off).value.end)}
  {
    TilesBounds(bs[1..], bs[0].end, hi);
    if bs[0].off == off {
      Head(bs[0].(used := false), bs[1..]);
    } else {
      MarkFreeKeeps(bs[1..], bs[0].end, hi, off);
      Head(bs[0], MarkFree(bs[1..], off));
    }
  }

  /** mem_free keeps the heap in order and ends the life of exactly the freed allocation. */
  lemma ReleaseKeeps(bs: seq<Block>, lo: nat, hi: nat, off: nat)
    requires Wf(bs, lo, hi) && Find(bs, off).Some?
    ensures Wf(Release(bs, off), lo, hi)
    ensures Live(Release(bs, off)) == Live(bs) - {(off + HDR, Find(bs, off).value.end)}
  {
    MarkFreeKeeps(bs, lo, hi, off);
    CoalesceKeeps(MarkFree(bs, off), lo, hi);
  }

  /** mem_trim keeps the heap in order; the trimmed allocation stays where it is and keeps at least `size` bytes,
      and no other allocation changes. */
  lemma {:induction false} ShrinkKeeps(bs: seq<Block>, lo: nat, hi: nat, off: nat, size: nat)
    requires Wf(bs, lo, hi) && Find(bs, off).Some? && Find(bs, off).value.used
    requires size % ALIGN == 0 && MIN <= size <= Find(bs, off).value.Room()
    ensures Wf(Shrink(bs, off, size), lo, hi)
    ensures lo <= off
    ensures Shrink(bs, off, size) != [] && Shrink(bs, off, size)[0].used == bs[0].used
    ensures var b, b' := Find(bs, off).value, Find(Shrink(bs, off, size), off);
            && b'.Some? && b'.value.used && size <= b'.value.Room() <= b.Room()
            && Live(Shrink(bs, off, size)) == Live(bs) - {(off + HDR, b.end)} + {(off + HDR, b'.value.end)}
  {
    if bs[0].off != off {
      ShrinkKeeps(bs[1..], bs[0].end, hi, off, size);
      ShrinkBehind(bs[0], bs[1..], lo, hi, off, size);
    } else {
      ShrinkFirst(bs, lo, hi, size);
    }
  }

  lemma {:induction false} ShrinkFirst(bs: seq<Block>, lo: nat, hi: nat, size: nat)
    requires Wf(bs, lo, hi) && bs != [] && bs[0].used
    requires size % ALIGN == 0 && MIN <= size <= bs[0].Room()
    ensures Wf(Shrink(bs, lo, size), lo, hi) && Shrink(bs, lo, size) != [] && Shrink(bs, lo, size)[0].used
    ensures var b' := Find(Shrink(bs, lo, size), lo);
            && b'.Some? && b'.value.used && size <= b'.value.Room() <= bs[0].Room()
            && Live(Shrink(bs, lo, size)) == Live(bs) - {(lo + HDR, bs[0].end)} + {(lo + HDR, b'.value.end)}
  {
    TilesBounds(bs[1..], bs[0].end, hi);
    if bs[0].Room() > size {
      ShrinkHead(bs, lo, hi, size);
    }
  }

  /** What trimming does behind `x` it does to the whole list. */
  lemma {:induction false} ShrinkBehind(x: Block, bs: seq<Block>, lo: nat, hi: nat, off: nat, size: nat)
    requires Wf([x] + bs, lo, hi) && x.off != off && Find(bs, off).Some?
    requires Wf(Shrink(bs, off, size), x.end, hi) && Shrink(bs, off, size) != []
    requires Shrink(bs, off, size)[0].used == bs[0].used && x.end <= off
    requires var b, b' := Find(bs, off).value, Find(Shrink(bs, off, size), off);
             b'.Some? && Live(Shrink(bs, off, size)) == Live(bs) - {(off + HDR, b.end)} + {(off + HDR, b'.value.end)}
    ensures Shrink([x] + bs, off, size) == [x] + Shrink(bs, off, size) && Find([x] + bs, off) == Find(bs, off)
    ensures Wf([x] + Shrink(bs, off, size), lo, hi)
            && Find([x] + Shrink(bs, off, size), off) == Find(Shrink(bs, off, size), off)
    ensures var b, b' := Find(bs, off).value, Find(Shrink(bs, off, size), off);
            Live([x] + Shrink(bs, off, size)) == Live([x] + bs) - {(off + HDR, b.end)} + {(off + HDR, b'.value.end)}
  {
    Head(x, bs);
    Head(x, Shrink(bs, off, size));
  }

  /** From `bs` to `bs'` block `k` at `off` is cut down to no more than it must have: to exactly `size` bytes if the
      next block is free, which gets the rest, or if the rest can be a free block; else everything stays. */
  ghost predicate CutAt(bs: seq<Block>, bs': seq<Block>, k: nat, off: nat, size: nat) {
    && k < |bs| && k < |bs'|
    && bs[k].off == off && (forall i :: 0 <= i < k ==> bs[i].off != off)
    && bs'[k].off == off && bs'[..k] == bs[..k]
    && size <= bs'[k].Room() < size + HDR + MIN
    && if k + 1 < |bs| && !bs[k + 1].used
       then bs'[k].Room() == size && bs'[k + 1..] == [Block(bs'[k].end, bs[k + 1].end, false)] + bs[k + 2..]
       else if bs'[k].end == bs[k].end then bs' == bs
       else bs'[k].Room() == size && bs'[k + 1..] == [Block(bs'[k].end, bs[k].end, false)] + bs[k + 1..]
  }

  /** A trim gives back what the heap can use, all of it to a free block. */
  lemma {:induction false} ShrinkCuts(bs: seq<Block>, lo: nat, hi: nat, off: nat, size: nat)
    requires Tiles(bs, lo, hi) && Find(bs, off).Some? && Find(bs, off).value.used
    requires size <= Find(bs, off).value.Room()
    ensures exists k: nat :: CutAt(bs, Shrink(bs, off, size), k, off, size)
  {
    if bs[0].off == off {
      CutFirst(bs, size);
      assert CutAt(bs, Shrink(bs, off, size), 0, off, size);
    } else {
      var rest := bs[1..];
      ShrinkCuts(rest, bs[0].end, hi, off, size);
      var k: nat :| CutAt(rest, Shrink(rest, off, size), k, off, size);
      CutBehind(bs[0], rest, Shrink(rest, off, size), k, off, size);
      assert bs == [bs[0]] + rest;
      assert CutAt(bs, Shrink(bs, off, size), k + 1, off, size);
    }
  }

  lemma CutFirst(bs: seq<Block>, size: nat)
    requires bs != [] && bs[0].used && size <= bs[0].Room()
    requires |bs| > 1 ==> bs[0].end == bs[1].off
    ensures CutAt(bs, Shrink(bs, bs[0].off, size), 0, bs[0].off, size)
  {
  }

  lemma CutBehind(x: Block, bs: seq<Block>, bs': seq<Block>, k: nat, off: nat, size: nat)
    requires CutAt(bs, bs', k, off, size) && x.off != off
    ensures CutAt([x] + bs, [x] + bs', k + 1, off, size)
  {
    var xs, xs' := [x] + bs, [x] + bs';
    assert xs[k + 2..] == bs[k + 1..] && xs'[k + 2..] == bs'[k + 1..];
    assert k + 1 < |bs| ==> xs[k + 3..] == bs[k + 2..];
    assert xs[..k + 1] == [x] + bs[..k] && xs'[..k + 1] == [x] + bs'[..k];
    assert forall i :: 0 < i < k + 1 ==> xs[i] == bs[i - 1];
  }

  /** The assertion at core/c/core/mem.c:790, that the block trimmed is not the last one, stands where a new block is
      cut off. It fails if and only if the block is the last one and has room for another. */
  lemma {:induction false} TrimAssertion(bs: seq<Block>, lo: nat, hi: nat, off: nat, size: nat)
    requires Wf(bs, lo, hi) && Find(bs, off).Some? && Find(bs, off).value.used
    requires size % ALIGN == 0 && MIN <= size <= Find(bs, off).value.Room()
    ensures var b := Find(bs, off).value;
            |Shrink(bs, off, size)| > |bs| && b.end == hi <==> off == bs[|bs| - 1].off && b.Room() >= size + HDR + MIN
    ensures lo <= off < hi
  {
    TilesBounds(bs[1..], bs[0].end, hi);
    if bs[0].off != off {
      TrimAssertion(bs[1..], bs[0].end, hi, off, size);
    } else if |bs| > 1 {
      LastBehind(bs[1..], bs[0].end, hi);
    }
  }

  lemma {:induction false} LastBehind(bs: seq<Block>, lo: nat, hi: nat)
    requires Tiles(bs, lo, hi) && bs != []
    ensures lo <= bs[|bs| - 1].off && lo < hi
  {
    if |bs| > 1 {
      LastBehind(bs[1..], bs[0].end, hi);
    } else {
      assert bs[1..] == [];
    }
  }

  /** It does fail: all of a heap of 64 bytes is allocated and trimmed to 12. */
  lemma TrimAssertionFails()
    ensures var bs := Alloc([Block(0, 64, false)], 52);
            && Wf([Block(0, 64, false)], 0, 64) && bs == [Block(0, 64, true)]
            && Shrink(bs, 0, 12) == [Block(0, 24, true), Block(24, 64, false)]
  {
    assert [Block(0, 64, false)][1..] == [];
    assert [Block(0, 64, true)][1..] == [];
  }

  lemma ShrinkHead(bs: seq<Block>, lo: nat, hi: nat, size: nat)
    requires Wf(bs, lo, hi) && bs != [] && bs[0].used
    requires size % ALIGN == 0 && MIN <= size < bs[0].Room()
    ensures Wf(Shrink(bs, lo, size), lo, hi)
    ensures var b' := Find(Shrink(bs, lo, size), lo);
            && b'.Some? && b'.value.used && size <= b'.value.Room() <= bs[0].Room()
            && Live(Shrink(bs, lo, size)) == Live(bs[1..]) + {(lo + HDR, b'.value.end)}
  {
    var cut := Block(lo, lo + HDR + size, true);
    if |bs| > 1 && !bs[1].used {
      var f := Block(cut.end, bs[1].end, false);
      assert [cut, f] + bs[2..] == [cut] + ([f] + bs[2..]);
      Head(cut, [f] + bs[2..]);
      Head(f, bs[2..]);
      var next := bs[1..];
      assert next[0] == bs[1] && next[1..] == bs[2..];
      assert Tiles(next, bs[0].end, hi) && Alternating(next);
      assert Tiles(next[1..], next[0].end, hi) && Alternating(next[1..]);
      assert Shrink(bs, lo, size) == [cut] + ([f] + bs[2..]);
      assert Tiles([f] + bs[2..], cut.end, hi) && Alternating([f] + bs[2..]);
    } else if bs[0].Room() >= size + HDR + MIN {
      var f := Block(cut.end, bs[0].end, false);
      assert [cut, f] + bs[1..] == [cut] + ([f] + bs[1..]);
      Head(cut, [f] + bs[1..]);
      Head(f, bs[1..]);
    }
  }

  /** Round trip: freeing the block that was just allocated restores the block list. */
  lemma {:induction false} AllocThenRelease(bs: seq<Block>, lo: nat, hi: nat, size: nat)
    requires Wf(bs, lo, hi) && FirstFit(bs, size).Some?
    ensures Release(Alloc(bs, size), FirstFit(bs, size).value) == bs
    ensures lo <= FirstFit(bs, size).value
    ensures bs[0].used ==> MarkFree(Alloc(bs, size), FirstFit(bs, size).value)[0] == bs[0]
  {
    CoalesceFixed(bs);
    var off := FirstFit(bs, size).value;
    if Fits(bs[0], size) {
      var t, rest := Take(bs[0], size), bs[1..];
      if |t| == 2 {
        assert t + rest == [t[0]] + ([t[1]] + rest);
        Head(t[0], [t[1]] + rest);
        Head(t[0].(used := false), [t[1]] + rest);
        Head(t[1], rest);
        assert ([t[0].(used := false)] + ([t[1]] + rest))[2..] == rest;
        assert [bs[0]] + rest == bs;
      } else {
        Head(t[0], rest);
        assert [bs[0]] + rest == bs;
      }
    } else {
      AllocThenRelease(bs[1..], bs[0].end, hi, size);
      ReleaseBehind(bs[0], Alloc(bs[1..], size), bs[1..], off);
    }
  }

  lemma ReleaseBehind(x: Block, ys: seq<Block>, bs: seq<Block>, off: nat)
    requires Release(ys, off) == bs && x.off != off && Alternating([x] + bs)
    requires bs != [] && bs[0].used ==> MarkFree(ys, off) != [] && MarkFree(ys, off)[0] == bs[0]
    ensures Release([x] + ys, off) == [x] + bs && MarkFree([x] + ys, off)[0] == x
  {
    var m := MarkFree(ys, off);
    Head(x, ys);
    Head(x, m);
    Head(x, bs);
    CoalesceHead0(m);
    assert m == [] ==> Coalesce([x]) == [x];
  }

  lemma CoalesceHead0(bs: seq<Block>)
    ensures (Coalesce(bs) == [] <==> bs == []) && (bs != [] ==> Coalesce(bs)[0].used == bs[0].used)
    decreases |bs|
  {
    if |bs| >= 2 && !bs[0].used && !bs[1].used {
      CoalesceHead0([Block(bs[0].off, bs[1].end, false)] + bs[2..]);
    }
  }

  // ---------- every sequence of operations ----------

  datatype Op = Malloc(size: nat) | Free(off: nat) | Trim(off: nat, size: nat)

  /** One call, with the size rounded; calls that the code turns down change nothing. */
  function Apply(bs: seq<Block>, op: Op): seq<Block> {
    match op
    case Malloc(size) => if size % ALIGN == 0 && size >= MIN then Alloc(bs, size) else bs
    case Free(off) => if Find(bs, off).Some? && Find(bs, off).value.used then Release(bs, off) else bs
    case Trim(off, size) =>
      if size % ALIGN == 0 && size >= MIN && Find(bs, off).Some? && Find(bs, off).value.used
          && size <= Find(bs, off).value.Room()
      then Shrink(bs, off, size) else bs
  }

  function After(ops: seq<Op>, memSize: nat): seq<Block> {
    if ops == [] then [Block(0, memSize, false)] else Apply(After(ops[..|ops| - 1], memSize), ops[|ops| - 1])
  }

  lemma ApplyWf(bs: seq<Block>, op: Op, hi: nat)
    requires Wf(bs, 0, hi)
    ensures Wf(Apply(bs, op), 0, hi)
  {
    match op
    case Malloc(size) =>
      if size % ALIGN == 0 && size >= MIN {
        AllocWf(bs, 0, hi, size);
      }
    case Free(off) =>
      if Find(bs, off).Some? {
        ReleaseKeeps(bs, 0, hi, off);
      }
    case Trim(off, size) =>
      if size % ALIGN == 0 && size >= MIN && Find(bs, off).Some? && Find(bs, off).value.used
          && size <= Find(bs, off).value.Room() {
        ShrinkKeeps(bs, 0, hi, off, size);
      }
  }

  /** After every sequence of calls the blocks tile the arena and no two free ones are neighbours. */
  lemma {:induction false} EveryRun(ops: seq<Op>, memSize: nat)
    requires memSize % ALIGN == 0 && memSize >= MIN + HDR
    ensures Wf(After(ops, memSize), 0, memSize)
  {
    if ops == [] {
      var b := Block(0, memSize, false);
      assert [b][1..] == [];
      assert Tiles([b][1..], memSize, memSize);
    } else {
      EveryRun(ops[..|ops| - 1], memSize);
      ApplyWf(After(ops[..|ops| - 1], memSize), ops[|ops| - 1], memSize);
    }
  }

  /** Live allocations do not overlap. */
  lemma {:induction false} LiveDisjoint(bs: seq<Block>, lo: nat, hi: nat, r: (nat, nat), s: (nat, nat))
    requires Tiles(bs, lo, hi) && r in Live(bs) && s in Live(bs) && r != s
    ensures r.1 <= s.0 || s.1 <= r.0
  {
    TilesBounds(bs[1..], bs[0].end, hi);
    if r in Live(bs[1..]) && s in Live(bs[1..]) {
      LiveDisjoint(bs[1..], bs[0].end, hi, r, s);
    }
  }

  /** A call leaves every live allocation where it is, except the one that it frees or trims. */
  lemma Unmoved(bs: seq<Block>, op: Op, hi: nat, r: (nat, nat))
    requires Wf(bs, 0, hi) && r in Live(bs)
    requires op.Malloc? || op.off + HDR != r.0
    ensures r in Live(Apply(bs, op))
  {
    match op
    case Malloc(size) =>
      if size % ALIGN == 0 && size >= MIN {
        AllocFailsIff(bs, size);
        if FirstFit(bs, size).Some? {
          AllocFinds(bs, 0, hi, size);
        }
      }
    case Free(off) =>
      if Find(bs, off).Some? {
        ReleaseKeeps(bs, 0, hi, off);
      }
    case Trim(off, size) =>
      if size % ALIGN == 0 && size >= MIN && Find(bs, off).Some? && Find(bs, off).value.used
          && size <= Find(bs, off).value.Room() {
        ShrinkKeeps(bs, 0, hi, off, size);
      }
  }
}
