/** The SACK entries of a receiver (tcp_in.c; section 4 of RFC 2018), compacted in place. */
module TcpSack {
  import opened Seqs
  import opened Words
  import opened Seq32

  const LWIP_TCP_MAX_SACK_NUM: nat := 4

  /** struct tcp_sack_range; an entry with equal sides is unused. */
  datatype Sack = Sack(left: U32, right: U32)

  const UNUSED := Sack(0, 0)

  // ---------- what the functions compute, on the list of valid entries ----------

  /** Does an entry lie clear of the new range? */
  predicate Clear(s: Sack, left: U32, right: U32) {
    SeqLeq(s.right, left) || SeqLeq(right, s.left)
  }

  function Others(q: seq<Sack>, left: U32, right: U32): seq<Sack> {
    if q == [] then [] else (if Clear(q[0], left, right) then [q[0]] else []) + Others(q[1..], left, right)
  }

  /** The newest range in front, then what it does not overlap, as far as there is room. */
  function Added(q: seq<Sack>, left: U32, right: U32): seq<Sack> {
    var all := [Sack(left, right)] + Others(q, left, right);
    if |all| > LWIP_TCP_MAX_SACK_NUM then all[..LWIP_TCP_MAX_SACK_NUM] else all
  }

  lemma {:induction false} OthersSnoc(q: seq<Sack>, i: nat, left: U32, right: U32)
    requires i < |q|
    ensures Others(q[..i + 1], left, right)
            == Others(q[..i], left, right) + if Clear(q[i], left, right) then [q[i]] else []
    ensures |Others(q[..i], left, right)| <= i
    decreases i
  {
    if i > 0 {
      assert q[..i + 1][1..] == q[1..][..i] && q[..i][1..] == q[1..][..i - 1];
      OthersSnoc(q[1..], i - 1, left, right);
    } else {
      assert q[..1] == [q[0]] && q[..1][1..] == [] && q[..0] == [];
    }
  }

  lemma {:induction false} OthersValid(q: seq<Sack>, left: U32, right: U32)
    ensures forall x :: x in Others(q, left, right) ==> x in q
  {
    if q != [] {
      OthersValid(q[1..], left, right);
    }
  }

  /** What lies below `n` is cut off. */
  function From(q: seq<Sack>, n: U32): seq<Sack> {
    if q == [] then []
    else
      (if SeqGt(q[0].right, n) then [if SeqLt(q[0].left, n) then q[0].(left := n) else q[0]] else []) + From(q[1..], n)
  }

  /** What lies at `n` or above is cut off. */
  function UpTo(q: seq<Sack>, n: U32): seq<Sack> {
    if q == [] then []
    else
      (if SeqLt(q[0].left, n) then [if SeqGt(q[0].right, n) then q[0].(right := n) else q[0]] else []) + UpTo(q[1..], n)
  }

  lemma {:induction false} FromSnoc(q: seq<Sack>, i: nat, n: U32)
    requires i < |q|
    ensures From(q[..i + 1], n) == From(q[..i], n) + From([q[i]], n)
    ensures From([q[i]], n) ==
            if SeqGt(q[i].right, n) then [if SeqLt(q[i].left, n) then q[i].(left := n) else q[i]] else []
    decreases i
  {
    assert [q[i]][1..] == [];
    if i > 0 {
      assert q[..i + 1][1..] == q[1..][..i] && q[..i][1..] == q[1..][..i - 1];
      FromSnoc(q[1..], i - 1, n);
    } else {
      assert q[..1] == [q[0]] && q[..0] == [];
    }
  }

  lemma {:induction false} UpToSnoc(q: seq<Sack>, i: nat, n: U32)
    requires i < |q|
    ensures UpTo(q[..i + 1], n) == UpTo(q[..i], n) + UpTo([q[i]], n)
    ensures UpTo([q[i]], n) ==
            if SeqLt(q[i].left, n) then [if SeqGt(q[i].right, n) then q[i].(right := n) else q[i]] else []
    decreases i
  {
    assert [q[i]][1..] == [];
    if i > 0 {
      assert q[..i + 1][1..] == q[1..][..i] && q[..i][1..] == q[1..][..i - 1];
      UpToSnoc(q[1..], i - 1, n);
    } else {
      assert q[..1] == [q[0]] && q[..0] == [];
    }
  }

  lemma Nothing(n: U32, left: U32, right: U32)
    ensures From([], n) == UpTo([], n) == Others([], left, right) == []
  {
  }

  lemma LeftDiffers(left: U32, right: U32)
    ensures SeqLt(left, right) ==> left != right
  {
  }

  lemma {:induction false} FromValid(q: seq<Sack>, n: U32)
    requires forall x :: x in q ==> x.left != x.right
    ensures forall x :: x in From(q, n) ==> x.left != x.right
  {
    if q != [] {
      FromValid(q[1..], n);
    }
  }

  lemma {:induction false} UpToValid(q: seq<Sack>, n: U32)
    requires forall x :: x in q ==> x.left != x.right
    ensures forall x :: x in UpTo(q, n) ==> x.left != x.right
  {
    if q != [] {
      UpToValid(q[1..], n);
    }
  }

  // ---------- what that means for the sequence numbers covered ----------

  /** A sequence number close enough to `r` for all comparisons. */
  predicate Near(x: U32, r: U32) {
    -QUARTER <= Diff(x, r) < QUARTER
  }

  /** Entries that are ranges, close to `r`. */
  predicate Sound(q: seq<Sack>, r: U32) {
    q == [] || (Near(q[0].left, r) && Near(q[0].right, r) && Diff(q[0].left, r) < Diff(q[0].right, r)
                && Sound(q[1..], r))
  }

  /** `p`, counted from `r`, is covered by some entry. */
  predicate Covers(q: seq<Sack>, r: U32, p: int) {
    q != [] && (Diff(q[0].left, r) <= p < Diff(q[0].right, r) || Covers(q[1..], r, p))
  }

  predicate Apart(s: Sack, t: Sack, r: U32) {
    Diff(s.right, r) <= Diff(t.left, r) || Diff(t.right, r) <= Diff(s.left, r)
  }

  predicate ApartFromAll(s: Sack, q: seq<Sack>, r: U32) {
    q == [] || (Apart(s, q[0], r) && ApartFromAll(s, q[1..], r))
  }

  /** No two entries overlap. */
  predicate Disjoint(q: seq<Sack>, r: U32) {
    q == [] || (ApartFromAll(q[0], q[1..], r) && Disjoint(q[1..], r))
  }

  lemma {:induction false} PrefixKeeps(q: seq<Sack>, n: nat, r: U32)
    requires Sound(q, r) && Disjoint(q, r) && n <= |q|
    ensures Sound(q[..n], r) && Disjoint(q[..n], r)
    ensures forall s :: ApartFromAll(s, q, r) ==> ApartFromAll(s, q[..n], r)
    decreases n
  {
    if n > 0 {
      PrefixKeeps(q[1..], n - 1, r);
      assert q[..n] == [q[0]] + q[1..][..n - 1];
      Head(q[0], q[1..][..n - 1]);
    }
  }

  lemma {:induction false} OthersKeep(q: seq<Sack>, left: U32, right: U32, r: U32)
    requires Sound(q, r) && Disjoint(q, r) && Near(left, r) && Near(right, r)
    ensures Sound(Others(q, left, right), r) && Disjoint(Others(q, left, right), r)
    ensures ApartFromAll(Sack(left, right), Others(q, left, right), r)
    ensures forall s :: ApartFromAll(s, q, r) ==> ApartFromAll(s, Others(q, left, right), r)
  {
    if q != [] {
      OthersKeep(q[1..], left, right, r);
      DiffNear(q[0].right, left, r);
      DiffNear(right, q[0].left, r);
      if Clear(q[0], left, right) {
        Head(q[0], Others(q[1..], left, right));
      } else {
        assert [] + Others(q[1..], left, right) == Others(q[1..], left, right);
      }
    }
  }

  /** After adding a range the list is disjoint again and has the newest range in front. */
  lemma AddedKeeps(q: seq<Sack>, left: U32, right: U32, r: U32)
    requires Sound(q, r) && Disjoint(q, r) && Near(left, r) && Near(right, r) && SeqLt(left, right)
    ensures var q' := Added(q, left, right);
            && Sound(q', r) && Disjoint(q', r) && 0 < |q'| <= LWIP_TCP_MAX_SACK_NUM && q'[0] == Sack(left, right)
  {
    OthersKeep(q, left, right, r);
    DiffNear(left, right, r);
    var all := [Sack(left, right)] + Others(q, left, right);
    Head(Sack(left, right), Others(q, left, right));
    if |all| > LWIP_TCP_MAX_SACK_NUM {
      PrefixKeeps(all, LWIP_TCP_MAX_SACK_NUM, r);
    }
  }

  /** The entries that stay cover nothing new, and what goes was covered by one that overlaps the new range. */
  lemma {:induction false} OthersCover(q: seq<Sack>, left: U32, right: U32, r: U32, p: int)
    requires Sound(q, r) && Near(left, r) && Near(right, r)
    ensures Covers(Others(q, left, right), r, p) ==> Covers(q, r, p)
    ensures Covers(q, r, p) && !Covers(Others(q, left, right), r, p) ==>
              exists s :: s in q && !Clear(s, left, right) && Diff(s.left, r) <= p < Diff(s.right, r)
  {
    if q != [] {
      OthersCover(q[1..], left, right, r, p);
      if Clear(q[0], left, right) {
        Head(q[0], Others(q[1..], left, right));
      } else {
        assert [] + Others(q[1..], left, right) == Others(q[1..], left, right);
      }
      if Covers(q, r, p) && !Covers(Others(q, left, right), r, p) {
        if Diff(q[0].left, r) <= p < Diff(q[0].right, r) {
          assert q[0] in q;
        } else {
          var s :| s in q[1..] && !Clear(s, left, right) && Diff(s.left, r) <= p < Diff(s.right, r);
          assert s in q;
        }
      }
    }
  }

  predicate Holds(s: Sack, r: U32, p: int) {
    Diff(s.left, r) <= p < Diff(s.right, r)
  }

  lemma {:induction false} OthersAll(q: seq<Sack>, left: U32, right: U32)
    ensures |Others(q, left, right)| <= |q|
    ensures |Others(q, left, right)| == |q| ==> Others(q, left, right) == q
  {
    if q != [] {
      OthersAll(q[1..], left, right);
    }
  }

  lemma {:induction false} CoversConcat(a: seq<Sack>, b: seq<Sack>, r: U32, p: int)
    ensures Covers(a + b, r, p) <==> Covers(a, r, p) || Covers(b, r, p)
  {
    if a == [] {
      assert a + b == b;
    } else {
      assert (a + b)[0] == a[0] && (a + b)[1..] == a[1..] + b;
      CoversConcat(a[1..], b, r, p);
    }
  }

  lemma CoversOne(s: Sack, r: U32, p: int)
    ensures Covers([s], r, p) <==> Holds(s, r, p)
  {
    assert [s][1..] == [];
  }

  /** Adding covers the new range, and otherwise nothing new. What is no longer covered was covered by an entry that
      overlaps the new range, or by the oldest one when four are there and none overlaps. */
  lemma {:induction false} AddedCovers(q: seq<Sack>, left: U32, right: U32, r: U32, p: int)
    requires Sound(q, r) && Near(left, r) && Near(right, r) && |q| <= LWIP_TCP_MAX_SACK_NUM
    ensures Holds(Sack(left, right), r, p) ==> Covers(Added(q, left, right), r, p)
    ensures Covers(Added(q, left, right), r, p) ==> Covers(q, r, p) || Holds(Sack(left, right), r, p)
    ensures Covers(q, r, p) && !Covers(Added(q, left, right), r, p) ==>
              exists s :: s in q && Holds(s, r, p) &&
                (!Clear(s, left, right)
                 || (Others(q, left, right) == q && |q| == LWIP_TCP_MAX_SACK_NUM && s == q[|q| - 1]))
  {
    hide Covers, Clear, Sound, Others, Holds;
    var front, rest := [Sack(left, right)], Others(q, left, right);
    OthersCovered(q, left, right, r, p);
    OthersAll(q, left, right);
    CoversOne(Sack(left, right), r, p);
    CoversConcat(front, rest, r, p);
    if |rest| == LWIP_TCP_MAX_SACK_NUM {
      var last := q[|q| - 1];
      assert q == q[..|q| - 1] + [last] && (front + rest)[..LWIP_TCP_MAX_SACK_NUM] == front + q[..|q| - 1];
      CoversConcat(q[..|q| - 1], [last], r, p);
      CoversConcat(front, q[..|q| - 1], r, p);
      CoversOne(last, r, p);
    }
  }

  lemma {:induction false} OthersCovered(q: seq<Sack>, left: U32, right: U32, r: U32, p: int)
    requires Sound(q, r) && Near(left, r) && Near(right, r)
    ensures Covers(Others(q, left, right), r, p) ==> Covers(q, r, p)
    ensures Covers(q, r, p) && !Covers(Others(q, left, right), r, p) ==>
              exists s :: s in q && Holds(s, r, p) && !Clear(s, left, right)
  {
    OthersCover(q, left, right, r, p);
    if Covers(q, r, p) && !Covers(Others(q, left, right), r, p) {
      var s :| s in q && !Clear(s, left, right) && Diff(s.left, r) <= p < Diff(s.right, r);
      assert Holds(s, r, p);
    }
  }

  /** tcp_remove_sacks_lt keeps exactly what was covered at `n` and above. */
  lemma {:induction false} FromCovers(q: seq<Sack>, n: U32, r: U32, p: int)
    requires Sound(q, r) && Near(n, r)
    ensures Sound(From(q, n), r) && |From(q, n)| <= |q|
    ensures Covers(From(q, n), r, p) <==> Covers(q, r, p) && Diff(n, r) <= p
  {
    if q != [] {
      FromCovers(q[1..], n, r, p);
      DiffNear(q[0].right, n, r);
      DiffNear(q[0].left, n, r);
      if SeqGt(q[0].right, n) {
        Head(if SeqLt(q[0].left, n) then q[0].(left := n) else q[0], From(q[1..], n));
      } else {
        assert [] + From(q[1..], n) == From(q[1..], n);
      }
    }
  }

  /** tcp_remove_sacks_gt keeps exactly what was covered below `n`. */
  lemma {:induction false} UpToCovers(q: seq<Sack>, n: U32, r: U32, p: int)
    requires Sound(q, r) && Near(n, r)
    ensures Sound(UpTo(q, n), r) && |UpTo(q, n)| <= |q|
    ensures Covers(UpTo(q, n), r, p) <==> Covers(q, r, p) && p < Diff(n, r)
  {
    if q != [] {
      UpToCovers(q[1..], n, r, p);
      DiffNear(q[0].right, n, r);
      DiffNear(q[0].left, n, r);
      if SeqLt(q[0].left, n) {
        Head(if SeqGt(q[0].right, n) then q[0].(right := n) else q[0], UpTo(q[1..], n));
      } else {
        assert [] + UpTo(q[1..], n) == UpTo(q[1..], n);
      }
    }
  }

  /** Cutting entries keeps them disjoint. */
  lemma {:induction false} FromDisjoint(q: seq<Sack>, n: U32, r: U32)
    requires Sound(q, r) && Near(n, r) && Disjoint(q, r)
    ensures Disjoint(From(q, n), r)
    ensures forall s, t :: Inside(t, s, r) && ApartFromAll(s, q, r) ==> ApartFromAll(t, From(q, n), r)
  {
    if q != [] {
      FromDisjoint(q[1..], n, r);
      DiffNear(q[0].right, n, r);
      DiffNear(q[0].left, n, r);
      var x := if SeqLt(q[0].left, n) then q[0].(left := n) else q[0];
      if SeqGt(q[0].right, n) {
        Head(x, From(q[1..], n));
        assert Inside(x, q[0], r);
      } else {
        assert [] + From(q[1..], n) == From(q[1..], n);
      }
    }
  }

  lemma {:induction false} UpToDisjoint(q: seq<Sack>, n: U32, r: U32)
    requires Sound(q, r) && Near(n, r) && Disjoint(q, r)
    ensures Disjoint(UpTo(q, n), r)
    ensures forall s, t :: Inside(t, s, r) && ApartFromAll(s, q, r) ==> ApartFromAll(t, UpTo(q, n), r)
  {
    if q != [] {
      UpToDisjoint(q[1..], n, r);
      DiffNear(q[0].right, n, r);
      DiffNear(q[0].left, n, r);
      var x := if SeqGt(q[0].right, n) then q[0].(right := n) else q[0];
      if SeqLt(q[0].left, n) {
        Head(x, UpTo(q[1..], n));
        assert Inside(x, q[0], r);
      } else {
        assert [] + UpTo(q[1..], n) == UpTo(q[1..], n);
      }
    }
  }

  predicate Inside(t: Sack, s: Sack, r: U32) {
    Diff(s.left, r) <= Diff(t.left, r) && Diff(t.right, r) <= Diff(s.right, r)
  }

  // ---------- the loops over rcv_sacks ----------

  class SackPcb {
    const rcv_sacks: array<Sack>
    var sackAllowed: bool
    /** The valid entries, which stand in front. */
    ghost var entries: seq<Sack>

    ghost predicate Valid()
      reads this, rcv_sacks
    {
      && rcv_sacks.Length == LWIP_TCP_MAX_SACK_NUM && |entries| <= LWIP_TCP_MAX_SACK_NUM
      && (forall i :: 0 <= i < |entries| ==> rcv_sacks[i] == entries[i])
      && (forall x :: x in entries ==> x.left != x.right)
      && forall i :: |entries| <= i < LWIP_TCP_MAX_SACK_NUM ==> rcv_sacks[i] == UNUSED
    }

    constructor (sackAllowed: bool)
      ensures Valid() && entries == [] && fresh(rcv_sacks)
    {
      rcv_sacks := new Sack[LWIP_TCP_MAX_SACK_NUM](i => UNUSED);
      this.sackAllowed, entries := sackAllowed, [];
    }

    /** tcp_add_sack */
    method AddSack(left: U32, right: U32)
      requires Valid()
      modifies rcv_sacks, `entries
      ensures Valid()
      ensures entries == if sackAllowed && SeqLt(left, right) then Added(old(entries), left, right) else old(entries)
    {
      hide Others, SeqLt, SeqLeq;
      LeftDiffers(left, right);
      if !sackAllowed || !SeqLt(left, right) {
        return;
      }
      ghost var q := entries;
      Nothing(left, left, right);
      assert q[..0] == [];
      ghost var kept: seq<Sack> := [];
      var i, unused := 0, 0;
      while i < LWIP_TCP_MAX_SACK_NUM && rcv_sacks[i].left != rcv_sacks[i].right
        invariant 0 <= unused <= i <= |q| && entries == q
        invariant |kept| == unused && kept == Others(q[..i], left, right)
        invariant forall j :: 0 <= j < unused ==> rcv_sacks[j] == kept[j]
        invariant forall j :: i <= j < LWIP_TCP_MAX_SACK_NUM ==> rcv_sacks[j] == if j < |q| then q[j] else UNUSED
      {
        OthersSnoc(q, i, left, right);
        kept := kept + if Clear(q[i], left, right) then [q[i]] else [];
        if SeqLeq(rcv_sacks[i].right, left) || SeqLeq(right, rcv_sacks[i].left) {
          if unused != i {
            rcv_sacks[unused] := rcv_sacks[i];
          }
          unused := unused + 1;
        }
        i := i + 1;
      }
      assert q[..i] == q;
      OthersValid(q, left, right);
      assert rcv_sacks[..unused] == kept;
      PushFront(unused, Sack(left, right));
      entries := Added(q, left, right);
    }

    /** The end of tcp_add_sack: shift the first `unused` entries back and put `x` in front. */
    method PushFront(unused: nat, x: Sack)
      requires rcv_sacks.Length == LWIP_TCP_MAX_SACK_NUM && unused <= LWIP_TCP_MAX_SACK_NUM
      modifies rcv_sacks
      ensures rcv_sacks[0] == x
      ensures forall j :: 0 < j < LWIP_TCP_MAX_SACK_NUM ==>
                rcv_sacks[j] == if j - 1 < unused then old(rcv_sacks[j - 1]) else UNUSED
    {
      var i := LWIP_TCP_MAX_SACK_NUM - 1;
      while i > 0
        invariant 0 <= i < LWIP_TCP_MAX_SACK_NUM
        invariant forall j :: 0 <= j <= i ==> rcv_sacks[j] == old(rcv_sacks[j])
        invariant forall j :: i < j < LWIP_TCP_MAX_SACK_NUM ==>
                    rcv_sacks[j] == if j - 1 < unused then old(rcv_sacks[j - 1]) else UNUSED
      {
        if i - 1 >= unused {
          rcv_sacks[i] := UNUSED;
        } else {
          rcv_sacks[i] := rcv_sacks[i - 1];
        }
        i := i - 1;
      }
      rcv_sacks[0] := x;
    }

    /** tcp_remove_sacks_lt */
    method RemoveLt(n: U32)
      requires Valid()
      modifies rcv_sacks, `entries
      ensures Valid()
      ensures entries == From(old(entries), n)
    {
      hide From, UpTo, SeqLt, SeqGt, Diff;
      ghost var q := entries;
      Nothing(n, n, n);
      assert q[..0] == [];
      ghost var kept: seq<Sack> := [];
      var i, unused := 0, 0;
      while i < LWIP_TCP_MAX_SACK_NUM && rcv_sacks[i].left != rcv_sacks[i].right
        invariant 0 <= unused <= i <= |q| && entries == q
        invariant |kept| == unused && kept == From(q[..i], n)
        invariant forall j :: 0 <= j < unused ==> rcv_sacks[j] == kept[j]
        invariant forall j :: i <= j < LWIP_TCP_MAX_SACK_NUM ==> rcv_sacks[j] == if j < |q| then q[j] else UNUSED
      {
        FromSnoc(q, i, n);
        kept := kept + From([q[i]], n);
        if SeqGt(rcv_sacks[i].right, n) {
          if unused != i {
            rcv_sacks[unused] := rcv_sacks[i];
          }
          if SeqLt(rcv_sacks[unused].left, n) {
            rcv_sacks[unused] := rcv_sacks[unused].(left := n);
          }
          unused := unused + 1;
        }
        i := i + 1;
      }
      assert q[..i] == q;
      FromValid(q, n);
      assert rcv_sacks[..unused] == kept;
      Invalidate(unused);
      entries := From(q, n);
    }

    /** tcp_remove_sacks_gt */
    method RemoveGt(n: U32)
      requires Valid()
      modifies rcv_sacks, `entries
      ensures Valid()
      ensures entries == UpTo(old(entries), n)
    {
      hide From, UpTo, SeqLt, SeqGt, Diff;
      ghost var q := entries;
      Nothing(n, n, n);
      assert q[..0] == [];
      ghost var kept: seq<Sack> := [];
      var i, unused := 0, 0;
      while i < LWIP_TCP_MAX_SACK_NUM && rcv_sacks[i].left != rcv_sacks[i].right
        invariant 0 <= unused <= i <= |q| && entries == q
        invariant |kept| == unused && kept == UpTo(q[..i], n)
        invariant forall j :: 0 <= j < unused ==> rcv_sacks[j] == kept[j]
        invariant forall j :: i <= j < LWIP_TCP_MAX_SACK_NUM ==> rcv_sacks[j] == if j < |q| then q[j] else UNUSED
      {
        UpToSnoc(q, i, n);
        kept := kept + UpTo([q[i]], n);
        if SeqLt(rcv_sacks[i].left, n) {
          if unused != i {
            rcv_sacks[unused] := rcv_sacks[i];
          }
          if SeqGt(rcv_sacks[unused].right, n) {
            rcv_sacks[unused] := rcv_sacks[unused].(right := n);
          }
          unused := unused + 1;
        }
        i := i + 1;
      }
      assert q[..i] == q;
      UpToValid(q, n);
      assert rcv_sacks[..unused] == kept;
      Invalidate(unused);
      entries := UpTo(q, n);
    }

    /** The last loop of both. */
    method Invalidate(unused: nat)
      requires rcv_sacks.Length == LWIP_TCP_MAX_SACK_NUM && unused <= LWIP_TCP_MAX_SACK_NUM
      modifies rcv_sacks
      ensures rcv_sacks[..unused] == old(rcv_sacks[..unused])
      ensures forall j :: unused <= j < LWIP_TCP_MAX_SACK_NUM ==> rcv_sacks[j] == UNUSED
    {
      var i := unused;
      while i < LWIP_TCP_MAX_SACK_NUM
        invariant unused <= i <= LWIP_TCP_MAX_SACK_NUM && rcv_sacks[..unused] == old(rcv_sacks[..unused])
        invariant forall j :: unused <= j < i ==> rcv_sacks[j] == UNUSED
      {
        rcv_sacks[i] := UNUSED;
        i := i + 1;
      }
    }
  }
}
