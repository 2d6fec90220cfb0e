/** The loop of pbuf_copy (core/c/core/pbuf.c:976-1009) on the lengths of the buffers alone: when it takes an empty
    buffer at the end of a chain for a second packet. */
module PbufCopy {

  datatype Outcome = Done | TooShort | TwoPackets

  function Total(l: seq<nat>): nat {
    if l == [] then 0 else l[0] + Total(l[1..])
  }

  /** The list without the first `n` bytes of its head; a head that is done goes away. */
  function Less(l: seq<nat>, n: nat): seq<nat>
    requires l != [] && n <= l[0]
  {
    if n == l[0] then l[1..] else [l[0] - n] + l[1..]
  }

  /** The test of the loop passes: the buffer in hand is the last one, or bytes follow it. */
  predicate Fine(l: seq<nat>) {
    |l| <= 1 || Total(l[1..]) > 0
  }

  /** The loop: `to` and `from` are what is left of both chains, buffer by buffer. */
  function Walk(to: seq<nat>, from: seq<nat>): Outcome
    requires to != [] && from != []
    decreases |to| + |from|
  {
    var n := if to[0] >= from[0] then from[0] else to[0];
    var to', from' := Less(to, n), Less(from, n);
    if to' == [] && from' != [] then TooShort
    else if !Fine(from') || !Fine(to') then TwoPackets
    else if from' == [] then Done
    else Walk(to', from')
  }

  /** One turn of the loop. */
  lemma Turn(to: seq<nat>, from: seq<nat>, n: nat)
    requires to != [] && from != [] && n == if to[0] >= from[0] then from[0] else to[0]
    ensures var to', from' := Less(to, n), Less(from, n);
            Walk(to, from) == if to' == [] && from' != [] then TooShort
                              else if !Fine(from') || !Fine(to') then TwoPackets
                              else if from' == [] then Done else Walk(to', from')
  {
  }

  /** No empty buffer at the end, but for a chain of one. */
  predicate Proper(l: seq<nat>)
    requires l != []
  {
    |l| == 1 || l[|l| - 1] > 0
  }

  /** Bytes follow the buffer at which `n` bytes leave the loop: the one they end in or, if they fill it, the next. */
  predicate Beyond(l: seq<nat>, n: nat) {
    if l == [] then false
    else if n > l[0] then Beyond(l[1..], n - l[0])
    else if n < l[0] then Total(l[1..]) > 0
    else |l| >= 2 && Total(l[2..]) > 0
  }

  /** When copying succeeds: no chain has an empty buffer at the end; or the target has, but the loop stays in front of
      its last bytes; or the first buffers decide it before the test gets that far. */
  predicate CopyFits(to: seq<nat>, from: seq<nat>)
    requires to != [] && from != []
  {
    || (Proper(from) && Proper(to))
    || (Proper(from) && Total(to[1..]) > 0 && Beyond(to, Total(from)))
    || (|from| == 1 && |to| == 2 && to[1] == 0 && from[0] == to[0])
    || (|from| == 2 && from[1] == 0 && from[0] <= to[0]
        && if from[0] < to[0] then Fine(to) else |to| >= 2 && Fine(to[1..]) && (to[1] == 0 ==> Fine(to[2..])))
  }

  lemma {:induction false} TotalZero(l: seq<nat>)
    requires l != [] && l[|l| - 1] > 0
    ensures Total(l) > 0
  {
    if |l| > 1 {
      TotalZero(l[1..]);
    }
  }

  lemma LessTotal(l: seq<nat>, n: nat)
    requires l != [] && n <= l[0]
    ensures Total(Less(l, n)) == Total(l) - n
  {
  }

  /** A proper chain stays proper, and an improper one improper, while the loop goes through it. */
  lemma LessProper(l: seq<nat>, n: nat)
    requires l != [] && n <= l[0] && Fine(l) && Less(l, n) != []
    ensures Proper(Less(l, n)) <==> Proper(l)
    ensures Fine(Less(l, n)) || !Proper(l)
  {
    if n == l[0] && |l| > 2 && Proper(l) {
      TotalZero(l[2..]);
      assert l[1..][1..] == l[2..];
    }
    if |l| == 2 {
      assert l[1..][1..] == [];
    }
  }

  lemma LessBeyond(l: seq<nat>, n: nat, total: nat)
    requires l != [] && n <= l[0] && n <= total && Fine(l) && (n == l[0] ==> total > n)
    ensures Beyond(Less(l, n), total - n) <==> Beyond(l, total)
  {
    if n < l[0] && |l| >= 2 {
      assert Less(l, n)[2..] == l[2..];
    }
  }

  /** Where only empty buffers are left, nothing follows. */
  lemma NothingBeyond(l: seq<nat>, n: nat)
    requires l != [] && !Fine(l) && n <= Total(l)
    ensures !Beyond(l, n)
  {
    assert l[1..][1..] == l[2..];
  }

  lemma LastFills(to: seq<nat>)
    requires |to| >= 2 && Fine(to)
    ensures Fine(to[1..]) <==> Proper(to) || Total(to[2..]) > 0
  {
    assert to[1..][1..] == to[2..];
    if |to| > 2 && Proper(to) {
      TotalZero(to[2..]);
    }
    if |to| == 2 {
      assert Total(to[1..]) == to[1] by {
        assert to[1..][1..] == [];
      }
    }
  }

  /** Where both tests have passed, only empty buffers at the ends can still stop the loop. */
  lemma {:induction false} WalkIff(to: seq<nat>, from: seq<nat>)
    requires to != [] && from != [] && Fine(to) && Fine(from) && Total(from) <= Total(to)
    ensures Walk(to, from).Done? <==> Proper(from) && (Proper(to) || Beyond(to, Total(from)))
    decreases |to| + |from|
  {
    hide Walk, Beyond, Proper, Total, Less;
    var n := if to[0] >= from[0] then from[0] else to[0];
    var to', from' := Less(to, n), Less(from, n);
    Turn(to, from, n);
    LessTotal(to, n);
    LessTotal(from, n);
    LeftTotal(from, n);
    LeftTotal(to, n);
    if from' == [] {
      LastTurn(to, from, n);
    } else if to' == [] {
      assert false;
    } else {
      LessProper(from, n);
      LessProper(to, n);
      LessBeyond(to, n, Total(from));
      if Fine(from') {
        if Fine(to') {
          WalkIff(to', from');
        } else {
          NothingBeyond(to', Total(from'));
        }
      }
    }
  }

  lemma LeftTotal(l: seq<nat>, n: nat)
    requires l != [] && n <= l[0] && Fine(l)
    ensures if Less(l, n) == [] then Total(Less(l, n)) == 0 else Total(Less(l, n)) > 0
    ensures |Less(l, n)| == |l| - if n == l[0] then 1 else 0
  {
  }

  /** The last turn, when the source is done. */
  lemma LastTurn(to: seq<nat>, from: seq<nat>, n: nat)
    requires to != [] && from != [] && Fine(to) && Total(from) <= Total(to)
    requires n == (if to[0] >= from[0] then from[0] else to[0]) && Less(from, n) == []
    ensures Proper(from) && Total(from) == n
    ensures Fine(Less(to, n)) <==> Proper(to) || Beyond(to, Total(from))
  {
    if n == to[0] && |to| > 1 {
      LastFills(to);
    }
  }

  lemma FitsFine(to: seq<nat>, from: seq<nat>)
    requires to != [] && from != [] && Fine(to) && Fine(from)
    ensures CopyFits(to, from) <==> Proper(from) && (Proper(to) || Beyond(to, Total(from)))
  {
    OneBehind(to);
    OneBehind(from);
    if |to| == 1 {
      assert to[1..] == [];
    }
  }

  lemma OneBehind(l: seq<nat>)
    ensures |l| == 2 ==> Total(l[1..]) == l[1]
    ensures |l| > 1 && Proper(l) ==> Total(l[1..]) > 0
    ensures |l| > 1 && Total(l[1..]) == 0 ==> l[1] == 0 && Total(l[2..]) == 0 && !Proper(l)
  {
    if |l| > 1 {
      assert l[1..][1..] == l[2..];
      if l[|l| - 1] > 0 {
        TotalZero(l[1..]);
      }
      if |l| == 2 {
        assert l[2..] == [];
      }
    }
  }

  /** All bytes fit the first buffer of the target, and empty ones follow it. */
  lemma TargetDone(to: seq<nat>, from: seq<nat>)
    requires to != [] && from != [] && Total(from) <= Total(to) && Fine(from) && !Fine(to)
    ensures Walk(to, from).Done? <==> |from| == 1 && |to| == 2 && from[0] == to[0]
    ensures CopyFits(to, from) <==> |from| == 1 && |to| == 2 && from[0] == to[0]
  {
    OneBehind(to);
    OneBehind(from);
    OneBehind(to[1..]);
    assert to[1..][1..] == to[2..];
  }

  /** All bytes to be copied are in the first buffer, and empty ones follow it. */
  lemma SourceDone(to: seq<nat>, from: seq<nat>)
    requires to != [] && from != [] && Total(from) <= Total(to) && !Fine(from)
    ensures Walk(to, from).Done? <==> CopyFits(to, from)
  {
    OneBehind(from);
    assert from[1..][1..] == from[2..];
    if from[0] <= to[0] && |from| == 2 {
      assert from[2..] == [];
      var to', from' := Less(to, from[0]), from[1..];
      assert from'[1..] == [];
      if to' != [] && Fine(to') {
        assert Walk(to, from) == Walk(to', from');
      }
    }
  }

  /** The exact condition under which pbuf_copy succeeds, on the chains as they are before the call. */
  lemma CopyIff(to: seq<nat>, from: seq<nat>)
    requires to != [] && from != [] && Total(from) <= Total(to)
    ensures Walk(to, from).Done? <==> CopyFits(to, from)
  {
    hide Walk, CopyFits, Proper, Beyond, Total;
    if !Fine(from) {
      SourceDone(to, from);
    } else if !Fine(to) {
      TargetDone(to, from);
    } else {
      WalkIff(to, from);
      FitsFine(to, from);
    }
  }

  /** Without empty buffers at the ends it always succeeds. */
  lemma NoEmptyEnd(to: seq<nat>, from: seq<nat>)
    requires to != [] && from != [] && Total(from) <= Total(to) && to[|to| - 1] > 0 && from[|from| - 1] > 0
    ensures Walk(to, from).Done?
  {
    CopyIff(to, from);
  }

  /** Failures: a source of the same length as the target, with an empty buffer behind it, is too long for it; with
      bytes in two buffers it is taken for two packets; and so is a target, though all bytes are copied. */
  lemma EmptyEndFails(x: nat, y: nat)
    requires x > 0 && y > 0
    ensures Walk([x], [x, 0]) == TooShort && Walk([x, y], [x, y, 0]) == TwoPackets
            && Walk([x + y, 0], [x]) == TwoPackets
    ensures Walk([x, 0], [x]) == Done
  {
    assert [x, 0][1..] == [0] && [x][1..] == [] && [0][1..] == [];
    assert [x, y, 0][1..] == [y, 0] && [y, 0][1..] == [0] && [x, y][1..] == [y] && [y][1..] == [];
    assert [x + y, 0][1..] == [0] && Less([x + y, 0], x) == [y, 0];
  }
}
