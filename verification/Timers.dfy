/** The timer list of timeouts.c: sorted insertion on the 32-bit clock, removal, rebasing, and the sweep of
    sys_check_timeouts. */
module Timers {
  import opened Seqs
  import opened Words
  import opened Seq32

  const EIGHTH: int := 0x2000_0000

  /** Which handler a timer runs, with what argument: lwip_cyclic_timer with its table entry, or some other one. */
  datatype Kind = Cyclic(id: nat, interval: nat) | OneShot(handler: nat, arg: nat)

  /** struct sys_timeo */
  datatype Timer = Timer(time: U32, kind: Kind)

  /** TIME_LESS_THAN */
  predicate TimeLess(t: U32, than: U32) {
    (t - than) % WRAP > 0x7FFF_FFFF
  }

  // ---------- due times as integers ----------

  /** The first time from `lo` on that the clock shows `t`. */
  function Due(t: U32, lo: int): int {
    lo + (t - lo) % WRAP
  }

  /** Due times in order, from `d` on and within half a turn from `lo`. */
  ghost predicate Sorted(q: seq<Timer>, lo: int, d: int) {
    q == [] || (lo <= d <= Due(q[0].time, lo) < lo + HALF && Sorted(q[1..], lo, Due(q[0].time, lo)))
  }

  lemma LessIsLess(x: U32, y: U32, lo: int)
    requires Due(x, lo) < lo + HALF && Due(y, lo) < lo + HALF
    ensures TimeLess(x, y) <==> Due(x, lo) < Due(y, lo)
  {
    var a, b := (x - lo) % WRAP, (y - lo) % WRAP;
    var k, l := (x - lo) / WRAP, (y - lo) / WRAP;
    assert x - lo == k * WRAP + a && y - lo == l * WRAP + b;
    assert x - y == (k - l) * WRAP + (a - b);
  }

  /** A time within a turn from `lo` is its own due time. */
  lemma DueOf(p: int, lo: int)
    requires lo <= p < lo + WRAP
    ensures Due(p % WRAP, lo) == p
  {
    var k := p / WRAP;
    assert p % WRAP - lo == (p - lo) + (-k) * WRAP;
  }

  lemma {:induction false} SortedBound(q: seq<Timer>, lo: int, d: int, i: nat)
    requires Sorted(q, lo, d) && i < |q|
    ensures d <= Due(q[i].time, lo) < lo + HALF && Due(q[0].time, lo) <= Due(q[i].time, lo)
  {
    if i > 0 {
      SortedBound(q[1..], lo, Due(q[0].time, lo), i - 1);
    }
  }

  // ---------- insertion ----------

  /** sys_timeout_abs: in front of the first timer that is due later. */
  function Insert(q: seq<Timer>, x: Timer): seq<Timer> {
    if q == [] || TimeLess(x.time, q[0].time) then [x] + q else [q[0]] + Insert(q[1..], x)
  }

  lemma {:induction false} InsertKeepsSorted(q: seq<Timer>, x: Timer, lo: int, d: int)
    requires Sorted(q, lo, d) && lo <= d <= Due(x.time, lo) < lo + HALF
    ensures Sorted(Insert(q, x), lo, d)
    decreases |q|
  {
    hide Due;
    if q != [] {
      LessIsLess(x.time, q[0].time, lo);
      if TimeLess(x.time, q[0].time) {
        Head(x, q);
      } else {
        InsertKeepsSorted(q[1..], x, lo, Due(q[0].time, lo));
        Head(q[0], Insert(q[1..], x));
      }
    } else {
      Head(x, q);
    }
  }

  /** A new timer goes behind all that are due no later, so that timers due at the same time run in the order in which
      they were started. */
  lemma {:induction false} FirstInFirstOut(q: seq<Timer>, x: Timer, lo: int, d: int) returns (i: nat)
    requires Sorted(q, lo, d) && lo <= d <= Due(x.time, lo) < lo + HALF
    ensures i <= |q| && Insert(q, x) == q[..i] + [x] + q[i..]
    ensures forall j :: 0 <= j < i ==> Due(q[j].time, lo) <= Due(x.time, lo)
    ensures forall j :: i <= j < |q| ==> Due(x.time, lo) < Due(q[j].time, lo)
    decreases |q|
  {
    hide Due;
    if q == [] {
      i := 0;
    } else {
      LessIsLess(x.time, q[0].time, lo);
      if TimeLess(x.time, q[0].time) {
        i := 0;
        forall j | 0 <= j < |q| ensures Due(x.time, lo) < Due(q[j].time, lo) {
          SortedBound(q, lo, d, j);
        }
      } else {
        var k := FirstInFirstOut(q[1..], x, lo, Due(q[0].time, lo));
        i := k + 1;
        assert q[..i] == [q[0]] + q[1..][..k] && q[i..] == q[1..][k..];
        forall j | 0 <= j < i ensures Due(q[j].time, lo) <= Due(x.time, lo) {
          assert j > 0 ==> q[j] == q[1..][j - 1];
        }
        forall j | i <= j < |q| ensures Due(x.time, lo) < Due(q[j].time, lo) {
          assert q[j] == q[1..][j - 1];
        }
      }
    }
  }

  // ---------- removal and rebasing ----------

  /** sys_untimeout takes out the first timer of a kind. */
  function Remove(q: seq<Timer>, k: Kind): seq<Timer> {
    if q == [] then [] else if q[0].kind == k then q[1..] else [q[0]] + Remove(q[1..], k)
  }

  lemma {:induction false} RemoveKeepsSorted(q: seq<Timer>, k: Kind, lo: int, d: int)
    requires Sorted(q, lo, d)
    ensures Sorted(Remove(q, k), lo, d)
    decreases |q|
  {
    if q != [] {
      if q[0].kind == k {
        if q[1..] != [] {
          assert Sorted(q[1..], lo, d);
        }
      } else {
        RemoveKeepsSorted(q[1..], k, lo, Due(q[0].time, lo));
        Head(q[0], Remove(q[1..], k));
      }
    }
  }

  /** sys_restart_timeouts moves every time by the same amount. */
  function Rebased(q: seq<Timer>, base: U32, now: U32): seq<Timer> {
    if q == [] then [] else [Shifted(q[0], base, now)] + Rebased(q[1..], base, now)
  }

  function Shifted(t: Timer, base: U32, now: U32): Timer {
    t.(time := ((t.time - base) % WRAP + now) % WRAP)
  }

  /** After rebasing the list is in order from `now` on, and each timer is as far from the first one as it was. */
  lemma {:induction false} RebasedSorted(q: seq<Timer>, base: int, d: int, now: int)
    requires Sorted(q, base, d)
    ensures Sorted(Rebased(q, base % WRAP, now % WRAP), now, now + (d - base))
    ensures |Rebased(q, base % WRAP, now % WRAP)| == |q|
    ensures forall i :: 0 <= i < |q| ==>
              Due(Rebased(q, base % WRAP, now % WRAP)[i].time, now) - now == Due(q[i].time, base) - base
              && Rebased(q, base % WRAP, now % WRAP)[i].kind == q[i].kind
    decreases |q|
  {
    if q != [] {
      RebasedDue(q[0].time, base, now);
      RebasedSorted(q[1..], base, Due(q[0].time, base), now);
      var r, rest := Rebased(q, base % WRAP, now % WRAP), Rebased(q[1..], base % WRAP, now % WRAP);
      Head(r[0], rest);
      assert r == [r[0]] + rest;
      forall i | 1 <= i < |q| ensures r[i] == rest[i - 1] && q[i] == q[1..][i - 1] {
      }
    }
  }

  lemma RebasedDue(t: U32, base: int, now: int)
    ensures Due(((t - base % WRAP) % WRAP + now % WRAP) % WRAP, now) - now == Due(t, base) - base
  {
    var a := (t - base) % WRAP;
    assert (t - base % WRAP) % WRAP == a by {
      ModShift(t - base % WRAP, t - base, base / WRAP);
    }
    ModShift(now + a, a + now % WRAP, now / WRAP);
    DueOf(now + a, now);
  }

  lemma ModShift(x: int, y: int, k: int)
    requires x == y + k * WRAP
    ensures x % WRAP == y % WRAP
  {
  }

  // ---------- how often a timer can run in one sweep ----------

  /** How often a timer due at `due` can still run in a sweep that started at `now`. */
  function Weight(due: int, now: int): nat {
    if due > now then 0 else if due == now then 1 else 2
  }

  /** The same, summed over the timers of one kind. */
  function Load(q: seq<Timer>, lo: int, now: int, k: Kind): nat {
    if q == [] then 0 else (if q[0].kind == k then Weight(Due(q[0].time, lo), now) else 0) + Load(q[1..], lo, now, k)
  }

  function Total(q: seq<Timer>, lo: int, now: int): nat {
    if q == [] then 0 else Weight(Due(q[0].time, lo), now) + Total(q[1..], lo, now)
  }

  function Runs(log: seq<Timer>, k: Kind): nat {
    if log == [] then 0 else (if log[0].kind == k then 1 else 0) + Runs(log[1..], k)
  }

  function Count(q: seq<Timer>, k: Kind): nat {
    Runs(q, k)
  }

  lemma RunsSnoc(log: seq<Timer>, t: Timer, k: Kind)
    ensures Runs(log + [t], k) == Runs(log, k) + if t.kind == k then 1 else 0
  {
    if log == [] {
      assert log + [t] == [t] && [t][1..] == [];
    } else {
      assert (log + [t])[0] == log[0] && (log + [t])[1..] == log[1..] + [t];
      RunsSnoc(log[1..], t, k);
    }
  }

  lemma LoadTwice(q: seq<Timer>, lo: int, now: int, k: Kind)
    ensures Load(q, lo, now, k) <= 2 * Count(q, k)
  {
  }

  lemma {:induction false} InsertLoad(q: seq<Timer>, x: Timer, lo: int, now: int)
    ensures Total(Insert(q, x), lo, now) == Total(q, lo, now) + Weight(Due(x.time, lo), now)
    ensures forall k :: Load(Insert(q, x), lo, now, k) ==
                        Load(q, lo, now, k) + if x.kind == k then Weight(Due(x.time, lo), now) else 0
    ensures forall t :: t in Insert(q, x) <==> t in q || t == x
    ensures multiset(Insert(q, x)) == multiset(q) + multiset{x}
  {
    hide Due, Weight;
    if q == [] || TimeLess(x.time, q[0].time) {
      Head(x, q);
    } else {
      InsertLoad(q[1..], x, lo, now);
      Head(q[0], Insert(q[1..], x));
      assert q == [q[0]] + q[1..];
    }
  }

  /** What Remove takes out. */
  function Cut(q: seq<Timer>, k: Kind): seq<Timer> {
    if q == [] then [] else if q[0].kind == k then [q[0]] else Cut(q[1..], k)
  }

  lemma {:induction false} RemoveLoad(q: seq<Timer>, kind: Kind, lo: int, now: int)
    ensures Total(Remove(q, kind), lo, now) <= Total(q, lo, now)
    ensures forall k :: Load(Remove(q, kind), lo, now, k) <= Load(q, lo, now, k)
    ensures forall t :: t in Remove(q, kind) ==> t in q
    ensures multiset(q) == multiset(Remove(q, kind)) + multiset(Cut(q, kind))
  {
    hide Due, Weight;
    if q != [] {
      assert q == [q[0]] + q[1..];
      if q[0].kind != kind {
        RemoveLoad(q[1..], kind, lo, now);
        Head(q[0], Remove(q[1..], kind));
      }
    }
  }

  /** The timer that goes is the first one of its kind, and the only one. */
  lemma {:induction false} RemovesFirst(q: seq<Timer>, k: Kind) returns (i: nat)
    ensures i <= |q| && (forall j :: 0 <= j < i ==> q[j].kind != k)
    ensures if i == |q| then Remove(q, k) == q && Cut(q, k) == []
            else q[i].kind == k && Remove(q, k) == q[..i] + q[i + 1..] && Cut(q, k) == [q[i]]
  {
    if q == [] || q[0].kind == k {
      i := 0;
    } else {
      var j := RemovesFirst(q[1..], k);
      i := j + 1;
      if j < |q[1..]| {
        Without(q, j);
      }
    }
  }

  lemma Without(q: seq<Timer>, j: nat)
    requires j + 1 < |q|
    ensures q[..j + 1] + q[j + 2..] == [q[0]] + (q[1..][..j] + q[1..][j + 1..])
  {
  }

  // ---------- what becomes of the timers in a sweep ----------

  /** What a handler does with other timers: sys_timeout or sys_untimeout. */
  datatype Action = Start(msecs: nat, kind: Kind) | Cancel(kind: Kind)

  predicate ActionOk(a: Action) {
    a.Start? ==> 0 < a.msecs <= 0x3FFF_FFFF && KindOk(a.kind)
  }

  /** Every cyclic timer has an interval, and not too long a one. */
  predicate KindOk(k: Kind) {
    k.Cyclic? ==> 0 < k.interval < QUARTER
  }

  /** The list after one action, when the clock reads `c`; and after several. */
  function Done(q: seq<Timer>, a: Action, c: int): seq<Timer> {
    match a
    case Start(msecs, kind) => Insert(q, Timer((c + msecs) % WRAP, kind))
    case Cancel(kind) => Remove(q, kind)
  }

  function Acted(q: seq<Timer>, s: seq<Action>, c: int): seq<Timer> {
    if s == [] then q else Done(Acted(q, s[..|s| - 1], c), s[|s| - 1], c)
  }

  /** The timers that the actions cancel, and those that they start. */
  function Cuts(q: seq<Timer>, s: seq<Action>, c: int): seq<Timer> {
    if s == [] then [] else
      var front, a := s[..|s| - 1], s[|s| - 1];
      Cuts(q, front, c) + if a.Cancel? then Cut(Acted(q, front, c), a.kind) else []
  }

  function StartedBy(s: seq<Action>, c: int): seq<Timer> {
    if s == [] then [] else
      var a := s[|s| - 1];
      StartedBy(s[..|s| - 1], c) + if a.Start? then [Timer((c + a.msecs) % WRAP, a.kind)] else []
  }

  /** A cyclic timer that ran, started anew at `c`. */
  function Again(t: Timer, lo: int, c: int): Timer
    requires t.kind.Cyclic?
  {
    var due := Due(t.time, lo) + t.kind.interval;
    t.(time := (if due < c then c + t.kind.interval else due) % WRAP)
  }

  /** It stands one interval behind its last due time or, if that is past, one interval from now; so it is never due at
      once again. */
  lemma AgainMeans(t: Timer, lo: int, c: int)
    requires t.kind.Cyclic? && KindOk(t.kind) && Due(t.time, lo) <= lo + EIGHTH <= c <= lo + 2 * EIGHTH
    ensures var due := Due(Again(t, lo, c).time, lo);
            && Again(t, lo, c).kind == t.kind && c <= due
            && (due == Due(t.time, lo) + t.kind.interval <==> c <= Due(t.time, lo) + t.kind.interval)
            && (due == c + t.kind.interval <==> Due(t.time, lo) + t.kind.interval < c || Due(t.time, lo) == c)
  {
    var due := Due(t.time, lo) + t.kind.interval;
    DueOf(due, lo);
    DueOf(c + t.kind.interval, lo);
  }

  /** All timers that handlers started in the first `n` turns: the n-th one at the reading 2n + 1 of the clock. */
  function Started(acts: nat -> seq<Action>, clock: nat -> nat, n: nat): seq<Timer> {
    if n == 0 then [] else Started(acts, clock, n - 1) + StartedBy(acts(n - 1), clock(2 * n - 1))
  }

  /** The cyclic timers of `log`, started anew: the n-th one at the reading 2n + 2. */
  function Restarted(log: seq<Timer>, clock: nat -> nat, lo: int): seq<Timer> {
    if log == [] then [] else
      var t := log[|log| - 1];
      Restarted(log[..|log| - 1], clock, lo) + if t.kind.Cyclic? then [Again(t, lo, clock(2 * |log|))] else []
  }

  /** No timer is lost or doubled: what was in the list and what was started are what is in it, has run or was
      cancelled. */
  ghost predicate Balanced(q0: seq<Timer>, started: seq<Timer>, again: seq<Timer>,
                           q: seq<Timer>, log: seq<Timer>, cancelled: seq<Timer>) {
    && multiset(q0) + multiset(started) + multiset(again) == multiset(q) + multiset(log) + multiset(cancelled)
    && forall k :: Count(q0, k) + Count(started, k) + Count(again, k)
        == Count(q, k) + Runs(log, k) + Count(cancelled, k)
  }

  lemma {:induction false} RunsConcat(a: seq<Timer>, b: seq<Timer>, k: Kind)
    ensures Runs(a + b, k) == Runs(a, k) + Runs(b, k)
  {
    if a == [] {
      assert a + b == b;
    } else {
      RunsConcat(a[1..], b, k);
      Head(a[0], a[1..] + b);
      assert a + b == [a[0]] + (a[1..] + b);
    }
  }

  lemma {:induction false} InsertRuns(q: seq<Timer>, x: Timer, k: Kind)
    ensures Runs(Insert(q, x), k) == Runs(q, k) + if x.kind == k then 1 else 0
  {
    if q == [] || TimeLess(x.time, q[0].time) {
      Head(x, q);
    } else {
      InsertRuns(q[1..], x, k);
      Head(q[0], Insert(q[1..], x));
    }
  }

  lemma {:induction false} RemoveRuns(q: seq<Timer>, kind: Kind, k: Kind)
    ensures Runs(q, k) == Runs(Remove(q, kind), k) + Runs(Cut(q, kind), k)
  {
    if q != [] {
      if q[0].kind == kind {
        assert [q[0]][1..] == [];
      } else {
        RemoveRuns(q[1..], kind, k);
        Head(q[0], Remove(q[1..], kind));
      }
    }
  }

  lemma BalancedStart(q: seq<Timer>)
    ensures Balanced(q, [], [], q, [], [])
  {
  }

  lemma BalancedPop(q0: seq<Timer>, st: seq<Timer>, ag: seq<Timer>, q: seq<Timer>, log: seq<Timer>, can: seq<Timer>)
    requires Balanced(q0, st, ag, q, log, can) && q != []
    ensures Balanced(q0, st, ag, q[1..], log + [q[0]], can)
  {
    assert q == [q[0]] + q[1..] && multiset(log + [q[0]]) == multiset(log) + multiset{q[0]};
    forall k ensures Count(q0, k) + Count(st, k) + Count(ag, k)
                     == Count(q[1..], k) + Runs(log + [q[0]], k) + Count(can, k) {
      RunsSnoc(log, q[0], k);
    }
  }

  lemma BalancedAgain(q0: seq<Timer>, st: seq<Timer>, ag: seq<Timer>, q: seq<Timer>, log: seq<Timer>, can: seq<Timer>,
                      x: Timer)
    requires Balanced(q0, st, ag, q, log, can)
    ensures Balanced(q0, st, ag + [x], Insert(q, x), log, can)
  {
    InsertLoad(q, x, 0, 0);
    assert multiset(ag + [x]) == multiset(ag) + multiset{x};
    OneMore(multiset(q0), multiset(st), multiset(ag), multiset(q), multiset(log), multiset(can), multiset{x});
    forall k ensures Count(q0, k) + Count(st, k) + Count(ag + [x], k)
                     == Count(Insert(q, x), k) + Runs(log, k) + Count(can, k) {
      RunsSnoc(ag, x, k);
      InsertRuns(q, x, k);
    }
  }

  lemma BalancedDone(q0: seq<Timer>, st: seq<Timer>, ag: seq<Timer>, q: seq<Timer>, log: seq<Timer>, can: seq<Timer>,
                     a: Action, c: int)
    requires Balanced(q0, st, ag, q, log, can)
    ensures Balanced(q0, st + (if a.Start? then [Timer((c + a.msecs) % WRAP, a.kind)] else []), ag, Done(q, a, c), log,
                     can + if a.Cancel? then Cut(q, a.kind) else [])
  {
    match a
    case Start(msecs, kind) =>
      assert can + [] == can;
      BalancedAdd(q0, st, ag, q, log, can, Timer((c + msecs) % WRAP, kind));
    case Cancel(kind) =>
      assert st + [] == st;
      BalancedCut(q0, st, ag, q, log, can, kind);
  }

  lemma OneMore(a: multiset<Timer>, b: multiset<Timer>, c: multiset<Timer>, d: multiset<Timer>, e: multiset<Timer>,
                f: multiset<Timer>, x: multiset<Timer>)
    requires a + b + c == d + e + f
    ensures a + (b + x) + c == a + b + (c + x) == (d + x) + e + f
  {
    assert a + (b + x) + c == a + b + c + x && a + b + (c + x) == a + b + c + x && (d + x) + e + f == d + e + f + x;
  }

  lemma BalancedAdd(q0: seq<Timer>, st: seq<Timer>, ag: seq<Timer>, q: seq<Timer>, log: seq<Timer>, can: seq<Timer>,
                    x: Timer)
    requires Balanced(q0, st, ag, q, log, can)
    ensures Balanced(q0, st + [x], ag, Insert(q, x), log, can)
  {
    hide Insert;
    InsertLoad(q, x, 0, 0);
    assert multiset(st + [x]) == multiset(st) + multiset{x};
    OneMore(multiset(q0), multiset(st), multiset(ag), multiset(q), multiset(log), multiset(can), multiset{x});
    forall k ensures Count(q0, k) + Count(st + [x], k) + Count(ag, k)
                     == Count(Insert(q, x), k) + Runs(log, k) + Count(can, k) {
      RunsSnoc(st, x, k);
      InsertRuns(q, x, k);
    }
  }

  lemma BalancedCut(q0: seq<Timer>, st: seq<Timer>, ag: seq<Timer>, q: seq<Timer>, log: seq<Timer>, can: seq<Timer>,
                    kind: Kind)
    requires Balanced(q0, st, ag, q, log, can)
    ensures Balanced(q0, st, ag, Remove(q, kind), log, can + Cut(q, kind))
  {
    hide Remove, Cut;
    RemoveLoad(q, kind, 0, 0);
    assert multiset(can + Cut(q, kind)) == multiset(can) + multiset(Cut(q, kind));
    forall k ensures Count(q0, k) + Count(st, k) + Count(ag, k)
                     == Count(Remove(q, kind), k) + Runs(log, k) + Count(can + Cut(q, kind), k) {
      RunsConcat(can, Cut(q, kind), k);
      RemoveRuns(q, kind, k);
    }
  }

  lemma {:induction false} BalancedActs(q0: seq<Timer>, st: seq<Timer>, ag: seq<Timer>, q: seq<Timer>, log: seq<Timer>,
                                        can: seq<Timer>, s: seq<Action>, c: int)
    requires Balanced(q0, st, ag, q, log, can)
    ensures Balanced(q0, st + StartedBy(s, c), ag, Acted(q, s, c), log, can + Cuts(q, s, c))
    decreases |s|
  {
    hide Balanced, Done, Cut;
    if s == [] {
      assert st + [] == st && can + [] == can;
    } else {
      var front, a := s[..|s| - 1], s[|s| - 1];
      BalancedActs(q0, st, ag, q, log, can, front, c);
      BalancedDone(q0, st + StartedBy(front, c), ag, Acted(q, front, c), log, can + Cuts(q, front, c), a, c);
      var x, y := if a.Start? then [Timer((c + a.msecs) % WRAP, a.kind)] else [],
        if a.Cancel? then Cut(Acted(q, front, c), a.kind) else [];
      assert st + StartedBy(front, c) + x == st + (StartedBy(front, c) + x);
      assert can + Cuts(q, front, c) + y == can + (Cuts(q, front, c) + y);
    }
  }

  /** Each run of a cyclic timer is followed by a new start of the same kind, so that there are as many of a kind as
      before, but for those that handlers start and cancel. */
  lemma {:induction false} RestartsEach(log: seq<Timer>, clock: nat -> nat, lo: int, k: Kind)
    requires k.Cyclic?
    ensures Runs(Restarted(log, clock, lo), k) == Runs(log, k)
    decreases |log|
  {
    if log != [] {
      var front, t := log[..|log| - 1], log[|log| - 1];
      RestartsEach(front, clock, lo, k);
      RunsSnoc(front, t, k);
      assert log == front + [t];
      if t.kind.Cyclic? {
        RunsSnoc(Restarted(front, clock, lo), Again(t, lo, clock(2 * |log|)), k);
      } else {
        assert Restarted(front, clock, lo) + [] == Restarted(front, clock, lo);
      }
    }
  }

  ghost predicate OnlyStart(acts: nat -> seq<Action>) {
    forall n, x :: x in acts(n) ==> x.Start?
  }

  lemma {:induction false} NoCuts(q: seq<Timer>, s: seq<Action>, c: int)
    requires forall x :: x in s ==> x.Start?
    ensures Cuts(q, s, c) == []
    decreases |s|
  {
    if s != [] {
      assert s[|s| - 1] in s;
      NoCuts(q, s[..|s| - 1], c);
    }
  }

  lemma NoneCut(acts: nat -> seq<Action>, n: nat, q: seq<Timer>, c: int)
    ensures OnlyStart(acts) ==> Cuts(q, acts(n), c) == []
  {
    if OnlyStart(acts) {
      NoCuts(q, acts(n), c);
    }
  }

  /** One turn of the sweep behind the timer `t`, whose handler acts at the time `c`. */
  function Turn(q: seq<Timer>, t: Timer, s: seq<Action>, lo: int, c: int, c': int): seq<Timer> {
    var r := Acted(q, s, c);
    if t.kind.Cyclic? then Insert(r, Again(t, lo, c')) else r
  }

  /** `lists` are the lists before each turn and after the last one. */
  ghost predicate Swept(lists: seq<seq<Timer>>, log: seq<Timer>, acts: nat -> seq<Action>, clock: nat -> nat, lo: int) {
    && |lists| == |log| + 1
    && forall r :: 0 <= r < |log| ==>
         && lists[r] != [] && log[r] == lists[r][0]
         && lists[r + 1] == Turn(lists[r][1..], log[r], acts(r), lo, clock(2 * r + 1), clock(2 * r + 2))
  }

  lemma SweptSnoc(lists: seq<seq<Timer>>, log: seq<Timer>, acts: nat -> seq<Action>, clock: nat -> nat, lo: int,
                  q: seq<Timer>, n: nat)
    requires Swept(lists, log, acts, clock, lo) && lists[|log|] != [] && n == |log|
    requires q == Turn(lists[n][1..], lists[n][0], acts(n), lo, clock(2 * n + 1), clock(2 * n + 2))
    ensures Swept(lists + [q], log + [lists[n][0]], acts, clock, lo)
  {
    hide Turn;
  }

  // ---------- the order in which timers run ----------

  /** The timers of `log` are in the order of their due times. */
  ghost predicate InTurn(log: seq<Timer>, lo: int) {
    forall i, j :: 0 <= i <= j < |log| ==> Due(log[i].time, lo) <= Due(log[j].time, lo)
  }

  ghost predicate NoneBefore(q: seq<Timer>, lo: int, d: int) {
    forall t :: t in q ==> d <= Due(t.time, lo)
  }

  lemma TurnSnoc(log: seq<Timer>, x: Timer, lo: int)
    requires InTurn(log, lo) && (log != [] ==> Due(log[|log| - 1].time, lo) <= Due(x.time, lo))
    ensures InTurn(log + [x], lo)
  {
    hide Due;
  }

  lemma {:induction false} PopLater(q: seq<Timer>, lo: int, d: int)
    requires Sorted(q, lo, lo) && q != [] && NoneBefore(q, lo, d)
    ensures d <= Due(q[0].time, lo) && NoneBefore(q[1..], lo, Due(q[0].time, lo))
  {
    hide Sorted, Due;
    forall t | t in q[1..] ensures Due(q[0].time, lo) <= Due(t.time, lo) {
      var i: nat :| i < |q[1..]| && q[1..][i] == t;
      SortedBound(q, lo, lo, i + 1);
    }
  }

  lemma InsertLater(q: seq<Timer>, x: Timer, lo: int, d: int)
    requires d <= Due(x.time, lo)
    ensures NoneBefore(q, lo, d) ==> NoneBefore(Insert(q, x), lo, d)
  {
    hide Due, Insert;
    InsertLoad(q, x, lo, lo);
  }

  lemma RemoveLater(q: seq<Timer>, k: Kind, lo: int, d: int)
    ensures NoneBefore(q, lo, d) ==> NoneBefore(Remove(q, k), lo, d)
  {
    hide Due, Remove;
    RemoveLoad(q, k, lo, lo);
  }

  class Timeouts {
    var next_timeout: seq<Timer>
    var current_timeout_due_time: U32

    constructor ()
      ensures next_timeout == []
    {
      next_timeout, current_timeout_due_time := [], 0;
    }

    /** sys_timeout_abs. The pool must have room for the timer; the code asserts it. */
    method TimeoutAbs(abs_time: U32, kind: Kind)
      modifies `next_timeout
      ensures next_timeout == Insert(old(next_timeout), Timer(abs_time, kind))
    {
      var timeout, q := Timer(abs_time, kind), next_timeout;
      if q == [] {
        next_timeout := [timeout];
        return;
      }
      if TimeLess(timeout.time, q[0].time) {
        next_timeout := [timeout] + q;
      } else {
        var t := 0;
        assert q[..1] == [q[0]];
        while t + 1 != |q| && !TimeLess(timeout.time, q[t + 1].time)
          invariant 0 <= t < |q| && Insert(q, timeout) == q[..t + 1] + Insert(q[t + 1..], timeout)
        {
          assert q[t + 1..][1..] == q[t + 2..];
          assert q[..t + 1] + ([q[t + 1]] + Insert(q[t + 2..], timeout)) == q[..t + 2] + Insert(q[t + 2..], timeout);
          t := t + 1;
        }
        next_timeout := q[..t + 1] + ([timeout] + q[t + 1..]);
      }
    }

    /** sys_untimeout */
    method Untimeout(kind: Kind)
      modifies `next_timeout
      ensures next_timeout == Remove(old(next_timeout), kind)
    {
      var prev: seq<Timer>, t := [], next_timeout;
      while t != []
        invariant next_timeout == old(next_timeout) == prev + t
        invariant Remove(next_timeout, kind) == prev + Remove(t, kind)
        decreases |t|
      {
        if t[0].kind == kind {
          next_timeout := prev + t[1..];
          return;
        }
        Regroup(prev, t[0], Remove(t[1..], kind));
        prev, t := prev + [t[0]], t[1..];
      }
    }

    /** sys_restart_timeouts, when the clock shows `now`. */
    method RestartTimeouts(now: U32)
      modifies `next_timeout
      ensures next_timeout == if old(next_timeout) == [] then []
                              else Rebased(old(next_timeout), old(next_timeout)[0].time, now)
    {
      hide Shifted;
      if next_timeout == [] {
        return;
      }
      var base := next_timeout[0].time;
      var done: seq<Timer>, t := [], next_timeout;
      while t != []
        invariant next_timeout == done + t && Rebased(old(next_timeout), base, now) == done + Rebased(t, base, now)
        decreases |t|
      {
        var x := Shifted(t[0], base, now);
        Regroup(done, x, Rebased(t[1..], base, now));
        done, t := done + [x], t[1..];
        next_timeout := done + t;
      }
    }

    /** lwip_cyclic_timer, after the handler proper: start the timer anew when the clock shows `now`. */
    method CyclicTimer(k: Kind, now: U32, ghost lo: int, ghost c: int)
      requires k.Cyclic? && KindOk(k) && now == c % WRAP
      requires lo <= Due(current_timeout_due_time, lo) <= lo + EIGHTH <= c <= lo + 2 * EIGHTH
      requires Sorted(next_timeout, lo, lo)
      modifies `next_timeout
      ensures Sorted(next_timeout, lo, lo)
      ensures next_timeout == Insert(old(next_timeout), Again(Timer(current_timeout_due_time, k), lo, c))
    {
      ghost var due := Due(current_timeout_due_time, lo);
      hide Due, Sorted, Insert;
      DueShows(current_timeout_due_time, lo);
      var next := Add(current_timeout_due_time, k.interval);
      AddDue(due, k.interval, lo);
      AddDue(c, k.interval, lo);
      DueOf(c, lo);
      LessIsLess(next, now, lo);
      ModShift(due + k.interval, current_timeout_due_time + k.interval, due / WRAP);
      ModShift(c + k.interval, now + k.interval, c / WRAP);
      var at := if TimeLess(next, now) then Add(now, k.interval) else next;
      InsertKeepsSorted(next_timeout, Timer(at, k), lo, lo);
      TimeoutAbs(at, k);
    }

    /** The same, for the sweep: the timer can run once less than before. */
    method RunCyclic(t: Timer, now: U32, ghost lo: int, ghost now0: int, ghost c: int)
      requires now0 == lo + EIGHTH
      requires t.kind.Cyclic? && KindOk(t.kind) && now == c % WRAP && current_timeout_due_time == t.time
      requires lo <= Due(t.time, lo) <= lo + EIGHTH <= c <= lo + 2 * EIGHTH
      requires Sorted(next_timeout, lo, lo) && forall x :: x in next_timeout ==> KindOk(x.kind)
      modifies `next_timeout
      ensures next_timeout == Insert(old(next_timeout), Again(t, lo, c))
      ensures Sorted(next_timeout, lo, lo) && forall x :: x in next_timeout ==> KindOk(x.kind)
      ensures forall d :: d <= Due(t.time, lo) && NoneBefore(old(next_timeout), lo, d) ==>
                NoneBefore(next_timeout, lo, d)
      ensures var w := Weight(Due(t.time, lo), now0);
              && Total(next_timeout, lo, now0) < Total(old(next_timeout), lo, now0) + w
              && forall k :: Load(next_timeout, lo, now0, k) + (if k == t.kind then 1 else 0)
                             <= Load(old(next_timeout), lo, now0, k) + if k == t.kind then w else 0
    {
      hide Due, Sorted, Insert, Load, Total, NoneBefore, Again;
      CyclicTimer(t.kind, now, lo, c);
      ghost var x := Again(t, lo, c);
      AgainMeans(t, lo, c);
      InsertLoad(old(next_timeout), x, lo, now0);
      forall d | d <= Due(t.time, lo) && NoneBefore(old(next_timeout), lo, d) ensures NoneBefore(next_timeout, lo, d) {
        InsertLater(old(next_timeout), x, lo, d);
      }
    }

    /** The actions of a handler, when the clock shows `now`. */
    method Act(actions: seq<Action>, now: U32, ghost lo: int, ghost now0: int, ghost c: int)
      requires now0 == lo + EIGHTH && now == c % WRAP && now0 <= c <= lo + 2 * EIGHTH && Sorted(next_timeout, lo, lo)
      requires forall x :: x in actions ==> ActionOk(x)
      requires forall t :: t in next_timeout ==> KindOk(t.kind)
      modifies `next_timeout
      ensures next_timeout == Acted(old(next_timeout), actions, c)
      ensures Sorted(next_timeout, lo, lo) && forall t :: t in next_timeout ==> KindOk(t.kind)
      ensures Total(next_timeout, lo, now0) <= Total(old(next_timeout), lo, now0)
      ensures forall k :: Load(next_timeout, lo, now0, k) <= Load(old(next_timeout), lo, now0, k)
      ensures forall d :: d <= now0 && NoneBefore(old(next_timeout), lo, d) ==> NoneBefore(next_timeout, lo, d)
    {
      hide Sorted, Due, Load, Total, Insert, Remove, KindOk, NoneBefore;
      var i := 0;
      while i < |actions|
        invariant 0 <= i <= |actions| && Sorted(next_timeout, lo, lo)
        invariant next_timeout == Acted(old(next_timeout), actions[..i], c)
        invariant forall t :: t in next_timeout ==> KindOk(t.kind)
        invariant Total(next_timeout, lo, now0) <= Total(old(next_timeout), lo, now0)
        invariant forall k :: Load(next_timeout, lo, now0, k) <= Load(old(next_timeout), lo, now0, k)
        invariant forall d :: d <= now0 && NoneBefore(old(next_timeout), lo, d) ==> NoneBefore(next_timeout, lo, d)
      {
        assert ActionOk(actions[i]);
        assert actions[..i + 1][..i] == actions[..i];
        match actions[i] {
          case Start(msecs, kind) =>
            StartOne(msecs, kind, now, lo, now0, c);
          case Cancel(kind) =>
            ghost var q := next_timeout;
            RemoveKeepsSorted(q, kind, lo, lo);
            RemoveLoad(q, kind, lo, now0);
            forall d | NoneBefore(q, lo, d) ensures NoneBefore(Remove(q, kind), lo, d) {
              RemoveLater(q, kind, lo, d);
            }
            Untimeout(kind);
        }
        i := i + 1;
      }
      assert actions[..i] == actions;
    }

    /** sys_timeout */
    method StartOne(msecs: nat, kind: Kind, now: U32, ghost lo: int, ghost now0: int, ghost c: int)
      requires now0 == lo + EIGHTH && now == c % WRAP && now0 <= c <= lo + 2 * EIGHTH && Sorted(next_timeout, lo, lo)
      requires 0 < msecs <= 0x3FFF_FFFF && KindOk(kind) && forall t :: t in next_timeout ==> KindOk(t.kind)
      modifies `next_timeout
      ensures next_timeout == Insert(old(next_timeout), Timer((c + msecs) % WRAP, kind))
      ensures Sorted(next_timeout, lo, lo) && forall t :: t in next_timeout ==> KindOk(t.kind)
      ensures Total(next_timeout, lo, now0) == Total(old(next_timeout), lo, now0)
      ensures forall k :: Load(next_timeout, lo, now0, k) == Load(old(next_timeout), lo, now0, k)
      ensures forall d :: d <= now0 && NoneBefore(old(next_timeout), lo, d) ==> NoneBefore(next_timeout, lo, d)
    {
      hide Sorted, Due, Load, Total, Insert, KindOk, NoneBefore;
      AddDue(c, msecs, lo);
      ModShift(c + msecs, now + msecs, c / WRAP);
      var x := Timer(Add(now, msecs), kind);
      InsertKeepsSorted(next_timeout, x, lo, lo);
      InsertLoad(next_timeout, x, lo, now0);
      forall d | d <= now0 && NoneBefore(next_timeout, lo, d) ensures NoneBefore(Insert(next_timeout, x), lo, d) {
        InsertLater(next_timeout, x, lo, d);
      }
      TimeoutAbs(x.time, x.kind);
    }

    /** sys_check_timeouts. The n-th reading of the clock gives `clock(n)`, shown in 32 bits; `acts(n)` is what the n-th
        handler does with other timers; a cyclic timer is started anew behind that. The sweep ends; it runs only timers
        that were due when it began, in the order of their due times, and each as often as it is in the list, unless
        a handler cancels it; and a cyclic timer at most twice. Every turn makes of the list what `Turn` says; no timer
        is lost or doubled, and of each cyclic kind there are as many as before, but for what handlers start and
        cancel. */
    method CheckTimeouts(clock: nat -> nat, acts: nat -> seq<Action>)
      returns (ghost log: seq<Timer>, ghost cancelled: seq<Timer>, ghost lists: seq<seq<Timer>>)
      requires forall i, j :: 0 <= i <= j ==> clock(i) <= clock(j) <= clock(0) + EIGHTH
      requires forall n, x :: x in acts(n) ==> ActionOk(x)
      requires Sorted(next_timeout, clock(0) - EIGHTH, clock(0) - EIGHTH)
      requires forall t :: t in next_timeout ==> KindOk(t.kind)
      modifies this
      ensures var lo := clock(0) - EIGHTH;
              && Sorted(next_timeout, lo, lo)
              && (forall t :: t in log ==> Due(t.time, lo) <= clock(0))
              && (forall t :: t in next_timeout ==> clock(0) < Due(t.time, lo))
              && (forall t: Timer :: Due(t.time, lo) <= clock(0) ==>
                    multiset(old(next_timeout))[t] <= multiset(log)[t] + multiset(cancelled)[t])
      ensures InTurn(log, clock(0) - EIGHTH)
      ensures Swept(lists, log, acts, clock, clock(0) - EIGHTH)
      ensures lists[0] == old(next_timeout) && lists[|log|] == next_timeout
      ensures Balanced(old(next_timeout), Started(acts, clock, |log|), Restarted(log, clock, clock(0) - EIGHTH),
                       next_timeout, log, cancelled)
      ensures forall k: Kind :: k.Cyclic? ==>
                Count(next_timeout, k) + Count(cancelled, k)
                    == Count(old(next_timeout), k) + Count(Started(acts, clock, |log|), k)
      ensures OnlyStart(acts) ==> cancelled == []
      ensures forall k :: Runs(log, k) <= 2 * Count(old(next_timeout), k)
    {
      hide Sorted, Due, Load, Total, Insert, Runs, TimeLess, KindOk, ActionOk, Balanced, NoneBefore, InTurn, Swept,
           Acted, Cuts, Again, Started, Restarted, OnlyStart;
      ghost var now0: int, lo := clock(0), clock(0) - EIGHTH;
      ghost var q0, d := next_timeout, lo;
      var now := clock(0) % WRAP;
      var runs: nat := 0;
      log, cancelled, lists := [], [], [q0];
      SweepStart(q0, acts, clock, lo);
      forall k ensures Runs(log, k) + Load(q0, lo, now0, k) <= 2 * Count(q0, k) {
        LoadTwice(q0, lo, now0, k);
        NoRuns(k);
      }
      while true
        invariant runs == |log| && Sorted(next_timeout, lo, lo) && forall t :: t in next_timeout ==> KindOk(t.kind)
        invariant forall t :: t in log ==> Due(t.time, lo) <= now0
        invariant InTurn(log, lo) && NoneBefore(next_timeout, lo, d)
                  && (log != [] ==> Due(log[|log| - 1].time, lo) == d)
        invariant |lists| == runs + 1 && lists[0] == q0 && lists[runs] == next_timeout
                  && Swept(lists, log, acts, clock, lo)
        invariant Balanced(q0, Started(acts, clock, runs), Restarted(log, clock, lo), next_timeout, log, cancelled)
        invariant OnlyStart(acts) ==> cancelled == []
        invariant forall k :: Runs(log, k) + Load(next_timeout, lo, now0, k) <= 2 * Count(q0, k)
        decreases Total(next_timeout, lo, now0)
      {
        if next_timeout == [] {
          break;
        }
        var tmptimeout := next_timeout[0];
        DueHead(next_timeout, lo, now0);
        if TimeLess(now, tmptimeout.time) {
          break;
        }
        PopHead(next_timeout, log, lo, now0);
        PopLater(next_timeout, lo, d);
        d := Due(tmptimeout.time, lo);
        TurnSnoc(log, tmptimeout, lo);
        BalancedTurn(q0, acts, clock, lo, next_timeout, log, cancelled, runs);
        ghost var rest := next_timeout[1..];
        cancelled := cancelled + Cuts(rest, acts(runs), clock(2 * runs + 1));
        NoneCut(acts, runs, rest, clock(2 * runs + 1));
        next_timeout := next_timeout[1..];
        current_timeout_due_time := tmptimeout.time;
        var c := clock(2 * runs + 1);
        Act(acts(runs), c % WRAP, lo, now0, c);
        if tmptimeout.kind.Cyclic? {
          c := clock(2 * runs + 2);
          RunCyclic(tmptimeout, c % WRAP, lo, now0, c);
        }
        SweptSnoc(lists, log, acts, clock, lo, next_timeout, runs);
        log, lists, runs := log + [tmptimeout], lists + [next_timeout], runs + 1;
      }
      SweptAll(q0, acts, clock, next_timeout, log, cancelled, lo, now0);
    }
  }

  lemma SweepStart(q: seq<Timer>, acts: nat -> seq<Action>, clock: nat -> nat, lo: int)
    ensures InTurn([], lo) && NoneBefore(q, lo, lo) && Swept([q], [], acts, clock, lo)
    ensures Balanced(q, Started(acts, clock, 0), Restarted([], clock, lo), q, [], [])
  {
    BalancedStart(q);
  }

  /** The balance after a turn. */
  lemma BalancedTurn(q0: seq<Timer>, acts: nat -> seq<Action>, clock: nat -> nat, lo: int, q: seq<Timer>,
                     log: seq<Timer>,
                     can: seq<Timer>, n: nat)
    requires q != [] && n == |log| && Balanced(q0, Started(acts, clock, n), Restarted(log, clock, lo), q, log, can)
    ensures var c, c' := clock(2 * n + 1), clock(2 * n + 2);
            Balanced(q0, Started(acts, clock, n + 1), Restarted(log + [q[0]], clock, lo),
                Turn(q[1..], q[0], acts(n), lo, c, c'),
                     log + [q[0]], can + Cuts(q[1..], acts(n), c))
  {
    hide Balanced, Insert, Again, Acted, Cuts, StartedBy;
    var c, c' := clock(2 * n + 1), clock(2 * n + 2);
    var st, ag, t := Started(acts, clock, n), Restarted(log, clock, lo), q[0];
    BalancedPop(q0, st, ag, q, log, can);
    BalancedActs(q0, st, ag, q[1..], log + [t], can, acts(n), c);
    assert (log + [t])[..n] == log;
    if t.kind.Cyclic? {
      BalancedAgain(q0, Started(acts, clock, n + 1), ag, Acted(q[1..], acts(n), c), log + [t],
                    can + Cuts(q[1..], acts(n), c), Again(t, lo, c'));
    } else {
      assert ag + [] == ag;
    }
  }

  /** When nothing in the list is due any more, what was due has run or was cancelled. */
  lemma SweptAll(q0: seq<Timer>, acts: nat -> seq<Action>, clock: nat -> nat, q: seq<Timer>, log: seq<Timer>,
                 cancelled: seq<Timer>, lo: int, now: int)
    requires Balanced(q0, Started(acts, clock, |log|), Restarted(log, clock, lo), q, log, cancelled)
    requires forall t :: t in q ==> now < Due(t.time, lo)
    ensures forall t: Timer :: Due(t.time, lo) <= now ==> multiset(q0)[t] <= multiset(log)[t] + multiset(cancelled)[t]
    ensures forall k: Kind :: k.Cyclic? ==>
              Count(q, k) + Count(cancelled, k) == Count(q0, k) + Count(Started(acts, clock, |log|), k)
  {
    hide Due, Started, Restarted, Runs;
    forall t: Timer | Due(t.time, lo) <= now ensures multiset(q0)[t] <= multiset(log)[t] + multiset(cancelled)[t] {
      assert t !in multiset(q);
      var st, ag := multiset(Started(acts, clock, |log|)), multiset(Restarted(log, clock, lo));
      assert (multiset(q0) + st + ag)[t] == (multiset(q) + multiset(log) + multiset(cancelled))[t];
    }
    forall k: Kind | k.Cyclic? ensures Runs(Restarted(log, clock, lo), k) == Runs(log, k) {
      RestartsEach(log, clock, lo, k);
    }
  }

  lemma AddDue(p: int, n: nat, lo: int)
    requires lo <= p && p + n < lo + HALF
    ensures Due(Add(p % WRAP, n), lo) == p + n
  {
    ModShift(p + n, p % WRAP + n, p / WRAP);
    DueOf(p + n, lo);
  }

  lemma NoRuns(k: Kind)
    ensures Runs([], k) == 0
  {
  }

  lemma DueShows(t: U32, lo: int)
    ensures Due(t, lo) % WRAP == t
  {
    ModShift(Due(t, lo), t, -((t - lo) / WRAP));
  }

  /** The head of the list shows whether anything is due. */
  lemma DueHead(q: seq<Timer>, lo: int, now: int)
    requires Sorted(q, lo, lo) && q != [] && lo <= now < lo + HALF
    ensures lo <= Due(q[0].time, lo) < lo + HALF
    ensures TimeLess(now % WRAP, q[0].time) <==> now < Due(q[0].time, lo)
    ensures now < Due(q[0].time, lo) ==> forall t :: t in q ==> now < Due(t.time, lo)
  {
    DueOf(now, lo);
    LessIsLess(now % WRAP, q[0].time, lo);
    forall i | 0 <= i < |q| ensures Due(q[0].time, lo) <= Due(q[i].time, lo) {
      SortedBound(q, lo, lo, i);
    }
  }

  lemma PopHead(q: seq<Timer>, log: seq<Timer>, lo: int, now: int)
    requires Sorted(q, lo, lo) && q != []
    ensures Sorted(q[1..], lo, lo)
    ensures Total(q, lo, now) == Weight(Due(q[0].time, lo), now) + Total(q[1..], lo, now)
    ensures forall k :: Load(q, lo, now, k)
              == (if q[0].kind == k then Weight(Due(q[0].time, lo), now) else 0) + Load(q[1..], lo, now, k)
    ensures forall k :: Runs(log + [q[0]], k) == Runs(log, k) + if q[0].kind == k then 1 else 0
    ensures forall t :: t in q <==> t == q[0] || t in q[1..]
  {
    if q[1..] != [] {
      assert Sorted(q[1..], lo, lo);
    }
    forall k ensures Runs(log + [q[0]], k) == Runs(log, k) + if q[0].kind == k then 1 else 0 {
      RunsSnoc(log, q[0], k);
    }
    assert q == [q[0]] + q[1..];
  }
}
