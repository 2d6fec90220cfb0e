/** Van Jacobson's round-trip estimator of tcp_in.c, with the retransmission back-off of tcp.c, in 16-bit arithmetic. */
module Rtt {
  import opened Words

  /** The cast to s16_t. */
  function S16(x: int): int {
    (x + 0x8000) % 0x1_0000 - 0x8000
  }

  const TCP_SLOW_INTERVAL: nat := 500

  /** tcp_backoff */
  const BACKOFF: seq<nat> := [1, 2, 3, 4, 5, 6, 7, 7, 7, 7, 7, 7, 7]

  /** `x << n` */
  function ShiftLeft(x: int, n: nat): int
    decreases n
  {
    if n == 0 then x else ShiftLeft(2 * x, n - 1)
  }

  function Max(x: int, y: int): int {
    if x < y then y else x
  }

  /** What can happen to the estimate: a round trip of `m` ticks is measured, new data is acknowledged, or the
      retransmission timer expires for the `nrtx`-th time. */
  datatype Event = Sample(m: nat) | NewAck | Expired(nrtx: nat)

  datatype Estimate = Estimate(sa: int, sv: int, rto: int)

  /** tcp_alloc */
  const INITIAL := Estimate(0, 3000 / TCP_SLOW_INTERVAL, 3000 / TCP_SLOW_INTERVAL)

  /** One step, computed without any wrap-around. */
  function Step(e: Estimate, x: Event): Estimate {
    match x
    case Sample(m) =>
      var err := m - e.sa / 8;
      var sa := e.sa + err;
      var sv := e.sv + (if err < 0 then -err else err) - e.sv / 4;
      Estimate(sa, sv, sa / 8 + sv)
    case NewAck => e.(rto := e.sa / 8 + e.sv)
    case Expired(nrtx) =>
      var raised := ShiftLeft(e.sa / 8 + e.sv, BACKOFF[if nrtx < 12 then nrtx else 12]);
      e.(rto := if raised < 0x7FFF then raised else 0x7FFF)
  }

  function After(e: Estimate, xs: seq<Event>): Estimate
    decreases |xs|
  {
    if xs == [] then e else After(Step(e, xs[0]), xs[1..])
  }

  /** The bounds for round trips of at most `M` ticks. */
  predicate Bounded(e: Estimate, M: nat) {
    0 <= e.sa <= 8 * M && 3 <= e.sv <= Max(6, 4 * M + 3) && 3 <= e.rto <= 0x7FFF
  }

  lemma {:induction false} ShiftedAtMin(x: nat, n: nat)
    ensures ShiftLeft(x, n) >= x
    decreases n
  {
    if n > 0 {
      ShiftedAtMin(2 * x, n - 1);
    }
  }

  lemma StepBounded(e: Estimate, x: Event, M: nat)
    requires Bounded(e, M) && M <= 4095 && (x.Sample? ==> x.m <= M)
    ensures Bounded(Step(e, x), M)
  {
    if x.Expired? {
      ShiftedAtMin(e.sa / 8 + e.sv, BACKOFF[if x.nrtx < 12 then x.nrtx else 12]);
    }
  }

  /** The estimator of section 2.3 of RFC 6298, where `sa` is eight times SRTT and `sv` is four times RTTVAR: both are
      the weighted means there, rounded up to the next stored value, and the time-out is SRTT and four times RTTVAR. */
  lemma FollowsRfc6298(e: Estimate, m: nat)
    requires e.sa >= 0 && e.sv >= 0
    ensures var e', diff := Step(e, Sample(m)), Max(m - e.sa / 8, e.sa / 8 - m);
            && 0 <= 8 * e'.sa - (7 * e.sa + 8 * m) < 8
            && 0 <= 4 * e'.sv - (3 * e.sv + 4 * diff) < 4
            && 0 <= e'.sa - 8 * (e'.rto - e'.sv) < 8
  {
  }

  lemma {:induction false} ShiftedTwice(x: int, n: nat)
    ensures ShiftLeft(2 * x, n) == 2 * ShiftLeft(x, n) && ShiftLeft(x, n + 1) == 2 * ShiftLeft(x, n)
    decreases n
  {
    if n > 0 {
      ShiftedTwice(2 * x, n - 1);
    }
  }

  /** Each expiry of the timer up to the seventh doubles the time-out, within 16 bits; the later ones leave it. */
  lemma BackOffDoubles(e: Estimate, n: nat)
    requires e.sa >= 0 && e.sv >= 0
    ensures Step(e, Expired(0)).rto == Min(2 * Step(e, NewAck).rto, 0x7FFF)
    ensures Step(e, Expired(n + 1)).rto
            == if n < 6 then Min(2 * Step(e, Expired(n)).rto, 0x7FFF) else Step(e, Expired(n)).rto
  {
    var x := e.sa / 8 + e.sv;
    ShiftedTwice(x, 0);
    ShiftedTwice(x, BACKOFF[if n < 12 then n else 12]);
  }

  /** An acknowledgement of new data takes every back-off back: the time-out is that of the last sample again. */
  lemma {:induction false} AckEndsBackOff(e: Estimate, m: nat, xs: seq<Event>)
    requires forall i :: 0 <= i < |xs| ==> xs[i].Expired?
    ensures Step(After(Step(e, Sample(m)), xs), NewAck) == Step(e, Sample(m))
  {
    ExpiredKeep(Step(e, Sample(m)), xs);
  }

  lemma {:induction false} ExpiredKeep(e: Estimate, xs: seq<Event>)
    requires forall i :: 0 <= i < |xs| ==> xs[i].Expired?
    ensures After(e, xs).sa == e.sa && After(e, xs).sv == e.sv
    decreases |xs|
  {
    if xs != [] {
      ExpiredKeep(Step(e, xs[0]), xs[1..]);
    }
  }

  /** All round trips measured take at most `M` ticks. */
  ghost predicate Samples(xs: seq<Event>, M: nat) {
    forall i :: 0 <= i < |xs| && xs[i].Sample? ==> xs[i].m <= M
  }

  /** For any sequence of events with round trips of at most M ticks, M at most 4095, the estimate stays in bounds, in
      which it starts: in particular the retransmission time-out is never below 3 ticks. */
  lemma {:induction false} AlwaysBounded(e: Estimate, xs: seq<Event>, M: nat)
    requires M <= 4095 && Samples(xs, M) && Bounded(e, M)
    ensures Bounded(After(e, xs), M)
    decreases |xs|
  {
    if xs != [] {
      StepBounded(e, xs[0], M);
      AlwaysBounded(Step(e, xs[0]), xs[1..], M);
    }
  }

  /** The smoothed value moves towards the measured one and does not overshoot. */
  lemma NoOvershoot(e: Estimate, m: nat)
    requires e.sa >= 0
    ensures var sa' := Step(e, Sample(m)).sa;
            && (e.sa / 8 <= m ==> e.sa <= sa' && sa' / 8 <= m)
            && (e.sa / 8 >= m ==> sa' <= e.sa && m <= sa' / 8)
  {
  }

  /** `n` samples of `m` ticks. */
  function Steady(m: nat, n: nat): seq<Event> {
    if n == 0 then [] else [Sample(m)] + Steady(m, n - 1)
  }

  /** Under steady samples the smoothed value reaches eight times the sample, and stays there. */
  lemma {:induction false} Converges(e: Estimate, m: nat, n: nat)
    requires 0 <= e.sa <= 8 * m
    ensures var sa := After(e, Steady(m, n)).sa; Min(e.sa + n, 8 * m) <= sa <= 8 * m
    decreases n
  {
    hide Step;
    if n > 0 {
      FirstSample(e, m, n);
      Converges(Step(e, Sample(m)), m, n - 1);
    }
  }

  lemma FirstSample(e: Estimate, m: nat, n: nat)
    requires n > 0
    ensures After(e, Steady(m, n)) == After(Step(e, Sample(m)), Steady(m, n - 1))
    ensures Step(e, Sample(m)).sa == e.sa + (m - e.sa / 8)
  {
    assert Steady(m, n)[1..] == Steady(m, n - 1);
  }

  lemma {:induction false} SteadySamples(m: nat, n: nat)
    ensures Samples(Steady(m, n), m)
  {
    if n > 0 {
      SteadySamples(m, n - 1);
      assert forall i :: 0 < i < n && i < |Steady(m, n)| ==> Steady(m, n)[i] == Steady(m, n - 1)[i - 1];
    }
  }

  /** Both stored values fit 16 bits, where the casts leave them alone (see Fits). */
  ghost predicate Stored(e: Estimate) {
    -0x8000 <= e.sa < 0x8000 && -0x8000 <= e.sv < 0x8000
  }

  /** The limit of 4095 ticks is exact: 16 bits hold the estimate after every run with samples of at most M ticks if and
      only if M is at most 4095. At 4096 a steady run leaves them. */
  lemma {:induction false} LimitIsExact(M: nat)
    ensures M <= 4095 <==> forall xs: seq<Event> :: Samples(xs, M) ==> Stored(After(INITIAL, xs))
  {
    hide After, Steady;
    if M <= 4095 {
      forall xs: seq<Event> | Samples(xs, M) ensures Stored(After(INITIAL, xs)) {
        AlwaysBounded(INITIAL, xs, M);
      }
    } else {
      var xs := Steady(4096, 8 * 4096);
      SteadySamples(4096, 8 * 4096);
      Converges(INITIAL, 4096, 8 * 4096);
      assert Samples(xs, M) && After(INITIAL, xs).sa == 0x8000;
    }
  }

  lemma Fits(x: int)
    ensures -0x8000 <= x < 0x8000 <==> S16(x) == x
  {
  }

  class Estimator {
    var sa: int
    var sv: int
    var rto: int

    function Value(): Estimate
      reads this
    {
      Estimate(sa, sv, rto)
    }

    constructor ()
      ensures Value() == INITIAL
    {
      sa, sv, rto := 0, 3000 / TCP_SLOW_INTERVAL, 3000 / TCP_SLOW_INTERVAL;
    }

    /** The estimation in tcp_receive, cast by cast. No cast changes a value. */
    method Measure(ticks: nat, M: nat)
      requires Bounded(Value(), M) && M <= 4095 && ticks <= M
      modifies this
      ensures Value() == Step(old(Value()), Sample(ticks)) && Bounded(Value(), M)
    {
      hide S16;
      StepBounded(Value(), Sample(ticks), M);
      Fits(ticks);
      var m := S16(ticks);
      Fits(m - sa / 8);
      m := S16(m - sa / 8);
      Fits(sa + m);
      sa := S16(sa + m);
      Fits(-m);
      if m < 0 {
        m := S16(-m);
      }
      Fits(m - sv / 4);
      m := S16(m - sv / 4);
      Fits(sv + m);
      Fits(sa / 8 + sv + m);
      sv := S16(sv + m);
      rto := S16(sa / 8 + sv);
    }

    method Acknowledged(ghost M: nat)
      requires Bounded(Value(), M) && M <= 4095
      modifies `rto
      ensures Value() == Step(old(Value()), NewAck) && Bounded(Value(), M)
    {
      rto := S16(sa / 8 + sv);
    }

    /** The back-off in tcp_slowtmr. */
    method BackOff(nrtx: nat, ghost M: nat)
      requires Bounded(Value(), M) && M <= 4095
      modifies `rto
      ensures Value() == Step(old(Value()), Expired(nrtx)) && Bounded(Value(), M)
    {
      StepBounded(Value(), Expired(nrtx), M);
      var idx := if nrtx < |BACKOFF| - 1 then nrtx else |BACKOFF| - 1;
      var raised := ShiftLeft(sa / 8 + sv, BACKOFF[idx]);
      rto := S16(if raised < 0x7FFF then raised else 0x7FFF);
    }
  }
}
