/** The connection state machine of core/tcp_conn.go: steps of handler goroutines and of the lwIP thread, each of them
    protected by the connection's mutex, in any order. */
module TcpConn {
  import opened Words

  /** tcpConnState, in the order of the constants. */
  datatype State =
    NewConn | Connecting | Connected | WriteClosed | ReceiveClosed | Closing | Aborting | Closed | Errored

  function Rank(s: State): nat {
    match s
    case NewConn => 0
    case Connecting => 1
    case Connected => 2
    case WriteClosed => 3
    case ReceiveClosed => 4
    case Closing => 5
    case Aborting => 6
    case Closed => 7
    case Errored => 8
  }

  /** What receiveCheck tells the receive callback. */
  datatype Verdict = Ok | NotYet | ShutDown | Aborted

  /** What the lwIP thread is about to do, holding lwipMutex: nothing, or the next locked section of a callback or of
      the second half of Abort. */
  datatype Pc = Idle | ToReceive | ToLocalClosed | ToErr | ToIsClosed | ToClosing | ToAborting

  /** A connection: its state, whether tcpConns has it, how often its key argument was freed; what has happened to it,
      which is that the handler accepted it, either side was closed, somebody asked to abort it, or lwIP reported it
      dead; how often the pcb was closed, aborted or reported dead, and whether lwIP still has a pcb that calls back. */
  datatype Conn = Conn(state: State, inMap: bool, frees: nat, accepted: bool, writeClosed: bool, readClosed: bool,
                       asked: bool, dead: bool, ends: nat, callbacks: bool, pc: Pc)

  // ---------- the locked sections ----------

  /** release */
  function Released(c: Conn): Conn {
    c.(inMap := false, frees := c.frees + if c.inMap then 1 else 0, state := Closed)
  }

  /** The end of the goroutine of newTCPConn, if the handler took the connection. */
  function Established(c: Conn): Conn {
    if c.state == Connecting then c.(state := Connected, accepted := true) else c
  }

  function WriteShut(c: Conn): Conn {
    if Rank(c.state) >= Rank(Closing) || c.state == WriteClosed then c
    else c.(state := if c.state == ReceiveClosed then Closing else WriteClosed, writeClosed := true)
  }

  /** setLocalClosed */
  function ReadShut(c: Conn): Conn {
    if Rank(c.state) >= Rank(Closing) || c.state == ReceiveClosed then c
    else c.(state := if c.state == WriteClosed then Closing else ReceiveClosed, readClosed := true)
  }

  /** The first half of Abort. */
  function AbortAsked(c: Conn): Conn {
    if Rank(c.state) < Rank(Aborting) then c.(state := Aborting, asked := true) else c
  }

  /** The pcb is closed, with its callbacks taken off, or aborted, or was freed by lwIP. */
  function Ended(c: Conn): Conn {
    c.(ends := c.ends + 1, callbacks := false)
  }

  /** checkClosing, with closeInternal. */
  function ClosingChecked(c: Conn): Conn {
    if c.state == Closing then Ended(Released(c)) else c
  }

  /** checkAborting, with abortInternal. */
  function AbortingChecked(c: Conn): Conn {
    if c.state == Aborting then Ended(Released(c)) else c
  }

  /** Err */
  function Failed(c: Conn): Conn {
    Ended(Released(c)).(state := Errored, dead := true)
  }

  /** receiveCheck, which aborts in state tcpErrored. */
  function ReceiveChecked(c: Conn): Conn {
    if c.state == Errored then Ended(Released(c)) else c
  }

  function ReceiveVerdict(s: State): Verdict
    requires s != NewConn
  {
    match s
    case Connected => Ok
    case WriteClosed => Ok
    case Connecting => NotYet
    case Errored => Aborted
    case _ => ShutDown
  }

  // ---------- all interleavings ----------

  /** newTCPConn up to the start of the goroutine, taken as one step: nobody else knows the connection yet. */
  const CREATED := Conn(Connecting, true, 0, false, false, false, false, false, 0, true, Idle)

  /** A step of some handler goroutine; it does not need lwipMutex. */
  predicate HandlerStep(c: Conn, c': Conn) {
    c' == Established(c) || c' == WriteShut(c) || c' == AbortAsked(c)
  }

  /** A receive, sent or poll callback that does not find its connection aborts the pcb. */
  predicate LookupFails(c: Conn) {
    c.pc == Idle && c.callbacks && !c.inMap
  }

  /** The lwIP thread starts a callback, which looks the connection up, or the second half of Abort, which does not. The
      error callback does nothing if the lookup fails; tcp_abort calls it from within abortInternal. */
  predicate Begin(c: Conn, c': Conn) {
    && c.pc == Idle
    && (|| (c.callbacks && c.inMap && c'.pc in {ToReceive, ToLocalClosed, ToErr, ToIsClosed} && c' == c.(pc := c'.pc))
        || (LookupFails(c) && c' == Ended(c))
        || (!c.inMap && c' == c)
        || c' == c.(pc := ToIsClosed))
  }

  /** The lwIP thread goes on with what it is doing. */
  function Continued(c: Conn): Conn
    requires c.pc != Idle
  {
    match c.pc
    case ToReceive => ReceiveChecked(c).(pc := Idle)
    case ToLocalClosed => ReadShut(c).(pc := ToIsClosed)
    case ToErr => Failed(c).(pc := Idle)
    case ToIsClosed => if c.state == Closed then c.(pc := Idle) else c.(pc := ToClosing)
    case ToClosing => if c.state == Closing then ClosingChecked(c).(pc := Idle) else c.(pc := ToAborting)
    case ToAborting => AbortingChecked(c).(pc := Idle)
  }

  predicate Next(c: Conn, c': Conn) {
    HandlerStep(c, c') || Begin(c, c') || (c.pc != Idle && c' == Continued(c))
  }

  ghost predicate Run(t: seq<Conn>) {
    t != [] && t[0] == CREATED && forall i :: 0 <= i < |t| - 1 ==> Next(t[i], t[i + 1])
  }

  /** What the state says about what has happened. */
  predicate Tells(c: Conn) {
    var ended := c.ends > 0;
    && (c.state == Connecting <==> !c.accepted && !c.writeClosed && !c.readClosed && !c.asked && !ended)
    && (c.state == Connected <==> c.accepted && !c.writeClosed && !c.readClosed && !c.asked && !ended)
    && (c.state == WriteClosed <==> c.writeClosed && !c.readClosed && !c.asked && !ended)
    && (c.state == ReceiveClosed <==> c.readClosed && !c.writeClosed && !c.asked && !ended)
    && (c.state == Closing <==> c.writeClosed && c.readClosed && !c.asked && !ended)
    && (c.state == Aborting <==> c.asked && !ended)
    && (c.dead ==> ended) && (c.state == Closed <==> ended && !c.dead) && (c.state == Errored <==> ended && c.dead)
  }

  /** What holds in every reachable state. */
  predicate Inv(c: Conn) {
    && Tells(c)
    && (c.inMap <==> c.ends == 0)
    && c.frees == c.ends == (if c.inMap then 0 else 1) && (c.callbacks <==> c.inMap)
    && (c.pc in {ToReceive, ToLocalClosed, ToErr} ==> c.inMap)
  }

  /** One step keeps the invariant and never moves the state back. */
  lemma StepInv(c: Conn, c': Conn)
    requires Inv(c) && Next(c, c')
    ensures Inv(c') && Rank(c.state) <= Rank(c'.state)
    ensures c.frees <= c'.frees && c.ends <= c'.ends
  {
    if HandlerStep(c, c') {
      HandlerInv(c, c');
    } else if !Begin(c, c') {
      ContinuedInv(c);
    }
  }

  lemma HandlerInv(c: Conn, c': Conn)
    requires Inv(c) && HandlerStep(c, c')
    ensures Inv(c') && Rank(c.state) <= Rank(c'.state) && c'.frees == c.frees && c'.ends == c.ends
  {
  }

  lemma CheckedInv(c: Conn)
    requires Inv(c) && c.pc == Idle
    ensures Inv(ClosingChecked(c)) && Rank(c.state) <= Rank(ClosingChecked(c).state)
    ensures Inv(AbortingChecked(c)) && Rank(c.state) <= Rank(AbortingChecked(c).state)
    ensures c.inMap ==> Inv(Failed(c)) && Rank(c.state) <= Rank(Failed(c).state)
  {
  }

  lemma ContinuedInv(c: Conn)
    requires Inv(c) && c.pc != Idle
    ensures var c' := Continued(c);
            Inv(c') && Rank(c.state) <= Rank(c'.state) && c.frees <= c'.frees && c.ends <= c'.ends
  {
  }

  /** Over every interleaving: the connection is in tcpConns exactly while its state is below tcpClosed; its key
      argument is freed exactly once, when it leaves; the pcb is closed, aborted or reported dead at most once in all;
      and tcpClosing is reached only when both sides were closed. */
  lemma {:induction false} EveryRun(t: seq<Conn>, i: nat)
    requires Run(t) && i < |t|
    ensures Inv(t[i])
  {
    if i > 0 {
      EveryRun(t, i - 1);
      assert Next(t[i - 1], t[i - 1 + 1]);
      StepInv(t[i - 1], t[i]);
    }
  }

  /** Over every interleaving the state never moves back. */
  lemma {:induction false} NeverBack(t: seq<Conn>, i: nat, j: nat)
    requires Run(t) && i <= j < |t|
    ensures Rank(t[i].state) <= Rank(t[j].state) && t[i].frees <= t[j].frees && t[i].ends <= t[j].ends
    decreases j - i
  {
    if i < j {
      EveryRun(t, i);
      assert Next(t[i], t[i + 1]);
      StepInv(t[i], t[i + 1]);
      NeverBack(t, i + 1, j);
    }
  }

  /** The branch of receiveCheck for tcpErrored is never taken: a callback runs only for a connection that is found, and
      nobody else can remove it meanwhile. */
  lemma ErroredBranchIsDead(t: seq<Conn>, i: nat)
    requires Run(t) && i < |t| && t[i].pc == ToReceive
    ensures t[i].state != NewConn && t[i].state != Errored && ReceiveVerdict(t[i].state) != Aborted
            && ReceiveChecked(t[i]) == t[i]
  {
    EveryRun(t, i);
  }

  /** What a receive callback is told, from what has happened to the connection: the data is taken if the handler has
      accepted the connection or has closed its writing side, the reading side is open, and nobody has asked to abort;
      it has to wait exactly if nothing has happened yet. */
  lemma ReceiveTells(t: seq<Conn>, i: nat)
    requires Run(t) && i < |t| && t[i].pc == ToReceive
    ensures var c := t[i];
            && c.state != NewConn && c.ends == 0
            && (ReceiveVerdict(c.state) == Ok <==> (c.accepted || c.writeClosed) && !c.readClosed && !c.asked)
            && (ReceiveVerdict(c.state) == NotYet <==> !c.accepted && !c.writeClosed && !c.readClosed && !c.asked)
            && (ReceiveVerdict(c.state) == ShutDown <==> c.readClosed || c.asked)
  {
    EveryRun(t, i);
  }

  /** Each thing that happens is kept in mind: a step of a goroutine accepts a connection to which nothing has happened,
      closes a side, or asks to abort; and what has happened stays so. */
  lemma HandlersTell(c: Conn)
    requires Inv(c)
    ensures Established(c).accepted <==> c.accepted || c.state == Connecting
    ensures WriteShut(c).writeClosed <==> c.writeClosed || (c.ends == 0 && !c.asked)
    ensures ReadShut(c).readClosed <==> c.readClosed || (c.ends == 0 && !c.asked)
    ensures AbortAsked(c).asked <==> c.asked || c.ends == 0
    ensures Established(c) == c.(state := Established(c).state, accepted := Established(c).accepted)
    ensures WriteShut(c) == c.(state := WriteShut(c).state, writeClosed := WriteShut(c).writeClosed)
    ensures ReadShut(c) == c.(state := ReadShut(c).state, readClosed := ReadShut(c).readClosed)
    ensures AbortAsked(c) == c.(state := AbortAsked(c).state, asked := AbortAsked(c).asked)
  {
  }

  /** Nor is the abort of a callback whose lookup fails: whatever takes a connection out of tcpConns takes its callbacks
      off, or ends its pcb. */
  lemma LookupNeverFails(t: seq<Conn>, i: nat)
    requires Run(t) && i < |t|
    ensures !LookupFails(t[i])
  {
    EveryRun(t, i);
  }

  /** A connection that is not ending yet is closing once both sides are closed, in whichever order. */
  lemma EitherOrder(c: Conn)
    requires Inv(c) && Rank(c.state) < Rank(Closing)
    ensures WriteShut(ReadShut(c)) == ReadShut(WriteShut(c))
              == c.(state := Closing, writeClosed := true, readClosed := true)
  {
  }

  /** Without the lookup the branch of receiveCheck would be taken, and move the state back. */
  lemma WithoutLookup(c: Conn)
    requires Inv(c) && !c.inMap
    ensures ReceiveChecked(c) != c <==> c.state == Errored
    ensures c.state == Errored ==> Rank(ReceiveChecked(c).state) < Rank(c.state) && ReceiveChecked(c).ends == 2
  {
  }

  /** The state in question is reached: the error callback ends a new connection. */
  lemma ErroredIsReached()
    ensures var c := CREATED.(pc := ToErr);
            var t := [CREATED, c, Continued(c)];
            && Run(t) && !t[2].inMap && t[2].state == Errored
            && Rank(ReceiveChecked(t[2]).state) < Rank(t[2].state) && ReceiveChecked(t[2]).ends == 2
  {
    var c := CREATED.(pc := ToErr);
    var t := [CREATED, c, Continued(c)];
    assert Begin(t[0], t[1]);
    forall i | 0 <= i < |t| - 1 ensures Next(t[i], t[i + 1]) {
    }
  }

  // ---------- the methods ----------

  /** The global map tcpConns. */
  class ConnMap {
    var conns: map<U32, TcpConn>

    constructor ()
      ensures conns == map[]
    {
      conns := map[];
    }
  }

  class TcpConn {
    const connKey: U32
    const tcpConns: ConnMap
    var state: State
    var argFrees: nat
    ghost var accepted: bool
    ghost var writeClosed: bool
    ghost var readClosed: bool
    ghost var asked: bool
    ghost var dead: bool
    ghost var ends: nat
    ghost var callbacks: bool

    ghost predicate InMap()
      reads this, tcpConns
    {
      connKey in tcpConns.conns && tcpConns.conns[connKey] == this
    }

    ghost function View(pc: Pc): Conn
      reads this, tcpConns
    {
      Conn(state, InMap(), argFrees, accepted, writeClosed, readClosed, asked, dead, ends, callbacks, pc)
    }

    /** The map has no other connection under this key. */
    ghost predicate OwnKey()
      reads this, tcpConns
    {
      connKey in tcpConns.conns ==> tcpConns.conns[connKey] == this
    }

    /** What every reachable state satisfies. */
    ghost predicate Valid()
      reads this, tcpConns
    {
      OwnKey() && Inv(View(Idle))
    }

    /** newTCPConn. The random key is taken to be a new one. */
    constructor (tcpConns: ConnMap, key: U32)
      requires key !in tcpConns.conns
      modifies tcpConns
      ensures View(Idle) == CREATED && Valid() && this.tcpConns == tcpConns && connKey == key
      ensures tcpConns.conns == old(tcpConns.conns)[key := this]
    {
      connKey, this.tcpConns, state, argFrees := key, tcpConns, NewConn, 0;
      accepted, writeClosed, readClosed, asked, dead, ends, callbacks := false, false, false, false, false, 0, true;
      new;
      tcpConns.conns := tcpConns.conns[key := this];
      state := Connecting;
    }

    method Establish()
      modifies this
      ensures forall pc :: View(pc) == Established(old(View(pc)))
      ensures old(Valid()) ==> Valid() && Rank(old(state)) <= Rank(state)
      ensures accepted <==> old(accepted) || old(state) == Connecting
    {
      if state != Connecting {
        return;
      }
      state, accepted := Connected, true;
    }

    method CloseWrite()
      modifies this
      ensures forall pc :: View(pc) == WriteShut(old(View(pc)))
      ensures old(Valid()) ==> Valid() && Rank(old(state)) <= Rank(state)
      ensures old(Valid()) ==> if Rank(old(state)) < Rank(Closing) then writeClosed else state == old(state)
    {
      if Rank(state) >= Rank(Closing) || state == WriteClosed {
        return;
      }
      if state == ReceiveClosed {
        state := Closing;
      } else {
        state := WriteClosed;
      }
      writeClosed := true;
    }

    method SetLocalClosed()
      modifies this
      ensures forall pc :: View(pc) == ReadShut(old(View(pc)))
      ensures old(Valid()) ==> Valid() && Rank(old(state)) <= Rank(state)
      ensures old(Valid()) ==> if Rank(old(state)) < Rank(Closing) then readClosed else state == old(state)
    {
      if Rank(state) >= Rank(Closing) || state == ReceiveClosed {
        return;
      }
      if state == WriteClosed {
        state := Closing;
      } else {
        state := ReceiveClosed;
      }
      readClosed := true;
    }

    /** The first half of Abort. */
    method AskAbort()
      modifies this
      ensures forall pc :: View(pc) == AbortAsked(old(View(pc)))
      ensures old(Valid()) ==> Valid() && Rank(old(state)) <= Rank(state)
      ensures old(Valid()) ==> (asked <==> old(asked) || old(ends) == 0)
    {
      if Rank(state) < Rank(Aborting) {
        state, asked := Aborting, true;
      }
    }

    method Release()
      requires OwnKey()
      modifies this, tcpConns
      ensures OwnKey() && forall pc :: View(pc) == Released(old(View(pc)))
      ensures tcpConns.conns == old(tcpConns.conns) - {connKey}
    {
      if connKey in tcpConns.conns {
        argFrees := argFrees + 1;
        tcpConns.conns := tcpConns.conns - {connKey};
      }
      state := Closed;
    }

    /** checkClosing with closeInternal. The result tells whether the connection was closed. */
    method CheckClosing() returns (done: bool)
      requires OwnKey()
      modifies this, tcpConns
      ensures OwnKey() && done == (old(state) == Closing) && forall pc :: View(pc) == ClosingChecked(old(View(pc)))
      ensures old(Valid()) ==> Valid() && Rank(old(state)) <= Rank(state)
      ensures if done then state == Closed && ends == old(ends) + 1 && connKey !in tcpConns.conns
              else View(Idle) == old(View(Idle)) && tcpConns.conns == old(tcpConns.conns)
    {
      hide Inv;
      if Valid() {
        CheckedInv(View(Idle));
      }
      done := state == Closing;
      if done {
        Release();
        ends, callbacks := ends + 1, false;
      }
    }

    /** checkAborting with abortInternal. */
    method CheckAborting() returns (done: bool)
      requires OwnKey()
      modifies this, tcpConns
      ensures OwnKey() && done == (old(state) == Aborting) && forall pc :: View(pc) == AbortingChecked(old(View(pc)))
      ensures old(Valid()) ==> Valid() && Rank(old(state)) <= Rank(state)
      ensures if done then state == Closed && ends == old(ends) + 1 && connKey !in tcpConns.conns
              else View(Idle) == old(View(Idle)) && tcpConns.conns == old(tcpConns.conns)
    {
      hide Inv;
      if Valid() {
        CheckedInv(View(Idle));
      }
      done := state == Aborting;
      if done {
        Release();
        ends, callbacks := ends + 1, false;
      }
    }

    /** checkState, if nothing comes between its sections: it ends a connection that is closing or aborting. */
    method CheckState()
      requires OwnKey()
      modifies this, tcpConns
      ensures OwnKey()
      ensures View(Idle) ==
                if old(state) == Closing then ClosingChecked(old(View(Idle))) else AbortingChecked(old(View(Idle)))
      ensures old(Valid()) ==> Valid() && Rank(old(state)) <= Rank(state)
      ensures old(Valid()) ==> state != Closing && state != Aborting
      ensures if old(state) == Closing || old(state) == Aborting
              then state == Closed && ends == old(ends) + 1 && connKey !in tcpConns.conns
              else View(Idle) == old(View(Idle)) && tcpConns.conns == old(tcpConns.conns)
    {
      if state == Closed {
        return;
      }
      var done := CheckClosing();
      if done {
        return;
      }
      done := CheckAborting();
    }

    method Err()
      requires OwnKey()
      modifies this, tcpConns
      ensures OwnKey() && forall pc :: View(pc) == Failed(old(View(pc)))
      ensures old(Valid() && InMap()) ==> Valid() && Rank(old(state)) <= Rank(state)
      ensures state == Errored && ends == old(ends) + 1 && connKey !in tcpConns.conns
    {
      hide Inv;
      if Valid() {
        CheckedInv(View(Idle));
      }
      Release();
      ends, callbacks := ends + 1, false;
      state, dead := Errored, true;
    }

    method ReceiveCheck() returns (v: Verdict)
      requires OwnKey() && state != NewConn
      modifies this, tcpConns
      ensures OwnKey() && v == ReceiveVerdict(old(state)) && forall pc :: View(pc) == ReceiveChecked(old(View(pc)))
      ensures old(Valid() && InMap()) ==> Valid() && v != Aborted && state == old(state)
      ensures old(Valid() && InMap()) ==>
                && (v == Ok <==> (accepted || writeClosed) && !readClosed && !asked)
                && (v == NotYet <==> !accepted && !writeClosed && !readClosed && !asked)
                && (v == ShutDown <==> readClosed || asked)
    {
      match state
      case Connected => v := Ok;
      case WriteClosed => v := Ok;
      case Connecting => v := NotYet;
      case Errored =>
        Release();
        ends, callbacks := ends + 1, false;
        v := Aborted;
      case _ => v := ShutDown;
    }
  }
}
