/** The states that a connection can have once its SYN has arrived. */
module TcpStates {
  datatype State =
    SYN_RCVD | ESTABLISHED | FIN_WAIT_1 | FIN_WAIT_2 | CLOSE_WAIT | CLOSING | LAST_ACK | TIME_WAIT

  /** The peer may still send: the states below CLOSE_WAIT. */
  predicate Open(s: State) {
    s.SYN_RCVD? || s.ESTABLISHED? || s.FIN_WAIT_1? || s.FIN_WAIT_2?
  }

  /** The application may still write: what tcp_write_checks lets pass. */
  predicate Writable(s: State) {
    s.SYN_RCVD? || s.ESTABLISHED? || s.CLOSE_WAIT?
  }

  /** How far a connection has come, as RFC 793 has it (section 3.5): whether our SYN was acknowledged, our FIN is
      queued and was acknowledged, the peer's FIN was received, and that before ours was queued. */
  datatype Sides = Sides(up: bool, ourFin: bool, ourAcked: bool, peerFin: bool, peerFirst: bool)

  /** What each state says about the two sides. */
  predicate Stands(s: State, x: Sides) {
    && (x.ourAcked ==> x.ourFin) && (x.peerFirst ==> x.peerFin) && (x.peerFin && !x.ourFin ==> x.peerFirst)
    && (Writable(s) <==> !x.ourFin)
    && (Open(s) <==> !x.peerFin)
    && (s.SYN_RCVD? ==> !x.up) && (s.ESTABLISHED? || s.CLOSE_WAIT? ==> x.up)
    && (s.FIN_WAIT_2? || s.TIME_WAIT? <==> x.ourAcked)
    && (s.CLOSING? || s.TIME_WAIT? ==> !x.peerFirst) && (s.CLOSE_WAIT? || s.LAST_ACK? ==> x.peerFirst)
  }

  /** What a segment does to the sides: it may acknowledge our SYN or our FIN, or bring the peer's FIN. */
  predicate Heeded(x: Sides, y: Sides, synAcked: bool, finAcked: bool, gotFin: bool) {
    && y.ourFin == x.ourFin
    && (y.up <==> x.up || synAcked)
    && (y.ourAcked <==> x.ourAcked || (x.ourFin && finAcked))
    && (y.peerFin <==> x.peerFin || gotFin)
    && (y.peerFirst <==> x.peerFirst || (gotFin && !x.ourFin))
  }

  /** They determine the state. */
  lemma OneState(s: State, t: State, x: Sides)
    requires Stands(s, x) && Stands(t, x)
    ensures s == t
  {
  }

  /** And they do so for all that can happen to the sides, except that a connection whose two FINs are acknowledged, the
      peer's first, is gone. */
  lemma SomeState(x: Sides) returns (s: State)
    requires (x.ourAcked ==> x.ourFin) && (x.peerFirst ==> x.peerFin) && (x.peerFin && !x.ourFin ==> x.peerFirst)
    requires (x.peerFirst ==> x.up) && !(x.ourAcked && x.peerFirst)
    ensures Stands(s, x)
  {
    s := if !x.ourFin then (if x.peerFin then CLOSE_WAIT else if x.up then ESTABLISHED else SYN_RCVD)
         else if !x.peerFin then (if x.ourAcked then FIN_WAIT_2 else FIN_WAIT_1)
         else if x.peerFirst then LAST_ACK else if x.ourAcked then TIME_WAIT else CLOSING;
  }
}
