/**
 * Stabilize.java: one round of the stabilize thread. A node without
 * another node as successor first refills it; a node that then has one asks
 * it for its predecessor x and deletes the successor when there is no
 * answer, adopts x when x lies between the node and its successor, or
 * notifies the successor when x is the successor itself.
 */
module Stabilize {
  import opened JavaLib
  import opened Helper
  import opened NodeSpec
  import opened ChordNode

  /** The round as a function of the node's state before it. */
  function StepSpec(st: NodeState, local: Endpoint, hash: Endpoint -> int, net: Network, fuel: nat): (r: (Outcome<()>, NodeState))
    requires ValidState(st)
    ensures ValidState(r.1)
  {
    var st1 := if IsRemote(st.table[1], local) then st else Update(st, -3, None, local, net, fuel).1;
    var s := st1.table[1];
    if !IsRemote(s, local) then (Returns(()), st1)
    else AfterReply(st1, s.value, Ask(net, s.value, "YOURPRE"), local, hash, net, fuel)
  }

  /** What the round does once successor s has answered the YOURPRE request with reply. */
  function AfterReply(st1: NodeState, s: Endpoint, reply: Outcome<Option<Endpoint>>, local: Endpoint, hash: Endpoint -> int, net: Network, fuel: nat): (r: (Outcome<()>, NodeState))
    requires ValidState(st1) && st1.table[1] == Some(s)
    ensures ValidState(r.1)
  {
    match reply
    case Throws(e) => (Throws(e), st1)
    case Hangs => (Hangs, st1)
    case Returns(None) => Update(st1, -1, None, local, net, fuel)
    case Returns(Some(x)) =>
      if x != s then
        if 0 < RelativeId(hash(x), hash(local)) < RelativeId(hash(s), hash(local)) then
          Update(st1, 1, Some(x), local, net, fuel)
        else (Returns(()), st1)
      else (Returns(()), NodeState(st1.table, st1.pred, st1.log + Notice(Some(s), local)))
  }

  /** The run loop's body: one round on the node. */
  method Step(node: Node, net: Network, fuel: nat) returns (status: Outcome<()>)
    requires node.Valid()
    modifies node.finger, node`predecessor, node`notifyLog
    ensures node.Valid()
    ensures (status, node.State()) == StepSpec(old(node.State()), node.local, node.hash, net, fuel)
  {
    var successor := node.Successor();
    if successor.None? || successor.value == node.local {
      var _ := node.UpdateFingers(-3, None, net, fuel);
    }
    successor := node.Successor();
    if successor.Some? && successor.value != node.local {
      var x := Ask(net, successor.value, "YOURPRE");
      if x.Throws? {
        return Throws(x.ex);
      }
      if x.value.None? {
        status := node.UpdateFingers(-1, None, net, fuel);
        return;
      } else if x.value.value != successor.value {
        var localId := node.hash(node.local);
        var successorRelativeId := RelativeId(node.hash(successor.value), localId);
        var xRelativeId := RelativeId(node.hash(x.value.value), localId);
        if xRelativeId > 0 && xRelativeId < successorRelativeId {
          status := node.UpdateFingers(1, x.value, net, fuel);
          return;
        }
      } else {
        node.Notify(successor);
      }
    }
    return Returns(());
  }

  /** Requesting the fill only when needed is the same as always filling. */
  lemma {:induction false} StepStartsWithFill(st: NodeState, local: Endpoint, net: Network, fuel: nat)
    requires ValidState(st)
    ensures (if IsRemote(st.table[1], local) then st else Update(st, -3, None, local, net, fuel).1) == Fill(st, local)
  {
    if IsRemote(st.table[1], local) {
      FillKeepsRemoteSuccessor(st, local);
    }
  }

  /** When even the fill finds no other node for finger 1, the round does nothing else. */
  lemma StepWithoutSuccessor(st: NodeState, local: Endpoint, hash: Endpoint -> int, net: Network, fuel: nat)
    requires ValidState(st) && !IsRemote(Fill(st, local).table[1], local)
    ensures StepSpec(st, local, hash, net, fuel) == (Returns(()), Fill(st, local))
  {
    StepStartsWithFill(st, local, net, fuel);
  }

  /** A successor that does not answer is deleted. */
  lemma StepDeletesSilentSuccessor(st: NodeState, local: Endpoint, hash: Endpoint -> int, net: Network, fuel: nat)
    requires ValidState(st)
    requires var s := Fill(st, local).table[1]; IsRemote(s, local) && net.send(s.value, "YOURPRE").None?
    ensures StepSpec(st, local, hash, net, fuel) == NodeSpec.DeleteSuccessor(Fill(st, local), local, net, fuel)
  {
    StepStartsWithFill(st, local, net, fuel);
  }

  /**
   * When the successor names another node x as its predecessor, x becomes
   * finger 1 (and is notified) exactly when it lies on the open clockwise
   * arc from the node to the successor; nothing else changes.
   */
  lemma StepAdoptsBetween(st: NodeState, local: Endpoint, hash: Endpoint -> int, net: Network, fuel: nat, x: Endpoint)
    requires ValidState(st) && forall e :: 0 <= hash(e) < Ring
    requires var s := Fill(st, local).table[1]; IsRemote(s, local) && x != s.value
    requires Ask(net, Fill(st, local).table[1].value, "YOURPRE") == Returns(Some(x))
    ensures var f := Fill(st, local);
      StepSpec(st, local, hash, net, fuel) ==
        (Returns(()),
         if ClockwiseBetween(hash(local), hash(x), hash(f.table[1].value)) then SetFinger(f, 1, Some(x), local) else f)
  {
    StepStartsWithFill(st, local, net, fuel);
    RelativeBetween(hash(local), hash(x), hash(Fill(st, local).table[1].value));
  }

  /**
   * A successor that names itself as its predecessor, or answers
   * "NOTHING", is notified and the fingers stay as the fill left them.
   */
  lemma StepNotifiesSuccessor(st: NodeState, local: Endpoint, hash: Endpoint -> int, net: Network, fuel: nat)
    requires ValidState(st)
    requires var s := Fill(st, local).table[1];
      IsRemote(s, local) &&
      (Ask(net, s.value, "YOURPRE") == Returns(s) ||
       (net.send(s.value, "YOURPRE").Some? && StartsWith(net.send(s.value, "YOURPRE").value, "NOTHING")))
    ensures var f := Fill(st, local);
      StepSpec(st, local, hash, net, fuel) == (Returns(()), NodeState(f.table, f.pred, f.log + [f.table[1].value]))
  {
    StepStartsWithFill(st, local, net, fuel);
  }

  /** A round either keeps the predecessor or drops it (when it was the deleted successor). */
  lemma {:induction false} StepKeepsPredecessor(st: NodeState, local: Endpoint, hash: Endpoint -> int, net: Network, fuel: nat)
    requires ValidState(st)
    ensures var r := StepSpec(st, local, hash, net, fuel).1;
      r.pred == st.pred || r.pred.None?
  {
    StepStartsWithFill(st, local, net, fuel);
    var f := Fill(st, local);
    FillKeepsPredecessor(st, local);
    var s := f.table[1];
    if IsRemote(s, local) {
      AfterReplyKeepsPredecessor(f, s.value, Ask(net, s.value, "YOURPRE"), local, hash, net, fuel);
    }
  }

  lemma AfterReplyKeepsPredecessor(st1: NodeState, s: Endpoint, reply: Outcome<Option<Endpoint>>, local: Endpoint, hash: Endpoint -> int, net: Network, fuel: nat)
    requires ValidState(st1) && st1.table[1] == Some(s)
    ensures var r := AfterReply(st1, s, reply, local, hash, net, fuel).1;
      r.pred == st1.pred || (r.pred.None? && st1.pred == Some(s))
  {
    if reply == Returns(None) {
      DeleteSuccessorPredecessor(st1, local, net, fuel);
    }
  }

  lemma FillKeepsPredecessor(st: NodeState, local: Endpoint)
    requires ValidState(st)
    ensures Fill(st, local).pred == st.pred
  {
  }
}
