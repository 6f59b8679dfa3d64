/**
 * Node.java: one Chord node's finger table and predecessor, changed in
 * place. Every state change is proved to agree with its counterpart in
 * NodeSpec (`State() == Spec(old(State()))`), where its properties are
 * proved; the lookups that only read or evict carry their promises here.
 *
 * The identifier of an endpoint (Helper.hashSocketAddress) is the
 * function `hash`, bounded by 2^32; replies of other nodes come from the
 * `Network` oracle; the notices the node sends are recorded in `notifyLog`.
 */
module ChordNode {
  import opened JavaLib
  import opened Helper
  import opened NodeSpec

  class Node {
    const local: Endpoint
    const hash: Endpoint -> int
    const localId: int
    /** Slot i (1..32) is finger i; slot 0 is never used. */
    const finger: array<Option<Endpoint>>
    var predecessor: Option<Endpoint>
    /** The endpoints this node has sent "IAMPRE" to, oldest first. */
    ghost var notifyLog: seq<Endpoint>

    ghost predicate Valid()
      reads this, finger
    {
      finger.Length == Slots + 1 && finger[0] == None &&
      localId == hash(local) && (forall e :: 0 <= hash(e) < Ring)
    }

    ghost function State(): (st: NodeState)
      reads this, finger
      requires Valid()
      ensures ValidState(st)
    {
      NodeState(finger[..], predecessor, notifyLog)
    }

    /** The constructor: every finger and the predecessor empty. */
    constructor (address: Endpoint, hash: Endpoint -> int)
      requires forall e :: 0 <= hash(e) < Ring
      ensures Valid() && fresh(finger)
      ensures this.local == address && this.hash == hash
      ensures State() == NodeState(EmptyTable(), None, [])
    {
      local := address;
      this.hash := hash;
      localId := hash(address);
      var table := new Option<Endpoint>[Slots + 1](_ => None);
      finger := table;
      predecessor := None;
      notifyLog := [];
      new;
      assert finger[..] == EmptyTable();
    }

    /** getSuccessor: finger 1, the successor slot of the node's state. */
    function Successor(): (r: Option<Endpoint>)
      reads this, finger
      requires Valid()
      ensures r == State().table[1]
    {
      finger[1]
    }

    /** notify: send "IAMPRE" to the target when it is another node. */
    method Notify(target: Option<Endpoint>)
      modifies this`notifyLog
      ensures notifyLog == old(notifyLog) + Notice(target, local)
    {
      if target.Some? && target.value != local {
        notifyLog := notifyLog + [target.value];
      }
    }

    method SetPredecessor(pre: Option<Endpoint>)
      modifies this`predecessor
      ensures predecessor == pre
    {
      predecessor := pre;
    }

    method ClearPredecessor()
      modifies this`predecessor
      ensures predecessor == None
    {
      SetPredecessor(None);
    }

    method UpdateIthFinger(i: int, value: Option<Endpoint>)
      requires Valid() && 1 <= i <= Slots
      modifies finger, this`notifyLog
      ensures Valid() && State() == SetFinger(old(State()), i, value, local)
      ensures predecessor == old(predecessor)
    {
      finger[i] := value;
      if i == 1 && value.Some? && value.value != local {
        Notify(value);
      }
    }

    method DeleteCertainFinger(f: Option<Endpoint>)
      requires Valid()
      modifies finger
      ensures Valid() && finger[..] == Without(old(finger[..]), f)
    {
      var i := Slots;
      while i > 0
        invariant 0 <= i <= Slots
        invariant forall j :: 0 <= j <= i ==> finger[j] == old(finger[j])
        invariant forall j :: i < j <= Slots ==> finger[j] == Without(old(finger[..]), f)[j]
      {
        var ithFinger := finger[i];
        if ithFinger.Some? && ithFinger == f {
          finger[i] := None;
        }
        i := i - 1;
      }
    }

    method FillSuccessor()
      requires Valid()
      modifies finger, this`notifyLog
      ensures Valid() && State() == Fill(old(State()), local)
    {
      var successor := finger[1];
      if successor.None? || successor.value == local {
        var i := 2;
        while i <= Slots
          invariant 2 <= i <= Slots + 1
          invariant finger[..] == old(finger[..]) && notifyLog == old(notifyLog)
          invariant forall j :: 2 <= j < i ==> !IsRemote(finger[j], local)
        {
          var ithFinger := finger[i];
          if ithFinger.Some? && ithFinger.value != local {
            CopyDownFrom(i);
            break;
          }
          i := i + 1;
        }
      }
      successor := finger[1];
      if (successor.None? || successor.value == local) && predecessor.Some? && predecessor.value != local {
        UpdateIthFinger(1, predecessor);
      }
    }

    /** The inner loop of fillSuccessor: slots i-1 down to 1 take finger i. */
    method CopyDownFrom(i: nat)
      requires Valid() && 2 <= i <= Slots && IsRemote(finger[i], local)
      modifies finger, this`notifyLog
      ensures Valid() && finger[..] == CopyDown(old(finger[..]), i)
      ensures notifyLog == old(notifyLog) + [old(finger[i]).value]
    {
      var ithFinger := finger[i];
      var j := i - 1;
      while j >= 1
        invariant 0 <= j <= i - 1 && Valid()
        invariant forall m :: 0 <= m <= Slots ==> finger[m] == (if j < m < i then ithFinger else old(finger[m]))
        invariant notifyLog == old(notifyLog) + (if j == 0 then [ithFinger.value] else [])
      {
        UpdateIthFinger(j, ithFinger);
        j := j - 1;
      }
    }

    method DeleteSuccessor(net: Network, fuel: nat) returns (status: Outcome<()>)
      requires Valid()
      modifies finger, this`predecessor, this`notifyLog
      ensures Valid() && (status, State()) == NodeSpec.DeleteSuccessor(old(State()), local, net, fuel)
    {
      var successor := Successor();
      if successor.None? {
        return Returns(());
      }
      ClearSuccessor();
      FillSuccessor();
      successor := Successor();
      if (successor.None? || successor.value == successor.value) && predecessor.Some? && predecessor.value != local {
        var walk := WalkPredecessors(predecessor.value, successor, YourPre(net), fuel);
        match walk
        case Throws(e) => return Throws(e);
        case Hangs => return Hangs;
        case Returns(p) => UpdateIthFinger(1, Some(p));
      }
      return Returns(());
    }

    /**
     * The first part of deleteSuccessor: find the last slot holding the
     * successor, empty the slots from there down to 1, and drop the
     * predecessor when it is the successor.
     */
    method ClearSuccessor()
      requires Valid() && finger[1].Some?
      modifies finger, this`predecessor, this`notifyLog
      ensures Valid() && State() == Cleared(old(State()))
    {
      var successor := finger[1];
      var i := Slots;
      while i > 0 && !(finger[i].Some? && finger[i] == successor)
        invariant 0 <= i <= Slots
        invariant forall j :: i < j <= Slots ==> finger[j] != successor
      {
        i := i - 1;
      }
      assert i == LastIndexOf(old(finger[..]), successor.value, Slots);
      var j := i;
      while j >= 1
        invariant 0 <= j <= i && Valid()
        invariant forall m :: 0 <= m <= Slots ==> finger[m] == (if j < m <= i then None else old(finger[m]))
        invariant predecessor == old(predecessor) && notifyLog == old(notifyLog)
      {
        UpdateIthFinger(j, None);
        j := j - 1;
      }
      if predecessor.Some? && predecessor == successor {
        SetPredecessor(None);
      }
    }

    /**
     * The closing loop of deleteSuccessor: walk from `start` along the
     * "YOURPRE" replies (which throw or return, as requestAddress does)
     * until one is missing, or names the current p, the node or `successor`;
     * at most `fuel` requests are sent.
     */
    method WalkPredecessors(start: Endpoint, successor: Option<Endpoint>, yourPre: Endpoint -> Outcome<Option<Endpoint>>, fuel: nat)
      returns (res: Outcome<Endpoint>)
      requires forall q :: !yourPre(q).Hangs?
      ensures res == Walk(yourPre, start, local, successor, fuel)
    {
      var p := start;
      var steps := fuel;
      while true
        invariant Walk(yourPre, p, local, successor, steps) == Walk(yourPre, start, local, successor, fuel)
        decreases steps
      {
        if steps == 0 {
          return Hangs;
        }
        steps := steps - 1;
        var reply := yourPre(p);
        if reply.Throws? {
          return Throws(reply.ex);
        }
        var pPre := reply.value;
        if pPre.None? {
          break;
        }
        if pPre.value == p || pPre.value == local || pPre == successor {
          break;
        }
        p := pPre.value;
      }
      return Returns(p);
    }

    /** updateFingers: the one entry point for changes to the finger table. */
    method UpdateFingers(code: int, value: Option<Endpoint>, net: Network, fuel: nat) returns (status: Outcome<()>)
      requires Valid()
      modifies finger, this`predecessor, this`notifyLog
      ensures Valid() && (status, State()) == Update(old(State()), code, value, local, net, fuel)
    {
      status := Returns(());
      if 0 < code <= Slots {
        UpdateIthFinger(code, value);
      } else if code == -1 {
        status := DeleteSuccessor(net, fuel);
      } else if code == -2 {
        DeleteCertainFinger(value);
      } else if code == -3 {
        FillSuccessor();
      }
    }

    /** notified: adopt c as predecessor by the rule of NodeSpec.Notified. */
    method Notified(c: Option<Endpoint>) returns (status: Outcome<()>)
      requires Valid()
      modifies this`predecessor
      ensures var r := NodeSpec.Notified(old(predecessor), c, local, hash);
        if r.Returns? then status == Returns(()) && predecessor == r.value
        else status == Throws(NullPointer) && predecessor == old(predecessor)
    {
      if predecessor.None? || predecessor.value == local {
        SetPredecessor(c);
      } else {
        if c.None? {
          return Throws(NullPointer);
        }
        var oldpreId := hash(predecessor.value);
        var localRelativeId := RelativeId(localId, oldpreId);
        var newpreRelativeId := RelativeId(hash(c.value), oldpreId);
        if newpreRelativeId > 0 && newpreRelativeId < localRelativeId {
          SetPredecessor(c);
        }
      }
      return Returns(());
    }

    /**
     * closest_preceding_finger: scan slots 32 down to 1 for a finger strictly
     * between the node and findId that answers "KEEP" with "ALIVE", deleting
     * (by updateFingers(-2, ..)) every such finger that does not answer.
     */
    method ClosestPrecedingFinger(findId: int, net: Network) returns (r: Endpoint)
      requires Valid()
      modifies finger
      ensures Valid()
      ensures (r, finger[..]) == Scan(old(finger[..]), Slots, Probe(hash, localId, findId, net), local)
      ensures var k := HighestLive(old(finger[..]), Slots, Probe(hash, localId, findId, net));
        r == (if k == 0 then local else old(finger[k]).value)
    {
      ghost var pr := Probe(hash, localId, findId, net);
      ScanChoice(old(finger[..]), pr, local);
      ghost var goal := Scan(old(finger[..]), Slots, pr, local);
      var findidRelative := RelativeId(findId, localId);
      var i := Slots;
      while i > 0
        invariant 0 <= i <= Slots && Valid()
        invariant Scan(finger[..], i, pr, local) == goal
      {
        var found := ProbeSlot(i, findId, findidRelative, net);
        if found.Some? {
          return found.value;
        }
        i := i - 1;
      }
      return local;
    }

    /**
     * One pass of the loop of closest_preceding_finger, at slot i: a
     * qualifying finger that answers is the result; one that does not is
     * deleted everywhere, and the scan goes on below slot i.
     */
    method ProbeSlot(i: nat, findId: int, findidRelative: int, net: Network) returns (found: Option<Endpoint>)
      requires Valid() && 1 <= i <= Slots && findidRelative == RelativeId(findId, localId)
      modifies finger
      ensures Valid()
      ensures var pr := Probe(hash, localId, findId, net);
        if found.Some? then (found.value, finger[..]) == Scan(old(finger[..]), i, pr, local)
        else Scan(finger[..], i - 1, pr, local) == Scan(old(finger[..]), i, pr, local)
    {
      ghost var pr := Probe(hash, localId, findId, net);
      ghost var t := finger[..];
      ScanUnfold(t, i, pr, local);
      var ithFinger := finger[i];
      if ithFinger.None? {
        return None;
      }
      var ithFingerRelativeId := RelativeId(hash(ithFinger.value), localId);
      if ithFingerRelativeId > 0 && ithFingerRelativeId < findidRelative {
        assert Qualifies(pr, ithFinger.value);
        var response := net.send(ithFinger.value, "KEEP");
        if response.Some? && response.value == "ALIVE" {
          assert Alive(pr, ithFinger.value);
          return ithFinger;
        }
        assert !Alive(pr, ithFinger.value);
        DeleteCertainFinger(ithFinger);
        assert finger[..] == Without(t, t[i]);
      } else {
        assert !Qualifies(pr, ithFinger.value);
      }
      return None;
    }

    /** findId lies on the arc (node, successor] by the identifiers the node starts its search with. */
    ghost predicate InSuccessorArc(t: Table, findId: int)
      reads this
      requires IsTable(t)
    {
      var succRel := if t[1].Some? then RelativeId(hash(t[1].value), localId) else 0;
      var findRel := RelativeId(findId, localId);
      findRel > 0 && findRel <= succRel
    }

    /**
     * find_predecessor, with `fuel` bounding the number of rounds. It only
     * ever empties slots. When findId lies between the node and its
     * successor the node itself is the answer; when the node's own scan for
     * findId finds no live finger the first round also ends at the node.
     */
    method FindPredecessor(findId: int, net: Network, fuel: nat) returns (res: Outcome<Endpoint>)
      requires Valid()
      modifies finger
      ensures Valid()
      ensures forall j :: 0 <= j <= Slots ==> finger[j] in {old(finger[j]), None}
      ensures InSuccessorArc(old(finger[..]), findId) ==> res == Returns(local) && finger[..] == old(finger[..])
      ensures var scan := Scan(old(finger[..]), Slots, Probe(hash, localId, findId, net), local);
        !InSuccessorArc(old(finger[..]), findId) && fuel > 0 && scan.0 == local ==>
          res == Returns(local) && finger[..] == scan.1
    {
      ghost var pr := Probe(hash, localId, findId, net);
      ghost var scan := Scan(old(finger[..]), Slots, pr, local);
      ghost var trap := !InSuccessorArc(old(finger[..]), findId) && fuel > 0 && scan.0 == local;
      var n := local;
      var nSuccessor := Successor();
      var mostRecentlyAlive := local;
      var nSuccessorRelativeId := 0;
      if nSuccessor.Some? {
        nSuccessorRelativeId := RelativeId(hash(nSuccessor.value), hash(n));
      }
      var findidRelativeId := RelativeId(findId, hash(n));
      var steps := fuel;
      ghost var first := true;
      while !(findidRelativeId > 0 && findidRelativeId <= nSuccessorRelativeId)
        invariant Valid()
        invariant forall j :: 0 <= j <= Slots ==> finger[j] in {old(finger[j]), None}
        invariant InSuccessorArc(old(finger[..]), findId) ==> first
        invariant first ==> n == local && finger[..] == old(finger[..]) && steps == fuel &&
                            (findidRelativeId > 0 && findidRelativeId <= nSuccessorRelativeId <==> InSuccessorArc(old(finger[..]), findId))
        invariant trap ==> first
        decreases steps
      {
        if steps == 0 {
          return Hangs;
        }
        steps := steps - 1;
        var preN := n;
        if n == local {
          ghost var t := finger[..];
          ScanOnlyEvicts(t, pr, local);
          n := ClosestPrecedingFinger(findId, net);
        } else {
          var result := Ask(net, n, IdRequest("CLOSEST", findId));
          if !result.Returns? {
            return Throws(result.ex);
          }
          if result.value.None? {
            n := mostRecentlyAlive;
            var reply := Ask(net, n, "YOURSUCC");
            if !reply.Returns? {
              return Throws(reply.ex);
            }
            nSuccessor := reply.value;
            if nSuccessor.None? {
              return Returns(local);
            }
            first := false;
            continue;
          } else if result.value.value == n {
            return Returns(n);
          } else {
            var found := result.value.value;
            mostRecentlyAlive := n;
            var reply := Ask(net, found, "YOURSUCC");
            if !reply.Returns? {
              return Throws(reply.ex);
            }
            nSuccessor := reply.value;
            if nSuccessor.Some? {
              n := found;
            } else {
              reply := Ask(net, n, "YOURSUCC");
              if !reply.Returns? {
                return Throws(reply.ex);
              }
              nSuccessor := reply.value;
            }
          }
          if nSuccessor.None? {
            return Throws(NullPointer);
          }
          nSuccessorRelativeId := RelativeId(hash(nSuccessor.value), hash(n));
          findidRelativeId := RelativeId(findId, hash(n));
        }
        if preN == n {
          break;
        }
        first := false;
      }
      return Returns(n);
    }

    /**
     * find_successor: ask the node find_predecessor yields for its
     * successor; when that is the local node, answer with the successor as
     * it was before the search, or the node itself when there was none.
     */
    method FindSuccessor(findId: int, net: Network, fuel: nat) returns (res: Outcome<Endpoint>)
      requires Valid()
      modifies finger
      ensures Valid()
      ensures forall j :: 0 <= j <= Slots ==> finger[j] in {old(finger[j]), None}
      ensures InSuccessorArc(old(finger[..]), findId) ==>
                res == Returns(if old(finger[1]).Some? then old(finger[1]).value else local) &&
                finger[..] == old(finger[..])
      ensures var scan := Scan(old(finger[..]), Slots, Probe(hash, localId, findId, net), local);
        !InSuccessorArc(old(finger[..]), findId) && fuel > 0 && scan.0 == local ==>
          res == Returns(if old(finger[1]).Some? then old(finger[1]).value else local) &&
          finger[..] == scan.1
    {
      var ret := Successor();
      var pre := FindPredecessor(findId, net, fuel);
      if !pre.Returns? {
        return pre;
      }
      if pre.value != local {
        var reply := Ask(net, pre.value, "YOURSUCC");
        if !reply.Returns? {
          return Throws(reply.ex);
        }
        ret := reply.value;
      }
      if ret.None? {
        ret := Some(local);
      }
      return Returns(ret.value);
    }

    /**
     * join: a contact other than the node itself is asked for the node's
     * successor; without an answer the join fails, otherwise the answer
     * becomes finger 1 (and is notified). Starting the node's threads is not
     * modelled.
     */
    method Join(contact: Option<Endpoint>, net: Network) returns (joined: Outcome<bool>)
      requires Valid()
      modifies finger, this`notifyLog
      ensures Valid() && predecessor == old(predecessor)
      ensures !IsRemote(contact, local) ==> joined == Returns(true) && State() == old(State())
      ensures IsRemote(contact, local) ==>
        match Ask(net, contact.value, IdRequest("FINDSUCC", localId))
        case Returns(Some(s)) => joined == Returns(true) && State() == SetFinger(old(State()), 1, Some(s), local)
        case Returns(None) => joined == Returns(false) && State() == old(State())
        case _ => !joined.Returns? && State() == old(State())
    {
      if contact.Some? && contact.value != local {
        var reply := Ask(net, contact.value, IdRequest("FINDSUCC", localId));
        if !reply.Returns? {
          return Throws(reply.ex);
        }
        var successor := reply.value;
        if successor.None? {
          return Returns(false);
        }
        UpdateIthFinger(1, successor);
      }
      return Returns(true);
    }
  }
}
