/**
 * Node.java as values: the finger table and predecessor of one Chord node,
 * and what each of the node's state changes does to them. The class in
 * ChordNode.dfy runs the same changes in place and is proved to agree with
 * the functions here; the properties of the changes are lemmas below.
 *
 * A state holds the finger table (slots 1..32; slot 0 is never used), the
 * predecessor, and the endpoints the node has sent its "IAMPRE" notice to,
 * oldest first.
 */
module NodeSpec {
  import opened JavaLib
  import opened Helper

  /** Number of fingers, the bit length of identifiers. */
  const Slots: nat := 32

  type Table = seq<Option<Endpoint>>

  predicate IsTable(t: Table)
  {
    |t| == Slots + 1 && t[0] == None
  }

  /** x is set and is some node other than the local one. */
  predicate IsRemote(x: Option<Endpoint>, local: Endpoint)
  {
    x.Some? && x.value != local
  }

  datatype NodeState = NodeState(table: Table, pred: Option<Endpoint>, log: seq<Endpoint>)

  predicate ValidState(st: NodeState)
  {
    IsTable(st.table)
  }

  /** The table the constructor builds: every slot empty. */
  function EmptyTable(): (t: Table)
    ensures IsTable(t) && forall j :: 0 <= j < |t| ==> t[j] == None
  {
    seq(Slots + 1, _ => None)
  }

  // ---------------------------------------------------------------------
  // notify and updateIthFinger
  // ---------------------------------------------------------------------

  /** The endpoints notify(x) sends "IAMPRE" to: x itself when it is another node, else none. */
  function Notice(x: Option<Endpoint>, local: Endpoint): seq<Endpoint>
  {
    if IsRemote(x, local) then [x.value] else []
  }

  /** updateIthFinger(i, v): slot i becomes v; writing slot 1 notifies v. */
  function SetFinger(st: NodeState, i: int, v: Option<Endpoint>, local: Endpoint): NodeState
    requires ValidState(st) && 1 <= i <= Slots
  {
    NodeState(st.table[i := v], st.pred, st.log + (if i == 1 then Notice(v, local) else []))
  }

  /**
   * Writing a slot changes that slot only, and notifies exactly once, the
   * new value, when the slot is the successor slot and the value another node.
   */
  lemma SetFingerFrame(st: NodeState, i: int, v: Option<Endpoint>, local: Endpoint)
    requires ValidState(st) && 1 <= i <= Slots
    ensures var r := SetFinger(st, i, v, local);
      ValidState(r) && r.table[i] == v && r.pred == st.pred &&
      (forall j :: 0 <= j <= Slots && j != i ==> r.table[j] == st.table[j]) &&
      (if i == 1 && IsRemote(v, local) then r.log == st.log + [v.value] else r.log == st.log)
  {
  }

  // ---------------------------------------------------------------------
  // deleteCertainFinger
  // ---------------------------------------------------------------------

  /** deleteCertainFinger(f): every slot holding f is emptied. */
  function Without(t: Table, f: Option<Endpoint>): (r: Table)
    requires IsTable(t)
    ensures IsTable(r)
  {
    seq(|t|, j requires 0 <= j < |t| => if t[j].Some? && t[j] == f then None else t[j])
  }

  /** After deleting f no slot holds it, the other slots keep their values, and deleting again changes nothing. */
  lemma WithoutRemoves(t: Table, f: Option<Endpoint>)
    requires IsTable(t)
    ensures forall j :: 0 <= j <= Slots ==> Without(t, f)[j] == (if t[j] == f then None else t[j])
    ensures f.Some? ==> f !in Without(t, f)
    ensures Without(Without(t, f), f) == Without(t, f)
  {
  }

  // ---------------------------------------------------------------------
  // fillSuccessor
  // ---------------------------------------------------------------------

  /** The smallest index in [from, Slots] holding another node, 0 if there is none. */
  function FirstRemote(t: Table, local: Endpoint, from: nat): (k: nat)
    requires IsTable(t) && from >= 1
    ensures k == 0 || (from <= k <= Slots && IsRemote(t[k], local))
    ensures forall j :: from <= j <= Slots && (k == 0 || j < k) ==> !IsRemote(t[j], local)
    decreases Slots + 1 - from
  {
    if from > Slots then 0
    else if IsRemote(t[from], local) then from
    else FirstRemote(t, local, from + 1)
  }

  /** Slots 1..k-1 take the value of slot k; the others keep theirs. */
  function CopyDown(t: Table, k: nat): (r: Table)
    requires IsTable(t) && 1 <= k <= Slots
    ensures IsTable(r)
  {
    seq(|t|, j requires 0 <= j < |t| => if 1 <= j < k then t[k] else t[j])
  }

  /**
   * fillSuccessor: a node whose successor slot holds nothing or itself takes
   * the first other node in slots 2..32 as successor for all slots below it,
   * or failing that its predecessor when that is another node.
   */
  function Fill(st: NodeState, local: Endpoint): (r: NodeState)
    requires ValidState(st)
    ensures ValidState(r)
  {
    if IsRemote(st.table[1], local) then st
    else
      var k := FirstRemote(st.table, local, 2);
      if k != 0 then NodeState(CopyDown(st.table, k), st.pred, st.log + [st.table[k].value])
      else if IsRemote(st.pred, local) then SetFinger(st, 1, st.pred, local)
      else st
  }

  /**
   * After the fill the node has another node as successor exactly when it
   * had one before, or one in slots 2..32, or another node as predecessor.
   */
  lemma {:induction false} FillFindsSuccessor(st: NodeState, local: Endpoint)
    requires ValidState(st)
    ensures IsRemote(Fill(st, local).table[1], local) <==>
              IsRemote(st.table[1], local) ||
              (exists j :: 2 <= j <= Slots && IsRemote(st.table[j], local)) ||
              IsRemote(st.pred, local)
  {
    var k := FirstRemote(st.table, local, 2);
    if !IsRemote(st.table[1], local) && k == 0 && !IsRemote(st.pred, local) {
      assert forall j :: 2 <= j <= Slots ==> !IsRemote(st.table[j], local);
    }
  }

  /**
   * The fill invents no endpoint (every slot holds an old slot value or the
   * predecessor), keeps the predecessor, and logs at most one notice: to
   * the new successor, when it replaced a missing or local one.
   */
  lemma FillDrawsFromState(st: NodeState, local: Endpoint)
    requires ValidState(st)
    ensures var r := Fill(st, local);
      r.pred == st.pred &&
      (forall j :: 0 <= j <= Slots ==> r.table[j] in st.table || r.table[j] == st.pred) &&
      (r.log == st.log ||
       (!IsRemote(st.table[1], local) && IsRemote(r.table[1], local) && r.log == st.log + [r.table[1].value]))
  {
    var r := Fill(st, local);
    var k := FirstRemote(st.table, local, 2);
    if !IsRemote(st.table[1], local) && k != 0 {
      assert forall j :: 0 <= j <= Slots ==> r.table[j] == st.table[k] || r.table[j] == st.table[j];
    }
  }

  /**
   * Without another node as successor, the first slot i in 2..32 holding
   * another node is copied into slots 1..i-1 (notifying it once as the new
   * successor); slots i..32 and the predecessor stay as they were.
   */
  lemma FillCopiesFirstRemote(st: NodeState, local: Endpoint, i: nat)
    requires ValidState(st) && !IsRemote(st.table[1], local)
    requires 2 <= i <= Slots && IsRemote(st.table[i], local)
    requires forall j :: 2 <= j < i ==> !IsRemote(st.table[j], local)
    ensures var r := Fill(st, local);
      (forall j :: 1 <= j < i ==> r.table[j] == st.table[i]) &&
      (forall j :: i <= j <= Slots ==> r.table[j] == st.table[j]) &&
      r.pred == st.pred && r.log == st.log + [st.table[i].value]
  {
    var k := FirstRemote(st.table, local, 2);
    assert k == i;
  }

  /**
   * When no slot holds another node, the fill makes the predecessor the
   * successor if it is another node, and otherwise changes nothing.
   */
  lemma FillFromPredecessor(st: NodeState, local: Endpoint)
    requires ValidState(st)
    requires forall j :: 1 <= j <= Slots ==> !IsRemote(st.table[j], local)
    ensures Fill(st, local) == if IsRemote(st.pred, local) then SetFinger(st, 1, st.pred, local) else st
  {
    var k := FirstRemote(st.table, local, 2);
    assert k == 0;
  }

  /** A node that already has another node as successor is left as it is. */
  lemma FillKeepsRemoteSuccessor(st: NodeState, local: Endpoint)
    requires ValidState(st) && IsRemote(st.table[1], local)
    ensures Fill(st, local) == st
  {
  }

  // ---------------------------------------------------------------------
  // deleteSuccessor
  // ---------------------------------------------------------------------

  /** The highest index in [1, i] holding x, 0 if none: the backward search of deleteSuccessor. */
  function LastIndexOf(t: Table, x: Endpoint, i: nat): (k: nat)
    requires IsTable(t) && i <= Slots
    ensures k <= i && (k == 0 || t[k] == Some(x))
    ensures forall j :: k < j <= i ==> t[j] != Some(x)
  {
    if i == 0 then 0 else if t[i] == Some(x) then i else LastIndexOf(t, x, i - 1)
  }

  /** Slots 1..k emptied. */
  function ClearThrough(t: Table, k: nat): (r: Table)
    requires IsTable(t)
    ensures IsTable(r)
  {
    seq(|t|, j requires 0 <= j < |t| => if 1 <= j <= k then None else t[j])
  }

  /**
   * The first part of deleteSuccessor: the slots from 1 up to the last one
   * holding the successor are emptied, and the predecessor is dropped when
   * it is that successor.
   */
  function Cleared(st: NodeState): (r: NodeState)
    requires ValidState(st) && st.table[1].Some?
    ensures ValidState(r)
  {
    var s := st.table[1];
    var k := LastIndexOf(st.table, s.value, Slots);
    NodeState(ClearThrough(st.table, k), if st.pred == s then None else st.pred, st.log)
  }

  /**
   * Clearing empties slot j exactly when the successor sits in slot j or a
   * higher one, leaves every other slot alone, drops the predecessor when it
   * is the successor, and notifies no one.
   */
  lemma ClearedSpec(st: NodeState)
    requires ValidState(st) && st.table[1].Some?
    ensures var r := Cleared(st); var s := st.table[1];
      (forall j :: 1 <= j <= Slots ==>
         r.table[j] == if (exists m :: j <= m <= Slots && st.table[m] == s) then None else st.table[j]) &&
      r.pred == (if st.pred == s then None else st.pred) && r.log == st.log
  {
    var s := st.table[1];
    var k := LastIndexOf(st.table, s.value, Slots);
    forall j | 1 <= j <= Slots
      ensures Cleared(st).table[j] == if (exists m :: j <= m <= Slots && st.table[m] == s) then None else st.table[j]
    {
      if j <= k {
        assert st.table[k] == s;
      }
    }
  }

  /** After clearing and refilling, neither a slot nor the predecessor holds the deleted successor. */
  lemma {:induction false} DeletedSuccessorGone(st: NodeState, local: Endpoint)
    requires ValidState(st) && st.table[1].Some?
    ensures var r := Fill(Cleared(st), local);
      st.table[1] !in r.table && r.pred != st.table[1]
  {
    var s := st.table[1];
    var c := Cleared(st);
    var k := LastIndexOf(st.table, s.value, Slots);
    assert k >= 1;
    assert s !in c.table by {
      forall j | 0 <= j <= Slots
        ensures c.table[j] != s
      {
        if j > k {
          assert st.table[j] != s;
        }
      }
    }
    FillDrawsFromState(c, local);
  }

  /** What requestAddress(p, "YOURPRE") gives, for every p. */
  function YourPre(net: Network): Endpoint -> Outcome<Option<Endpoint>>
  {
    p => Ask(net, p, "YOURPRE")
  }

  /**
   * The walk along predecessors that ends deleteSuccessor: ask p for its
   * predecessor; stop at p when there is no reply, or the reply is p, the
   * local node or the current successor; else move to the reply. It runs
   * for at most `fuel` requests.
   */
  function Walk(yourPre: Endpoint -> Outcome<Option<Endpoint>>, p: Endpoint, local: Endpoint, succ: Option<Endpoint>, fuel: nat): (r: Outcome<Endpoint>)
    ensures r.Returns? && p != local ==> r.value != local
    decreases fuel
  {
    if fuel == 0 then Hangs
    else match yourPre(p)
      case Throws(e) => Throws(e)
      case Hangs => Hangs
      case Returns(None) => Returns(p)
      case Returns(Some(q)) =>
        if q == p || q == local || Some(q) == succ then Returns(p)
        else Walk(yourPre, q, local, succ, fuel - 1)
  }

  /**
   * deleteSuccessor, with the status of the call: no successor, nothing
   * happens; otherwise clear, refill, and when the predecessor is another
   * node walk back from it and make where the walk stops the successor.
   * The walk's guard in Node.java reads (successor == null ||
   * successor.equals(successor)), which holds whenever it is evaluated, so
   * the walk runs whenever the predecessor is another node.
   */
  function DeleteSuccessor(st: NodeState, local: Endpoint, net: Network, fuel: nat): (r: (Outcome<()>, NodeState))
    requires ValidState(st)
    ensures ValidState(r.1)
  {
    if st.table[1].None? then (Returns(()), st)
    else
      var filled := Fill(Cleared(st), local);
      if !IsRemote(filled.pred, local) then (Returns(()), filled)
      else match Walk(YourPre(net), filled.pred.value, local, filled.table[1], fuel)
        case Returns(p) => (Returns(()), SetFinger(filled, 1, Some(p), local))
        case Throws(e) => (Throws(e), filled)
        case Hangs => (Hangs, filled)
  }

  /** With no successor, deleteSuccessor changes nothing. */
  lemma DeleteWithoutSuccessor(st: NodeState, local: Endpoint, net: Network, fuel: nat)
    requires ValidState(st) && st.table[1].None?
    ensures DeleteSuccessor(st, local, net, fuel) == (Returns(()), st)
  {
  }

  /**
   * When the walk completes, the node ends with another node as successor
   * and has notified it; the predecessor is the one left by the clearing.
   */
  lemma DeleteSuccessorWalkEnds(st: NodeState, local: Endpoint, net: Network, fuel: nat)
    requires ValidState(st) && st.table[1].Some?
    requires IsRemote(Cleared(st).pred, local)
    requires DeleteSuccessor(st, local, net, fuel).0.Returns?
    ensures var r := DeleteSuccessor(st, local, net, fuel).1;
      IsRemote(r.table[1], local) && r.pred == Cleared(st).pred &&
      r.log == Fill(Cleared(st), local).log + [r.table[1].value]
  {
    FillDrawsFromState(Cleared(st), local);
  }

  /** deleteSuccessor keeps the predecessor, or drops it when it was the deleted successor. */
  lemma DeleteSuccessorPredecessor(st: NodeState, local: Endpoint, net: Network, fuel: nat)
    requires ValidState(st)
    ensures var r := DeleteSuccessor(st, local, net, fuel).1;
      r.pred == st.pred || (r.pred.None? && st.pred == st.table[1])
  {
    if st.table[1].Some? {
      FillDrawsFromState(Cleared(st), local);
    }
  }

  // ---------------------------------------------------------------------
  // updateFingers
  // ---------------------------------------------------------------------

  /**
   * updateFingers(code, value): codes 1..32 write that slot, -1 deletes the
   * successor, -2 deletes `value` everywhere, -3 refills the successor, and
   * any other code does nothing.
   */
  function Update(st: NodeState, code: int, value: Option<Endpoint>, local: Endpoint, net: Network, fuel: nat): (r: (Outcome<()>, NodeState))
    requires ValidState(st)
    ensures ValidState(r.1)
  {
    if 1 <= code <= Slots then (Returns(()), SetFinger(st, code, value, local))
    else if code == -1 then DeleteSuccessor(st, local, net, fuel)
    else if code == -2 then (Returns(()), NodeState(Without(st.table, value), st.pred, st.log))
    else if code == -3 then (Returns(()), Fill(st, local))
    else (Returns(()), st)
  }

  /** A slot code changes that slot only; an unknown code changes nothing. */
  lemma UpdateFrame(st: NodeState, code: int, value: Option<Endpoint>, local: Endpoint, net: Network, fuel: nat)
    requires ValidState(st)
    ensures var r := Update(st, code, value, local, net, fuel);
      (1 <= code <= Slots ==>
         r.0 == Returns(()) && r.1.pred == st.pred && r.1.table[code] == value &&
         forall j :: 0 <= j <= Slots && j != code ==> r.1.table[j] == st.table[j]) &&
      (!(1 <= code <= Slots) && code !in {-1, -2, -3} ==> r == (Returns(()), st))
  {
  }

  /**
   * Deleting an endpoint everywhere writes the table directly: it notifies
   * no one and leaves the predecessor alone.
   */
  lemma DeleteCertainSilent(st: NodeState, value: Option<Endpoint>, local: Endpoint, net: Network, fuel: nat)
    requires ValidState(st)
    ensures var r := Update(st, -2, value, local, net, fuel).1;
      r.log == st.log && r.pred == st.pred && (value.Some? ==> value !in r.table)
  {
    WithoutRemoves(st.table, value);
  }

  // ---------------------------------------------------------------------
  // notified
  // ---------------------------------------------------------------------

  /**
   * notified(c): the new predecessor. A node with no predecessor, or with
   * itself as predecessor, takes c (even when c is null); otherwise c is
   * taken when it lies strictly between the old predecessor and the node on
   * the ring. Hashing a null c throws NullPointerException.
   */
  function Notified(pred: Option<Endpoint>, c: Option<Endpoint>, local: Endpoint, hash: Endpoint -> int): (r: Outcome<Option<Endpoint>>)
    ensures r.Returns? ==> r.value == c || r.value == pred
    ensures !r.Returns? ==> r == Throws(NullPointer) && c.None?
  {
    if pred.None? || pred.value == local then Returns(c)
    else if c.None? then Throws(NullPointer)
    else
      var oldId := hash(pred.value);
      if 0 < RelativeId(hash(c.value), oldId) < RelativeId(hash(local), oldId) then Returns(c)
      else Returns(pred)
  }

  /**
   * A node with another node as predecessor moves to c exactly when c lies
   * on the open clockwise arc from the old predecessor to the node.
   */
  lemma NotifiedAcceptsBetween(pred: Endpoint, c: Endpoint, local: Endpoint, hash: Endpoint -> int)
    requires pred != local
    requires 0 <= hash(pred) < Ring && 0 <= hash(c) < Ring && 0 <= hash(local) < Ring
    ensures Notified(Some(pred), Some(c), local, hash) ==
              Returns(if ClockwiseBetween(hash(pred), hash(c), hash(local)) then Some(c) else Some(pred))
  {
    RelativeBetween(hash(pred), hash(c), hash(local));
  }

  // ---------------------------------------------------------------------
  // closest_preceding_finger
  // ---------------------------------------------------------------------

  /**
   * What the scan of closest_preceding_finger depends on: the identifiers,
   * the local identifier, the identifier looked up, and the network that
   * answers the "KEEP" probes.
   */
  datatype Probe = Probe(hash: Endpoint -> int, localId: int, findId: int, net: Network)

  /** e lies strictly between the node and the identifier looked up. */
  predicate Qualifies(pr: Probe, e: Endpoint)
  {
    0 < RelativeId(pr.hash(e), pr.localId) < RelativeId(pr.findId, pr.localId)
  }

  predicate Alive(pr: Probe, e: Endpoint)
  {
    pr.net.send(e, "KEEP") == Some("ALIVE")
  }

  /** Slot j holds a qualifying endpoint that answers the probe. */
  predicate Chosen(t: Table, j: nat, pr: Probe)
    requires j < |t|
  {
    t[j].Some? && Qualifies(pr, t[j].value) && Alive(pr, t[j].value)
  }

  /**
   * The scan over slots i, i-1, .., 1: the first qualifying finger that is
   * alive is the answer; a qualifying finger that is not alive is deleted
   * from every slot; with none left the answer is the local node.
   */
  function Scan(t: Table, i: nat, pr: Probe, local: Endpoint): (r: (Endpoint, Table))
    requires IsTable(t) && i <= Slots
    ensures IsTable(r.1)
    decreases i
  {
    if i == 0 then (local, t)
    else if t[i].Some? && Qualifies(pr, t[i].value) then
      if Alive(pr, t[i].value) then (t[i].value, t)
      else Scan(Without(t, t[i]), i - 1, pr, local)
    else Scan(t, i - 1, pr, local)
  }

  /** One step of the scan, at slot i. */
  lemma ScanUnfold(t: Table, i: nat, pr: Probe, local: Endpoint)
    requires IsTable(t) && 1 <= i <= Slots
    ensures t[i].Some? && Qualifies(pr, t[i].value) && Alive(pr, t[i].value) ==> Scan(t, i, pr, local) == (t[i].value, t)
    ensures t[i].Some? && Qualifies(pr, t[i].value) && !Alive(pr, t[i].value) ==> Scan(t, i, pr, local) == Scan(Without(t, t[i]), i - 1, pr, local)
    ensures !(t[i].Some? && Qualifies(pr, t[i].value)) ==> Scan(t, i, pr, local) == Scan(t, i - 1, pr, local)
  {
  }

  /** The highest slot in [1, i] holding a qualifying live finger, 0 if none. */
  function HighestLive(t: Table, i: nat, pr: Probe): (k: nat)
    requires IsTable(t) && i <= Slots
    ensures k <= i && (k != 0 ==> Chosen(t, k, pr))
    ensures forall j :: k < j <= i ==> !Chosen(t, j, pr)
  {
    if i == 0 then 0 else if Chosen(t, i, pr) then i else HighestLive(t, i - 1, pr)
  }

  /** e is a qualifying finger that does not answer and sits in some slot in (k, i]. */
  predicate Doomed(t: Table, k: nat, i: nat, pr: Probe, e: Endpoint)
    requires IsTable(t) && i <= Slots
  {
    Qualifies(pr, e) && !Alive(pr, e) && exists m :: k < m <= i && t[m] == Some(e)
  }

  /** Deleting a finger that does not answer leaves the live choices as they were. */
  lemma {:induction false} HighestLiveWithoutDead(t: Table, e: Endpoint, i: nat, pr: Probe)
    requires IsTable(t) && i <= Slots && !Alive(pr, e)
    ensures HighestLive(Without(t, Some(e)), i, pr) == HighestLive(t, i, pr)
  {
    if i > 0 {
      var u := Without(t, Some(e));
      assert Chosen(u, i, pr) == Chosen(t, i, pr);
      HighestLiveWithoutDead(t, e, i - 1, pr);
    }
  }

  /**
   * u is t with the qualifying dead fingers found in slots (k, i] deleted
   * from every slot.
   */
  predicate Evicted(t: Table, u: Table, k: nat, i: nat, pr: Probe)
    requires IsTable(t) && IsTable(u) && i <= Slots
  {
    forall j :: 0 <= j <= Slots ==> u[j] == (if t[j].Some? && Doomed(t, k, i, pr, t[j].value) then None else t[j])
  }

  /**
   * closest_preceding_finger over slots i..1 ends as it should: the answer
   * is the live qualifying finger at the highest slot, or the local node
   * when there is none, and the table loses exactly the qualifying dead
   * fingers met above that slot, from every slot where they appear.
   */
  predicate ScanMeetsSpec(t: Table, i: nat, pr: Probe, local: Endpoint)
    requires IsTable(t) && i <= Slots
  {
    var k := HighestLive(t, i, pr);
    Scan(t, i, pr, local).0 == (if k == 0 then local else t[k].value) &&
    Evicted(t, Scan(t, i, pr, local).1, k, i, pr)
  }

  lemma {:induction false} ScanSpec(t: Table, i: nat, pr: Probe, local: Endpoint)
    requires IsTable(t) && i <= Slots
    ensures ScanMeetsSpec(t, i, pr, local)
    decreases i
  {
    if i == 0 {
    } else if Chosen(t, i, pr) {
      assert HighestLive(t, i, pr) == i;
    } else if t[i].Some? && Qualifies(pr, t[i].value) {
      ScanSpec(Without(t, t[i]), i - 1, pr, local);
      ScanDeadCase(t, i, pr, local);
    } else {
      ScanSpec(t, i - 1, pr, local);
      ScanSkipCase(t, i, pr, local);
    }
  }

  lemma ScanDeadCase(t: Table, i: nat, pr: Probe, local: Endpoint)
    requires IsTable(t) && 1 <= i <= Slots
    requires t[i].Some? && Qualifies(pr, t[i].value) && !Alive(pr, t[i].value)
    requires ScanMeetsSpec(Without(t, t[i]), i - 1, pr, local)
    ensures ScanMeetsSpec(t, i, pr, local)
  {
    var u := Without(t, t[i]);
    var k := HighestLive(t, i, pr);
    assert Scan(t, i, pr, local) == Scan(u, i - 1, pr, local);
    assert k == HighestLive(t, i - 1, pr);
    HighestLiveWithoutDead(t, t[i].value, i - 1, pr);
    if k != 0 {
      assert u[k] == t[k] by {
        assert Chosen(t, k, pr);
        assert u[k] == (if t[k] == t[i] then None else t[k]);
      }
    }
    EvictDeadStep(t, Scan(t, i, pr, local).1, k, i, pr);
  }

  lemma ScanSkipCase(t: Table, i: nat, pr: Probe, local: Endpoint)
    requires IsTable(t) && 1 <= i <= Slots
    requires !(t[i].Some? && Qualifies(pr, t[i].value))
    requires ScanMeetsSpec(t, i - 1, pr, local)
    ensures ScanMeetsSpec(t, i, pr, local)
  {
    var k := HighestLive(t, i, pr);
    assert Scan(t, i, pr, local) == Scan(t, i - 1, pr, local);
    assert k == HighestLive(t, i - 1, pr);
    EvictSkipStep(t, Scan(t, i, pr, local).1, k, i, pr);
  }

  /** A qualifying dead finger at slot i is deleted everywhere and joins the evicted ones. */
  lemma EvictDeadStep(t: Table, w: Table, k: nat, i: nat, pr: Probe)
    requires IsTable(t) && IsTable(w) && 1 <= i <= Slots && k < i
    requires t[i].Some? && Qualifies(pr, t[i].value) && !Alive(pr, t[i].value)
    requires Evicted(Without(t, t[i]), w, k, i - 1, pr)
    ensures Evicted(t, w, k, i, pr)
  {
    var e := t[i].value;
    var u := Without(t, t[i]);
    forall j | 0 <= j <= Slots
      ensures w[j] == (if t[j].Some? && Doomed(t, k, i, pr, t[j].value) then None else t[j])
    {
      if t[j] == Some(e) {
        assert Doomed(t, k, i, pr, e);
      } else if t[j].Some? {
        var x := t[j].value;
        if Doomed(u, k, i - 1, pr, x) {
          var m :| k < m <= i - 1 && u[m] == Some(x);
          assert t[m] == Some(x);
        }
        if Doomed(t, k, i, pr, x) {
          var m :| k < m <= i && t[m] == Some(x);
          assert u[m] == Some(x);
        }
      }
    }
  }

  /** A slot that does not qualify adds nothing to the evicted fingers. */
  lemma EvictSkipStep(t: Table, w: Table, k: nat, i: nat, pr: Probe)
    requires IsTable(t) && IsTable(w) && 1 <= i <= Slots
    requires !(t[i].Some? && Qualifies(pr, t[i].value))
    requires Evicted(t, w, k, i - 1, pr)
    ensures Evicted(t, w, k, i, pr)
  {
    forall j | 0 <= j <= Slots && t[j].Some? && Doomed(t, k, i, pr, t[j].value)
      ensures Doomed(t, k, i - 1, pr, t[j].value)
    {
      var m :| k < m <= i && t[m] == t[j];
      assert m != i;
    }
  }

  /** The endpoint the scan settles on: the highest live qualifying finger, or the node itself. */
  lemma ScanChoice(t: Table, pr: Probe, local: Endpoint)
    requires IsTable(t)
    ensures var k := HighestLive(t, Slots, pr);
      Scan(t, Slots, pr, local).0 == (if k == 0 then local else t[k].value)
  {
    ScanSpec(t, Slots, pr, local);
  }

  /** The scan only ever empties slots. */
  lemma ScanOnlyEvicts(t: Table, pr: Probe, local: Endpoint)
    requires IsTable(t)
    ensures forall j :: 0 <= j <= Slots ==> Scan(t, Slots, pr, local).1[j] in {t[j], None}
  {
    ScanSpec(t, Slots, pr, local);
  }
}
