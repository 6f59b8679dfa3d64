/**
 * Talker.java: how a node answers one request line. The verb is the first
 * of CLOSEST, YOURSUCC, YOURPRE, FINDSUCC, IAMPRE and KEEP that the line
 * starts with; endpoints travel as "/ip:port" after a tag and '_'. The
 * formats here are shown to decode, through Helper's requestAddress and
 * createSocketAddress, back to what was sent.
 */
module Talker {
  import opened JavaLib
  import opened Helper
  import opened NodeSpec
  import opened ChordNode

  datatype Verb = Closest | YourSuccessor | YourPredecessor | FindSuccessor | IAmPredecessor | KeepAlive | NoVerb

  /** The branch of processRequest a request line takes. */
  function VerbOf(request: string): Verb
  {
    if StartsWith(request, "CLOSEST") then Closest
    else if StartsWith(request, "YOURSUCC") then YourSuccessor
    else if StartsWith(request, "YOURPRE") then YourPredecessor
    else if StartsWith(request, "FINDSUCC") then FindSuccessor
    else if StartsWith(request, "IAMPRE") then IAmPredecessor
    else if StartsWith(request, "KEEP") then KeepAlive
    else NoVerb
  }

  /**
   * No verb is a prefix of another, so a line that starts with a verb is
   * dispatched to that verb whatever follows it; in particular every line
   * starting with "KEEP" is answered "ALIVE".
   */
  lemma {:induction false} VerbOfPrefix(rest: string)
    ensures VerbOf("CLOSEST" + rest) == Closest
    ensures VerbOf("YOURSUCC" + rest) == YourSuccessor
    ensures VerbOf("YOURPRE" + rest) == YourPredecessor
    ensures VerbOf("FINDSUCC" + rest) == FindSuccessor
    ensures VerbOf("IAMPRE" + rest) == IAmPredecessor
    ensures VerbOf("KEEP" + rest) == KeepAlive
  {
    var c, y, p, f, i, k := "CLOSEST" + rest, "YOURSUCC" + rest, "YOURPRE" + rest, "FINDSUCC" + rest, "IAMPRE" + rest, "KEEP" + rest;
    StartsWithAppend("CLOSEST", rest);
    StartsWithAppend("YOURSUCC", rest);
    DiffersAt(y, "CLOSEST", 0);
    StartsWithAppend("YOURPRE", rest);
    DiffersAt(p, "CLOSEST", 0);
    DiffersAt(p, "YOURSUCC", 4);
    StartsWithAppend("FINDSUCC", rest);
    DiffersAt(f, "CLOSEST", 0);
    DiffersAt(f, "YOURSUCC", 0);
    DiffersAt(f, "YOURPRE", 0);
    StartsWithAppend("IAMPRE", rest);
    DiffersAt(i, "CLOSEST", 0);
    DiffersAt(i, "YOURSUCC", 0);
    DiffersAt(i, "YOURPRE", 0);
    DiffersAt(i, "FINDSUCC", 0);
    StartsWithAppend("KEEP", rest);
    DiffersAt(k, "CLOSEST", 0);
    DiffersAt(k, "YOURSUCC", 0);
    DiffersAt(k, "YOURPRE", 0);
    DiffersAt(k, "FINDSUCC", 0);
    DiffersAt(k, "IAMPRE", 0);
  }

  lemma StartsWithAppend(w: string, rest: string)
    ensures StartsWith(w + rest, w)
  {
    assert (w + rest)[..|w|] == w;
  }

  lemma DiffersAt(s: string, w: string, k: nat)
    requires k < |w| && k < |s| && s[k] != w[k]
    ensures !StartsWith(s, w)
  {
    if |w| <= |s| {
      assert s[..|w|][k] == s[k];
    }
  }

  /** "MYSUCC_/ip:port" / "MYPRE_/ip:port" for a neighbour, "NOTHING" when there is none. */
  function EndpointReply(tag: string, x: Option<Endpoint>): string
  {
    if x.None? then "NOTHING" else tag + "_" + AddressText(x.value)
  }

  /** The notice a node sends its successor: "IAMPRE_/ip:port". */
  function NotifyRequest(local: Endpoint): string
  {
    "IAMPRE_" + AddressText(local)
  }

  /** Long.parseLong(request.split("_")[1]): the identifier a CLOSEST or FINDSUCC request carries. */
  function RequestId(request: string): (r: Outcome<int>)
    ensures r.Returns? ==> MinLong <= r.value <= MaxLong
  {
    var parts := Split(request, '_');
    if |parts| < 2 then Throws(IndexOutOfBounds) else ParseLong(parts[1])
  }

  /** createSocketAddress(request.split("_")[1]): the endpoint an IAMPRE request names. */
  function NoticeSender(request: string, resolve: string -> Option<string>): Outcome<Option<Endpoint>>
  {
    var parts := Split(request, '_');
    if |parts| < 2 then Throws(IndexOutOfBounds) else CreateSocketAddress(Some(parts[1]), resolve)
  }

  /** An endpoint whose text survives the protocol: no '_' or ':' in its address, a valid port, an address that resolves to itself. */
  predicate Transmissible(e: Endpoint, resolve: string -> Option<string>)
  {
    '_' !in e.ip && ':' !in e.ip && 0 <= e.port <= MaxPort && resolve(e.ip) == Some(e.ip)
  }

  lemma AddressTextPlain(e: Endpoint)
    requires '_' !in e.ip
    ensures '_' !in AddressText(e) && AddressText(e) != ""
  {
    DecimalTextPlain(e.port);
  }

  /** The identifier of a CLOSEST or FINDSUCC request is read back as sent. */
  lemma IdRequestRoundTrip(tag: string, id: int)
    requires '_' !in tag && MinLong <= id <= MaxLong
    ensures RequestId(IdRequest(tag, id)) == Returns(id)
  {
    DecimalTextPlain(id);
    assert IdRequest(tag, id) == tag + ['_'] + DecimalText(id);
    SplitTwo(tag, '_', DecimalText(id));
    DecimalRoundTrip(id, MinLong, MaxLong);
  }

  /** The receiver of a node's notice decodes the sender's own endpoint from it. */
  lemma NotifyRoundTrip(local: Endpoint, resolve: string -> Option<string>)
    requires Transmissible(local, resolve)
    ensures NoticeSender(NotifyRequest(local), resolve) == Returns(Some(local))
  {
    AddressTextPlain(local);
    assert NotifyRequest(local) == "IAMPRE" + ['_'] + AddressText(local);
    SplitTwo("IAMPRE", '_', AddressText(local));
    CreateSocketAddressRoundTrip(local, resolve);
  }

  /**
   * requestAddress on a reply built by EndpointReply gives back the
   * neighbour that was sent, or the asked server itself for "NOTHING".
   */
  lemma EndpointReplyRoundTrip(net: Network, server: Endpoint, req: string, tag: string, x: Option<Endpoint>)
    requires tag != "" && tag[0] != 'N' && '_' !in tag
    requires x.Some? ==> Transmissible(x.value, net.resolve)
    requires net.send(server, req) == Some(EndpointReply(tag, x))
    ensures Ask(net, server, req) == Returns(if x.Some? then x else Some(server))
  {
    if x.Some? {
      var reply := EndpointReply(tag, x);
      AddressTextPlain(x.value);
      assert reply == tag + ['_'] + AddressText(x.value);
      assert !StartsWith(reply, "NOTHING") by {
        assert reply[0] != 'N';
      }
      SplitTwo(tag, '_', AddressText(x.value));
      CreateSocketAddressRoundTrip(x.value, net.resolve);
    }
  }

  /** The CLOSEST branch of processRequest: the node's closest preceding finger for the requested id. */
  method AnswerClosest(node: Node, line: string, net: Network) returns (res: Outcome<Option<string>>)
    requires node.Valid()
    modifies node.finger
    ensures node.Valid()
    ensures forall j :: 0 <= j <= Slots ==> node.finger[j] in {old(node.finger[j]), None}
    ensures match RequestId(line)
      case Returns(id) =>
        var scan := Scan(old(node.finger[..]), Slots, Probe(node.hash, node.localId, id, net), node.local);
        res == Returns(Some("MYCLOSEST_" + AddressText(scan.0))) && node.finger[..] == scan.1
      case _ => !res.Returns? && node.finger[..] == old(node.finger[..])
  {
    var id := RequestId(line);
    if !id.Returns? {
      return Throws(id.ex);
    }
    var result := node.ClosestPrecedingFinger(id.value, net);
    ghost var t := old(node.finger[..]);
    ScanOnlyEvicts(t, Probe(node.hash, node.localId, id.value, net), node.local);
    return Returns(Some("MYCLOSEST_" + AddressText(result)));
  }

  /**
   * The FINDSUCC exchange of join: the server reads back the identifier it
   * was sent, and the joining node decodes from a "FOUNDSUCC" answer the
   * endpoint that answer names.
   */
  lemma FoundSuccessorRoundTrip(net: Network, server: Endpoint, id: int, x: Endpoint)
    requires MinLong <= id <= MaxLong && Transmissible(x, net.resolve)
    requires net.send(server, IdRequest("FINDSUCC", id)) == Some(EndpointReply("FOUNDSUCC", Some(x)))
    ensures RequestId(IdRequest("FINDSUCC", id)) == Returns(id)
    ensures Ask(net, server, IdRequest("FINDSUCC", id)) == Returns(Some(x))
  {
    IdRequestRoundTrip("FINDSUCC", id);
    EndpointReplyRoundTrip(net, server, IdRequest("FINDSUCC", id), "FOUNDSUCC", Some(x));
  }

  /** The FINDSUCC branch of processRequest: the node's successor lookup for the requested id. */
  method AnswerFindSuccessor(node: Node, line: string, net: Network, fuel: nat) returns (res: Outcome<Option<string>>)
    requires node.Valid()
    modifies node.finger
    ensures node.Valid()
    ensures forall j :: 0 <= j <= Slots ==> node.finger[j] in {old(node.finger[j]), None}
    ensures RequestId(line).Returns? || (!res.Returns? && node.finger[..] == old(node.finger[..]))
    ensures res.Returns? ==> res.value.Some? && StartsWith(res.value.value, "FOUNDSUCC_")
    ensures match RequestId(line)
      case Returns(id) =>
        var t := old(node.finger[..]);
        var found := Returns(Some(EndpointReply("FOUNDSUCC", Some(if t[1].Some? then t[1].value else node.local))));
        var scan := Scan(t, Slots, Probe(node.hash, node.localId, id, net), node.local);
        (node.InSuccessorArc(t, id) ==> res == found && node.finger[..] == t) &&
        (!node.InSuccessorArc(t, id) && fuel > 0 && scan.0 == node.local ==> res == found && node.finger[..] == scan.1)
      case _ => true
  {
    var id := RequestId(line);
    if !id.Returns? {
      return Throws(id.ex);
    }
    var result := node.FindSuccessor(id.value, net, fuel);
    if result.Hangs? {
      return Hangs;
    } else if result.Throws? {
      return Throws(result.ex);
    }
    var answer := EndpointReply("FOUNDSUCC", Some(result.value));
    assert answer[..10] == "FOUNDSUCC_";
    return Returns(Some(answer));
  }

  /** The IAMPRE branch of processRequest: the decoded sender is handed to notified. */
  method AnswerNotice(node: Node, line: string, net: Network) returns (res: Outcome<Option<string>>)
    requires node.Valid()
    modifies node`predecessor
    ensures match NoticeSender(line, net.resolve)
      case Returns(c) =>
        (match NodeSpec.Notified(old(node.predecessor), c, node.local, node.hash)
         case Returns(p) => res == Returns(Some("NOTIFIED")) && node.predecessor == p
         case _ => res == Throws(NullPointer) && node.predecessor == old(node.predecessor))
      case _ => !res.Returns? && node.predecessor == old(node.predecessor)
  {
    var newPre := NoticeSender(line, net.resolve);
    if !newPre.Returns? {
      return Throws(newPre.ex);
    }
    var status := node.Notified(newPre.value);
    if !status.Returns? {
      return Throws(status.ex);
    }
    return Returns(Some("NOTIFIED"));
  }

  /** The YOURSUCC branch of processRequest: the successor slot, or "NOTHING" when it is empty. */
  method AnswerSuccessor(node: Node) returns (res: Outcome<Option<string>>)
    requires node.Valid()
    ensures res == Returns(Some(EndpointReply("MYSUCC", node.finger[1])))
  {
    var result := node.Successor();
    if result.Some? {
      assert "MYSUCC_" + AddressText(result.value) == EndpointReply("MYSUCC", result);
      return Returns(Some("MYSUCC_" + AddressText(result.value)));
    } else {
      return Returns(Some("NOTHING"));
    }
  }

  /** The YOURPRE branch of processRequest: the predecessor, or "NOTHING" when there is none. */
  method AnswerPredecessor(node: Node) returns (res: Outcome<Option<string>>)
    requires node.Valid()
    ensures res == Returns(Some(EndpointReply("MYPRE", node.predecessor)))
  {
    var result := node.predecessor;
    if result.Some? {
      assert "MYPRE_" + AddressText(result.value) == EndpointReply("MYPRE", result);
      return Returns(Some("MYPRE_" + AddressText(result.value)));
    } else {
      return Returns(Some("NOTHING"));
    }
  }

  /**
   * processRequest. A null line gets no answer; so does a line with no
   * verb. The CLOSEST and FINDSUCC branches run the node's lookups, which
   * never yield null, so those answers always name an endpoint; IAMPRE
   * hands the decoded sender to notified and answers "NOTIFIED". Parsing
   * errors and the NullPointerException of notified are thrown.
   */
  method ProcessRequest(node: Node, request: Option<string>, net: Network, fuel: nat) returns (res: Outcome<Option<string>>)
    requires node.Valid()
    modifies node.finger, node`predecessor
    ensures node.Valid()
    ensures forall j :: 0 <= j <= Slots ==> node.finger[j] in {old(node.finger[j]), None}
    ensures request.None? ==> res == Returns(None) && node.State() == old(node.State())
    ensures request.Some? ==>
      match VerbOf(request.value)
      case NoVerb => res == Returns(None) && node.State() == old(node.State())
      case KeepAlive => res == Returns(Some("ALIVE")) && node.State() == old(node.State())
      case YourSuccessor =>
        res == Returns(Some(EndpointReply("MYSUCC", old(node.finger[1])))) && node.State() == old(node.State())
      case YourPredecessor =>
        res == Returns(Some(EndpointReply("MYPRE", old(node.predecessor)))) && node.State() == old(node.State())
      case IAmPredecessor =>
        node.finger[..] == old(node.finger[..]) &&
        (match NoticeSender(request.value, net.resolve)
         case Returns(c) =>
           (match NodeSpec.Notified(old(node.predecessor), c, node.local, node.hash)
            case Returns(p) => res == Returns(Some("NOTIFIED")) && node.predecessor == p
            case _ => res == Throws(NullPointer) && node.predecessor == old(node.predecessor))
         case _ => !res.Returns? && node.predecessor == old(node.predecessor))
      case Closest =>
        node.predecessor == old(node.predecessor) &&
        (match RequestId(request.value)
         case Returns(id) =>
           var scan := Scan(old(node.finger[..]), Slots, Probe(node.hash, node.localId, id, net), node.local);
           res == Returns(Some("MYCLOSEST_" + AddressText(scan.0))) && node.finger[..] == scan.1
         case _ => !res.Returns? && node.finger[..] == old(node.finger[..]))
      case FindSuccessor =>
        node.predecessor == old(node.predecessor) &&
        (RequestId(request.value).Returns? || (!res.Returns? && node.finger[..] == old(node.finger[..]))) &&
        (res.Returns? ==> res.value.Some? && StartsWith(res.value.value, "FOUNDSUCC_")) &&
        (match RequestId(request.value)
         case Returns(id) =>
           var t := old(node.finger[..]);
           var found := Returns(Some(EndpointReply("FOUNDSUCC", Some(if t[1].Some? then t[1].value else node.local))));
           var scan := Scan(t, Slots, Probe(node.hash, node.localId, id, net), node.local);
           (node.InSuccessorArc(t, id) ==> res == found && node.finger[..] == t) &&
           (!node.InSuccessorArc(t, id) && fuel > 0 && scan.0 == node.local ==> res == found && node.finger[..] == scan.1)
         case _ => true)
  {
    if request.None? {
      return Returns(None);
    }
    var line := request.value;
    if StartsWith(line, "CLOSEST") {
      assert VerbOf(line) == Closest;
      res := AnswerClosest(node, line, net);
      return;
    } else if StartsWith(line, "YOURSUCC") {
      assert VerbOf(line) == YourSuccessor;
      res := AnswerSuccessor(node);
      return;
    } else if StartsWith(line, "YOURPRE") {
      assert VerbOf(line) == YourPredecessor;
      res := AnswerPredecessor(node);
      return;
    } else if StartsWith(line, "FINDSUCC") {
      assert VerbOf(line) == FindSuccessor;
      res := AnswerFindSuccessor(node, line, net, fuel);
      return;
    } else if StartsWith(line, "IAMPRE") {
      assert VerbOf(line) == IAmPredecessor;
      res := AnswerNotice(node, line, net);
      return;
    } else if StartsWith(line, "KEEP") {
      assert VerbOf(line) == KeepAlive;
      return Returns(Some("ALIVE"));
    }
    assert VerbOf(line) == NoVerb;
    return Returns(None);
  }
}
