# A verified model of one Chord node

This project models the single-node core of a Chord distributed hash table node written in Java.
Each node has a 32-bit identifier on a ring of 2^32 identifiers. It keeps a finger table of 32 slots, where slot 1 is its successor, and a predecessor. It talks to other nodes with one-line text requests. The model covers:

- the ring arithmetic and the reply decoding of `Helper.java`;
- the finger table and predecessor of `Node.java`, as a Dafny class `ChordNode.Node` over an `array<Option<Endpoint>>` of length 33 (slot 0 unused);
- the request dispatch of `Talker.processRequest`;
- one round of the stabilize thread (`Stabilize.java`).

How Java is represented:

- **Null references** become `Option`.
- **Exceptions** a method does not catch become the `Throws` case of `Outcome`. `Hangs` stands for a loop that did not finish within the model's `fuel`.
- **Other nodes** are reached only through an oracle `Network`. `send` gives what `Helper.sendRequest` returns for a request (None when nothing came back). `resolve` is `InetAddress.getByName` on an address text.
- **The identifier of an endpoint** (SHA-1 of its hash code, folded to 32 bits) is a function `hash` fixed when the node is built and bounded by 2^32. The folding itself is modelled separately (`Helper.HashHashCode`).
- **Long arithmetic** is written out: a subtraction of two `long`s wraps at 64 bits (`JavaLib.LongWrap`), and `%` takes the sign of the dividend, with a zero divisor throwing `ArithmeticException` (`Helper.JavaRem`).
- **The "IAMPRE" notices** a node sends are recorded in the ghost field `notifyLog`.

The modules:

- **`JavaLib`**: the Java platform pieces the code relies on (`String.split` with a one-character delimiter, `startsWith`, `Long.toString`, `Long.toHexString`, `Integer.parseInt`, `Long.parseLong`).
- **`Helper`**: the static methods of `Helper.java`.
- **`NodeSpec`**: each state change of `Node.java` as a function on a value `NodeState(table, pred, log)`, with lemmas about those functions.
- **`ChordNode`**: the class `Node`. Each state-changing method is proved to agree with its `NodeSpec` function (`State() == Spec(old(State()))`), and each lookup states its result directly.
- **`Talker`**: the request and reply formats and `processRequest`, with the formats proved to decode back to what was sent.
- **`Stabilize`**: one round of the stabilize loop, as a method on the node and as a function with lemmas.

## Model

| member | source | states |
|---|---|---|
| JavaLib.SplitTwo | Helper.java:284-290 | splitting `a:b` on ':' gives exactly `[a, b]` when neither part holds ':' and b is not empty |
| JavaLib.NumeralRoundTrip | Helper.java:147 | the digits printed for a non-negative number read back as that number, in base 10 and 16 |
| JavaLib.LeadingZeros | Helper.java:150-153 | zeros written in front of a numeral do not change its value |
| JavaLib.DecimalRoundTrip | Helper.java:305-306 | `Integer.parseInt`/`Long.parseLong` of the decimal text of an in-range number returns that number |
| Helper.PowerOfTwoTable | Helper.java:36-44 | the table built by the constructor's loop maps every k in 0..32 to 2^k and holds no other key |
| Helper.GetPowerOfTwoFromTable | Helper.java:172-174 | with that table, getPowerOfTwo(k) is 2^k for k in 0..32 and throws (null unboxing) for any other k |
| JavaLib.LongWrap | Helper.java:123 | a long subtraction gives a value in the long range that agrees with the exact difference modulo 2^64, and is the exact difference whenever that fits |
| Helper.RelativeIdIsClockwiseDistance | Helper.java:122-128 | for identifiers u and l, computeRelativeId(u, l) is (u - l) mod 2^32, lies in [0, 2^32) and is 0 exactly when u == l |
| Helper.RelativeIdWrapsAsLong | Helper.java:122-128 | the subtraction in computeRelativeId wraps as a Java long: a lookup id of Long.MIN_VALUE against local id 1 gives Long.MAX_VALUE, against 0 gives Long.MIN_VALUE + 2^32 |
| Helper.RelativeBetween | Helper.java:122-128 | the test 0 < rel(x, a) < rel(b, a) holds exactly when x lies on the open clockwise arc from a to b, defined independently by cases |
| Helper.IthStartOffset | Helper.java:163-165 | for i in 1..32, ithStart(n, i) lies in the ring, equals (n + 2^(i-1)) mod 2^32 and sits 2^(i-1) clockwise from n; an i outside 1..33 throws |
| Helper.StartArithmetic | Helper.java:163-165 | for an identifier n and an offset o up to 2^31, n + o does not overflow a long, its Java remainder by 2^32 is its value mod 2^32, and that start sits o clockwise from n |
| Helper.LongTo8DigitHex | Helper.java:146-155 | the result is a lower-case hex numeral of value l (as unsigned 64-bit), at least 8 digits, exactly 8 for an identifier, and Long.toHexString(l) itself when that is longer |
| Helper.PositionIsPercent | Helper.java:136-139 | the percentage hash*100/2^32 of any identifier lies in 0..99 |
| Helper.HexIdAndPosition | Helper.java:136-139 | the text is eight hex digits reading back as the identifier, followed by " (p%)" with p in 0..99 |
| Helper.IntBytesBigEndian | Helper.java:74-78 | the four bytes `(byte)(i >> 24)` .. `(byte) i` are the big-endian digits of i mod 2^32 |
| Helper.Compress | Helper.java:99-110 | byte j of the compressed array is the XOR of digest bytes j..j+4, and the assembled, masked result is their big-endian value, in [0, 2^32) |
| Helper.MaskSignExtension | Helper.java:108-109 | masking a sign-extended 32-bit value with 0xFFFFFFFF gives back its unsigned value |
| Helper.HashHashCode | Helper.java:71-113 | the identifier is the folded digest of the bytes of i when SHA-1 is available, 0 otherwise, and always in [0, 2^32) |
| Helper.AddressParts | Helper.java:284-293 | the address/port pair exists exactly when the text splits on ':' into at least two pieces |
| Helper.CreateSocketAddress | Helper.java:276-317 | null input, fewer than two ':' pieces or an address that does not resolve give null; a port text parseInt rejects throws NumberFormatException and a port outside 0..65535 throws IllegalArgumentException; an endpoint returned has the resolved address of the first piece, without one leading '/', and the parsed port of the second; it never loops |
| Helper.RequestAddress | Helper.java:186-211 | a null server or request, or no reply, gives null; a reply starting with "NOTHING" gives the server itself; it never loops |
| Helper.CreateSocketAddressRoundTrip | Helper.java:276-317 | the text "/ip:port" of an endpoint decodes back to that endpoint when its address holds no ':' and resolves to itself |
| NodeSpec.EmptyTable | Node.java:33-36 | the table the constructor builds has every slot empty |
| NodeSpec.SetFingerFrame | Node.java:270-277 | writing slot i changes slot i only and keeps the predecessor; writing slot 1 with another node notifies exactly that node once, any other write notifies no one |
| NodeSpec.WithoutRemoves | Node.java:343-349 | after deleting f no slot holds f, slots not holding f are unchanged, and deleting again changes nothing |
| NodeSpec.FirstRemote | Node.java:357-359 | the index found is the smallest in the range holding another node, or 0 when there is none |
| NodeSpec.FillKeepsRemoteSuccessor | Node.java:355-356 | a node whose successor is another node is left unchanged by the fill |
| NodeSpec.FillCopiesFirstRemote | Node.java:356-365 | otherwise, for the first slot i in 2..32 holding another node, slots 1..i-1 take its value, slots i..32 and the predecessor are unchanged, and that node is notified once |
| NodeSpec.FillFromPredecessor | Node.java:367-370 | when no slot holds another node, the predecessor becomes the successor if it is another node, else nothing changes |
| NodeSpec.FillFindsSuccessor | Node.java:354-372 | after the fill the successor is another node exactly when it was before, or some slot 2..32 held one, or the predecessor is one |
| NodeSpec.FillDrawsFromState | Node.java:354-372 | the fill invents no endpoint, keeps the predecessor and logs at most one notice, to the new successor |
| NodeSpec.LastIndexOf | Node.java:290-295 | the backward search finds the highest slot holding the successor; no higher slot holds it |
| NodeSpec.ClearedSpec | Node.java:282-304 | clearing empties slot j exactly when the successor sits in slot j or above, keeps the other slots, drops the predecessor exactly when it is the successor, notifies no one |
| NodeSpec.DeletedSuccessorGone | Node.java:282-307 | after clearing and refilling, no slot and not the predecessor holds the deleted successor |
| NodeSpec.Walk | Node.java:314-332 | a walk along YOURPRE replies that starts at another node and completes never stops at the local node |
| NodeSpec.DeleteWithoutSuccessor | Node.java:283-287 | with no successor, deleteSuccessor changes nothing |
| NodeSpec.DeleteSuccessorWalkEnds | Node.java:313-336 | when the predecessor walk completes, the node ends with another node as successor, has notified it, and keeps the cleared predecessor; that node need not be live: when the predecessor answers YOURPRE with the deleted successor and that one is silent, the walk puts the deleted successor back in slot 1, as the Java loop does |
| NodeSpec.DeleteSuccessorPredecessor | Node.java:282-337 | deleteSuccessor keeps the predecessor, or drops it only when it was the deleted successor |
| NodeSpec.UpdateFrame | Node.java:240-263 | a code in 1..32 changes only that slot; a code outside 1..32 and -1..-3 changes nothing |
| NodeSpec.DeleteCertainSilent | Node.java:343-349 | code -2 writes the table directly: no notice, predecessor kept, the endpoint gone from every slot |
| NodeSpec.Notified | Node.java:92-103 | the new predecessor is the candidate or the old one; a throw happens only for a null candidate |
| NodeSpec.NotifiedAcceptsBetween | Node.java:92-103 | with another node as predecessor, the candidate is taken exactly when it lies on the open clockwise arc from the old predecessor to the node |
| NodeSpec.HighestLive | Node.java:207-222 | the slot chosen holds a qualifying finger that answers the probe, and no higher slot does |
| NodeSpec.HighestLiveWithoutDead | Node.java:224-227 | deleting a finger that does not answer leaves the choice of live finger unchanged |
| NodeSpec.ScanSpec | Node.java:203-231 | the scan answers the highest live qualifying finger, or the node itself if there is none, and evicts from every slot exactly the qualifying dead fingers above that slot |
| NodeSpec.ScanChoice | Node.java:203-231 | the answer of the full scan from slot 32 |
| NodeSpec.ScanOnlyEvicts | Node.java:203-231 | the scan only ever empties slots |
| ChordNode.Node.constructor | Node.java:27-46 | every finger and the predecessor are empty and nothing has been notified |
| ChordNode.Node.Notify | Node.java:81-86 | a notice goes to the target only when it is another node |
| ChordNode.Node.SetPredecessor | Node.java:386-388 | the predecessor becomes the given value |
| ChordNode.Node.ClearPredecessor | Node.java:378-380 | the predecessor becomes empty |
| ChordNode.Node.UpdateIthFinger | Node.java:270-277 | the new state is SetFinger of the old one |
| ChordNode.Node.DeleteCertainFinger | Node.java:343-349 | the new table is the old one with f deleted from every slot |
| ChordNode.Node.FillSuccessor | Node.java:354-372 | the new state is Fill of the old one |
| ChordNode.Node.CopyDownFrom | Node.java:360-362 | slots 1..i-1 take the value of slot i, and one notice goes to it |
| ChordNode.Node.ClearSuccessor | Node.java:283-304 | the new state is Cleared of the old one |
| ChordNode.Node.WalkPredecessors | Node.java:314-332 | the loop ends where Walk ends |
| ChordNode.Node.DeleteSuccessor | Node.java:282-337 | status and new state are those of DeleteSuccessor on the old state |
| ChordNode.Node.UpdateFingers | Node.java:240-263 | status and new state are those of Update on the old state |
| ChordNode.Node.Notified | Node.java:92-103 | the predecessor becomes what NodeSpec.Notified gives, or stays when that throws |
| ChordNode.Node.ClosestPrecedingFinger | Node.java:203-231 | the answer and the new table are those of Scan on the old table; the answer is the highest live qualifying finger or the node itself |
| ChordNode.Node.ProbeSlot | Node.java:208-228 | one pass of the loop at slot i: a qualifying finger that answers is the result and the table is as Scan leaves it; otherwise the scan from slot i-1 of the new table gives what the scan from slot i of the old one gives |
| ChordNode.Node.FindPredecessor | Node.java:134-196 | slots are only emptied; findId on the arc to the successor gives the node with no change; a local scan that finds no live finger ends at the node with the scan's evictions |
| ChordNode.Node.FindSuccessor | Node.java:110-127 | slots are only emptied; in those two local cases the answer is the old successor, or the node itself when there was none, and the table is unchanged (findId on the arc to the successor) or is the scan's (a local scan with no live finger) |
| ChordNode.Node.Successor | Node.java:408-413 | getSuccessor is the successor slot (slot 1) of the node's state |
| ChordNode.Node.Join | Node.java:54-74 | a missing or local contact gives true with no change; otherwise the reply to FINDSUCC becomes finger 1, null gives false, and a throw leaves the state alone |
| Talker.VerbOfPrefix | Talker.java:51-94 | a line starting with a verb is dispatched to that verb whatever follows, so no verb hides another |
| Talker.RequestId | Talker.java:52 | an identifier read from a request is a Java long |
| Talker.IdRequestRoundTrip | Talker.java:52 | the identifier in "CLOSEST_id" or "FINDSUCC_id" is read back as sent |
| Talker.NotifyRoundTrip | Talker.java:88 | the receiver of "IAMPRE_/ip:port" decodes the sender's own endpoint |
| Talker.EndpointReplyRoundTrip | Talker.java:58-79 | requestAddress on a "MYSUCC_"/"MYPRE_" reply gives back the neighbour sent, and on "NOTHING" the server asked |
| Talker.ProcessRequest | Talker.java:44-96 | per verb: null line and no verb give null, KEEP gives "ALIVE", YOURSUCC/YOURPRE format the neighbour or "NOTHING" without change, IAMPRE runs notified and answers "NOTIFIED", CLOSEST answers the scan's endpoint, FINDSUCC answers a "FOUNDSUCC_" line, which in the two local cases of FindSuccessor is EndpointReply("FOUNDSUCC", …) of the old successor or the node, with FindSuccessor's table |
| Talker.AnswerClosest | Talker.java:51-57 | a parsable id is answered with "MYCLOSEST_" and the endpoint Scan gives, the table becoming Scan's; an unparsable one throws and changes nothing |
| Talker.AnswerSuccessor | Talker.java:58-68 | the answer is "MYSUCC_" and the successor, or "NOTHING" when slot 1 is empty |
| Talker.AnswerPredecessor | Talker.java:69-79 | the answer is "MYPRE_" and the predecessor, or "NOTHING" when there is none |
| Talker.FoundSuccessorRoundTrip | Talker.java:80-86 | the identifier in a node's "FINDSUCC_id" request reads back as sent, and the requestAddress decoding of a "FOUNDSUCC_/ip:port" answer gives back the endpoint it names |
| Talker.AnswerFindSuccessor | Talker.java:80-86 | slots are only emptied; an unparsable id throws and changes nothing; a returned answer is a "FOUNDSUCC_" line; in the two local cases of FindSuccessor it is EndpointReply("FOUNDSUCC", …) of the old successor, or of the node when there was none, with the table unchanged or the scan's |
| Talker.AnswerNotice | Talker.java:87-91 | a decodable sender is handed to notified: "NOTIFIED" and the predecessor NodeSpec.Notified gives, or the NullPointerException; an undecodable one throws with the predecessor unchanged |
| Stabilize.Step | Stabilize.java:23-51 | status and new state are those of StepSpec on the old state |
| Stabilize.StepStartsWithFill | Stabilize.java:23-26 | requesting the fill only when the successor is missing or local is the same as always filling |
| Stabilize.StepWithoutSuccessor | Stabilize.java:23-28 | when the fill finds no other node, the round does nothing more |
| Stabilize.StepDeletesSilentSuccessor | Stabilize.java:31-36 | a successor that does not answer YOURPRE is deleted |
| Stabilize.StepAdoptsBetween | Stabilize.java:39-46 | a reply x other than the successor becomes finger 1 exactly when x lies on the open clockwise arc from the node to the successor; otherwise nothing changes |
| Stabilize.StepNotifiesSuccessor | Stabilize.java:49-51 | a successor that names itself, or answers "NOTHING", is notified and no finger changes |
| Stabilize.StepKeepsPredecessor | Stabilize.java:23-51 | a round keeps the predecessor or empties it |

## Left out

- Socket I/O is not modelled: `Helper.sendRequest`, `inputStreamToString`, Listener.java and `Talker.run`. Replies come from the `Network` oracle. One consequence is that the same request to the same endpoint always gets the same reply within one call.
- Threads, `Thread.sleep`, the `alive` flags and `synchronized` are not modelled; each operation runs alone. Stabilize.java is modelled as one round of its loop.
- AskPredecessor.java is not part of this model. Its only state change is `clearPredecessor` (`ChordNode.Node.ClearPredecessor`).
- FixFingers.java is not part of this model. The slot it refreshes, `random.nextInt(31) + 2`, lies in 2..32, a case covered by `NodeSpec.UpdateFrame`.
- SHA-1 and `InetSocketAddress.hashCode` are abstract. The node's identifiers are the function `hash`, and `Helper.HashHashCode` takes the digest as a parameter. Message bytes are given by their unsigned value 0..255; digest bytes are `bv8` because they are XORed.
- `hashSocketAddress` and `hashString` only compose `hashCode` with `hashHashCode` and are not modelled separately.
- DNS (`InetAddress.getByName`) is the `resolve` oracle. `InetAddress.toString()` is taken to be "/" followed by the address text, as for a literal address.
- `Integer.parseInt` and `Long.parseLong` accept only ASCII digits here; Java also accepts other Unicode decimal digits.
- Chord.java and Query.java (the command-line front ends) and the print functions `printNeighbors` and `printDataStructure` are not modelled.
- `join` starting the node's threads is not modelled.
- ChordNode.Node.FindPredecessor: states only the local cases. These are findId on the arc to the successor, and a local scan with no live finger. The remote branch (Node.java:154-191) is run faithfully but with `fuel` bounding its rounds, since it need not terminate. Its result there is not characterised.
- ChordNode.Node.FindSuccessor: like FindPredecessor, its answer and new table are stated only in the local cases; after a remote walk it states only that slots are emptied.
- Talker.AnswerFindSuccessor: names the answered endpoint only in FindSuccessor's local cases; otherwise it states only that a returned answer starts with "FOUNDSUCC_".
- Talker.ProcessRequest: for FINDSUCC it states what AnswerFindSuccessor states, for the same reason.
- Helper.RequestAddress: its own contract leaves out the branch that decodes a reply. That branch is stated through `Talker.EndpointReplyRoundTrip` for the replies nodes send.
- The predecessor walk closing `deleteSuccessor` (Node.java:313-336) is run with `fuel` bounding the number of YOURPRE requests. In Java it need not terminate.
- The walk's guard reads `successor == null || successor.equals(successor)`, which is always true. The model follows the code, so the walk runs whenever the predecessor is another node, even when the refill has already found a successor.
- `ChordNode.Node.WalkPredecessors` takes the replies as a function `yourPre` that never loops. `ChordNode.Node.DeleteSuccessor` passes it `requestAddress(p, "YOURPRE")`.
