/**
 * Helper.java: identifier-ring arithmetic (the power-of-two table, relative
 * identifiers, finger starts), the 32-bit folding of a digest into an
 * identifier, hex and percentage rendering of identifiers, and the decoding
 * of a peer's reply into an endpoint.
 *
 * The network is an oracle: `Network.send` is what Helper.sendRequest
 * returns for a request sent to an endpoint (None when nothing came back),
 * and `Network.resolve` is InetAddress.getByName on the address text
 * (None when it throws UnknownHostException).
 */
module Helper {
  import opened JavaLib

  /** Size of the identifier ring, 2^32. */
  const Ring: int := 0x1_0000_0000

  const TwoTo64: int := 0x1_0000_0000_0000_0000

  datatype Network = Network(send: (Endpoint, string) -> Option<string>, resolve: string -> Option<string>)

  // ---------------------------------------------------------------------
  // Powers of two
  // ---------------------------------------------------------------------

  function Pow2(k: nat): (r: nat)
    ensures r >= 1
  {
    if k == 0 then 1 else 2 * Pow2(k - 1)
  }

  lemma {:induction false} Pow2Monotone(a: nat, b: nat)
    requires a <= b
    ensures Pow2(a) <= Pow2(b)
    decreases b - a
  {
    if a < b {
      Pow2Monotone(a, b - 1);
    }
  }

  lemma {:induction false} Pow2Add(a: nat, b: nat)
    ensures Pow2(a + b) == Pow2(a) * Pow2(b)
    decreases b
  {
    if b > 0 {
      Pow2Add(a, b - 1);
      assert Pow2(a + b) == 2 * Pow2(a + b - 1);
    }
  }

  lemma Pow2Ring()
    ensures Pow2(32) == Ring && Pow2(4) == 16
  {
    Pow2Add(16, 16);
    Pow2Add(8, 8);
    Pow2Add(4, 4);
  }

  /** The table holding 2^0 .. 2^32 under the keys 0 .. 32. */
  ghost function PowerTable(n: nat): map<int, int>
  {
    map k | 0 <= k < n :: Pow2(k)
  }

  lemma PowerTableGrows(n: nat)
    ensures PowerTable(n)[n := Pow2(n)] == PowerTable(n + 1)
  {
  }

  /**
   * The Helper() constructor: the powerOfTwo table maps every k in 0..32 to
   * 2^k (the running value is doubled as a Java long, which never overflows
   * here since it stays below 2^34).
   */
  method PowerOfTwoTable() returns (powerOfTwo: map<int, int>)
    ensures powerOfTwo == PowerTable(33)
    ensures forall k :: k in powerOfTwo ==> 0 <= k <= 32
    ensures forall k :: 0 <= k <= 32 ==> k in powerOfTwo && powerOfTwo[k] == Pow2(k)
  {
    powerOfTwo := map[];
    var base := 1;
    for i := 0 to 33
      invariant powerOfTwo == PowerTable(i)
      invariant base == Pow2(i)
    {
      PowerTableGrows(i);
      powerOfTwo := powerOfTwo[i := base];
      base := base * 2;
    }
  }

  // ---------------------------------------------------------------------
  // Relative identifiers and finger starts
  // ---------------------------------------------------------------------

  /** computeRelativeId: how far `universal` lies clockwise from `local`. */
  function RelativeId(universal: int, local: int): int
  {
    var d := LongWrap(universal - local);
    if d < 0 then d + Pow2(32) else d
  }

  /**
   * The subtraction is long arithmetic: a lookup identifier far below the
   * node's wraps round to a large positive distance.
   */
  lemma RelativeIdWrapsAsLong()
    ensures RelativeId(MinLong, 1) == MaxLong
    ensures RelativeId(MinLong, 0) == MinLong + Pow2(32)
  {
    Pow2Ring();
  }

  lemma RelativeIdIsClockwiseDistance(universal: int, local: int)
    requires 0 <= universal < Ring && 0 <= local < Ring
    ensures 0 <= RelativeId(universal, local) < Ring
    ensures RelativeId(universal, local) == (universal - local) % Ring
    ensures RelativeId(universal, local) == 0 <==> universal == local
  {
    Pow2Ring();
  }

  /**
   * Reference definition of "x lies strictly inside the clockwise arc from a
   * to b", by cases on absolute identifiers; the arc from a point to itself
   * is empty.
   */
  predicate ClockwiseBetween(a: int, x: int, b: int)
  {
    if a < b then a < x < b
    else if b < a then a < x || x < b
    else false
  }

  /** The relative-identifier test the node uses is exactly the arc test. */
  lemma RelativeBetween(a: int, x: int, b: int)
    requires 0 <= a < Ring && 0 <= x < Ring && 0 <= b < Ring
    ensures 0 < RelativeId(x, a) < RelativeId(b, a) <==> ClockwiseBetween(a, x, b)
  {
    Pow2Ring();
  }

  /**
   * Java's % on long: the remainder of |a| by |b|, with the sign of the
   * dividend; a divisor of 0 throws ArithmeticException.
   */
  function JavaRem(a: int, b: int): Outcome<int>
  {
    if b == 0 then Throws(Arithmetic)
    else
      var m := if b > 0 then b else -b;
      Returns(if a >= 0 then a % m else -((-a) % m))
  }

  /**
   * getPowerOfTwo: the table's entry for k; a missing key makes Java unbox
   * null and throw.
   */
  function GetPowerOfTwo(powerOfTwo: map<int, int>, k: int): Outcome<int>
  {
    if k in powerOfTwo then Returns(powerOfTwo[k]) else Throws(NullPointer)
  }

  /** With the table the Helper constructor builds, getPowerOfTwo(k) is 2^k for k in 0..32 and throws otherwise. */
  lemma GetPowerOfTwoFromTable(k: int)
    ensures 0 <= k <= 32 ==> GetPowerOfTwo(PowerTable(33), k) == Returns(Pow2(k))
    ensures !(0 <= k <= 32) ==> GetPowerOfTwo(PowerTable(33), k) == Throws(NullPointer)
  {
  }

  /** ithStart: where finger i of a node starts, (nodeId + 2^(i-1)) % 2^32 by the table. */
  function IthStart(powerOfTwo: map<int, int>, nodeId: int, i: int): Outcome<int>
  {
    match GetPowerOfTwo(powerOfTwo, i - 1)
    case Returns(offset) =>
      (match GetPowerOfTwo(powerOfTwo, 32)
       case Returns(size) => JavaRem(LongWrap(nodeId + offset), size)
       case Throws(e) => Throws(e)
       case Hangs => Hangs)
    case Throws(e) => Throws(e)
    case Hangs => Hangs
  }

  /**
   * For an identifier and i in 1..32, finger i starts 2^(i-1) clockwise
   * from the node, inside the ring; any other i throws.
   */
  lemma IthStartOffset(nodeId: int, i: int)
    requires 0 <= nodeId < Ring
    ensures 1 <= i <= 32 ==>
      var r := IthStart(PowerTable(33), nodeId, i);
      r.Returns? && 0 <= r.value < Ring && r.value == (nodeId + Pow2(i - 1)) % Ring &&
      RelativeId(r.value, nodeId) == Pow2(i - 1)
    ensures !(1 <= i <= 33) ==> IthStart(PowerTable(33), nodeId, i) == Throws(NullPointer)
  {
    GetPowerOfTwoFromTable(i - 1);
    GetPowerOfTwoFromTable(32);
    if 1 <= i <= 32 {
      Pow2Ring();
      Pow2Monotone(i - 1, 31);
      Pow2Add(31, 1);
      StartArithmetic(nodeId, Pow2(i - 1));
    }
  }

  /** The arithmetic of ithStart: no long overflow, and the start lies o clockwise. */
  lemma StartArithmetic(nodeId: int, o: int)
    requires 0 <= nodeId < Ring && 0 < o <= Pow2(31)
    ensures LongWrap(nodeId + o) == nodeId + o
    ensures JavaRem(nodeId + o, Ring) == Returns((nodeId + o) % Ring)
    ensures RelativeId((nodeId + o) % Ring, nodeId) == o
  {
    Pow2Ring();
    var s := (nodeId + o) % Ring;
    if nodeId + o >= Ring {
      assert s == nodeId + o - Ring;
      assert LongWrap(s - nodeId) == s - nodeId;
    } else {
      assert LongWrap(s - nodeId) == o;
    }
  }

  // ---------------------------------------------------------------------
  // Rendering identifiers
  // ---------------------------------------------------------------------

  /** The unsigned 64-bit value Long.toHexString prints for l. */
  function Unsigned64(l: int): nat
    requires MinLong <= l <= MaxLong
  {
    if l < 0 then l + TwoTo64 else l
  }

  lemma {:induction false} HexDigitsBound(n: nat, k: nat)
    requires 1 <= k && n < Pow2(4 * k)
    ensures |Numeral(n, 16)| <= k
    decreases k
  {
    Pow2Ring();
    if n >= 16 {
      Pow2Add(4 * (k - 1), 4);
      if k == 1 {
        assert false;
      }
      HexDigitsBound(n / 16, k - 1);
    }
  }

  /**
   * longTo8DigitHex: Long.toHexString(l) left-padded with '0' to eight
   * digits. For an identifier the result has exactly eight lower-case hex
   * digits and reads back as the identifier.
   */
  method LongTo8DigitHex(l: int) returns (s: string)
    requires MinLong <= l <= MaxLong
    ensures IsNumeral(s, 16) && NumeralValue(s, 16) == Unsigned64(l)
    ensures |s| >= 8 && (|s| > 8 ==> s == Numeral(Unsigned64(l), 16))
    ensures 0 <= l < Ring ==> |s| == 8
  {
    var hex := Numeral(Unsigned64(l), 16);
    var lack := 8 - |hex|;
    var sb := "";
    var i := lack;
    while i > 0
      invariant (lack <= 0 && i == lack && sb == "") || (0 <= i <= lack && sb == Zeros(lack - i))
    {
      sb := sb + "0";
      i := i - 1;
    }
    sb := sb + hex;
    s := sb;
    PaddedHex(l);
  }

  /** Eight-digit padding of Long.toHexString(l), as the loop above builds it. */
  lemma PaddedHex(l: int)
    requires MinLong <= l <= MaxLong
    ensures var hex := Numeral(Unsigned64(l), 16);
      var s := Zeros(if 8 - |hex| > 0 then 8 - |hex| else 0) + hex;
      IsNumeral(s, 16) && NumeralValue(s, 16) == Unsigned64(l) &&
      |s| >= 8 && (|s| > 8 ==> s == hex) && (0 <= l < Ring ==> |s| == 8)
  {
    var hex := Numeral(Unsigned64(l), 16);
    var pad := if 8 - |hex| > 0 then 8 - |hex| else 0;
    PaddedNumeral(pad, hex);
    NumeralRoundTrip(Unsigned64(l), 16);
    if 0 <= l < Ring {
      Pow2Ring();
      HexDigitsBound(l, 8);
    }
  }

  /** Zeros in front of a hex numeral keep it a hex numeral of the same value. */
  lemma PaddedNumeral(pad: nat, hex: string)
    requires IsNumeral(hex, 16)
    ensures IsNumeral(Zeros(pad) + hex, 16) && NumeralValue(Zeros(pad) + hex, 16) == NumeralValue(hex, 16)
  {
    var s := Zeros(pad) + hex;
    LeadingZeros(pad, hex, 16);
    assert forall m :: 0 <= m < pad ==> s[m] == '0';
    assert forall m :: pad <= m < |s| ==> s[m] == hex[m - pad];
  }

  /** The percentage hexIdAndPosition shows: how far round the ring an identifier lies. */
  function Position(hash: int): int
  {
    hash * 100 / Pow2(32)
  }

  lemma PositionIsPercent(hash: int)
    requires 0 <= hash < Ring
    ensures 0 <= Position(hash) <= 99
  {
    Pow2Ring();
    assert hash * 100 < 100 * Ring;
  }

  /**
   * hexIdAndPosition for an address whose identifier is `hash`: eight hex
   * digits, then the percentage in parentheses.
   */
  method HexIdAndPosition(hash: int) returns (s: string)
    requires 0 <= hash < Ring
    ensures |s| > 8 && IsNumeral(s[..8], 16) && NumeralValue(s[..8], 16) == hash
    ensures 0 <= Position(hash) <= 99 && s[8..] == " (" + DecimalText(Position(hash)) + "%)"
  {
    var hex := LongTo8DigitHex(hash);
    s := hex + " (" + DecimalText(hash * 100 / Pow2(32)) + "%)";
    assert s[..8] == hex;
    PositionIsPercent(hash);
  }

  // ---------------------------------------------------------------------
  // hashHashCode: folding a digest into 32 bits
  // ---------------------------------------------------------------------

  /**
   * A byte of the message fed to the digest, by its unsigned value: the
   * eight bits Java's signed byte holds, read as 0..255.
   */
  type Byte = b: int | 0 <= b < 256

  /** (byte) x: the low eight bits of x. */
  function LowByte(x: int): Byte
  {
    x % 256
  }

  /** The unsigned value of a digest byte. */
  function Unsigned(b: bv8): Byte
  {
    b as int
  }

  /** hashbytes: the bytes (byte)(i >> 24), (byte)(i >> 16), (byte)(i >> 8), (byte) i. */
  function IntBytes(i: int): seq<Byte>
  {
    [LowByte(i / 0x100_0000), LowByte(i / 0x1_0000), LowByte(i / 0x100), LowByte(i)]
  }

  /** The number four bytes stand for, most significant first. */
  function BigEndian(b: seq<Byte>): int
    requires |b| == 4
  {
    (b[0] as int) * 0x100_0000 + (b[1] as int) * 0x1_0000 + (b[2] as int) * 0x100 + b[3] as int
  }

  lemma BigEndianBound(b: seq<Byte>)
    requires |b| == 4
    ensures 0 <= BigEndian(b) < Ring
  {
  }

  /** The bytes fed to the digest are the big-endian two's complement form of i. */
  lemma IntBytesBigEndian(i: int)
    requires MinInt <= i <= MaxInt
    ensures BigEndian(IntBytes(i)) == i % Ring
  {
    var q1 := i / 0x100;
    var q2 := q1 / 0x100;
    var q3 := q2 / 0x100;
    ShiftTwice(i);
    var b := IntBytes(i);
    assert b[0] == q3 % 0x100 && b[1] == q2 % 0x100 && b[2] == q1 % 0x100 && b[3] == i % 0x100;
    ByteDigits(i, q1, q2, q3);
  }

  /** Four base-256 digits of a 32-bit two's complement number. */
  lemma ByteDigits(i: int, q1: int, q2: int, q3: int)
    requires MinInt <= i <= MaxInt
    requires q1 == i / 0x100 && q2 == q1 / 0x100 && q3 == q2 / 0x100
    ensures (q3 % 0x100) * 0x100_0000 + (q2 % 0x100) * 0x1_0000 + (q1 % 0x100) * 0x100 + i % 0x100 == i % Ring
  {
    assert i == q3 * 0x100_0000 + (q2 % 0x100) * 0x1_0000 + (q1 % 0x100) * 0x100 + i % 0x100;
    assert -0x80 <= q3 < 0x80;
  }

  /** Shifting right by 16 (or 24) bits is shifting right by 8 twice (three times). */
  lemma ShiftTwice(x: int)
    ensures x / 0x1_0000 == x / 0x100 / 0x100
    ensures x / 0x100_0000 == x / 0x100 / 0x100 / 0x100
  {
    var q1 := x / 0x100;
    var q2 := q1 / 0x100;
    var q3 := q2 / 0x100;
    assert x == q2 * 0x1_0000 + (q1 % 0x100) * 0x100 + x % 0x100;
    assert x == q3 * 0x100_0000 + (q2 % 0x100) * 0x1_0000 + (q1 % 0x100) * 0x100 + x % 0x100;
  }

  /** digest[j] ^ digest[j + 1] ^ ... ^ digest[j + n - 1]. */
  function XorRun(digest: seq<bv8>, j: nat, n: nat): bv8
    requires 1 <= n && j + n <= |digest|
  {
    if n == 1 then digest[j] else XorRun(digest, j, n - 1) ^ digest[j + n - 1]
  }

  /** The value the folded digest stands for: byte j is the XOR of digest bytes j..j+4. */
  function Folded(digest: seq<bv8>): int
    requires |digest| >= 8
  {
    BigEndian([Unsigned(XorRun(digest, 0, 5)), Unsigned(XorRun(digest, 1, 5)), Unsigned(XorRun(digest, 2, 5)), Unsigned(XorRun(digest, 3, 5))])
  }

  /** A Java int read from 32 bits. */
  function Signed32(u: int): int
  {
    if u > MaxInt then u - Ring else u
  }

  /**
   * The folding loop of hashHashCode and the assembly of its result. The
   * four shifted bytes occupy disjoint bits, so their `|` is their sum; as a
   * Java int that sum is negative when the top bit is set, and masking the
   * sign-extended long with 0xFFFFFFFF brings it back into [0, 2^32).
   */
  method Compress(digest: seq<bv8>) returns (r: int)
    requires |digest| >= 8
    ensures r == Folded(digest)
    ensures 0 <= r < Ring
  {
    BigEndianBound([Unsigned(XorRun(digest, 0, 5)), Unsigned(XorRun(digest, 1, 5)), Unsigned(XorRun(digest, 2, 5)), Unsigned(XorRun(digest, 3, 5))]);
    var compressed := new bv8[4];
    for j := 0 to 4
      invariant forall m :: 0 <= m < j ==> compressed[m] == XorRun(digest, m, 5)
    {
      var temp := digest[j];
      for k := 1 to 5
        invariant temp == XorRun(digest, j, k)
      {
        temp := temp ^ digest[j + k];
      }
      compressed[j] := temp;
    }
    var c := [Unsigned(compressed[0]), Unsigned(compressed[1]), Unsigned(compressed[2]), Unsigned(compressed[3])];
    assert c == [Unsigned(XorRun(digest, 0, 5)), Unsigned(XorRun(digest, 1, 5)), Unsigned(XorRun(digest, 2, 5)), Unsigned(XorRun(digest, 3, 5))];
    var asInt := Signed32(BigEndian(c));
    r := asInt % Ring;
    MaskSignExtension(BigEndian(c));
  }

  /** Masking a sign-extended 32-bit value with 0xFFFFFFFF restores its unsigned value. */
  lemma MaskSignExtension(u: int)
    requires 0 <= u < Ring
    ensures Signed32(u) % Ring == u
  {
  }

  /**
   * hashHashCode: the identifier of a 32-bit hash code. `sha1` is the SHA-1
   * MessageDigest, None when the platform has none (the call then yields 0).
   */
  method HashHashCode(i: int, sha1: Option<seq<Byte> -> seq<bv8>>) returns (r: int)
    requires MinInt <= i <= MaxInt
    requires sha1.Some? ==> |sha1.value(IntBytes(i))| >= 8
    ensures 0 <= r < Ring
    ensures sha1.None? ==> r == 0
    ensures sha1.Some? ==> r == Folded(sha1.value(IntBytes(i)))
  {
    var hashbytes := IntBytes(i);
    if sha1.Some? {
      var result := sha1.value(hashbytes);
      r := Compress(result);
      return;
    }
    r := 0;
  }

  // ---------------------------------------------------------------------
  // Decoding replies
  // ---------------------------------------------------------------------

  /**
   * The address and port texts createSocketAddress cuts out of "ip:port":
   * the first two ':'-separated fields, with one leading '/' taken off the
   * address; None when there are fewer than two fields.
   */
  function AddressParts(addr: string): (r: Option<(string, string)>)
    ensures r.None? <==> |Split(addr, ':')| < 2
  {
    var parts := Split(addr, ':');
    if |parts| < 2 then None
    else
      var ip := if StartsWith(parts[0], "/") then parts[0][1..] else parts[0];
      Some((ip, parts[1]))
  }

  /**
   * createSocketAddress: None for a null or unsplittable text or an address
   * that does not resolve; Integer.parseInt and the InetSocketAddress port
   * check throw.
   */
  function CreateSocketAddress(addr: Option<string>, resolve: string -> Option<string>): (r: Outcome<Option<Endpoint>>)
    ensures addr.None? ==> r == Returns(None)
    ensures addr.Some? && AddressParts(addr.value).None? ==> r == Returns(None)
    ensures r.Returns? && r.value.Some? ==>
              addr.Some? && AddressParts(addr.value).Some? &&
              resolve(AddressParts(addr.value).value.0) == Some(r.value.value.ip) &&
              ParseInt(AddressParts(addr.value).value.1) == Returns(r.value.value.port) &&
              0 <= r.value.value.port <= MaxPort
    ensures addr.Some? && AddressParts(addr.value).Some? ==>
      var ip, portText := AddressParts(addr.value).value.0, AddressParts(addr.value).value.1;
      (resolve(ip).None? ==> r == Returns(None)) &&
      (resolve(ip).Some? && ParseInt(portText).Throws? ==> r == Throws(NumberFormat)) &&
      (resolve(ip).Some? && ParseInt(portText).Returns? && !(0 <= ParseInt(portText).value <= MaxPort) ==>
         r == Throws(IllegalArgument))
    ensures r != Hangs
  {
    if addr.None? then Returns(None)
    else match AddressParts(addr.value)
      case None => Returns(None)
      case Some((ip, portText)) =>
        match resolve(ip)
        case None => Returns(None)
        case Some(address) =>
          match ParseInt(portText)
          case Returns(port) =>
            if 0 <= port <= MaxPort then Returns(Some(Endpoint(address, port))) else Throws(IllegalArgument)
          case Throws(e) => Throws(e)
          case Hangs => Hangs
  }

  /**
   * requestAddress: send `req` to `server` and decode the endpoint in the
   * reply. A null argument or no reply gives None, a reply starting with
   * "NOTHING" gives the server itself, anything else is decoded from its
   * second '_'-separated field (a reply without one throws).
   */
  function RequestAddress(net: Network, server: Option<Endpoint>, req: Option<string>): (r: Outcome<Option<Endpoint>>)
    ensures server.None? || req.None? ==> r == Returns(None)
    ensures server.Some? && req.Some? && net.send(server.value, req.value).None? ==> r == Returns(None)
    ensures (server.Some? && req.Some? && net.send(server.value, req.value).Some? &&
             StartsWith(net.send(server.value, req.value).value, "NOTHING")) ==> r == Returns(server)
    ensures r != Hangs
  {
    if server.None? || req.None? then Returns(None)
    else
      var response := net.send(server.value, req.value);
      if response.None? then Returns(None)
      else if StartsWith(response.value, "NOTHING") then Returns(server)
      else
        var parts := Split(response.value, '_');
        if |parts| < 2 then Throws(IndexOutOfBounds)
        else CreateSocketAddress(Some(parts[1]), net.resolve)
  }

  /** A request carrying an identifier: "CLOSEST_<id>" or "FINDSUCC_<id>". */
  function IdRequest(tag: string, id: int): string
  {
    tag + "_" + DecimalText(id)
  }

  /** requestAddress(server, req) for a server that is not null. */
  function Ask(net: Network, server: Endpoint, req: string): Outcome<Option<Endpoint>>
  {
    RequestAddress(net, Some(server), Some(req))
  }

  /** The text of an endpoint decodes back to the endpoint when its address resolves to itself. */
  lemma CreateSocketAddressRoundTrip(e: Endpoint, resolve: string -> Option<string>)
    requires ':' !in e.ip && 0 <= e.port <= MaxPort && resolve(e.ip) == Some(e.ip)
    ensures CreateSocketAddress(Some(AddressText(e)), resolve) == Returns(Some(e))
  {
    var port := DecimalText(e.port);
    assert ':' !in port by {
      assert IsNumeral(port, 10);
    }
    assert AddressText(e) == ("/" + e.ip) + [':'] + port;
    SplitTwo("/" + e.ip, ':', port);
    assert ("/" + e.ip)[1..] == e.ip;
    DecimalRoundTrip(e.port, MinInt, MaxInt);
  }
}
