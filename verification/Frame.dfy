/** The datagram format: a header, and the payload behind it.
      bytes 0-1   begin sequence DA AB
      byte  2     low byte of the version
      byte  3     high bits of the version, and in bit 7 the payload checksum flag
      bytes 4-7   payload length
      bytes 8-11  payload CRC-32, only when the flag is set
      2 bytes     spare, written as zero
      2 bytes     CRC-16/ARC of everything above
    Integers are little-endian. */
module Frame {
  import opened Bits
  import opened CrcSpec
  import opened CrcLaws

  const LOWER: Byte := 0xDA
  const UPPER: Byte := 0xAB

  const TWO_32 := 0x1_0000_0000

  /** A little-endian 32-bit unsigned integer. */
  function Number(s: seq<Byte>): (n: nat)
    requires |s| == 4
    ensures n < TWO_32
  {
    s[0] as int + 0x100 * s[1] as int + 0x1_0000 * s[2] as int + 0x100_0000 * s[3] as int
  }

  function NumberBytes(n: nat): (s: seq<Byte>)
    requires n < TWO_32
    ensures |s| == 4
  {
    [(n % 0x100) as Byte, (n / 0x100 % 0x100) as Byte, (n / 0x1_0000 % 0x100) as Byte, (n / 0x100_0000) as Byte]
  }

  /** A number determines its lowest byte and the number above it. */
  lemma {:induction false} LowestByte(low: Byte, high: nat, n: nat)
    ensures low as int + 0x100 * high == n <==> low as int == n % 0x100 && high == n / 0x100
  {
  }

  lemma {:induction false} DivideTwice(n: nat)
    ensures n / 0x100 / 0x100 == n / 0x1_0000 && n / 0x1_0000 / 0x100 == n / 0x100_0000
  {
  }

  lemma {:induction false} NumberRoundTrip(n: nat, s: seq<Byte>)
    requires n < TWO_32 && |s| == 4
    ensures Number(s) == n <==> s == NumberBytes(n)
  {
    var third := s[2] as int + 0x100 * s[3] as int;
    var second := s[1] as int + 0x100 * third;
    LowestByte(s[0], second, n);
    LowestByte(s[1], third, n / 0x100);
    LowestByte(s[2], s[3] as int, n / 0x100 / 0x100);
    DivideTwice(n);
    NumberFields(n, s);
  }

  lemma {:induction false} NumberFields(n: nat, s: seq<Byte>)
    requires n < TWO_32 && |s| == 4
    ensures s == NumberBytes(n) <==>
      s[0] as int == n % 0x100 && s[1] as int == n / 0x100 % 0x100
      && s[2] as int == n / 0x1_0000 % 0x100 && s[3] as int == n / 0x100_0000
  {
  }

  predicate Begins(s: seq<Byte>) {
    |s| >= 2 && s[0] == LOWER && s[1] == UPPER
  }

  predicate Flagged(s: seq<Byte>)
    requires |s| >= 4
  {
    s[3] >= 128
  }

  function HeaderLength(s: seq<Byte>): (n: nat)
    requires |s| >= 4
    ensures n == 12 || n == 16
  {
    if Flagged(s) then 16 else 12
  }

  function PayloadLength(s: seq<Byte>): (n: nat)
    requires |s| >= 8
    ensures n < TWO_32
  {
    Number(s[4..8])
  }

  function FrameLength(s: seq<Byte>): nat
    requires |s| >= 8
  {
    HeaderLength(s) + PayloadLength(s)
  }

  predicate HeaderChecks(s: seq<Byte>)
    requires |s| >= 4 && |s| >= HeaderLength(s)
  {
    var h := HeaderLength(s);
    BitsOf(s[h - 2..h]) == Checksum(Crc16Arc(), s[..h - 2])
  }

  /** A complete and correct header stands at the front of `s`. */
  predicate IsHeader(s: seq<Byte>) {
    Begins(s) && |s| >= 12 && |s| >= HeaderLength(s) && HeaderChecks(s)
  }

  /** The whole frame announced by the header is present. */
  predicate Framed(s: seq<Byte>) {
    |s| >= 12 && FrameLength(s) <= |s|
  }

  /** What a datagram says, apart from how it is laid out. */
  datatype Message = Message(version: nat, checksumIncluded: bool, payload: seq<Byte>) {
    predicate Valid() {
      version < 0x8000 && |payload| < TWO_32
    }
  }

  function PayloadCrc(payload: seq<Byte>): (w: Word)
    ensures |w| == 32
  {
    Checksum(Crc32(), payload)
  }

  function Lead(m: Message): (s: seq<Byte>)
    requires m.Valid()
    ensures |s| == 4
  {
    [LOWER, UPPER, (m.version % 256) as Byte, (m.version / 256 + (if m.checksumIncluded then 128 else 0)) as Byte]
  }

  function LengthField(m: Message): (s: seq<Byte>)
    requires m.Valid()
    ensures |s| == 4
  {
    NumberBytes(|m.payload|)
  }

  function PayloadCheckField(m: Message): (s: seq<Byte>)
    ensures |s| == if m.checksumIncluded then 4 else 0
  {
    if m.checksumIncluded then BytesOf(PayloadCrc(m.payload)) else []
  }

  /** The header without its own checksum; two spare bytes end it. */
  function HeaderPrefix(m: Message): (s: seq<Byte>)
    requires m.Valid()
    ensures |s| == if m.checksumIncluded then 14 else 10
  {
    Lead(m) + LengthField(m) + PayloadCheckField(m) + [0, 0]
  }

  function HeaderCheck(prefix: seq<Byte>): (s: seq<Byte>)
    ensures |s| == 2
  {
    BytesOf(Checksum(Crc16Arc(), prefix))
  }

  function HeaderOf(m: Message): (s: seq<Byte>)
    requires m.Valid()
    ensures |s| == if m.checksumIncluded then 16 else 12
  {
    HeaderPrefix(m) + HeaderCheck(HeaderPrefix(m))
  }

  function Serialize(m: Message): seq<Byte>
    requires m.Valid()
  {
    HeaderOf(m) + m.payload
  }

  /** The fields of a datagram object. */
  datatype Fields = Fields(
    version: int, payloadLength: nat, payloadChecksum: Word, checksumIncluded: bool, payload: seq<Byte>)
  {
    /** `PayloadCorrectness`. */
    predicate Correct() {
      payloadLength == |payload| && (checksumIncluded ==> PayloadCrc(payload) == payloadChecksum)
    }

    /** What `Get` prints: of the version its 15 low bits. */
    function Content(): Message {
      Message(version % 0x8000, checksumIncluded, payload)
    }
  }

  /** The fields a complete frame at the front of `s` loads over the fields `f`;
      a frame without a payload checksum leaves the old one in place. */
  function Loaded(f: Fields, s: seq<Byte>): Fields
    requires Framed(s)
  {
    Fields(s[2] as int, PayloadLength(s), if Flagged(s) then BitsOf(s[8..12]) else f.payloadChecksum, Flagged(s),
           s[HeaderLength(s)..FrameLength(s)])
  }

  // ----- fields as numbers

  /** Two stored bytes, read as a word, are their little-endian number. */
  lemma {:induction false} StoredPair(s: seq<Byte>)
    requires |s| == 2
    ensures FromBits(BitsOf(s)) == s[0] as int + 0x100 * s[1] as int
  {
    BitsOfNumber(s);
    BitsOfNumber(s[1..]);
    BitsOfNumber(s[2..]);
    assert s[1..][1..] == s[2..] == [];
    hide FromBits, BitsOf;
  }

  /** Four stored bytes, read as a word, are their little-endian number. */
  lemma {:induction false} StoredNumber(s: seq<Byte>)
    requires |s| == 4
    ensures FromBits(BitsOf(s)) == Number(s)
      == s[0] as int + 0x100 * s[1] as int + 0x1_0000 * s[2] as int + 0x100_0000 * s[3] as int
  {
    hide FromBits, BitsOf;
    BitsOfNumber(s);
    BitsOfNumber(s[1..]);
    StoredPair(s[2..]);
    assert s[1..][1..] == s[2..];
  }

  /** A correct header, in bytes: DA AB in front, and the CRC-16/ARC of what comes before them
      in its last two bytes, low byte first; it has sixteen bytes when bit 7 of byte 3 is set,
      else twelve. */
  lemma {:induction false} HeaderInBytes(s: seq<Byte>)
    ensures IsHeader(s) <==>
      && |s| >= 12 && s[0] == 0xDA && s[1] == 0xAB
      && var h := if s[3] >= 128 then 16 else 12;
         |s| >= h && s[h - 2] as int + 0x100 * s[h - 1] as int == FromBits(Checksum(Crc16Arc(), s[..h - 2]))
  {
    hide Checksum, BitsOf, FromBits;
    if |s| >= 12 {
      var h := if s[3] >= 128 then 16 else 12;
      if |s| >= h {
        StoredPair(s[h - 2..h]);
        SameWord(BitsOf(s[h - 2..h]), Checksum(Crc16Arc(), s[..h - 2]));
      }
    }
  }

  lemma {:induction false} SameWord(a: Word, b: Word)
    requires |a| == |b|
    ensures a == b <==> FromBits(a) == FromBits(b)
  {
    ToFromBits(a);
    ToFromBits(b);
  }

  /** What a complete frame loads, in bytes. */
  lemma {:induction false} LoadedInBytes(f: Fields, s: seq<Byte>)
    requires Framed(s)
    ensures
      var g := Loaded(f, s);
      var h := if s[3] >= 128 then 16 else 12;
      var n := s[4] as int + 0x100 * s[5] as int + 0x1_0000 * s[6] as int + 0x100_0000 * s[7] as int;
      h + n <= |s| && g.version == s[2] as int && g.payloadLength == n && g.checksumIncluded == (s[3] >= 128)
      && g.payload == s[h..h + n]
      && if s[3] < 128 then g.payloadChecksum == f.payloadChecksum
         else
           FromBits(g.payloadChecksum)
           == s[8] as int + 0x100 * s[9] as int + 0x1_0000 * s[10] as int + 0x100_0000 * s[11] as int
  {
    StoredNumber(s[8..12]);
    hide BitsOf, FromBits;
  }

  // ----- printing then parsing

  lemma {:induction false} StoredCheckBytes(s: seq<Byte>, w: Word)
    requires |w| == 8 * |s|
    ensures BitsOf(s) == w <==> s == BytesOf(w)
  {
    BytesOfBitsOf(s);
    BitsOfBytesOf(w);
  }

  lemma {:induction false} HeaderChecksBytes(s: seq<Byte>)
    requires |s| >= 4 && |s| >= HeaderLength(s)
    ensures var h := HeaderLength(s); HeaderChecks(s) <==> s[h - 2..h] == HeaderCheck(s[..h - 2])
  {
    var h := HeaderLength(s);
    StoredCheckBytes(s[h - 2..h], Checksum(Crc16Arc(), s[..h - 2]));
  }

  /** The parts of a concatenation, cut out again. */
  lemma {:induction false} Cut<T>(a: seq<T>, b: seq<T>, c: seq<T>, d: seq<T>, e: seq<T>, payload: seq<T>, junk: seq<T>)
    requires |a| == |b| == 4 && |d| == |e| == 2
    ensures
      var s := a + b + c + d + e + payload + junk;
      var h := 12 + |c|;
      s[..4] == a && s[4..8] == b && s[8..h - 4] == c && s[h - 4..h - 2] == d && s[h - 2..h] == e
      && s[..h - 2] == a + b + c + d && s[h..h + |payload|] == payload
      && s[0] == a[0] && s[1] == a[1] && s[2] == a[2] && s[3] == a[3] && s[h - 4] == d[0] && s[h - 3] == d[1]
  {
  }

  /** The front of `s` is a concatenation exactly when its slices are the parts. */
  lemma {:induction false} SameParts<T>(a: seq<T>, b: seq<T>, c: seq<T>, d: seq<T>, e: seq<T>, s: seq<T>, n: nat)
    requires |a| == |b| == 4 && |d| == |e| == 2 && 12 + |c| <= n <= |s|
    ensures
      var h := 12 + |c|;
      (a + b + c + d == s[..h - 2] <==> s[..4] == a && s[4..8] == b && s[8..h - 4] == c && s[h - 4..h - 2] == d)
      && (a + b + c + d + e + s[h..n] == s[..n] <==> a + b + c + d == s[..h - 2] && s[h - 2..h] == e)
  {
    var h := 12 + |c|;
    var p, t := a + b + c + d, a + b + c + d + e + s[h..n];
    assert s[..h - 2] == s[..4] + s[4..8] + s[8..h - 4] + s[h - 4..h - 2];
    assert s[..n] == s[..h - 2] + s[h - 2..h] + s[h..n];
    if p == s[..h - 2] {
      assert s[..4] == p[..4] == a && s[4..8] == p[4..8] == b && s[8..h - 4] == p[8..h - 4] == c;
      assert s[h - 4..h - 2] == p[h - 4..h - 2] == d;
    }
    if t == s[..n] {
      assert p == t[..h - 2] == s[..n][..h - 2] == s[..h - 2];
      assert e == t[h - 2..h] == s[..n][h - 2..h] == s[h - 2..h];
    }
  }

  /** The first four bytes hold the version and the flag, and nothing else. */
  lemma {:induction false} LeadBytes(m: Message, lead: seq<Byte>)
    requires m.Valid() && |lead| == 4
    ensures lead == Lead(m) <==>
      lead[0] == LOWER && lead[1] == UPPER && lead[2] as int == m.version % 256
      && lead[3] as int % 128 == m.version / 256 && (lead[3] >= 128) == m.checksumIncluded
  {
  }

  lemma {:induction false} CutMessage(m: Message, junk: seq<Byte>)
    requires m.Valid()
    ensures
      var s := Serialize(m) + junk;
      var h := |HeaderOf(m)|;
      s[..4] == Lead(m) && s[4..8] == LengthField(m) && s[8..h - 4] == PayloadCheckField(m)
      && s[h - 4] == 0 && s[h - 3] == 0 && s[h - 2..h] == HeaderCheck(HeaderPrefix(m))
      && s[..h - 2] == HeaderPrefix(m) && s[h..h + |m.payload|] == m.payload
    ensures
      var s := Serialize(m) + junk;
      Begins(s) && s[2] as int == m.version % 256 && s[3] as int % 128 == m.version / 256
      && Flagged(s) == m.checksumIncluded
  {
    Cut(Lead(m), LengthField(m), PayloadCheckField(m), [0, 0], HeaderCheck(HeaderPrefix(m)), m.payload, junk);
    LeadBytes(m, Lead(m));
  }

  /** A printed message is a complete frame with a correct header, whatever follows it. */
  lemma {:induction false} SerializeIsFrame(m: Message, junk: seq<Byte>)
    requires m.Valid()
    ensures
      var s := Serialize(m) + junk;
      IsHeader(s) && FrameLength(s) == |Serialize(m)| && HeaderLength(s) == |HeaderOf(m)|
  {
    CutMessage(m, junk);
    HeaderChecksBytes(Serialize(m) + junk);
    NumberRoundTrip(|m.payload|, LengthField(m));
  }

  lemma {:induction false} PrintedChecks(m: Message)
    requires m.Valid()
    ensures
      var s := Serialize(m);
      var h := |HeaderOf(m)|;
      Number(s[4..8]) == |m.payload|
      && (m.checksumIncluded ==> FromBits(BitsOf(s[8..12])) == FromBits(Checksum(Crc32(), m.payload)))
  {
    hide Checksum, BitsOf, BytesOf, FromBits, Number, NumberBytes;
    assert Serialize(m) + [] == Serialize(m);
    CutMessage(m, []);
    NumberRoundTrip(|m.payload|, LengthField(m));
    if m.checksumIncluded {
      BitsOfBytesOf(PayloadCrc(m.payload));
    }
  }

  /** A printed message, byte by byte. */
  lemma {:induction false} PrintedInBytes(m: Message)
    requires m.Valid()
    ensures
      var s := Serialize(m);
      var h := if m.checksumIncluded then 16 else 12;
      |s| == h + |m.payload| && s[h..] == m.payload && s[0] == 0xDA && s[1] == 0xAB
      && s[2] as int == m.version % 256 && s[3] as int == m.version / 256 + (if m.checksumIncluded then 128 else 0)
      && s[4] as int + 0x100 * s[5] as int + 0x1_0000 * s[6] as int + 0x100_0000 * s[7] as int == |m.payload|
      && (m.checksumIncluded ==>
            s[8] as int + 0x100 * s[9] as int + 0x1_0000 * s[10] as int + 0x100_0000 * s[11] as int
            == FromBits(Checksum(Crc32(), m.payload)))
      && s[h - 4] == 0 && s[h - 3] == 0
      && s[h - 2] as int + 0x100 * s[h - 1] as int == FromBits(Checksum(Crc16Arc(), s[..h - 2]))
  {
    hide Checksum, BitsOf, BytesOf, FromBits, NumberBytes, HeaderChecks, HeaderPrefix, HeaderCheck;
    var s := Serialize(m);
    assert s + [] == s;
    CutMessage(m, []);
    SerializeIsFrame(m, []);
    HeaderInBytes(s);
    PrintedChecks(m);
    if m.checksumIncluded {
      StoredNumber(s[8..12]);
    }
    assert s[..4][3] == s[3];
    hide Serialize;
  }

  /** `s` opens with the frame of `m`. */
  predicate Carries(s: seq<Byte>, m: Message)
    requires m.Valid()
  {
    && Framed(s) && PayloadLength(s) == |m.payload|
    && Flagged(s) == m.checksumIncluded && s[2] as int == m.version % 256
    && s[8..HeaderLength(s) - 4] == PayloadCheckField(m)
    && s[HeaderLength(s)..FrameLength(s)] == m.payload
  }

  lemma {:induction false} SerializeCarries(m: Message, junk: seq<Byte>)
    requires m.Valid()
    ensures IsHeader(Serialize(m) + junk) && Carries(Serialize(m) + junk, m)
  {
    SerializeIsFrame(m, junk);
    CutMessage(m, junk);
  }

  /** Parsing a printed message gives back its flag and payload, a correct
      payload check, and its version exactly when the version fits in one byte. */
  lemma {:induction false} ParseAfterPrint(m: Message, s: seq<Byte>, f: Fields)
    requires m.Valid() && Carries(s, m)
    ensures
      var g := Loaded(f, s);
      g.checksumIncluded == m.checksumIncluded && g.payload == m.payload && g.Correct()
      && (g.version == m.version <==> m.version < 256)
  {
    hide BitsOf, BytesOf, PayloadCrc, Number;
    BitsOfBytesOf(PayloadCrc(m.payload));
    VersionByte(m.version);
  }

  lemma {:induction false} VersionByte(version: nat)
    ensures version % 256 == version <==> version < 256
  {
  }

  // ----- parsing then printing

  /** The bits `Load` ignores and `Get` writes as zero. */
  predicate SpareBitsClear(s: seq<Byte>)
    requires |s| >= 4 && |s| >= HeaderLength(s)
  {
    var h := HeaderLength(s);
    s[3] % 128 == 0 && s[h - 4] == 0 && s[h - 3] == 0
  }

  lemma {:induction false} SpareField(s: seq<Byte>)
    requires |s| == 2
    ensures s == [0, 0] <==> s[0] == 0 && s[1] == 0
  {
  }

  /** The parts of a parsed frame that the printer would write differently. */
  lemma {:induction false} ParsedFields(s: seq<Byte>, f: Fields)
    requires Begins(s) && Framed(s)
    ensures
      var g, h := Loaded(f, s), HeaderLength(s);
      g.Content().Valid() && LengthField(g.Content()) == s[4..8]
      && (s[..4] == Lead(g.Content()) && s[8..h - 4] == PayloadCheckField(g.Content()) && s[h - 4..h - 2] == [0, 0]
          <==> SpareBitsClear(s) && g.Correct())
  {
    hide PayloadCrc, Number, NumberBytes;
    var m, h := Loaded(f, s).Content(), HeaderLength(s);
    NumberRoundTrip(|m.payload|, s[4..8]);
    LeadBytes(m, s[..4]);
    SpareField(s[h - 4..h - 2]);
    if Flagged(s) {
      StoredCheckBytes(s[8..12], PayloadCrc(m.payload));
    }
  }

  lemma {:induction false} PrintedParts(s: seq<Byte>, m: Message, n: nat)
    requires IsHeader(s) && HeaderLength(s) <= n <= |s| && m.Valid()
    requires m.checksumIncluded == Flagged(s) && m.payload == s[HeaderLength(s)..n] && LengthField(m) == s[4..8]
    ensures
      var h := HeaderLength(s);
      Serialize(m) == s[..n]
      <==> s[..4] == Lead(m) && s[8..h - 4] == PayloadCheckField(m) && s[h - 4..h - 2] == [0, 0]
  {
    HeaderChecksBytes(s);
    SameParts(Lead(m), LengthField(m), PayloadCheckField(m), [0, 0], HeaderCheck(HeaderPrefix(m)), s, n);
  }

  /** A frame that parses is printed back byte for byte exactly when its spare
      bits are clear and its payload check succeeds. */
  lemma {:induction false} PrintAfterParse(s: seq<Byte>, f: Fields)
    requires IsHeader(s) && Framed(s)
    ensures Loaded(f, s).Content().Valid()
    ensures
      Serialize(Loaded(f, s).Content()) == s[..FrameLength(s)] <==> SpareBitsClear(s) && Loaded(f, s).Correct()
  {
    ParsedFields(s, f);
    PrintedParts(s, Loaded(f, s).Content(), FrameLength(s));
  }
}
