/** The datagram object: parsed from a buffer, printed to a buffer. */
module DatagramObject {
  import opened Bits
  import opened CrcSpec
  import opened Frame
  import Crc

  /** How `Load` ends. Every case but `Done` and `OutOfBuffer` is an exception of
      the original; `OutOfBuffer` is where it goes on to copy bytes that the
      caller's buffer does not hold. */
  datatype LoadStatus =
    | Done
    | TooShort
    | WrongBeginSequence
    | TooShortForChecksum
    | WrongHeaderChecksum
    | PayloadOverflow
    | OutOfBuffer

  method CopyBytes(a: array<Byte>, at: nat, data: seq<Byte>)
    requires at + |data| <= a.Length
    modifies a
    ensures a[..at] == old(a[..at]) && a[at..at + |data|] == data
    ensures forall i :: at + |data| <= i < a.Length ==> a[i] == old(a[i])
  {
    for i := 0 to |data|
      invariant a[..at] == old(a[..at])
      invariant forall j :: at + |data| <= j < a.Length ==> a[j] == old(a[j])
      invariant a[at..at + i] == data[..i]
    {
      a[at + i] := data[i];
      assert a[at..at + i + 1] == a[at..at + i] + [data[i]];
    }
  }

  lemma {:induction false} WholeBytes(low: int, k: int, n: int)
    requires n == low + 256 * k
    ensures n % 256 == low % 256
  {
  }

  /** The 15 low bits of a version have the low byte of the version. */
  lemma {:induction false} VersionBytes(version: int)
    ensures version % 256 == version % 0x8000 % 256 && 0 <= version % 0x8000 / 256 < 128
  {
    WholeBytes(version % 0x8000, 128 * (version / 0x8000), version);
  }

  class Datagram {
    var version: int
    var payloadLength: nat
    var payloadChecksum: Word
    var payloadChecksumIncluded: bool
    var payload: seq<Byte>

    ghost function View(): Fields
      reads this
    {
      Fields(version, payloadLength, payloadChecksum, payloadChecksumIncluded, payload)
    }

    /** A new object has no payload; its other fields are indeterminate. */
    constructor ()
      ensures payload == []
    {
      payload := [];
    }

    method Load(buffer: seq<Byte>) returns (status: LoadStatus)
      modifies this
      ensures status == Done <==> IsHeader(buffer) && Framed(buffer)
      ensures status == PayloadOverflow <==> IsHeader(buffer) && !Framed(buffer) && FrameLength(buffer) < TWO_32
      ensures status == OutOfBuffer <==> IsHeader(buffer) && !Framed(buffer) && FrameLength(buffer) >= TWO_32
      ensures status == TooShort <==> |buffer| < 12
      ensures status == WrongBeginSequence <==> |buffer| >= 12 && !Begins(buffer)
      ensures status == TooShortForChecksum <==> Begins(buffer) && 12 <= |buffer| < HeaderLength(buffer)
      ensures status == Done ==> View() == Loaded(old(View()), buffer)
      ensures status in {TooShort, WrongBeginSequence} ==> View() == old(View())
      ensures status !in {Done, TooShort, WrongBeginSequence} ==>
        View() == old(View()).(
          version := buffer[2] as int, payloadLength := PayloadLength(buffer), checksumIncluded := Flagged(buffer),
          payloadChecksum := if Flagged(buffer) && |buffer| >= 16 then BitsOf(buffer[8..12]) else old(payloadChecksum))
    {
      hide Checksum, Crc16Arc, BitsOf, Number;
      if |buffer| < 12 {
        return TooShort;
      }
      if buffer[0] != LOWER || buffer[1] != UPPER {
        return WrongBeginSequence;
      }
      version := buffer[2] as int;
      payloadChecksumIncluded := buffer[3] >= 128;
      payloadLength := Number(buffer[4..8]);

      var headerChecksum, headerLength;
      if payloadChecksumIncluded {
        if |buffer| < 16 {
          return TooShortForChecksum;
        }
        payloadChecksum := BitsOf(buffer[8..12]);
        headerChecksum, headerLength := BitsOf(buffer[14..16]), 16;
      } else {
        headerChecksum, headerLength := BitsOf(buffer[10..12]), 12;
      }
      var headerCrc := Crc.Calculate(buffer[..headerLength - 2], Crc16Arc());
      if headerChecksum != headerCrc {
        return WrongHeaderChecksum;
      }
      if (payloadLength + headerLength) % TWO_32 > |buffer| {
        return PayloadOverflow;
      }
      if payloadLength + headerLength > |buffer| {
        return OutOfBuffer;
      }
      payload := buffer[headerLength..headerLength + payloadLength];
      status := Done;
    }

    method PayloadCorrectness() returns (correct: bool)
      ensures correct == View().Correct()
      ensures correct <==>
        payloadLength == |payload| && (payloadChecksumIncluded ==> payloadChecksum == Checksum(Crc32(), payload))
    {
      hide Checksum, Crc32;
      if payloadLength != |payload| {
        return false;
      }
      if payloadChecksumIncluded {
        var crc := Crc.Calculate(payload, Crc32());
        if crc != payloadChecksum {
          return false;
        }
      }
      return true;
    }

    /** The 16-bit argument loses its sign bit. */
    method SetVersion(newVersion: int)
      requires -0x8000 <= newVersion < 0x8000
      modifies this`version
      ensures 0 <= version < 0x8000 && (newVersion - version) % 0x8000 == 0
    {
      version := newVersion % 0x8000;
    }

    method SetPayloadChecksum(included: bool)
      modifies this`payloadChecksumIncluded
      ensures payloadChecksumIncluded == included
    {
      payloadChecksumIncluded := included;
    }

    method SetPayload(buffer: seq<Byte>)
      modifies this`payload, this`payloadLength
      ensures |buffer| < TWO_32 ==> payload == buffer && payloadLength == |buffer|
      ensures |buffer| >= TWO_32 ==> payload == old(payload) && payloadLength == old(payloadLength)
    {
      if |buffer| <= 0xFFFF_FFFF {
        payload := buffer;
        payloadLength := |buffer|;
      }
    }

    /** Begin sequence, version and flag. */
    method PutLead(retval: array<Byte>)
      requires View().Content().Valid() && retval.Length >= 4
      modifies retval
      ensures retval[..4] == Lead(View().Content())
      ensures forall i :: 4 <= i < retval.Length ==> retval[i] == old(retval[i])
    {
      hide Lead;
      VersionBytes(version);
      retval[0] := LOWER;
      retval[1] := UPPER;
      retval[2] := (version % 256) as Byte;
      retval[3] := (version % 0x8000 / 256) as Byte;
      if payloadChecksumIncluded {
        retval[3] := retval[3] + 0x80;
      }
      LeadBytes(View().Content(), retval[..4]);
    }

    /** The header up to its own checksum, in a buffer of zeros. */
    method PutFields(retval: array<Byte>, ghost m: Message)
      requires m.Valid() && m == View().Content()
      requires retval.Length == |HeaderOf(m)| + |payload|
      requires forall i :: 0 <= i < retval.Length ==> retval[i] == 0
      modifies retval
      ensures retval[..|HeaderOf(m)| - 2] == HeaderPrefix(m)
    {
      hide Checksum, Crc32, BytesOf, NumberBytes, HeaderCheck, Lead;
      var spare := if payloadChecksumIncluded then 12 else 8;
      PutLead(retval);
      CopyBytes(retval, 4, NumberBytes(|payload|));
      if payloadChecksumIncluded {
        var payloadCrc := Crc.Calculate(payload, Crc32());
        CopyBytes(retval, 8, BytesOf(payloadCrc));
        assert retval[..4] == retval[..8][..4] && retval[4..8] == retval[..8][4..];
      }
      assert retval[4..8] == LengthField(m) && retval[8..spare] == PayloadCheckField(m);
      assert retval[spare..spare + 2] == [0, 0];
      assert retval[..spare + 2] == retval[..4] + retval[4..8] + retval[8..spare] + retval[spare..spare + 2];
    }

    /** `pastEnd`: the original takes the address of a payload byte that is not there. */
    method Get() returns (retval: array<Byte>, ghost pastEnd: bool)
      requires View().Content().Valid()
      ensures pastEnd <==> payload == []
      ensures fresh(retval) && retval[..] == Serialize(View().Content())
    {
      hide Checksum, Crc16Arc, BytesOf, HeaderPrefix;
      ghost var m := View().Content();
      var headerLength := if payloadChecksumIncluded then 16 else 12;
      retval := new Byte[headerLength + |payload|](_ => 0);
      pastEnd := headerLength >= retval.Length;
      PutFields(retval, m);
      var headerCrc := Crc.Calculate(retval[..headerLength - 2], Crc16Arc());
      CopyBytes(retval, headerLength - 2, BytesOf(headerCrc));
      assert retval[..headerLength] == retval[..headerLength - 2] + retval[headerLength - 2..headerLength];
      assert retval[..headerLength] == HeaderOf(m);
      CopyBytes(retval, headerLength, payload);
      assert retval[..] == retval[..headerLength] + retval[headerLength..];
    }
  }

  /** What `Load` would be given for a frame whose length is kept in 32 bits; the stream
      keeps it in the 64 bits of `size_t`. */
  function CutAt32Bits(s: seq<Byte>): (n: nat)
    requires |s| >= 8
  {
    FrameLength(s) % TWO_32
  }

  lemma {:induction false} HeaderInFront(s: seq<Byte>, n: nat)
    requires IsHeader(s) && HeaderLength(s) <= n <= |s|
    ensures IsHeader(s[..n])
  {
    hide Checksum, BitsOf;
    var h := HeaderLength(s);
    var front := s[..n];
    assert front[0] == s[0] && front[1] == s[1] && front[3] == s[3];
    assert front[h - 2..h] == s[h - 2..h] && front[..h - 2] == s[..h - 2];
  }

  lemma {:induction false} TooShortForHeader(s: seq<Byte>, n: nat)
    requires |s| >= 4 && n <= |s| && n < HeaderLength(s)
    ensures !IsHeader(s[..n])
  {
    hide HeaderChecks;
    assert n >= 4 ==> s[..n][3] == s[3];
  }

  lemma {:induction false} WrapsOnce(header: nat, payload: nat)
    requires header < TWO_32 && payload < TWO_32
    ensures
      var n := header + payload;
      if n < TWO_32 then n % TWO_32 == n else n % TWO_32 == n - TWO_32 < header
  {
  }

  /** In 32 bits the length of a frame would be cut exactly when it reaches 2^32. The stream
      would then take a buffer with the header alone for the whole frame, and `Load` would
      throw, as what it is given does not hold even the header. */
  lemma {:induction false} WidthMatters(s: seq<Byte>)
    requires IsHeader(s) && CutAt32Bits(s) <= |s|
    ensures IsHeader(s[..CutAt32Bits(s)]) <==> FrameLength(s) < TWO_32
    ensures FrameLength(s) >= TWO_32 ==> CutAt32Bits(s) < HeaderLength(s)
  {
    hide HeaderChecks, Number;
    var n := CutAt32Bits(s);
    WrapsOnce(HeaderLength(s), PayloadLength(s));
    hide IsHeader;
    if FrameLength(s) < TWO_32 {
      HeaderInFront(s, n);
    } else {
      TooShortForHeader(s, n);
    }
  }

  /** When header and payload length reach 2^32 their 32-bit sum wraps, so the
      length check of `Load` passes for a buffer that holds the header alone. */
  lemma {:induction false} LengthCheckWraps() returns (s: seq<Byte>)
    ensures IsHeader(s) && |s| == 12 && FrameLength(s) >= TWO_32 && FrameLength(s) % TWO_32 <= |s| < FrameLength(s)
  {
    hide Checksum, BitsOf, BytesOf;
    var prefix: seq<Byte> := [LOWER, UPPER, 0, 0, 255, 255, 255, 255, 0, 0];
    s := prefix + HeaderCheck(prefix);
    assert s[..10] == prefix && s[10..12] == HeaderCheck(prefix);
    HeaderChecksBytes(s);
    assert s[4..8] == [255, 255, 255, 255];
  }
}
