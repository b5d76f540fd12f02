/** The incremental parser: bytes arrive in chunks, frames leave one at a time. */
module Stream {
  import opened Bits
  import opened CrcSpec
  import opened Frame
  import opened Scan
  import opened ScanLaws
  import opened DatagramObject
  import Crc

  datatype State = BEGIN_SEQ | HEADER_1 | HEADER_2 | PAYLOAD

  datatype Position = At(index: nat) | NOT_FOUND

  /** Where the parser stands once it has done all it can with `buffer`. */
  function StateOf(buffer: seq<Byte>): State {
    if !Begins(buffer) then BEGIN_SEQ
    else if |buffer| < 12 then HEADER_1
    else if |buffer| < HeaderLength(buffer) then HEADER_2
    else PAYLOAD
  }

  lemma {:induction false} HeaderShape(buffer: seq<Byte>)
    ensures IsHeader(buffer) ==> Begins(buffer) && |buffer| >= 12 && |buffer| >= HeaderLength(buffer)
  {
  }

  lemma {:induction false} FrontRejected(buffer: seq<Byte>)
    requires |buffer| >= 12 && |buffer| >= HeaderLength(buffer) && !IsHeader(buffer)
    ensures ScanAll(buffer) == Then(Result([], 1, []), ScanAll(buffer[1..]))
  {
  }

  lemma {:induction false} FrontDelivered(buffer: seq<Byte>)
    requires IsHeader(buffer) && Framed(buffer)
    ensures
      var n := FrameLength(buffer);
      IsHeader(buffer[..n]) && Framed(buffer[..n])
      && ScanAll(buffer) == Then(Result([buffer[..n]], 0, []), ScanAll(buffer[n..]))
  {
    hide Judge, ScanAll, HeaderChecks, PayloadLength;
    JudgeFrame(buffer);
    ScanUnfold(buffer);
    var n := FrameLength(buffer);
    assert buffer == buffer[..n] + buffer[n..];
    HeaderStable(buffer[..n], buffer[n..]);
  }

  lemma {:induction false} FrontWaits(buffer: seq<Byte>)
    requires !Begins(buffer) ==> |buffer| <= 1
    requires Begins(buffer) && |buffer| >= 12 && |buffer| >= HeaderLength(buffer) ==>
      IsHeader(buffer) && !Framed(buffer)
    ensures Judge(buffer) == Wait && ScanAll(buffer) == Result([], 0, buffer)
  {
  }

  /** Dropping the noise in front of the first begin sequence. */
  lemma {:induction false} NoiseDropped(buffer: seq<Byte>, pos: nat)
    requires pos + 1 < |buffer| && Begins(buffer[pos..]) && Quiet(buffer[..pos + 1])
    ensures ScanAll(buffer) == Then(Result([], pos, []), ScanAll(buffer[pos..]))
  {
    hide ScanAll, Quiet;
    QuietPrefix(buffer[..pos + 1], pos);
    assert buffer[..pos + 1][..pos] == buffer[..pos];
    NoiseSkipped(buffer[..pos], buffer[pos..]);
    assert buffer[..pos] + buffer[pos..] == buffer;
  }

  lemma {:induction false} QuietPrefix(noise: seq<Byte>, n: nat)
    requires Quiet(noise) && n <= |noise|
    ensures Quiet(noise[..n])
  {
  }

  /** `after` is `before` without some bytes in front that the scan skips. */
  ghost predicate Advances(before: seq<Byte>, after: seq<Byte>) {
    var r, left := ScanAll(before), ScanAll(after);
    |after| <= |before| && r.frames == left.frames && r.rest == left.rest
    && r.skipped - left.skipped == |before| - |after|
  }

  lemma {:induction false} AdvancesOnward(a: seq<Byte>, b: seq<Byte>, c: seq<Byte>)
    ensures Advances(a, a)
    ensures Advances(b, c) ==> |c| <= |b|
    ensures Advances(a, b) && Advances(b, c) ==> Advances(a, c)
  {
  }

  lemma {:induction false} RejectedAdvances(buffer: seq<Byte>)
    requires |buffer| >= 12 && |buffer| >= HeaderLength(buffer) && !IsHeader(buffer)
    ensures Advances(buffer, buffer[1..])
  {
    hide ScanAll, IsHeader;
    FrontRejected(buffer);
  }

  lemma {:induction false} DropAdvances(buffer: seq<Byte>, pos: nat)
    requires pos + 1 < |buffer| && Begins(buffer[pos..]) && Quiet(buffer[..pos + 1])
    ensures Advances(buffer, buffer[pos..])
  {
    hide ScanAll, Quiet, Begins;
    NoiseDropped(buffer, pos);
  }

  /** Without a begin sequence all bytes but the last can go. */
  lemma {:induction false} LastByteKept(buffer: seq<Byte>)
    requires Quiet(buffer)
    ensures
      var kept := if buffer == [] then [] else buffer[|buffer| - 1..];
      Advances(buffer, kept) && !Begins(kept)
  {
    var kept := if buffer == [] then [] else buffer[|buffer| - 1..];
    hide Quiet;
    NoiseAlone(buffer);
    BytesConserved(buffer);
    FrontWaits(kept);
    hide ScanAll, Judge;
  }

  class DatagramStream {
    var state: State
    var buffer: seq<Byte>
    var headerLength: nat
    var payloadLength: nat
    const datagram: Datagram

    /** What the parser knows about the front of its buffer in each state. */
    ghost predicate Valid()
      reads this
    {
      match state
      case BEGIN_SEQ => true
      case HEADER_1 => Begins(buffer)
      case HEADER_2 => Begins(buffer) && |buffer| >= 12 && headerLength == HeaderLength(buffer)
      case PAYLOAD => IsHeader(buffer) && headerLength == HeaderLength(buffer) && payloadLength == PayloadLength(buffer)
    }

    /** Nothing more can be done until bytes arrive. */
    ghost predicate Settled()
      reads this
    {
      Judge(buffer) == Wait && state == StateOf(buffer)
    }

    constructor ()
      ensures Valid() && Settled() && buffer == [] && fresh(datagram)
    {
      state := BEGIN_SEQ;
      buffer := [];
      headerLength := 12;
      payloadLength := 0;
      datagram := new Datagram();
    }

    method AddData(data: seq<Byte>) returns (decoded: bool, ghost onEmpty: bool)
      requires Valid()
      modifies this, datagram
      ensures Valid()
      ensures onEmpty <==> old(buffer) + data == []
      ensures decoded ==> FirstFrameTaken(old(buffer) + data, old(datagram.View()))
      ensures !decoded ==>
        ScanAll(old(buffer) + data).frames == [] && ScanAll(old(buffer) + data).rest == buffer
        && Settled() && datagram.View() == old(datagram.View())
    {
      if |data| > 0 {
        HeaderKept(data);
        buffer := buffer + data;
      } else {
        assert buffer + data == buffer;
      }
      decoded, onEmpty := FlushData();
    }

    /** New bytes behind the buffer do not disturb what is known about its front. */
    lemma {:induction false} HeaderKept(data: seq<Byte>)
      requires Valid()
      ensures state in {HEADER_2, PAYLOAD} ==>
        HeaderLength(buffer + data) == HeaderLength(buffer) && PayloadLength(buffer + data) == PayloadLength(buffer)
      ensures state == PAYLOAD ==> IsHeader(buffer + data)
    {
      if state in {HEADER_2, PAYLOAD} {
        assert (buffer + data)[4..8] == buffer[4..8];
      }
      if state == PAYLOAD {
        HeaderStable(buffer, data);
      }
    }

    /** The first frame of `bytes` has been loaded over the fields `before`, and
        the buffer holds what follows it. */
    ghost predicate FirstFrameTaken(bytes: seq<Byte>, before: Fields)
      reads this, datagram
    {
      var r, left := ScanAll(bytes), ScanAll(buffer);
      r.frames != [] && Framed(r.frames[0]) && r.frames == [r.frames[0]] + left.frames && r.rest == left.rest
      && r.skipped >= left.skipped && |bytes| == r.skipped - left.skipped + |r.frames[0]| + |buffer|
      && state == BEGIN_SEQ && datagram.View() == Loaded(before, r.frames[0])
    }

    /** On an empty buffer the loop bound of the original, `size() - 1`, wraps around and
        the loop reads bytes that are not there; `onEmpty` says that this was asked. The
        result is then the documented one, that there is no begin sequence. */
    method FindBeginSequence() returns (pos: Position, ghost onEmpty: bool)
      ensures onEmpty <==> buffer == []
      ensures pos.At? ==>
        pos.index + 1 < |buffer| && Begins(buffer[pos.index..]) && Quiet(buffer[..pos.index + 1])
      ensures pos.NOT_FOUND? ==> Quiet(buffer)
    {
      onEmpty := |buffer| == 0;
      var i := 0;
      while i + 1 < |buffer|
        invariant 0 <= i <= |buffer| && (i < |buffer| || i == 0)
        invariant forall j :: 0 <= j < i && j + 1 < |buffer| ==> !(buffer[j] == LOWER && buffer[j + 1] == UPPER)
      {
        if buffer[i] == LOWER && buffer[i + 1] == UPPER {
          return At(i), onEmpty;
        }
        i := i + 1;
      }
      return NOT_FOUND, onEmpty;
    }

    method HeaderCorrect() returns (correct: bool)
      requires headerLength == 12 || headerLength == 16
      requires |buffer| >= 4 ==> headerLength == HeaderLength(buffer)
      ensures correct == IsHeader(buffer)
    {
      hide Checksum, Crc16Arc, BitsOf;
      if |buffer| < headerLength {
        return false;
      }
      if buffer[0] != LOWER || buffer[1] != UPPER {
        return false;
      }
      var headerChecksum := BitsOf(buffer[headerLength - 2..headerLength]);
      var headerCrc := Crc.Calculate(buffer[..headerLength - 2], Crc16Arc());
      correct := headerChecksum == headerCrc;
    }

    /** State BEGIN_SEQ: keep only what may belong to a begin sequence. On an empty
        buffer there is no last byte to keep, and nothing is erased. */
    method SkipToBeginSequence() returns (ghost onEmpty: bool)
      requires state == BEGIN_SEQ
      modifies this`buffer, this`state
      ensures onEmpty <==> old(buffer) == []
      ensures Advances(old(buffer), buffer)
      ensures (state == HEADER_1 && Begins(buffer)) || (state == BEGIN_SEQ && !Begins(buffer) && |buffer| <= 1)
    {
      hide ScanAll, Quiet, Advances;
      var pos;
      pos, onEmpty := FindBeginSequence();
      if pos == NOT_FOUND {
        LastByteKept(buffer);
        // the last byte may be the first of a begin sequence
        if |buffer| > 0 {
          buffer := buffer[|buffer| - 1..];
        }
      } else {
        DropAdvances(buffer, pos.index);
        buffer := buffer[pos.index..];
        state := HEADER_1;
      }
    }

    /** State HEADER_1: the flag tells how long the header is. */
    method ReadHeaderLength()
      requires state == HEADER_1 && |buffer| >= 12
      modifies this`headerLength, this`state
      ensures state == HEADER_2 && headerLength == HeaderLength(buffer)
    {
      headerLength := if buffer[3] >= 128 then 16 else 12;
      state := HEADER_2;
    }

    /** State HEADER_2: go on to the payload, or drop one byte and start again. */
    method CheckHeader() returns (rejected: bool)
      requires Valid() && state == HEADER_2 && |buffer| >= headerLength
      modifies this`buffer, this`state, this`payloadLength
      ensures Valid() && Advances(old(buffer), buffer)
      ensures rejected ==> state == BEGIN_SEQ && 0 < |buffer| < |old(buffer)|
      ensures !rejected ==> state == PAYLOAD && buffer == old(buffer)
    {
      hide ScanAll, IsHeader, Number, Advances;
      AdvancesOnward(buffer, buffer, buffer);
      var correct := HeaderCorrect();
      if correct {
        payloadLength := Number(buffer[4..8]);
        state := PAYLOAD;
        rejected := false;
      } else {
        RejectedAdvances(buffer);
        buffer := buffer[1..];
        state := BEGIN_SEQ;
        rejected := true;
      }
    }

    /** State PAYLOAD with the whole frame buffered: load it and cut it off. */
    method DecodePayload()
      requires Valid() && state == PAYLOAD && |buffer| >= headerLength + payloadLength
      modifies this`buffer, this`state, datagram
      ensures Valid() && FirstFrameTaken(old(buffer), old(datagram.View()))
      ensures ScanAll(old(buffer)).skipped == ScanAll(buffer).skipped
    {
      hide ScanAll, IsHeader, Loaded;
      FrontDelivered(buffer);
      var status := datagram.Load(buffer[..headerLength + payloadLength]);
      if status == Done {
        buffer := buffer[headerLength + payloadLength..];
        state := BEGIN_SEQ;
      } else {
        assert false; // the exception handler is never entered
      }
    }

    /** Skipping in front of the first frame changes nothing about it. */
    lemma {:induction false} FrameAfterNoise(bytes: seq<Byte>, front: seq<Byte>, before: Fields)
      requires Advances(bytes, front) && FirstFrameTaken(front, before)
      ensures FirstFrameTaken(bytes, before)
    {
    }

    /** No state can be left before more bytes arrive. */
    ghost predicate Stuck()
      reads this
    {
      match state
      case BEGIN_SEQ => !Begins(buffer) && |buffer| <= 1
      case HEADER_1 => |buffer| < 12
      case HEADER_2 => |buffer| < headerLength
      case PAYLOAD => |buffer| < headerLength + payloadLength
    }

    lemma {:induction false} StuckSettles()
      requires Valid() && Stuck()
      ensures Settled() && ScanAll(buffer) == Result([], 0, buffer)
    {
      HeaderShape(buffer);
      FrontWaits(buffer);
      hide Judge, ScanAll, HeaderChecks;
    }

    lemma {:induction false} BufferInUse()
      requires Valid()
      ensures state != BEGIN_SEQ ==> buffer != []
    {
    }

    /** The states in front of the payload. */
    method ReadHeader() returns (rejected: bool, ghost onEmpty: bool)
      requires Valid()
      modifies this
      ensures Valid() && Advances(old(buffer), buffer)
      ensures onEmpty <==> old(buffer) == []
      ensures rejected ==> state == BEGIN_SEQ && 0 < |buffer| < |old(buffer)|
      ensures !rejected ==> state == PAYLOAD || Stuck()
    {
      hide ScanAll, IsHeader, Judge, Number, Advances, HeaderLength;
      BufferInUse();
      rejected, onEmpty := false, false;
      ghost var start := buffer;
      AdvancesOnward(start, buffer, buffer);

      // begin sequence
      if state == BEGIN_SEQ {
        onEmpty := SkipToBeginSequence();
        AdvancesOnward(start, start, buffer);
      }

      // header 1
      if state == HEADER_1 && |buffer| >= 12 {
        ReadHeaderLength();
      }

      // header 2
      if state == HEADER_2 && |buffer| >= headerLength {
        ghost var before := buffer;
        rejected := CheckHeader();
        AdvancesOnward(start, before, buffer);
      }
    }

    /** `onEmpty`: the begin sequence was looked for in an empty buffer. */
    method FlushData() returns (decoded: bool, ghost onEmpty: bool)
      requires Valid()
      modifies this, datagram
      ensures Valid()
      ensures onEmpty <==> old(buffer) == []
      ensures decoded ==> FirstFrameTaken(old(buffer), old(datagram.View()))
      ensures !decoded ==>
        ScanAll(old(buffer)).frames == [] && ScanAll(old(buffer)).rest == buffer
        && Settled() && datagram.View() == old(datagram.View())
    {
      hide ScanAll, Judge, FirstFrameTaken, Number, Advances, Settled, Valid;
      ghost var start := buffer;
      AdvancesOnward(start, buffer, buffer);
      var repeat := true;
      onEmpty := false;
      while repeat
        invariant Valid() && datagram.View() == old(datagram.View()) && Advances(start, buffer)
        invariant if repeat then !onEmpty && (buffer == [] <==> start == []) else onEmpty <==> start == []
        invariant !repeat ==> Stuck()
        decreases |buffer|, repeat
      {
        ghost var before := buffer;
        repeat, onEmpty := ReadHeader();
        AdvancesOnward(start, before, buffer);

        // payload
        if state == PAYLOAD && |buffer| >= headerLength + payloadLength {
          before := buffer;
          DecodePayload();
          FrameAfterNoise(start, before, old(datagram.View()));
          return true, onEmpty;
        }
      }
      AdvancedResult(start);
      StuckSettles();
      return false, onEmpty;
    }

    lemma {:induction false} AdvancedResult(start: seq<Byte>)
      requires Advances(start, buffer)
      ensures ScanAll(start).frames == ScanAll(buffer).frames && ScanAll(start).rest == ScanAll(buffer).rest
    {
    }
  }
}
