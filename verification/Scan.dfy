/** Reading a byte stream as a sequence of frames: what the buffered state
    machine is meant to do, written as a scan over the bytes alone. */
module Scan {
  import opened Bits
  import opened Frame

  /** What the bytes at the front of a stream turn out to be. `Wait` means that
      more bytes are needed to tell, or to complete the frame. */
  datatype Verdict = Skip | Wait | Complete(length: nat)

  function Judge(s: seq<Byte>): (v: Verdict)
    ensures v.Skip? ==> |s| >= 2
    ensures v.Complete? ==> 12 <= v.length <= |s|
  {
    if |s| < 2 then Wait
    else if !Begins(s) then Skip
    else if |s| < 12 || |s| < HeaderLength(s) then Wait
    else if !HeaderChecks(s) then Skip
    else if |s| < FrameLength(s) then Wait
    else Complete(FrameLength(s))
  }

  datatype Result = Result(frames: seq<seq<Byte>>, skipped: nat, rest: seq<Byte>)

  /** Drop bytes that start no header, cut off complete frames, keep what is undecided. */
  function ScanAll(s: seq<Byte>): (r: Result)
    decreases |s|
  {
    match Judge(s)
    case Wait => Result([], 0, s)
    case Skip =>
      var r := ScanAll(s[1..]);
      Result(r.frames, r.skipped + 1, r.rest)
    case Complete(n) =>
      var r := ScanAll(s[n..]);
      Result([s[..n]] + r.frames, r.skipped, r.rest)
  }

  function TotalLength(frames: seq<seq<Byte>>): nat {
    if frames == [] then 0 else |frames[0]| + TotalLength(frames[1..])
  }

  function Concat(chunks: seq<seq<Byte>>): seq<Byte> {
    if chunks == [] then [] else chunks[0] + Concat(chunks[1..])
  }

  /** Results of two scans, one after the other. */
  function Then(a: Result, b: Result): Result {
    Result(a.frames + b.frames, a.skipped + b.skipped, b.rest)
  }

  // ----- more bytes never change a decision

  lemma {:induction false} HeaderStable(s: seq<Byte>, e: seq<Byte>)
    requires |s| >= 12 && |s| >= HeaderLength(s)
    ensures HeaderLength(s + e) == HeaderLength(s) && HeaderChecks(s + e) == HeaderChecks(s)
    ensures FrameLength(s + e) == FrameLength(s)
  {
    var h := HeaderLength(s);
    assert (s + e)[4..8] == s[4..8];
    assert (s + e)[h - 2..h] == s[h - 2..h] && (s + e)[..h - 2] == s[..h - 2];
  }

  lemma {:induction false} JudgeStable(s: seq<Byte>, e: seq<Byte>)
    requires Judge(s) != Wait
    ensures Judge(s + e) == Judge(s)
  {
    if Begins(s) {
      HeaderStable(s, e);
    }
  }

  /** The first decision of a scan, and the scan of what follows it. */
  lemma {:induction false} ScanUnfold(s: seq<Byte>)
    ensures Judge(s) == Wait ==> ScanAll(s) == Result([], 0, s)
    ensures Judge(s) == Skip ==> ScanAll(s) == Then(Result([], 1, []), ScanAll(s[1..]))
    ensures Judge(s).Complete? ==>
      var n := Judge(s).length;
      ScanAll(s) == Then(Result([s[..n]], 0, []), ScanAll(s[n..]))
  {
  }

  lemma {:induction false} ThenAssociates(a: Result, b: Result, c: Result)
    ensures Then(Then(a, b), c) == Then(a, Then(b, c))
  {
  }

  lemma {:induction false} ScanAppendStep(s: seq<Byte>, e: seq<Byte>, n: nat, first: Result)
    requires n <= |s|
    requires ScanAll(s) == Then(first, ScanAll(s[n..]))
    requires ScanAll(s + e) == Then(first, ScanAll(s[n..] + e))
    requires ScanAll(s[n..] + e) == Then(ScanAll(s[n..]), ScanAll(ScanAll(s[n..]).rest + e))
    ensures ScanAll(s + e) == Then(ScanAll(s), ScanAll(ScanAll(s).rest + e))
  {
    ThenAssociates(first, ScanAll(s[n..]), ScanAll(ScanAll(s[n..]).rest + e));
  }

  /** Scanning `s` first and then what it left together with `e` is scanning `s + e`. */
  lemma {:induction false} ScanAppend(s: seq<Byte>, e: seq<Byte>)
    ensures ScanAll(s + e) == Then(ScanAll(s), ScanAll(ScanAll(s).rest + e))
    decreases |s|
  {
    hide Judge;
    ScanUnfold(s);
    if Judge(s) != Wait {
      JudgeStable(s, e);
      ScanUnfold(s + e);
      var n := if Judge(s).Complete? then Judge(s).length else 1;
      var first := if Judge(s).Complete? then Result([s[..n]], 0, []) else Result([], 1, []);
      assert (s + e)[n..] == s[n..] + e && (s + e)[..n] == s[..n];
      ScanAppend(s[n..], e);
      ScanAppendStep(s, e, n, first);
    }
  }

  lemma {:induction false} ScanSettles(s: seq<Byte>)
    ensures Judge(ScanAll(s).rest) == Wait
    decreases |s|
  {
    match Judge(s)
    case Wait =>
    case Skip => ScanSettles(s[1..]);
    case Complete(n) => ScanSettles(s[n..]);
  }

  /** Every byte received is skipped, delivered in a frame, or still buffered. */
  lemma {:induction false} BytesConserved(s: seq<Byte>)
    ensures
      var r := ScanAll(s);
      |s| == r.skipped + TotalLength(r.frames) + |r.rest| && r.rest == s[|s| - |r.rest|..]
    decreases |s|
  {
    match Judge(s)
    case Wait =>
    case Skip =>
      BytesConserved(s[1..]);
    case Complete(n) =>
      BytesConserved(s[n..]);
      assert ScanAll(s).frames[1..] == ScanAll(s[n..]).frames;
  }
}
