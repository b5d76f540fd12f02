/** What the scan delivers: leftmost headers, nothing lost, nothing added,
    whatever the chunks the stream arrives in. */
module ScanLaws {
  import opened Bits
  import opened Frame
  import opened Scan

  // ----- the stream may be cut anywhere

  /** Scanning chunk after chunk, keeping what is undecided in `buffer`. */
  function Session(chunks: seq<seq<Byte>>, buffer: seq<Byte>): Result {
    if chunks == [] then Result([], 0, buffer)
    else
      var r := ScanAll(buffer + chunks[0]);
      Then(r, Session(chunks[1..], r.rest))
  }

  /** The frames, the count of skipped bytes and the final buffer do not depend on the cuts. */
  lemma {:induction false} ChunkingIndependence(chunks: seq<seq<Byte>>, buffer: seq<Byte>)
    requires Judge(buffer) == Wait
    ensures Session(chunks, buffer) == ScanAll(buffer + Concat(chunks))
    decreases |chunks|
  {
    hide Judge, ScanAll;
    if chunks == [] {
      assert buffer + [] == buffer;
      ScanUnfold(buffer);
    } else {
      var r := ScanAll(buffer + chunks[0]);
      ScanSettles(buffer + chunks[0]);
      ChunkingIndependence(chunks[1..], r.rest);
      ScanAppend(buffer + chunks[0], Concat(chunks[1..]));
      assert buffer + Concat(chunks) == buffer + chunks[0] + Concat(chunks[1..]);
    }
  }

  // ----- frames stand at the leftmost headers

  ghost predicate HeaderAt(s: seq<Byte>, i: nat) {
    i <= |s| && IsHeader(s[i..])
  }

  ghost predicate LeastHeader(s: seq<Byte>, from: nat, p: nat) {
    from <= p && HeaderAt(s, p) && forall i :: from <= i < p ==> !HeaderAt(s, i)
  }

  ghost predicate FrameAt(s: seq<Byte>, p: nat, frame: seq<Byte>) {
    p + 12 <= |s| && |frame| == FrameLength(s[p..]) && p + |frame| <= |s| && frame == s[p..p + |frame|]
  }

  /** Each frame starts at the least header at or after the end of the frame before it. */
  ghost predicate Placed(s: seq<Byte>, from: nat, starts: seq<nat>, frames: seq<seq<Byte>>)
    decreases |starts|
  {
    |starts| == |frames|
    && (starts != [] ==>
          LeastHeader(s, from, starts[0]) && FrameAt(s, starts[0], frames[0])
          && Placed(s, starts[0] + |frames[0]|, starts[1..], frames[1..]))
  }

  /** Where the scan of `s`, started at `base`, finds its frames. */
  function Starts(s: seq<Byte>, base: nat): (starts: seq<nat>)
    requires base <= |s|
    decreases |s| - base
  {
    match Judge(s[base..])
    case Wait => []
    case Skip => Starts(s, base + 1)
    case Complete(n) => [base] + Starts(s, base + n)
  }

  lemma {:induction false} StartsUnfold(s: seq<Byte>, base: nat)
    requires base <= |s|
    ensures Judge(s[base..]) == Wait ==> Starts(s, base) == []
    ensures Judge(s[base..]) == Skip ==> Starts(s, base) == Starts(s, base + 1)
    ensures Judge(s[base..]).Complete? ==> Starts(s, base) == [base] + Starts(s, base + Judge(s[base..]).length)
  {
  }

  /** Where a frame at `p` ends by its own header. */
  function EndOfFrame(s: seq<Byte>, p: nat): nat {
    if p + 12 <= |s| then p + FrameLength(s[p..]) else p
  }

  /** Where the last of those frames ends; `from` if there are none. */
  function FramesEnd(s: seq<Byte>, from: nat, base: nat): nat
    requires base <= |s|
  {
    var starts := Starts(s, base);
    if starts == [] then from
    else EndOfFrame(s, starts[|starts| - 1])
  }

  lemma {:induction false} FramesEndStep(s: seq<Byte>, from: nat, base: nat)
    requires base <= |s|
    ensures Judge(s[base..]) == Wait ==> FramesEnd(s, from, base) == from
    ensures Judge(s[base..]) == Skip ==> FramesEnd(s, from, base) == FramesEnd(s, from, base + 1)
    ensures Judge(s[base..]).Complete? ==>
      var n := Judge(s[base..]).length;
      FramesEnd(s, from, base) == FramesEnd(s, base + n, base + n)
  {
    hide FrameLength, IsHeader, Judge, Starts;
    JudgeHeader(s[base..]);
    StartsUnfold(s, base);
  }

  lemma {:induction false} JudgeHeader(s: seq<Byte>)
    ensures Judge(s) == Skip ==> !IsHeader(s)
    ensures Judge(s).Complete? ==> IsHeader(s) && FrameLength(s) == Judge(s).length <= |s|
  {
  }

  lemma {:induction false} ScanIsLeftmost(s: seq<Byte>, from: nat, base: nat)
    requires from <= base <= |s| && forall i :: from <= i < base ==> !HeaderAt(s, i)
    ensures Placed(s, from, Starts(s, base), ScanAll(s[base..]).frames)
    decreases |s| - base
  {
    hide Judge, IsHeader, ScanAll, Starts, FrameAt, LeastHeader;
    var t := s[base..];
    JudgeHeader(t);
    ScanUnfold(t);
    StartsUnfold(s, base);
    match Judge(t)
    case Wait =>
    case Skip =>
      assert t[1..] == s[base + 1..];
      assert !HeaderAt(s, base);
      ScanIsLeftmost(s, from, base + 1);
      assert ScanAll(t).frames == ScanAll(s[base + 1..]).frames;
    case Complete(n) =>
      assert t[n..] == s[base + n..];
      FrontFrame(s, from, base);
      ScanIsLeftmost(s, base + n, base + n);
      assert Starts(s, base)[1..] == Starts(s, base + n);
      assert ScanAll(t).frames[1..] == ScanAll(s[base + n..]).frames;
  }

  /** A complete frame where the scan stands obeys the leftmost rule. */
  lemma {:induction false} FrontFrame(s: seq<Byte>, from: nat, base: nat)
    requires from <= base <= |s| && forall i :: from <= i < base ==> !HeaderAt(s, i)
    requires Judge(s[base..]).Complete?
    ensures LeastHeader(s, from, base) && FrameAt(s, base, s[base..][..Judge(s[base..]).length])
  {
    hide Judge, IsHeader, FrameLength;
    JudgeHeader(s[base..]);
    var n := Judge(s[base..]).length;
    assert s[base..][..n] == s[base..base + n];
  }

  lemma {:induction false} LeastHeaderUnique(s: seq<Byte>, from: nat, p: nat, q: nat)
    requires LeastHeader(s, from, p) && LeastHeader(s, from, q)
    ensures p == q
  {
  }

  /** The leftmost rule leaves no choice: of two lists it allows, one opens the other. */
  lemma {:induction false} PlacedUnique(s: seq<Byte>, from: nat, a: seq<nat>, fa: seq<seq<Byte>>,
                                        b: seq<nat>, fb: seq<seq<Byte>>)
    requires Placed(s, from, a, fa) && Placed(s, from, b, fb) && |a| <= |b|
    ensures a == b[..|a|] && fa == fb[..|a|]
    decreases |a|
  {
    hide LeastHeader, FrameLength;
    if a != [] {
      LeastHeaderUnique(s, from, a[0], b[0]);
      assert fa[0] == fb[0];
      PlacedUnique(s, a[0] + |fa[0]|, a[1..], fa[1..], b[1..], fb[1..]);
      assert a == [a[0]] + a[1..] && fa == [fa[0]] + fa[1..];
      assert b[..|a|] == [b[0]] + b[1..][..|a| - 1] && fb[..|a|] == [fb[0]] + fb[1..][..|a| - 1];
    }
  }

  lemma {:induction false} WaitsForFrame(s: seq<Byte>)
    requires Judge(s) == Wait && |s| >= 16
    ensures IsHeader(s) && !Framed(s)
  {
  }

  /** Where the undecided bytes of a scan from `base` begin. */
  function Held(s: seq<Byte>, base: nat): int
    requires base <= |s|
  {
    |s| - |ScanAll(s[base..]).rest|
  }

  /** The undecided bytes of a scan: no correct header begins between the last frame and them. */
  lemma {:induction false} UndecidedRest(s: seq<Byte>, from: nat, base: nat)
    requires from <= base <= |s| && forall i :: from <= i < base ==> !HeaderAt(s, i)
    ensures
      var at := Held(s, base);
      base <= at <= |s| && s[at..] == ScanAll(s[base..]).rest && Judge(s[at..]) == Wait
      && FramesEnd(s, from, base) <= at
    ensures forall i :: FramesEnd(s, from, base) <= i < Held(s, base) ==> !HeaderAt(s, i)
    decreases |s| - base
  {
    hide Judge, HeaderAt, FramesEnd, ScanAll;
    var t := s[base..];
    ScanUnfold(t);
    FramesEndStep(s, from, base);
    match Judge(t)
    case Wait =>
    case Skip =>
      assert t[1..] == s[base + 1..];
      SkippedIsNoHeader(s, base);
      UndecidedRest(s, from, base + 1);
    case Complete(n) =>
      assert t[n..] == s[base + n..];
      UndecidedRest(s, base + n, base + n);
  }

  lemma {:induction false} SkippedIsNoHeader(s: seq<Byte>, base: nat)
    requires base <= |s| && Judge(s[base..]) == Skip
    ensures !HeaderAt(s, base)
  {
    hide IsHeader;
    JudgeHeader(s[base..]);
  }

  /** Sixteen or more bytes are held back only for one frame that is not yet
      complete, at the least correct header behind the last frame delivered. */
  lemma {:induction false} HeldForOneFrame(s: seq<Byte>, from: nat, base: nat)
    requires from <= base <= |s| && forall i :: from <= i < base ==> !HeaderAt(s, i)
    ensures
      var at := Held(s, base);
      0 <= at && (|s| - at >= 16 ==> LeastHeader(s, FramesEnd(s, from, base), at) && !Framed(s[at..]))
  {
    hide Judge, IsHeader, Framed, FramesEnd;
    UndecidedRest(s, from, base);
    var at := Held(s, base);
    if |s| - at >= 16 {
      WaitsForFrame(s[at..]);
      assert HeaderAt(s, at);
    }
  }

  /** A complete frame stands at the next header in turn, but the scan has not come to it. */
  ghost predicate HeldBack(s: seq<Byte>, p: nat) {
    LeastHeader(s, FramesEnd(s, 0, 0), p) && Framed(s[p..])
  }

  ghost predicate FrameBehind(s: seq<Byte>, i: nat) {
    i <= |s| && IsHeader(s[i..]) && Framed(s[i..])
  }

  /** A begin sequence whose header would be longer than the bytes there are, with a
      complete frame right behind it. */
  ghost predicate Shadowed(rest: seq<Byte>) {
    Begins(rest) && |rest| < 16 && (FrameBehind(rest, 2) || FrameBehind(rest, 3))
  }

  lemma {:induction false} WholeIsJudged(s: seq<Byte>)
    ensures IsHeader(s) && Framed(s) ==> |s| >= 12 && Judge(s) != Wait
    ensures IsHeader(s) ==> s[0] == LOWER && s[1] == UPPER
  {
  }

  lemma {:induction false} WaitsForHeader(s: seq<Byte>)
    requires Judge(s) == Wait && |s| >= 12 && !IsHeader(s)
    ensures Begins(s) && |s| < 16
  {
  }

  /** A frame complete in undecided bytes stands behind two or three bytes of them. */
  lemma {:induction false} WaitShadows(rest: seq<Byte>, i: nat)
    requires Judge(rest) == Wait && !IsHeader(rest) && FrameBehind(rest, i)
    ensures (i == 2 || i == 3) && Shadowed(rest) && 14 <= |rest| <= 15 && rest[3] >= 128
  {
    hide Judge, Framed, HeaderChecks;
    WholeIsJudged(rest[i..]);
    assert rest[0..] == rest;
    WaitsForHeader(rest);
    assert i > 0 ==> rest[i] == rest[i..][0] && rest[i + 1] == rest[i..][1];
    assert i != 1;
  }

  /** Where a frame can be held back, and what stands in front of it. */
  lemma {:induction false} HeldBackAt(s: seq<Byte>, p: nat)
    requires HeldBack(s, p)
    ensures
      var rest := ScanAll(s).rest;
      var at := |s| - |rest|;
      (p == at + 2 || p == at + 3) && Shadowed(rest) && 14 <= |rest| <= 15 && rest[3] >= 128
  {
    hide IsHeader, Framed, FramesEnd, ScanAll, Judge;
    assert s[0..] == s;
    UndecidedRest(s, 0, 0);
    var rest := ScanAll(s).rest;
    var at := |s| - |rest|;
    assert p >= at;
    assert s[p..] == rest[p - at..] && rest[0..] == rest;
    WholeIsJudged(rest[p - at..]);
    assert p > at;
    assert !HeaderAt(s, at);
    WaitShadows(rest, p - at);
  }

  lemma {:induction false} ShadowedStart(rest: seq<Byte>, i: nat)
    requires Shadowed(rest) && (i == 2 || i == 3) && FrameBehind(rest, i)
    ensures forall j :: 0 <= j < i ==> !IsHeader(rest[j..])
  {
    hide Framed, HeaderChecks;
    WholeIsJudged(rest[i..]);
    assert rest[i] == rest[i..][0] && rest[i + 1] == rest[i..][1];
    assert rest[0..] == rest && rest[1] == rest[1..][0] && rest[3] == rest[2..][1];
  }

  lemma {:induction false} ShadowHoldsBack(s: seq<Byte>, i: nat)
    requires Shadowed(ScanAll(s).rest) && (i == 2 || i == 3) && FrameBehind(ScanAll(s).rest, i)
    ensures |s| >= |ScanAll(s).rest| && HeldBack(s, |s| - |ScanAll(s).rest| + i)
  {
    hide IsHeader, Framed, FramesEnd, ScanAll, Judge, Shadowed;
    assert s[0..] == s;
    UndecidedRest(s, 0, 0);
    var rest := ScanAll(s).rest;
    var at := |s| - |rest|;
    ShadowedStart(rest, i);
    forall j | at <= j < at + i ensures !HeaderAt(s, j) {
      assert s[j..] == rest[j - at..];
    }
    assert s[at + i..] == rest[i..];
  }

  /** A complete frame is held back exactly when it stands behind two or three undecided
      bytes that open like a longer header. */
  lemma {:induction false} HeldBackExactly(s: seq<Byte>)
    ensures (exists p: nat :: HeldBack(s, p)) <==> Shadowed(ScanAll(s).rest)
  {
    hide HeldBack, FrameBehind, ScanAll;
    if p: nat :| HeldBack(s, p) {
      HeldBackAt(s, p);
    }
    var rest := ScanAll(s).rest;
    if Shadowed(rest) {
      var i := if FrameBehind(rest, 2) then 2 else 3;
      ShadowHoldsBack(s, i);
    }
  }

  /** Where the last frame of a list ends. */
  function PlacedEnd(starts: seq<nat>, frames: seq<seq<Byte>>): nat
    requires |starts| == |frames|
  {
    if starts == [] then 0 else starts[|starts| - 1] + |frames[|frames| - 1]|
  }

  /** What the leftmost rule says of one frame of a list. */
  lemma {:induction false} PlacedAt(s: seq<Byte>, from: nat, starts: seq<nat>, frames: seq<seq<Byte>>, k: nat)
    requires Placed(s, from, starts, frames) && k < |starts|
    ensures |starts| == |frames| && FrameAt(s, starts[k], frames[k])
    ensures LeastHeader(s, if k == 0 then from else starts[k - 1] + |frames[k - 1]|, starts[k])
    decreases k
  {
    hide LeastHeader, FrameAt;
    if k > 0 {
      PlacedAt(s, starts[0] + |frames[0]|, starts[1..], frames[1..], k - 1);
    }
  }

  /** More frames than the scan finds, placed by the same rule. */
  ghost predicate Longer(s: seq<Byte>, starts: seq<nat>, frames: seq<seq<Byte>>) {
    Placed(s, 0, starts, frames) && |starts| > |Starts(s, 0)|
  }

  /** A list of frames placed by the rule ends where the scan's list ends. */
  lemma {:induction false} ListEnd(s: seq<Byte>)
    ensures |Starts(s, 0)| == |ScanAll(s).frames| && Placed(s, 0, Starts(s, 0), ScanAll(s).frames)
    ensures FramesEnd(s, 0, 0) == PlacedEnd(Starts(s, 0), ScanAll(s).frames)
  {
    hide LeastHeader, Placed, Starts, IsHeader, ScanAll;
    assert s[0..] == s;
    ScanIsLeftmost(s, 0, 0);
    StartsMatch(s, 0);
    var n := |Starts(s, 0)|;
    if n > 0 {
      PlacedAt(s, 0, Starts(s, 0), ScanAll(s).frames, n - 1);
    }
  }

  lemma {:induction false} LongerHoldsBack(s: seq<Byte>, starts: seq<nat>, frames: seq<seq<Byte>>) returns (p: nat)
    requires Longer(s, starts, frames)
    ensures HeldBack(s, p)
  {
    hide LeastHeader, Placed, Starts, IsHeader, ScanAll, FramesEnd;
    var found, n := Starts(s, 0), |Starts(s, 0)|;
    p := starts[n];
    ListEnd(s);
    PlacedUnique(s, 0, found, ScanAll(s).frames, starts, frames);
    PlacedAt(s, 0, starts, frames, n);
    assert n > 0 ==> found[n - 1] == starts[n - 1] && ScanAll(s).frames[n - 1] == frames[n - 1];
  }

  /** One more frame at the next header in turn. */
  lemma {:induction false} PlacedNext(s: seq<Byte>, from: nat, starts: seq<nat>, frames: seq<seq<Byte>>,
                                      p: nat, frame: seq<Byte>)
    requires Placed(s, from, starts, frames) && FrameAt(s, p, frame)
    requires LeastHeader(s, if starts == [] then from else PlacedEnd(starts, frames), p)
    ensures Placed(s, from, starts + [p], frames + [frame])
    decreases |starts|
  {
    hide LeastHeader, FrameAt;
    if starts == [] {
      assert [p][1..] == [] && [frame][1..] == [];
      assert starts + [p] == [p] && frames + [frame] == [frame];
    } else {
      PlacedNext(s, starts[0] + |frames[0]|, starts[1..], frames[1..], p, frame);
      assert (starts + [p])[1..] == starts[1..] + [p] && (frames + [frame])[1..] == frames[1..] + [frame];
    }
  }

  lemma {:induction false} HeldFrame(s: seq<Byte>, p: nat) returns (frame: seq<Byte>)
    requires HeldBack(s, p)
    ensures FrameAt(s, p, frame)
  {
    hide IsHeader, FramesEnd, HeaderLength, PayloadLength;
    frame := s[p..][..FrameLength(s[p..])];
    assert frame == s[p..p + |frame|];
  }

  lemma {:induction false} HeldBackIsNext(s: seq<Byte>, p: nat) returns (starts: seq<nat>, frames: seq<seq<Byte>>)
    requires HeldBack(s, p)
    ensures Longer(s, starts, frames)
  {
    var frame := HeldFrame(s, p);
    hide LeastHeader, Placed, Starts, ScanAll, FrameAt, FramesEnd, Framed;
    ListEnd(s);
    starts, frames := Starts(s, 0), ScanAll(s).frames;
    PlacedNext(s, 0, starts, frames, p, frame);
    starts, frames := starts + [p], frames + [frame];
  }

  /** The scan finds the longest list of frames the leftmost rule allows, except exactly
      when a complete frame is held back. */
  lemma {:induction false} ScanIsLongest(s: seq<Byte>)
    ensures (exists starts, frames :: Longer(s, starts, frames)) <==> Shadowed(ScanAll(s).rest)
  {
    hide Longer, HeldBack, Shadowed, ScanAll, Starts, FrameLength;
    HeldBackExactly(s);
    if starts, frames :| Longer(s, starts, frames) {
      var p := LongerHoldsBack(s, starts, frames);
    }
    if p: nat :| HeldBack(s, p) {
      var starts, frames := HeldBackIsNext(s, p);
    }
  }

  /** Nothing stays undecided exactly when the last frame ends where the bytes end. */
  lemma {:induction false} NothingLeft(s: seq<Byte>, base: nat)
    requires base <= |s|
    ensures ScanAll(s[base..]).rest == [] <==> FramesEnd(s, base, base) == |s|
    decreases |s| - base
  {
    hide Judge, FrameLength, ScanAll, Starts;
    var t := s[base..];
    ScanUnfold(t);
    FramesEndStep(s, base, base);
    match Judge(t)
    case Wait =>
    case Skip =>
      assert t[1..] == s[base + 1..];
      NothingLeft(s, base + 1);
    case Complete(n) =>
      assert t[n..] == s[base + n..];
      NothingLeft(s, base + n);
  }

  ghost predicate Covered(starts: seq<nat>, frames: seq<seq<Byte>>, i: nat)
    requires |starts| == |frames|
  {
    exists k :: 0 <= k < |starts| && starts[k] <= i < starts[k] + |frames[k]|
  }

  lemma {:induction false} StartsMatch(s: seq<Byte>, base: nat)
    requires base <= |s|
    ensures |Starts(s, base)| == |ScanAll(s[base..]).frames|
    decreases |s| - base
  {
    hide Judge;
    var t := s[base..];
    ScanUnfold(t);
    match Judge(t)
    case Wait =>
    case Skip =>
      assert t[1..] == s[base + 1..];
      StartsMatch(s, base + 1);
    case Complete(n) =>
      assert t[n..] == s[base + n..];
      StartsMatch(s, base + n);
  }

  lemma {:induction false} CoveredLater(starts: seq<nat>, frames: seq<seq<Byte>>, i: nat)
    requires |starts| == |frames| > 0
    ensures starts[0] <= i < starts[0] + |frames[0]| || Covered(starts[1..], frames[1..], i) ==>
      Covered(starts, frames, i)
  {
    if k :| 0 <= k < |starts| - 1 && starts[1..][k] <= i < starts[1..][k] + |frames[1..][k]| {
      assert starts[k + 1] <= i < starts[k + 1] + |frames[k + 1]|;
    }
  }

  /** A byte that has left the buffer outside every frame starts no correct
      header, however the stream goes on. */
  lemma {:induction false} NoHeaderLost(s: seq<Byte>, e: seq<Byte>, base: nat, i: nat)
    requires base <= |s| && base <= i < Held(s, base)
    requires HeaderAt(s + e, i)
    ensures |Starts(s, base)| == |ScanAll(s[base..]).frames|
    ensures Covered(Starts(s, base), ScanAll(s[base..]).frames, i)
    decreases |s| - base
  {
    hide Judge, IsHeader, ScanAll, Starts, Covered;
    var t := s[base..];
    StartsMatch(s, base);
    ScanUnfold(t);
    StartsUnfold(s, base);
    match Judge(t)
    case Skip =>
      assert t[1..] == s[base + 1..];
      JudgeStable(t, e);
      JudgeHeader(t + e);
      assert (s + e)[base..] == t + e;
      assert i != base;
      NoHeaderLost(s, e, base + 1, i);
      assert ScanAll(t).frames == ScanAll(s[base + 1..]).frames;
    case Complete(n) =>
      var starts, frames := Starts(s, base), ScanAll(t).frames;
      assert t[n..] == s[base + n..];
      assert starts[1..] == Starts(s, base + n) && frames[1..] == ScanAll(s[base + n..]).frames;
      if i >= base + n {
        NoHeaderLost(s, e, base + n, i);
      }
      CoveredLater(starts, frames, i);
  }

  /** One frame with a correct header and nothing behind it. */
  predicate WholeFrame(f: seq<Byte>) {
    IsHeader(f) && Framed(f) && FrameLength(f) == |f|
  }

  /** Everything delivered is one whole frame with a correct header. */
  lemma {:induction false} FramesAreFramed(s: seq<Byte>)
    ensures forall f :: f in ScanAll(s).frames ==> WholeFrame(f)
    decreases |s|
  {
    hide Judge, HeaderChecks;
    ScanUnfold(s);
    match Judge(s)
    case Wait =>
    case Skip => FramesAreFramed(s[1..]);
    case Complete(n) =>
      JudgeHeader(s);
      HeaderStable(s[..n], s[n..]);
      assert s[..n] + s[n..] == s;
      FramesAreFramed(s[n..]);
  }

  // ----- what a receiver sees

  datatype Delivery = Delivery(version: int, payload: seq<Byte>, correct: bool)

  function Seen(f: Fields): Delivery {
    Delivery(f.version, f.payload, f.Correct())
  }

  function Blank(): Fields {
    Fields(0, 0, Zeros(32), false, [])
  }

  function DeliveryOf(frame: seq<Byte>): Delivery
    requires Framed(frame)
  {
    Seen(Loaded(Blank(), frame))
  }

  function Deliveries(frames: seq<seq<Byte>>): (ds: seq<Delivery>)
    requires forall f :: f in frames ==> Framed(f)
    ensures |ds| == |frames|
    ensures forall k :: 0 <= k < |frames| ==> ds[k] == DeliveryOf(frames[k])
  {
    if frames == [] then [] else [DeliveryOf(frames[0])] + Deliveries(frames[1..])
  }

  /** What is seen of a frame does not depend on the datagram loaded before it. */
  lemma {:induction false} SeenIndependent(f: Fields, frame: seq<Byte>)
    requires Framed(frame)
    ensures Seen(Loaded(f, frame)) == DeliveryOf(frame)
  {
  }

  lemma {:induction false} DeliveriesConcat(a: seq<seq<Byte>>, b: seq<seq<Byte>>)
    requires forall f :: f in a + b ==> Framed(f)
    ensures (forall f :: f in a ==> f in a + b) && (forall f :: f in b ==> f in a + b)
    ensures Deliveries(a + b) == Deliveries(a) + Deliveries(b)
  {
    hide Framed, DeliveryOf, Deliveries;
    assert forall f :: f in a ==> f in a + b;
    assert forall f :: f in b ==> f in a + b;
  }

  // ----- delivery through noise

  predicate Quiet(noise: seq<Byte>) {
    forall i :: 0 <= i < |noise| - 1 ==> !(noise[i] == LOWER && noise[i + 1] == UPPER)
  }

  lemma {:induction false} NoisyByte(s: seq<Byte>)
    requires |s| >= 2 && !(s[0] == LOWER && s[1] == UPPER)
    ensures ScanAll(s) == Then(Result([], 1, []), ScanAll(s[1..]))
  {
  }

  lemma {:induction false} NoiseSkipped(noise: seq<Byte>, t: seq<Byte>)
    requires Quiet(noise) && |t| > 0 && t[0] == LOWER
    ensures ScanAll(noise + t) == Then(Result([], |noise|, []), ScanAll(t))
    decreases |noise|
  {
    hide ScanAll;
    if noise == [] {
      assert noise + t == t;
    } else {
      var s := noise + t;
      assert s[1] == if |noise| > 1 then noise[1] else t[0];
      NoisyByte(s);
      assert s[1..] == noise[1..] + t;
      NoiseSkipped(noise[1..], t);
      assert ScanAll(s) == Then(Result([], 1, []), Then(Result([], |noise| - 1, []), ScanAll(t)));
    }
  }

  /** Of noise alone only its last byte stays, which may yet begin a frame. */
  lemma {:induction false} NoiseAlone(noise: seq<Byte>)
    requires Quiet(noise)
    ensures ScanAll(noise).frames == []
    ensures ScanAll(noise).rest == if noise == [] then [] else noise[|noise| - 1..]
    decreases |noise|
  {
    ScanUnfold(noise);
    hide ScanAll;
    if |noise| >= 2 {
      NoisyByte(noise);
      NoiseAlone(noise[1..]);
    }
  }

  /** No frame is read out of `noise` in front of `t`: it is quiet and `t` may begin a
      frame, or no correct header begins in it and `t` is long enough to tell. */
  ghost predicate Harmless(noise: seq<Byte>, t: seq<Byte>) {
    || (Quiet(noise) && |t| > 0 && t[0] == LOWER)
    || (|t| >= 15 && forall i :: 0 <= i < |noise| ==> !HeaderAt(noise + t, i))
  }

  lemma {:induction false} NoHeaderNoFrame(s: seq<Byte>)
    requires |s| >= 16 && !IsHeader(s)
    ensures ScanAll(s) == Then(Result([], 1, []), ScanAll(s[1..]))
  {
  }

  lemma {:induction false} HeaderlessSkipped(noise: seq<Byte>, t: seq<Byte>)
    requires |t| >= 15 && forall i :: 0 <= i < |noise| ==> !HeaderAt(noise + t, i)
    ensures ScanAll(noise + t) == Then(Result([], |noise|, []), ScanAll(t))
    decreases |noise|
  {
    hide ScanAll, IsHeader;
    if noise == [] {
      assert noise + t == t;
    } else {
      var s, rest := noise + t, noise[1..];
      assert s[1..] == rest + t && s[0..] == s;
      assert !HeaderAt(s, 0);
      NoHeaderNoFrame(s);
      forall i | 0 <= i < |rest| ensures !HeaderAt(rest + t, i) {
        assert (rest + t)[i..] == s[i + 1..];
        assert !HeaderAt(s, i + 1);
      }
      HeaderlessSkipped(rest, t);
      assert ScanAll(s) == Then(Result([], 1, []), Then(Result([], |noise| - 1, []), ScanAll(t)));
    }
  }

  lemma {:induction false} HarmlessSkipped(noise: seq<Byte>, t: seq<Byte>)
    requires Harmless(noise, t)
    ensures ScanAll(noise + t) == Then(Result([], |noise|, []), ScanAll(t))
  {
    hide ScanAll, HeaderAt, Quiet;
    if Quiet(noise) && |t| > 0 && t[0] == LOWER {
      NoiseSkipped(noise, t);
    } else {
      HeaderlessSkipped(noise, t);
    }
  }

  lemma {:induction false} JudgeFrame(s: seq<Byte>)
    requires IsHeader(s) && Framed(s)
    ensures Judge(s) == Complete(FrameLength(s))
  {
  }

  lemma {:induction false} WholeFrameStable(f: seq<Byte>, t: seq<Byte>)
    requires WholeFrame(f)
    ensures IsHeader(f + t) && Framed(f + t) && FrameLength(f + t) == |f| >= 12 && f[0] == LOWER
  {
    hide HeaderChecks;
    HeaderStable(f, t);
  }

  /** A whole frame in front is cut off first. */
  lemma {:induction false} FrameCutOff(f: seq<Byte>, t: seq<Byte>)
    requires WholeFrame(f)
    ensures ScanAll(f + t) == Then(Result([f], 0, []), ScanAll(t))
  {
    hide IsHeader, Judge, FrameLength, Framed;
    WholeFrameStable(f, t);
    JudgeFrame(f + t);
    ScanUnfold(f + t);
    assert (f + t)[..|f|] == f && (f + t)[|f|..] == t;
  }

  /** A frame with what comes in front of it. */
  datatype Parcel = Parcel(noise: seq<Byte>, frame: seq<Byte>)

  function Line(parcels: seq<Parcel>, tail: seq<Byte>): seq<Byte> {
    if parcels == [] then tail
    else parcels[0].noise + (parcels[0].frame + Line(parcels[1..], tail))
  }

  function Frames(parcels: seq<Parcel>): (frames: seq<seq<Byte>>)
    ensures |frames| == |parcels| && forall k :: 0 <= k < |parcels| ==> frames[k] == parcels[k].frame
  {
    seq(|parcels|, k requires 0 <= k < |parcels| => parcels[k].frame)
  }

  ghost predicate Deliverable(parcels: seq<Parcel>, tail: seq<Byte>)
    decreases |parcels|
  {
    parcels != [] ==>
      WholeFrame(parcels[0].frame) && Harmless(parcels[0].noise, parcels[0].frame + Line(parcels[1..], tail))
      && Deliverable(parcels[1..], tail)
  }

  lemma {:induction false} FirstDelivered(parcels: seq<Parcel>, later: seq<Byte>, more: seq<seq<Byte>>)
    requires parcels != [] && WholeFrame(parcels[0].frame) && Harmless(parcels[0].noise, parcels[0].frame + later)
    requires ScanAll(later).frames == Frames(parcels[1..]) + more
    ensures
      var r := ScanAll(parcels[0].noise + (parcels[0].frame + later));
      r.frames == Frames(parcels) + more && r.rest == ScanAll(later).rest
  {
    hide ScanAll, Harmless, WholeFrame;
    var frame := parcels[0].frame;
    HarmlessSkipped(parcels[0].noise, frame + later);
    FrameCutOff(frame, later);
    assert Frames(parcels) == [frame] + Frames(parcels[1..]);
  }

  /** Whole frames with harmless noise in front of them arrive all, in order and
      unchanged; what follows them is scanned as if they had not been there. */
  lemma {:induction false} FramesDelivered(parcels: seq<Parcel>, tail: seq<Byte>)
    requires Deliverable(parcels, tail)
    ensures
      var r := ScanAll(Line(parcels, tail));
      r.frames == Frames(parcels) + ScanAll(tail).frames && r.rest == ScanAll(tail).rest
    decreases |parcels|
  {
    hide ScanAll, Harmless, WholeFrame;
    if parcels == [] {
      assert Frames(parcels) + ScanAll(tail).frames == ScanAll(tail).frames;
    } else {
      FramesDelivered(parcels[1..], tail);
      FirstDelivered(parcels, Line(parcels[1..], tail), ScanAll(tail).frames);
    }
  }

  /** Quiet noise is harmless in front of any frame. */
  ghost predicate QuietlyParcelled(parcels: seq<Parcel>) {
    forall k :: 0 <= k < |parcels| ==> WholeFrame(parcels[k].frame) && Quiet(parcels[k].noise)
  }

  lemma {:induction false} QuietIsHarmless(parcel: Parcel, later: seq<Byte>)
    requires Quiet(parcel.noise) && WholeFrame(parcel.frame)
    ensures Harmless(parcel.noise, parcel.frame + later)
  {
    hide WholeFrame, Quiet, HeaderAt;
    WholeFrameStable(parcel.frame, later);
  }

  lemma {:induction false} QuietDelivers(parcels: seq<Parcel>, tail: seq<Byte>)
    requires QuietlyParcelled(parcels)
    ensures Deliverable(parcels, tail)
    decreases |parcels|
  {
    hide WholeFrame, Quiet, Line, Harmless;
    if parcels != [] {
      QuietIsHarmless(parcels[0], Line(parcels[1..], tail));
      QuietDelivers(parcels[1..], tail);
    }
  }

  // ----- printed messages

  lemma {:induction false} SerializeIsWhole(m: Message)
    requires m.Valid()
    ensures WholeFrame(Serialize(m))
  {
    hide HeaderChecks;
    SerializeIsFrame(m, []);
    assert Serialize(m) + [] == Serialize(m);
  }

  lemma {:induction false} FrameDelivered(m: Message, t: seq<Byte>)
    requires m.Valid()
    ensures ScanAll(Serialize(m) + t) == Then(Result([Serialize(m)], 0, []), ScanAll(t))
  {
    hide Serialize, WholeFrame, ScanAll;
    SerializeIsWhole(m);
    FrameCutOff(Serialize(m), t);
  }

  lemma {:induction false} StrayBytesHold(f: seq<Byte>)
    requires WholeFrame(f) && |f| <= 13
    ensures
      var s := [LOWER, UPPER] + f;
      Judge(s) == Wait && Shadowed(s)
  {
    hide HeaderChecks, FrameLength;
    var s := [LOWER, UPPER] + f;
    WholeFrameStable(f, []);
    assert s[2..] == f;
    assert s[3] == f[1];
  }

  /** A whole printed message, held back by two stray bytes in front of it until more arrive. */
  lemma {:induction false} MessageHeldBack(m: Message)
    requires m.Valid() && !m.checksumIncluded && |m.payload| <= 1
    ensures
      var s := [LOWER, UPPER] + Serialize(m);
      ScanAll(s) == Result([], 0, s) && HeldBack(s, 2)
  {
    hide Serialize, Judge, Shadowed, HeldBack, WholeFrame;
    var s := [LOWER, UPPER] + Serialize(m);
    SerializeIsWhole(m);
    MessageLength(m);
    StrayBytesHold(Serialize(m));
    assert s[2..] == Serialize(m);
    ScanUnfold(s);
    hide ScanAll;
    WholeFrameBehind(s);
    ShadowHoldsBack(s, 2);
  }

  lemma {:induction false} MessageLength(m: Message)
    requires m.Valid()
    ensures |Serialize(m)| == (if m.checksumIncluded then 16 else 12) + |m.payload|
  {
  }

  lemma {:induction false} WholeFrameBehind(s: seq<Byte>)
    requires |s| >= 2 && WholeFrame(s[2..])
    ensures FrameBehind(s, 2)
  {
  }

  /** It is delivered as soon as the two stray bytes are seen not to be a header. */
  lemma {:induction false} MessageReleased(m: Message, e: seq<Byte>)
    requires m.Valid()
    requires
      var s := [LOWER, UPPER] + Serialize(m) + e;
      |s| >= 16 && !IsHeader(s)
    ensures ScanAll([LOWER, UPPER] + Serialize(m) + e) == Then(Result([Serialize(m)], 2, []), ScanAll(e))
  {
    hide ScanAll, Serialize, IsHeader;
    var s, t := [LOWER, UPPER] + Serialize(m) + e, Serialize(m) + e;
    assert s[1..] == [UPPER] + t && ([UPPER] + t)[1..] == t;
    NoHeaderNoFrame(s);
    NoisyByte(s[1..]);
    FrameDelivered(m, e);
  }

  datatype Item = Item(noise: seq<Byte>, message: Message)

  predicate AllValid(items: seq<Item>) {
    forall k :: 0 <= k < |items| ==> items[k].message.Valid()
  }

  ghost predicate Clean(items: seq<Item>) {
    AllValid(items) && forall k :: 0 <= k < |items| ==> Quiet(items[k].noise)
  }

  function Packed(items: seq<Item>): (parcels: seq<Parcel>)
    requires AllValid(items)
    ensures |parcels| == |items|
    ensures forall k :: 0 <= k < |items| ==> parcels[k] == Parcel(items[k].noise, Serialize(items[k].message))
  {
    seq(|items|, k requires 0 <= k < |items| => Parcel(items[k].noise, Serialize(items[k].message)))
  }

  /** Messages printed one after another, with noise before each and at the end. */
  function Wire(items: seq<Item>, tail: seq<Byte>): seq<Byte>
    requires AllValid(items)
  {
    Line(Packed(items), tail)
  }

  function Sent(items: seq<Item>): (ds: seq<Delivery>)
    ensures |ds| == |items|
    ensures forall k :: 0 <= k < |items| ==>
      ds[k] == Delivery(items[k].message.version % 256, items[k].message.payload, true)
  {
    seq(|items|, k requires 0 <= k < |items| =>
      Delivery(items[k].message.version % 256, items[k].message.payload, true))
  }

  lemma {:induction false} MessageSeen(m: Message)
    requires m.Valid()
    ensures Framed(Serialize(m))
    ensures DeliveryOf(Serialize(m)) == Delivery(m.version % 256, m.payload, true)
  {
    hide Serialize, IsHeader, PayloadCrc;
    SerializeCarries(m, []);
    assert Serialize(m) + [] == Serialize(m);
    ParseAfterPrint(m, Serialize(m), Blank());
  }

  lemma {:induction false} PackedSeen(items: seq<Item>)
    requires AllValid(items)
    ensures (forall f :: f in Frames(Packed(items)) ==> Framed(f)) && Deliveries(Frames(Packed(items))) == Sent(items)
  {
    hide Serialize, Framed, DeliveryOf, Deliveries;
    forall k | 0 <= k < |items|
      ensures var f := Frames(Packed(items))[k]; Framed(f) && DeliveryOf(f) == Sent(items)[k]
    {
      MessageSeen(items[k].message);
    }
  }

  /** The deliveries of a line of parcels, and of what follows them. */
  lemma {:induction false} LineSeen(parcels: seq<Parcel>, tail: seq<Byte>)
    requires Deliverable(parcels, tail)
    ensures
      var frames, more := ScanAll(Line(parcels, tail)).frames, ScanAll(tail).frames;
      (forall f :: f in frames + Frames(parcels) + more ==> Framed(f))
      && Deliveries(frames) == Deliveries(Frames(parcels)) + Deliveries(more)
  {
    hide ScanAll, Line, Deliverable, IsHeader, Framed, Deliveries;
    var frames, more := ScanAll(Line(parcels, tail)).frames, ScanAll(tail).frames;
    FramesDelivered(parcels, tail);
    FramesAreFramed(Line(parcels, tail));
    DeliveriesConcat(Frames(parcels), more);
    assert forall f :: f in Frames(parcels) + more ==> f in frames;
  }

  /** Every message arrives, in order, with its payload check passing; the bytes behind
      them are scanned as if they came alone. The noise may hold begin sequences. */
  lemma {:induction false} LosslessThroughNoise(items: seq<Item>, tail: seq<Byte>)
    requires AllValid(items) && Deliverable(Packed(items), tail)
    ensures
      var r, more := ScanAll(Wire(items, tail)), ScanAll(tail);
      (forall f :: f in r.frames + more.frames ==> Framed(f))
      && Deliveries(r.frames) == Sent(items) + Deliveries(more.frames) && r.rest == more.rest
  {
    hide ScanAll, Line, Deliverable, Framed, Deliveries;
    FramesDelivered(Packed(items), tail);
    LineSeen(Packed(items), tail);
    PackedSeen(items);
  }

  lemma {:induction false} CleanDelivers(items: seq<Item>, tail: seq<Byte>)
    requires Clean(items)
    ensures Deliverable(Packed(items), tail)
  {
    hide Serialize, WholeFrame, Quiet, Message.Valid;
    forall k | 0 <= k < |items| ensures WholeFrame(Packed(items)[k].frame) && Quiet(Packed(items)[k].noise) {
      SerializeIsWhole(items[k].message);
    }
    QuietDelivers(Packed(items), tail);
  }

  /** Through quiet noise every message arrives, and nothing else does. */
  lemma {:induction false} Lossless(items: seq<Item>, tail: seq<Byte>)
    requires Clean(items) && Quiet(tail)
    ensures
      var r := ScanAll(Wire(items, tail));
      (forall f :: f in r.frames ==> Framed(f)) && Deliveries(r.frames) == Sent(items)
      && r.rest == if tail == [] then [] else tail[|tail| - 1..]
  {
    hide ScanAll, Quiet, Framed, Line, Deliverable;
    CleanDelivers(items, tail);
    LosslessThroughNoise(items, tail);
    NoiseAlone(tail);
    assert Sent(items) + [] == Sent(items);
  }

  /** The same for every way of cutting the stream into chunks. */
  lemma {:induction false} LosslessInChunks(items: seq<Item>, tail: seq<Byte>, chunks: seq<seq<Byte>>)
    requires Clean(items) && Quiet(tail) && Concat(chunks) == Wire(items, tail)
    ensures
      var r := Session(chunks, []);
      (forall f :: f in r.frames ==> Framed(f)) && Deliveries(r.frames) == Sent(items)
  {
    hide ScanAll, Session, Wire;
    ChunkingIndependence(chunks, []);
    assert [] + Concat(chunks) == Concat(chunks);
    Lossless(items, tail);
  }
}
