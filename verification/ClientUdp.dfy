/** A client's newest input, picked out of datagrams that may arrive late, twice or damaged. */
module ClientInput {
  import opened Bits
  import opened Frame
  import opened GameSpec
  import opened DatagramObject

  const DATAGRAM_PLAYER_INPUT_VER := 101

  /** A decoded player input message. */
  datatype Report = Report(id: nat, sequence: nat, move: bool, direction: real)

  datatype ClientState = ClientState(input: PlayerInput, lastSequence: nat)

  datatype Option<T> = None | Some(value: T)

  /** The report a datagram carries for the client, if it parses, has the input
      version and names the client. The payload decoder is taken as given. */
  function Relevant(parse: seq<Byte> -> Report, id: nat, buffer: seq<Byte>): Option<Report> {
    if IsHeader(buffer) && Framed(buffer) && buffer[2] as int == DATAGRAM_PLAYER_INPUT_VER then
      var report := parse(buffer[HeaderLength(buffer)..FrameLength(buffer)]);
      if report.id == id then Some(report) else None
    else None
  }

  /** Only a newer report counts. */
  function Hear(s: ClientState, report: Report): ClientState {
    if report.sequence > s.lastSequence
    then ClientState(s.input.(move := report.move, direction := report.direction), report.sequence)
    else s
  }

  function HearDatagram(parse: seq<Byte> -> Report, id: nat, s: ClientState, buffer: seq<Byte>): ClientState {
    match Relevant(parse, id, buffer)
    case None => s
    case Some(report) => Hear(s, report)
  }

  function HearAll(parse: seq<Byte> -> Report, id: nat, s: ClientState, buffers: seq<seq<Byte>>): ClientState
    decreases |buffers|, s
  {
    if buffers == [] then s
    else HearAll(parse, id, HearDatagram(parse, id, s, buffers[0]), buffers[1..])
  }

  function NewClient(id: nat): ClientState {
    ClientState(PlayerInput(id, false, 0.0), 0)
  }

  /** `ReadOutside`: the original has gone on to copy bytes the buffer does not hold. */
  datatype DecodeResult = Threw(status: LoadStatus) | ReadOutside | Returned(accepted: bool)

  class ClientUdp {
    const id: nat
    const parse: seq<Byte> -> Report
    var input: PlayerInput
    var lastSequence: nat

    ghost function View(): ClientState
      reads this
    {
      ClientState(input, lastSequence)
    }

    constructor (id: nat, parse: seq<Byte> -> Report)
      ensures this.id == id && this.parse == parse && View() == NewClient(id)
      ensures input == PlayerInput(id, false, 0.0) && lastSequence == 0
    {
      this.id := id;
      this.parse := parse;
      input := PlayerInput(id, false, 0.0);
      lastSequence := 0;
    }

    method DecodeDatagram(buffer: seq<Byte>) returns (result: DecodeResult)
      modifies this
      ensures View() == HearDatagram(parse, id, old(View()), buffer)
      ensures result.Threw? <==> !IsHeader(buffer) || (!Framed(buffer) && FrameLength(buffer) < TWO_32)
      ensures result.ReadOutside? <==> IsHeader(buffer) && !Framed(buffer) && FrameLength(buffer) >= TWO_32
      ensures result == Returned(true) <==>
        && IsHeader(buffer) && Framed(buffer) && buffer[2] == 101
        && var report := parse(buffer[HeaderLength(buffer)..FrameLength(buffer)]);
           report.id == id && report.sequence > old(lastSequence)
      ensures result == Returned(true) ==>
        var report := parse(buffer[HeaderLength(buffer)..FrameLength(buffer)]);
        lastSequence == report.sequence && input == PlayerInput(old(input).id, report.move, report.direction)
      ensures result != Returned(true) ==> View() == old(View())
    {
      hide IsHeader;
      var datagram := new Datagram();
      var status := datagram.Load(buffer);
      if status == OutOfBuffer {
        return ReadOutside;
      }
      if status != Done {
        return Threw(status);
      }
      if datagram.version == DATAGRAM_PLAYER_INPUT_VER {
        var report := parse(datagram.payload);
        if report.sequence > lastSequence && report.id == id {
          input := input.(move := report.move);
          input := input.(direction := report.direction);
          lastSequence := report.sequence;
          return Returned(true);
        } else {
          return Returned(false);
        }
      } else {
        return Returned(false);
      }
    }
  }

  // ----- what a run of datagrams leaves

  /** The reports for this client, in order of arrival. */
  function Reports(parse: seq<Byte> -> Report, id: nat, buffers: seq<seq<Byte>>): seq<Report> {
    if buffers == [] then [] else
      var first := Relevant(parse, id, buffers[0]);
      (if first.Some? then [first.value] else []) + Reports(parse, id, buffers[1..])
  }

  function HearReports(s: ClientState, reports: seq<Report>): ClientState
    decreases |reports|, s
  {
    if reports == [] then s else HearReports(Hear(s, reports[0]), reports[1..])
  }

  lemma {:induction false} HearAllIsHearReports(parse: seq<Byte> -> Report, id: nat,
                                                s: ClientState, buffers: seq<seq<Byte>>)
    ensures HearAll(parse, id, s, buffers) == HearReports(s, Reports(parse, id, buffers))
    decreases |buffers|
  {
    hide Relevant, Hear;
    if buffers != [] {
      var rest := Reports(parse, id, buffers[1..]);
      HearAllIsHearReports(parse, id, HearDatagram(parse, id, s, buffers[0]), buffers[1..]);
      var first := Relevant(parse, id, buffers[0]);
      if first.Some? {
        assert ([first.value] + rest)[1..] == rest;
      } else {
        assert [] + rest == rest;
      }
    }
  }

  /** The outcome without reference to order: the highest sequence heard, and the
      content of a report that carried it. */
  ghost predicate Newest(s: ClientState, reports: seq<Report>, t: ClientState) {
    t.lastSequence >= s.lastSequence
    && (forall r :: r in reports ==> r.sequence <= t.lastSequence)
    && (t == s || exists r :: r in reports && LeavesBehind(s, r, t))
  }

  /** `t` is what `s` becomes by acting on `r`. */
  ghost predicate LeavesBehind(s: ClientState, r: Report, t: ClientState) {
    r.sequence > s.lastSequence
    && t == ClientState(s.input.(move := r.move, direction := r.direction), r.sequence)
  }

  lemma {:induction false} HearReportsNewest(s: ClientState, reports: seq<Report>)
    ensures Newest(s, reports, HearReports(s, reports))
    decreases |reports|
  {
    if reports != [] {
      var first, rest := reports[0], reports[1..];
      var m := Hear(s, first);
      HearReportsNewest(m, rest);
      assert reports == [first] + rest;
      var t := HearReports(m, rest);
      assert m == s || LeavesBehind(s, first, m);
      assert first in reports;
      if t != m {
        var r :| r in rest && LeavesBehind(m, r, t);
        assert r in reports && LeavesBehind(s, r, t);
      }
    }
  }

  /** `r` carries the highest sequence number of the run, and one that counts. */
  ghost predicate Top(reports: seq<Report>, r: Report) {
    r in reports && r.sequence > 0 && forall q :: q in reports ==> q.sequence <= r.sequence
  }

  /** The reports with the highest sequence number ask for the same. */
  ghost predicate TopAgree(reports: seq<Report>) {
    forall a, b :: Top(reports, a) && Top(reports, b) ==> a.move == b.move && a.direction == b.direction
  }

  lemma {:induction false} HearNextDatagram(parse: seq<Byte> -> Report, id: nat, s: ClientState,
                                             a: seq<seq<Byte>>, x: seq<Byte>)
    ensures HearAll(parse, id, s, a + [x]) == HearDatagram(parse, id, HearAll(parse, id, s, a), x)
    decreases |a|
  {
    hide HearDatagram;
    if a == [] {
      assert [] + [x] == [x] && [x][1..] == [];
    } else {
      assert (a + [x])[1..] == a[1..] + [x];
      HearNextDatagram(parse, id, HearDatagram(parse, id, s, a[0]), a[1..], x);
    }
  }

  lemma {:induction false} HearInParts(parse: seq<Byte> -> Report, id: nat, s: ClientState,
                                        a: seq<seq<Byte>>, b: seq<seq<Byte>>)
    ensures HearAll(parse, id, s, a + b) == HearAll(parse, id, HearAll(parse, id, s, a), b)
    decreases |a|
  {
    hide HearDatagram;
    if a == [] {
      assert a + b == b;
    } else {
      assert (a + b)[1..] == a[1..] + b;
      HearInParts(parse, id, HearDatagram(parse, id, s, a[0]), a[1..], b);
    }
  }

  /** A datagram that is no whole frame with a correct header, or not of version 101, or whose
      report names another client, leaves no trace in any run. */
  lemma {:induction false} DatagramIgnored(parse: seq<Byte> -> Report, id: nat, s: ClientState,
                                           a: seq<seq<Byte>>, x: seq<Byte>, b: seq<seq<Byte>>)
    requires
      || !(IsHeader(x) && Framed(x)) || x[2] != 101
      || parse(x[HeaderLength(x)..FrameLength(x)]).id != id
    ensures HearAll(parse, id, s, a + [x] + b) == HearAll(parse, id, s, a + b)
  {
    hide IsHeader, HearAll;
    HearInParts(parse, id, s, a + [x], b);
    HearInParts(parse, id, s, a, b);
    HearNextDatagram(parse, id, s, a, x);
  }

  /** A whole frame of version 101 whose report names the client: acted on exactly when it is
      newer than all before, and then in full. */
  lemma {:induction false} DatagramHeard(parse: seq<Byte> -> Report, id: nat, s: ClientState,
                                         a: seq<seq<Byte>>, x: seq<Byte>)
    requires IsHeader(x) && Framed(x) && x[2] == 101
    requires parse(x[HeaderLength(x)..FrameLength(x)]).id == id
    ensures
      var before, after := HearAll(parse, id, s, a), HearAll(parse, id, s, a + [x]);
      var report := parse(x[HeaderLength(x)..FrameLength(x)]);
      if report.sequence > before.lastSequence
      then after == ClientState(PlayerInput(before.input.id, report.move, report.direction), report.sequence)
      else after == before
  {
    hide IsHeader, HearAll;
    HearNextDatagram(parse, id, s, a, x);
  }

  lemma {:induction false} RelevantMeans(parse: seq<Byte> -> Report, id: nat, x: seq<Byte>)
    ensures Relevant(parse, id, x).Some? <==>
      IsHeader(x) && Framed(x) && x[2] == 101 && parse(x[HeaderLength(x)..FrameLength(x)]).id == id
    ensures Relevant(parse, id, x).Some? ==>
      Relevant(parse, id, x).value == parse(x[HeaderLength(x)..FrameLength(x)])
  {
    hide IsHeader;
  }

  /** After any run the sequence number is the highest among the whole frames of version 101
      whose reports name the client, and the input is what one of those with that number asks
      for; without any the client is as it was made. */
  lemma {:induction false} LastSequenceIsMaximum(parse: seq<Byte> -> Report, id: nat, buffers: seq<seq<Byte>>)
    ensures forall x | x in buffers && IsHeader(x) && Framed(x) && x[2] == 101 ::
      var r := parse(x[HeaderLength(x)..FrameLength(x)]);
      r.id == id ==> r.sequence <= HearAll(parse, id, NewClient(id), buffers).lastSequence
    ensures
      var last := HearAll(parse, id, NewClient(id), buffers);
      if last.lastSequence == 0 then last.input == PlayerInput(id, false, 0.0)
      else
        exists x | x in buffers && IsHeader(x) && Framed(x) && x[2] == 101 ::
          var r := parse(x[HeaderLength(x)..FrameLength(x)]);
          r.id == id && r.sequence == last.lastSequence && last.input == PlayerInput(id, r.move, r.direction)
  {
    hide Relevant, IsHeader, HearAll, Reports;
    var s, t := NewClient(id), HearAll(parse, id, NewClient(id), buffers);
    var reports := Reports(parse, id, buffers);
    HearAllIsHearReports(parse, id, s, buffers);
    HearReportsNewest(s, reports);
    ReportsMembers(parse, id, buffers);
    forall x | x in buffers && IsHeader(x) && Framed(x) && x[2] == 101
      ensures
        var r := parse(x[HeaderLength(x)..FrameLength(x)]);
        r.id == id ==> r.sequence <= t.lastSequence
    {
      RelevantMeans(parse, id, x);
    }
    if t.lastSequence != 0 {
      var r :| r in reports && LeavesBehind(s, r, t);
      var x :| x in buffers && Relevant(parse, id, x) == Some(r);
      RelevantMeans(parse, id, x);
    }
  }

  /** Two runs that bring the same reports, in any order and any number of copies,
      leave the same input and sequence number. */
  lemma {:induction false} OrderAndCopiesDoNotMatter(parse: seq<Byte> -> Report, id: nat,
                                                     a: seq<seq<Byte>>, b: seq<seq<Byte>>)
    requires TopAgree(Reports(parse, id, a))
    requires forall r :: r in Reports(parse, id, a) <==> r in Reports(parse, id, b)
    ensures HearAll(parse, id, NewClient(id), a) == HearAll(parse, id, NewClient(id), b)
  {
    hide Relevant, TopAgree;
    HearAllIsHearReports(parse, id, NewClient(id), a);
    HearAllIsHearReports(parse, id, NewClient(id), b);
    HearReportsNewest(NewClient(id), Reports(parse, id, a));
    HearReportsNewest(NewClient(id), Reports(parse, id, b));
    SameNewest(NewClient(id), Reports(parse, id, a), Reports(parse, id, b),
               HearAll(parse, id, NewClient(id), a), HearAll(parse, id, NewClient(id), b));
  }

  lemma {:induction false} SameNewest(s: ClientState, a: seq<Report>, b: seq<Report>, x: ClientState, y: ClientState)
    requires s.lastSequence == 0 && TopAgree(a) && (forall r :: r in a <==> r in b)
    requires Newest(s, a, x) && Newest(s, b, y)
    ensures x == y
  {
    if x != s {
      var r :| r in a && LeavesBehind(s, r, x);
      assert y != s;
      var q :| q in b && LeavesBehind(s, q, y);
      assert Top(a, r) && Top(a, q);
    }
  }

  /** However the datagrams of the run are ordered, the client ends in the same state. */
  ghost predicate OrderFree(parse: seq<Byte> -> Report, id: nat, buffers: seq<seq<Byte>>) {
    forall x :: multiset(x) == multiset(buffers) ==>
      HearAll(parse, id, NewClient(id), x) == HearAll(parse, id, NewClient(id), buffers)
  }

  lemma {:induction false} ReportsMembers(parse: seq<Byte> -> Report, id: nat, buffers: seq<seq<Byte>>)
    ensures forall r :: r in Reports(parse, id, buffers) <==>
      exists b :: b in buffers && Relevant(parse, id, b) == Some(r)
    decreases |buffers|
  {
    hide Relevant;
    if buffers != [] {
      ReportsMembers(parse, id, buffers[1..]);
      assert buffers == [buffers[0]] + buffers[1..];
    }
  }

  lemma {:induction false} SameReports(parse: seq<Byte> -> Report, id: nat, a: seq<seq<Byte>>, b: seq<seq<Byte>>)
    requires multiset(a) == multiset(b)
    ensures forall r :: r in Reports(parse, id, a) <==> r in Reports(parse, id, b)
  {
    hide Relevant, Reports;
    ReportsMembers(parse, id, a);
    ReportsMembers(parse, id, b);
    assert forall x :: x in a <==> x in multiset(a);
    assert forall x :: x in b <==> x in multiset(b);
  }

  /** A top report that arrives first decides the outcome. */
  lemma {:induction false} TopFirst(parse: seq<Byte> -> Report, id: nat, buffers: seq<seq<Byte>>, i: nat, r: Report)
      returns (x: seq<seq<Byte>>)
    requires i < |buffers| && Relevant(parse, id, buffers[i]) == Some(r) && Top(Reports(parse, id, buffers), r)
    ensures multiset(x) == multiset(buffers)
    ensures LeavesBehind(NewClient(id), r, HearAll(parse, id, NewClient(id), x))
  {
    hide Relevant;
    var rest := buffers[..i] + buffers[i + 1..];
    x := [buffers[i]] + rest;
    assert buffers == buffers[..i] + [buffers[i]] + buffers[i + 1..];
    SameReports(parse, id, x, buffers);
    assert x[1..] == rest;
    var reports := Reports(parse, id, rest);
    assert Reports(parse, id, x) == [r] + reports;
    assert forall q :: q in reports ==> q in Reports(parse, id, x);
    var m := Hear(NewClient(id), r);
    HearAllIsHearReports(parse, id, m, rest);
    HearReportsNewest(m, reports);
  }

  /** A run ends alike in every order exactly when the reports with its highest
      sequence number ask for the same. */
  lemma {:induction false} OrderFreeExactly(parse: seq<Byte> -> Report, id: nat, buffers: seq<seq<Byte>>)
    ensures OrderFree(parse, id, buffers) <==> TopAgree(Reports(parse, id, buffers))
  {
    hide Relevant, Reports, HearAll;
    var reports := Reports(parse, id, buffers);
    if TopAgree(reports) {
      forall x | multiset(x) == multiset(buffers)
        ensures HearAll(parse, id, NewClient(id), x) == HearAll(parse, id, NewClient(id), buffers)
      {
        SameReports(parse, id, buffers, x);
        OrderAndCopiesDoNotMatter(parse, id, buffers, x);
      }
    }
    if OrderFree(parse, id, buffers) {
      ReportsMembers(parse, id, buffers);
      forall a, b | Top(reports, a) && Top(reports, b) ensures a.move == b.move && a.direction == b.direction {
        var i :| 0 <= i < |buffers| && Relevant(parse, id, buffers[i]) == Some(a);
        var j :| 0 <= j < |buffers| && Relevant(parse, id, buffers[j]) == Some(b);
        var x := TopFirst(parse, id, buffers, i, a);
        var y := TopFirst(parse, id, buffers, j, b);
        assert HearAll(parse, id, NewClient(id), x) == HearAll(parse, id, NewClient(id), y);
      }
    }
  }

  /** The sequence numbers of the reports that were acted on. */
  function AcceptedSequences(s: ClientState, reports: seq<Report>): seq<nat>
    decreases |reports|, s
  {
    if reports == [] then []
    else
      (if reports[0].sequence > s.lastSequence then [reports[0].sequence] else [])
      + AcceptedSequences(Hear(s, reports[0]), reports[1..])
  }

  ghost predicate IncreasingAbove(q: seq<nat>, low: nat) {
    (forall k :: 0 <= k < |q| ==> q[k] > low) && forall j, k :: 0 <= j < k < |q| ==> q[j] < q[k]
  }

  lemma {:induction false} IncreasingCons(x: nat, tail: seq<nat>, low: nat)
    requires x > low && IncreasingAbove(tail, x)
    ensures IncreasingAbove([x] + tail, low)
  {
  }

  /** The reports acted on have strictly increasing sequence numbers. */
  lemma {:induction false} AcceptedIncrease(s: ClientState, reports: seq<Report>)
    ensures IncreasingAbove(AcceptedSequences(s, reports), s.lastSequence)
    decreases |reports|
  {
    hide IncreasingAbove;
    if reports == [] {
      assert IncreasingAbove([], s.lastSequence) by { NothingIncreases(s.lastSequence); }
    } else {
      var first, m := reports[0], Hear(s, reports[0]);
      AcceptedIncrease(m, reports[1..]);
      var tail := AcceptedSequences(m, reports[1..]);
      if first.sequence > s.lastSequence {
        IncreasingCons(first.sequence, tail, s.lastSequence);
      } else {
        assert [] + tail == tail;
      }
    }
  }

  lemma {:induction false} NothingIncreases(low: nat)
    ensures IncreasingAbove([], low)
  {
  }
}
