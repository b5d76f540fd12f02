/** The receive handler of the main process connection. */
module MainProcess {
  import opened Bits
  import opened Frame
  import opened Scan
  import opened ScanLaws
  import opened Corruption
  import Stream

  const GAME_CLIENTS_VERSION := 10

  /** The payloads that describe clients: the right version, and a correct payload. */
  function ClientLists(log: seq<Delivery>): seq<seq<Byte>> {
    if log == [] then []
    else ClientLists(log[..|log| - 1]) + Passed(log[|log| - 1])
  }

  lemma {:induction false} DeliveredNext(before: seq<seq<Byte>>, frame: seq<Byte>)
    requires (forall f :: f in before ==> Framed(f)) && Framed(frame)
    ensures forall f :: f in before + [frame] ==> Framed(f)
    ensures Deliveries(before + [frame]) == Deliveries(before) + [DeliveryOf(frame)]
  {
    hide Framed, DeliveryOf;
    DeliveriesConcat(before, [frame]);
  }

  /** The payload `d` adds to the client lists. */
  function Passed(d: Delivery): seq<seq<Byte>> {
    if d.correct && d.version == GAME_CLIENTS_VERSION then [d.payload] else []
  }

  lemma {:induction false} ClientListsNext(log: seq<Delivery>, d: Delivery)
    ensures ClientLists(log + [d]) == ClientLists(log) + Passed(d)
  {
    assert (log + [d])[..|log|] == log;
  }

  /** `lists` holds the payloads of exactly the log entries at `at`: those that are correct
      and of version 10, in their order. */
  ghost predicate Listed(log: seq<Delivery>, at: seq<nat>, lists: seq<seq<Byte>>) {
    && |at| == |lists| && (forall j, k :: 0 <= j < k < |at| ==> at[j] < at[k])
    && (forall k :: 0 <= k < |at| ==>
          at[k] < |log| && log[at[k]].correct && log[at[k]].version == 10 && lists[k] == log[at[k]].payload)
    && (forall i :: 0 <= i < |log| && log[i].correct && log[i].version == 10 ==> i in at)
  }

  lemma {:induction false} ListedNothing()
    ensures Listed([], [], [])
  {
  }

  lemma {:induction false} ListedNext(log: seq<Delivery>, at: seq<nat>, lists: seq<seq<Byte>>, d: Delivery)
    requires Listed(log, at, lists)
    ensures d.correct && d.version == 10 ==> Listed(log + [d], at + [|log|], lists + [d.payload])
    ensures !(d.correct && d.version == 10) ==> Listed(log + [d], at, lists)
  {
    assert forall i :: i in at ==> i in at + [|log|];
  }

  /** What is handed on, told without the function that says so. */
  lemma {:induction false} ClientListsExact(log: seq<Delivery>) returns (at: seq<nat>)
    ensures Listed(log, at, ClientLists(log))
    decreases |log|
  {
    hide Listed;
    if log == [] {
      at := [];
      ListedNothing();
    } else {
      var n := |log| - 1;
      at := ClientListsExact(log[..n]);
      ListedNext(log[..n], at, ClientLists(log[..n]), log[n]);
      assert log == log[..n] + [log[n]];
      if log[n].correct && log[n].version == 10 {
        at := at + [n];
      } else {
        assert ClientLists(log[..n]) + [] == ClientLists(log[..n]);
      }
    }
  }

  lemma {:induction false} ConcatSnoc(chunks: seq<seq<Byte>>, data: seq<Byte>)
    ensures Concat(chunks + [data]) == Concat(chunks) + data
    decreases |chunks|
  {
    if chunks == [] {
      assert Concat([data]) == data + Concat([]);
    } else {
      ConcatSnoc(chunks[1..], data);
      assert (chunks + [data])[1..] == chunks[1..] + [data];
      assert Concat(chunks) + data == chunks[0] + (Concat(chunks[1..]) + data);
    }
  }

  /** The scan of the first `k` chunks leaves nothing undecided. */
  ghost predicate Clears(chunks: seq<seq<Byte>>, k: nat) {
    1 <= k <= |chunks| && ScanAll(Concat(chunks[..k])).rest == []
  }

  ghost predicate SomeClears(chunks: seq<seq<Byte>>) {
    exists k: nat :: Clears(chunks, k)
  }

  lemma {:induction false} ClearsSnoc(chunks: seq<seq<Byte>>, data: seq<Byte>)
    ensures SomeClears(chunks + [data]) <==> SomeClears(chunks) || ScanAll(Concat(chunks + [data])).rest == []
  {
    hide ScanAll, Concat;
    var all, n := chunks + [data], |chunks|;
    assert all[..n + 1] == all;
    assert forall k: nat | k <= n :: all[..k] == chunks[..k];
    if SomeClears(chunks) {
      var k: nat :| Clears(chunks, k);
      assert Clears(all, k);
    }
    if SomeClears(all) {
      var k: nat :| Clears(all, k);
      assert k <= n ==> Clears(chunks, k);
    }
    assert ScanAll(Concat(all)).rest == [] ==> Clears(all, n + 1);
  }

  lemma {:induction false} FramelessKeepsBytes(s: seq<Byte>)
    requires ScanAll(s).frames == []
    ensures |ScanAll(s).rest| <= |s| && (ScanAll(s).rest == [] <==> s == [])
  {
    hide ScanAll, FrameLength;
    BytesConserved(s);
    assert s[0..] == s;
    StartsMatch(s, 0);
    NothingLeft(s, 0);
  }

  class MainProcessComm {
    const datagramStream: Stream.DatagramStream
    /** Every decoded datagram, in the order the handler saw them. */
    var log: seq<Delivery>
    /** The payloads handed on by `LoadClients`. */
    var clientLists: seq<seq<Byte>>
    ghost var chunks: seq<seq<Byte>>
    /** The begin sequence has been looked for in an empty buffer, where the original
        reads and erases outside it. */
    ghost var onEmpty: bool

    ghost function Received(): seq<Byte>
      reads this
    {
      Concat(chunks)
    }

    /** Everything observable is a function of the bytes received so far, not
        of the chunks they came in. Only the history variable `onEmpty` is not. */
    ghost predicate Valid()
      reads this, datagramStream, datagramStream.datagram
    {
      Current(Received()) && (onEmpty <==> SomeClears(chunks))
    }

    /** All that can be done with `bytes` has been done. */
    ghost predicate Current(bytes: seq<Byte>)
      reads this, datagramStream, datagramStream.datagram
    {
      Decoded(ScanAll(bytes).frames)
      && datagramStream.Valid() && datagramStream.Settled()
      && datagramStream.buffer == ScanAll(bytes).rest
    }

    /** `frames` have been decoded out of `bytes`; the buffer holds the others. */
    ghost predicate Underway(bytes: seq<Byte>, frames: seq<seq<Byte>>)
      reads this, datagramStream, datagramStream.datagram
    {
      Decoded(frames) && datagramStream.Valid()
      && ScanAll(bytes).frames == frames + ScanAll(datagramStream.buffer).frames
      && ScanAll(bytes).rest == ScanAll(datagramStream.buffer).rest
    }

    /** The log holds exactly these frames, and the datagram object the last of them. */
    ghost predicate Decoded(frames: seq<seq<Byte>>)
      reads this, datagramStream, datagramStream.datagram
    {
      (forall f :: f in frames ==> Framed(f)) && log == Deliveries(frames)
      && clientLists == ClientLists(log)
      && (log != [] ==> Seen(datagramStream.datagram.View()) == log[|log| - 1])
    }

    constructor ()
      ensures Valid() && log == [] && chunks == [] && !onEmpty
      ensures fresh(datagramStream) && fresh(datagramStream.datagram)
    {
      datagramStream := new Stream.DatagramStream();
      log := [];
      clientLists := [];
      chunks := [];
      onEmpty := false;
    }

    /** Report the datagram just decoded, and load clients from it if it is correct. */
    method Handle(ghost before: seq<seq<Byte>>, ghost frame: seq<Byte>, ghost fields: Fields)
      requires (forall f :: f in before ==> Framed(f)) && log == Deliveries(before)
      requires clientLists == ClientLists(log)
      requires Framed(frame) && datagramStream.datagram.View() == Loaded(fields, frame)
      modifies this`log, this`clientLists
      ensures Decoded(before + [frame])
      ensures
        var d := datagramStream.datagram;
        clientLists == old(clientLists) + (if d.View().Correct() && d.version == 10 then [d.payload] else [])
    {
      hide Framed, DeliveryOf, Loaded, Deliveries, ClientLists, Fields.Correct;
      SeenIndependent(fields, frame);
      DeliveredNext(before, frame);
      ClientListsNext(log, DeliveryOf(frame));
      var datagram := datagramStream.datagram;
      var correct := datagram.PayloadCorrectness();
      log := log + [Delivery(datagram.version, datagram.payload, correct)];
      if correct {
        if datagram.version == GAME_CLIENTS_VERSION {
          clientLists := clientLists + [datagram.payload];
        }
      }
    }

    /** The datagram just decoded out of `bytes` is handled; `fields` were loaded before. */
    method HandleFirst(ghost all: seq<Byte>, ghost frames: seq<seq<Byte>>, ghost bytes: seq<Byte>, ghost fields: Fields)
        returns (ghost handled: seq<seq<Byte>>)
      requires (forall f :: f in frames ==> Framed(f)) && log == Deliveries(frames)
      requires clientLists == ClientLists(log)
      requires datagramStream.Valid() && datagramStream.FirstFrameTaken(bytes, fields)
      requires ScanAll(all).frames == frames + ScanAll(bytes).frames && ScanAll(all).rest == ScanAll(bytes).rest
      modifies this`log, this`clientLists
      ensures Underway(all, handled) && |datagramStream.buffer| < |bytes|
    {
      hide ScanAll, Deliveries, Framed, Loaded, ClientLists, Seen;
      ghost var frame := ScanAll(bytes).frames[0];
      FrameShortens(bytes, datagramStream, fields);
      Handle(frames, frame, fields);
      handled := frames + [frame];
    }

    /** The handler's work on one chunk: decode, then drain the buffer. An empty buffer
        is searched exactly when no byte of all those received stays undecided. */
    method Process(data: seq<Byte>, ghost received: seq<Byte>) returns (ghost searchedEmpty: bool)
      requires Current(received)
      modifies this`log, this`clientLists, datagramStream, datagramStream.datagram
      ensures Current(received + data)
      ensures searchedEmpty <==> ScanAll(received + data).rest == []
    {
      hide ScanAll, Deliveries, Framed, Loaded, Judge, ClientLists, Seen, Stream.StateOf,
        Stream.DatagramStream.Valid;
      var input := datagramStream;
      ghost var all, bytes := received + data, input.buffer + data;
      ghost var frames := ScanAll(received).frames;
      ScanAppend(received, data);
      ghost var fields := input.datagram.View();
      var decoded;
      decoded, searchedEmpty := input.AddData(data);
      if decoded {
        frames := HandleFirst(all, frames, bytes, fields);
        var more := true;
        while more
          invariant Underway(all, frames)
          invariant !more ==> input.Settled() && ScanAll(input.buffer) == Result([], 0, input.buffer)
          invariant searchedEmpty <==> !more && input.buffer == []
          decreases |input.buffer|, more
        {
          bytes := input.buffer;
          fields := input.datagram.View();
          more, searchedEmpty := input.FlushData();
          if more {
            frames := HandleFirst(all, frames, bytes, fields);
          } else {
            FramelessKeepsBytes(bytes);
            ScanUnfold(input.buffer);
          }
        }
      } else {
        FramelessKeepsBytes(bytes);
      }
      assert frames + [] == frames;
    }

    /** One chunk arrives. */
    method Receive(data: seq<Byte>) returns (ghost searchedEmpty: bool)
      requires Valid()
      modifies this, datagramStream, datagramStream.datagram
      ensures Valid() && chunks == old(chunks) + [data] && Received() == old(Received()) + data
      ensures searchedEmpty <==> ScanAll(Received()).rest == []
      ensures onEmpty <==> old(onEmpty) || searchedEmpty
    {
      hide ScanAll, Deliveries, Judge, ClientLists, Concat, SomeClears, Stream.StateOf;
      searchedEmpty := Process(data, Received());
      ConcatSnoc(chunks, data);
      ClearsSnoc(chunks, data);
      chunks := chunks + [data];
      onEmpty := onEmpty || searchedEmpty;
    }
  }

  /** A decoded frame is at least a header long, so the buffer shrinks. */
  lemma {:induction false} FrameShortens(bytes: seq<Byte>, input: Stream.DatagramStream, fields: Fields)
    requires input.FirstFrameTaken(bytes, fields)
    ensures |input.buffer| + 12 <= |bytes|
  {
  }

  /** Two connections that have received the same bytes have decoded the same datagrams,
      handed on the same client lists, and hold the same undecided bytes in the same state. */
  lemma {:induction false} ChunksDoNotMatter(a: MainProcessComm, b: MainProcessComm)
    requires a.Valid() && b.Valid() && a.Received() == b.Received()
    ensures a.log == b.log && a.clientLists == b.clientLists
    ensures a.datagramStream.buffer == b.datagramStream.buffer && a.datagramStream.state == b.datagramStream.state
  {
  }

  /** A connection that received printed messages through noise has decoded them all. */
  lemma {:induction false} MessagesArrive(c: MainProcessComm, items: seq<Item>, tail: seq<Byte>)
    requires c.Valid() && Clean(items) && Quiet(tail) && c.Received() == Wire(items, tail)
    ensures c.log == Sent(items)
  {
    hide ScanAll, Wire, Deliveries;
    Lossless(items, tail);
  }

  // ----- what is handed on

  /** In every connection the client lists are the payloads of the correct datagrams of version 10. */
  lemma {:induction false} ClientListsOf(c: MainProcessComm) returns (at: seq<nat>)
    requires c.Valid()
    ensures Listed(c.log, at, c.clientLists)
  {
    hide Listed, ClientLists;
    at := ClientListsExact(c.log);
  }

  /** `lists` holds exactly the payloads of the messages at `at`: those of version 10 modulo
      256, in their order, message `skipped` left out. */
  ghost predicate ListsMessages(items: seq<Item>, skipped: int, at: seq<nat>, lists: seq<seq<Byte>>) {
    && |at| == |lists| && (forall j, k :: 0 <= j < k < |at| ==> at[j] < at[k])
    && (forall k :: 0 <= k < |at| ==>
          at[k] < |items| && at[k] != skipped && items[at[k]].message.version % 256 == 10
          && lists[k] == items[at[k]].message.payload)
    && (forall i :: 0 <= i < |items| && i != skipped && items[i].message.version % 256 == 10 ==> i in at)
  }

  /** Messages sent through quiet noise: exactly the payloads of version 10 are handed on. */
  lemma {:induction false} MessagesHandedOn(c: MainProcessComm, items: seq<Item>, tail: seq<Byte>)
      returns (at: seq<nat>)
    requires c.Valid() && Clean(items) && Quiet(tail) && c.Received() == Wire(items, tail)
    ensures ListsMessages(items, -1, at, c.clientLists)
  {
    MessagesArrive(c, items, tail);
    at := ClientListsOf(c);
    hide ClientLists, Wire, Clean, Quiet;
  }

  /** With one checksummed payload damaged within 32 bits, that payload is not handed on and
      all others are as they would have been. */
  lemma {:induction false} DamageNotHandedOn(c: MainProcessComm, items: seq<Item>, k: nat, altered: seq<Byte>,
                                             lo: nat, width: nat, tail: seq<Byte>) returns (at: seq<nat>)
    requires Clean(items) && k < |items| && items[k].message.checksumIncluded
    requires width <= 32 && DifferWithin(items[k].message.payload, altered, lo, width)
    requires c.Valid() && Quiet(tail)
    requires c.Received() == Line(WithFrame(items, k, HeaderOf(items[k].message) + altered), tail)
    ensures ListsMessages(items, k, at, c.clientLists)
  {
    hide ScanAll, Line, WithFrame, HeaderOf, Framed, Deliveries, Quiet, DifferWithin, ClientLists;
    var m := items[k].message;
    OneDamagedPayload(items, k, altered, lo, width, tail);
    NoiseAlone(tail);
    NothingDelivered();
    var log := Sent(items)[k := Delivery(m.version % 256, altered, false)];
    assert c.log == log + [] == log;
    at := ClientListsOf(c);
  }

  lemma {:induction false} NothingDelivered()
    ensures Deliveries([]) == []
  {
  }

  // ----- the empty buffer

  /** The scan of `s` finds its last frame at the very end, or `s` is empty. */
  predicate EndsOnFrame(s: seq<Byte>) {
    FramesEnd(s, 0, 0) == |s|
  }

  /** A connection has searched an empty buffer exactly when some chunk ended where a frame
      of the stream ends, or no byte had arrived by then. */
  lemma {:induction false} EmptySearchedExactly(c: MainProcessComm)
    requires c.Valid()
    ensures c.onEmpty <==> exists k: nat :: 1 <= k <= |c.chunks| && EndsOnFrame(Concat(c.chunks[..k]))
  {
    hide ScanAll, EndsOnFrame, Concat;
    forall k: nat | k <= |c.chunks|
      ensures ScanAll(Concat(c.chunks[..k])).rest == [] <==> EndsOnFrame(Concat(c.chunks[..k]))
    {
      RestOfWhole(Concat(c.chunks[..k]));
    }
    if c.onEmpty {
      var k: nat :| Clears(c.chunks, k);
      assert EndsOnFrame(Concat(c.chunks[..k]));
    }
    if k: nat :| 1 <= k <= |c.chunks| && EndsOnFrame(Concat(c.chunks[..k])) {
      assert Clears(c.chunks, k);
    }
  }

  lemma {:induction false} RestOfWhole(s: seq<Byte>)
    ensures ScanAll(s).rest == [] <==> EndsOnFrame(s)
  {
    hide ScanAll;
    assert s[0..] == s;
    NothingLeft(s, 0);
  }

  /** The ordinary case: messages have arrived and the last chunk ended with one of them. */
  lemma {:induction false} MessagesClearBuffer(c: MainProcessComm, items: seq<Item>)
    requires c.Valid() && c.chunks != [] && Clean(items) && c.Received() == Wire(items, [])
    ensures c.onEmpty && c.datagramStream.buffer == [] && c.log == Sent(items)
  {
    hide ScanAll, Wire, Deliveries, Concat;
    Lossless(items, []);
    var n := |c.chunks|;
    assert c.chunks[..n] == c.chunks;
    assert Clears(c.chunks, n);
  }

  /** One printed message in one chunk is enough. */
  lemma {:induction false} OneMessageClearsBuffer(c: MainProcessComm, m: Message)
    requires c.Valid() && m.Valid() && c.chunks == [Serialize(m)]
    ensures c.onEmpty && c.log == [Delivery(m.version % 256, m.payload, true)]
  {
    hide Serialize, ScanAll;
    var items := [Item([], m)];
    var parcels := Packed(items);
    assert parcels == [Parcel([], Serialize(m))];
    assert Line(parcels[1..], []) == [];
    assert Wire(items, []) == [] + (Serialize(m) + []) == Serialize(m);
    assert c.chunks[1..] == [];
    assert Concat(c.chunks) == Serialize(m) + [];
    MessagesClearBuffer(c, items);
    assert Sent(items) == [Sent(items)[0]];
  }
}
