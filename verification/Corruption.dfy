/** Which damage to a frame its two checksums are sure to show. */
module Corruption {
  import opened Bits
  import opened CrcSpec
  import opened CrcLaws
  import opened CrcParity
  import opened Frame
  import opened Scan
  import opened ScanLaws

  /** `a` and `b` have one length, are not equal, and agree outside the `width` bits
      from bit `lo`; bits count in the order they are sent, wherever bytes end. */
  ghost predicate DifferWithin(a: seq<Byte>, b: seq<Byte>, lo: nat, width: nat) {
    |a| == |b| && a != b && lo + width <= 8 * |a|
    && BitsOf(a)[..lo] == BitsOf(b)[..lo] && BitsOf(a)[lo + width..] == BitsOf(b)[lo + width..]
  }

  /** The same for whole bytes. */
  ghost predicate DifferWithinBytes(a: seq<Byte>, b: seq<Byte>, lo: nat, width: nat) {
    |a| == |b| && a != b && lo + width <= |a| && a[..lo] == b[..lo] && a[lo + width..] == b[lo + width..]
  }

  lemma {:induction false} BytesAreBits(a: seq<Byte>, b: seq<Byte>, lo: nat, width: nat)
    requires DifferWithinBytes(a, b, lo, width)
    ensures DifferWithin(a, b, 8 * lo, 8 * width)
  {
    hide BitsOf;
    BitsOfSlices(a, lo);
    BitsOfSlices(b, lo);
    BitsOfSlices(a, lo + width);
    BitsOfSlices(b, lo + width);
  }

  lemma {:induction false} BitsOfSlices(a: seq<Byte>, k: nat)
    requires k <= |a|
    ensures BitsOf(a)[..8 * k] == BitsOf(a[..k]) && BitsOf(a)[8 * k..] == BitsOf(a[k..])
  {
    hide BitsOf, Transmitted;
    TransmittedIsBitsOf(Crc32(), a);
    TransmittedIsBitsOf(Crc32(), a[..k]);
    TransmittedIsBitsOf(Crc32(), a[k..]);
    TransmittedSlices(Crc32(), a, k);
  }

  lemma {:induction false} WindowIsBurst(p: Parameters, a: seq<Byte>, b: seq<Byte>, lo: nat, width: nat)
    requires p.Valid() && p.reflectInput && width <= p.Width() && DifferWithin(a, b, lo, width)
    ensures BurstBetween(p, a, b, lo, lo + width)
  {
    hide BitsOf, Transmitted;
    TransmittedIsBitsOf(p, a);
    TransmittedIsBitsOf(p, b);
    if Transmitted(p, a) == Transmitted(p, b) {
      TransmittedInjective(p, a, b);
    }
  }

  // ----- the payload

  /** Payloads that differ only within 32 consecutive bits have different checksums. */
  lemma {:induction false} PayloadBurstSeen(a: seq<Byte>, b: seq<Byte>, lo: nat, width: nat)
    requires width <= 32 && DifferWithin(a, b, lo, width)
    ensures PayloadCrc(a) != PayloadCrc(b)
  {
    hide Checksum, BurstBetween, DifferWithin;
    UnitTerms();
    WindowIsBurst(Crc32(), a, b, lo, width);
    BitBurstChangesChecksum(Crc32(), a, b, lo, lo + width);
  }

  /** A payload altered only within 32 consecutive bits no longer matches its checksum. */
  lemma {:induction false} PayloadBurstRejected(f: Fields, altered: seq<Byte>, lo: nat, width: nat)
    requires f.checksumIncluded && f.Correct()
    requires width <= 32 && DifferWithin(f.payload, altered, lo, width)
    ensures !f.(payload := altered).Correct()
  {
    hide PayloadCrc, DifferWithin;
    PayloadBurstSeen(f.payload, altered, lo, width);
  }

  /** In particular any change at all to a payload of at most four bytes. */
  lemma {:induction false} ShortPayloadChangeRejected(f: Fields, altered: seq<Byte>)
    requires f.checksumIncluded && f.Correct()
    requires |f.payload| <= 4 && |altered| == |f.payload| && altered != f.payload
    ensures !f.(payload := altered).Correct()
  {
    hide Fields.Correct, DifferWithin;
    BytesAreBits(f.payload, altered, 0, |altered|);
    PayloadBurstRejected(f, altered, 0, 8 * |altered|);
  }

  // ----- the header

  /** A header that opens with the begin sequence is correct exactly when the CRC-16
      register is zero after all of it, its own checksum included. */
  lemma {:induction false} HeaderResidue(s: seq<Byte>)
    requires Begins(s) && |s| >= 12 && |s| >= HeaderLength(s)
    ensures IsHeader(s) <==> Remainder(Crc16Arc(), s[..HeaderLength(s)], Zeros(16)) == Zeros(16)
  {
    hide Remainder, BitsOf;
    var h := HeaderLength(s);
    UnitTerms();
    ZeroResidue(Crc16Arc(), s[..h - 2], s[h - 2..h], Zeros(16));
    assert s[..h] == s[..h - 2] + s[h - 2..h];
    XorZeros(Remainder(Crc16Arc(), s[..h - 2], Zeros(16)));
  }

  lemma {:induction false} HeaderBegins(s: seq<Byte>)
    ensures IsHeader(s) ==> Begins(s) && |s| >= 12 && |s| >= HeaderLength(s)
  {
  }

  /** What the header of `s` leaves in the CRC-16 register. */
  function HeaderRemainder(s: seq<Byte>): (r: Word)
    requires |s| >= 4 && |s| >= HeaderLength(s)
    ensures |r| == 16
  {
    Remainder(Crc16Arc(), s[..HeaderLength(s)], Zeros(16))
  }

  /** Headers that leave different registers are not both correct. */
  lemma {:induction false} OneIsIncorrect(s: seq<Byte>, t: seq<Byte>)
    requires IsHeader(s) && |t| >= HeaderLength(s) && Flagged(t) == Flagged(s)
    requires HeaderRemainder(s) != HeaderRemainder(t)
    ensures !IsHeader(t)
  {
    hide IsHeader, Remainder;
    HeaderBegins(s);
    HeaderBegins(t);
    if Begins(t) {
      HeaderResidue(s);
      HeaderResidue(t);
    }
  }

  /** A correct header altered only within 16 consecutive bits, the length flag apart,
      is no longer a correct header, whatever follows it. */
  lemma {:induction false} HeaderBurstRejected(s: seq<Byte>, t: seq<Byte>, lo: nat, width: nat)
    requires IsHeader(s) && |t| >= HeaderLength(s) && Flagged(t) == Flagged(s)
    requires width <= 16 && DifferWithin(s[..HeaderLength(s)], t[..HeaderLength(s)], lo, width)
    ensures !IsHeader(t)
  {
    hide IsHeader, Remainder, BurstBetween, DifferWithin;
    HeaderBegins(s);
    var h := HeaderLength(s);
    UnitTerms();
    WindowIsBurst(Crc16Arc(), s[..h], t[..h], lo, width);
    BitBurstChangesRemainder(Crc16Arc(), s[..h], t[..h], Zeros(16), lo, lo + width);
    OneIsIncorrect(s, t);
  }

  lemma {:induction false} HeaderParity(s: seq<Byte>)
    requires |s| >= 4 && |s| >= HeaderLength(s)
    ensures OddWeight(HeaderRemainder(s)) == OddWeight(BitsOf(s[..HeaderLength(s)]))
  {
    hide OddWeight, Weight, Remainder, BitsOf, Transmitted;
    TermsAreEven();
    var header := s[..HeaderLength(s)];
    RemainderParity(Crc16Arc(), header, Zeros(16));
    TransmittedIsBitsOf(Crc16Arc(), header);
    OddZeros(16);
  }

  lemma {:induction false} TermsAreEven()
    ensures OddWeight(Crc16Arc().polynomial)
  {
    TermsInUse();
    hide Weight;
  }

  /** In a correct header an even number of bits is set. */
  lemma {:induction false} CorrectHeaderIsEven(s: seq<Byte>)
    requires IsHeader(s)
    ensures !OddWeight(BitsOf(s[..HeaderLength(s)]))
  {
    hide IsHeader, OddWeight, Remainder, BitsOf;
    HeaderBegins(s);
    HeaderResidue(s);
    HeaderParity(s);
    OddZeros(16);
  }

  /** A correct header in which an odd number of bits is flipped, the length flag apart,
      is no longer a correct header, wherever those bits are. */
  lemma {:induction false} OddHeaderDamageRejected(s: seq<Byte>, t: seq<Byte>)
    requires IsHeader(s) && |t| >= HeaderLength(s) && Flagged(t) == Flagged(s)
    requires OddWeight(Xor(BitsOf(s[..HeaderLength(s)]), BitsOf(t[..HeaderLength(s)])))
    ensures !IsHeader(t)
  {
    hide IsHeader, OddWeight, BitsOf, HeaderRemainder;
    HeaderBegins(s);
    OddXor(BitsOf(s[..HeaderLength(s)]), BitsOf(t[..HeaderLength(s)]));
    HeaderParity(s);
    HeaderParity(t);
    OneIsIncorrect(s, t);
  }

  // ----- whole frames

  /** Bytes that open with the same header. */
  lemma {:induction false} SameHeader(s: seq<Byte>, t: seq<Byte>)
    requires IsHeader(s) && |t| >= HeaderLength(s) && s[..HeaderLength(s)] == t[..HeaderLength(s)]
    ensures IsHeader(t) && Flagged(t) == Flagged(s) && s[2] == t[2] && s[4..8] == t[4..8]
    ensures Flagged(s) ==> s[8..12] == t[8..12]
  {
    hide Checksum, BitsOf;
    var h := HeaderLength(s);
    assert forall i :: 0 <= i < 4 ==> s[i] == s[..h][i] && t[i] == t[..h][i];
    assert s[4..8] == s[..h][4..8] && s[8..12] == s[..h][8..12];
    assert t[4..8] == t[..h][4..8] && t[8..12] == t[..h][8..12];
    assert s[h - 2..h] == s[..h][h - 2..h] && s[..h - 2] == s[..h][..h - 2];
    assert t[h - 2..h] == t[..h][h - 2..h] && t[..h - 2] == t[..h][..h - 2];
  }

  /** A frame with its payload replaced is still read as a frame, with the new payload. */
  lemma {:induction false} PayloadReplaced(s: seq<Byte>, t: seq<Byte>, f: Fields)
    requires IsHeader(s) && Framed(s) && |t| == |s| && t[..HeaderLength(s)] == s[..HeaderLength(s)]
    ensures IsHeader(t) && Framed(t) && FrameLength(t) == FrameLength(s)
    ensures Loaded(f, t) == Loaded(f, s).(payload := t[HeaderLength(s)..FrameLength(s)])
  {
    hide IsHeader, BitsOf, Number;
    HeaderBegins(s);
    SameHeader(s, t);
  }

  /** A frame damaged only within 32 consecutive payload bits is still read
      as a frame, and its payload is reported incorrect. */
  lemma {:induction false} PayloadDamageReported(s: seq<Byte>, t: seq<Byte>, lo: nat, width: nat, f: Fields)
    requires IsHeader(s) && Framed(s) && Flagged(s) && Loaded(f, s).Correct()
    requires |t| == |s| && t[..16] == s[..16]
    requires width <= 32 && DifferWithin(s[16..FrameLength(s)], t[16..FrameLength(s)], lo, width)
    ensures IsHeader(t) && Framed(t) && FrameLength(t) == FrameLength(s) && !Loaded(f, t).Correct()
  {
    hide HeaderChecks, Fields.Correct, DifferWithin;
    PayloadReplaced(s, t, f);
    PayloadBurstRejected(Loaded(f, s), t[16..FrameLength(s)], lo, width);
  }

  // ----- damage on the line

  /** A printed frame whose payload was replaced by one of the same length is still a whole
      frame, seen as correct exactly when nothing is checked or the checksums agree. */
  lemma {:induction false} ReplacedFrameSeen(m: Message, altered: seq<Byte>)
    requires m.Valid() && |altered| == |m.payload|
    ensures
      var frame := HeaderOf(m) + altered;
      WholeFrame(frame)
      && DeliveryOf(frame) == Delivery(m.version % 256, altered, PassesAs(m, altered))
  {
    hide IsHeader, HeaderOf, PayloadCrc, Loaded, Carries;
    var s, frame := Serialize(m), HeaderOf(m) + altered;
    assert s + [] == s;
    SerializeIsFrame(m, []);
    SerializeIsWhole(m);
    SerializeCarries(m, []);
    var h := |HeaderOf(m)|;
    assert s[..h] == HeaderOf(m) == frame[..h] && frame[h..|s|] == altered;
    PayloadReplaced(s, frame, Blank());
    CarriedFields(m, s, Blank());
  }

  /** What is loaded from a frame that carries `m`. */
  lemma {:induction false} CarriedFields(m: Message, s: seq<Byte>, f: Fields)
    requires m.Valid() && Carries(s, m)
    ensures
      var check := if m.checksumIncluded then PayloadCrc(m.payload) else f.payloadChecksum;
      Loaded(f, s) == Fields(m.version % 256, |m.payload|, check, m.checksumIncluded, m.payload)
  {
    hide PayloadCrc, BitsOf, BytesOf, Number;
    BitsOfBytesOf(PayloadCrc(m.payload));
  }

  /** The payload check of `m` does not tell this payload from its own. */
  predicate PassesAs(m: Message, altered: seq<Byte>) {
    m.checksumIncluded ==> PayloadCrc(altered) == PayloadCrc(m.payload)
  }

  /** Messages on the line, with one frame replaced. */
  function WithFrame(items: seq<Item>, k: nat, frame: seq<Byte>): (parcels: seq<Parcel>)
    requires AllValid(items) && k < |items|
    ensures |parcels| == |items|
  {
    Packed(items)[k := Parcel(items[k].noise, frame)]
  }

  lemma {:induction false} ReplacedParcels(items: seq<Item>, k: nat, altered: seq<Byte>)
    requires Clean(items) && k < |items| && |altered| == |items[k].message.payload|
    ensures
      var m := items[k].message;
      var parcels := WithFrame(items, k, HeaderOf(m) + altered);
      var expected := Sent(items)[k := Delivery(m.version % 256, altered, PassesAs(m, altered))];
      QuietlyParcelled(parcels)
      && forall i :: 0 <= i < |parcels| ==>
           Framed(parcels[i].frame) && DeliveryOf(parcels[i].frame) == expected[i]
  {
    hide Serialize, HeaderOf, IsHeader, Framed, Quiet, DeliveryOf, Message.Valid, PassesAs;
    var parcels := WithFrame(items, k, HeaderOf(items[k].message) + altered);
    ReplacedFrameSeen(items[k].message, altered);
    forall i | 0 <= i < |items| && i != k
      ensures
        var frame := parcels[i].frame;
        WholeFrame(frame) && DeliveryOf(frame) == Sent(items)[i]
    {
      SerializeIsWhole(items[i].message);
      MessageSeen(items[i].message);
    }
  }

  /** Of messages sent through quiet noise with one payload replaced, that one is delivered
      with its new payload, as correct exactly when its check passes, and all others as sent. */
  lemma {:induction false} OneReplacedPayload(items: seq<Item>, k: nat, altered: seq<Byte>, tail: seq<Byte>)
    requires Clean(items) && k < |items| && |altered| == |items[k].message.payload|
    ensures
      var m := items[k].message;
      var r := ScanAll(Line(WithFrame(items, k, HeaderOf(m) + altered), tail));
      var more := ScanAll(tail);
      (forall f :: f in r.frames + more.frames ==> Framed(f)) && r.rest == more.rest
      && Deliveries(r.frames)
         == Sent(items)[k := Delivery(m.version % 256, altered, PassesAs(m, altered))] + Deliveries(more.frames)
  {
    hide ScanAll, Line, Deliverable, QuietlyParcelled, Framed, Deliveries, DeliveryOf, WithFrame, Quiet, PassesAs,
      HeaderOf;
    var parcels := WithFrame(items, k, HeaderOf(items[k].message) + altered);
    ReplacedParcels(items, k, altered);
    QuietDelivers(parcels, tail);
    FramesDelivered(parcels, tail);
    LineSeen(parcels, tail);
  }

  /** With one checksummed payload altered within 32 consecutive bits, that message is
      delivered as incorrect and all others as they were sent. */
  lemma {:induction false} OneDamagedPayload(items: seq<Item>, k: nat, altered: seq<Byte>, lo: nat, width: nat,
                                             tail: seq<Byte>)
    requires Clean(items) && k < |items| && items[k].message.checksumIncluded
    requires width <= 32 && DifferWithin(items[k].message.payload, altered, lo, width)
    ensures
      var m := items[k].message;
      var r := ScanAll(Line(WithFrame(items, k, HeaderOf(m) + altered), tail));
      var more := ScanAll(tail);
      (forall f :: f in r.frames + more.frames ==> Framed(f)) && r.rest == more.rest
      && Deliveries(r.frames)
         == Sent(items)[k := Delivery(m.version % 256, altered, false)] + Deliveries(more.frames)
  {
    hide ScanAll, Line, Framed, Deliveries, WithFrame, Quiet, PayloadCrc, HeaderOf;
    PayloadBurstSeen(items[k].message.payload, altered, lo, width);
    OneReplacedPayload(items, k, altered, tail);
  }

  // ----- a damaged header on the line

  lemma {:induction false} LineSplit(a: seq<Parcel>, b: seq<Parcel>, tail: seq<Byte>)
    ensures Line(a + b, tail) == Line(a, Line(b, tail))
    decreases |a|
  {
    if a == [] {
      assert a + b == b;
    } else {
      assert (a + b)[0] == a[0] && (a + b)[1..] == a[1..] + b;
      LineSplit(a[1..], b, tail);
    }
  }

  /** No correct header begins in the first `n` bytes of `s`. */
  ghost predicate Headerless(s: seq<Byte>, n: nat) {
    forall i :: 0 <= i < n ==> !HeaderAt(s, i)
  }

  /** The line with frame `k` replaced, in the order it is sent. */
  lemma {:induction false} LineAround(items: seq<Item>, k: nat, frame: seq<Byte>, tail: seq<Byte>)
    requires AllValid(items) && k < |items|
    ensures AllValid(items[..k]) && AllValid(items[k + 1..])
    ensures Line(WithFrame(items, k, frame), tail)
      == Wire(items[..k], items[k].noise + frame + Wire(items[k + 1..], tail))
  {
    hide Line, Serialize, Message.Valid;
    var parcel := Parcel(items[k].noise, frame);
    var before, after := Packed(items[..k]), Packed(items[k + 1..]);
    assert WithFrame(items, k, frame) == before + ([parcel] + after);
    LineSplit(before, [parcel] + after, tail);
    LineOfOne(parcel, after, tail);
  }

  lemma {:induction false} LineOfOne(parcel: Parcel, after: seq<Parcel>, tail: seq<Byte>)
    ensures Line([parcel] + after, tail) == parcel.noise + parcel.frame + Line(after, tail)
  {
    assert ([parcel] + after)[1..] == after;
  }

  lemma {:induction false} LostSkipped(lost: seq<Byte>, later: seq<Byte>)
    requires |later| >= 15 && Headerless(lost + later, |lost|)
    ensures ScanAll(lost + later).frames == ScanAll(later).frames && ScanAll(lost + later).rest == ScanAll(later).rest
  {
    hide ScanAll, HeaderAt;
    HeaderlessSkipped(lost, later);
  }

  /** When no correct header begins in the frame put in place of one message, or in the noise
      before it, exactly that message is missing and all others arrive as they were sent,
      once at least fifteen bytes follow. */
  lemma {:induction false} OneLostMessage(items: seq<Item>, k: nat, frame: seq<Byte>, tail: seq<Byte>)
    requires Clean(items) && k < |items|
    requires |Wire(items[k + 1..], tail)| >= 15
    requires Headerless(items[k].noise + frame + Wire(items[k + 1..], tail), |items[k].noise| + |frame|)
    ensures
      var r, more := ScanAll(Line(WithFrame(items, k, frame), tail)), ScanAll(tail);
      (forall f :: f in r.frames + more.frames ==> Framed(f)) && r.rest == more.rest
      && Deliveries(r.frames) == Sent(items[..k]) + Sent(items[k + 1..]) + Deliveries(more.frames)
  {
    hide ScanAll, Line, Framed, Deliveries, Quiet, Deliverable, Packed, Wire, Headerless, WithFrame, Sent,
      Message.Valid;
    var lost, later := items[k].noise + frame, Wire(items[k + 1..], tail);
    LineAround(items, k, frame, tail);
    LostSkipped(lost, later);
    CleanDelivers(items[..k], lost + later);
    LosslessThroughNoise(items[..k], lost + later);
    CleanDelivers(items[k + 1..], tail);
    LosslessThroughNoise(items[k + 1..], tail);
    Regrouped(Sent(items[..k]), Sent(items[k + 1..]), Deliveries(ScanAll(tail).frames));
  }

  lemma {:induction false} Regrouped<T>(a: seq<T>, b: seq<T>, c: seq<T>)
    ensures a + (b + c) == a + b + c
  {
  }

  /** The correct header of `s` stands in `t` with damage the CRC-16 is sure to show: an odd number
      of flipped bits, or any flips within 16 consecutive bits, the length flag apart. */
  ghost predicate HeaderDamaged(s: seq<Byte>, t: seq<Byte>) {
    IsHeader(s) && |t| == |s| && Flagged(t) == Flagged(s)
    && (OddWeight(Xor(BitsOf(s[..HeaderLength(s)]), BitsOf(t[..HeaderLength(s)])))
        || exists lo: nat, width: nat :: width <= 16 && HeadersDifferWithin(s, t, lo, width))
  }

  ghost predicate HeadersDifferWithin(s: seq<Byte>, t: seq<Byte>, lo: nat, width: nat)
    requires |s| >= 4 && |s| >= HeaderLength(s) && |t| == |s|
  {
    DifferWithin(s[..HeaderLength(s)], t[..HeaderLength(s)], lo, width)
  }

  lemma {:induction false} DamageRejected(s: seq<Byte>, t: seq<Byte>, later: seq<Byte>)
    requires HeaderDamaged(s, t)
    ensures !IsHeader(t + later)
  {
    hide IsHeader, OddWeight, BitsOf, DifferWithin;
    HeaderBegins(s);
    var h := HeaderLength(s);
    assert (t + later)[..h] == t[..h];
    if OddWeight(Xor(BitsOf(s[..h]), BitsOf(t[..h]))) {
      OddHeaderDamageRejected(s, t + later);
    } else {
      var lo: nat, width: nat :| width <= 16 && HeadersDifferWithin(s, t, lo, width);
      HeaderBurstRejected(s, t + later, lo, width);
    }
  }

  /** Of messages sent through quiet noise with one header damaged so, exactly that message is
      missing, provided no other correct header has come up in its place. */
  lemma {:induction false} OneDamagedHeader(items: seq<Item>, k: nat, frame: seq<Byte>, tail: seq<Byte>)
    requires Clean(items) && k < |items|
    requires HeaderDamaged(Serialize(items[k].message), frame)
    requires |Wire(items[k + 1..], tail)| >= 15
    requires
      var s, at := items[k].noise + frame + Wire(items[k + 1..], tail), |items[k].noise|;
      forall i :: 0 <= i < at + |frame| && i != at ==> !HeaderAt(s, i)
    ensures
      var r, more := ScanAll(Line(WithFrame(items, k, frame), tail)), ScanAll(tail);
      (forall f :: f in r.frames + more.frames ==> Framed(f)) && r.rest == more.rest
      && Deliveries(r.frames) == Sent(items[..k]) + Sent(items[k + 1..]) + Deliveries(more.frames)
  {
    hide ScanAll, Line, Framed, Deliveries, Quiet, Wire, WithFrame, Sent, IsHeader, Serialize, HeaderDamaged;
    var noise, later := items[k].noise, Wire(items[k + 1..], tail);
    DamageRejected(Serialize(items[k].message), frame, later);
    assert (noise + frame + later)[|noise|..] == frame + later;
    assert !HeaderAt(noise + frame + later, |noise|);
    OneLostMessage(items, k, frame, tail);
  }
}
