// The header of an uploaded JPEG (ITU-T T.81, annex B): the frame a SOF segment declares, and the
// grammar of the segments before the first scan.

module JpegFrame {
  import opened Prelude

  type byte = x: int | 0 <= x < 256

  function Word(high: byte, low: byte): nat {
    256 * (high as int) + low as int
  }

  datatype Coding = Sequential | Progressive | Lossless

  datatype Frame = Frame(width: nat, height: nat, coding: Coding, sampling: seq<(nat, nat)>)

  /** SOF0 to SOF15, but DHT, JPG and DAC. */
  predicate IsSof(m: byte) {
    0xC0 <= m <= 0xCF && m != 0xC4 && m != 0xC8 && m != 0xCC
  }

  function CodingOf(marker: byte): Coding {
    if marker in {0xC2, 0xC6, 0xCA, 0xCE} then Progressive
    else if marker in {0xC3, 0xC7, 0xCB, 0xCF} then Lossless
    else Sequential
  }

  /** The sampling factors of `count` components of three bytes each. */
  function Components(bytes: seq<byte>, count: nat): (sampling: seq<(nat, nat)>)
    requires |bytes| == 3 * count
    ensures |sampling| == count
  {
    if count == 0 then []
    else [(bytes[1] as int / 16, bytes[1] as int % 16)] + Components(bytes[3..], count - 1)
  }

  predicate GoodFactors(sampling: seq<(nat, nat)>) {
    forall c :: c in sampling ==> 1 <= c.0 <= 4 && 1 <= c.1 <= 4
  }

  function ParseSof(marker: byte, segment: seq<byte>): Option<Frame> {
    if |segment| < 6 || |segment| < 6 + 3 * (segment[5] as int) then None
    else
      var count := segment[5] as int;
      var sampling := Components(segment[6..6 + 3 * count], count);
      if sampling == [] || !GoodFactors(sampling) then None
      else Some(Frame(Word(segment[3], segment[4]), Word(segment[1], segment[2]),
                      CodingOf(marker), sampling))
  }

  /** What a frame that parses is known to satisfy. */
  lemma ParsedFrame(marker: byte, segment: seq<byte>)
    requires ParseSof(marker, segment).Some?
    ensures var frame := ParseSof(marker, segment).value;
            && frame.width < 0x1_0000 && frame.height < 0x1_0000
            && 1 <= |frame.sampling| <= 255 && GoodFactors(frame.sampling)
  {
  }
}

module JpegGrammar {
  import opened Prelude
  import opened JpegFrame

  const APP2: byte := 0xE2
  const EOI: byte := 0xD9
  const SOS: byte := 0xDA

  /** TEM and the restart markers: no length follows. */
  predicate IsStandalone(m: byte) {
    m == 0x01 || 0xD0 <= m <= 0xD7
  }

  predicate IsEnd(m: byte) {
    m == EOI || m == SOS
  }

  /** A marker a segment's length follows. */
  predicate StartsSegment(m: byte) {
    m != 0xFF && !IsStandalone(m) && !IsEnd(m)
  }

  datatype Item =
    | Fill
    | Standalone(marker: byte)
    | Segment(marker: byte, high: byte, low: byte, payload: seq<byte>)
  {
    predicate WellFormed() {
      match this
      case Fill => true
      case Standalone(m) => IsStandalone(m)
      case Segment(m, high, low, payload) => StartsSegment(m) && Word(high, low) == |payload| + 2
    }

    predicate IsIcc() {
      Segment? && marker == APP2
    }

    predicate IsFrame() {
      Segment? && IsSof(marker)
    }

    function Bytes(): seq<byte> {
      match this
      case Fill => [0xFF]
      case Standalone(m) => [0xFF, m]
      case Segment(m, high, low, payload) => [0xFF, m, high, low] + payload
    }

    function Size(): nat {
      match this
      case Fill => 1
      case Standalone(_) => 2
      case Segment(_, _, _, payload) => 4 + |payload|
    }
  }

  function BytesOf(items: seq<Item>): seq<byte> {
    if items == [] then [] else items[0].Bytes() + BytesOf(items[1..])
  }

  ghost predicate AllWellFormed(items: seq<Item>) {
    forall i :: i in items ==> i.WellFormed()
  }

  function WithoutIcc(items: seq<Item>): seq<Item> {
    if items == [] then []
    else (if items[0].IsIcc() then [] else [items[0]]) + WithoutIcc(items[1..])
  }

  /** Starts with an end of image or a start of scan. */
  predicate IsTail(s: seq<byte>) {
    |s| >= 2 && s[0] == 0xFF && IsEnd(s[1])
  }

  /** The item at the head of `s`, if there is one. */
  function ReadItem(s: seq<byte>): (item: Option<Item>)
    ensures item.Some? ==> item.value.Size() <= |s|
  {
    if |s| < 2 || s[0] != 0xFF || IsEnd(s[1]) then None
    else if s[1] == 0xFF then Some(Fill)
    else if IsStandalone(s[1]) then Some(Standalone(s[1]))
    else if |s| < 4 || Word(s[2], s[3]) < 2 || 2 + Word(s[2], s[3]) > |s| then None
    else Some(Segment(s[1], s[2], s[3], s[4..2 + Word(s[2], s[3])]))
  }

  datatype Walked = Stuck | Walked(items: seq<Item>, tail: seq<byte>)

  /** Items read before the rest was walked. */
  function After(items: seq<Item>, walked: Walked): Walked {
    match walked
    case Stuck => Stuck
    case Walked(more, tail) => Walked(items + more, tail)
  }

  /** The items of a header and its tail; stuck if a byte is out of place. */
  function Walk(s: seq<byte>): Walked
    decreases |s|
  {
    if IsTail(s) then Walked([], s)
    else match ReadItem(s)
      case None => Stuck
      case Some(item) => After([item], Walk(s[item.Size()..]))
  }

  // ---- Reading back what was spelled ---------------------------------------------------------

  lemma ItemBytes(s: seq<byte>)
    requires ReadItem(s).Some?
    ensures var item := ReadItem(s).value;
            item.WellFormed() && item.Bytes() == s[..item.Size()]
  {
  }

  lemma OneMoreItem(item: Item, items: seq<Item>, tail: seq<byte>)
    ensures BytesOf([item] + items) + tail == item.Bytes() + (BytesOf(items) + tail)
  {
    assert ([item] + items)[1..] == items;
  }

  lemma WalkSoundStep(s: seq<byte>, item: Item, items: seq<Item>, tail: seq<byte>)
    requires ReadItem(s) == Some(item)
    requires AllWellFormed(items) && BytesOf(items) + tail == s[item.Size()..]
    ensures AllWellFormed([item] + items) && BytesOf([item] + items) + tail == s
  {
    ItemBytes(s);
    OneMoreItem(item, items, tail);
    assert s == s[..item.Size()] + s[item.Size()..];
  }

  /** What is walked is well-formed, and spells the bytes it was read from. */
  lemma {:induction false} WalkSound(s: seq<byte>)
    requires Walk(s).Walked?
    ensures AllWellFormed(Walk(s).items) && IsTail(Walk(s).tail)
    ensures BytesOf(Walk(s).items) + Walk(s).tail == s
    decreases |s|
  {
    if !IsTail(s) {
      var item := ReadItem(s).value;
      var rest := s[item.Size()..];
      WalkSound(rest);
      WalkSoundStep(s, item, Walk(rest).items, Walk(rest).tail);
    }
  }

  lemma Unfold(items: seq<Item>, tail: seq<byte>)
    requires items != []
    ensures BytesOf(items) + tail == items[0].Bytes() + (BytesOf(items[1..]) + tail)
  {
  }

  lemma ReadItemReads(item: Item, rest: seq<byte>)
    requires item.WellFormed()
    requires item.Fill? ==> rest != [] && rest[0] == 0xFF
    ensures ReadItem(item.Bytes() + rest) == Some(item)
    ensures !IsTail(item.Bytes() + rest)
    ensures (item.Bytes() + rest)[item.Size()..] == rest
  {
    var s := item.Bytes() + rest;
    match item
    case Fill =>
    case Standalone(m) =>
    case Segment(m, high, low, payload) =>
      assert s[4..4 + |payload|] == payload;
  }

  lemma StartsWithFF(items: seq<Item>, tail: seq<byte>)
    requires IsTail(tail)
    ensures BytesOf(items) + tail != [] && (BytesOf(items) + tail)[0] == 0xFF
  {
  }

  /** The grammar is unambiguous: reading back what well-formed items and a tail spell gives
      those items and that tail. */
  lemma {:induction false} WalkReads(items: seq<Item>, tail: seq<byte>)
    requires AllWellFormed(items) && IsTail(tail)
    ensures Walk(BytesOf(items) + tail) == Walked(items, tail)
  {
    if items == [] {
      assert BytesOf(items) + tail == tail;
    } else {
      var item, more := items[0], items[1..];
      Unfold(items, tail);
      StartsWithFF(more, tail);
      ReadItemReads(item, BytesOf(more) + tail);
      WalkReads(more, tail);
      assert [item] + more == items;
    }
  }
}
