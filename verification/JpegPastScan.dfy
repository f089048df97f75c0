// What follows the first start of scan: scans' data, the segments between them, and how an APP2
// marker is told from both.

module JpegPastScan {
  import opened JpegFrame
  import opened JpegGrammar

  /** A marker a length follows, past the first scan: a start of scan too. */
  predicate HasLength(m: byte) {
    m != 0x00 && m != 0xFF && !IsStandalone(m) && m != EOI && m != APP2
  }

  /** A byte of scan data; a stuffed zero or a marker without length; a fill byte; a segment; or a
      marker whose length says less than the two bytes it takes, read as that many. */
  datatype ScanItem =
    | Data(value: byte)
    | Escaped(marker: byte)
    | Fill
    | Segment(marker: byte, high: byte, low: byte, payload: seq<byte>)
    | Short(marker: byte, low: byte)
  {
    predicate WellFormed() {
      match this
      case Data(value) => value != 0xFF
      case Escaped(m) => m == 0x00 || IsStandalone(m)
      case Fill => true
      case Segment(m, high, low, payload) => HasLength(m) && Word(high, low) == |payload| + 2
      case Short(m, low) => HasLength(m) && low < 2
    }

    function Bytes(): seq<byte> {
      match this
      case Data(value) => [value]
      case Escaped(m) => [0xFF, m]
      case Fill => [0xFF]
      case Segment(m, high, low, payload) => [0xFF, m, high, low] + payload
      case Short(m, low) => if low == 0 then [0xFF, m] else [0xFF, m, 0x00]
    }

    /** What is read as this item only before certain bytes. */
    predicate Precedes(rest: seq<byte>) {
      match this
      case Fill => rest != [] && rest[0] == 0xFF
      case Short(_, low) => if low == 0 then [0x00, 0x00] <= rest else [0x01] <= rest
      case _ => true
    }
  }

  function BytesOf(items: seq<ScanItem>): seq<byte> {
    if items == [] then [] else items[0].Bytes() + BytesOf(items[1..])
  }

  /** `items` are what is read before `tail`. */
  ghost predicate ReadBefore(items: seq<ScanItem>, tail: seq<byte>) {
    items != [] ==>
      && items[0].WellFormed()
      && items[0].Precedes(BytesOf(items[1..]) + tail)
      && ReadBefore(items[1..], tail)
  }

  const ICC: seq<byte> := [0xFF, APP2]

  ghost predicate IccAfter(s: seq<byte>, items: seq<ScanItem>, rest: seq<byte>) {
    ReadBefore(items, ICC + rest) && s == BytesOf(items) + (ICC + rest)
  }

  /** Scans' data and segments that are not APP2, then an APP2 marker. */
  ghost predicate HasIcc(s: seq<byte>) {
    exists items, rest :: IccAfter(s, items, rest)
  }

  /** Whether an APP2 segment comes at or after the head of `s`, scans' data skipped. */
  function IccIn(s: seq<byte>): bool
    decreases |s|
  {
    if |s| < 2 then false
    else if s[0] != 0xFF then IccIn(s[1..])
    else if s[1] == 0x00 || s[1] == 0xFF || IsStandalone(s[1]) then IccIn(s[1..])
    else if s[1] == EOI then false
    else if s[1] == APP2 then true
    else if |s| < 4 then false
    else
      var skip := 2 + Word(s[2], s[3]);
      if skip > |s| then false else IccIn(s[skip..])
  }

  lemma ItemSkipped(item: ScanItem, rest: seq<byte>)
    requires item.WellFormed() && item.Precedes(rest)
    ensures IccIn(item.Bytes() + rest) == IccIn(rest)
  {
    var s := item.Bytes() + rest;
    match item
    case Data(_) => assert s[1..] == rest;
    case Escaped(m) =>
      assert s[1..] == [m] + rest;
      assert ([m] + rest)[1..] == rest;
    case Fill => assert s[1..] == rest;
    case Segment(_, _, _, payload) => assert s[4 + |payload|..] == rest;
    case Short(_, low) => assert s[2 + (low as int)..] == rest;
  }

  lemma {:induction false} IccReads(items: seq<ScanItem>, tail: seq<byte>)
    requires ReadBefore(items, tail)
    ensures IccIn(BytesOf(items) + tail) == IccIn(tail)
  {
    if items == [] {
      assert BytesOf(items) + tail == tail;
    } else {
      var rest := BytesOf(items[1..]) + tail;
      IccReads(items[1..], tail);
      ItemSkipped(items[0], rest);
      assert BytesOf(items) + tail == items[0].Bytes() + rest;
    }
  }

  lemma OneMoreBefore(item: ScanItem, items: seq<ScanItem>, s: seq<byte>, end: nat, rest: seq<byte>)
    requires end <= |s| && IccAfter(s[end..], items, rest)
    requires ReadAt(s, item, end)
    ensures IccAfter(s, [item] + items, rest)
  {
    assert ([item] + items)[1..] == items;
    assert s == item.Bytes() + s[end..];
  }

  /** The item skipped at the head of `s`, and where it ends. */
  function Skipped(s: seq<byte>): (ScanItem, nat)
    requires |s| >= 2 && IccIn(s) && s[..2] != ICC
  {
    if s[0] != 0xFF then (Data(s[0]), 1)
    else if s[1] == 0xFF then (ScanItem.Fill, 1)
    else if s[1] == 0x00 || IsStandalone(s[1]) then (Escaped(s[1]), 2)
    else
      var length := Word(s[2], s[3]);
      (if length < 2 then Short(s[1], s[3]) else ScanItem.Segment(s[1], s[2], s[3], s[4..2 + length]), 2 + length)
  }

  ghost predicate ReadAt(s: seq<byte>, item: ScanItem, end: nat) {
    && 0 < end <= |s| && item.WellFormed() && item.Bytes() == s[..end]
    && item.Precedes(s[end..])
  }

  lemma EscapedIsRead(s: seq<byte>)
    requires |s| >= 2 && s[0] == 0xFF && (s[1] == 0x00 || IsStandalone(s[1])) && IccIn(s)
    ensures ReadAt(s, Escaped(s[1]), 2) && IccIn(s[2..])
  {
    assert s[1..][1..] == s[2..];
  }

  lemma ShortIsRead(s: seq<byte>)
    requires |s| >= 4 && s[0] == 0xFF && HasLength(s[1]) && Word(s[2], s[3]) < 2
    ensures ReadAt(s, Short(s[1], s[3]), 2 + Word(s[2], s[3]))
  {
  }

  lemma SegmentIsRead(s: seq<byte>, end: nat)
    requires |s| >= 4 && s[0] == 0xFF && HasLength(s[1])
    requires end == 2 + Word(s[2], s[3]) && 4 <= end <= |s|
    ensures ReadAt(s, ScanItem.Segment(s[1], s[2], s[3], s[4..end]), end)
  {
  }

  lemma SkippedIsRead(s: seq<byte>)
    requires |s| >= 2 && IccIn(s) && s[..2] != ICC
    ensures ReadAt(s, Skipped(s).0, Skipped(s).1) && IccIn(s[Skipped(s).1..])
  {
    if s[0] == 0xFF && s[1] != 0xFF {
      if s[1] == 0x00 || IsStandalone(s[1]) {
        EscapedIsRead(s);
      } else {
        assert HasLength(s[1]) by { assert s[..2] == [s[0], s[1]]; }
        if Word(s[2], s[3]) < 2 {
          ShortIsRead(s);
        } else {
          SegmentIsRead(s, 2 + Word(s[2], s[3]));
        }
      }
    }
  }

  lemma {:induction false} IccFound(s: seq<byte>) returns (items: seq<ScanItem>, rest: seq<byte>)
    requires IccIn(s)
    ensures IccAfter(s, items, rest)
    decreases |s|
  {
    if s[..2] == ICC {
      items, rest := [], s[2..];
      assert s == BytesOf([]) + (ICC + rest);
    } else {
      var (item, end) := Skipped(s);
      SkippedIsRead(s);
      items, rest := IccFound(s[end..]);
      OneMoreBefore(item, items, s, end, rest);
      items := [item] + items;
    }
  }

  /** An APP2 marker is found exactly when scans' data and other segments lead up to one. */
  lemma IccExactly(s: seq<byte>)
    ensures IccIn(s) <==> HasIcc(s)
  {
    if IccIn(s) {
      var items, rest := IccFound(s);
    }
    forall items, rest | IccAfter(s, items, rest) ensures IccIn(s) {
      IccReads(items, ICC + rest);
    }
  }
}
