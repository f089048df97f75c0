// What a scan of a JPEG header answers: its frame, and the file without its ICC profile.

module JpegHeader {
  import opened Prelude
  import opened JpegFrame
  import opened JpegGrammar
  import JpegPastScan

  datatype AvatarError = Unreadable | ImageTooLarge

  /** What the SOF segments of a header declare: the last one counts, all must parse. */
  datatype Declared = NoFrame | BadFrame | OneFrame(frame: Frame)

  function Declares(item: Item): Declared {
    if !item.IsFrame() then NoFrame
    else match ParseSof(item.marker, item.payload)
      case None => BadFrame
      case Some(frame) => OneFrame(frame)
  }

  /** What two stretches of a header declare, one after the other. */
  function Then(first: Declared, second: Declared): Declared {
    if first.BadFrame? || second.NoFrame? then first else second
  }

  function FrameOf(items: seq<Item>): Declared {
    if items == [] then NoFrame else Then(Declares(items[0]), FrameOf(items[1..]))
  }

  datatype Header = Header(kept: seq<byte>, frame: Frame)

  const SOI: seq<byte> := [0xFF, 0xD8]

  /** A start of scan, with an APP2 segment past it. */
  ghost predicate IccPastScan(tail: seq<byte>) {
    |tail| >= 2 && tail[1] == SOS && JpegPastScan.HasIcc(tail)
  }

  /** What a scan answers for a header of `items` and `tail`. */
  ghost function Answer(items: seq<Item>, tail: seq<byte>): Result<Header, AvatarError> {
    match FrameOf(items)
    case BadFrame => Err(Unreadable)
    case declared =>
      if IccPastScan(tail) then Err(ImageTooLarge)
      else match declared
        case OneFrame(frame) => Ok(Header(SOI + BytesOf(WithoutIcc(items)) + tail, frame))
        case _ => Err(Unreadable)
  }

  ghost function Scanned(bytes: seq<byte>): Result<Header, AvatarError> {
    if !(SOI <= bytes) then Err(Unreadable)
    else match Walk(bytes[2..])
      case Stuck => Err(Unreadable)
      case Walked(items, tail) => Answer(items, tail)
  }

  /** `bytes` is a header of `items` followed by `tail`. */
  ghost predicate Spells(bytes: seq<byte>, items: seq<Item>, tail: seq<byte>) {
    AllWellFormed(items) && IsTail(tail) && bytes == SOI + (BytesOf(items) + tail)
  }

  ghost predicate IsHeader(bytes: seq<byte>) {
    exists items, tail :: Spells(bytes, items, tail)
  }

  lemma AfterSoi(content: seq<byte>)
    ensures SOI <= SOI + content && (SOI + content)[2..] == content
  {
  }

  /** A file that spells a header is answered on its items and tail: it is accepted exactly
      when its SOF segments parse, one is there, and no ICC segment comes past the first scan.
      What is kept is the file minus exactly the header's APP2 segments. */
  lemma ScannedExactly(bytes: seq<byte>, items: seq<Item>, tail: seq<byte>)
    requires Spells(bytes, items, tail)
    ensures Scanned(bytes) == Answer(items, tail)
  {
    WalkReads(items, tail);
    AfterSoi(BytesOf(items) + tail);
  }

  /** A file that spells no header is unreadable. */
  lemma RefusedOutsideTheGrammar(bytes: seq<byte>)
    requires !IsHeader(bytes)
    ensures Scanned(bytes) == Err(Unreadable)
  {
    if SOI <= bytes && Walk(bytes[2..]).Walked? {
      WalkSound(bytes[2..]);
      var w := Walk(bytes[2..]);
      assert bytes == SOI + bytes[2..];
      assert Spells(bytes, w.items, w.tail);
    }
  }

  lemma {:induction false} FrameWithoutIcc(items: seq<Item>)
    ensures FrameOf(WithoutIcc(items)) == FrameOf(items)
  {
    if items != [] {
      FrameWithoutIcc(items[1..]);
      if items[0].IsIcc() {
        assert WithoutIcc(items) == WithoutIcc(items[1..]);
      } else {
        assert WithoutIcc(items)[1..] == WithoutIcc(items[1..]);
      }
    }
  }

  lemma {:induction false} WithoutIccMembers(items: seq<Item>)
    ensures forall i :: i in WithoutIcc(items) <==> i in items && !i.IsIcc()
  {
    if items != [] {
      WithoutIccMembers(items[1..]);
      assert forall i :: i in items <==> i == items[0] || i in items[1..];
    }
  }

  lemma {:induction false} NothingToCut(items: seq<Item>)
    requires forall i :: i in items ==> !i.IsIcc()
    ensures WithoutIcc(items) == items
  {
    if items != [] {
      NothingToCut(items[1..]);
    }
  }

  /** Scanning what a scan kept gives the same frame and drops nothing more. */
  lemma ScanIsIdempotent(bytes: seq<byte>)
    requires Scanned(bytes).Ok?
    ensures Scanned(Scanned(bytes).value.kept) == Scanned(bytes)
  {
    var w := Walk(bytes[2..]);
    var kept := WithoutIcc(w.items);
    WalkSound(bytes[2..]);
    FrameWithoutIcc(w.items);
    WithoutIccMembers(w.items);
    NothingToCut(kept);
    assert SOI + BytesOf(kept) + w.tail == SOI + (BytesOf(kept) + w.tail);
    ScannedExactly(SOI + BytesOf(kept) + w.tail, kept, w.tail);
  }
}
