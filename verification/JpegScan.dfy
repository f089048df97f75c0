// The scan as it runs: positions advanced in loops, slices pushed as segments are cut.

module JpegScan {
  import opened Prelude
  import opened JpegFrame
  import opened JpegGrammar
  import opened JpegHeader
  import JpegPastScan

  /** What the scan returns: the kept bytes as slices to read in a row. */
  datatype Slices = Slices(kept: seq<seq<byte>>, frame: Frame)

  function Flatten(pieces: seq<seq<byte>>): seq<byte> {
    if pieces == [] then [] else pieces[0] + Flatten(pieces[1..])
  }

  lemma {:induction false} FlattenAppend(pieces: seq<seq<byte>>, piece: seq<byte>)
    ensures Flatten(pieces + [piece]) == Flatten(pieces) + piece
  {
    if pieces == [] {
      assert [piece][1..] == [];
    } else {
      assert (pieces + [piece])[1..] == pieces[1..] + [piece];
      FlattenAppend(pieces[1..], piece);
    }
  }

  lemma {:induction false} BytesAppend(items: seq<Item>, item: Item)
    ensures BytesOf(items + [item]) == BytesOf(items) + item.Bytes()
  {
    if items == [] {
      assert items + [item] == [item];
      assert BytesOf([item][1..]) == [];
    } else {
      assert (items + [item])[1..] == items[1..] + [item];
      BytesAppend(items[1..], item);
    }
  }

  lemma {:induction false} WithoutIccAppend(items: seq<Item>, item: Item)
    ensures WithoutIcc(items + [item]) == WithoutIcc(items) + (if item.IsIcc() then [] else [item])
  {
    if items == [] {
      assert items + [item] == [item];
      assert [item][1..] == [];
    } else {
      assert (items + [item])[1..] == items[1..] + [item];
      WithoutIccAppend(items[1..], item);
    }
  }

  lemma {:induction false} FrameJoin(items: seq<Item>, more: seq<Item>)
    ensures FrameOf(items + more) == Then(FrameOf(items), FrameOf(more))
  {
    if items == [] {
      assert items + more == more;
    } else {
      assert (items + more)[1..] == items[1..] + more;
      FrameJoin(items[1..], more);
    }
  }

  // ---- How far the scan got ------------------------------------------------------------------

  /** The items read so far, and the walk still to do. */
  ghost predicate ReadSoFar(bytes: seq<byte>, pos: nat, items: seq<Item>) {
    2 <= pos <= |bytes| && SOI <= bytes && Walk(bytes[2..]) == After(items, Walk(bytes[pos..]))
  }

  lemma AfterAfter(items: seq<Item>, item: Item, walked: Walked)
    ensures After(items, After([item], walked)) == After(items + [item], walked)
  {
    match walked
    case Stuck =>
    case Walked(more, _) => assert items + ([item] + more) == items + [item] + more;
  }

  lemma ReadOne(bytes: seq<byte>, pos: nat, items: seq<Item>, item: Item, end: nat)
    requires ReadSoFar(bytes, pos, items) && end == pos + item.Size()
    requires !IsTail(bytes[pos..]) && ReadItem(bytes[pos..]) == Some(item)
    ensures ReadSoFar(bytes, end, items + [item])
  {
    assert bytes[pos..][item.Size()..] == bytes[end..];
    AfterAfter(items, item, Walk(bytes[end..]));
  }

  /** What the slices pushed so far and the slice still open hold, against the items read. */
  ghost predicate KeptSoFar(open: seq<byte>, items: seq<Item>, kept: seq<seq<byte>>) {
    Flatten(kept) + open == SOI + BytesOf(WithoutIcc(items))
  }

  lemma Regroup(a: seq<byte>, b: seq<byte>, c: seq<byte>)
    ensures a + (b + c) == (a + b) + c
  {
  }

  lemma KeepItem(open: seq<byte>, items: seq<Item>, kept: seq<seq<byte>>, item: Item)
    requires KeptSoFar(open, items, kept) && !item.IsIcc()
    ensures KeptSoFar(open + item.Bytes(), items + [item], kept)
  {
    WithoutIccAppend(items, item);
    BytesAppend(WithoutIcc(items), item);
    Regroup(Flatten(kept), open, item.Bytes());
    Regroup(SOI, BytesOf(WithoutIcc(items)), item.Bytes());
  }

  lemma CutItem(open: seq<byte>, items: seq<Item>, kept: seq<seq<byte>>, item: Item)
    requires KeptSoFar(open, items, kept) && item.IsIcc()
    ensures KeptSoFar([], items + [item], kept + [open])
  {
    WithoutIccAppend(items, item);
    assert WithoutIcc(items) + [] == WithoutIcc(items);
    FlattenAppend(kept, open);
    assert Flatten(kept + [open]) + [] == Flatten(kept) + open;
  }

  lemma LastSlice(bytes: seq<byte>, from: nat, pos: nat, items: seq<Item>, kept: seq<seq<byte>>)
    requires from <= pos <= |bytes|
    requires KeptSoFar(bytes[from..pos], items, kept)
    ensures Flatten(kept + [bytes[from..]]) == SOI + BytesOf(WithoutIcc(items)) + bytes[pos..]
  {
    FlattenAppend(kept, bytes[from..]);
    assert bytes[from..] == bytes[from..pos] + bytes[pos..];
    Regroup(Flatten(kept), bytes[from..pos], bytes[pos..]);
  }

  /** What was read, what was kept of it, and the frame it declared. */
  ghost predicate Progress(bytes: seq<byte>, pos: nat, items: seq<Item>,
                           kept: seq<seq<byte>>, keptFrom: nat, declared: Declared) {
    && keptFrom <= pos
    && ReadSoFar(bytes, pos, items)
    && KeptSoFar(bytes[keptFrom..pos], items, kept)
    && declared == FrameOf(items) && !declared.BadFrame?
  }

  lemma ProgressStart(bytes: seq<byte>)
    requires SOI <= bytes
    ensures Progress(bytes, 2, [], [], 0, NoFrame)
  {
    assert bytes[0..2] == SOI;
    match Walk(bytes[2..])
    case Stuck =>
    case Walked(items, _) => assert [] + items == items;
  }

  lemma FrameOne(items: seq<Item>, item: Item)
    ensures FrameOf(items + [item]) == Then(FrameOf(items), Declares(item))
  {
    FrameJoin(items, [item]);
    assert FrameOf([item][1..]) == NoFrame;
  }

  lemma KeepSlice(bytes: seq<byte>, from: nat, pos: nat, end: nat,
                  items: seq<Item>, kept: seq<seq<byte>>, item: Item)
    requires from <= pos <= end <= |bytes| && bytes[pos..end] == item.Bytes()
    requires KeptSoFar(bytes[from..pos], items, kept) && !item.IsIcc()
    ensures KeptSoFar(bytes[from..end], items + [item], kept)
  {
    assert bytes[from..end] == bytes[from..pos] + bytes[pos..end];
    KeepItem(bytes[from..pos], items, kept, item);
  }

  lemma CutSlice(bytes: seq<byte>, from: nat, pos: nat, end: nat,
                 items: seq<Item>, kept: seq<seq<byte>>, item: Item)
    requires from <= pos <= end <= |bytes|
    requires KeptSoFar(bytes[from..pos], items, kept) && item.IsIcc()
    ensures KeptSoFar(bytes[end..end], items + [item], kept + [bytes[from..pos]])
  {
    assert bytes[end..end] == [];
    CutItem(bytes[from..pos], items, kept, item);
  }

  /** An item that is kept. */
  lemma ProgressKeep(bytes: seq<byte>, pos: nat, items: seq<Item>, kept: seq<seq<byte>>,
                     keptFrom: nat, declared: Declared, item: Item, end: nat, declared': Declared)
    requires Progress(bytes, pos, items, kept, keptFrom, declared)
    requires HeadIs(bytes, pos, item) && !item.IsIcc() && end == pos + item.Size()
    requires declared' == Then(declared, Declares(item)) && !declared'.BadFrame?
    ensures Progress(bytes, end, items + [item], kept, keptFrom, declared')
  {
    HeadReads(bytes, pos, item);
    ReadOne(bytes, pos, items, item, end);
    FrameOne(items, item);
    KeepSlice(bytes, keptFrom, pos, end, items, kept, item);
  }

  /** An ICC segment, cut out. */
  lemma ProgressCut(bytes: seq<byte>, pos: nat, items: seq<Item>, kept: seq<seq<byte>>,
                    keptFrom: nat, declared: Declared, item: Item, end: nat)
    requires Progress(bytes, pos, items, kept, keptFrom, declared)
    requires HeadIs(bytes, pos, item) && item.IsIcc() && end == pos + item.Size()
    ensures Progress(bytes, end, items + [item], kept + [bytes[keptFrom..pos]], end, declared)
  {
    HeadReads(bytes, pos, item);
    ReadOne(bytes, pos, items, item, end);
    FrameOne(items, item);
    CutSlice(bytes, keptFrom, pos, end, items, kept, item);
  }

  // ---- The head of what is left ---------------------------------------------------------------

  /** The item at `pos`, read in place. */
  ghost predicate HeadIs(bytes: seq<byte>, pos: nat, item: Item) {
    && pos + 2 <= |bytes| && bytes[pos] == 0xFF
    && match item
       case Fill => bytes[pos + 1] == 0xFF
       case Standalone(m) => bytes[pos + 1] == m && IsStandalone(m)
       case Segment(m, high, low, payload) =>
         && bytes[pos + 1] == m && StartsSegment(m)
         && pos + 4 <= |bytes| && bytes[pos + 2] == high && bytes[pos + 3] == low
         && var end := pos + 2 + Word(high, low);
            pos + 4 <= end <= |bytes| && payload == bytes[pos + 4..end]
  }

  lemma HeadReads(bytes: seq<byte>, pos: nat, item: Item)
    requires HeadIs(bytes, pos, item)
    ensures pos + item.Size() <= |bytes|
    ensures !IsTail(bytes[pos..]) && ReadItem(bytes[pos..]) == Some(item)
    ensures bytes[pos..pos + item.Size()] == item.Bytes()
  {
    var s := bytes[pos..];
    assert s[..item.Size()] == bytes[pos..pos + item.Size()];
    if item.Segment? {
      assert s[4..item.Size()] == item.payload;
    }
  }

  /** Nothing of a header at `pos`. */
  ghost predicate HeadIsNothing(bytes: seq<byte>, pos: nat) {
    || pos + 2 > |bytes| || bytes[pos] != 0xFF
    || (&& StartsSegment(bytes[pos + 1])
        && (pos + 4 > |bytes|
            || Word(bytes[pos + 2], bytes[pos + 3]) < 2
            || pos + 2 + Word(bytes[pos + 2], bytes[pos + 3]) > |bytes|))
  }

  lemma ScanStuck(bytes: seq<byte>, pos: nat, items: seq<Item>)
    requires ReadSoFar(bytes, pos, items) && HeadIsNothing(bytes, pos)
    ensures Scanned(bytes) == Err(Unreadable)
  {
    assert ReadItem(bytes[pos..]).None? && !IsTail(bytes[pos..]);
  }

  lemma BadForever(items: seq<Item>, rest: Walked)
    requires FrameOf(items).BadFrame?
    ensures After(items, rest).Walked? ==> FrameOf(After(items, rest).items).BadFrame?
  {
    if rest.Walked? {
      FrameJoin(items, rest.items);
    }
  }

  /** A SOF segment that does not parse makes the file unreadable, whatever follows. */
  lemma ScanBad(bytes: seq<byte>, pos: nat, items: seq<Item>, item: Item, end: nat)
    requires ReadSoFar(bytes, pos, items) && HeadIs(bytes, pos, item) && end == pos + item.Size()
    requires !FrameOf(items).BadFrame? && Declares(item).BadFrame?
    ensures Scanned(bytes) == Err(Unreadable)
  {
    HeadReads(bytes, pos, item);
    ReadOne(bytes, pos, items, item, end);
    FrameOne(items, item);
    BadForever(items + [item], Walk(bytes[end..]));
  }

  lemma ScanEnd(bytes: seq<byte>, pos: nat, items: seq<Item>)
    requires ReadSoFar(bytes, pos, items) && IsTail(bytes[pos..])
    ensures Scanned(bytes) == Answer(items, bytes[pos..])
  {
    assert items + [] == items;
  }

  // ---- What each way through the loop needs ---------------------------------------------------

  lemma ProgressSof(bytes: seq<byte>, pos: nat, items: seq<Item>, kept: seq<seq<byte>>,
                    keptFrom: nat, declared: Declared, item: Item, end: nat, frame: Frame)
    requires Progress(bytes, pos, items, kept, keptFrom, declared)
    requires HeadIs(bytes, pos, item) && item.IsFrame() && end == pos + item.Size()
    requires ParseSof(item.marker, item.payload) == Some(frame)
    ensures Progress(bytes, end, items + [item], kept, keptFrom, OneFrame(frame))
  {
    ProgressKeep(bytes, pos, items, kept, keptFrom, declared, item, end, OneFrame(frame));
  }

  lemma ProgressOther(bytes: seq<byte>, pos: nat, items: seq<Item>, kept: seq<seq<byte>>,
                      keptFrom: nat, declared: Declared, item: Item, end: nat)
    requires Progress(bytes, pos, items, kept, keptFrom, declared)
    requires HeadIs(bytes, pos, item) && !item.IsFrame() && !item.IsIcc() && end == pos + item.Size()
    ensures Progress(bytes, end, items + [item], kept, keptFrom, declared)
  {
    ProgressKeep(bytes, pos, items, kept, keptFrom, declared, item, end, declared);
  }

  lemma ProgressFill(bytes: seq<byte>, pos: nat, items: seq<Item>, kept: seq<seq<byte>>,
                     keptFrom: nat, declared: Declared)
    requires Progress(bytes, pos, items, kept, keptFrom, declared)
    requires pos + 2 <= |bytes| && bytes[pos] == 0xFF && bytes[pos + 1] == 0xFF
    ensures Progress(bytes, pos + 1, items + [Fill], kept, keptFrom, declared)
  {
    ProgressOther(bytes, pos, items, kept, keptFrom, declared, Fill, pos + 1);
  }

  lemma ProgressStandalone(bytes: seq<byte>, pos: nat, items: seq<Item>, kept: seq<seq<byte>>,
                           keptFrom: nat, declared: Declared)
    requires Progress(bytes, pos, items, kept, keptFrom, declared)
    requires pos + 2 <= |bytes| && bytes[pos] == 0xFF && IsStandalone(bytes[pos + 1])
    ensures Progress(bytes, pos + 2, items + [Standalone(bytes[pos + 1])], kept, keptFrom, declared)
  {
    ProgressOther(bytes, pos, items, kept, keptFrom, declared, Standalone(bytes[pos + 1]), pos + 2);
  }

  lemma ScanUnparsed(bytes: seq<byte>, pos: nat, items: seq<Item>, kept: seq<seq<byte>>,
                     keptFrom: nat, declared: Declared, item: Item)
    requires Progress(bytes, pos, items, kept, keptFrom, declared)
    requires HeadIs(bytes, pos, item) && item.IsFrame() && ParseSof(item.marker, item.payload).None?
    ensures Scanned(bytes) == Err(Unreadable)
  {
    ScanBad(bytes, pos, items, item, pos + item.Size());
  }

  lemma ScanTooLarge(bytes: seq<byte>, pos: nat, items: seq<Item>, kept: seq<seq<byte>>,
                     keptFrom: nat, declared: Declared)
    requires Progress(bytes, pos, items, kept, keptFrom, declared)
    requires IsTail(bytes[pos..]) && bytes[pos + 1] == SOS && JpegPastScan.IccIn(bytes[pos..])
    ensures Scanned(bytes) == Err(ImageTooLarge)
  {
    JpegPastScan.IccExactly(bytes[pos..]);
    ScanEnd(bytes, pos, items);
  }

  lemma ScanDone(bytes: seq<byte>, pos: nat, items: seq<Item>, kept: seq<seq<byte>>,
                 keptFrom: nat, declared: Declared)
    requires Progress(bytes, pos, items, kept, keptFrom, declared)
    requires IsTail(bytes[pos..]) && !(bytes[pos + 1] == SOS && JpegPastScan.IccIn(bytes[pos..]))
    ensures Scanned(bytes) ==
            if declared.NoFrame? then Err(Unreadable)
            else Ok(Header(Flatten(kept + [bytes[keptFrom..]]), declared.frame))
  {
    JpegPastScan.IccExactly(bytes[pos..]);
    ScanEnd(bytes, pos, items);
    LastSlice(bytes, keptFrom, pos, items, kept);
  }

  method IccPast(bytes: seq<byte>, start: nat) returns (found: bool)
    requires start <= |bytes|
    ensures found == JpegPastScan.IccIn(bytes[start..])
  {
    var pos := start;
    while pos + 1 < |bytes|
      invariant start <= pos
      invariant JpegPastScan.IccIn(bytes[start..]) == (pos <= |bytes| && JpegPastScan.IccIn(bytes[pos..]))
      decreases |bytes| - pos
    {
      ghost var s := bytes[pos..];
      assert s[1..] == bytes[pos + 1..];
      if bytes[pos] != 0xFF {
        pos := pos + 1;
        continue;
      }
      var marker := bytes[pos + 1];
      if marker == 0x00 || marker == 0xFF || IsStandalone(marker) {
        pos := pos + 1;
      } else if marker == EOI {
        return false;
      } else if marker == APP2 {
        return true;
      } else if pos + 4 <= |bytes| {
        var skip := 2 + Word(bytes[pos + 2], bytes[pos + 3]);
        assert skip <= |s| ==> s[skip..] == bytes[pos + skip..];
        pos := pos + skip;
      } else {
        return false;
      }
    }
    return false;
  }

  /** The scan's answer with its slices joined. */
  function Joined(r: Result<Slices, AvatarError>): Result<Header, AvatarError> {
    match r
    case Ok(slices) => Ok(Header(Flatten(slices.kept), slices.frame))
    case Err(e) => Err(e)
  }

  method ScanHeader(bytes: seq<byte>) returns (r: Result<Slices, AvatarError>)
    ensures Joined(r) == Scanned(bytes)
    ensures r.Ok? ==> r.value.kept != []
  {
    if !(SOI <= bytes) {
      return Err(Unreadable);
    }
    var kept: seq<seq<byte>>, keptFrom, frame: Declared, pos := [], 0, NoFrame, 2;
    ghost var items: seq<Item> := [];
    ProgressStart(bytes);
    while true
      invariant Progress(bytes, pos, items, kept, keptFrom, frame)
      decreases |bytes| - pos
    {
      // Fill bytes before a marker.
      while pos + 2 <= |bytes| && bytes[pos] == 0xFF && bytes[pos + 1] == 0xFF
        invariant Progress(bytes, pos, items, kept, keptFrom, frame)
        decreases |bytes| - pos
      {
        ProgressFill(bytes, pos, items, kept, keptFrom, frame);
        items := items + [Fill];
        pos := pos + 1;
      }
      if !(pos + 2 <= |bytes| && bytes[pos] == 0xFF) {
        ScanStuck(bytes, pos, items);
        return Err(Unreadable);
      }
      var marker := bytes[pos + 1];
      if IsStandalone(marker) {
        ProgressStandalone(bytes, pos, items, kept, keptFrom, frame);
        items := items + [Standalone(marker)];
        pos := pos + 2;
        continue;
      }
      if marker == EOI {
        break;
      }
      if marker == SOS {
        var icc := IccPast(bytes, pos);
        if icc {
          ScanTooLarge(bytes, pos, items, kept, keptFrom, frame);
          return Err(ImageTooLarge);
        }
        break;
      }
      if pos + 4 > |bytes| {
        ScanStuck(bytes, pos, items);
        return Err(Unreadable);
      }
      var length := Word(bytes[pos + 2], bytes[pos + 3]);
      var end := pos + 2 + length;
      if length < 2 || end > |bytes| {
        ScanStuck(bytes, pos, items);
        return Err(Unreadable);
      }
      ghost var item := Segment(marker, bytes[pos + 2], bytes[pos + 3], bytes[pos + 4..end]);
      assert HeadIs(bytes, pos, item) && end == pos + item.Size();
      if marker == APP2 {
        ProgressCut(bytes, pos, items, kept, keptFrom, frame, item, end);
        kept := kept + [bytes[keptFrom..pos]];
        keptFrom := end;
      } else if IsSof(marker) {
        var parsed := ParseSof(marker, bytes[pos + 4..end]);
        if parsed.None? {
          ScanUnparsed(bytes, pos, items, kept, keptFrom, frame, item);
          return Err(Unreadable);
        }
        ProgressSof(bytes, pos, items, kept, keptFrom, frame, item, end, parsed.value);
        frame := OneFrame(parsed.value);
      } else {
        ProgressOther(bytes, pos, items, kept, keptFrom, frame, item, end);
      }
      items := items + [item];
      pos := end;
    }
    ScanDone(bytes, pos, items, kept, keptFrom, frame);
    kept := kept + [bytes[keptFrom..]];
    if frame.NoFrame? {
      return Err(Unreadable);
    }
    return Ok(Slices(kept, frame.frame));
  }
}
