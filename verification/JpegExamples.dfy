// Small files, byte by byte, and the markers without length.

module JpegExamples {
  import opened Prelude
  import opened JpegFrame
  import opened JpegGrammar
  import opened JpegHeader
  import JpegPastScan

  const ONE_COMPONENT: seq<byte> := [8, 0x0B, 0xB8, 0x0F, 0xA0, 1, 1, 0x21, 0]

  const PHOTO: Frame := Frame(4000, 3000, Progressive, [(2, 1)])

  /** A fill byte, a restart marker, an APP2 segment of one byte, and a progressive frame of 4000
      by 3000. */
  function Early(): seq<Item> {
    [Fill, Standalone(0xD0)]
  }

  function Late(): seq<Item> {
    [Segment(0xE2, 0x00, 0x03, [0x2A]), Segment(0xC2, 0x00, 0x0B, ONE_COMPONENT)]
  }

  const BEFORE: seq<byte> := [0xFF, 0xFF, 0xD0]
  const PROFILE: seq<byte> := [0xFF, 0xE2, 0x00, 0x03, 0x2A]
  const FRAME: seq<byte> := [0xFF, 0xC2, 0x00, 0x0B, 8, 0x0B, 0xB8, 0x0F, 0xA0, 1, 1, 0x21, 0]

  lemma Unfolded(item: Item, items: seq<Item>)
    ensures BytesOf([item] + items) == item.Bytes() + BytesOf(items)
    ensures WithoutIcc([item] + items) == (if item.IsIcc() then [] else [item]) + WithoutIcc(items)
    ensures FrameOf([item] + items) == Then(Declares(item), FrameOf(items))
  {
    assert ([item] + items)[1..] == items;
  }

  lemma FrameParsed()
    ensures ParseSof(0xC2, ONE_COMPONENT) == Some(PHOTO)
  {
    assert ONE_COMPONENT[6..6 + 3 * 1] == [1, 0x21, 0];
    assert Components([1, 0x21, 0], 1) == [(2, 1)];
  }

  lemma OneItem(item: Item)
    ensures BytesOf([item]) == item.Bytes() && FrameOf([item]) == Declares(item)
    ensures !item.IsIcc() ==> WithoutIcc([item]) == [item]
  {
    Unfolded(item, []);
    assert [item] + [] == [item];
  }

  lemma LateIs()
    ensures BytesOf(Late()) == PROFILE + FRAME && WithoutIcc(Late()) == [Late()[1]]
    ensures BytesOf(WithoutIcc(Late())) == FRAME && FrameOf(Late()) == OneFrame(PHOTO)
  {
    var profile, frame := Late()[0], Late()[1];
    assert profile.Bytes() == PROFILE && frame.Bytes() == FRAME;
    FrameParsed();
    OneItem(frame);
    Unfolded(profile, [frame]);
    assert [profile] + [frame] == Late();
  }

  lemma BeforeThen(rest: seq<byte>)
    ensures [0xFF] + ([0xFF, 0xD0] + rest) == BEFORE + rest
  {
  }

  lemma EarlyThen(rest: seq<Item>)
    ensures Early() + rest == [Early()[0]] + ([Early()[1]] + rest)
  {
  }

  lemma EarlyIs(rest: seq<Item>)
    ensures BytesOf(Early() + rest) == BEFORE + BytesOf(rest)
    ensures WithoutIcc(Early() + rest) == Early() + WithoutIcc(rest)
    ensures FrameOf(Early() + rest) == FrameOf(rest)
  {
    Unfolded(Early()[1], rest);
    Unfolded(Early()[0], [Early()[1]] + rest);
    EarlyThen(rest);
    EarlyThen(WithoutIcc(rest));
    BeforeThen(BytesOf(rest));
  }

  lemma ItemsWellFormed()
    ensures AllWellFormed(Early() + Late())
  {
  }

  /** Ended by an end of image, the profile alone is cut and the frame read. */
  lemma ProfileIsCut()
    ensures Scanned([0xFF, 0xD8] + (BEFORE + (PROFILE + FRAME) + [0xFF, 0xD9]))
         == Ok(Header([0xFF, 0xD8] + (BEFORE + FRAME) + [0xFF, 0xD9], PHOTO))
  {
    LateIs();
    EarlyIs(Late());
    EarlyIs(WithoutIcc(Late()));
    ItemsWellFormed();
    ScannedExactly([0xFF, 0xD8] + (BEFORE + (PROFILE + FRAME) + [0xFF, 0xD9]), Early() + Late(), [0xFF, 0xD9]);
  }

  const SCAN: seq<byte> := [0xFF, 0xDA, 0x00, 0x02, 0x55, 0xFF, 0x00, 0xFF, 0xE2]

  lemma ScanHasIcc()
    ensures IsTail(SCAN) && IccPastScan(SCAN)
  {
    JpegPastScan.IccExactly(SCAN);
    assert SCAN[4..] == [0x55, 0xFF, 0x00, 0xFF, 0xE2];
    assert SCAN[4..][1..] == [0xFF, 0x00, 0xFF, 0xE2];
    assert SCAN[4..][1..][1..] == [0x00, 0xFF, 0xE2];
    assert SCAN[4..][1..][1..][1..] == [0xFF, 0xE2];
    assert JpegPastScan.IccIn([0xFF, 0xE2]);
    assert JpegPastScan.IccIn([0x00, 0xFF, 0xE2]);
    assert JpegPastScan.IccIn([0xFF, 0x00, 0xFF, 0xE2]);
    assert JpegPastScan.IccIn([0x55, 0xFF, 0x00, 0xFF, 0xE2]);
  }

  /** Past a start of scan the same profile refuses the file, stuffed data in between or not. */
  lemma ProfilePastScanIsRefused()
    ensures Scanned([0xFF, 0xD8] + (BEFORE + (PROFILE + FRAME) + SCAN)) == Err(ImageTooLarge)
  {
    LateIs();
    EarlyIs(Late());
    ItemsWellFormed();
    ScanHasIcc();
    ScannedExactly([0xFF, 0xD8] + (BEFORE + (PROFILE + FRAME) + SCAN), Early() + Late(), SCAN);
  }

  /** TEM and the eight restart markers from 0xD0 on, and no other, have no length. */
  lemma StandaloneMarkers(m: byte)
    ensures IsStandalone(m) <==> m == 1 || m as int / 8 == 0xD0 / 8
  {
  }
}
