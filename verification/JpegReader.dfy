// What the decoder reads of an accepted JPEG.

module JpegReader {
  import opened JpegFrame
  import opened JpegScan

  /** The kept slices of a header, read in a row. */
  class Pieces {
    var pieces: seq<seq<byte>>
    var current: seq<byte>

    constructor (kept: seq<seq<byte>>)
      ensures Remaining() == Flatten(kept)
    {
      pieces, current := if kept == [] then [] else kept[1..], if kept == [] then [] else kept[0];
    }

    ghost function Remaining(): seq<byte>
      reads this
    {
      current + Flatten(pieces)
    }

    /** Serves as much of what remains as the current slice holds and the buffer takes: nothing
        only at the end, or into no buffer. */
    method Read(buf: array<byte>) returns (n: nat)
      modifies this, buf
      ensures n <= buf.Length && n <= |old(Remaining())|
      ensures Remaining() == old(Remaining())[n..]
      ensures buf[..n] == old(Remaining())[..n]
      ensures buf[n..] == old(buf[n..])
      ensures n == 0 <==> buf.Length == 0 || old(Remaining()) == []
    {
      while current == []
        invariant Remaining() == old(Remaining())
        invariant buf[..] == old(buf[..])
        decreases |pieces|
      {
        if pieces == [] {
          return 0;
        }
        current, pieces := pieces[0], pieces[1..];
      }
      n := if |current| <= buf.Length then |current| else buf.Length;
      forall i | 0 <= i < n {
        buf[i] := current[i];
      }
      current := current[n..];
    }

    /** Reads into buffers of the given sizes, one after the other. */
    method ReadInto(sizes: seq<nat>) returns (read: seq<byte>)
      modifies this
      ensures read + Remaining() == old(Remaining())
      ensures (forall size :: size in sizes ==> size > 0) && |sizes| >= |old(Remaining())| ==>
                read == old(Remaining())
    {
      read := [];
      for i := 0 to |sizes|
        invariant read + Remaining() == old(Remaining())
        invariant (forall size :: size in sizes ==> size > 0) ==> |read| >= i || Remaining() == []
      {
        var buf := new byte[sizes[i]](_ => 0);
        ghost var before := Remaining();
        var n := this.Read(buf);
        assert buf[..n] + before[n..] == before;
        assert sizes[i] in sizes;
        Regroup(read, buf[..n], before[n..]);
        read := read + buf[..n];
      }
    }
  }
}
