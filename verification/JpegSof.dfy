// How a SOF segment spells its frame (ITU-T T.81, section B.2.2), independently of how it is
// parsed.

module JpegSof {
  import opened Prelude
  import opened JpegFrame

  /** A component's identifier, sampling factors and quantisation table. */
  datatype Component = Component(id: byte, h: nat, v: nat, table: byte)

  ghost predicate Good(components: seq<Component>) {
    && 1 <= |components| <= 255
    && forall i :: 0 <= i < |components| ==> 1 <= components[i].h <= 4 && 1 <= components[i].v <= 4
  }

  function Triples(components: seq<Component>): seq<byte>
    requires forall i :: 0 <= i < |components| ==> components[i].h < 16 && components[i].v < 16
  {
    if components == [] then []
    else
      var c := components[0];
      [c.id, (16 * c.h + c.v) as byte, c.table] + Triples(components[1..])
  }

  /** Precision, number of lines, samples per line, number of components, components. */
  function Spelled(precision: byte, height: nat, width: nat, components: seq<Component>): seq<byte>
    requires height < 0x1_0000 && width < 0x1_0000 && |components| <= 255
    requires forall i :: 0 <= i < |components| ==> components[i].h < 16 && components[i].v < 16
  {
    [precision,
     (height / 256) as byte, (height % 256) as byte,
     (width / 256) as byte, (width % 256) as byte,
     |components| as byte]
    + Triples(components)
  }

  function Factors(components: seq<Component>): seq<(nat, nat)> {
    seq(|components|, i requires 0 <= i < |components| => (components[i].h, components[i].v))
  }

  /** SOF0 to SOF15 without the multiples of four but the first, which are DHT, JPG and DAC; the
      last two bits say the coding. */
  lemma SofMarkers(m: byte)
    ensures IsSof(m) <==> 0xC0 <= m <= 0xCF && (m as int % 4 != 0 || m == 0xC0)
    ensures IsSof(m) ==> (CodingOf(m) == Progressive <==> m as int % 4 == 2)
    ensures IsSof(m) ==> (CodingOf(m) == Lossless <==> m as int % 4 == 3)
  {
  }

  lemma {:induction false} TriplesLength(components: seq<Component>)
    requires forall i :: 0 <= i < |components| ==> components[i].h < 16 && components[i].v < 16
    ensures |Triples(components)| == 3 * |components|
  {
    if components != [] {
      TriplesLength(components[1..]);
    }
  }

  lemma {:induction false} TriplesRead(components: seq<Component>)
    requires forall i :: 0 <= i < |components| ==> components[i].h < 16 && components[i].v < 16
    requires |Triples(components)| == 3 * |components|
    ensures Components(Triples(components), |components|) == Factors(components)
  {
    if components != [] {
      var c, bytes := components[0], Triples(components);
      TriplesLength(components[1..]);
      TriplesRead(components[1..]);
      assert bytes[3..] == Triples(components[1..]);
      assert bytes[1] as int == 16 * c.h + c.v;
      assert Factors(components) == [(c.h, c.v)] + Factors(components[1..]);
    }
  }

  lemma WordsRead(n: nat)
    requires n < 0x1_0000
    ensures Word((n / 256) as byte, (n % 256) as byte) == n
  {
  }

  /** What a frame spells parses to that frame, whatever follows its components. */
  lemma SpelledParses(marker: byte, precision: byte, height: nat, width: nat,
                      components: seq<Component>, extra: seq<byte>)
    requires height < 0x1_0000 && width < 0x1_0000 && Good(components)
    ensures ParseSof(marker, Spelled(precision, height, width, components) + extra)
         == Some(Frame(width, height, CodingOf(marker), Factors(components)))
  {
    var count := |components|;
    var segment := Spelled(precision, height, width, components) + extra;
    TriplesLength(components);
    TriplesRead(components);
    WordsRead(height);
    WordsRead(width);
    assert segment[6..6 + 3 * count] == Triples(components);
    GoodRead(components);
  }

  lemma GoodRead(components: seq<Component>)
    ensures Good(components) ==> GoodFactors(Factors(components)) && Factors(components) != []
  {
  }

  /** Each three bytes are a component with factors below sixteen. */
  lemma {:induction false} TriplesSpelled(bytes: seq<byte>, count: nat) returns (components: seq<Component>)
    requires |bytes| == 3 * count
    ensures |components| == count && Factors(components) == Components(bytes, count)
    ensures forall i :: 0 <= i < |components| ==> components[i].h < 16 && components[i].v < 16
    ensures Triples(components) == bytes
  {
    if count == 0 {
      components := [];
    } else {
      var rest := TriplesSpelled(bytes[3..], count - 1);
      var c := Component(bytes[0], bytes[1] as int / 16, bytes[1] as int % 16, bytes[2]);
      components := [c] + rest;
      assert components[1..] == rest;
      assert Factors(components) == [(c.h, c.v)] + Factors(rest);
      assert bytes == [bytes[0], bytes[1], bytes[2]] + bytes[3..];
    }
  }

  lemma WordSpelled(high: byte, low: byte)
    ensures Word(high, low) < 0x1_0000
    ensures Word(high, low) / 256 == high as int && Word(high, low) % 256 == low as int
  {
  }

  /** The six bytes before the components. */
  lemma HeadSpelled(segment: seq<byte>, components: seq<Component>)
    requires |segment| >= 6 && |components| == segment[5] as int
    requires forall i :: 0 <= i < |components| ==> components[i].h < 16 && components[i].v < 16
    ensures Word(segment[1], segment[2]) < 0x1_0000 && Word(segment[3], segment[4]) < 0x1_0000
    ensures Spelled(segment[0], Word(segment[1], segment[2]), Word(segment[3], segment[4]), components)
         == segment[..6] + Triples(components)
  {
    WordSpelled(segment[1], segment[2]);
    WordSpelled(segment[3], segment[4]);
  }

  lemma GoodSpelled(components: seq<Component>)
    requires 1 <= |components| <= 255 && GoodFactors(Factors(components))
    ensures Good(components)
  {
    forall i | 0 <= i < |components| ensures 1 <= components[i].h <= 4 && 1 <= components[i].v <= 4 {
      assert Factors(components)[i] in Factors(components);
    }
  }

  lemma ThreeParts(segment: seq<byte>, n: nat, m: nat)
    requires n <= m <= |segment|
    ensures segment == segment[..n] + segment[n..m] + segment[m..]
  {
  }

  /** A segment that parses is spelled by the frame it parses to. */
  lemma ParsedSpells(marker: byte, segment: seq<byte>)
    returns (precision: byte, components: seq<Component>, extra: seq<byte>)
    requires ParseSof(marker, segment).Some?
    ensures var frame := ParseSof(marker, segment).value;
            && frame.width < 0x1_0000 && frame.height < 0x1_0000
            && Good(components) && Factors(components) == frame.sampling
            && frame.coding == CodingOf(marker)
            && segment == Spelled(precision, frame.height, frame.width, components) + extra
  {
    var count := segment[5] as int;
    precision, extra := segment[0], segment[6 + 3 * count..];
    components := TriplesSpelled(segment[6..6 + 3 * count], count);
    GoodSpelled(components);
    HeadSpelled(segment, components);
    ThreeParts(segment, 6, 6 + 3 * count);
  }

  ghost predicate SpelledBy(segment: seq<byte>, frame: Frame, precision: byte,
                            components: seq<Component>, extra: seq<byte>) {
    && frame.height < 0x1_0000 && frame.width < 0x1_0000
    && Good(components) && Factors(components) == frame.sampling
    && segment == Spelled(precision, frame.height, frame.width, components) + extra
  }

  ghost predicate Spells(segment: seq<byte>, frame: Frame) {
    exists precision, components, extra :: SpelledBy(segment, frame, precision, components, extra)
  }

  /** A segment parses exactly when it spells a frame, to that frame in its marker's coding. */
  lemma ParsesExactly(marker: byte, segment: seq<byte>, frame: Frame)
    ensures ParseSof(marker, segment) == Some(frame)
       <==> Spells(segment, frame) && frame.coding == CodingOf(marker)
  {
    if ParseSof(marker, segment) == Some(frame) {
      var precision, components, extra := ParsedSpells(marker, segment);
      assert SpelledBy(segment, frame, precision, components, extra);
    }
    forall precision, components, extra | SpelledBy(segment, frame, precision, components, extra)
      ensures ParseSof(marker, segment) == Some(frame.(coding := CodingOf(marker)))
    {
      SpelledParses(marker, precision, frame.height, frame.width, components, extra);
    }
  }
}
