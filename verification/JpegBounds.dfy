// What the decoder is allowed: the coefficient buffer a progressive frame needs (ITU-T T.81,
// section A.1.1).

module JpegBounds {
  import opened JpegFrame
  import opened CeilingDivision

  function MaxH(sampling: seq<(nat, nat)>): nat
    requires sampling != []
  {
    if |sampling| == 1 then sampling[0].0
    else
      var rest := MaxH(sampling[1..]);
      if sampling[0].0 >= rest then sampling[0].0 else rest
  }

  function MaxV(sampling: seq<(nat, nat)>): nat
    requires sampling != []
  {
    if |sampling| == 1 then sampling[0].1
    else
      var rest := MaxV(sampling[1..]);
      if sampling[0].1 >= rest then sampling[0].1 else rest
  }

  /** Bytes of the components given, `across` by `down` MCUs. */
  function ComponentBytes(sampling: seq<(nat, nat)>, across: nat, down: nat): nat {
    if sampling == [] then 0
    else across * sampling[0].0 * (down * sampling[0].1) * 128 + ComponentBytes(sampling[1..], across, down)
  }

  /** MCUs along an axis of `size` samples with a largest sampling factor of `most`. */
  function Mcus(size: nat, most: nat): nat {
    if most == 0 then 0 else DivCeil(size, 8 * most)
  }

  function CoefficientBytes(frame: Frame): nat {
    if frame.sampling == [] then 0
    else
      ComponentBytes(frame.sampling,
        Mcus(frame.width, MaxH(frame.sampling)), Mcus(frame.height, MaxV(frame.sampling)))
  }

  // ---- One axis of one component -----------------------------------------------------------------

  /** The blocks the standard needs along an axis: the component's ceil(size * factor / most)
      samples, in whole blocks of eight. */
  function BlocksNeeded(size: nat, factor: nat, most: nat): nat
    requires most > 0
  {
    DivCeil(DivCeil(size * factor, most), 8)
  }

  lemma AxisHolds(size: nat, factor: nat, most: nat)
    requires 1 <= factor <= most
    ensures BlocksNeeded(size, factor, most) <= Mcus(size, most) * factor
  {
    var mcus := Mcus(size, most);
    DivCeilBounds(size, 8 * most);
    MulMonotone(size, mcus * (8 * most), factor);
    Regroup(mcus, 8, most, factor);
    DivCeilLeast(size * factor, most, mcus * factor * 8);
    DivCeilLeast(DivCeil(size * factor, most), 8, mcus * factor);
  }

  lemma AxisOvershoot(size: nat, factor: nat, most: nat)
    requires 1 <= factor <= most && size > 0
    ensures (Mcus(size, most) - 1) * factor < BlocksNeeded(size, factor, most)
  {
    var mcus, samples := Mcus(size, most), DivCeil(size * factor, most);
    DivCeilBounds(size, 8 * most);
    DivCeilBounds(size * factor, most);
    DivCeilBounds(samples, 8);
    MulStrict((mcus - 1) * (8 * most), size, factor);
    Regroup(mcus - 1, 8, most, factor);
    CancelFactor((mcus - 1) * factor * 8, samples, most);
    CancelFactor((mcus - 1) * factor, DivCeil(samples, 8), 8);
  }

  /** The buffer's blocks along an axis hold the component, and overshoot what it needs by less
      than one MCU's worth. */
  lemma AxisHoldsComponent(size: nat, factor: nat, most: nat)
    requires 1 <= factor <= most
    ensures BlocksNeeded(size, factor, most)
         <= Mcus(size, most) * factor
         < BlocksNeeded(size, factor, most) + factor
  {
    AxisHolds(size, factor, most);
    if size > 0 {
      AxisOvershoot(size, factor, most);
      assert (Mcus(size, most) - 1) * factor == Mcus(size, most) * factor - factor;
    } else {
      DivCeilBounds(0, 8 * most);
    }
  }

  // ---- The whole buffer -----------------------------------------------------------------------

  lemma {:induction false} FactorsUpToMax(sampling: seq<(nat, nat)>, c: (nat, nat))
    requires c in sampling
    ensures c.0 <= MaxH(sampling) && c.1 <= MaxV(sampling)
  {
    if c != sampling[0] {
      FactorsUpToMax(sampling[1..], c);
    }
  }

  /** What the components need: their own samples in whole blocks of 64 coefficients of two
      bytes. */
  function NeededBytes(sampling: seq<(nat, nat)>, width: nat, height: nat, h: nat, v: nat): nat
    requires h > 0 && v > 0
  {
    if sampling == [] then 0
    else
      BlocksNeeded(width, sampling[0].0, h) * BlocksNeeded(height, sampling[0].1, v) * 128
      + NeededBytes(sampling[1..], width, height, h, v)
  }

  lemma {:induction false} ComponentsHold(sampling: seq<(nat, nat)>, width: nat, height: nat, h: nat, v: nat)
    requires forall c :: c in sampling ==> 1 <= c.0 <= h && 1 <= c.1 <= v
    requires h > 0 && v > 0
    ensures NeededBytes(sampling, width, height, h, v)
         <= ComponentBytes(sampling, Mcus(width, h), Mcus(height, v))
  {
    if sampling != [] {
      var c := sampling[0];
      AxisHolds(width, c.0, h);
      AxisHolds(height, c.1, v);
      ProductBetween(BlocksNeeded(width, c.0, h), Mcus(width, h) * c.0,
                     BlocksNeeded(height, c.1, v), Mcus(height, v) * c.1);
      ComponentsHold(sampling[1..], width, height, h, v);
    }
  }

  /** The reckoned buffer holds every component of the frame. */
  lemma BufferHoldsEveryComponent(frame: Frame)
    requires frame.sampling != [] && GoodFactors(frame.sampling)
    ensures MaxH(frame.sampling) > 0 && MaxV(frame.sampling) > 0
    ensures NeededBytes(frame.sampling, frame.width, frame.height,
                        MaxH(frame.sampling), MaxV(frame.sampling))
         <= CoefficientBytes(frame)
  {
    forall c | c in frame.sampling ensures c.0 <= MaxH(frame.sampling) && c.1 <= MaxV(frame.sampling) {
      FactorsUpToMax(frame.sampling, c);
    }
    assert frame.sampling[0] in frame.sampling;
    ComponentsHold(frame.sampling, frame.width, frame.height, MaxH(frame.sampling), MaxV(frame.sampling));
  }

  /** The factors reckoned with are the largest of the frame's. */
  lemma {:induction false} MaxIsReached(sampling: seq<(nat, nat)>)
    requires sampling != []
    ensures exists c :: c in sampling && c.0 == MaxH(sampling)
    ensures exists c :: c in sampling && c.1 == MaxV(sampling)
  {
    if |sampling| > 1 {
      MaxIsReached(sampling[1..]);
      var c :| c in sampling[1..] && c.0 == MaxH(sampling[1..]);
      var d :| d in sampling[1..] && d.1 == MaxV(sampling[1..]);
      assert c in sampling && d in sampling;
    }
    assert sampling[0] in sampling;
  }

  /** The components' own blocks and less than one MCU more along each axis. */
  function PaddedBytes(sampling: seq<(nat, nat)>, width: nat, height: nat, h: nat, v: nat): nat
    requires h > 0 && v > 0
  {
    if sampling == [] then 0
    else
      128 * ((BlocksNeeded(width, sampling[0].0, h) + sampling[0].0)
             * (BlocksNeeded(height, sampling[0].1, v) + sampling[0].1))
      + PaddedBytes(sampling[1..], width, height, h, v)
  }

  lemma {:induction false} ComponentsOvershoot(sampling: seq<(nat, nat)>, width: nat, height: nat, h: nat, v: nat)
    requires forall c :: c in sampling ==> 1 <= c.0 <= h && 1 <= c.1 <= v
    requires h > 0 && v > 0
    ensures sampling != [] ==>
              ComponentBytes(sampling, Mcus(width, h), Mcus(height, v)) < PaddedBytes(sampling, width, height, h, v)
  {
    if sampling != [] {
      var c := sampling[0];
      AxisHoldsComponent(width, c.0, h);
      AxisHoldsComponent(height, c.1, v);
      ProductBelow(Mcus(width, h) * c.0, BlocksNeeded(width, c.0, h) + c.0,
                   Mcus(height, v) * c.1, BlocksNeeded(height, c.1, v) + c.1);
      ComponentsOvershoot(sampling[1..], width, height, h, v);
    }
  }

  /** The reckoned buffer is less than one MCU along each axis of each component too large. */
  lemma BufferOvershootsLittle(frame: Frame)
    requires frame.sampling != [] && GoodFactors(frame.sampling)
    ensures MaxH(frame.sampling) > 0 && MaxV(frame.sampling) > 0
    ensures CoefficientBytes(frame)
          < PaddedBytes(frame.sampling, frame.width, frame.height, MaxH(frame.sampling), MaxV(frame.sampling))
  {
    forall c | c in frame.sampling ensures c.0 <= MaxH(frame.sampling) && c.1 <= MaxV(frame.sampling) {
      FactorsUpToMax(frame.sampling, c);
    }
    assert frame.sampling[0] in frame.sampling;
    ComponentsOvershoot(frame.sampling, frame.width, frame.height, MaxH(frame.sampling), MaxV(frame.sampling));
  }

  /** Along an axis of whole MCUs the component needs every block reckoned. */
  lemma AxisExact(mcus: nat, factor: nat, most: nat)
    requires 1 <= factor <= most
    ensures Mcus(mcus * (8 * most), most) == mcus
    ensures BlocksNeeded(mcus * (8 * most), factor, most) == mcus * factor
  {
    DivCeilExact(mcus, 8 * most);
    Regroup(mcus, 8, most, factor);
    DivCeilExact(mcus * factor * 8, most);
    DivCeilExact(mcus * factor, 8);
  }

  lemma {:induction false} ComponentsExact(sampling: seq<(nat, nat)>, across: nat, down: nat, h: nat, v: nat)
    requires forall c :: c in sampling ==> 1 <= c.0 <= h && 1 <= c.1 <= v
    requires h > 0 && v > 0
    ensures NeededBytes(sampling, across * (8 * h), down * (8 * v), h, v)
         == ComponentBytes(sampling, across, down)
  {
    if sampling != [] {
      var c := sampling[0];
      AxisExact(across, c.0, h);
      AxisExact(down, c.1, v);
      ComponentsExact(sampling[1..], across, down, h, v);
    }
  }

  /** A frame of whole MCUs needs exactly the buffer reckoned. */
  lemma BufferIsExactForWholeMcus(frame: Frame, across: nat, down: nat)
    requires frame.sampling != [] && GoodFactors(frame.sampling)
    requires frame.width == across * (8 * MaxH(frame.sampling))
    requires frame.height == down * (8 * MaxV(frame.sampling))
    ensures MaxH(frame.sampling) > 0 && MaxV(frame.sampling) > 0
    ensures CoefficientBytes(frame)
         == NeededBytes(frame.sampling, frame.width, frame.height, MaxH(frame.sampling), MaxV(frame.sampling))
  {
    forall c | c in frame.sampling ensures c.0 <= MaxH(frame.sampling) && c.1 <= MaxV(frame.sampling) {
      FactorsUpToMax(frame.sampling, c);
    }
    assert frame.sampling[0] in frame.sampling;
    var h, v := MaxH(frame.sampling), MaxV(frame.sampling);
    AxisExact(across, h, h);
    AxisExact(down, v, v);
    ComponentsExact(frame.sampling, across, down, h, v);
  }

  const SAMPLING_420: seq<(nat, nat)> := [(2, 2), (1, 1), (1, 1)]

  lemma MaxOf420()
    ensures MaxH(SAMPLING_420) == 2 && MaxV(SAMPLING_420) == 2
  {
    assert SAMPLING_420[1..] == [(1, 1), (1, 1)] && [(1, 1), (1, 1)][1..] == [(1, 1)];
    assert MaxH([(1, 1)]) == 1 && MaxV([(1, 1)]) == 1;
    assert MaxH([(1, 1), (1, 1)]) == 1 && MaxV([(1, 1), (1, 1)]) == 1;
  }

  lemma BytesOf420()
    ensures ComponentBytes(SAMPLING_420, 200, 150) == 23_040_000
  {
    assert SAMPLING_420[1..] == [(1, 1), (1, 1)] && [(1, 1), (1, 1)][1..] == [(1, 1)] && [(1, 1)][1..] == [];
    assert ComponentBytes([], 200, 150) == 0;
    assert ComponentBytes([(1, 1)], 200, 150) == 3_840_000;
    assert ComponentBytes([(1, 1), (1, 1)], 200, 150) == 7_680_000;
  }

  /** 3200 by 2400 in 4:2:0, which the bound on progressive pictures is sized to admit. */
  lemma AdmittedPhoto()
    ensures CoefficientBytes(Frame(3200, 2400, Progressive, SAMPLING_420)) == 23_040_000
  {
    MaxOf420();
    BytesOf420();
    assert Mcus(3200, 2) == 200 && Mcus(2400, 2) == 150;
  }

  lemma {:induction false} ComponentBytesMonotone(sampling: seq<(nat, nat)>,
                                                  across: nat, across': nat, down: nat, down': nat)
    requires across <= across' && down <= down'
    ensures ComponentBytes(sampling, across, down) <= ComponentBytes(sampling, across', down')
  {
    if sampling != [] {
      var c := sampling[0];
      MulMonotone(across, across', c.0);
      MulMonotone(down, down', c.1);
      ProductBetween(across * c.0, across' * c.0, down * c.1, down' * c.1);
      ComponentBytesMonotone(sampling[1..], across, across', down, down');
    }
  }

  /** A wider or taller frame never needs less. */
  lemma BufferGrows(frame: Frame, larger: Frame)
    requires frame.sampling == larger.sampling
    requires frame.width <= larger.width && frame.height <= larger.height
    ensures CoefficientBytes(frame) <= CoefficientBytes(larger)
  {
    if frame.sampling != [] {
      var h, v := MaxH(frame.sampling), MaxV(frame.sampling);
      if h > 0 { DivCeilMonotone(frame.width, larger.width, 8 * h); }
      if v > 0 { DivCeilMonotone(frame.height, larger.height, 8 * v); }
      ComponentBytesMonotone(frame.sampling, Mcus(frame.width, h), Mcus(larger.width, h),
                             Mcus(frame.height, v), Mcus(larger.height, v));
    }
  }

  lemma McusBounded(size: nat, most: nat)
    requires size < 0x1_0000
    ensures Mcus(size, most) <= 8192
  {
    if most > 0 {
      assert 8192 * (8 * most) >= size;
      DivCeilLeast(size, 8 * most, 8192);
    }
  }

  lemma {:induction false} ComponentBytesBounded(sampling: seq<(nat, nat)>, across: nat, down: nat)
    requires GoodFactors(sampling)
    requires across <= 8192 && down <= 8192
    ensures ComponentBytes(sampling, across, down) <= |sampling| * 0x20_0000_0000
  {
    if sampling != [] {
      var c := sampling[0];
      ProductBetween(across, 8192, c.0, 4);
      ProductBetween(down, 8192, c.1, 4);
      ProductBetween(across * c.0, 32768, down * c.1, 32768);
      ComponentBytesBounded(sampling[1..], across, down);
    }
  }

  /** No frame a SOF segment can declare overflows 64 bits. */
  lemma BufferFits64Bits(marker: byte, segment: seq<byte>)
    requires ParseSof(marker, segment).Some?
    ensures CoefficientBytes(ParseSof(marker, segment).value) < 0x1_0000_0000_0000_0000
  {
    var frame := ParseSof(marker, segment).value;
    ParsedFrame(marker, segment);
    McusBounded(frame.width, MaxH(frame.sampling));
    McusBounded(frame.height, MaxV(frame.sampling));
    ComponentBytesBounded(frame.sampling, Mcus(frame.width, MaxH(frame.sampling)),
                          Mcus(frame.height, MaxV(frame.sampling)));
  }
}
