/**
 Pickled effects, byte for byte.
*/
module EffectExample {
  import opened Basics
  import opened NetworkOrder
  import opened EffectPickle

  const Drop: Shadow := Shadow(0x1122_3344, 9, 5, 90, 195, 301, 4660, 1)
  const Inner: Shadow := Shadow(0xFF00_0080, 3, 2, 7, 255, 45, 5, 0)
  const Outer: Glow := Glow(0x102_0304, 15, 7, 1, 2, 200, 1)
  const Within: Glow := Glow(0xA0B0_C0D0, 0, 1, 128, 64, 3, 0)
  const Overlay: Layer := Layer(0xA0B_0C0D, 11)

  const DropBytes: seq<byte> := [17, 34, 51, 68, 154, 181, 135, 45, 36, 105]
  const InnerBytes: seq<byte> := [255, 0, 0, 128, 52, 15, 254, 45, 0, 10]
  const OuterBytes: seq<byte> := [1, 2, 3, 4, 254, 2, 5, 145]
  const WithinBytes: seq<byte> := [160, 176, 192, 208, 3, 0, 128, 6]
  const OverlayBytes: seq<byte> := [10, 11, 12, 13, 176]

  function All(mask: nat): Effects
  {
    Effects(mask, Drop, Inner, Outer, Within, Overlay)
  }

  /** The bytes of one shadow. */
  lemma ShadowBytes(s: Shadow, shape: nat, offset: nat)
    requires s.Fits()
    requires shape == s.blend * 0x1000_0000 + s.filter * 0x200_0000 + s.size * 0x2_0000 + s.spread * 0x200 + s.angle
    requires offset == s.distance * 2 + s.knockout
    ensures s.Pickled() == Bytes(s.color, 4) + Bytes(shape, 4) + Bytes(offset, 2)
  {
    hide Bytes;
  }

  lemma GlowBytes(g: Glow, shape: nat)
    requires g.Fits()
    requires shape == g.blend * 0x1000_0000 + g.filter * 0x200_0000 + g.size * 0x2_0000 + g.spread * 0x200
                      + g.range * 2 + g.source
    ensures g.Pickled() == Bytes(g.color, 4) + Bytes(shape, 4)
  {
    hide Bytes;
  }

  lemma DropIs()
    ensures Drop.Fits() && Drop.Pickled() == DropBytes
  {
    hide Bytes;
    ShadowBytes(Drop, 2595587885, 9321);
    NumberBytes(17, 34, 51, 68);
    NumberBytes(154, 181, 135, 45);
    NumberBytes(36, 105, 0, 0);
  }

  lemma InnerIs()
    ensures Inner.Fits() && Inner.Pickled() == InnerBytes
  {
    hide Bytes;
    ShadowBytes(Inner, 873463341, 10);
    NumberBytes(255, 0, 0, 128);
    NumberBytes(52, 15, 254, 45);
    NumberBytes(0, 10, 0, 0);
  }

  lemma OuterIs()
    ensures Outer.Fits() && Outer.Pickled() == OuterBytes
  {
    hide Bytes;
    GlowBytes(Outer, 4261545361);
    NumberBytes(1, 2, 3, 4);
    NumberBytes(254, 2, 5, 145);
  }

  lemma WithinIs()
    ensures Within.Fits() && Within.Pickled() == WithinBytes
  {
    hide Bytes;
    GlowBytes(Within, 50364422);
    NumberBytes(160, 176, 192, 208);
    NumberBytes(3, 0, 128, 6);
  }

  lemma OverlayIs()
    ensures Overlay.Fits() && Overlay.Pickled() == OverlayBytes
  {
    hide Bytes;
    NumberBytes(10, 11, 12, 13);
    NumberBytes(176, 0, 0, 0);
  }

  /** The header, and which of the effects a mask has. */
  lemma MaskBytes(mask: nat, size: byte, m: byte)
    requires mask == m as int && mask < 32
    ensures All(mask).Fits() && All(mask).Pickled(size as int) == [0, size, 0, m] + All(mask).Body()
  {
    hide Bytes, Shadow.Pickled, Glow.Pickled, Layer.Pickled, Effects.Body, Shadow.Fits, Glow.Fits, Layer.Fits;
    DropIs();
    InnerIs();
    OuterIs();
    WithinIs();
    OverlayIs();
    NumberBytes(0, size, 0, 0);
    NumberBytes(0, m, 0, 0);
  }

  lemma BodyBytes(mask: nat)
    requires mask < 32
    ensures All(mask).Fits()
    ensures All(mask).Body()
         == If(Has(mask, 1), DropBytes) + If(Has(mask, 4), OuterBytes) + If(Has(mask, 2), InnerBytes)
            + If(Has(mask, 8), WithinBytes) + If(Has(mask, 16), OverlayBytes)
  {
    hide Bytes, Shadow.Pickled, Glow.Pickled, Layer.Pickled, Shadow.Fits, Glow.Fits, Layer.Fits, Has;
    DropIs();
    InnerIs();
    OuterIs();
    WithinIs();
    OverlayIs();
  }

  /** The bit of a mask that stands for an effect, and the effects in their order. */
  lemma EffectBytes()
    ensures All(1).Fits() && All(1).Pickled(14) == [0, 14, 0, 1] + DropBytes
    ensures All(2).Fits() && All(2).Pickled(14) == [0, 14, 0, 2] + InnerBytes
    ensures All(4).Fits() && All(4).Pickled(12) == [0, 12, 0, 4] + OuterBytes
    ensures All(8).Fits() && All(8).Pickled(12) == [0, 12, 0, 8] + WithinBytes
    ensures All(16).Fits() && All(16).Pickled(9) == [0, 9, 0, 16] + OverlayBytes
    ensures All(31).Fits()
    ensures All(31).Pickled(45)
         == [0, 45, 0, 31] + DropBytes + OuterBytes + InnerBytes + WithinBytes + OverlayBytes
  {
    hide Effects.Pickled, Effects.Fits;
    DropAlone();
    InnerAlone();
    OuterAlone();
    WithinAlone();
    OverlayAlone();
    Together();
  }

  lemma DropAlone()
    ensures All(1).Fits() && All(1).Pickled(14) == [0, 14, 0, 1] + DropBytes
  {
    hide Effects.Pickled, Effects.Body, Effects.Fits, DropBytes, OuterBytes, InnerBytes, WithinBytes, OverlayBytes;
    MaskBytes(1, 14, 1);
    BodyBytes(1);
  }

  lemma InnerAlone()
    ensures All(2).Fits() && All(2).Pickled(14) == [0, 14, 0, 2] + InnerBytes
  {
    hide Effects.Pickled, Effects.Body, Effects.Fits, DropBytes, OuterBytes, InnerBytes, WithinBytes, OverlayBytes;
    MaskBytes(2, 14, 2);
    BodyBytes(2);
  }

  lemma OuterAlone()
    ensures All(4).Fits() && All(4).Pickled(12) == [0, 12, 0, 4] + OuterBytes
  {
    hide Effects.Pickled, Effects.Body, Effects.Fits, DropBytes, OuterBytes, InnerBytes, WithinBytes, OverlayBytes;
    MaskBytes(4, 12, 4);
    BodyBytes(4);
  }

  lemma WithinAlone()
    ensures All(8).Fits() && All(8).Pickled(12) == [0, 12, 0, 8] + WithinBytes
  {
    hide Effects.Pickled, Effects.Body, Effects.Fits, DropBytes, OuterBytes, InnerBytes, WithinBytes, OverlayBytes;
    MaskBytes(8, 12, 8);
    BodyBytes(8);
  }

  lemma OverlayAlone()
    ensures All(16).Fits() && All(16).Pickled(9) == [0, 9, 0, 16] + OverlayBytes
  {
    hide Effects.Pickled, Effects.Body, Effects.Fits, DropBytes, OuterBytes, InnerBytes, WithinBytes, OverlayBytes;
    MaskBytes(16, 9, 16);
    BodyBytes(16);
  }

  lemma Together()
    ensures All(31).Fits()
    ensures All(31).Pickled(45)
         == [0, 45, 0, 31] + DropBytes + OuterBytes + InnerBytes + WithinBytes + OverlayBytes
  {
    hide Effects.Pickled, Effects.Body, Effects.Fits, DropBytes, OuterBytes, InnerBytes, WithinBytes, OverlayBytes;
    MaskBytes(31, 45, 31);
    BodyBytes(31);
  }

  /** Written through a stream. */
  method PickleAll() returns (data: seq<byte>)
    ensures data == [0, 45, 0, 31] + DropBytes + OuterBytes + InnerBytes + WithinBytes + OverlayBytes
  {
    hide Effects.Pickled, Effects.Fits, EffectPickle.Effects.Body, Shadow.Pickled, Glow.Pickled, Layer.Pickled;
    EffectBytes();
    var stream := new ObjectOutputStream();
    SpanIsLength(All(31), 0);
    SpanIsLength(All(31), 45);
    Pickle(All(31), stream);
    data := stream.data;
  }
}
