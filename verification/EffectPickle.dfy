/**
 Bitmap effects packed into bit fields and written to an object stream, and read back.
*/
module EffectPickle {
  import opened Basics
  import opened NetworkOrder

  class ObjectOutputStream {
    var data: seq<byte>

    constructor ()
      ensures data == []
    {
      data := [];
    }

    /** WriteU8, WriteU16, WriteU32: k is 1, 2, 4 */
    method Write(n: nat, k: nat)
      modifies this
      ensures data == old(data) + Bytes(n, k)
    {
      data := data + Bytes(n, k);
    }
  }

  class ObjectInputStream {
    const data: seq<byte>
    var ptr: nat

    constructor (data: seq<byte>)
      ensures this.data == data && ptr == 0
    {
      this.data, ptr := data, 0;
    }

    predicate Holds(count: nat)
      reads this
    {
      ptr + count <= |data|
    }

    /** ReadU8, ReadU16, ReadU32 */
    method Read(k: nat) returns (ok: bool, n: nat)
      requires ptr <= |data|
      modifies this
      ensures ok == old(Holds(k)) && ptr <= |data|
      ensures ok ==> ptr == old(ptr) + k && n == Unsigned(data[old(ptr)..old(ptr) + k])
    {
      ok, n := Holds(k), 0;
      if ok { n := Unsigned(data[ptr..ptr + k]); }
      ptr := if ok then ptr + k else |data|;
    }

    method Skip(count: nat) returns (ok: bool)
      requires ptr <= |data|
      modifies this
      ensures ok == old(Holds(count)) && ptr <= |data|
      ensures ok ==> ptr == old(ptr) + count
    {
      ok := Holds(count);
      ptr := if ok then ptr + count else |data|;
    }
  }

  /** One field shifted up to its place and or-ed with the fields below, which end below it. */
  function Over(high: nat, place: nat, low: nat): nat
    requires low < place
  {
    high * place + low
  }

  datatype Shadow = Shadow(color: nat, blend: nat, filter: nat, size: nat, spread: nat, angle: nat, distance: nat,
                           knockout: nat)
  {
    /** The widths of the bit fields. */
    predicate Fits()
    {
      && color < WORD && blend < 16 && filter < 8 && size < 256 && spread < 256
      && angle < 512 && distance < 0x8000 && knockout < 2
    }

    function Shape(): (w: nat)
      requires Fits()
      ensures w < WORD
    {
      Over(blend, 0x1000_0000, Over(filter, 0x200_0000, Over(size, 0x2_0000, Over(spread, 0x200, angle))))
    }

    function Offset(): (w: nat)
      requires Fits()
      ensures w < U16_LIMIT
    {
      Over(distance, 2, knockout)
    }

    function Pickled(): (b: seq<byte>)
      requires Fits()
      ensures |b| == SHADOW_SIZE
    {
      Bytes(color, 4) + Bytes(Shape(), 4) + Bytes(Offset(), 2)
    }
  }

  datatype Glow = Glow(color: nat, blend: nat, filter: nat, size: nat, spread: nat, range: nat, source: nat)
  {
    predicate Fits()
    {
      color < WORD && blend < 16 && filter < 8 && size < 256 && spread < 256 && range < 256 && source < 2
    }

    function Shape(): (w: nat)
      requires Fits()
      ensures w < WORD
    {
      Over(blend, 0x1000_0000,
           Over(filter, 0x200_0000, Over(size, 0x2_0000, Over(spread, 0x200, Over(range, 2, source)))))
    }

    function Pickled(): (b: seq<byte>)
      requires Fits()
      ensures |b| == GLOW_SIZE
    {
      Bytes(color, 4) + Bytes(Shape(), 4)
    }
  }

  datatype Layer = Layer(color: nat, blend: nat)
  {
    predicate Fits() { color < WORD && blend < 16 }

    function Pickled(): (b: seq<byte>)
      requires Fits()
      ensures |b| == LAYER_SIZE
    {
      Bytes(color, 4) + Bytes(blend * 16, 1)
    }
  }

  const LAYER_SIZE: nat := 5
  const SHADOW_SIZE: nat := 10
  const GLOW_SIZE: nat := 8

  /** The field of a word at a place, as wide as it has values. */
  function Field(w: nat, place: nat, width: nat): nat
    requires place > 0 && width > 0
  {
    w / place % width
  }

  function ShadowOf(color: nat, shape: nat, offset: nat): Shadow
  {
    Shadow(color, Field(shape, 0x1000_0000, 16), Field(shape, 0x200_0000, 8), Field(shape, 0x2_0000, 256),
           Field(shape, 0x200, 256), Field(shape, 1, 0x200), Field(offset, 2, 0x8000), Field(offset, 1, 2))
  }

  function GlowOf(color: nat, shape: nat): Glow
  {
    Glow(color, Field(shape, 0x1000_0000, 16), Field(shape, 0x200_0000, 8), Field(shape, 0x2_0000, 256),
         Field(shape, 0x200, 256), Field(shape, 2, 256), Field(shape, 1, 2))
  }

  function LayerOf(color: nat, flags: nat): Layer
  {
    Layer(color, flags / 16)
  }

  lemma Times(a: nat, b: nat, c: nat)
    requires a <= b
    ensures a * c <= b * c
  {
  }

  lemma QuotientIs(x: nat, d: nat, q: nat, r: nat)
    requires r < d && x == q * d + r
    ensures x / d == q && x % d == r
  {
    var p := x / d;
    assert x == p * d + x % d;
    if p < q {
      Times(p + 1, q, d);
    } else if q < p {
      Times(q + 1, p, d);
    }
  }

  /** A field between others, where the ones below end below its place, and it below theirs above. */
  lemma FieldOf(w: nat, place: nat, width: nat, above: nat, field: nat, low: nat)
    requires low < place && field < width
    requires w == (above * width + field) * place + low
    ensures Field(w, place, width) == field
  {
    QuotientIs(w, place, above * width + field, low);
    QuotientIs(above * width + field, width, above, field);
  }

  /** The four fields that shadows and glows have in common, above low. */
  lemma UpperFields(w: nat, blend: nat, filter: nat, size: nat, spread: nat, low: nat)
    requires blend < 16 && filter < 8 && size < 256 && spread < 256 && low < 0x200
    requires w == blend * 0x1000_0000 + filter * 0x200_0000 + size * 0x2_0000 + spread * 0x200 + low
    ensures Field(w, 0x1000_0000, 16) == blend && Field(w, 0x200_0000, 8) == filter
    ensures Field(w, 0x2_0000, 256) == size && Field(w, 0x200, 256) == spread
  {
    hide Field;
    var below := size * 0x2_0000 + spread * 0x200 + low;
    FieldOf(w, 0x1000_0000, 16, 0, blend, filter * 0x200_0000 + below);
    FieldOf(w, 0x200_0000, 8, blend, filter, below);
    FieldOf(w, 0x2_0000, 256, blend * 8 + filter, size, spread * 0x200 + low);
    FieldOf(w, 0x200, 256, blend * 0x800 + filter * 0x100 + size, spread, low);
  }

  /** Every field comes back from its place in the words. */
  lemma ShadowFields(s: Shadow)
    requires s.Fits()
    ensures ShadowOf(s.color, s.Shape(), s.Offset()) == s
  {
    hide Field;
    UpperFields(s.Shape(), s.blend, s.filter, s.size, s.spread, s.angle);
    FieldOf(s.Shape(), 1, 0x200, s.blend * 0x8_0000 + s.filter * 0x1_0000 + s.size * 0x100 + s.spread, s.angle, 0);
    FieldOf(s.Offset(), 2, 0x8000, 0, s.distance, s.knockout);
    FieldOf(s.Offset(), 1, 2, s.distance, s.knockout, 0);
  }

  lemma GlowFields(g: Glow)
    requires g.Fits()
    ensures GlowOf(g.color, g.Shape()) == g
  {
    hide Field;
    UpperFields(g.Shape(), g.blend, g.filter, g.size, g.spread, g.range * 2 + g.source);
    var above := g.blend * 0x8_0000 + g.filter * 0x1_0000 + g.size * 0x100 + g.spread;
    FieldOf(g.Shape(), 2, 256, above, g.range, g.source);
    FieldOf(g.Shape(), 1, 2, above * 256 + g.range, g.source, 0);
  }

  const DROP_SHADOW: nat := 1
  const INNER_SHADOW: nat := 2
  const OUTER_GLOW: nat := 4
  const INNER_GLOW: nat := 8
  const COLOR_OVERLAY: nat := 16

  predicate Has(mask: nat, bit: nat)
    requires bit > 0
  {
    mask / bit % 2 == 1
  }

  function If(here: bool, b: seq<byte>): seq<byte> { if here then b else [] }

  function Size(mask: nat, bit: nat, size: nat): nat
    requires bit > 0
  {
    if Has(mask, bit) then size else 0
  }

  /** The effects of an object: those in the mask, and in no particular state the others. */
  datatype Effects = Effects(mask: nat, dropShadow: Shadow, innerShadow: Shadow, outerGlow: Glow, innerGlow: Glow,
                             colorOverlay: Layer)
  {
    predicate Fits()
    {
      && mask < U16_LIMIT && dropShadow.Fits() && innerShadow.Fits() && outerGlow.Fits() && innerGlow.Fits()
      && colorOverlay.Fits()
    }

    /** The bytes of the effects in the mask. */
    function Body(): seq<byte>
      requires Fits()
    {
      If(Has(mask, DROP_SHADOW), dropShadow.Pickled()) + If(Has(mask, OUTER_GLOW), outerGlow.Pickled())
      + If(Has(mask, INNER_SHADOW), innerShadow.Pickled()) + If(Has(mask, INNER_GLOW), innerGlow.Pickled())
      + If(Has(mask, COLOR_OVERLAY), colorOverlay.Pickled())
    }

    /** All of it, after a declared size. */
    function Pickled(declared: nat): seq<byte>
      requires Fits()
    {
      Bytes(declared, 2) + Bytes(mask, 2) + Body()
    }

    /** The same effects are there, and are the same. */
    predicate Same(other: Effects)
    {
      && mask == other.mask
      && (Has(mask, DROP_SHADOW) ==> dropShadow == other.dropShadow)
      && (Has(mask, INNER_SHADOW) ==> innerShadow == other.innerShadow)
      && (Has(mask, OUTER_GLOW) ==> outerGlow == other.outerGlow)
      && (Has(mask, INNER_GLOW) ==> innerGlow == other.innerGlow)
      && (Has(mask, COLOR_OVERLAY) ==> colorOverlay == other.colorOverlay)
    }
  }

  /** MCBitmapEffectsWeigh */
  method Weigh(e: Effects) returns (size: nat)
    requires e.Fits()
    ensures size == |e.Pickled(size)| < U16_LIMIT
  {
    size := 4;
    if Has(e.mask, DROP_SHADOW) { size := size + SHADOW_SIZE; }
    if Has(e.mask, OUTER_GLOW) { size := size + GLOW_SIZE; }
    if Has(e.mask, INNER_SHADOW) { size := size + SHADOW_SIZE; }
    if Has(e.mask, INNER_GLOW) { size := size + GLOW_SIZE; }
    if Has(e.mask, COLOR_OVERLAY) { size := size + LAYER_SIZE; }
  }

  method PickleLayer(here: bool, e: Layer, stream: ObjectOutputStream)
    requires e.Fits()
    modifies stream
    ensures stream.data == old(stream.data) + If(here, e.Pickled())
  {
    if !here {
      return;
    }
    hide Bytes;
    assert stream.data + Bytes(e.color, 4) + Bytes(e.blend * 16, 1) == stream.data + e.Pickled();
    stream.Write(e.color, 4);
    stream.Write(e.blend * 16, 1);
  }

  method PickleShadow(here: bool, e: Shadow, stream: ObjectOutputStream)
    requires e.Fits()
    modifies stream
    ensures stream.data == old(stream.data) + If(here, e.Pickled())
  {
    if !here {
      return;
    }
    hide Bytes, Shadow.Shape, Shadow.Offset;
    assert stream.data + Bytes(e.color, 4) + Bytes(e.Shape(), 4) + Bytes(e.Offset(), 2) == stream.data + e.Pickled();
    stream.Write(e.color, 4);
    stream.Write(e.Shape(), 4);
    stream.Write(e.Offset(), 2);
  }

  method PickleGlow(here: bool, e: Glow, stream: ObjectOutputStream)
    requires e.Fits()
    modifies stream
    ensures stream.data == old(stream.data) + If(here, e.Pickled())
  {
    if !here {
      return;
    }
    hide Bytes, Glow.Shape;
    assert stream.data + Bytes(e.color, 4) + Bytes(e.Shape(), 4) == stream.data + e.Pickled();
    stream.Write(e.color, 4);
    stream.Write(e.Shape(), 4);
  }

  lemma Regroup(s: seq<byte>, a: seq<byte>, b: seq<byte>, c: seq<byte>, d: seq<byte>, e: seq<byte>, f: seq<byte>,
                g: seq<byte>)
    ensures s + a + b + c + d + e + f + g == s + (a + b + (c + d + e + f + g))
  {
  }

  /** MCBitmapEffectsPickle */
  method Pickle(e: Effects, stream: ObjectOutputStream)
    requires e.Fits()
    modifies stream
    ensures stream.data == old(stream.data) + e.Pickled(|e.Pickled(0)|)
  {
    hide Shadow.Pickled, Glow.Pickled, Layer.Pickled, Has, Bytes, If;
    var size := Weigh(e);
    Regroup(stream.data, Bytes(size, 2), Bytes(e.mask, 2),
            If(Has(e.mask, DROP_SHADOW), e.dropShadow.Pickled()), If(Has(e.mask, OUTER_GLOW), e.outerGlow.Pickled()),
            If(Has(e.mask, INNER_SHADOW), e.innerShadow.Pickled()), If(Has(e.mask, INNER_GLOW), e.innerGlow.Pickled()),
            If(Has(e.mask, COLOR_OVERLAY), e.colorOverlay.Pickled()));
    stream.Write(size, 2);
    stream.Write(e.mask, 2);
    PickleShadow(Has(e.mask, DROP_SHADOW), e.dropShadow, stream);
    PickleGlow(Has(e.mask, OUTER_GLOW), e.outerGlow, stream);
    PickleShadow(Has(e.mask, INNER_SHADOW), e.innerShadow, stream);
    PickleGlow(Has(e.mask, INNER_GLOW), e.innerGlow, stream);
    PickleLayer(Has(e.mask, COLOR_OVERLAY), e.colorOverlay, stream);
  }

  /** What is left of a declared size, which wraps around if it is too small. */
  function Left(declared: nat, used: nat): (left: nat)
    ensures left < U16_LIMIT
  {
    (declared - used) % U16_LIMIT
  }

  lemma LeftSteps(declared: nat, used: nat, more: nat)
    ensures Left(Left(declared, used), more) == Left(declared, used + more)
  {
  }

  /** What is at a position of the input. */
  function At(data: seq<byte>, at: nat, k: nat): nat
    requires at + k <= |data|
  {
    Unsigned(data[at..at + k])
  }

  function ShadowAt(data: seq<byte>, at: nat): Shadow
    requires at + SHADOW_SIZE <= |data|
  {
    ShadowOf(At(data, at, 4), At(data, at + 4, 4), At(data, at + 8, 2))
  }

  function GlowAt(data: seq<byte>, at: nat): Glow
    requires at + GLOW_SIZE <= |data|
  {
    GlowOf(At(data, at, 4), At(data, at + 4, 4))
  }

  function LayerAt(data: seq<byte>, at: nat): Layer
    requires at + LAYER_SIZE <= |data|
  {
    LayerOf(At(data, at, 4), At(data, at + 4, 1))
  }

  method UnpickleShadow(here: bool, left: nat, was: Shadow, stream: ObjectInputStream)
    returns (ok: bool, left': nat, e: Shadow)
    requires stream.ptr <= |stream.data| && left < U16_LIMIT
    modifies stream
    ensures ok == old(stream.Holds(if here then SHADOW_SIZE else 0)) && stream.ptr <= |stream.data|
    ensures ok ==> stream.ptr == old(stream.ptr) + (if here then SHADOW_SIZE else 0)
    ensures left' == Left(left, if here then SHADOW_SIZE else 0)
    ensures ok && here ==> e == ShadowAt(stream.data, old(stream.ptr))
  {
    hide ShadowOf, Unsigned;
    ok, left', e := true, left, was;
    if !here {
      return;
    }
    left' := (left - SHADOW_SIZE) % U16_LIMIT;
    var color, shape, offset;
    ok, color := stream.Read(4);
    if ok {
      ok, shape := stream.Read(4);
    }
    if ok {
      ok, offset := stream.Read(2);
    }
    if ok {
      e := ShadowOf(color, shape, offset);
    }
  }

  method UnpickleGlow(here: bool, left: nat, was: Glow, stream: ObjectInputStream)
    returns (ok: bool, left': nat, e: Glow)
    requires stream.ptr <= |stream.data| && left < U16_LIMIT
    modifies stream
    ensures ok == old(stream.Holds(if here then GLOW_SIZE else 0)) && stream.ptr <= |stream.data|
    ensures ok ==> stream.ptr == old(stream.ptr) + (if here then GLOW_SIZE else 0)
    ensures left' == Left(left, if here then GLOW_SIZE else 0)
    ensures ok && here ==> e == GlowAt(stream.data, old(stream.ptr))
  {
    hide GlowOf, Unsigned;
    ok, left', e := true, left, was;
    if !here {
      return;
    }
    left' := (left - GLOW_SIZE) % U16_LIMIT;
    var color, shape;
    ok, color := stream.Read(4);
    if ok {
      ok, shape := stream.Read(4);
    }
    if ok {
      e := GlowOf(color, shape);
    }
  }

  method UnpickleLayer(here: bool, left: nat, was: Layer, stream: ObjectInputStream)
    returns (ok: bool, left': nat, e: Layer)
    requires stream.ptr <= |stream.data| && left < U16_LIMIT
    modifies stream
    ensures ok == old(stream.Holds(if here then LAYER_SIZE else 0)) && stream.ptr <= |stream.data|
    ensures ok ==> stream.ptr == old(stream.ptr) + (if here then LAYER_SIZE else 0)
    ensures left' == Left(left, if here then LAYER_SIZE else 0)
    ensures ok && here ==> e == LayerAt(stream.data, old(stream.ptr))
  {
    hide LayerOf, Unsigned;
    ok, left', e := true, left, was;
    if !here {
      return;
    }
    left' := (left - LAYER_SIZE) % U16_LIMIT;
    var color, flags;
    ok, color := stream.Read(4);
    if ok {
      ok, flags := stream.Read(1);
    }
    if ok {
      e := LayerOf(color, flags);
    }
  }

  /** How many bytes the header and the first effects in writing order take. */
  function Span(mask: nat, effects: nat): (n: nat)
  {
    4 + (if effects > 0 then Size(mask, DROP_SHADOW, SHADOW_SIZE) else 0)
    + (if effects > 1 then Size(mask, OUTER_GLOW, GLOW_SIZE) else 0)
    + (if effects > 2 then Size(mask, INNER_SHADOW, SHADOW_SIZE) else 0)
    + (if effects > 3 then Size(mask, INNER_GLOW, GLOW_SIZE) else 0)
    + (if effects > 4 then Size(mask, COLOR_OVERLAY, LAYER_SIZE) else 0)
  }

  /** How many bytes are skipped after the effects: what the declared size says is left. */
  function Trailer(declared: nat, mask: nat): nat
  {
    Left(declared, Span(mask, 5))
  }

  /** Whether the input holds effects at a position: a header, its effects, and its trailer. */
  predicate Complete(data: seq<byte>, at: nat)
  {
    && at + 4 <= |data|
    && var mask := At(data, at + 2, 2);
       at + Span(mask, 5) + Trailer(At(data, at, 2), mask) <= |data|
  }

  /** Those effects. */
  predicate Holds(data: seq<byte>, at: nat, e: Effects)
    requires Complete(data, at)
  {
    e.mask == At(data, at + 2, 2) && HoldsBody(data, at, e)
  }

  predicate HoldsBody(data: seq<byte>, at: nat, e: Effects)
    requires at + Span(e.mask, 5) <= |data|
  {
    && (Has(e.mask, DROP_SHADOW) ==> e.dropShadow == ShadowAt(data, at + Span(e.mask, 0)))
    && (Has(e.mask, OUTER_GLOW) ==> e.outerGlow == GlowAt(data, at + Span(e.mask, 1)))
    && (Has(e.mask, INNER_SHADOW) ==> e.innerShadow == ShadowAt(data, at + Span(e.mask, 2)))
    && (Has(e.mask, INNER_GLOW) ==> e.innerGlow == GlowAt(data, at + Span(e.mask, 3)))
    && (Has(e.mask, COLOR_OVERLAY) ==> e.colorOverlay == LayerAt(data, at + Span(e.mask, 4)))
  }

  /** The size left after each effect. */
  lemma Steps(declared: nat, mask: nat)
    ensures Span(mask, 0) == 4
    ensures var n := Size(mask, DROP_SHADOW, SHADOW_SIZE);
            Span(mask, 1) == Span(mask, 0) + n
                && Left(Left(declared, Span(mask, 0)), n) == Left(declared, Span(mask, 1))
    ensures var n := Size(mask, OUTER_GLOW, GLOW_SIZE);
            Span(mask, 2) == Span(mask, 1) + n
                && Left(Left(declared, Span(mask, 1)), n) == Left(declared, Span(mask, 2))
    ensures var n := Size(mask, INNER_SHADOW, SHADOW_SIZE);
            Span(mask, 3) == Span(mask, 2) + n
                && Left(Left(declared, Span(mask, 2)), n) == Left(declared, Span(mask, 3))
    ensures var n := Size(mask, INNER_GLOW, GLOW_SIZE);
            Span(mask, 4) == Span(mask, 3) + n
                && Left(Left(declared, Span(mask, 3)), n) == Left(declared, Span(mask, 4))
    ensures var n := Size(mask, COLOR_OVERLAY, LAYER_SIZE);
            Span(mask, 5) == Span(mask, 4) + n
                && Left(Left(declared, Span(mask, 4)), n) == Left(declared, Span(mask, 5))
  {
    hide Left, Has;
    LeftSteps(declared, Span(mask, 0), Size(mask, DROP_SHADOW, SHADOW_SIZE));
    LeftSteps(declared, Span(mask, 1), Size(mask, OUTER_GLOW, GLOW_SIZE));
    LeftSteps(declared, Span(mask, 2), Size(mask, INNER_SHADOW, SHADOW_SIZE));
    LeftSteps(declared, Span(mask, 3), Size(mask, INNER_GLOW, GLOW_SIZE));
    LeftSteps(declared, Span(mask, 4), Size(mask, COLOR_OVERLAY, LAYER_SIZE));
  }

  /** The part of MCBitmapEffectsUnpickle between the header at a position and the trailer. */
  method UnpickleBody(ghost at: nat, declared: nat, mask: nat, was: Effects, stream: ObjectInputStream)
    returns (ok: bool, left: nat, e: Effects)
    requires stream.ptr == at + 4 <= |stream.data|
    modifies stream
    ensures ok == (at + Span(mask, 5) <= |stream.data|) && stream.ptr <= |stream.data| && e.mask == mask
    ensures ok ==> stream.ptr == at + Span(mask, 5) && left == Trailer(declared, mask) && HoldsBody(stream.data, at, e)
  {
    hide ShadowAt, GlowAt, LayerAt, Has, Unsigned, Left, Span;
    e := was.(mask := mask);
    left := Left(declared, 4);
    Steps(declared, mask);
    var drop, outer, inner, glow, overlay;
    ok, left, drop := UnpickleShadow(Has(mask, DROP_SHADOW), left, was.dropShadow, stream);
    if !ok { return; }
    ok, left, outer := UnpickleGlow(Has(mask, OUTER_GLOW), left, was.outerGlow, stream);
    if !ok { return; }
    ok, left, inner := UnpickleShadow(Has(mask, INNER_SHADOW), left, was.innerShadow, stream);
    if !ok { return; }
    ok, left, glow := UnpickleGlow(Has(mask, INNER_GLOW), left, was.innerGlow, stream);
    if !ok { return; }
    ok, left, overlay := UnpickleLayer(Has(mask, COLOR_OVERLAY), left, was.colorOverlay, stream);
    e := Effects(mask, drop, inner, outer, glow, overlay);
  }

  /** MCBitmapEffectsUnpickle: a failure leaves the effects as they were. */
  method Unpickle(self: Effects, stream: ObjectInputStream) returns (ok: bool, e: Effects)
    requires stream.ptr <= |stream.data|
    modifies stream
    ensures ok == Complete(stream.data, old(stream.ptr)) && stream.ptr <= |stream.data|
    ensures !ok ==> e == self
    ensures ok ==> Holds(stream.data, old(stream.ptr), e)
    ensures ok ==> var mask := At(stream.data, old(stream.ptr) + 2, 2);
                   stream.ptr == old(stream.ptr) + Span(mask, 5) + Trailer(At(stream.data, old(stream.ptr), 2), mask)
  {
    hide HoldsBody, Unsigned, Span, Left;
    ghost var at := stream.ptr;
    e := self;
    var declared, mask, left, read;
    ok, declared := stream.Read(2);
    if !ok { return; }
    ok, mask := stream.Read(2);
    if !ok { return; }
    ok, left, read := UnpickleBody(at, declared, mask, self, stream);
    if ok && left > 0 {
      ok := stream.Skip(left);
    }
    if ok { e := read; }
  }

  lemma ShadowReads(data: seq<byte>, at: nat, s: Shadow)
    requires s.Fits() && at + SHADOW_SIZE <= |data| && data[at..at + SHADOW_SIZE] == s.Pickled()
    ensures ShadowAt(data, at) == s
  {
    hide Bytes, Unsigned, Shadow.Shape, Shadow.Offset, ShadowOf, Places;
    Halves(data, at, Bytes(s.color, 4) + Bytes(s.Shape(), 4), Bytes(s.Offset(), 2));
    Halves(data, at, Bytes(s.color, 4), Bytes(s.Shape(), 4));
    PlacesOf();
    UnsignedBytes(s.color, 4);
    UnsignedBytes(s.Shape(), 4);
    UnsignedBytes(s.Offset(), 2);
    ShadowFields(s);
  }

  lemma GlowReads(data: seq<byte>, at: nat, g: Glow)
    requires g.Fits() && at + GLOW_SIZE <= |data| && data[at..at + GLOW_SIZE] == g.Pickled()
    ensures GlowAt(data, at) == g
  {
    hide Bytes, Unsigned, Glow.Shape, GlowOf, Places;
    Halves(data, at, Bytes(g.color, 4), Bytes(g.Shape(), 4));
    PlacesOf();
    UnsignedBytes(g.color, 4);
    UnsignedBytes(g.Shape(), 4);
    GlowFields(g);
  }

  lemma LayerReads(data: seq<byte>, at: nat, l: Layer)
    requires l.Fits() && at + LAYER_SIZE <= |data| && data[at..at + LAYER_SIZE] == l.Pickled()
    ensures LayerAt(data, at) == l
  {
    hide Bytes, Unsigned;
    Halves(data, at, Bytes(l.color, 4), Bytes(l.blend * 16, 1));
    PlacesOf();
    UnsignedBytes(l.color, 4);
    UnsignedBytes(l.blend * 16, 1);
  }

  /** Two pieces of the data, if they are there together. */
  lemma Halves(data: seq<byte>, at: nat, a: seq<byte>, b: seq<byte>)
    requires at + |a| + |b| <= |data| && data[at..at + |a| + |b|] == a + b
    ensures data[at..at + |a|] == a && data[at + |a|..at + |a| + |b|] == b
  {
    assert data[at..at + |a|] == data[at..at + |a| + |b|][..|a|];
    assert data[at + |a|..at + |a| + |b|] == data[at..at + |a| + |b|][|a|..];
  }

  lemma Pieces(data: seq<byte>, at: nat, a: seq<byte>, b: seq<byte>, c: seq<byte>, d: seq<byte>, e: seq<byte>,
               f: seq<byte>, g: seq<byte>)
    requires var all := a + b + (c + d + e + f + g); at + |all| <= |data| && data[at..at + |all|] == all
    ensures data[at..at + |a|] == a && data[at + |a|..at + |a| + |b|] == b
    ensures var i := at + |a| + |b|; data[i..i + |c|] == c && data[i + |c|..i + |c| + |d|] == d
    ensures var i := at + |a| + |b| + |c| + |d|; data[i..i + |e|] == e && data[i + |e|..i + |e| + |f|] == f
    ensures var i := at + |a| + |b| + |c| + |d| + |e| + |f|; data[i..i + |g|] == g
  {
    var i := at + |a| + |b|;
    Halves(data, at, a + b, c + d + e + f + g);
    Halves(data, at, a, b);
    Halves(data, i, c + d + e + f, g);
    Halves(data, i, c + d + e, f);
    Halves(data, i, c + d, e);
    Halves(data, i, c, d);
  }

  /** Where the pieces of written effects are. */
  lemma PiecesAt(data: seq<byte>, at: nat, e: Effects, declared: nat)
    requires e.Fits() && declared < U16_LIMIT
    requires at + Span(e.mask, 5) <= |data| && data[at..at + Span(e.mask, 5)] == e.Pickled(declared)
    ensures At(data, at, 2) == declared && At(data, at + 2, 2) == e.mask && HoldsBody(data, at, e)
  {
    hide Bytes, Unsigned, Shadow.Pickled, Glow.Pickled, Layer.Pickled, Has, ShadowAt, GlowAt, LayerAt, Shadow.Fits,
        Glow.Fits, Layer.Fits, Places;
    var mask := e.mask;
    var h, m := Bytes(declared, 2), Bytes(mask, 2);
    var c, d := If(Has(mask, DROP_SHADOW), e.dropShadow.Pickled()), If(Has(mask, OUTER_GLOW), e.outerGlow.Pickled());
    var f, g := If(Has(mask, INNER_SHADOW), e.innerShadow.Pickled()), If(Has(mask, INNER_GLOW), e.innerGlow.Pickled());
    var l := If(Has(mask, COLOR_OVERLAY), e.colorOverlay.Pickled());
    PlacesOf();
    UnsignedBytes(declared, 2);
    UnsignedBytes(mask, 2);
    Pieces(data, at, h, m, c, d, f, g, l);
    if Has(mask, DROP_SHADOW) { ShadowReads(data, at + Span(mask, 0), e.dropShadow); }
    if Has(mask, OUTER_GLOW) { GlowReads(data, at + Span(mask, 1), e.outerGlow); }
    if Has(mask, INNER_SHADOW) { ShadowReads(data, at + Span(mask, 2), e.innerShadow); }
    if Has(mask, INNER_GLOW) { GlowReads(data, at + Span(mask, 3), e.innerGlow); }
    if Has(mask, COLOR_OVERLAY) { LayerReads(data, at + Span(mask, 4), e.colorOverlay); }
  }

  lemma SpanIsLength(e: Effects, declared: nat)
    requires e.Fits()
    ensures |e.Pickled(declared)| == Span(e.mask, 5)
  {
    hide Has;
  }

  /** Effects that were written can be read if and only if the trailer that the declared size leaves
      is there, and what is read is the same. */
  lemma RoundTrip(before: seq<byte>, e: Effects, declared: nat, after: seq<byte>)
    requires e.Fits() && declared < U16_LIMIT
    ensures var data := before + e.Pickled(declared) + after;
            && (Complete(data, |before|) <==> Trailer(declared, e.mask) <= |after|)
            && (Complete(data, |before|) ==> forall read :: Holds(data, |before|, read) ==> e.Same(read))
  {
    hide Effects.Pickled, At, Trailer, Span;
    var data := before + e.Pickled(declared) + after;
    SpanIsLength(e, declared);
    assert data[|before|..|before| + |e.Pickled(declared)|] == e.Pickled(declared);
    AtLeastHeader(e.mask);
    PiecesAt(data, |before|, e, declared);
  }

  lemma AtLeastHeader(mask: nat)
    ensures Span(mask, 5) >= 4
  {
  }

  /** It takes as many bytes as its size field declares, if and only if that is at least as many as
      its effects take. */
  lemma TakesDeclared(declared: nat, mask: nat)
    requires declared < U16_LIMIT
    ensures Span(mask, 5) + Trailer(declared, mask) == declared <==> declared >= Span(mask, 5)
  {
  }

  /** A size field of 10 before a drop shadow, which takes 14 bytes with its header: 65532 bytes more
      are skipped. */
  lemma TakesTooMuch()
    ensures Span(DROP_SHADOW, 5) == 14 && Span(DROP_SHADOW, 5) + Trailer(10, DROP_SHADOW) == 65546
  {
    assert Left(10, 14) == 65532;
  }

  /** For all effects, pickling and unpickling them, whatever follows them in the stream, succeeds,
      gives the same effects, and uses just the bytes that were written. */
  method PickleAndUnpickle(e: Effects, was: Effects, after: seq<byte>) returns (ok: bool, read: Effects, used: nat)
    requires e.Fits()
    ensures ok && e.Same(read) && used == |e.Pickled(0)|
  {
    hide Effects.Pickled, Effects.Same, Complete, Holds, Trailer, Span;
    var output := new ObjectOutputStream();
    Pickle(e, output);
    ghost var size := |e.Pickled(0)|;
    var input := new ObjectInputStream(output.data + after);
    WrittenIsComplete(e, after);
    ok, read := Unpickle(was, input);
    used := input.ptr;
  }

  lemma WrittenIsComplete(e: Effects, after: seq<byte>)
    requires e.Fits()
    ensures var size := |e.Pickled(0)|;
            var data := [] + e.Pickled(size) + after;
            && data == e.Pickled(size) + after && Complete(data, 0)
            && Span(At(data, 2, 2), 5) + Trailer(At(data, 0, 2), At(data, 2, 2)) == size
            && forall read :: Holds(data, 0, read) ==> e.Same(read)
  {
    hide Effects.Pickled, Effects.Same, At, Span, HoldsBody;
    var size := |e.Pickled(0)|;
    SpanIsLength(e, 0);
    SpanIsLength(e, size);
    SpanAtMost(e.mask);
    RoundTrip([], e, size, after);
    var data := [] + e.Pickled(size) + after;
    assert data[0..size] == e.Pickled(size);
    PiecesAt(data, 0, e, size);
  }

  lemma SpanAtMost(mask: nat)
    ensures 4 <= Span(mask, 5) <= 45
  {
  }
}
