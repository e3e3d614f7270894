/** The 64-bit timestamp codec and the cursor arithmetic built on it
    (src/timestamp.rs, src/cursor.rs).  Shifts and masks are written as
    multiplication, division and remainder by powers of two. */
module Timestamps {
  import opened Common
  import opened Radix

  const TIMESTAMP_LAYOUT_FORMAT_VERSION: nat := 1

  datatype LayoutError =
    | UnsupportedFormatVersion
    | ZeroPhysicalBits
    | ZeroSequenceBits
    | TooManyGeneratorBits
    | TooManySequenceBits
    | TooManyLogicalBits
    | InvalidTotalBits
    | UnixMillisecondHorizonOverflow

  datatype DecodedTso = DecodedTso(physicalMs: nat, logical: nat, generatorId: nat, sequence: nat)

  datatype TimestampLayout = TimestampLayout(
    formatVersion: nat,
    epochUnixMs: u64,
    physicalBits: nat,
    generatorBits: nat,
    sequenceBits: nat)
  {
    function LogicalBits(): nat {
      generatorBits + sequenceBits
    }

    function MaxGenerators(): (r: nat)
      ensures r >= 1
    {
      Pow2(generatorBits)
    }

    function SequenceCapacity(): (r: nat)
      ensures r >= 1
    {
      Pow2(sequenceBits)
    }

    function MaxPhysicalMs(): nat {
      Pow2(physicalBits) - 1
    }

    /** The checks in the order they are made; `None` is acceptance. */
    function Validate(): Option<LayoutError> {
      if formatVersion != TIMESTAMP_LAYOUT_FORMAT_VERSION then Some(UnsupportedFormatVersion)
      else if physicalBits == 0 then Some(ZeroPhysicalBits)
      else if sequenceBits == 0 then Some(ZeroSequenceBits)
      else if generatorBits > 13 then Some(TooManyGeneratorBits)
      else if sequenceBits > 31 then Some(TooManySequenceBits)
      else if LogicalBits() > 32 then Some(TooManyLogicalBits)
      else if physicalBits + LogicalBits() != 64 then Some(InvalidTotalBits)
      else if epochUnixMs + MaxPhysicalMs() > U64_MAX then Some(UnixMillisecondHorizonOverflow)
      else None
    }

    predicate Valid() {
      Validate() == None
    }

    predicate InRange(physicalMs: nat, generatorId: nat, sequence: nat) {
      physicalMs <= MaxPhysicalMs() && generatorId < MaxGenerators() && sequence < SequenceCapacity()
    }

    /** The value of a timestamp's three digits; defined past the 64-bit range too. */
    function Compose(physicalMs: nat, generatorId: nat, sequence: nat): nat {
      physicalMs * Pow2(LogicalBits()) + generatorId * Pow2(sequenceBits) + sequence
    }

    function Encode(physicalMs: nat, generatorId: nat, sequence: nat): (r: Result<u64>)
      ensures r.Ok? <==> Valid() && InRange(physicalMs, generatorId, sequence)
      ensures !Valid() <==> r == Err(Internal)
      ensures Valid() && physicalMs <= MaxPhysicalMs() && generatorId >= MaxGenerators() ==>
                r == Err(GeneratorIdOutOfRange(generatorId))
      ensures Valid() && generatorId < MaxGenerators() && r.Err? ==> r == Err(TsoOverflow)
    {
      if !Valid() then Err(Internal)
      else if physicalMs > MaxPhysicalMs() then Err(TsoOverflow)
      else if generatorId >= MaxGenerators() then Err(GeneratorIdOutOfRange(generatorId))
      else if sequence >= SequenceCapacity() then Err(TsoOverflow)
      else
        ComposeFits(this, physicalMs, generatorId, sequence);
        Ok(Compose(physicalMs, generatorId, sequence))
    }

    function Decode(tso: nat): DecodedTso {
      DecodedTso(
        Div(tso, Pow2(LogicalBits())),
        Mod(tso, Pow2(LogicalBits())),
        Mod(Div(tso, Pow2(sequenceBits)), MaxGenerators()),
        Mod(tso, SequenceCapacity()))
    }
  }

  /** The logical field is the generator digit over the sequence digit. */
  lemma LogicalWidth(layout: TimestampLayout)
    ensures Pow2(layout.LogicalBits()) == layout.MaxGenerators() * layout.SequenceCapacity()
  {
    Pow2Add(layout.generatorBits, layout.sequenceBits);
  }

  lemma MulAssoc(x: nat, y: nat, z: nat)
    ensures x * (y * z) == (x * y) * z
  {}

  lemma MulDistributes(x: nat, y: nat, z: nat)
    ensures (x + y) * z == x * z + y * z
  {}

  /** The composed value read in base `SequenceCapacity` and then in base `MaxGenerators`. */
  lemma ComposeDigits(layout: TimestampLayout, p: nat, g: nat, s: nat)
    ensures layout.Compose(p, g, s)
         == (p * layout.MaxGenerators() + g) * layout.SequenceCapacity() + s
  {
    LogicalWidth(layout);
    MulAssoc(p, layout.MaxGenerators(), layout.SequenceCapacity());
    MulDistributes(p * layout.MaxGenerators(), g, layout.SequenceCapacity());
  }

  /** Validation accepts exactly the layouts whose widths tile the word and whose last millisecond is a Unix time. */
  lemma ValidIff(layout: TimestampLayout)
    ensures layout.Valid() <==>
              && layout.formatVersion == 1
              && 1 <= layout.sequenceBits <= 31 && layout.generatorBits <= 13
              && layout.generatorBits + layout.sequenceBits <= 32
              && layout.physicalBits == 64 - layout.generatorBits - layout.sequenceBits
              && layout.epochUnixMs + (Pow2(layout.physicalBits) - 1) <= U64_MAX
  {}

  /** Three digits within their widths stay below the product of the widths. */
  lemma DigitsBelow(p: nat, g: nat, s: nat, c: nat, a: nat, b: nat)
    requires p < c && g < a && s < b
    ensures (p * a + g) * b + s < c * (a * b)
  {
    DigitOrder(p, g, c, 0, a);
    DigitOrder(p * a + g, s, c * a, 0, b);
    MulAssoc(c, a, b);
  }

  lemma ComposeFits(layout: TimestampLayout, p: nat, g: nat, s: nat)
    requires layout.Valid() && layout.InRange(p, g, s)
    ensures layout.Compose(p, g, s) <= U64_MAX
  {
    WordWidth(layout);
    ComposeDigits(layout, p, g, s);
    DigitsBelow(p, g, s, Pow2(layout.physicalBits), layout.MaxGenerators(), layout.SequenceCapacity());
    LogicalWidth(layout);
  }

  /** A valid layout's three fields fill the 64-bit word exactly. */
  lemma WordWidth(layout: TimestampLayout)
    requires layout.Valid()
    ensures Pow2(layout.physicalBits) * Pow2(layout.LogicalBits()) == U64_MAX + 1
  {
    Pow2Add(layout.physicalBits, layout.LogicalBits());
    Pow2At64();
  }

  /** Reading the digits back out of a composed value. */
  lemma DecodeOfCompose(layout: TimestampLayout, p: nat, g: nat, s: nat)
    requires g < layout.MaxGenerators() && s < layout.SequenceCapacity()
    ensures var d := layout.Decode(layout.Compose(p, g, s));
            d.physicalMs == p && d.generatorId == g && d.sequence == s
  {
    hide Div, Mod, Pow2;
    var a, b := layout.MaxGenerators(), layout.SequenceCapacity();
    ComposeDigits(layout, p, g, s);
    DivModOf(p * a + g, s, b);
    DivModOf(p, g, a);
    LogicalWidth(layout);
    DigitOrder(g, s, a, 0, b);
    MulAssoc(p, a, b);
    MulDistributes(p * a, g, b);
    assert layout.Compose(p, g, s) == p * (a * b) + (g * b + s);
    DivModOf(p, g * b + s, a * b);
  }

  /** `decode` undoes `encode` on every triple `encode` accepts. */
  lemma DecodeEncode(layout: TimestampLayout, p: nat, g: nat, s: nat)
    requires layout.Encode(p, g, s).Ok?
    ensures var d := layout.Decode(layout.Encode(p, g, s).value);
            d.physicalMs == p && d.generatorId == g && d.sequence == s
  {
    DecodeOfCompose(layout, p, g, s);
  }

  /** The digits of any number compose back to it, whatever its size. */
  lemma ComposeOfDecode(layout: TimestampLayout, tso: nat)
    ensures var d := layout.Decode(tso);
            d.generatorId < layout.MaxGenerators() && d.sequence < layout.SequenceCapacity()
            && layout.Compose(d.physicalMs, d.generatorId, d.sequence) == tso
  {
    var a, b := layout.MaxGenerators(), layout.SequenceCapacity();
    var d := layout.Decode(tso);
    var q := Div(Div(tso, b), a);
    ComposeDigits(layout, q, d.generatorId, d.sequence);
    DecodeOfCompose(layout, q, d.generatorId, d.sequence);
  }

  /** The logical field is the low part of the word: the generator over the sequence. */
  lemma DecodeLogical(layout: TimestampLayout, tso: nat)
    ensures var d := layout.Decode(tso);
            && d.logical == d.generatorId * layout.SequenceCapacity() + d.sequence
            && tso == d.physicalMs * Pow2(layout.LogicalBits()) + d.logical
  {
    hide Div, Mod, Pow2;
    ComposeOfDecode(layout, tso);
  }

  /** `encode` undoes `decode` on every 64-bit value: the three fields tile the word. */
  lemma EncodeDecode(layout: TimestampLayout, tso: u64)
    requires layout.Valid()
    ensures var d := layout.Decode(tso);
            layout.Encode(d.physicalMs, d.generatorId, d.sequence) == Ok(tso)
  {
    ComposeOfDecode(layout, tso);
    WordWidth(layout);
    DivBound(tso, Pow2(layout.physicalBits), Pow2(layout.LogicalBits()));
  }

  ghost predicate LexLess(p: nat, g: nat, s: nat, p': nat, g': nat, s': nat) {
    p < p' || (p == p' && (g < g' || (g == g' && s < s')))
  }

  /** Timestamps compare exactly as their (physical, generator, sequence) triples do. */
  lemma ComposeOrder(layout: TimestampLayout, p: nat, g: nat, s: nat, p': nat, g': nat, s': nat)
    requires g < layout.MaxGenerators() && s < layout.SequenceCapacity()
    requires g' < layout.MaxGenerators() && s' < layout.SequenceCapacity()
    ensures layout.Compose(p, g, s) < layout.Compose(p', g', s') <==> LexLess(p, g, s, p', g', s')
  {
    ComposeDigits(layout, p, g, s);
    ComposeDigits(layout, p', g', s');
    var a, b := layout.MaxGenerators(), layout.SequenceCapacity();
    DigitOrder(p, g, p', g', a);
    DigitOrder(p', g', p, g, a);
    DigitOrder(p * a + g, s, p' * a + g', s', b);
  }

  // ---------------------------------------------------------------- cursors

  datatype Cursor = Cursor(physicalMs: nat, sequence: nat)

  /** The first position of `targetGeneratorId` past `tsoFloor`. */
  function NextCursorAfter(layout: TimestampLayout, tsoFloor: u64, targetGeneratorId: nat): Result<Cursor> {
    var floor := layout.Decode(tsoFloor);
    if targetGeneratorId > floor.generatorId then
      Ok(Cursor(floor.physicalMs, 0))
    else if targetGeneratorId == floor.generatorId && floor.sequence + 1 < layout.SequenceCapacity() then
      Ok(Cursor(floor.physicalMs, floor.sequence + 1))
    else if floor.physicalMs + 1 > U64_MAX then
      Err(TsoOverflow)
    else
      Ok(Cursor(floor.physicalMs + 1, 0))
  }

  /** A generator's own positions, numbered: `index = physical * capacity + sequence`. */
  function TsoAt(layout: TimestampLayout, generatorId: nat, index: nat): nat {
    layout.Compose(Div(index, layout.SequenceCapacity()), generatorId, Mod(index, layout.SequenceCapacity()))
  }

  lemma TsoAtOrder(layout: TimestampLayout, g: nat, i: nat, j: nat)
    requires g < layout.MaxGenerators()
    ensures i < j <==> TsoAt(layout, g, i) < TsoAt(layout, g, j)
  {
    var b := layout.SequenceCapacity();
    DigitOrder(Div(i, b), Mod(i, b), Div(j, b), Mod(j, b), b);
    ComposeOrder(layout, Div(i, b), g, Mod(i, b), Div(j, b), g, Mod(j, b));
  }

  function CursorIndex(layout: TimestampLayout, cursor: Cursor): nat {
    cursor.physicalMs * layout.SequenceCapacity() + cursor.sequence
  }

  /** On a 64-bit floor the next cursor never fails and stays within one
      millisecond of the layout's last one. */
  lemma NextCursorInRange(layout: TimestampLayout, floor: u64, g: nat)
    requires layout.Valid()
    ensures NextCursorAfter(layout, floor, g).Ok?
    ensures var c := NextCursorAfter(layout, floor, g).value;
            c.sequence < layout.SequenceCapacity() && c.physicalMs <= layout.MaxPhysicalMs() + 1
  {
    EncodeDecode(layout, floor);
    Pow2Monotone(layout.physicalBits, 63);
    Pow2At64();
  }

  /** The next cursor's index is exactly the least one whose timestamp at the target
      generator exceeds the floor. */
  lemma NextCursorIsLeast(layout: TimestampLayout, floor: u64, g: nat, index: nat)
    requires layout.Valid() && g < layout.MaxGenerators()
    requires NextCursorAfter(layout, floor, g).Ok?
    ensures var c := NextCursorAfter(layout, floor, g).value;
            TsoAt(layout, g, index) > floor <==> index >= CursorIndex(layout, c)
  {
    NextCursorInRange(layout, floor, g);
    ComposeOfDecode(layout, floor);
    var b, d := layout.SequenceCapacity(), layout.Decode(floor);
    var c := NextCursorAfter(layout, floor, g).value;
    ComposeOrder(layout, d.physicalMs, d.generatorId, d.sequence, Div(index, b), g, Mod(index, b));
    DigitOrder(Div(index, b), Mod(index, b), c.physicalMs, c.sequence, b);
  }
}
