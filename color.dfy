/** The color model of jgl.c: 32-bit words holding four 8-bit lanes, red in the
    least-significant byte, and the two ways of combining a base color with an
    overlay (channel mixing and "over" blending). */
module Color {
  import opened CInt

  type u8 = x: int | 0 <= x < 0x100
  type u32 = x: int | 0 <= x < 0x1_0000_0000

  /** Comp_Index: red, green and blue are lanes 0 to 2; alpha is the last
      lane, and CountComps the number of lanes. */
  const CompAlpha: nat := 3
  const CountComps: nat := 4

  /** 256^i, the weight of lane i (a shift by 8*i). */
  function LaneWeight(i: nat): (w: nat)
    ensures w > 0
  {
    if i == 0 then 1 else 0x100 * LaneWeight(i - 1)
  }

  /** JGL_RED, JGL_GREEN, JGL_BLUE, JGL_ALPHA: mask one lane and shift it down. */
  function Red(c: u32): u8 { c % 0x100 }
  function Green(c: u32): u8 { c / 0x100 % 0x100 }
  function Blue(c: u32): u8 { c / 0x1_0000 % 0x100 }
  function Alpha(c: u32): u8 { c / 0x100_0000 % 0x100 }

  /** JGL_RGBA: each argument masked to its low 8 bits and shifted into its lane.
      On a two's-complement int, `& 0xFF` is the Euclidean remainder by 256. */
  function Rgba(r: int, g: int, b: int, a: int): u32
  {
    r % 0x100 + g % 0x100 * 0x100 + b % 0x100 * 0x1_0000 + a % 0x100 * 0x100_0000
  }

  /** The four lanes of a word in Comp_Index order. */
  function Lanes(c: u32): seq<u8> { [Red(c), Green(c), Blue(c), Alpha(c)] }

  /** Lane i of a word is (c >> 8*i) & 0xFF, whichever lane is asked for. */
  lemma LaneAt(c: u32, i: nat)
    requires i < CountComps
    ensures Lanes(c)[i] == c / LaneWeight(i) % 0x100
  {
    assert LaneWeight(1) == 0x100;
    assert LaneWeight(2) == 0x1_0000;
    assert LaneWeight(3) == 0x100_0000;
  }

  /** The macros round-trip: extracting a lane from JGL_RGBA(r, g, b, a) gives
      back that argument's low 8 bits, so 8-bit arguments come back unchanged. */
  lemma RgbaLanes(r: int, g: int, b: int, a: int)
    ensures Red(Rgba(r, g, b, a)) == r % 0x100
    ensures Green(Rgba(r, g, b, a)) == g % 0x100
    ensures Blue(Rgba(r, g, b, a)) == b % 0x100
    ensures Alpha(Rgba(r, g, b, a)) == a % 0x100
  {
    var c := Rgba(r, g, b, a);
    var r', g', b', a' := r % 0x100, g % 0x100, b % 0x100, a % 0x100;
    assert c == r' + 0x100 * (g' + 0x100 * (b' + 0x100 * a'));
    DivLow(c, r', g' + 0x100 * (b' + 0x100 * a'));
    DivLow(c / 0x100, g', b' + 0x100 * a');
    DivLow(c / 0x1_0000, b', a');
    assert c / 0x1_0000 == c / 0x100 / 0x100;
    assert c / 0x100_0000 == c / 0x1_0000 / 0x100;
  }

  /** The lanes of JGL_RGBA on 8-bit arguments are those arguments. */
  lemma RgbaLanes8(r: u8, g: u8, b: u8, a: u8)
    ensures Lanes(Rgba(r, g, b, a)) == [r, g, b, a]
  {
    var c := Rgba(r, g, b, a);
    RgbaLanes(r, g, b, a);
    assert r % 0x100 == r && g % 0x100 == g && b % 0x100 == b && a % 0x100 == a;
    assert Red(c) == r && Green(c) == g && Blue(c) == b && Alpha(c) == a;
  }

  /** Packing the lanes of a word gives the word back. */
  lemma RgbaOfLanes(c: u32)
    ensures Rgba(Red(c), Green(c), Blue(c), Alpha(c)) == c
  {
    var q1 := c / 0x100;
    var q2 := q1 / 0x100;
    var q3 := q2 / 0x100;
    assert c == c % 0x100 + 0x100 * q1;
    assert q1 == q1 % 0x100 + 0x100 * q2;
    assert q2 == q2 % 0x100 + 0x100 * q3;
    assert c / 0x1_0000 == q2 && c / 0x100_0000 == q3;
    assert q3 < 0x100;
    assert Red(c) == c % 0x100 && Green(c) == q1 % 0x100;
    assert Blue(c) == q2 % 0x100 && Alpha(c) == q3;
  }

  /** Dividing lo + 256*hi by 256 drops the low lane. */
  lemma DivLow(c: int, lo: int, hi: int)
    requires 0 <= lo < 0x100 && c == lo + 0x100 * hi
    ensures c % 0x100 == lo && c / 0x100 == hi
  {
  }

  /** unpack_rgba32: stores the lanes of c into comp[0..3], shifting c down by
      one lane per step. */
  method UnpackRgba32(c: u32, comp: array<u8>)
    requires comp.Length == CountComps
    modifies comp
    ensures comp[..] == Lanes(c)
  {
    var v: u32 := c;
    for i := 0 to CountComps
      invariant v == c / LaneWeight(i)
      invariant forall j :: 0 <= j < i ==> comp[j] == c / LaneWeight(j) % 0x100
    {
      comp[i] := v % 0x100;
      ShiftDown(c, i);
      v := v / 0x100;
    }
    forall j | 0 <= j < CountComps
      ensures comp[j] == Lanes(c)[j]
    {
      LaneAt(c, j);
    }
  }

  /** Shifting right by 8*i and then by 8 is shifting right by 8*(i+1). */
  lemma ShiftDown(c: nat, i: nat)
    ensures c / LaneWeight(i) / 0x100 == c / LaneWeight(i + 1)
  {
    var w := LaneWeight(i);
    var q, r := c / w, c % w;
    var q2, r2 := q / 0x100, q % 0x100;
    assert c == (q2 * 0x100 + r2) * w + r;
    assert c == q2 * (0x100 * w) + (r2 * w + r) by {
      assert (q2 * 0x100 + r2) * w == q2 * (0x100 * w) + r2 * w;
    }
    assert 0 <= r2 * w + r < 0x100 * w by {
      MulLe(r2, 0xFF, w);
    }
    DivUnique(c, 0x100 * w, q2, r2 * w + r);
  }

  /** The lanes j < i of s, each shifted into place: what the accumulator of
      pack_rgba32 holds after i steps. */
  function PackedPrefix(s: seq<u8>, i: nat): nat
    requires i <= |s|
  {
    if i == 0 then 0 else PackedPrefix(s, i - 1) + s[i - 1] * LaneWeight(i - 1)
  }

  /** pack_rgba32: ORs each lane, shifted into place, into an accumulator. The
      accumulator is below 256^i when lane i is added, so the OR of the shifted
      lane with it equals their sum. */
  method PackRgba32(comp: array<u8>) returns (result: u32)
    requires comp.Length == CountComps
    ensures result == Rgba(comp[0], comp[1], comp[2], comp[3])
  {
    result := 0;
    for i := 0 to CountComps
      invariant result == PackedPrefix(comp[..], i) < LaneWeight(i)
    {
      PackStep(comp[..], i);
      result := result + comp[i] * LaneWeight(i);
    }
    PackedIsRgba(comp[..]);
  }

  /** Adding lane i to an accumulator below 256^i stays below 256^(i+1), and
      so below 2^32. */
  lemma PackStep(s: seq<u8>, i: nat)
    requires i < |s| && i < CountComps && PackedPrefix(s, i) < LaneWeight(i)
    ensures PackedPrefix(s, i + 1) < LaneWeight(i + 1) <= 0x1_0000_0000
  {
    MulLe(s[i], 0xFF, LaneWeight(i));
    WeightMonotone(i + 1, 4);
    assert LaneWeight(4) == 0x1_0000_0000;
  }

  /** All four lanes packed are the JGL_RGBA of those lanes. */
  lemma PackedIsRgba(s: seq<u8>)
    requires |s| == CountComps
    ensures PackedPrefix(s, 4) == Rgba(s[0], s[1], s[2], s[3])
  {
    var r: nat, g: nat, b: nat, a: nat := s[0], s[1], s[2], s[3];
    assert LaneWeight(0) == 1 && LaneWeight(1) == 0x100;
    assert LaneWeight(2) == 0x1_0000 && LaneWeight(3) == 0x100_0000;
    assert PackedPrefix(s, 1) == r;
    assert PackedPrefix(s, 2) == r + g * 0x100;
    assert PackedPrefix(s, 3) == r + g * 0x100 + b * 0x1_0000;
    assert PackedPrefix(s, 4) == r + g * 0x100 + b * 0x1_0000 + a * 0x100_0000;
    assert r % 0x100 == r && g % 0x100 == g && b % 0x100 == b && a % 0x100 == a;
  }

  /** unpack_rgba32 into a scratch array, then pack_rgba32 of that array,
      gives back the word that was unpacked. */
  method UnpackThenPack(c: u32) returns (r: u32)
    ensures r == c
  {
    var comp := new u8[CountComps](_ => 0);
    UnpackRgba32(c, comp);
    r := PackRgba32(comp);
    RgbaOfLanes(c);
  }

  /** pack_rgba32 of four bytes, then unpack_rgba32 of the word, gives back
      the four bytes. */
  method PackThenUnpack(comp: array<u8>) returns (out: array<u8>)
    requires comp.Length == CountComps
    ensures out.Length == CountComps && out[..] == comp[..]
  {
    var c := PackRgba32(comp);
    out := new u8[CountComps](_ => 0);
    UnpackRgba32(c, out);
    RgbaLanes8(comp[0], comp[1], comp[2], comp[3]);
    assert comp[..] == [comp[0], comp[1], comp[2], comp[3]];
  }

  lemma WeightMonotone(i: nat, j: nat)
    requires i <= j
    ensures LaneWeight(i) <= LaneWeight(j)
    decreases j - i
  {
    if i < j {
      WeightMonotone(i + 1, j);
    }
  }

  /** jgl_mix_comps: moves c1 toward c2 by the fraction a/255 with C's
      truncating division; the int result is stored into a uint8_t. Every
      caller passes 8-bit lanes. */
  function MixComps(c1: u8, c2: u8, a: u8): u8
  {
    (c1 + TDiv((c2 - c1) * a, 0xFF)) % 0x100
  }

  /** A weight of 0 keeps c1 and a weight of 255 reaches c2. */
  lemma MixCompsEnds(c1: u8, c2: u8)
    ensures MixComps(c1, c2, 0) == c1
    ensures MixComps(c1, c2, 0xFF) == c2
  {
    TDivExact(c2 - c1, 0xFF);
    TDivExact(0, 0xFF);
  }

  /** The mix never wraps: it is exactly c1 + trunc((c2 - c1) * a / 255), and
      lies between c1 and c2. */
  lemma MixCompsBetween(c1: u8, c2: u8, a: u8)
    ensures MixComps(c1, c2, a) == c1 + TDiv((c2 - c1) * a, 0xFF)
    ensures Min(c1, c2) <= MixComps(c1, c2, a) <= Max(c1, c2)
  {
    var d := c2 - c1;
    TDivBetween(a, d, 0xFF);
    assert a * d == d * a;
    var v := c1 + TDiv(d * a, 0xFF);
    assert Min(c1, c2) <= v <= Max(c1, c2);
    assert v % 0x100 == v;
  }

  /** jgl_mix_colors: red, green and blue of c1 mixed toward c2 by c2's alpha;
      the loop stops before COMP_ALPHA, so c1's alpha is kept. */
  function MixColor(c1: u32, c2: u32): u32
  {
    Rgba(MixComps(Red(c1), Red(c2), Alpha(c2)),
         MixComps(Green(c1), Green(c2), Alpha(c2)),
         MixComps(Blue(c1), Blue(c2), Alpha(c2)),
         Alpha(c1))
  }

  /** jgl_mix_colors as the source computes it: unpack both words, mix lanes
      0..2 in place, pack. */
  method MixColors(c1: u32, c2: u32) returns (r: u32)
    ensures r == MixColor(c1, c2)
    ensures Alpha(r) == Alpha(c1)
  {
    var comp1 := new u8[CountComps];
    UnpackRgba32(c1, comp1);
    var comp2 := new u8[CountComps];
    UnpackRgba32(c2, comp2);
    for i := 0 to CompAlpha
      invariant comp2[..] == Lanes(c2)
      invariant forall j :: 0 <= j < i ==> comp1[j] == MixComps(Lanes(c1)[j], Lanes(c2)[j], Alpha(c2))
      invariant forall j :: i <= j < CountComps ==> comp1[j] == Lanes(c1)[j]
    {
      comp1[i] := MixComps(comp1[i], comp2[i], comp2[CompAlpha]);
    }
    r := PackRgba32(comp1);
    RgbaLanes8(comp1[0], comp1[1], comp1[2], comp1[3]);
  }

  /** A fully transparent overlay leaves the color unchanged. */
  lemma MixColorTransparent(c1: u32, c2: u32)
    requires Alpha(c2) == 0
    ensures MixColor(c1, c2) == c1
  {
    MixCompsEnds(Red(c1), Red(c2));
    MixCompsEnds(Green(c1), Green(c2));
    MixCompsEnds(Blue(c1), Blue(c2));
    assert MixColor(c1, c2) == Rgba(Red(c1), Green(c1), Blue(c1), Alpha(c1));
    RgbaOfLanes(c1);
  }

  /** A fully opaque overlay replaces red, green and blue; alpha stays c1's. */
  lemma MixColorOpaque(c1: u32, c2: u32)
    requires Alpha(c2) == 0xFF
    ensures Red(MixColor(c1, c2)) == Red(c2)
    ensures Green(MixColor(c1, c2)) == Green(c2)
    ensures Blue(MixColor(c1, c2)) == Blue(c2)
    ensures Alpha(MixColor(c1, c2)) == Alpha(c1)
  {
    MixCompsEnds(Red(c1), Red(c2));
    MixCompsEnds(Green(c1), Green(c2));
    MixCompsEnds(Blue(c1), Blue(c2));
    assert MixColor(c1, c2) == Rgba(Red(c2), Green(c2), Blue(c2), Alpha(c1));
    RgbaLanes8(Red(c2), Green(c2), Blue(c2), Alpha(c1));
  }

  /** One channel of blend_colors: the base weighted by 255 - a2 plus the
      overlay weighted by a2, divided by 255 in unsigned arithmetic. */
  function OverChannel(x1: u8, x2: u8, a2: u8): nat
  {
    NatProduct(x1, 0xFF - a2);
    NatProduct(x2, a2);
    (x1 * (0xFF - a2) + x2 * a2) / 0xFF
  }

  /** A solver hint: a product of naturals is a natural, which the solver does
      not always see for itself. */
  lemma NatProduct(x: nat, y: nat)
    ensures x * y >= 0
  {
  }

  /** Weight 0 keeps the base channel, weight 255 gives the overlay's. */
  lemma OverChannelEnds(x1: u8, x2: u8)
    ensures OverChannel(x1, x2, 0) == x1
    ensures OverChannel(x1, x2, 0xFF) == x2
  {
    assert x1 * (0xFF - 0) + x2 * 0 == x1 * 0xFF;
    assert x1 * (0xFF - 0xFF) + x2 * 0xFF == x2 * 0xFF;
  }

  /** The `if (v > 255) v = 255` of blend_colors. */
  function Clamp(v: nat): u8 { if v > 0xFF then 0xFF else v }

  /** blend_colors as a value: "over" compositing of the overlay c2 onto the
      base c1; the result keeps the base's alpha. */
  function Blend(c1: u32, c2: u32): u32
  {
    Rgba(Clamp(OverChannel(Red(c1), Red(c2), Alpha(c2))),
         Clamp(OverChannel(Green(c1), Green(c2), Alpha(c2))),
         Clamp(OverChannel(Blue(c1), Blue(c2), Alpha(c2))),
         Alpha(c1))
  }

  /** A blended channel lies between the base and the overlay channel; in
      particular it never exceeds 255, so the clamp never fires. */
  lemma OverChannelBetween(x1: u8, x2: u8, a2: u8)
    ensures Min(x1, x2) <= OverChannel(x1, x2, a2) <= Max(x1, x2)
    ensures Clamp(OverChannel(x1, x2, a2)) == OverChannel(x1, x2, a2)
  {
    var lo, hi := Min(x1, x2), Max(x1, x2);
    var s := x1 * (0xFF - a2) + x2 * a2;
    MulLe(lo, x1, 0xFF - a2);
    MulLe(lo, x2, a2);
    MulLe(x1, hi, 0xFF - a2);
    MulLe(x2, hi, a2);
    assert lo * 0xFF <= s <= hi * 0xFF by {
      assert lo * (0xFF - a2) + lo * a2 == lo * 0xFF;
      assert hi * (0xFF - a2) + hi * a2 == hi * 0xFF;
    }
    DivUnique(lo * 0xFF, 0xFF, lo, 0);
    DivBounds(s, 0xFF, lo, hi);
  }

  /** The channels of a blended word: red, green and blue composited without
      clamping, alpha taken from the base. */
  lemma BlendChannels(c1: u32, c2: u32)
    ensures Red(Blend(c1, c2)) == OverChannel(Red(c1), Red(c2), Alpha(c2))
    ensures Green(Blend(c1, c2)) == OverChannel(Green(c1), Green(c2), Alpha(c2))
    ensures Blue(Blend(c1, c2)) == OverChannel(Blue(c1), Blue(c2), Alpha(c2))
    ensures Alpha(Blend(c1, c2)) == Alpha(c1)
  {
    OverChannelBetween(Red(c1), Red(c2), Alpha(c2));
    OverChannelBetween(Green(c1), Green(c2), Alpha(c2));
    OverChannelBetween(Blue(c1), Blue(c2), Alpha(c2));
    RgbaLanes8(OverChannel(Red(c1), Red(c2), Alpha(c2)), OverChannel(Green(c1), Green(c2), Alpha(c2)),
               OverChannel(Blue(c1), Blue(c2), Alpha(c2)), Alpha(c1));
  }

  /** Blending a fully transparent overlay leaves the base unchanged. */
  lemma BlendTransparent(c1: u32, c2: u32)
    requires Alpha(c2) == 0
    ensures Blend(c1, c2) == c1
  {
    OverChannelEnds(Red(c1), Red(c2));
    OverChannelEnds(Green(c1), Green(c2));
    OverChannelEnds(Blue(c1), Blue(c2));
    assert Blend(c1, c2) == Rgba(Red(c1), Green(c1), Blue(c1), Alpha(c1));
    RgbaOfLanes(c1);
  }

  /** Blending a fully opaque overlay takes its red, green and blue and keeps
      the base's alpha. */
  lemma BlendOpaque(c1: u32, c2: u32)
    requires Alpha(c2) == 0xFF
    ensures Blend(c1, c2) == Rgba(Red(c2), Green(c2), Blue(c2), Alpha(c1))
  {
    OverChannelEnds(Red(c1), Red(c2));
    OverChannelEnds(Green(c1), Green(c2));
    OverChannelEnds(Blue(c1), Blue(c2));
  }

  /** The two compositing formulas of the color model agree up to rounding:
      blend_colors floors (x1*(255-a) + x2*a)/255 while jgl_mix_comps truncates
      (x2-x1)*a/255 toward zero, so they coincide when the overlay channel is
      not below the base and otherwise the mix may be one larger. */
  lemma OverVersusMix(x1: u8, x2: u8, a: u8)
    ensures OverChannel(x1, x2, a) <= MixComps(x1, x2, a) <= OverChannel(x1, x2, a) + 1
    ensures x1 <= x2 ==> MixComps(x1, x2, a) == OverChannel(x1, x2, a)
  {
    var s := (x2 - x1) * a;
    MixCompsBetween(x1, x2, a);
    TDivFloor(s, 0xFF);
    assert x1 * (0xFF - a) + x2 * a == x1 * 0xFF + s;
    assert (x1 * 0xFF + s) / 0xFF == x1 + s / 0xFF by {
      DivUnique(x1 * 0xFF + s, 0xFF, x1 + s / 0xFF, s % 0xFF);
    }
    assert x1 <= x2 ==> s >= 0 by {
      if x1 <= x2 { MulLe(0, x2 - x1, a); }
    }
  }

  /** blend_colors: composites the overlay c2 onto the pixel behind the pointer
      c1, here slot k of the pixel array; no other slot changes. */
  method BlendColors(pixels: array<u32>, k: nat, c2: u32)
    requires k < pixels.Length
    modifies pixels
    ensures pixels[k] == Blend(old(pixels[k]), c2)
    ensures forall i :: 0 <= i < pixels.Length && i != k ==> pixels[i] == old(pixels[i])
  {
    ghost var c1 := pixels[k];
    var r1: nat := Red(pixels[k]);
    var g1: nat := Green(pixels[k]);
    var b1: nat := Blue(pixels[k]);
    var a1: nat := Alpha(pixels[k]);

    var r2: nat := Red(c2);
    var g2: nat := Green(c2);
    var b2: nat := Blue(c2);
    var a2: nat := Alpha(c2);
    NatProduct(r1, 0xFF - a2); NatProduct(g1, 0xFF - a2); NatProduct(b1, 0xFF - a2);
    NatProduct(r2, a2); NatProduct(g2, a2); NatProduct(b2, a2);

    r1 := (r1 * (0xFF - a2) + r2 * a2) / 0xFF; if r1 > 0xFF { r1 := 0xFF; }
    g1 := (g1 * (0xFF - a2) + g2 * a2) / 0xFF; if g1 > 0xFF { g1 := 0xFF; }
    b1 := (b1 * (0xFF - a2) + b2 * a2) / 0xFF; if b1 > 0xFF { b1 := 0xFF; }

    assert r1 == Clamp(OverChannel(Red(c1), Red(c2), Alpha(c2)));
    assert g1 == Clamp(OverChannel(Green(c1), Green(c2), Alpha(c2)));
    assert b1 == Clamp(OverChannel(Blue(c1), Blue(c2), Alpha(c2)));
    pixels[k] := Rgba(r1, g1, b1, a1);
  }
}
