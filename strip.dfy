/**
 * The LED strip as the animations see it: a buffer of packed 24-bit RGB
 * colours with the pixel primitives of the NeoPixel driver (`clear`,
 * `setPixelColor`, `getPixelColor`, `fill`). Indices past the end are
 * ignored on writes and read back as 0, as the driver does.
 */
module Strip {
  import opened Uint

  /** A packed 0xRRGGBB colour as stored for one pixel. */
  type Color = c: int | 0 <= c < 0x100_0000

  const BLACK: Color := 0

  /** The colour a pixel keeps of a packed 32-bit colour: the white byte is dropped. */
  function Pack(c: u32): (p: Color)
    ensures c < 0x100_0000 ==> p == c
    ensures p == c % 0x100_0000
  {
    c % 0x100_0000
  }

  /** The buffer `clear()` leaves behind. */
  function Cleared(n: nat): (r: seq<Color>)
    ensures |r| == n
    ensures forall i :: 0 <= i < n ==> r[i] == BLACK
  {
    seq(n, _ => BLACK)
  }

  /** `setPixelColor(i, c)`: writes pixel `i`; an index past the end changes nothing. */
  function SetPixel(pixels: seq<Color>, i: int, c: u32): (r: seq<Color>)
    ensures |r| == |pixels|
    ensures forall j :: 0 <= j < |r| ==> r[j] == if j == i then Pack(c) else pixels[j]
  {
    if 0 <= i < |pixels| then pixels[i := Pack(c)] else pixels
  }

  /** `getPixelColor(i)`: the stored colour, or 0 past the end. */
  function GetPixel(pixels: seq<Color>, i: int): (c: u32)
    ensures 0 <= i < |pixels| ==> c == pixels[i]
    ensures !(0 <= i < |pixels|) ==> c == 0
  {
    if 0 <= i < |pixels| then pixels[i] else 0
  }

  /** The end index `fill(c, first, count)` stops at: computed on uint16_t, so it can wrap. */
  function FillEnd(n: nat, first: u16, count: u16): nat
  {
    if count == 0 then n
    else if Wrap16(first + count) > n then n
    else Wrap16(first + count)
  }

  /** True when pixel `j` is written by `fill(c, first, count)` on a strip of `n` pixels. */
  predicate InFill(n: nat, first: u16, count: u16, j: int)
  {
    first < n && first <= j < FillEnd(n, first, count)
  }

  /** `fill(c, first, count)`: writes `c` on `[first, end)`; nothing when `first` is past the end. */
  function Fill(pixels: seq<Color>, c: u32, first: u16, count: u16): (r: seq<Color>)
    ensures |r| == |pixels|
    ensures forall j :: 0 <= j < |r| ==>
      r[j] == if InFill(|pixels|, first, count, j) then Pack(c) else pixels[j]
  {
    seq(|pixels|, j requires 0 <= j < |pixels| =>
      if InFill(|pixels|, first, count, j) then Pack(c) else pixels[j])
  }

  /** `fill` writes exactly `[first, first + count)` when that range lies inside the strip. */
  lemma FillRange(pixels: seq<Color>, c: u32, first: u16, count: u16, j: int)
    requires |pixels| < 0x1_0000
    requires 0 < count && first + count <= |pixels|
    requires 0 <= j < |pixels|
    ensures Fill(pixels, c, first, count)[j] == if first <= j < first + count then Pack(c) else pixels[j]
  {
  }

  /** `strip.clear()` */
  method ClearStrip(strip: array<Color>)
    modifies strip
    ensures strip[..] == Cleared(strip.Length)
  {
    var i := 0;
    while i < strip.Length
      invariant 0 <= i <= strip.Length
      invariant forall j :: 0 <= j < i ==> strip[j] == BLACK
    {
      strip[i] := BLACK;
      i := i + 1;
    }
  }

  /** `strip.setPixelColor(i, c)` */
  method SetPixelColor(strip: array<Color>, i: int, c: u32)
    modifies strip
    ensures strip[..] == SetPixel(old(strip[..]), i, c)
  {
    if 0 <= i < strip.Length {
      strip[i] := Pack(c);
    }
  }

  /** `strip.getPixelColor(i)` */
  method GetPixelColor(strip: array<Color>, i: int) returns (c: u32)
    ensures 0 <= i < strip.Length ==> c == strip[i]
    ensures !(0 <= i < strip.Length) ==> c == 0
  {
    c := if 0 <= i < strip.Length then strip[i] else 0;
  }

  /** `strip.fill(c, first, count)` */
  method FillStrip(strip: array<Color>, c: u32, first: u16, count: u16)
    modifies strip
    ensures strip[..] == Fill(old(strip[..]), c, first, count)
  {
    var n := strip.Length;
    if first >= n {
      return;
    }
    var end := FillEnd(n, first, count);
    var i := first;
    assert end <= n;
    while i < end
      invariant first <= i && (i <= end || i == first)
      invariant forall j :: 0 <= j < n && (j < first || j >= i) ==> strip[j] == old(strip[j])
      invariant forall j :: first <= j < i && j < n ==> strip[j] == Pack(c)
    {
      strip[i] := Pack(c);
      i := i + 1;
    }
  }
}
