/** Hold-And-Modify encoding in six planes. Each pixel's six-bit value holds a
    two-bit mode (bits 4 and 5) and a four-bit level (bits 0 to 3): mode 1
    sets the blue level of the colour carried along the scanline, mode 2 the
    red one and mode 3 the green one. The encoder changes the channel that is
    furthest from the pixel's 4-bit colour, preferring red, then green, on
    ties, and starts every scanline from black. */
module Ham {
  import opened Bits
  import opened Raster
  import opened Bitplanes

  /** A colour whose three channels are 4-bit levels. */
  predicate FourBit(c: Rgb)
  {
    c.r <= 15 && c.g <= 15 && c.b <= 15
  }

  /** `min(15, (int)(c / 16))`: the largest level `q <= 15` with `16 * q <= c`. */
  function Quantize(c: nat): (q: nat)
    ensures q <= 15 && 16 * q <= c
    ensures q < 15 ==> c < 16 * (q + 1)
  {
    if c / 16 < 15 then c / 16 else 15
  }

  /** The pixel's colour reduced to 4-bit levels. */
  function GetRGB(c: Rgb): (q: Rgb)
    ensures FourBit(q)
  {
    Rgb(Quantize(c.r), Quantize(c.g), Quantize(c.b))
  }

  function Abs(v: int): nat
  {
    if v < 0 then -v else v
  }

  /** What one pixel emits: its six-bit value and the colour carried on. */
  datatype Step = Step(value: nat, acc: Rgb)

  /** One HAM pixel: the channel of `q` furthest from the carried colour `acc`
      is copied into it, and its mode and level are the pixel's value. */
  function HamStep(acc: Rgb, q: Rgb): (s: Step)
    requires FourBit(acc) && FourBit(q)
    ensures 16 <= s.value < 64 && FourBit(s.acc)
  {
    var dr, dg, db := Abs(acc.r - q.r), Abs(acc.g - q.g), Abs(acc.b - q.b);
    var maxDiff := if dr >= dg && dr >= db then dr else if dg >= db then dg else db;
    if dr == maxDiff then Step(32 + q.r, acc.(r := q.r))
    else if dg == maxDiff then Step(48 + q.g, acc.(g := q.g))
    else Step(16 + q.b, acc.(b := q.b))
  }

  /** The hardware's reading of a modify value: mode 1 replaces blue, 2 red,
      3 green, each with the value's low four bits. */
  function Modify(prev: Rgb, value: nat): Rgb
  {
    var mode, level := value / 16, value % 16;
    if mode == 1 then prev.(b := level)
    else if mode == 2 then prev.(r := level)
    else if mode == 3 then prev.(g := level)
    else prev
  }

  /** The channel a step modifies is one furthest from the target, red winning
      every tie and green winning ties with blue; only that channel changes,
      and it takes the target's level. */
  lemma {:induction false} HamStepChoice(acc: Rgb, q: Rgb)
    requires FourBit(acc) && FourBit(q)
    ensures var s, dr, dg, db := HamStep(acc, q), Abs(acc.r - q.r), Abs(acc.g - q.g), Abs(acc.b - q.b);
      (s.value / 16 == 2 <==> dr >= dg && dr >= db) &&
      (s.value / 16 == 3 <==> dg > dr && dg >= db) &&
      (s.value / 16 == 1 <==> db > dr && db > dg) &&
      (s.value / 16 == 2 ==> s.acc == acc.(r := q.r)) &&
      (s.value / 16 == 3 ==> s.acc == acc.(g := q.g)) &&
      (s.value / 16 == 1 ==> s.acc == acc.(b := q.b))
  {
  }

  /** Decoding a step's value against the carried colour gives the colour the
      encoder carries on. */
  lemma {:induction false} ModifyInvertsStep(acc: Rgb, q: Rgb)
    requires FourBit(acc) && FourBit(q)
    ensures Modify(acc, HamStep(acc, q).value) == HamStep(acc, q).acc
  {
  }

  /** When the target differs from the carried colour in one channel at most,
      one pixel reaches it exactly. */
  lemma {:induction false} HamStepExact(acc: Rgb, q: Rgb)
    requires FourBit(acc) && FourBit(q)
    requires (acc.g == q.g && acc.b == q.b) || (acc.r == q.r && acc.b == q.b) || (acc.r == q.r && acc.g == q.g)
    ensures HamStep(acc, q).acc == q
  {
  }

  /** A 4-bit level shown as the 8-bit channel `17 * v` quantizes back to `v`. */
  lemma {:induction false} QuantizeLevel(v: nat)
    requires v <= 15
    ensures Quantize(17 * v) == v
  {
    DivModUnique(17 * v, 16, v, v);
  }

  /** Brighter channels never get a lower level. */
  lemma {:induction false} QuantizeMonotone(c: nat, d: nat)
    requires c <= d
    ensures Quantize(c) <= Quantize(d)
  {
  }

  // ---------------------------------------------------------------------------
  // Scanlines and images

  /** The colour carried after the first `x` pixels of a scanline. */
  function AccAt(line: seq<Rgb>, x: nat): (acc: Rgb)
    requires x <= |line|
    ensures FourBit(acc)
  {
    if x == 0 then Rgb(0, 0, 0) else HamStep(AccAt(line, x - 1), GetRGB(line[x - 1])).acc
  }

  /** The six-bit value the encoder emits for pixel `x` of a scanline. */
  function ValueAt(line: seq<Rgb>, x: nat): (v: nat)
    requires x < |line|
    ensures 16 <= v < 64
  {
    HamStep(AccAt(line, x), GetRGB(line[x])).value
  }

  /** The raster of six-bit values the HAM planes hold. */
  function ControlImage(img: Image<Rgb>): (c: Image<nat>)
    requires img.Valid()
    ensures c.Valid() && c.width == img.width && c.height == img.height
  {
    Image(img.width, img.height, ControlRows(img, img.height))
  }

  /** The values of the first `x` pixels of a scanline. */
  function ControlRow(line: seq<Rgb>, x: nat): (r: seq<nat>)
    requires x <= |line|
    ensures |r| == x
  {
    if x == 0 then [] else ControlRow(line, x - 1) + [ValueAt(line, x - 1)]
  }

  /** The value rows of the first `y` scanlines. */
  function ControlRows(img: Image<Rgb>, y: nat): (rows: seq<seq<nat>>)
    requires img.Valid() && y <= img.height
    ensures |rows| == y && forall yy :: 0 <= yy < y ==> |rows[yy]| == img.width
  {
    if y == 0 then [] else ControlRows(img, y - 1) + [ControlRow(img.pixels[y - 1], img.width)]
  }

  lemma {:induction false} ControlRowAt(line: seq<Rgb>, x: nat, k: nat)
    requires k < x <= |line|
    ensures ControlRow(line, x)[k] == ValueAt(line, k)
  {
    if k < x - 1 {
      ControlRowAt(line, x - 1, k);
    }
  }

  lemma {:induction false} ControlRowsAt(img: Image<Rgb>, y: nat, yy: nat)
    requires img.Valid() && yy < y <= img.height
    ensures ControlRows(img, y)[yy] == ControlRow(img.pixels[yy], img.width)
  {
    if yy < y - 1 {
      ControlRowsAt(img, y - 1, yy);
    }
  }

  /** Pixel `(x, y)` of the value raster is what the encoder emits there. */
  lemma {:induction false} ControlPixel(img: Image<Rgb>, y: nat, x: nat)
    requires img.Valid() && y < img.height && x < img.width
    ensures ControlImage(img).pixels[y][x] == ValueAt(img.pixels[y], x)
  {
    ControlRowsAt(img, img.height, y);
    ControlRowAt(img.pixels[y], img.width, x);
  }

  /** The display's colour after pixel `x`: Hold-And-Modify replayed from black
      over the emitted values. */
  function Displayed(values: seq<nat>, x: nat): Rgb
    requires x <= |values|
  {
    if x == 0 then Rgb(0, 0, 0) else Modify(Displayed(values, x - 1), values[x - 1])
  }

  /** Replaying a scanline's values reproduces the encoder's carried colour at
      every pixel. */
  lemma {:induction false} DisplayedIsCarried(img: Image<Rgb>, y: nat, x: nat)
    requires img.Valid() && y < img.height && x <= img.width
    ensures Displayed(ControlImage(img).pixels[y], x) == AccAt(img.pixels[y], x)
  {
    if x > 0 {
      DisplayedIsCarried(img, y, x - 1);
      ControlPixel(img, y, x - 1);
      ModifyInvertsStep(AccAt(img.pixels[y], x - 1), GetRGB(img.pixels[y][x - 1]));
    }
  }

  /** A red pixel after black: red has the largest difference and is set to
      level 15, value `32 + 15`. */
  lemma {:induction false} RedAfterBlack()
    ensures HamStep(Rgb(0, 0, 0), GetRGB(Rgb(255, 0, 0))) == Step(47, Rgb(15, 0, 0))
  {
  }

  // ---------------------------------------------------------------------------
  // The encoder

  /** Encodes a 24-bit image as six HAM planes; `palette` is not consulted. */
  method ConvertToHAM(img: Image<Rgb>, palette: seq<Rgb>) returns (planes: Planes)
    requires img.Valid()
    ensures Packed(planes, ControlImage(img), 6)
  {
    var width, height := img.width, img.height;
    ghost var control := ControlImage(img);
    planes := InitializeBitplanes(width, height, 6);
    StartProgress(planes, control, 6);
    var y := 0;
    while y < height
      invariant y <= height && Progress(planes, control, 6, y, 0, 0)
    {
      ControlRowsAt(img, height, y);
      planes := ConvertScanline(planes, img, control, y);
      y := y + 1;
    }
    ProgressPacked(planes, control, 6);
  }

  /** The body of the row loop: the colour carried starts black, and each
      pixel modifies its channel of largest difference. */
  method ConvertScanline(planes: Planes, img: Image<Rgb>, ghost control: Image<nat>, y: nat) returns (next: Planes)
    requires img.Valid() && y < img.height && Progress(planes, control, 6, y, 0, 0)
    requires control.width == img.width && control.height == img.height
    requires control.pixels[y] == ControlRow(img.pixels[y], img.width)
    ensures Progress(next, control, 6, y + 1, 0, 0)
  {
    next := planes;
    var cr: nat, cg: nat, cb: nat := 0, 0, 0;
    var x := 0;
    while x < img.width
      invariant x <= img.width && Progress(next, control, 6, y, x, 0)
      invariant Rgb(cr, cg, cb) == AccAt(img.pixels[y], x)
    {
      var value;
      value, cr, cg, cb := EncodePixel(img.pixels[y], x, cr, cg, cb);
      ControlRowAt(img.pixels[y], img.width, x);
      next := SetHAMBits(next, control, x, y, value);
      x := x + 1;
    }
    NextRow(next, control, 6, y);
  }

  /** One pixel of a scanline: its 4-bit colour, then the channel choice
      against the colour carried so far. */
  method EncodePixel(line: seq<Rgb>, x: nat, cr: nat, cg: nat, cb: nat) returns (value: nat, nr: nat, ng: nat, nb: nat)
    requires x < |line| && Rgb(cr, cg, cb) == AccAt(line, x)
    ensures value == ValueAt(line, x) && Rgb(nr, ng, nb) == AccAt(line, x + 1)
  {
    var rgb := GetRGB(line[x]);
    value, nr, ng, nb := ModifyChannel(cr, cg, cb, rgb);
  }

  /** The channel choice for one pixel: the differences to the carried colour
      `(cr, cg, cb)`, the largest of them, and the value and colour that follow. */
  method ModifyChannel(cr: nat, cg: nat, cb: nat, rgb: Rgb) returns (value: nat, nr: nat, ng: nat, nb: nat)
    requires FourBit(Rgb(cr, cg, cb)) && FourBit(rgb)
    ensures Step(value, Rgb(nr, ng, nb)) == HamStep(Rgb(cr, cg, cb), rgb)
  {
    nr, ng, nb := cr, cg, cb;
    var dr, dg, db := Abs(cr - rgb.r), Abs(cg - rgb.g), Abs(cb - rgb.b);
    var maxDiff := if dr >= dg && dr >= db then dr else if dg >= db then dg else db;
    if dr == maxDiff {
      value := 32 + rgb.r;
      nr := rgb.r;
    } else if dg == maxDiff {
      value := 48 + rgb.g;
      ng := rgb.g;
    } else {
      value := 16 + rgb.b;
      nb := rgb.b;
    }
  }

  /** Or-ing the six bits of `value` into the six planes at pixel `(x, y)`. */
  method SetHAMBits(planes: Planes, ghost control: Image<nat>, x: nat, y: nat, value: nat) returns (next: Planes)
    requires Progress(planes, control, 6, y, x, 0) && y < control.height && x < control.width
    requires value == control.pixels[y][x]
    ensures Progress(next, control, 6, y, x + 1, 0)
  {
    next := planes;
    var byteOffset := x / 8;
    var bitOffset := 7 - x % 8;
    var plane := 0;
    while plane < 6
      invariant plane <= 6 && Progress(next, control, 6, y, x, plane)
    {
      ghost var before, from := next, plane;
      if Bit(value, plane) == 1 {
        next := OrBit(next, plane, y, byteOffset, bitOffset);
      }
      plane := plane + 1;
      PackStep(before, control, 6, y, x, from, Bit(value, from), next, plane);
    }
    NextColumn(next, control, 6, y, x);
  }
}
