/**
 * The two generators, `generate_rectangle_spectacle` and
 * `generate_round_spectacle`: parse both colours, paint the parts of each
 * channel in the source's order (frames, lenses, bridge, temples; last write
 * wins) and stack the channels into one RGBA image.
 */
module Spectacle {
  import opened Wrappers
  import opened Geometry
  import opened HexColor
  import opened Layout
  import opened Raster

  /** Alpha of the frames, bridge and temples. */
  const Opaque: Byte := 255

  /** Alpha of the lenses, which are drawn see-through. */
  const Translucent: Byte := 50

  /** Channel k (0 red, 1 green, 2 blue, 3 alpha) of a colour drawn with the given alpha. */
  function Tint(c: Rgb, alpha: Byte, k: nat): (v: Byte)
    requires IsByteRgb(c) && k < 4
    ensures k < 3 ==> v == [c.red, c.green, c.blue][k]
    ensures k == 3 ==> v == alpha
  {
    if k == 0 then c.red else if k == 1 then c.green else if k == 2 then c.blue else alpha
  }

  /** Both colours parse, and every component fits the `uint8` channels. */
  predicate ColoursOk(frameColor: string, lensColor: string) {
    HexToRgb(frameColor).Some? && IsByteRgb(HexToRgb(frameColor).value)
    && HexToRgb(lensColor).Some? && IsByteRgb(HexToRgb(lensColor).value)
  }

  /** Both colours parse, whatever their components. */
  predicate ColoursParse(frameColor: string, lensColor: string) {
    HexToRgb(frameColor).Some? && HexToRgb(lensColor).Some?
  }

  /**
   * A colour stored into `uint8` channels by a NumPy that wraps out-of-range
   * integers: each component is taken modulo 256, so bytes are kept as they
   * are and -15 becomes 241.
   */
  function WrapRgb(c: Rgb): (w: Rgb)
    ensures IsByteRgb(w)
    ensures IsByteRgb(c) ==> w == c
    ensures (c.red - w.red) % 256 == 0 && (c.green - w.green) % 256 == 0 && (c.blue - w.blue) % 256 == 0
  {
    Rgb(c.red % 256, c.green % 256, c.blue % 256)
  }

  /** A colour whose components do not all fit a byte is refused by the byte check but wrapped by `WrapRgb`. */
  lemma NegativeComponentWraps()
    ensures HexToRgb("#-f0000").Some? && !IsByteRgb(HexToRgb("#-f0000").value)
    ensures WrapRgb(HexToRgb("#-f0000").value) == Rgb(241, 0, 0)
  {
    NegativeComponent();
    var c := Rgb(-15, 0, 0);
    assert WrapRgb(c) == Rgb(241, 0, 0);
  }

  /** The image the generators return: a 256 x 512 x 4 array of bytes. */
  predicate IsImage(img: array3<Byte>) {
    img.Length0 == Rows && img.Length1 == Cols && img.Length2 == 4
  }

  // ---------------------------------------------------------------------------
  // Painting the parts

  /** The pixels of the seven parts of a pair of spectacles, whichever style drew them. */
  datatype Parts = Parts(
    leftFrame: Region, rightFrame: Region, leftLens: Region, rightLens: Region,
    bridge: Region, leftTemple: Region, rightTemple: Region)

  predicate PartsInCanvas(parts: Parts) {
    RegionInCanvas(parts.leftFrame) && RegionInCanvas(parts.rightFrame)
    && RegionInCanvas(parts.leftLens) && RegionInCanvas(parts.rightLens)
    && RegionInCanvas(parts.bridge)
    && RegionInCanvas(parts.leftTemple) && RegionInCanvas(parts.rightTemple)
  }

  /** p lies on the bridge or on a temple, the parts painted last. */
  predicate OnBridgeOrTemple(parts: Parts, p: Point) {
    InRegion(parts.bridge, p) || InRegion(parts.leftTemple, p) || InRegion(parts.rightTemple, p)
  }

  predicate OnLens(parts: Parts, p: Point) {
    InRegion(parts.leftLens, p) || InRegion(parts.rightLens, p)
  }

  predicate OnFrame(parts: Parts, p: Point) {
    InRegion(parts.leftFrame, p) || InRegion(parts.rightFrame, p)
  }

  /**
   * The writes to channel k in the order the source makes them: the two
   * frames (the left one first when `leftFrameFirst`), the left lens, the
   * right lens, the bridge, the left temple, the right temple. Lenses take the
   * lens colour and alpha 50, every other part the frame colour and alpha 255.
   */
  function Layers(parts: Parts, leftFrameFirst: bool, frame: Rgb, lens: Rgb, k: nat): (layers: seq<Layer>)
    requires IsByteRgb(frame) && IsByteRgb(lens) && k < 4
    ensures |layers| == 7
  {
    var f, l := Tint(frame, Opaque, k), Tint(lens, Translucent, k);
    var leftFrame, rightFrame := Layer(parts.leftFrame, f), Layer(parts.rightFrame, f);
    (if leftFrameFirst then [leftFrame, rightFrame] else [rightFrame, leftFrame])
    + [Layer(parts.leftLens, l), Layer(parts.rightLens, l), Layer(parts.bridge, f),
       Layer(parts.leftTemple, f), Layer(parts.rightTemple, f)]
  }

  /** Channel k of pixel p once the channel's writes are done on a zeroed canvas. */
  function Pixel(parts: Parts, leftFrameFirst: bool, frame: Rgb, lens: Rgb, k: nat, p: Point): Byte
    requires IsByteRgb(frame) && IsByteRgb(lens) && k < 4
  {
    Painted(Layers(parts, leftFrameFirst, frame, lens, k), 0, p)
  }

  lemma PartsLayersInCanvas(parts: Parts, leftFrameFirst: bool, frame: Rgb, lens: Rgb, k: nat)
    requires PartsInCanvas(parts) && IsByteRgb(frame) && IsByteRgb(lens) && k < 4
    ensures LayersInCanvas(Layers(parts, leftFrameFirst, frame, lens, k))
  {
  }

  /** A pixel outside every part stays 0 in all four channels. */
  lemma BackgroundStaysClear(parts: Parts, leftFrameFirst: bool, frame: Rgb, lens: Rgb, k: nat, p: Point)
    requires IsByteRgb(frame) && IsByteRgb(lens) && k < 4
    requires !OnFrame(parts, p) && !OnLens(parts, p) && !OnBridgeOrTemple(parts, p)
    ensures Pixel(parts, leftFrameFirst, frame, lens, k, p) == 0
  {
    PaintedUncovered(Layers(parts, leftFrameFirst, frame, lens, k), 0, p);
  }

  /**
   * A lens pixel not on the bridge or a temple shows the lens colour with
   * alpha 50, even inside a frame, because the frames were painted first.
   */
  lemma LensShowsThrough(parts: Parts, leftFrameFirst: bool, frame: Rgb, lens: Rgb, k: nat, p: Point)
    requires IsByteRgb(frame) && IsByteRgb(lens) && k < 4
    requires OnLens(parts, p) && !OnBridgeOrTemple(parts, p)
    ensures Pixel(parts, leftFrameFirst, frame, lens, k, p) == Tint(lens, Translucent, k)
  {
    var layers := Layers(parts, leftFrameFirst, frame, lens, k);
    if InRegion(parts.rightLens, p) {
      PaintedTopmost(layers, 0, p, 3);
    } else {
      PaintedTopmost(layers, 0, p, 2);
    }
  }

  /** A bridge or temple pixel shows the frame colour with alpha 255, over any lens or frame. */
  lemma BridgeAndTemplesOnTop(parts: Parts, leftFrameFirst: bool, frame: Rgb, lens: Rgb, k: nat, p: Point)
    requires IsByteRgb(frame) && IsByteRgb(lens) && k < 4
    requires OnBridgeOrTemple(parts, p)
    ensures Pixel(parts, leftFrameFirst, frame, lens, k, p) == Tint(frame, Opaque, k)
  {
    var layers := Layers(parts, leftFrameFirst, frame, lens, k);
    if InRegion(parts.rightTemple, p) {
      PaintedTopmost(layers, 0, p, 6);
    } else if InRegion(parts.leftTemple, p) {
      PaintedTopmost(layers, 0, p, 5);
    } else {
      PaintedTopmost(layers, 0, p, 4);
    }
  }

  /** A frame pixel outside both lenses, the bridge and the temples is the opaque frame colour. */
  lemma FrameBorderShows(parts: Parts, leftFrameFirst: bool, frame: Rgb, lens: Rgb, k: nat, p: Point)
    requires IsByteRgb(frame) && IsByteRgb(lens) && k < 4
    requires OnFrame(parts, p) && !OnLens(parts, p) && !OnBridgeOrTemple(parts, p)
    ensures Pixel(parts, leftFrameFirst, frame, lens, k, p) == Tint(frame, Opaque, k)
  {
    var layers := Layers(parts, leftFrameFirst, frame, lens, k);
    if InRegion(layers[1].region, p) {
      PaintedTopmost(layers, 0, p, 1);
    } else {
      PaintedTopmost(layers, 0, p, 0);
    }
  }

  /**
   * Every channel value is the background 0, the lens colour with alpha 50 or
   * the frame colour with alpha 255: painting never mixes colours.
   */
  lemma PaletteOnly(parts: Parts, leftFrameFirst: bool, frame: Rgb, lens: Rgb, k: nat, p: Point)
    requires IsByteRgb(frame) && IsByteRgb(lens) && k < 4
    ensures Pixel(parts, leftFrameFirst, frame, lens, k, p)
            in {0, Tint(frame, Opaque, k), Tint(lens, Translucent, k)}
  {
    var layers := Layers(parts, leftFrameFirst, frame, lens, k);
    var v := Painted(layers, 0, p);
    if v != 0 {
      var i :| 0 <= i < |layers| && InRegion(layers[i].region, p) && v == layers[i].value;
    }
  }

  /**
   * Which frame a channel paints first makes no difference, since both get
   * the same value: the round style's mixed frame order draws the same image.
   */
  lemma FrameOrderIrrelevant(parts: Parts, frame: Rgb, lens: Rgb, k: nat, p: Point)
    requires IsByteRgb(frame) && IsByteRgb(lens) && k < 4
    ensures Pixel(parts, true, frame, lens, k, p) == Pixel(parts, false, frame, lens, k, p)
  {
    if OnBridgeOrTemple(parts, p) {
      BridgeAndTemplesOnTop(parts, true, frame, lens, k, p);
      BridgeAndTemplesOnTop(parts, false, frame, lens, k, p);
    } else if OnLens(parts, p) {
      LensShowsThrough(parts, true, frame, lens, k, p);
      LensShowsThrough(parts, false, frame, lens, k, p);
    } else if OnFrame(parts, p) {
      FrameBorderShows(parts, true, frame, lens, k, p);
      FrameBorderShows(parts, false, frame, lens, k, p);
    } else {
      BackgroundStaysClear(parts, true, frame, lens, k, p);
      BackgroundStaysClear(parts, false, frame, lens, k, p);
    }
  }

  /**
   * Four zeroed channels, each painted with its own list of writes, stacked
   * into one image: channel k of pixel (r, c) is what its writes leave there.
   */
  method PaintAndStack(red: seq<Layer>, green: seq<Layer>, blue: seq<Layer>, alpha: seq<Layer>)
    returns (img: array3<Byte>)
    requires LayersInCanvas(red) && LayersInCanvas(green)
    requires LayersInCanvas(blue) && LayersInCanvas(alpha)
    ensures fresh(img) && IsImage(img)
    ensures forall r, c :: 0 <= r < Rows && 0 <= c < Cols ==>
              img[r, c, 0] == Painted(red, 0, Point(r, c)) && img[r, c, 1] == Painted(green, 0, Point(r, c))
              && img[r, c, 2] == Painted(blue, 0, Point(r, c)) && img[r, c, 3] == Painted(alpha, 0, Point(r, c))
  {
    var imgr := NewChannel();
    var imgg := NewChannel();
    var imgb := NewChannel();
    var imga := NewChannel();
    PaintLayers(imgr, red);
    PaintLayers(imgg, green);
    PaintLayers(imgb, blue);
    PaintLayers(imga, alpha);
    img := Stack(imgr, imgg, imgb, imga);
  }

  // ---------------------------------------------------------------------------
  // Rectangle style

  /**
   * The rectangle-style parts: the rasterized boxes of `RectCorners`. They lie
   * on the canvas when the layout fits it; with non-negative measures each
   * lens lies within its frame; with a bridge at least a pixel wide the two
   * lenses share no pixel.
   */
  function RectParts(m: RectMeasures): (parts: Parts)
    ensures RectFits(m) ==> PartsInCanvas(parts)
    ensures 0 <= m.height && 0 <= m.width && 0 <= m.templeW ==>
              (forall p :: InRegion(parts.leftLens, p) ==> InRegion(parts.leftFrame, p))
              && (forall p :: InRegion(parts.rightLens, p) ==> InRegion(parts.rightFrame, p))
    ensures 1 <= m.bridgeW && 0 <= m.width ==>
              forall p :: !(InRegion(parts.leftLens, p) && InRegion(parts.rightLens, p))
  {
    assert RectFits(m) ==> BoxInCanvas(RectBox(m, LeftFrame)) && BoxInCanvas(RectBox(m, RightFrame))
                           && BoxInCanvas(RectBox(m, LeftLens)) && BoxInCanvas(RectBox(m, RightLens))
                           && BoxInCanvas(RectBox(m, Bridge))
                           && BoxInCanvas(RectBox(m, LeftTemple)) && BoxInCanvas(RectBox(m, RightTemple));
    assert 0 <= m.height && 0 <= m.width && 0 <= m.templeW ==>
             (forall p :: InBox(RectBox(m, LeftLens), p) ==> InBox(RectBox(m, LeftFrame), p))
             && (forall p :: InBox(RectBox(m, RightLens), p) ==> InBox(RectBox(m, RightFrame), p)) by {
      if 0 <= m.height && 0 <= m.width && 0 <= m.templeW {
        RectLensInsideFrame(m);
      }
    }
    assert 1 <= m.bridgeW && 0 <= m.width ==>
             forall p :: !(InBox(RectBox(m, LeftLens), p) && InBox(RectBox(m, RightLens), p)) by {
      if 1 <= m.bridgeW && 0 <= m.width {
        RectLensesDisjoint(m);
      }
    }
    Parts(Rect(RectBox(m, LeftFrame)), Rect(RectBox(m, RightFrame)),
          Rect(RectBox(m, LeftLens)), Rect(RectBox(m, RightLens)), Rect(RectBox(m, Bridge)),
          Rect(RectBox(m, LeftTemple)), Rect(RectBox(m, RightTemple)))
  }

  /**
   * `generate_rectangle_spectacle` from the converted measures: `None` when a
   * colour does not parse or does not fit a byte; otherwise a fresh image
   * whose channel k at (r, c) is what that channel's writes leave there, every
   * channel painting the right frame before the left.
   */
  method GenerateRectangle(m: RectMeasures, frameColor: string, lensColor: string)
    returns (res: Option<array3<Byte>>)
    requires RectFits(m)
    ensures res.Some? <==> ColoursOk(frameColor, lensColor)
    ensures res.Some? ==> fresh(res.value) && IsImage(res.value)
    ensures res.Some? ==> forall r, c, k :: 0 <= r < Rows && 0 <= c < Cols && 0 <= k < 4 ==>
              res.value[r, c, k] == Pixel(RectParts(m), false, HexToRgb(frameColor).value,
                                          HexToRgb(lensColor).value, k, Point(r, c))
  {
    if !ColoursOk(frameColor, lensColor) {
      return None;
    }
    var frame, lens := HexToRgb(frameColor).value, HexToRgb(lensColor).value;
    var parts := RectParts(m);
    PartsLayersInCanvas(parts, false, frame, lens, 0);
    PartsLayersInCanvas(parts, false, frame, lens, 1);
    PartsLayersInCanvas(parts, false, frame, lens, 2);
    PartsLayersInCanvas(parts, false, frame, lens, 3);
    var img := PaintAndStack(Layers(parts, false, frame, lens, 0), Layers(parts, false, frame, lens, 1),
                             Layers(parts, false, frame, lens, 2), Layers(parts, false, frame, lens, 3));
    forall r, c, k | 0 <= r < Rows && 0 <= c < Cols && 0 <= k < 4
      ensures img[r, c, k] == Pixel(parts, false, frame, lens, k, Point(r, c))
    {
      assert k == 0 || k == 1 || k == 2 || k == 3;
    }
    return Some(img);
  }

  // ---------------------------------------------------------------------------
  // Round style

  /** Every temple pixel lies strictly beyond the horizontal extent of its side's lens circle. */
  ghost predicate TemplesBeyondLensCircles(m: RoundMeasures, parts: Parts) {
    var left, right := RoundLensCircle(m, Left), RoundLensCircle(m, Right);
    (forall p :: InRegion(parts.leftTemple, p) ==> p.col as real < left.col - left.radius)
    && (forall p :: InRegion(parts.rightTemple, p) ==> p.col as real > right.col + right.radius)
  }

  /**
   * The round-style parts. `disc` stands for the circle rasterizer, which is
   * not part of this model: the lenses and frames are its pixels for the
   * circles of `RoundLensCircle` and `RoundFrameCircle`, and the bridge and
   * temples are rectangle boxes. With temple_holder_w >= 2 and the parts on
   * the canvas, each temple lies beyond the horizontal extent of its lens circle.
   */
  function RoundParts(m: RoundMeasures, disc: Circle -> seq<Point>): (parts: Parts)
    ensures parts.leftLens == Pixels(disc(RoundLensCircle(m, Left)))
    ensures parts.rightLens == Pixels(disc(RoundLensCircle(m, Right)))
    ensures parts.leftFrame == Pixels(disc(RoundFrameCircle(m, Left)))
    ensures parts.rightFrame == Pixels(disc(RoundFrameCircle(m, Right)))
    ensures 2 <= m.templeW && PartsInCanvas(parts) ==> TemplesBeyondLensCircles(m, parts)
  {
    var parts := Parts(Pixels(disc(RoundFrameCircle(m, Left))), Pixels(disc(RoundFrameCircle(m, Right))),
                       Pixels(disc(RoundLensCircle(m, Left))), Pixels(disc(RoundLensCircle(m, Right))),
                       Rect(RoundBridgeBox(m)), Rect(RoundTempleBox(m, Left)), Rect(RoundTempleBox(m, Right)));
    assert 2 <= m.templeW && PartsInCanvas(parts) ==> TemplesBeyondLensCircles(m, parts) by {
      if 2 <= m.templeW && PartsInCanvas(parts) {
        RoundTemplesBeyondLenses(m);
      }
    }
    parts
  }

  /**
   * `generate_round_spectacle` from the converted measures and the circle
   * rasterizer: `None` when a colour does not parse; otherwise a fresh image
   * whose channel k at (r, c) is what that channel's writes leave there, the
   * colour components wrapped into bytes. Red and green paint the left frame
   * first, blue and alpha the right frame first.
   */
  method GenerateRound(m: RoundMeasures, disc: Circle -> seq<Point>, frameColor: string, lensColor: string)
    returns (res: Option<array3<Byte>>)
    requires PartsInCanvas(RoundParts(m, disc))
    ensures res.Some? <==> ColoursParse(frameColor, lensColor)
    ensures res.Some? ==> fresh(res.value) && IsImage(res.value)
    ensures res.Some? ==> forall r, c, k :: 0 <= r < Rows && 0 <= c < Cols && 0 <= k < 4 ==>
              res.value[r, c, k] == Pixel(RoundParts(m, disc), k < 2, WrapRgb(HexToRgb(frameColor).value),
                                          WrapRgb(HexToRgb(lensColor).value), k, Point(r, c))
  {
    if !ColoursParse(frameColor, lensColor) {
      return None;
    }
    var frame, lens := WrapRgb(HexToRgb(frameColor).value), WrapRgb(HexToRgb(lensColor).value);
    var parts := RoundParts(m, disc);
    PartsLayersInCanvas(parts, true, frame, lens, 0);
    PartsLayersInCanvas(parts, true, frame, lens, 1);
    PartsLayersInCanvas(parts, false, frame, lens, 2);
    PartsLayersInCanvas(parts, false, frame, lens, 3);
    var img := PaintAndStack(Layers(parts, true, frame, lens, 0), Layers(parts, true, frame, lens, 1),
                             Layers(parts, false, frame, lens, 2), Layers(parts, false, frame, lens, 3));
    forall r, c, k | 0 <= r < Rows && 0 <= c < Cols && 0 <= k < 4
      ensures img[r, c, k] == Pixel(parts, k < 2, frame, lens, k, Point(r, c))
    {
      assert k == 0 || k == 1 || k == 2 || k == 3;
    }
    return Some(img);
  }
}
