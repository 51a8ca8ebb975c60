/**
 * Painting: each colour channel is a 256 x 512 byte array, and NumPy's
 * `img[rr, cc] = v` writes v at every pixel of a region, overwriting what was
 * there. The channels are finally stacked into one 256 x 512 x 4 image.
 */
module Raster {
  import opened Geometry

  /** The element type of every channel (`np.uint8`). */
  type Byte = x: int | 0 <= x < 256

  /**
   * A set of pixels to paint: the box `rectangle` returns, or the coordinate
   * list of another rasterizer (the circle rasterizer), possibly with repeats.
   */
  datatype Region = Rect(box: Box) | Pixels(points: seq<Point>)

  predicate InRegion(g: Region, p: Point) {
    match g
    case Rect(b) => InBox(b, p)
    case Pixels(ps) => p in ps
  }

  predicate RegionInCanvas(g: Region) {
    match g
    case Rect(b) => BoxInCanvas(b)
    case Pixels(ps) => forall i :: 0 <= i < |ps| ==> InCanvas(ps[i])
  }

  /** One assignment `channel[region] = value`. */
  datatype Layer = Layer(region: Region, value: Byte)

  predicate LayersInCanvas(layers: seq<Layer>) {
    forall i :: 0 <= i < |layers| ==> RegionInCanvas(layers[i].region)
  }

  /**
   * The value of pixel p after the layers are painted in order over `base`:
   * the last layer that covers p decides it. The value is the original one or
   * that of a layer covering p: painting never blends.
   */
  function Painted(layers: seq<Layer>, base: Byte, p: Point): (v: Byte)
    ensures v == base || exists i :: 0 <= i < |layers| && InRegion(layers[i].region, p) && v == layers[i].value
    decreases |layers|
  {
    if layers == [] then base
    else if InRegion(layers[|layers| - 1].region, p) then layers[|layers| - 1].value
    else Painted(layers[..|layers| - 1], base, p)
  }

  /** A pixel no layer covers keeps its original value. */
  lemma {:induction false} PaintedUncovered(layers: seq<Layer>, base: Byte, p: Point)
    requires forall i :: 0 <= i < |layers| ==> !InRegion(layers[i].region, p)
    ensures Painted(layers, base, p) == base
    decreases |layers|
  {
    if layers != [] {
      PaintedUncovered(layers[..|layers| - 1], base, p);
    }
  }

  /** A pixel ends with the value of the last layer that covers it. */
  lemma {:induction false} PaintedTopmost(layers: seq<Layer>, base: Byte, p: Point, i: nat)
    requires i < |layers| && InRegion(layers[i].region, p)
    requires forall j :: i < j < |layers| ==> !InRegion(layers[j].region, p)
    ensures Painted(layers, base, p) == layers[i].value
    decreases |layers|
  {
    if i < |layers| - 1 {
      PaintedTopmost(layers[..|layers| - 1], base, p, i);
    }
  }

  /** A channel: one byte per pixel of the 256 x 512 canvas. */
  predicate IsChannel(ch: array2<Byte>) {
    ch.Length0 == Rows && ch.Length1 == Cols
  }

  /** `np.zeros((256, 512), dtype=np.uint8)`. */
  method NewChannel() returns (ch: array2<Byte>)
    ensures fresh(ch) && IsChannel(ch)
    ensures forall r, c :: 0 <= r < Rows && 0 <= c < Cols ==> ch[r, c] == 0
  {
    ch := new Byte[Rows, Cols]((r, c) => 0);
  }

  /** `ch[region] = v`: every pixel of the region becomes v, every other pixel is unchanged. */
  method Paint(ch: array2<Byte>, g: Region, v: Byte)
    requires IsChannel(ch) && RegionInCanvas(g)
    modifies ch
    ensures forall r, c :: 0 <= r < Rows && 0 <= c < Cols ==>
              ch[r, c] == if InRegion(g, Point(r, c)) then v else old(ch[r, c])
  {
    match g
    case Rect(b) => PaintBox(ch, b, v);
    case Pixels(ps) => PaintPoints(ch, ps, v);
  }

  method PaintBox(ch: array2<Byte>, b: Box, v: Byte)
    requires IsChannel(ch) && BoxInCanvas(b)
    modifies ch
    ensures forall r, c :: 0 <= r < Rows && 0 <= c < Cols ==>
              ch[r, c] == if InBox(b, Point(r, c)) then v else old(ch[r, c])
  {
    var row := b.top;
    while row <= b.bottom
      invariant b.top <= row <= b.bottom + 1 || (b.bottom < b.top && row == b.top)
      invariant forall r, c :: 0 <= r < Rows && 0 <= c < Cols ==>
                  ch[r, c] == if b.top <= r < row && b.left <= c <= b.right then v else old(ch[r, c])
    {
      var col := b.left;
      while col <= b.right
        invariant b.left <= col <= b.right + 1 || (b.right < b.left && col == b.left)
        invariant forall r, c :: 0 <= r < Rows && 0 <= c < Cols ==>
                    ch[r, c] == if (b.top <= r < row && b.left <= c <= b.right)
                                   || (r == row && b.left <= c < col) then v else old(ch[r, c])
      {
        ch[row, col] := v;
        col := col + 1;
      }
      row := row + 1;
    }
  }

  method PaintPoints(ch: array2<Byte>, ps: seq<Point>, v: Byte)
    requires IsChannel(ch) && forall i :: 0 <= i < |ps| ==> InCanvas(ps[i])
    modifies ch
    ensures forall r, c :: 0 <= r < Rows && 0 <= c < Cols ==>
              ch[r, c] == if Point(r, c) in ps then v else old(ch[r, c])
  {
    for i := 0 to |ps|
      invariant forall r, c :: 0 <= r < Rows && 0 <= c < Cols ==>
                  ch[r, c] == if Point(r, c) in ps[..i] then v else old(ch[r, c])
    {
      ch[ps[i].row, ps[i].col] := v;
      assert ps[..i + 1] == ps[..i] + [ps[i]];
    }
    assert ps[..|ps|] == ps;
  }

  /** The channel's statements run in order: each pixel ends as `Painted` says. */
  method PaintLayers(ch: array2<Byte>, layers: seq<Layer>)
    requires IsChannel(ch) && LayersInCanvas(layers)
    modifies ch
    ensures forall r, c :: 0 <= r < Rows && 0 <= c < Cols ==>
              ch[r, c] == Painted(layers, old(ch[r, c]), Point(r, c))
  {
    for i := 0 to |layers|
      invariant forall r, c :: 0 <= r < Rows && 0 <= c < Cols ==>
                  ch[r, c] == Painted(layers[..i], old(ch[r, c]), Point(r, c))
    {
      Paint(ch, layers[i].region, layers[i].value);
      assert layers[..i + 1][..i] == layers[..i];
    }
    assert layers[..|layers|] == layers;
  }

  /** `final[:, :, k] = ch`: copy one channel into plane k of the image. */
  method CopyChannel(img: array3<Byte>, k: nat, ch: array2<Byte>)
    requires img.Length0 == Rows && img.Length1 == Cols && img.Length2 == 4 && k < 4
    requires IsChannel(ch)
    modifies img
    ensures forall r, c, j :: 0 <= r < Rows && 0 <= c < Cols && 0 <= j < 4 ==>
              img[r, c, j] == if j == k then ch[r, c] else old(img[r, c, j])
  {
    for row := 0 to Rows
      invariant forall r, c, j :: 0 <= r < Rows && 0 <= c < Cols && 0 <= j < 4 ==>
                  img[r, c, j] == if j == k && r < row then ch[r, c] else old(img[r, c, j])
    {
      for col := 0 to Cols
        invariant forall r, c, j :: 0 <= r < Rows && 0 <= c < Cols && 0 <= j < 4 ==>
                    img[r, c, j] == if j == k && (r < row || (r == row && c < col)) then ch[r, c]
                                    else old(img[r, c, j])
      {
        img[row, col, k] := ch[row, col];
      }
    }
  }

  /**
   * The final image: a fresh 256 x 512 x 4 array whose plane k is channel k,
   * in the order R, G, B, A.
   */
  method Stack(red: array2<Byte>, green: array2<Byte>, blue: array2<Byte>, alpha: array2<Byte>)
    returns (img: array3<Byte>)
    requires IsChannel(red) && IsChannel(green) && IsChannel(blue) && IsChannel(alpha)
    ensures fresh(img) && img.Length0 == Rows && img.Length1 == Cols && img.Length2 == 4
    ensures forall r, c :: 0 <= r < Rows && 0 <= c < Cols ==>
              img[r, c, 0] == red[r, c] && img[r, c, 1] == green[r, c]
              && img[r, c, 2] == blue[r, c] && img[r, c, 3] == alpha[r, c]
  {
    img := new Byte[Rows, Cols, 4]((r, c, k) => 0);
    CopyChannel(img, 0, red);
    CopyChannel(img, 1, green);
    CopyChannel(img, 2, blue);
    CopyChannel(img, 3, alpha);
  }
}
