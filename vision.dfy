/*
  The two pieces of the screen reader whose logic is index arithmetic rather
  than image processing: the corner order handed to the perspective warp
  (`get_perspective`) and the cutting of the warped board into 81 cells
  (`split_boxes`). Pixels, the warp itself and the resampling are not part
  of this model; regions are described by their pixel bounds.
*/
module Vision {

  /** A pixel position: x grows to the right, y grows downwards. */
  datatype Point = Point(x: int, y: int)

  /** One correspondence handed to the perspective transform. */
  datatype Pair = Pair(source: Point, target: Point)

  // ---------------------------------------------------------------------
  // Corner order.

  /** The quadrilateral's vertices are expected in the order the contour
      walk delivers them: top-left, bottom-left, bottom-right, top-right.
      Vertex k of that walk belongs at this corner of the height x width
      output image. */
  function Corner(k: int, height: int, width: int): Point
    requires 0 <= k < 4
  {
    Point(if k == 2 || k == 3 then width else 0, if k == 1 || k == 2 then height else 0)
  }

  /** `get_perspective`'s point lists: the sources are location[0],
      location[3], location[1], location[2], paired in that order with
      (0,0), (width,0), (0,height), (width,height). Every vertex is sent to
      its own corner, and nothing else is sent anywhere. */
  function PerspectivePairs(location: seq<Point>, height: int, width: int): (pairs: seq<Pair>)
    requires |location| == 4
    ensures |pairs| == 4
    ensures forall k :: 0 <= k < 4 ==> Pair(location[k], Corner(k, height, width)) in pairs
    ensures forall t :: 0 <= t < 4 ==>
      exists k :: 0 <= k < 4 && pairs[t] == Pair(location[k], Corner(k, height, width))
  {
    var pairs := [Pair(location[0], Point(0, 0)), Pair(location[3], Point(width, 0)),
                  Pair(location[1], Point(0, height)), Pair(location[2], Point(width, height))];
    assert pairs[0] == Pair(location[0], Corner(0, height, width));
    assert pairs[1] == Pair(location[3], Corner(3, height, width));
    assert pairs[2] == Pair(location[1], Corner(1, height, width));
    assert pairs[3] == Pair(location[2], Corner(2, height, width));
    pairs
  }

  /** The destinations are the four corners of the output image, each used
      once. */
  lemma CornersDistinct(height: int, width: int, k: int, l: int)
    requires height > 0 && width > 0 && 0 <= k < 4 && 0 <= l < 4
    ensures Corner(k, height, width) == Corner(l, height, width) <==> k == l
  {
  }

  /** Consecutive vertices of the quadrilateral (its sides, the closing one
      included) land on corners joined by a side of the output rectangle,
      never on a diagonal, so the warp does not fold the board over. */
  lemma SidesMapToSides(height: int, width: int, k: int)
    requires height > 0 && width > 0 && 0 <= k < 4
    ensures var a, b := Corner(k, height, width), Corner((k + 1) % 4, height, width);
      (a.x == b.x) != (a.y == b.y)
  {
  }

  // ---------------------------------------------------------------------
  // Cutting the board into cells.

  /** A rectangle of pixels: rows top .. top+height-1, columns
      left .. left+width-1. */
  datatype Region = Region(top: int, left: int, height: int, width: int)

  predicate Contains(b: Region, y: int, x: int)
  {
    b.top <= y < b.top + b.height && b.left <= x < b.left + b.width
  }

  /** Horizontal band r crossed with vertical band c of a height x width
      board cut into nine equal bands each way. */
  function Box(height: int, width: int, r: int, c: int): Region
  {
    Region(r * (height / 9), c * (width / 9), height / 9, width / 9)
  }

  /** `split_boxes`: cut the board into nine horizontal bands, each band into
      nine cells, and collect the cells band by band. Cell 9*r + c is band r
      crossed with band c. The cut needs both sides divisible by nine, as
      the array split it uses does. */
  method SplitBoxes(height: int, width: int) returns (boxes: seq<Region>)
    requires height >= 0 && width >= 0 && height % 9 == 0 && width % 9 == 0
    ensures |boxes| == 81
    ensures forall p :: 0 <= p < 81 ==> boxes[p] == Box(height, width, p / 9, p % 9)
  {
    boxes := [];
    for r := 0 to 9
      invariant |boxes| == 9 * r
      invariant forall p :: 0 <= p < |boxes| ==> boxes[p] == Box(height, width, p / 9, p % 9)
    {
      for c := 0 to 9
        invariant |boxes| == 9 * r + c
        invariant forall p :: 0 <= p < |boxes| ==> boxes[p] == Box(height, width, p / 9, p % 9)
      {
        boxes := boxes + [Box(height, width, r, c)];
      }
    }
  }

  lemma {:induction false} MulMono(a: int, c: int, b: int)
    requires 0 <= a <= c && b >= 0
    ensures a * b <= c * b
    decreases c - a
  {
    if a < c {
      MulMono(a + 1, c, b);
      assert (a + 1) * b == a * b + b;
    }
  }

  /** Band r of width b holds exactly the coordinates whose quotient by b
      is r. */
  lemma Band(y: int, r: int, b: int)
    requires b > 0 && y >= 0 && r >= 0
    ensures r * b <= y < r * b + b <==> r == y / b
  {
    var q := y / b;
    assert q * b <= y < q * b + b;
    if r < q {
      MulMono(r + 1, q, b);
      assert (r + 1) * b == r * b + b;
    } else if r > q {
      MulMono(q + 1, r, b);
      assert (q + 1) * b == q * b + b;
    }
  }

  /** Cell index p names band p / 9 and band p % 9, and no other pair. */
  lemma CellIndex(qy: int, qx: int, p: int)
    requires 0 <= qy < 9 && 0 <= qx < 9 && 0 <= p < 81
    ensures p / 9 == qy && p % 9 == qx <==> p == 9 * qy + qx
  {
  }

  lemma QuotientBelowNine(y: int, b: int)
    requires b > 0 && 0 <= y < 9 * b
    ensures 0 <= y / b < 9
  {
  }

  /** The 81 cells tile the board: every pixel lies in exactly one cell,
      the one in band y / (height/9), band x / (width/9). */
  lemma CellsTileBoard(height: int, width: int, y: int, x: int, p: int)
    requires height > 0 && width > 0 && height % 9 == 0 && width % 9 == 0
    requires 0 <= y < height && 0 <= x < width && 0 <= p < 81
    ensures Contains(Box(height, width, p / 9, p % 9), y, x) <==>
      p == 9 * (y / (height / 9)) + x / (width / 9)
  {
    var bh, bw := height / 9, width / 9;
    QuotientBelowNine(y, bh);
    QuotientBelowNine(x, bw);
    Band(y, p / 9, bh);
    Band(x, p % 9, bw);
    CellIndex(y / bh, x / bw, p);
  }
}
