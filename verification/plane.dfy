/** The rendering engine `ComplexPlane`: a pixel grid, the visible region of the complex
    plane, and a render-validity flag that zooming and panning reset. */
module Plane {
  import opened Limits
  import opened Coloring
  import opened Escape
  import opened Partition

  /** `m_State`: CALCULATING means the buffer does not show the current region yet. */
  datatype State = Calculating | Displaying

  /** A point of the complex plane as the engine stores it (an `sf::Vector2f`). */
  datatype Point = Point(x: real, y: real)

  /** The visible region: its centre and the zoom level, which fixes its size
      (`BASE_WIDTH * BASE_ZOOM^zoomCount` by `BASE_HEIGHT * aspectRatio * BASE_ZOOM^zoomCount`). */
  datatype Region = Region(center: Point, zoomCount: int)

  /** One cell of the vertex buffer `m_vArray`. */
  datatype Vertex = Vertex(posX: int, posY: int, color: Rgb)

  /** A default-constructed SFML vertex: at the origin, white. */
  const Blank := Vertex(0, 0, Rgb(255, 255, 255))

  /** The row-major cell `j + i * width` of a `width` by `height` grid lies inside the
      buffer, and its column and row are `j` and `i` again. */
  lemma CellIndex(j: int, i: int, width: nat, height: nat)
    requires 0 <= j < width && 0 <= i < height
    ensures 0 <= j + i * width < width * height
    ensures (j + i * width) % width == j && (j + i * width) / width == i
  {
    assert i * width + width == (i + 1) * width;
    MulLe(i + 1, height, width);
    DivUnique(j + i * width, width, i, j);
  }

  /** Every buffer index is the cell of some column and row of the grid. */
  lemma IndexCell(k: int, width: nat, height: nat)
    requires 0 <= k < width * height
    ensures 0 < width
    ensures 0 <= k % width < width && 0 <= k / width < height
    ensures (k / width) * width + k % width == k
  {
  }

  class ComplexPlane {
    /** `m_pixel_size`, fixed at construction. */
    const width: nat
    const height: nat
    /** The iteration cap MAX_ITER. */
    const maxIter: nat
    /** `mapPixelToCoords` for a given region: floating point, not modelled. */
    const toPlane: (Region, int, int) -> Point
    /** The escape test of `countIterations`: floating point, not modelled. */
    const escapes: (Point, nat) -> bool
    /** `m_vArray`: `width * height` vertices in row-major order. */
    const pixels: array<Vertex>

    var center: Point
    var zoomCount: int
    var state: State
    var mouse: Point

    /** The buffer holds one vertex per pixel; its size (an `int` product in the engine)
        does not overflow, and every column and row survives the `float` position. */
    ghost predicate Valid()
    {
      && pixels.Length == width * height && width * height <= INT_MAX
      && width <= FLOAT_EXACT && height <= FLOAT_EXACT
      && ValidMaxIter(maxIter)
    }

    /** The region currently on display (`m_plane_center`, `m_plane_size`). */
    function View(): Region
      reads this
    {
      Region(center, zoomCount)
    }

    /** What a render pass writes into the cell of column `j` and row `i`: that position,
        and the colour of the escape time of the point the pixel maps to. */
    function Shade(j: int, i: int): Vertex
      requires Valid()
      reads this
    {
      var n := EscapeTime(escapes, toPlane(View(), j, i), maxIter);
      Vertex(j, i, IterationsToRGB(n, maxIter))
    }

    /** A pixel whose point escapes at none of the steps `0..maxIter` gets the count
        `maxIter + 1`, so its colour comes from the last band, not from the black
        `count == MAX_ITER` case: red with channel `255 / maxIter - 1` when maxIter is at
        most 255 (which is black for maxIter in 128..255), full red above 255. */
    lemma InteriorPixel(j: int, i: int)
      requires Valid()
      requires forall k: nat :: k <= maxIter ==> !escapes(toPlane(View(), j, i), k)
      ensures Shade(j, i).color == Rgb(if maxIter <= 255 then 255 / maxIter - 1 else 255, 0, 0)
    {
      EscapeTimeUnique(escapes, toPlane(View(), j, i), maxIter, maxIter + 1);
      InteriorColour(maxIter);
    }

    constructor (pixelWidth: nat, pixelHeight: nat, maxIter: nat,
                 toPlane: (Region, int, int) -> Point, escapes: (Point, nat) -> bool)
      requires pixelWidth * pixelHeight <= INT_MAX && ValidMaxIter(maxIter)
      requires pixelWidth <= FLOAT_EXACT && pixelHeight <= FLOAT_EXACT
      ensures Valid()
      ensures width == pixelWidth && height == pixelHeight && this.maxIter == maxIter
      ensures this.toPlane == toPlane && this.escapes == escapes
      ensures center == Point(0.0, 0.0) && mouse == Point(0.0, 0.0)
      ensures zoomCount == 0 && state == Calculating
      ensures fresh(pixels) && pixels.Length == pixelWidth * pixelHeight
      ensures forall k :: 0 <= k < pixels.Length ==> pixels[k] == Blank
    {
      width, height := pixelWidth, pixelHeight;
      this.maxIter := maxIter;
      this.toPlane, this.escapes := toPlane, escapes;
      center, mouse := Point(0.0, 0.0), Point(0.0, 0.0);
      zoomCount := 0;
      state := Calculating;
      pixels := new Vertex[pixelWidth * pixelHeight](_ => Blank);
    }

    /** Renders the columns `[startX, stopX)` of every row: each such cell gets its own
        position and colour, so its index is `posY * width + posX`; every other cell is
        left as it was. */
    method MultiRender(startX: int, stopX: int)
      requires Valid() && 0 <= startX <= stopX <= width
      modifies pixels
      ensures forall k :: 0 <= k < pixels.Length ==>
        pixels[k] == if startX <= k % width < stopX then Shade(k % width, k / width) else old(pixels[k])
      ensures forall k :: 0 <= k < pixels.Length && startX <= k % width < stopX ==>
        pixels[k].posY * width + pixels[k].posX == k
    {
      assert forall k :: 0 <= k < pixels.Length ==> 0 <= k / width;
      var i := 0;
      while i < height
        invariant 0 <= i <= height
        invariant forall k :: 0 <= k < pixels.Length ==>
          pixels[k] == if startX <= k % width < stopX && k / width < i
                       then Shade(k % width, k / width) else old(pixels[k])
      {
        var j := startX;
        while j < stopX
          invariant startX <= j <= stopX
          invariant forall k :: 0 <= k < pixels.Length ==>
            pixels[k] == if startX <= k % width < stopX && (k / width < i || (k / width == i && k % width < j))
                         then Shade(k % width, k / width) else old(pixels[k])
        {
          CellIndex(j, i, width, height);
          var idx := j + i * width;
          pixels[idx] := pixels[idx].(posX := j, posY := i);
          var coord := toPlane(View(), pixels[idx].posX, pixels[idx].posY);
          var iterations := CountIterations(escapes, coord, maxIter);
          pixels[idx] := pixels[idx].(color := IterationsToRGB(iterations, maxIter));
          forall k | 0 <= k < pixels.Length && k != idx
            ensures k % width != j || k / width != i
          {
            IndexCell(k, width, height);
          }
          j := j + 1;
        }
        i := i + 1;
      }
      forall k | 0 <= k < pixels.Length
        ensures k / width < height && (k / width) * width + k % width == k
      {
        IndexCell(k, width, height);
      }
    }

    /** One frame's update: while CALCULATING, `workers` workers render their column ranges
        (`workers` stands for `hardware_concurrency()`, which may be 0) and the state becomes
        DISPLAYING; the first `CoveredWidth` columns are rendered and the rest keep their old
        contents. While DISPLAYING nothing changes. */
    method UpdateRender(workers: nat)
      requires Valid()
      modifies this`state, pixels
      ensures state == Displaying
      ensures old(state) == Displaying ==> unchanged(pixels)
      ensures old(state) == Calculating ==> forall k :: 0 <= k < pixels.Length ==>
        pixels[k] == if k % width < CoveredWidth(width, workers)
                     then Shade(k % width, k / width) else old(pixels[k])
    {
      if state == Calculating {
        var i := 0;
        while i < workers
          invariant 0 <= i <= workers
          invariant forall k :: 0 <= k < pixels.Length ==>
            pixels[k] == if 0 < workers && k % width < StartX(i, width, workers)
                         then Shade(k % width, k / width) else old(pixels[k])
        {
          PartitionBounds(i, width, workers);
          MultiRender(StartX(i, width, workers), StopX(i, width, workers));
          i := i + 1;
        }
        state := Displaying;
      }
    }

    /** Zooms in one step: the zoom level rises by one and the buffer is stale. */
    method ZoomIn()
      modifies this`zoomCount, this`state
      ensures zoomCount == old(zoomCount) + 1 && state == Calculating
    {
      zoomCount := zoomCount + 1;
      state := Calculating;
    }

    /** Zooms out one step: the zoom level falls by one and the buffer is stale. */
    method ZoomOut()
      modifies this`zoomCount, this`state
      ensures zoomCount == old(zoomCount) - 1 && state == Calculating
    {
      zoomCount := zoomCount - 1;
      state := Calculating;
    }

    /** Recentres the region on the point under pixel `(mouseX, mouseY)`; the buffer is stale. */
    method SetCenter(mouseX: int, mouseY: int)
      modifies this`center, this`state
      ensures center == toPlane(old(View()), mouseX, mouseY) && state == Calculating
    {
      center := toPlane(View(), mouseX, mouseY);
      state := Calculating;
    }

    /** Records the point under the cursor; the buffer stays valid. */
    method SetMouseLocation(mouseX: int, mouseY: int)
      modifies this`mouse
      ensures mouse == toPlane(View(), mouseX, mouseY)
      ensures state == old(state) && zoomCount == old(zoomCount) && center == old(center)
    {
      mouse := toPlane(View(), mouseX, mouseY);
    }
  }
}
