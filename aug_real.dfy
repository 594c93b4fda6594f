/** The bookkeeping of the augmented-reality exercise: the 3-D inner corners
    of a calibration board, the four board corners a model image is mapped
    onto, and the vertices and segments of the wire-frame cube. */
module AugReal {
  import opened CvCore

  /** The CV_Asserts of this file that the model can violate, one
      constructor per failing check, plus DegenerateBoard, which belongs to
      the corrected projection only and has no assert in the source. */
  datatype Failure =
    | CountMismatch    // the generated points are not width * height many
    | EmptyModel       // the model image is empty
    | EmptyScene       // the scene image is empty
    | AreaMismatch     // the board area differs from the number of corners
    | DegenerateBoard  // corrected projection only: the board has no row or no column

  /** A cv::Point3f. */
  datatype Point3 = Point3(x: real, y: real, z: real)

  /** A cv::Point2f. */
  datatype Point2 = Point2(x: real, y: real)

  /** The number of rows or columns a loop `for (k = 1; k <= n; k++)` visits. */
  function Clamp(n: int): nat
  {
    if n < 0 then 0 else n
  }

  /** static_cast<size_t> of an int: a negative value wraps around 2^64. */
  function SizeT(n: int): nat
  {
    n % 0x1_0000_0000_0000_0000
  }

  /** cv::Size::area() is an int product; the model leaves its overflow out
      and asks for products that fit. */
  predicate AreaFitsInt(width: int, height: int)
  {
    -0x8000_0000 <= width * height < 0x8000_0000
  }

  // ---------------------------------------------------------------------
  // Calibration points
  // ---------------------------------------------------------------------

  /** Row i of the inner-corner grid: the points (j * sq, i * sq, 0) for
      j = 1 .. w. */
  function GridRow(w: nat, i: nat, sq: real): (r: seq<Point3>)
    ensures |r| == w
  {
    seq(w, j => Point3((j + 1) as real * sq, i as real * sq, 0.0))
  }

  /** The first h rows of the inner-corner grid, row after row. */
  function CalibrationGrid(w: nat, h: nat, sq: real): (r: seq<Point3>)
    ensures |r| == w * h
  {
    if h == 0 then [] else CalibrationGrid(w, h - 1, sq) + GridRow(w, h, sq)
  }

  /** What fsiv_generate_3d_calibration_points returns: the grid the loops
      build, checked against the board's area cast to size_t. */
  function CalibrationPoints(boardWidth: int, boardHeight: int, squareSize: real): Result<seq<Point3>, Failure>
  {
    var points := CalibrationGrid(Clamp(boardWidth), Clamp(boardHeight), squareSize);
    if |points| != SizeT(boardWidth * boardHeight) then Err(CountMismatch) else Ok(points)
  }

  /** fsiv_generate_3d_calibration_points: rows i = 1 .. height outside,
      columns j = 1 .. width inside, one point (j * sq, i * sq, 0) pushed
      back at a time. */
  method GenerateCalibrationPoints(boardWidth: int, boardHeight: int, squareSize: real)
    returns (r: Result<seq<Point3>, Failure>)
    ensures r == CalibrationPoints(boardWidth, boardHeight, squareSize)
  {
    var points: seq<Point3> := [];
    var i := 1;
    while i <= boardHeight
      invariant 1 <= i <= Clamp(boardHeight) + 1
      invariant points == CalibrationGrid(Clamp(boardWidth), i - 1, squareSize)
    {
      var j := 1;
      while j <= boardWidth
        invariant 1 <= j <= Clamp(boardWidth) + 1
        invariant points == CalibrationGrid(Clamp(boardWidth), i - 1, squareSize)
          + GridRow(Clamp(boardWidth), i, squareSize)[..j - 1]
      {
        ghost var row := GridRow(Clamp(boardWidth), i, squareSize);
        assert row[j - 1] == Point3(j as real * squareSize, i as real * squareSize, 0.0);
        assert row[..j] == row[..j - 1] + [row[j - 1]];
        points := points + [Point3(j as real * squareSize, i as real * squareSize, 0.0)];
        j := j + 1;
      }
      assert GridRow(Clamp(boardWidth), i, squareSize)[..j - 1] == GridRow(Clamp(boardWidth), i, squareSize);
      i := i + 1;
    }
    if |points| != SizeT(boardWidth * boardHeight) {
      return Err(CountMismatch);
    }
    r := Ok(points);
  }

  /** Scaling by a non-negative factor keeps the order. */
  lemma MulMonotone(a: int, b: int, c: nat)
    requires a <= b
    ensures a * c <= b * c
  {
  }

  /** The grid is row-major with rows outside: inner corner (j, i), counted
      from (1, 1), sits at index (i - 1) * w + (j - 1) and is (j * sq, i * sq, 0). */
  lemma {:induction false} CalibrationGridAt(w: nat, h: nat, sq: real, i: nat, j: nat)
    requires 1 <= i <= h && 1 <= j <= w
    ensures (i - 1) * w + (j - 1) < |CalibrationGrid(w, h, sq)|
    ensures CalibrationGrid(w, h, sq)[(i - 1) * w + (j - 1)] == Point3(j as real * sq, i as real * sq, 0.0)
  {
    assert |CalibrationGrid(w, h - 1, sq)| == w * (h - 1);
    MulMonotone(i, h, w);
    assert (i - 1) * w + w == i * w;
    if i < h {
      CalibrationGridAt(w, h - 1, sq, i, j);
    } else {
      assert (i - 1) * w == w * (h - 1);
    }
  }

  /** Every grid point lies in the board plane z = 0. */
  lemma {:induction false} CalibrationGridPlanar(w: nat, h: nat, sq: real)
    ensures forall k :: 0 <= k < |CalibrationGrid(w, h, sq)| ==> CalibrationGrid(w, h, sq)[k].z == 0.0
  {
    if h > 0 {
      CalibrationGridPlanar(w, h - 1, sq);
    }
  }

  /** The first point is the inner corner (1, 1). */
  lemma CalibrationGridStartsAtFirstInnerCorner(w: nat, h: nat, sq: real)
    requires 1 <= w && 1 <= h
    ensures CalibrationGrid(w, h, sq)[0] == Point3(sq, sq, 0.0)
  {
    CalibrationGridAt(w, h, sq, 1, 1);
  }

  /** The count assertion holds exactly when neither side of the board is
      negative or one of them is 0, and the points are then width * height. */
  lemma CalibrationPointsOutcome(boardWidth: int, boardHeight: int, squareSize: real)
    requires AreaFitsInt(boardWidth, boardHeight)
    ensures CalibrationPoints(boardWidth, boardHeight, squareSize).Ok?
      <==> (0 <= boardWidth && 0 <= boardHeight) || boardWidth == 0 || boardHeight == 0
    ensures CalibrationPoints(boardWidth, boardHeight, squareSize).Ok? ==>
      |CalibrationPoints(boardWidth, boardHeight, squareSize).value| == boardWidth * boardHeight
  {
    if boardWidth < 0 && boardHeight < 0 {
      assert 0 < boardWidth * boardHeight;
    } else if boardWidth < 0 < boardHeight {
      assert boardWidth * boardHeight < 0;
    } else if boardHeight < 0 < boardWidth {
      assert boardWidth * boardHeight < 0;
    }
  }

  // ---------------------------------------------------------------------
  // Board corners for the projected image
  // ---------------------------------------------------------------------

  /** Indices into the detected corners of the first corner, the end of the
      first row, the start of the last row and the last corner. */
  function BoardCornerIndices(boardWidth: int, boardHeight: int): (r: seq<int>)
    ensures |r| == 4
  {
    [0, boardWidth - 1, boardWidth * (boardHeight - 1), boardWidth * boardHeight - 1]
  }

  /** The model image's corners in the same order: top-left, top-right,
      bottom-left, bottom-right. */
  function ModelCorners(modelRows: int, modelCols: int): (r: seq<Point2>)
    ensures |r| == 4
  {
    [Point2(0.0, 0.0), Point2((modelCols - 1) as real, 0.0),
     Point2(0.0, (modelRows - 1) as real), Point2((modelCols - 1) as real, (modelRows - 1) as real)]
  }

  /** The extent of a cv::Mat, empty when it has no element. */
  datatype Extent = Extent(rows: nat, cols: nat)
  {
    predicate Empty()
    {
      rows == 0 || cols == 0
    }
  }

  /** fsiv_project_image as written, up to its corner lookup: its three
      CV_Asserts, then the indices it reads the detected corners at. */
  function ProjectionIndicesAsWritten(model: Extent, scene: Extent, boardWidth: int, boardHeight: int, nCorners: nat)
    : Result<seq<int>, Failure>
  {
    if model.Empty() then Err(EmptyModel)
    else if scene.Empty() then Err(EmptyScene)
    else if SizeT(boardWidth * boardHeight) != nCorners then Err(AreaMismatch)
    else Ok(BoardCornerIndices(boardWidth, boardHeight))
  }

  /** The area assertion lets a board without a first or last row or column
      through: a 0 x 3 board with no corners reads corner 0, and a -1 x -1
      board with one corner reads corner -2. */
  lemma ProjectionReadsOutOfRange()
    ensures ProjectionIndicesAsWritten(Extent(1, 1), Extent(1, 1), 0, 3, 0) == Ok([0, -1, 0, -1])
    ensures ProjectionIndicesAsWritten(Extent(1, 1), Extent(1, 1), -1, -1, 1) == Ok([0, -2, 2, 0])
  {
  }

  /** Once the assertions pass, the four indices are in range exactly when
      the board has at least one row and one column. */
  lemma ProjectionIndicesInRange(model: Extent, scene: Extent, boardWidth: int, boardHeight: int, nCorners: nat)
    requires AreaFitsInt(boardWidth, boardHeight)
    requires ProjectionIndicesAsWritten(model, scene, boardWidth, boardHeight, nCorners).Ok?
    ensures var idx := ProjectionIndicesAsWritten(model, scene, boardWidth, boardHeight, nCorners).value;
      (forall k :: 0 <= k < 4 ==> 0 <= idx[k] < nCorners) <==> 1 <= boardWidth && 1 <= boardHeight
  {
    var w, h := boardWidth, boardHeight;
    var idx := BoardCornerIndices(w, h);
    if 1 <= w && 1 <= h {
      MulMonotone(1, h, w);
      assert SizeT(w * h) == w * h;
      assert idx[2] == w * h - w;
    } else if w == 0 || h == 0 {
      assert w * h == 0;
      assert nCorners == 0;
      assert !(idx[0] < nCorners);
    } else if w < 0 {
      assert idx[1] < 0;
    } else {
      MulMonotone(h - 1, -1, w);
      assert idx[2] < 0;
    }
  }

  /** fsiv_project_image with the check it evidently needs: a board with at
      least one row and one column whose area is the number of detected
      corners. It pairs each model corner with the detected corner it is
      mapped onto. */
  function ProjectionCorrespondences(model: Extent, scene: Extent, boardWidth: int, boardHeight: int,
    corners: seq<Point2>): Result<seq<(Point2, Point2)>, Failure>
  {
    if model.Empty() then Err(EmptyModel)
    else if scene.Empty() then Err(EmptyScene)
    else if boardWidth < 1 || boardHeight < 1 then Err(DegenerateBoard)
    else if boardWidth * boardHeight != |corners| then Err(AreaMismatch)
    else
      var idx := BoardCornerIndices(boardWidth, boardHeight);
      var from := ModelCorners(model.rows, model.cols);
      assert boardWidth * (boardHeight - 1) == boardWidth * boardHeight - boardWidth;
      Ok(seq(4, k requires 0 <= k < 4 => (from[k], corners[idx[k]])))
  }

  /** The corrected call succeeds exactly on non-empty images and a board
      with rows and columns whose area is the corner count; it then pairs
      model corner k with detected corner BoardCornerIndices[k]. On such
      boards it fails exactly when the call as written does. */
  lemma ProjectionCorrespondencesOutcome(model: Extent, scene: Extent, boardWidth: int, boardHeight: int,
    corners: seq<Point2>)
    requires AreaFitsInt(boardWidth, boardHeight)
    ensures ProjectionCorrespondences(model, scene, boardWidth, boardHeight, corners).Ok? <==>
      (!model.Empty() && !scene.Empty() && 1 <= boardWidth && 1 <= boardHeight
        && boardWidth * boardHeight == |corners|)
    ensures 1 <= boardWidth && 1 <= boardHeight ==>
      (ProjectionCorrespondences(model, scene, boardWidth, boardHeight, corners).Ok? <==>
        ProjectionIndicesAsWritten(model, scene, boardWidth, boardHeight, |corners|).Ok?)
    ensures ProjectionCorrespondences(model, scene, boardWidth, boardHeight, corners).Ok? ==>
      var pairs := ProjectionCorrespondences(model, scene, boardWidth, boardHeight, corners).value;
      && |pairs| == 4
      && forall k :: 0 <= k < 4 ==>
        && 0 <= BoardCornerIndices(boardWidth, boardHeight)[k] < |corners|
        && pairs[k] == (ModelCorners(model.rows, model.cols)[k], corners[BoardCornerIndices(boardWidth, boardHeight)[k]])
  {
    if 1 <= boardWidth && 1 <= boardHeight {
      MulMonotone(1, boardHeight, boardWidth);
      assert SizeT(boardWidth * boardHeight) == boardWidth * boardHeight;
      assert boardWidth * (boardHeight - 1) == boardWidth * boardHeight - boardWidth;
    }
  }

  /** The pairing keeps the orientation: the model's top-left, top-right,
      bottom-left and bottom-right corners go to the calibration grid's
      inner corners (1, 1), (w, 1), (1, h) and (w, h). */
  lemma BoardCornersAreGridExtremes(boardWidth: nat, boardHeight: nat, squareSize: real, modelRows: int, modelCols: int)
    requires 1 <= boardWidth && 1 <= boardHeight
    ensures var idx := BoardCornerIndices(boardWidth, boardHeight);
      forall k :: 0 <= k < 4 ==> 0 <= idx[k] < boardWidth * boardHeight
    ensures var idx, grid := BoardCornerIndices(boardWidth, boardHeight), CalibrationGrid(boardWidth, boardHeight, squareSize);
      var model := ModelCorners(modelRows, modelCols);
      && model[0] == Point2(0.0, 0.0)
      && grid[idx[0]] == Point3(squareSize, squareSize, 0.0)
      && model[1] == Point2((modelCols - 1) as real, 0.0)
      && grid[idx[1]] == Point3(boardWidth as real * squareSize, squareSize, 0.0)
      && model[2] == Point2(0.0, (modelRows - 1) as real)
      && grid[idx[2]] == Point3(squareSize, boardHeight as real * squareSize, 0.0)
      && model[3] == Point2((modelCols - 1) as real, (modelRows - 1) as real)
      && grid[idx[3]] == Point3(boardWidth as real * squareSize, boardHeight as real * squareSize, 0.0)
  {
    var w, h := boardWidth, boardHeight;
    CalibrationGridAt(w, h, squareSize, 1, 1);
    CalibrationGridAt(w, h, squareSize, 1, w);
    CalibrationGridAt(w, h, squareSize, h, 1);
    CalibrationGridAt(w, h, squareSize, h, w);
    assert (h - 1) * w == w * (h - 1);
    assert (h - 1) * w + (w - 1) == w * h - 1;
  }

  // ---------------------------------------------------------------------
  // Wire-frame cube
  // ---------------------------------------------------------------------

  /** The eight vertices of the cube of side `size` that
      fsiv_draw_3d_model projects: the base square in the board plane
      (vertices 0-3), then the same square at z = -size (vertices 4-7). */
  function CubeVertices(size: real): (v: seq<Point3>)
    ensures |v| == 8
  {
    [Point3(0.0, 0.0, 0.0), Point3(size, 0.0, 0.0), Point3(size, size, 0.0), Point3(0.0, size, 0.0),
     Point3(0.0, 0.0, -size), Point3(size, 0.0, -size), Point3(size, size, -size), Point3(0.0, size, -size)]
  }

  /** The segments of fsiv_draw_3d_model as vertex indices: the two square
      loops, then the four connectors between them. */
  function CubeSegments(): seq<seq<nat>>
  {
    [[0, 1, 2, 3, 0], [4, 5, 6, 7, 4], [0, 4], [1, 5], [2, 6], [3, 7]]
  }

  /** Vertices 0-3 lie in the board plane and vertex k + 4 is vertex k moved
      to z = -size. */
  lemma CubeTopIsBaseLifted(size: real)
    ensures forall k :: 0 <= k < 4 ==>
      && CubeVertices(size)[k].z == 0.0
      && CubeVertices(size)[k + 4] == Point3(CubeVertices(size)[k].x, CubeVertices(size)[k].y, -size)
  {
  }

  /** The vertex pairs cv::polylines joins for one closed polyline: each
      point with the next, and the last with the first. */
  function ClosedPolylineEdges(poly: seq<nat>): (r: seq<(nat, nat)>)
    ensures |r| == |poly|
  {
    seq(|poly|, k requires 0 <= k < |poly| => (poly[k], poly[(k + 1) % |poly|]))
  }

  /** The vertex pairs joined when every segment is drawn as a closed polyline. */
  function DrawnEdges(segments: seq<seq<nat>>): seq<(nat, nat)>
  {
    if |segments| == 0 then []
    else DrawnEdges(segments[..|segments| - 1]) + ClosedPolylineEdges(segments[|segments| - 1])
  }

  /** Two corners of an axis-aligned cube are joined by one of its edges
      exactly when they differ in one coordinate. */
  predicate CubeEdge(p: Point3, q: Point3)
  {
    (if p.x != q.x then 1 else 0) + (if p.y != q.y then 1 else 0) + (if p.z != q.z then 1 else 0) == 1
  }

  /** The pairs the six closed polylines join, in drawing order. */
  lemma DrawnCubeEdges()
    ensures DrawnEdges(CubeSegments()) == [(0, 1), (1, 2), (2, 3), (3, 0), (0, 0), (4, 5), (5, 6), (6, 7), (7, 4), (4, 4),
                  (0, 4), (4, 0), (1, 5), (5, 1), (2, 6), (6, 2), (3, 7), (7, 3)]
  {
    var segs := CubeSegments();
    assert ClosedPolylineEdges(segs[0]) == [(0, 1), (1, 2), (2, 3), (3, 0), (0, 0)];
    assert ClosedPolylineEdges(segs[1]) == [(4, 5), (5, 6), (6, 7), (7, 4), (4, 4)];
    assert ClosedPolylineEdges(segs[2]) == [(0, 4), (4, 0)];
    assert ClosedPolylineEdges(segs[3]) == [(1, 5), (5, 1)];
    assert ClosedPolylineEdges(segs[4]) == [(2, 6), (6, 2)];
    assert ClosedPolylineEdges(segs[5]) == [(3, 7), (7, 3)];
    assert DrawnEdges(segs[..1]) == ClosedPolylineEdges(segs[0]);
    assert DrawnEdges(segs[..2]) == DrawnEdges(segs[..1]) + ClosedPolylineEdges(segs[1]) by {
      assert segs[..2][..1] == segs[..1];
    }
    assert DrawnEdges(segs[..3]) == DrawnEdges(segs[..2]) + ClosedPolylineEdges(segs[2]) by {
      assert segs[..3][..2] == segs[..2];
    }
    assert DrawnEdges(segs[..4]) == DrawnEdges(segs[..3]) + ClosedPolylineEdges(segs[3]) by {
      assert segs[..4][..3] == segs[..3];
    }
    assert DrawnEdges(segs[..5]) == DrawnEdges(segs[..4]) + ClosedPolylineEdges(segs[4]) by {
      assert segs[..5][..4] == segs[..4];
    }
    assert DrawnEdges(segs) == DrawnEdges(segs[..5]) + ClosedPolylineEdges(segs[5]);
  }

  /** Every pair of distinct vertices the drawing joins is an edge of the cube. */
  lemma WireFrameDrawsOnlyCubeEdges(size: real)
    requires size != 0.0
    ensures forall e :: e in DrawnEdges(CubeSegments()) ==>
      && e.0 < 8 && e.1 < 8
      && (e.0 == e.1 || CubeEdge(CubeVertices(size)[e.0], CubeVertices(size)[e.1]))
  {
    DrawnCubeEdges();
  }

  /** Every edge of the cube is drawn, in one direction or the other. */
  lemma WireFrameDrawsEveryCubeEdge(size: real)
    requires size != 0.0
    ensures forall a, b :: 0 <= a < b < 8 && CubeEdge(CubeVertices(size)[a], CubeVertices(size)[b]) ==>
      (a, b) in DrawnEdges(CubeSegments()) || (b, a) in DrawnEdges(CubeSegments())
  {
    DrawnCubeEdges();
    var v := CubeVertices(size);
    forall a, b | 0 <= a < b < 8 && CubeEdge(v[a], v[b])
      ensures (a, b) in DrawnEdges(CubeSegments()) || (b, a) in DrawnEdges(CubeSegments())
    {
      if a == 0 {
        assert b == 1 || b == 3 || b == 4;
      } else if a == 1 {
        assert b == 2 || b == 5;
      } else if a == 2 {
        assert b == 3 || b == 6;
      } else if a == 3 {
        assert b == 7;
      } else if a == 4 {
        assert b == 5 || b == 7;
      } else if a == 5 {
        assert b == 6;
      } else {
        assert a == 6 && b == 7;
      }
    }
  }
}
