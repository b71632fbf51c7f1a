/** The MCUs of a scan by their places (T.81 section A.2): a scan of one component is its blocks in
    raster order, without dummy blocks; in an interleaved scan MCU `m`, `k` has the h times v blocks of
    each component that begin at block row m * v and column k * h. */
module McuRaster {
  import opened Powers
  import opened Ceilings
  import opened Coefficients
  import opened McuSequence

  lemma ProductIndex(r: nat, c: nat, w: nat, n: nat)
    requires r < n && c < w
    ensures 0 <= r * w + c < n * w
  {
    MulLe(r + 1, n, w);
  }

  // ------------------------------------------------------------ one component

  predicate Wide(plane: Plane, w: nat)
  {
    forall i :: 0 <= i < |plane| ==> |plane[i]| == w
  }

  function RowOf(plane: Plane, w: nat, r: nat): (s: seq<seq<Zigzag>>)
    requires r < |plane| && Wide(plane, w)
    ensures |s| == w && forall c :: 0 <= c < w ==> s[c] == [plane[r][c]]
  {
    seq(w, c requires 0 <= c < w => [plane[r][c]])
  }

  /** The first `r` block rows, one block in each MCU. */
  function Raster(plane: Plane, w: nat, r: nat): (s: seq<seq<Zigzag>>)
    requires r <= |plane| && Wide(plane, w)
    ensures |s| == r * w
  {
    if r == 0 then []
    else
      assert r * w == (r - 1) * w + w;
      Raster(plane, w, r - 1) + RowOf(plane, w, r - 1)
  }

  lemma {:induction false} RasterAt(plane: Plane, w: nat, r: nat, i: nat, c: nat)
    requires i < r <= |plane| && Wide(plane, w) && c < w
    ensures 0 <= i * w + c < r * w && Raster(plane, w, r)[i * w + c] == [plane[i][c]]
    decreases r
  {
    hide Wide;
    ProductIndex(i, c, w, r);
    if i < r - 1 {
      RasterAt(plane, w, r - 1, i, c);
    }
  }

  lemma OneBlock(p: Comp, plane: Plane, r: nat, c: nat)
    requires IsPlane(p, plane) && r < p.height && c < p.width
    ensures BlockRows(p, plane, r, c, 1, 1) == [plane[r][c]]
  {
    assert BlockRows(p, plane, r, c, 1, 0) == [];
    assert BlockRow(p, plane, r, c, 1, c) == [PadBlock(p, plane, r, c, c)];
  }

  lemma {:induction false} ColsAreRow(t: Task, n: nat, y: nat, cols: nat)
    requires t.Legal() && |t.scan| == 1 && n * t.P(0).v + y < t.P(0).height && cols <= t.P(0).width
    ensures forall c :: 0 <= c < cols ==> t.McuCols(n, y, cols)[c] == [t.PlaneOf(0)[n * t.P(0).v + y][c]]
  {
    hide t.Legal, BlockRows;
    if cols != 0 {
      LegalMeans(t, 0);
      ColsAreRow(t, n, y, cols - 1);
      OneBlock(t.P(0), t.PlaneOf(0), n * t.P(0).v + y, cols - 1);
      OnlyPart(t, n, y, cols - 1);
    }
  }

  lemma OnlyPart(t: Task, n: nat, y: nat, col: nat)
    requires t.Legal() && |t.scan| == 1
    ensures t.scan[0] < |t.comps| && IsPlane(t.P(0), t.PlaneOf(0)) && 0 < t.P(0).width && 0 < t.P(0).height
    ensures t.Mcu(n, y, col) == BlockRows(t.P(0), t.PlaneOf(0), n * t.P(0).v + y, col, 1, 1)
  {
    LegalMeans(t, 0);
    hide BlockRows;
    var rows := BlockRows(t.P(0), t.PlaneOf(0), n * t.P(0).v + y, col * 1, 1, 1);
    assert t.McuPart(n, y, col, 0) == [];
    assert t.McuPart(n, y, col, 1) == [] + rows;
  }

  lemma RowIs(plane: Plane, w: nat, r: nat, row: seq<seq<Zigzag>>)
    requires r < |plane| && Wide(plane, w) && |row| == w && forall c :: 0 <= c < w ==> row[c] == [plane[r][c]]
    ensures row == RowOf(plane, w, r)
  {
  }

  lemma PlaneIs(t: Task)
    requires t.Legal()
    ensures 0 < t.unitW && 0 < t.unitH && t.scan[0] < |t.comps| && |t.comps| == |t.img|
    ensures 0 < t.P(0).v && IsPlane(t.P(0), t.PlaneOf(0))
    ensures |t.PlaneOf(0)| == t.P(0).height && Wide(t.PlaneOf(0), t.P(0).width)
  {
    LegalMeans(t, 0);
  }

  lemma NextLine(t: Task, n: nat, y: nat)
    requires t.Legal() && |t.scan| == 1 && n * t.P(0).v + y < t.P(0).height
    ensures |t.PlaneOf(0)| == t.P(0).height && Wide(t.PlaneOf(0), t.P(0).width)
    ensures t.McuLines(n, y + 1) == t.McuLines(n, y) + RowOf(t.PlaneOf(0), t.P(0).width, n * t.P(0).v + y)
  {
    hide t.Legal, Wide, t.McuCols;
    PlaneIs(t);
    var w := t.P(0).width;
    ColsAreRow(t, n, y, w);
    RowIs(t.PlaneOf(0), w, n * t.P(0).v + y, t.McuCols(n, y, w));
    assert t.McusPerRow() == w;
  }

  lemma {:induction false} LinesAreRaster(t: Task, n: nat, y: nat)
    requires t.Legal() && |t.scan| == 1 && n * t.P(0).v + y <= t.P(0).height
    ensures |t.PlaneOf(0)| == t.P(0).height && Wide(t.PlaneOf(0), t.P(0).width)
    ensures Raster(t.PlaneOf(0), t.P(0).width, n * t.P(0).v) + t.McuLines(n, y)
         == Raster(t.PlaneOf(0), t.P(0).width, n * t.P(0).v + y)
    decreases y
  {
    hide t.Legal, Wide, RowOf, t.McuCols;
    PlaneIs(t);
    var plane, w, r := t.PlaneOf(0), t.P(0).width, n * t.P(0).v;
    if y == 0 {
      assert Raster(plane, w, r) + [] == Raster(plane, w, r);
    } else {
      LinesAreRaster(t, n, y - 1);
      NextLine(t, n, y - 1);
      Regroup(Raster(plane, w, r), t.McuLines(n, y - 1), RowOf(plane, w, r + y - 1));
      assert r + y - 1 + 1 == r + y;
    }
  }

  lemma RowsEnd(n: nat, total: nat, v: nat, height: nat, rows: nat)
    requires n < total && (total - 1) * v < height
    requires rows == if n + 1 < total then v else height - (total - 1) * v
    ensures n * v < height
    ensures n * v + rows == if n + 1 == total then height else (n + 1) * v
    ensures n * v + rows <= height
  {
    MulLe(n, total - 1, v);
    if n + 1 < total {
      MulLe(n + 1, total - 1, v);
      assert (n + 1) * v == n * v + v;
    } else {
      assert n * v == (total - 1) * v;
    }
  }

  /** Where iMCU row `n` ends. */
  lemma ImcuRowEnd(t: Task, n: nat)
    requires t.Legal() && |t.scan| == 1 && n < t.Total()
    ensures t.scan[0] < |t.comps| && 0 < t.P(0).v && n * t.P(0).v < t.P(0).height
    ensures n * t.P(0).v + t.McuRows(n) == if n + 1 == t.Total() then t.P(0).height else (n + 1) * t.P(0).v
    ensures n * t.P(0).v + t.McuRows(n) <= t.P(0).height
  {
    hide t.Legal, DivUp, IsPlane, t.Total;
    LegalMeans(t, 0);
    Covered(t, t.P(0));
    RowsEnd(n, t.Total(), t.P(0).v, t.P(0).height, t.McuRows(n));
  }

  lemma {:induction false} RowsAreRaster(t: Task, n: nat)
    requires t.Legal() && |t.scan| == 1 && n < t.Total()
    ensures |t.PlaneOf(0)| == t.P(0).height && Wide(t.PlaneOf(0), t.P(0).width)
    ensures n * t.P(0).v <= t.P(0).height
    ensures t.ImcuRows(n) == Raster(t.PlaneOf(0), t.P(0).width, n * t.P(0).v)
  {
    hide t.Legal, Wide, RowOf, t.McuLines, DivUp;
    PlaneIs(t);
    ImcuRowEnd(t, n);
    if n == 0 {
      assert 0 * t.P(0).v == 0;
    } else {
      ImcuRowEnd(t, n - 1);
      RowsAreRaster(t, n - 1);
      LinesAreRaster(t, n - 1, t.McuRows(n - 1));
    }
  }

  lemma AllIsRaster(t: Task)
    requires t.Legal() && |t.scan| == 1
    ensures t.scan[0] < |t.comps| && |t.comps| == |t.img|
    ensures |t.PlaneOf(0)| == t.P(0).height && Wide(t.PlaneOf(0), t.P(0).width)
    ensures t.All() == Raster(t.PlaneOf(0), t.P(0).width, t.P(0).height)
  {
    hide t.Legal, Wide, RowOf, t.McuLines, DivUp, Raster;
    PlaneIs(t);
    SomeRows(t);
    var n := t.Total() - 1;
    ImcuRowEnd(t, n);
    RowsAreRaster(t, n);
    LinesAreRaster(t, n, t.McuRows(n));
  }

  lemma SomeRows(t: Task)
    requires t.Legal()
    ensures 0 < t.unitH && 0 < t.Total()
  {
  }

  /** A scan of one component: its blocks row by row, and nothing else. */
  lemma SingleRaster(t: Task, r: nat, c: nat)
    requires t.Legal() && |t.scan| == 1 && t.scan[0] < |t.comps|
    requires r < t.comps[t.scan[0]].height && c < t.comps[t.scan[0]].width
    ensures t.scan[0] < |t.img| && IsPlane(t.comps[t.scan[0]], t.img[t.scan[0]])
    ensures |t.All()| == t.comps[t.scan[0]].height * t.comps[t.scan[0]].width
    ensures 0 <= r * t.comps[t.scan[0]].width + c < |t.All()|
    ensures t.All()[r * t.comps[t.scan[0]].width + c] == [t.img[t.scan[0]][r][c]]
  {
    hide t.Legal, Wide, t.All, Raster;
    PlaneIs(t);
    AllIsRaster(t);
    RasterAt(t.PlaneOf(0), t.P(0).width, t.P(0).height, r, c);
  }

  // ------------------------------------------------------------ interleaved scans

  lemma {:induction false} BlockAt(p: Comp, plane: Plane, r: nat, c0: nat, w: nat, rows: nat, y: nat, x: nat)
    requires IsPlane(p, plane) && 0 < p.width && 0 < p.height && 0 < w && y < rows && x < w
    ensures 0 <= y * w + x < rows * w
    ensures BlockRows(p, plane, r, c0, w, rows)[y * w + x] == PadBlock(p, plane, r + y, c0 + x, c0 + w - 1)
    decreases rows
  {
    hide PadBlock, IsPlane;
    ProductIndex(y, x, w, rows);
    if y < rows - 1 {
      BlockAt(p, plane, r, c0, w, rows - 1, y, x);
    } else {
      assert y * w + x - (rows - 1) * w == x;
    }
  }

  function Size(p: Comp): nat
  {
    p.v * p.h
  }

  /** Blocks of the components before `i` in an MCU. */
  function Offset(t: Task, i: nat): nat
    requires i <= |t.scan| && forall j :: 0 <= j < |t.scan| ==> t.scan[j] < |t.comps|
  {
    if i == 0 then 0 else Offset(t, i - 1) + Size(t.comps[t.scan[i - 1]])
  }

  lemma {:induction false} OffsetAt(t: Task, count: nat, i: nat, j: nat)
    requires i < count <= |t.scan| && forall k :: 0 <= k < |t.scan| ==> t.scan[k] < |t.comps|
    requires j < Size(t.comps[t.scan[i]])
    ensures Offset(t, i) + j < Offset(t, count)
    decreases count
  {
    hide Size;
    if i < count - 1 {
      OffsetAt(t, count - 1, i, j);
    }
  }

  /** Component `i`'s blocks in MCU `m`, `k`. */
  function Own(t: Task, m: nat, k: nat, i: nat): (s: seq<Zigzag>)
    requires i < |t.scan| && t.scan[i] < |t.comps| && t.scan[i] < |t.img|
    requires IsPlane(t.P(i), t.PlaneOf(i)) && 0 < t.P(i).width && 0 < t.P(i).height && 0 < t.P(i).h
    ensures |s| == Size(t.P(i))
  {
    BlockRows(t.P(i), t.PlaneOf(i), m * t.P(i).v, k * t.P(i).h, t.P(i).h, t.P(i).v)
  }

  lemma PartNext(t: Task, m: nat, k: nat, i: nat)
    requires t.Legal() && i < |t.scan| && 1 < |t.scan|
    ensures t.scan[i] < |t.comps| && t.scan[i] < |t.img|
    ensures IsPlane(t.P(i), t.PlaneOf(i)) && 0 < t.P(i).width && 0 < t.P(i).height && 0 < t.P(i).h
    ensures t.McuPart(m, 0, k, i + 1) == t.McuPart(m, 0, k, i) + Own(t, m, k, i)
  {
    hide t.Legal, BlockRows;
    LegalMeans(t, i);
    assert t.McuWidth(i) == t.P(i).h && t.McuHeight(i) == t.P(i).v;
  }

  lemma {:induction false} PartSize(t: Task, m: nat, k: nat, count: nat)
    requires t.Legal() && count <= |t.scan| && 1 < |t.scan|
    ensures |t.McuPart(m, 0, k, count)| == Offset(t, count)
  {
    hide t.Legal, Own, Size;
    ScanIn(t);
    if count != 0 {
      PartNext(t, m, k, count - 1);
      PartSize(t, m, k, count - 1);
    }
  }

  lemma {:induction false} PartAt(t: Task, m: nat, k: nat, count: nat, i: nat, j: nat)
    requires t.Legal() && i < count <= |t.scan| && 1 < |t.scan| && t.scan[i] < |t.comps| && j < Size(t.comps[t.scan[i]])
    ensures 0 <= Offset(t, i) + j < |t.McuPart(m, 0, k, count)|
    ensures t.scan[i] < |t.img| && IsPlane(t.P(i), t.PlaneOf(i))
    ensures 0 < t.P(i).width && 0 < t.P(i).height && 0 < t.P(i).h
    ensures t.McuPart(m, 0, k, count)[Offset(t, i) + j] == Own(t, m, k, i)[j]
    decreases count
  {
    hide t.Legal, Own, Size, t.McuPart;
    ScanIn(t);
    PartNext(t, m, k, count - 1);
    PartSize(t, m, k, count - 1);
    PartSize(t, m, k, i);
    if i < count - 1 {
      PartAt(t, m, k, count - 1, i, j);
    }
  }

  lemma ScanIn(t: Task)
    requires t.Legal()
    ensures forall k :: 0 <= k < |t.scan| ==> t.scan[k] < |t.comps|
  {
  }

  lemma {:induction false} ColsAt(t: Task, n: nat, y: nat, cols: nat, k: nat)
    requires t.Legal() && k < cols
    ensures t.McuCols(n, y, cols)[k] == t.Mcu(n, y, k)
    decreases cols
  {
    if k < cols - 1 {
      ColsAt(t, n, y, cols - 1, k);
    }
  }

  lemma Across(t: Task)
    requires t.Legal()
    ensures 0 < t.unitW && 0 < t.unitH && 0 < t.McusAcross() && 0 < t.Total()
  {
  }

  lemma {:induction false} RowsAt(t: Task, n: nat, m: nat, k: nat)
    requires t.Legal() && 0 < t.unitW && 1 < |t.scan| && m < n && k < t.McusAcross()
    ensures |t.ImcuRows(n)| == n * t.McusAcross() && 0 <= m * t.McusAcross() + k < n * t.McusAcross()
    ensures t.ImcuRows(n)[m * t.McusAcross() + k] == t.Mcu(m, 0, k)
    decreases n
  {
    hide t.Legal, t.ImcuRows, t.McuCols, DivUp, t.Mcu;
    var across := t.McusAcross();
    RowsSize(t, n);
    RowsSize(t, n - 1);
    RowsNext(t, n - 1);
    ProductIndex(m, k, across, n);
    if m < n - 1 {
      RowsAt(t, n - 1, m, k);
    } else {
      ColsAt(t, m, 0, across, k);
    }
  }

  lemma RowsNext(t: Task, n: nat)
    requires t.Legal() && 1 < |t.scan|
    ensures 0 < t.unitW && t.ImcuRows(n + 1) == t.ImcuRows(n) + t.McuCols(n, 0, t.McusAcross())
  {
    LegalMeans(t, 0);
    hide t.Legal;
    assert t.McuLines(n, 0) == [];
    assert t.McuLines(n, 1) == [] + t.McuCols(n, 0, t.McusAcross());
  }

  lemma {:induction false} RowsSize(t: Task, n: nat)
    requires t.Legal() && 0 < t.unitW && 1 < |t.scan|
    ensures |t.ImcuRows(n)| == n * t.McusAcross()
  {
    hide t.Legal, t.McuCols, DivUp, t.McuLines;
    if n != 0 {
      RowsNext(t, n - 1);
      RowsSize(t, n - 1);
      assert n * t.McusAcross() == (n - 1) * t.McusAcross() + t.McusAcross();
    } else {
      assert 0 * t.McusAcross() == 0;
    }
  }

  /** An interleaved scan: MCUs in raster order, as many as cover the image. */
  lemma InterleavedRaster(t: Task, m: nat, k: nat) returns (at: nat)
    requires t.Legal() && 1 < |t.scan| && 0 < t.unitW && 0 < t.unitH
    requires m < DivUp(t.imageHeight, t.unitH) && k < DivUp(t.imageWidth, t.unitW)
    ensures |t.All()| == DivUp(t.imageHeight, t.unitH) * DivUp(t.imageWidth, t.unitW)
    ensures at == m * DivUp(t.imageWidth, t.unitW) + k && at < |t.All()| && t.All()[at] == t.Mcu(m, 0, k)
  {
    hide t.Legal, t.ImcuRows, DivUp, t.Mcu;
    RowsAt(t, t.Total(), m, k);
    at := m * DivUp(t.imageWidth, t.unitW) + k;
  }

  /** Block `y`, `x` of a component in MCU `m`, `k`. */
  function BlockFrom(p: Comp, plane: Plane, m: nat, k: nat, y: nat, x: nat): Zigzag
    requires IsPlane(p, plane) && 0 < p.width && 0 < p.height && x < p.h
  {
    PadBlock(p, plane, m * p.v + y, k * p.h + x, k * p.h + p.h - 1)
  }

  /** In each of them the blocks of the components in turn, row by row: in MCU `m`, `k` those from block
      row m * v and column k * h on. */
  lemma InterleavedMcu(t: Task, m: nat, k: nat, i: nat, y: nat, x: nat) returns (place: nat)
    requires t.Legal() && 1 < |t.scan| && i < |t.scan| && t.scan[i] < |t.comps|
    requires y < t.comps[t.scan[i]].v && x < t.comps[t.scan[i]].h
    ensures forall j :: 0 <= j < |t.scan| ==> t.scan[j] < |t.comps|
    ensures place == Offset(t, i) + (y * t.comps[t.scan[i]].h + x)
    ensures place < Offset(t, |t.scan|) == |t.Mcu(m, 0, k)|
    ensures t.scan[i] < |t.img| && IsPlane(t.comps[t.scan[i]], t.img[t.scan[i]])
    ensures 0 < t.comps[t.scan[i]].width && 0 < t.comps[t.scan[i]].height
    ensures t.Mcu(m, 0, k)[place] == BlockFrom(t.comps[t.scan[i]], t.img[t.scan[i]], m, k, y, x)
  {
    hide t.Legal, BlockRows, PadBlock, Offset, IsPlane, t.McuPart;
    ScanIn(t);
    var p := t.P(i);
    ProductIndex(y, x, p.h, p.v);
    var j: nat := y * p.h + x;
    place := Offset(t, i) + j;
    PartSize(t, m, k, |t.scan|);
    OffsetAt(t, |t.scan|, i, j);
    PartAt(t, m, k, |t.scan|, i, j);
    BlockAt(p, t.PlaneOf(i), m * p.v, k * p.h, p.h, p.v, y, x);
  }

  /** The blocks of the image itself, and the dummy blocks around them: to the right with the DC value of
      the last block of the row, below with that of the last block of the MCU's last real row. */
  lemma PadSpelled(p: Comp, plane: Plane, r: nat, c: nat, right: nat)
    requires IsPlane(p, plane) && 0 < p.width && 0 < p.height
    ensures r < p.height && c < p.width ==> PadBlock(p, plane, r, c, right) == plane[r][c]
    ensures r < p.height && p.width <= c ==> PadBlock(p, plane, r, c, right)[0] == plane[r][p.width - 1][0]
    ensures p.height <= r ==>
              PadBlock(p, plane, r, c, right)[0]
              == plane[p.height - 1][if right < p.width then right else p.width - 1][0]
    ensures p.height <= r || p.width <= c ==> forall j :: 1 <= j < 64 ==> PadBlock(p, plane, r, c, right)[j] == 0
  {
  }
}
