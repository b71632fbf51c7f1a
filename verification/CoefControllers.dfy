/** The coefficient controllers of the compressor: one pass and several passes (jccoefct.c),
    and transcoding (jctrans.c).  All of them send the same MCUs for the same scan. */
module CoefControllers {
  import opened Powers
  import opened Ceilings
  import opened Coefficients
  import opened McuSequence
  import opened ImageEdges

  // ------------------------------------------------------------ real and dummy blocks

  /** The test for a real block row, by which the controllers tell them apart. */
  lemma RealRow(t: Task, ci: nat, n: nat, y: nat)
    requires t.Legal() && ci < |t.scan| && n < t.Total() && y < t.P(ci).v
    ensures n + 1 < t.Total() || y < t.LastRowHeight(ci) <==> n * t.P(ci).v + y < t.P(ci).height
  {
    hide DivUp, t.Total, t.Legal, t.LegalComp, IsPlane;
    LegalMeans(t, ci);
    Covered(t, t.P(ci));
    var v, last := t.P(ci).v, t.Total() - 1;
    if n + 1 < t.Total() {
      MulLe(n + 1, last, v);
      assert (n + 1) * v == n * v + v;
    }
  }

  /** The count of real blocks in a row of an MCU. */
  lemma RealColumns(t: Task, ci: nat, col: nat)
    requires t.Legal() && ci < |t.scan| && col < t.McusPerRow()
    ensures var p, w := t.P(ci), t.McuWidth(ci);
            var count := if col + 1 < t.McusPerRow() then w else t.LastColWidth(ci);
            0 < count <= w && col * w + count <= p.width && (count < w ==> col * w + count == p.width)
  {
    hide DivUp, t.McusAcross, t.Legal, t.LegalComp, IsPlane;
    LegalMeans(t, ci);
    Covered(t, t.P(ci));
    var p, w := t.P(ci), t.McuWidth(ci);
    if |t.scan| > 1 {
      if col + 1 < t.McusAcross() {
        MulLe(col + 1, t.McusAcross() - 1, w);
        assert (col + 1) * w == col * w + w;
      }
    }
  }

  /** A row of blocks of an MCU, as compress_data makes it: the forward DCT gives the real
      ones, and dummy blocks take the DC value of the block before; a row below the image
      that of the MCU's last block so far. */
  method OnePassRow(p: Comp, plane: Plane, r: nat, c0: nat, w: nat, count: nat, inside: bool, lastDc: int)
    returns (row: seq<Zigzag>)
    requires IsPlane(p, plane) && 0 < p.width && 0 < p.height && 0 < count <= w
    requires inside <==> r < p.height
    requires c0 + count <= p.width && (count < w ==> c0 + count == p.width)
    requires !inside ==> lastDc == DcAbove(p, plane, c0 + w - 1)
    ensures row == BlockRow(p, plane, r, c0, w, c0 + w - 1)
  {
    row := [];
    if inside {
      RealBlocks(p, plane, r, c0, count, c0 + w - 1);
      row := plane[r][c0..c0 + count];
      for bi := count to w
        invariant row == BlockRow(p, plane, r, c0, bi, c0 + w - 1)
        invariant row[bi - 1][0] == plane[r][c0 + count - 1][0]
      {
        row := row + [DcOnly(row[bi - 1][0])];
      }
    } else {
      for bi := 0 to w
        invariant row == BlockRow(p, plane, r, c0, bi, c0 + w - 1)
      {
        row := row + [DcOnly(lastDc)];
      }
    }
  }

  lemma {:induction false} RealBlocks(p: Comp, plane: Plane, r: nat, c0: nat, count: nat, right: nat)
    requires IsPlane(p, plane) && 0 < p.width && r < p.height && c0 + count <= p.width
    ensures BlockRow(p, plane, r, c0, count, right) == plane[r][c0..c0 + count]
  {
    if count > 0 {
      RealBlocks(p, plane, r, c0, count - 1, right);
      assert plane[r][c0..c0 + count] == plane[r][c0..c0 + count - 1] + [plane[r][c0 + count - 1]];
    }
  }

  /** The DC value that rows below the image repeat. */
  function DcAbove(p: Comp, plane: Plane, right: nat): int
    requires IsPlane(p, plane) && 0 < p.width && 0 < p.height
  {
    plane[p.height - 1][if right < p.width then right else p.width - 1][0]
  }

  lemma LastBlockDc(p: Comp, plane: Plane, r: nat, right: nat)
    requires IsPlane(p, plane) && 0 < p.width && 0 < p.height && p.height <= r + 1
    ensures PadBlock(p, plane, r, right, right)[0] == DcAbove(p, plane, right)
  {
  }

  /** The same for the transcoder: pointers to real blocks, then dummy blocks of its own
      with the DC value of the block before. */
  method TransRow(p: Comp, plane: Plane, r: nat, c0: nat, w: nat, count: nat, inside: bool, lastDc: int)
    returns (row: seq<Zigzag>)
    requires IsPlane(p, plane) && 0 < p.width && 0 < p.height && 0 < count <= w
    requires inside <==> r < p.height
    requires c0 + count <= p.width && (count < w ==> c0 + count == p.width)
    requires !inside ==> lastDc == DcAbove(p, plane, c0 + w - 1)
    ensures row == BlockRow(p, plane, r, c0, w, c0 + w - 1)
  {
    row := [];
    var dc := lastDc;
    if inside {
      for xindex := 0 to count
        invariant row == BlockRow(p, plane, r, c0, xindex, c0 + w - 1)
      {
        row := row + [plane[r][c0 + xindex]];
      }
      dc := row[count - 1][0];
    }
    while |row| < w
      invariant if inside then count <= |row| <= w else |row| <= w
      invariant dc == if inside then plane[r][c0 + count - 1][0] else lastDc
      invariant row == BlockRow(p, plane, r, c0, |row|, c0 + w - 1)
    {
      row := row + [DcOnly(dc)];
      dc := row[|row| - 1][0];
    }
  }

  // -------------------------------------------------------------------- building MCUs

  ghost predicate McuAt(t: Task, n: nat, y: nat, col: nat)
    requires t.Legal()
  {
    n < t.Total() && y < t.McuRows(n) && col < t.McusPerRow()
  }

  /** Rows of an MCU stay in the iMCU row, and its first row is real. */
  lemma RowInside(t: Task, n: nat, y: nat, ci: nat, yindex: nat)
    requires t.Legal() && n < t.Total() && y < t.McuRows(n) && ci < |t.scan| && yindex < t.McuHeight(ci)
    ensures y + yindex < t.P(ci).v
    ensures yindex == 0 ==> n + 1 < t.Total() || y + yindex < t.LastRowHeight(ci)
  {
    hide DivUp, t.Total;
    LegalMeans(t, ci);
  }

  /** A row of a component's blocks in an MCU, made by the one-pass controller or by the
      transcoder after the blocks `part`. */
  method CompRow(t: Task, n: nat, y: nat, col: nat, ci: nat, yindex: nat, part: seq<Zigzag>, trans: bool)
    returns (row: seq<Zigzag>)
    requires t.Legal() && McuAt(t, n, y, col) && ci < |t.scan| && yindex < t.McuHeight(ci) && 0 < t.McuWidth(ci)
    requires var r, c0, w := n * t.P(ci).v + y, col * t.McuWidth(ci), t.McuWidth(ci);
             part == BlockRows(t.P(ci), t.PlaneOf(ci), r, c0, w, yindex)
    ensures var r, c0, w := n * t.P(ci).v + y, col * t.McuWidth(ci), t.McuWidth(ci);
            row == BlockRow(t.P(ci), t.PlaneOf(ci), r + yindex, c0, w, c0 + w - 1)
  {
    hide DivUp, t.Total, t.Legal, IsPlane, PadBlock, t.LastRowHeight, t.McusPerRow, t.McuRows, t.LastColWidth, BlockRow,
      t.McuWidth, t.McuHeight;
    LegalMeans(t, 0);
    LegalMeans(t, ci);
    var p, plane, w := t.P(ci), t.PlaneOf(ci), t.McuWidth(ci);
    var blockcnt := if col + 1 < t.McusPerRow() then w else t.LastColWidth(ci);
    RealColumns(t, ci, col);
    var r, c0 := n * p.v + y, col * w;
    RowInside(t, n, y, ci, yindex);
    RealRow(t, ci, n, y + yindex);
    var inside := n + 1 < t.Total() || y + yindex < t.LastRowHeight(ci);
    var lastDc := 0;
    if !inside {
      LastOfRows(p, plane, r, c0, w, yindex);
      LastBlockDc(p, plane, r + yindex - 1, c0 + w - 1);
      lastDc := part[|part| - 1][0];
    }
    if trans {
      row := TransRow(p, plane, r + yindex, c0, w, blockcnt, inside, lastDc);
    } else {
      row := OnePassRow(p, plane, r + yindex, c0, w, blockcnt, inside, lastDc);
    }
  }

  lemma LastOfRows(p: Comp, plane: Plane, r: nat, c0: nat, w: nat, rows: nat)
    requires IsPlane(p, plane) && 0 < p.width && 0 < p.height && 0 < w && 0 < rows
    ensures var part := BlockRows(p, plane, r, c0, w, rows);
            part != [] && part[|part| - 1] == PadBlock(p, plane, r + rows - 1, c0 + w - 1, c0 + w - 1)
  {
    hide IsPlane, PadBlock;
  }

  /** The blocks of a component in an MCU. */
  method CompBlocks(t: Task, n: nat, y: nat, col: nat, ci: nat, trans: bool) returns (part: seq<Zigzag>)
    requires t.Legal() && McuAt(t, n, y, col) && ci < |t.scan|
    ensures 0 < t.McuWidth(ci) && part ==
      BlockRows(t.P(ci), t.PlaneOf(ci), n * t.P(ci).v + y, col * t.McuWidth(ci), t.McuWidth(ci), t.McuHeight(ci))
  {
    hide DivUp, t.Legal, IsPlane, PadBlock, McuAt, BlockRow;
    LegalMeans(t, ci);
    part := [];
    for yindex := 0 to t.McuHeight(ci)
      invariant part ==
        BlockRows(t.P(ci), t.PlaneOf(ci), n * t.P(ci).v + y, col * t.McuWidth(ci), t.McuWidth(ci), yindex)
    {
      var row := CompRow(t, n, y, col, ci, yindex, part, trans);
      part := part + row;
    }
  }

  method BuildMcu(t: Task, n: nat, y: nat, col: nat, trans: bool) returns (mcu: seq<Zigzag>)
    requires t.Legal() && McuAt(t, n, y, col)
    ensures mcu == t.Mcu(n, y, col)
  {
    hide t.Legal, BlockRows;
    mcu := [];
    for ci := 0 to |t.scan|
      invariant mcu == t.McuPart(n, y, col, ci)
    {
      var part := CompBlocks(t, n, y, col, ci, trans);
      mcu := mcu + part;
    }
  }

  // ---------------------------------------------------------------- the full buffer

  /** Row `r` of the virtual array of a component: `k` MCUs of blocks. */
  function PadRow(p: Comp, plane: Plane, r: nat, k: nat): (s: seq<Zigzag>)
    requires IsPlane(p, plane) && 0 < p.width && 0 < p.height && 0 < p.h
    ensures |s| == k * p.h
  {
    if k == 0 then [] else
      assert 0 <= (k - 1) * p.h;
      PadRow(p, plane, r, k - 1) + BlockRow(p, plane, r, (k - 1) * p.h, p.h, (k - 1) * p.h + p.h - 1)
  }

  lemma {:induction false} PadRowPart(p: Comp, plane: Plane, r: nat, k: nat, col: nat)
    requires IsPlane(p, plane) && 0 < p.width && 0 < p.height && 0 < p.h && col < k
    ensures col * p.h + p.h <= k * p.h
    ensures PadRow(p, plane, r, k)[col * p.h..col * p.h + p.h]
         == BlockRow(p, plane, r, col * p.h, p.h, col * p.h + p.h - 1)
    decreases k
  {
    hide IsPlane, PadBlock;
    MulLe(col + 1, k, p.h);
    var front := PadRow(p, plane, r, k - 1);
    if col < k - 1 {
      PadRowPart(p, plane, r, k - 1, col);
      var row := PadRow(p, plane, r, k);
      assert row[col * p.h..col * p.h + p.h] == front[col * p.h..col * p.h + p.h];
    }
  }

  /** In a real block row it does not matter where the MCU ends. */
  lemma {:induction false} BlocksJoin(p: Comp, plane: Plane, r: nat, a: nat, w: nat, right: nat)
    requires IsPlane(p, plane) && 0 < p.width && r < p.height
    ensures BlockRow(p, plane, r, 0, a, 0) + BlockRow(p, plane, r, a, w, right) == BlockRow(p, plane, r, 0, a + w, 0)
  {
    if w > 0 {
      BlocksJoin(p, plane, r, a, w - 1, right);
      assert PadBlock(p, plane, r, a + w - 1, right) == PadBlock(p, plane, r, a + w - 1, 0);
    }
  }

  lemma {:induction false} RealPadRow(p: Comp, plane: Plane, r: nat, k: nat)
    requires IsPlane(p, plane) && 0 < p.width && r < p.height && 0 < p.h
    ensures PadRow(p, plane, r, k) == BlockRow(p, plane, r, 0, k * p.h, 0)
  {
    hide IsPlane, PadBlock, BlockRow;
    if k > 0 {
      RealPadRow(p, plane, r, k - 1);
      BlocksJoin(p, plane, r, (k - 1) * p.h, p.h, (k - 1) * p.h + p.h - 1);
      assert k * p.h == (k - 1) * p.h + p.h;
    } else {
      assert k * p.h == 0;
    }
  }

  /** A real block row with its dummy blocks at the right. */
  method FirstPassRow(p: Comp, plane: Plane, r: nat, ndummy: nat, ghost k: nat) returns (row: seq<Zigzag>)
    requires IsPlane(p, plane) && 0 < p.width && r < p.height && 0 < p.h && k * p.h == p.width + ndummy
    ensures row == PadRow(p, plane, r, k)
  {
    RealPadRow(p, plane, r, k);
    RealBlocks(p, plane, r, 0, p.width, 0);
    row := plane[r];
    assert plane[r] == plane[r][0..p.width];
    if ndummy > 0 {
      var lastDC := row[p.width - 1][0];
      for bi := 0 to ndummy
        invariant row == BlockRow(p, plane, r, 0, p.width + bi, 0)
      {
        row := row + [DcOnly(lastDC)];
      }
    }
  }

  /** A dummy block row: each MCU repeats its last DC value of the row above. */
  method FirstPassDummyRow(p: Comp, plane: Plane, r: nat, above: seq<Zigzag>, k: nat) returns (row: seq<Zigzag>)
    requires IsPlane(p, plane) && 0 < p.width && 0 < p.height && 0 < p.h && p.height <= r
    requires above == PadRow(p, plane, r - 1, k)
    ensures row == PadRow(p, plane, r, k)
  {
    hide IsPlane, PadBlock, BlockRow;
    row := [];
    for mcuIndex := 0 to k
      invariant row == PadRow(p, plane, r, mcuIndex)
    {
      var at := mcuIndex * p.h;
      DcOfAbove(p, plane, r, above, k, mcuIndex);
      var mcu := DummyMcu(p, plane, r, at, above[at + p.h - 1][0]);
      row := row + mcu;
    }
  }

  lemma DcOfAbove(p: Comp, plane: Plane, r: nat, above: seq<Zigzag>, k: nat, col: nat)
    requires IsPlane(p, plane) && 0 < p.width && 0 < p.height && 0 < p.h && p.height <= r && col < k
    requires above == PadRow(p, plane, r - 1, k)
    ensures col * p.h + p.h <= |above| && above[col * p.h + p.h - 1][0] == DcAbove(p, plane, col * p.h + p.h - 1)
  {
    hide IsPlane, PadBlock, DcAbove;
    var at := col * p.h;
    PadRowPart(p, plane, r - 1, k, col);
    assert above[at + p.h - 1] == above[at..at + p.h][p.h - 1];
    LastBlockDc(p, plane, r - 1, at + p.h - 1);
  }

  method DummyMcu(p: Comp, plane: Plane, r: nat, at: nat, lastDC: int) returns (mcu: seq<Zigzag>)
    requires IsPlane(p, plane) && 0 < p.width && 0 < p.height && 0 < p.h && p.height <= r
    requires lastDC == DcAbove(p, plane, at + p.h - 1)
    ensures mcu == BlockRow(p, plane, r, at, p.h, at + p.h - 1)
  {
    mcu := [];
    for bi := 0 to p.h
      invariant mcu == BlockRow(p, plane, r, at, bi, at + p.h - 1)
    {
      mcu := mcu + [DcOnly(lastDC)];
    }
  }

  // ---------------------------------------------------------------- MCUs from the buffer

  /** The virtual arrays: for each component the padded rows of the first `n` iMCU rows. */
  ghost predicate Buffered(t: Task, whole: seq<seq<seq<Zigzag>>>, n: nat)
    requires t.Legal()
  {
    |whole| == |t.comps| && forall c :: 0 <= c < |whole| ==> PlaneBuffered(t, c, whole[c], n)
  }

  ghost predicate PlaneBuffered(t: Task, c: nat, rows: seq<seq<Zigzag>>, n: nat)
    requires t.Legal() && c < |t.comps|
  {
    var p := t.comps[c];
    && |rows| == t.Total() * p.v
    && forall r :: 0 <= r < n * p.v && r < |rows| ==> rows[r] == PadRow(p, t.img[c], r, t.McusAcross())
  }

  /** A row of an MCU is a stretch of the buffer. */
  lemma BufferRow(t: Task, ci: nat, r: nat, col: nat, row: seq<Zigzag>)
    requires t.Legal() && ci < |t.scan| && col < t.McusPerRow() && 0 < t.McuWidth(ci)
    requires row == PadRow(t.P(ci), t.PlaneOf(ci), r, t.McusAcross()) && (|t.scan| == 1 ==> r < t.P(ci).height)
    ensures var c0, w := col * t.McuWidth(ci), t.McuWidth(ci);
            c0 + w <= |row| && row[c0..c0 + w] == BlockRow(t.P(ci), t.PlaneOf(ci), r, c0, w, c0 + w - 1)
  {
    hide DivUp, IsPlane, PadBlock, BlockRow, t.Legal, t.LegalComp;
    LegalMeans(t, ci);
    Covered(t, t.P(ci));
    var p, plane, k := t.P(ci), t.PlaneOf(ci), t.McusAcross();
    if |t.scan| == 1 {
      RealPadRow(p, plane, r, k);
      OneBlock(p, plane, r, k * p.h, col);
    } else {
      PadRowPart(p, plane, r, k, col);
    }
  }

  lemma OneBlock(p: Comp, plane: Plane, r: nat, w: nat, col: nat)
    requires IsPlane(p, plane) && 0 < p.width && r < p.height && col < w
    ensures BlockRow(p, plane, r, 0, w, 0)[col..col + 1] == BlockRow(p, plane, r, col, 1, col)
  {
  }

  /** compress_output's list of the blocks of an MCU, of one component. */
  method BufferBlocks(t: Task, whole: seq<seq<seq<Zigzag>>>, n: nat, y: nat, col: nat, ci: nat)
    returns (part: seq<Zigzag>)
    requires t.Legal() && McuAt(t, n, y, col) && ci < |t.scan| && Buffered(t, whole, n + 1)
    ensures 0 < t.McuWidth(ci) && part ==
      BlockRows(t.P(ci), t.PlaneOf(ci), n * t.P(ci).v + y, col * t.McuWidth(ci), t.McuWidth(ci), t.McuHeight(ci))
  {
    hide DivUp, t.Legal, IsPlane, PadBlock, BlockRow, Buffered, PadRow;
    LegalMeans(t, ci);
    part := [];
    var startCol := col * t.McuWidth(ci);
    for yindex := 0 to t.McuHeight(ci)
      invariant part ==
        BlockRows(t.P(ci), t.PlaneOf(ci), n * t.P(ci).v + y, col * t.McuWidth(ci), t.McuWidth(ci), yindex)
    {
      RowThere(t, whole, n, y, ci, yindex);
      var row := whole[t.scan[ci]][n * t.P(ci).v + y + yindex];
      BufferRow(t, ci, n * t.P(ci).v + y + yindex, col, row);
      part := part + row[startCol..startCol + t.McuWidth(ci)];
    }
  }

  lemma RowThere(t: Task, whole: seq<seq<seq<Zigzag>>>, n: nat, y: nat, ci: nat, yindex: nat)
    requires t.Legal() && n < t.Total() && y < t.McuRows(n) && ci < |t.scan| && yindex < t.McuHeight(ci)
    requires Buffered(t, whole, n + 1)
    ensures t.scan[ci] < |whole| && n * t.P(ci).v + y + yindex < |whole[t.scan[ci]]|
    ensures var r := n * t.P(ci).v + y + yindex;
            && IsPlane(t.P(ci), t.PlaneOf(ci)) && t.LegalComp(t.P(ci))
            && whole[t.scan[ci]][r] == PadRow(t.P(ci), t.PlaneOf(ci), r, t.McusAcross())
            && (|t.scan| == 1 ==> r < t.P(ci).height)
  {
    hide DivUp, t.Legal, IsPlane, PadBlock, BlockRow, PadRow, t.LastRowHeight, t.Total, t.McusAcross;
    LegalMeans(t, ci);
    RowInside(t, n, y, ci, yindex);
    RealRow(t, ci, n, y + yindex);
    assert PlaneBuffered(t, t.scan[ci], whole[t.scan[ci]], n + 1);
    var v := t.P(ci).v;
    assert (n + 1) * v == n * v + v;
    MulLe(n + 1, t.Total(), v);
  }

  method BufferMcu(t: Task, whole: seq<seq<seq<Zigzag>>>, n: nat, y: nat, col: nat) returns (mcu: seq<Zigzag>)
    requires t.Legal() && McuAt(t, n, y, col) && Buffered(t, whole, n + 1)
    ensures mcu == t.Mcu(n, y, col)
  {
    hide t.Legal, BlockRows, Buffered;
    mcu := [];
    for ci := 0 to |t.scan|
      invariant mcu == t.McuPart(n, y, col, ci)
    {
      var part := BufferBlocks(t, whole, n, y, col, ci);
      mcu := mcu + part;
    }
  }

  // -------------------------------------------------------------- filling the buffer

  /** compress_first_pass for one component: an iMCU row into the virtual array. */
  method LoadPlane(t: Task, c: nat, was: seq<seq<Zigzag>>, n: nat) returns (rows: seq<seq<Zigzag>>)
    requires t.Legal() && c < |t.comps| && n < t.Total() && PlaneBuffered(t, c, was, n)
    ensures PlaneBuffered(t, c, rows, n + 1)
  {
    hide DivUp, IsPlane, PadBlock, BlockRow, PadRow, t.LegalComp;
    var p, plane := t.comps[c], t.img[c];
    PlaneLegal(t, c);
    Covered(t, p);
    var blockRows := p.v;
    if n == t.Total() - 1 {
      blockRows := p.height % p.v;
      if blockRows == 0 { blockRows := p.v; }
    }
    BlockRowsReal(t, p, n);
    var blocksAcross := p.width;
    var ndummy := blocksAcross % p.h;
    if ndummy > 0 { ndummy := p.h - ndummy; }
    OneMore(t.McusAcross(), p.h);
    assert (n + 1) * p.v == n * p.v + p.v;
    MulLe(n + 1, t.Total(), p.v);
    rows := was;
    for blockRow := 0 to blockRows
      invariant |rows| == |was|
      invariant forall r :: 0 <= r < n * p.v + blockRow && r < |rows| ==> rows[r] == PadRow(p, plane, r, t.McusAcross())
    {
      var row := FirstPassRow(p, plane, n * p.v + blockRow, ndummy, t.McusAcross());
      rows := rows[n * p.v + blockRow := row];
    }
    if n == t.Total() - 1 {
      blocksAcross := blocksAcross + ndummy;
      var mcusAcross := blocksAcross / p.h;
      QuotientIs(blocksAcross, p.h, t.McusAcross(), 0);
      for blockRow := blockRows to p.v
        invariant |rows| == |was|
        invariant forall r :: 0 <= r < n * p.v + blockRow && r < |rows|
                    ==> rows[r] == PadRow(p, plane, r, t.McusAcross())
      {
        var row := FirstPassDummyRow(p, plane, n * p.v + blockRow, rows[n * p.v + blockRow - 1], mcusAcross);
        rows := rows[n * p.v + blockRow := row];
      }
    }
  }

  lemma PlaneLegal(t: Task, c: nat)
    requires t.Legal() && c < |t.comps|
    ensures 0 < t.imageWidth && 0 < t.imageHeight && t.LegalComp(t.comps[c]) && IsPlane(t.comps[c], t.img[c])
    ensures 0 < t.comps[c].h && 0 < t.comps[c].v && 0 < t.comps[c].width && 0 < t.comps[c].height
  {
  }

  /** The count of real block rows in an iMCU row. */
  lemma BlockRowsReal(t: Task, p: Comp, n: nat)
    requires 0 < t.imageWidth && 0 < t.imageHeight && 0 < t.unitW && 0 < t.unitH && t.LegalComp(p) && n < t.Total()
    ensures n + 1 < t.Total() ==> n * p.v + p.v <= p.height
    ensures n + 1 == t.Total() ==>
              p.height == n * p.v + (if p.height % p.v == 0 then p.v else p.height % p.v)
  {
    hide DivUp;
    Covered(t, p);
    if n + 1 < t.Total() {
      MulLe(n + 1, t.Total() - 1, p.v);
      assert (n + 1) * p.v == n * p.v + p.v;
    }
  }

  // -------------------------------------------------------------------- raster order

  /** Counters at an MCU of iMCU row `n`, or just behind the last one of an MCU row. */
  ghost predicate Sending(t: Task, n: nat, rows: nat, y: nat, col: nat)
    requires t.Legal()
  {
    n < t.Total() && rows == t.McuRows(n) && (if y < rows then col < t.McusPerRow() else col == 0)
  }

  /** The counters say which MCU is next, and all before it are sent. */
  ghost predicate Counted(t: Task, n: nat, rows: nat, y: nat, col: nat, sent: seq<seq<Zigzag>>)
    requires t.Legal()
  {
    && n <= t.Total() && sent == t.Before(n, y, col)
    && if n < t.Total() then Sending(t, n, rows, y, col) && y < rows else y == 0 && col == 0
  }

  lemma NextMcu(t: Task, n: nat, y: nat, col: nat)
    requires t.Legal()
    ensures t.Before(n, y, col) + [t.Mcu(n, y, col)] == t.Before(n, y, col + 1)
  {
    hide t.Mcu, t.ImcuRows, t.McuLines;
  }

  lemma NextLine(t: Task, n: nat, y: nat)
    requires t.Legal()
    ensures t.Before(n, y, t.McusPerRow()) == t.Before(n, y + 1, 0)
  {
    hide t.McusPerRow, t.ImcuRows;
    assert t.McuLines(n, y + 1) == t.McuLines(n, y) + t.McuCols(n, y, t.McusPerRow());
  }

  lemma NextRow(t: Task, n: nat)
    requires t.Legal()
    ensures t.Before(n, t.McuRows(n), 0) == t.Before(n + 1, 0, 0)
  {
    hide t.McuRows;
    assert t.ImcuRows(n + 1) == t.ImcuRows(n) + t.McuLines(n, t.McuRows(n));
  }

  lemma ScanSome(t: Task)
    requires t.Legal()
    ensures 0 < |t.scan| && t.scan[0] < |t.comps| && 0 < t.unitW && 0 < t.unitH && 0 < t.P(0).v
  {
  }

  lemma SomeMcus(t: Task)
    requires t.Legal()
    ensures 0 < t.McusPerRow() && 0 < t.Total() && forall n :: 0 < t.McuRows(n)
  {
    hide DivUp;
    LegalMeans(t, 0);
    Covered(t, t.P(0));
  }

  /** The counters, at the start of an iMCU row. */
  method RowsToSend(t: Task, n: nat) returns (rows: nat)
    requires t.Legal() && n <= t.Total()
    ensures rows == t.McuRows(n)
  {
    LegalMeans(t, 0);
    if |t.scan| > 1 {
      return 1;
    } else {
      SomeMcus(t);
      if n < t.Total() - 1 {
        return t.P(0).v;
      } else {
        return t.LastRowHeight(0);
      }
    }
  }

  /** The compressor's controller: with a single-MCU buffer, or with virtual arrays. */
  class CoefController {
    var t: Task                  // the image, and the components of the scan
    var imcuRowNum: nat
    var mcuCtr: nat
    var mcuVertOffset: nat
    var mcuRowsPerImcuRow: nat
    var whole: seq<seq<seq<Zigzag>>>
    /** The MCUs that the entropy coder accepted in this pass. */
    var sent: seq<seq<Zigzag>>

    ghost predicate Valid()
      reads this
    {
      t.Legal() && Counted(t, imcuRowNum, mcuRowsPerImcuRow, mcuVertOffset, mcuCtr, sent)
    }

    constructor (t: Task)
      requires t.Legal()
      ensures Valid() && this.t == t && imcuRowNum == 0 && sent == [] && Buffered(t, whole, 0)
    {
      this.t := t;
      imcuRowNum, mcuCtr, mcuVertOffset, sent := 0, 0, 0, [];
      whole := seq(|t.comps|, c requires 0 <= c < |t.comps| =>
        seq(DivUp(t.imageHeight, t.unitH) * t.comps[c].v, r => []));
      mcuRowsPerImcuRow := 0;
      new;
      SomeMcus(t);
      StartImcuRow();
    }

    /** start_iMCU_row. */
    method StartImcuRow()
      requires t.Legal() && imcuRowNum <= t.Total() && sent == t.Before(imcuRowNum, 0, 0)
      modifies `mcuCtr, `mcuVertOffset, `mcuRowsPerImcuRow
      ensures Valid()
    {
      SomeMcus(t);
      mcuRowsPerImcuRow := RowsToSend(t, imcuRowNum);
      mcuCtr, mcuVertOffset := 0, 0;
    }

    /** start_pass_coef, for a scan over the same image. */
    method StartPass(scan: seq<nat>)
      requires t.Legal() && 0 < |scan| && forall i :: 0 <= i < |scan| ==> scan[i] < |t.comps|
      modifies `t, `imcuRowNum, `mcuCtr, `mcuVertOffset, `mcuRowsPerImcuRow, `sent
      ensures Valid() && t == old(t).(scan := scan) && imcuRowNum == 0 && sent == []
      ensures forall n :: Buffered(old(t), whole, n) ==> Buffered(t, whole, n)
    {
      SameImage(t, whole, scan);
      t := t.(scan := scan);
      imcuRowNum, sent := 0, [];
      StartImcuRow();
    }

    /** compress_data: one iMCU row, of which the entropy coder takes `accept` MCUs at most
        before it asks to suspend. */
    method CompressData(accept: nat) returns (done: bool)
      requires Valid() && imcuRowNum < t.Total()
      modifies `imcuRowNum, `mcuCtr, `mcuVertOffset, `mcuRowsPerImcuRow, `sent
      ensures Valid()
      ensures old(sent) <= sent
      ensures done ==> imcuRowNum == old(imcuRowNum) + 1 && |sent| <= |old(sent)| + accept
      ensures !done ==> imcuRowNum == old(imcuRowNum) && |sent| == |old(sent)| + accept
    {
      hide t.Legal, t.Before, t.Mcu, t.McuRows, t.McusPerRow, t.Total;
      ScanSome(t);
      var n, rows, across := imcuRowNum, mcuRowsPerImcuRow, t.McusPerRow();
      var yoffset := mcuVertOffset;
      var col: nat := mcuCtr;
      var room := accept;
      while yoffset < rows
        invariant imcuRowNum == n && mcuRowsPerImcuRow == rows && yoffset <= rows && Sending(t, n, rows, yoffset, col)
        invariant sent == t.Before(n, yoffset, col) && old(sent) <= sent && |sent| + room == |old(sent)| + accept
      {
        while col < across
          invariant imcuRowNum == n && mcuRowsPerImcuRow == rows && col <= across && sent == t.Before(n, yoffset, col)
          invariant old(sent) <= sent && |sent| + room == |old(sent)| + accept
        {
          var mcu := BuildMcu(t, n, yoffset, col, false);
          if room == 0 {
            mcuVertOffset, mcuCtr := yoffset, col;
            return false;
          }
          NextMcu(t, n, yoffset, col);
          sent, room := sent + [mcu], room - 1;
          col := col + 1;
        }
        NextLine(t, n, yoffset);
        col := 0;
        yoffset := yoffset + 1;
      }
      NextRow(t, n);
      imcuRowNum := imcuRowNum + 1;
      StartImcuRow();
      return true;
    }

    /** compress_output, from the virtual arrays. */
    method CompressOutput(accept: nat) returns (done: bool)
      requires Valid() && imcuRowNum < t.Total() && Buffered(t, whole, imcuRowNum + 1)
      modifies `imcuRowNum, `mcuCtr, `mcuVertOffset, `mcuRowsPerImcuRow, `sent
      ensures Valid()
      ensures old(sent) <= sent
      ensures done ==> imcuRowNum == old(imcuRowNum) + 1 && |sent| <= |old(sent)| + accept
      ensures !done ==> imcuRowNum == old(imcuRowNum) && |sent| == |old(sent)| + accept
    {
      hide t.Legal, t.Before, t.Mcu, t.McuRows, t.McusPerRow, t.Total, Buffered;
      ScanSome(t);
      var n, rows, across := imcuRowNum, mcuRowsPerImcuRow, t.McusPerRow();
      var yoffset := mcuVertOffset;
      var col: nat := mcuCtr;
      var room := accept;
      while yoffset < rows
        invariant imcuRowNum == n && mcuRowsPerImcuRow == rows && yoffset <= rows && Sending(t, n, rows, yoffset, col)
        invariant sent == t.Before(n, yoffset, col) && old(sent) <= sent && |sent| + room == |old(sent)| + accept
      {
        while col < across
          invariant imcuRowNum == n && mcuRowsPerImcuRow == rows && col <= across && sent == t.Before(n, yoffset, col)
          invariant old(sent) <= sent && |sent| + room == |old(sent)| + accept
        {
          var mcu := BufferMcu(t, whole, n, yoffset, col);
          if room == 0 {
            mcuVertOffset, mcuCtr := yoffset, col;
            return false;
          }
          NextMcu(t, n, yoffset, col);
          sent, room := sent + [mcu], room - 1;
          col := col + 1;
        }
        NextLine(t, n, yoffset);
        col := 0;
        yoffset := yoffset + 1;
      }
      NextRow(t, n);
      imcuRowNum := imcuRowNum + 1;
      StartImcuRow();
      return true;
    }

    /** compress_first_pass: all components into the virtual arrays, then as above; after a
        suspension the row is loaded again. */
    method CompressFirstPass(accept: nat) returns (done: bool)
      requires Valid() && imcuRowNum < t.Total() && Buffered(t, whole, imcuRowNum)
      modifies this
      ensures Valid() && t == old(t) && Buffered(t, whole, old(imcuRowNum) + 1)
      ensures old(sent) <= sent
      ensures done ==> imcuRowNum == old(imcuRowNum) + 1 && |sent| <= |old(sent)| + accept
      ensures !done ==> imcuRowNum == old(imcuRowNum) && |sent| == |old(sent)| + accept
    {
      hide t.Legal, t.Total, PlaneBuffered, Counted;
      var planes: seq<seq<seq<Zigzag>>> := [];
      for ci := 0 to |t.comps|
        invariant |planes| == ci && t == old(t)
        invariant forall c :: 0 <= c < ci ==> PlaneBuffered(t, c, planes[c], imcuRowNum + 1)
        invariant imcuRowNum == old(imcuRowNum) && sent == old(sent) && Valid()
        invariant whole == old(whole)
      {
        var plane := LoadPlane(t, ci, whole[ci], imcuRowNum);
        planes := planes + [plane];
      }
      whole := planes;
      done := CompressOutput(accept);
    }
  }

  lemma SameImage(t: Task, whole: seq<seq<seq<Zigzag>>>, scan: seq<nat>)
    requires t.Legal() && 0 < |scan| && forall i :: 0 <= i < |scan| ==> scan[i] < |t.comps|
    ensures t.(scan := scan).Legal()
    ensures forall n :: Buffered(t, whole, n) ==> Buffered(t.(scan := scan), whole, n)
  {
    hide DivUp, PadRow, IsPlane;
    var u := t.(scan := scan);
    forall n | Buffered(t, whole, n)
      ensures Buffered(u, whole, n)
    {
      forall c | 0 <= c < |whole|
        ensures PlaneBuffered(u, c, whole[c], n)
      {
        assert PlaneBuffered(t, c, whole[c], n);
      }
    }
  }

  /** The transcoder's controller; the blocks come from arrays with real blocks only. */
  class TransCoefController {
    const t: Task
    var imcuRowNum: nat
    var mcuCtr: nat
    var mcuVertOffset: nat
    var mcuRowsPerImcuRow: nat
    var sent: seq<seq<Zigzag>>

    ghost predicate Valid()
      reads this
    {
      t.Legal() && Counted(t, imcuRowNum, mcuRowsPerImcuRow, mcuVertOffset, mcuCtr, sent)
    }

    constructor (t: Task)
      requires t.Legal()
      ensures Valid() && this.t == t && imcuRowNum == 0 && sent == []
    {
      this.t := t;
      imcuRowNum, mcuCtr, mcuVertOffset, mcuRowsPerImcuRow, sent := 0, 0, 0, 0, [];
      new;
      SomeMcus(t);
      StartImcuRow();
    }

    method StartImcuRow()
      requires t.Legal() && imcuRowNum <= t.Total() && sent == t.Before(imcuRowNum, 0, 0)
      modifies `mcuCtr, `mcuVertOffset, `mcuRowsPerImcuRow
      ensures Valid()
    {
      SomeMcus(t);
      mcuRowsPerImcuRow := RowsToSend(t, imcuRowNum);
      mcuCtr, mcuVertOffset := 0, 0;
    }

    /** compress_output of jctrans.c. */
    method CompressOutput(accept: nat) returns (done: bool)
      requires Valid() && imcuRowNum < t.Total()
      modifies this
      ensures Valid()
      ensures old(sent) <= sent
      ensures done ==> imcuRowNum == old(imcuRowNum) + 1 && |sent| <= |old(sent)| + accept
      ensures !done ==> imcuRowNum == old(imcuRowNum) && |sent| == |old(sent)| + accept
    {
      hide t.Legal, t.Before, t.Mcu, t.McuRows, t.McusPerRow, t.Total;
      ScanSome(t);
      var n, rows, across := imcuRowNum, mcuRowsPerImcuRow, t.McusPerRow();
      var yoffset := mcuVertOffset;
      var col: nat := mcuCtr;
      var room := accept;
      while yoffset < rows
        invariant imcuRowNum == n && mcuRowsPerImcuRow == rows && yoffset <= rows && Sending(t, n, rows, yoffset, col)
        invariant sent == t.Before(n, yoffset, col) && old(sent) <= sent && |sent| + room == |old(sent)| + accept
      {
        while col < across
          invariant imcuRowNum == n && mcuRowsPerImcuRow == rows && col <= across && sent == t.Before(n, yoffset, col)
          invariant old(sent) <= sent && |sent| + room == |old(sent)| + accept
        {
          var mcu := BuildMcu(t, n, yoffset, col, true);
          if room == 0 {
            mcuVertOffset, mcuCtr := yoffset, col;
            return false;
          }
          NextMcu(t, n, yoffset, col);
          sent, room := sent + [mcu], room - 1;
          col := col + 1;
        }
        NextLine(t, n, yoffset);
        col := 0;
        yoffset := yoffset + 1;
      }
      NextRow(t, n);
      imcuRowNum := imcuRowNum + 1;
      StartImcuRow();
      return true;
    }
  }

  /** When all iMCU rows are done, whatever the controller, the mode and the suspensions on
      the way, the entropy coder has accepted exactly the MCUs of the scan, in order. */
  lemma AllSent(t: Task, rows: nat, y: nat, col: nat, sent: seq<seq<Zigzag>>)
    requires t.Legal() && Counted(t, t.Total(), rows, y, col, sent)
    ensures sent == t.All()
  {
  }

  // -------------------------------------------------------------------- whole passes

  /** What comes before an MCU is no more than the whole scan. */
  lemma {:induction false} NoMoreThanAll(t: Task, n: nat, y: nat, col: nat)
    requires t.Legal() && n < t.Total() && y < t.McuRows(n) && col <= t.McusPerRow()
    ensures |t.Before(n, y, col)| + t.McusPerRow() - col <= |t.All()|
    decreases t.Total() - n, t.McuRows(n) - y, t.McusPerRow() - col
  {
    hide t.Before, t.Legal, t.Mcu, t.McuRows, t.McusPerRow, t.Total, t.ImcuRows;
    ScanSome(t);
    SomeMcus(t);
    if col < t.McusPerRow() {
      NextMcu(t, n, y, col);
      NoMoreThanAll(t, n, y, col + 1);
    } else {
      NextLine(t, n, y);
      if y + 1 < t.McuRows(n) {
        NoMoreThanAll(t, n, y + 1, 0);
      } else {
        NextRow(t, n);
        if n + 1 < t.Total() {
          NoMoreThanAll(t, n + 1, 0, 0);
        } else {
          AllIs(t);
        }
      }
    }
  }

  lemma AllIs(t: Task)
    requires t.Legal()
    ensures t.Before(t.Total(), 0, 0) == t.All()
  {
    hide t.ImcuRows, t.Total;
  }

  /** While iMCU rows are left, not everything has been sent. */
  lemma SomeLeft(t: Task, n: nat, rows: nat, y: nat, col: nat, sent: seq<seq<Zigzag>>)
    requires t.Legal() && Counted(t, n, rows, y, col, sent)
    ensures n < t.Total() ==> |sent| < |t.All()|
    ensures n == t.Total() ==> sent == t.All()
  {
    hide t.Before, t.McuRows, t.McusPerRow, t.Total;
    if n < t.Total() {
      NoMoreThanAll(t, n, y, col);
    } else {
      AllSent(t, rows, y, col, sent);
    }
  }

  lemma CountedMeans(t: Task, n: nat, rows: nat, y: nat, col: nat, sent: seq<seq<Zigzag>>)
    requires t.Legal() && Counted(t, n, rows, y, col, sent)
    ensures 0 < t.unitH && n <= t.Total()
    ensures n < t.Total() ==> |sent| < |t.All()|
    ensures n == t.Total() ==> sent == t.All()
  {
    hide t.Before, t.McuRows, t.McusPerRow, t.Total;
    ScanSome(t);
    SomeLeft(t, n, rows, y, col, sent);
  }

  lemma SentOf(cc: CoefController)
    requires cc.Valid()
    ensures cc.t.Legal() && 0 < cc.t.unitH && cc.imcuRowNum <= cc.t.Total()
    ensures cc.imcuRowNum < cc.t.Total() ==> |cc.sent| < |cc.t.All()|
    ensures cc.imcuRowNum == cc.t.Total() ==> cc.sent == cc.t.All()
  {
    hide cc.t.Legal, Counted, cc.t.Total;
    CountedMeans(cc.t, cc.imcuRowNum, cc.mcuRowsPerImcuRow, cc.mcuVertOffset, cc.mcuCtr, cc.sent);
  }

  /** A scan in one pass: call `i` takes at most `accepts(i) + 1` MCUs. */
  method OnePass(t: Task, accepts: nat -> nat) returns (sent: seq<seq<Zigzag>>)
    requires t.Legal()
    ensures sent == t.All()
  {
    hide *;
    var cc := new CoefController(t);
    SentOf(cc);
    var i: nat := 0;
    while cc.imcuRowNum < t.Total()
      invariant cc.Valid() && cc.t == t && fresh(cc) && cc.imcuRowNum <= t.Total()
      decreases t.Total() - cc.imcuRowNum, |t.All()| - |cc.sent|
    {
      SentOf(cc);
      var done := cc.CompressData(accepts(i) + 1);
      SentOf(cc);
      i := i + 1;
    }
    SentOf(cc);
    sent := cc.sent;
  }

  /** The same in transcoding. */
  method Transcode(t: Task, accepts: nat -> nat) returns (sent: seq<seq<Zigzag>>)
    requires t.Legal()
    ensures sent == t.All()
  {
    hide *;
    var cc := new TransCoefController(t);
    TransSentOf(cc);
    var i: nat := 0;
    while cc.imcuRowNum < t.Total()
      invariant cc.Valid() && cc.t == t && fresh(cc) && cc.imcuRowNum <= t.Total()
      decreases t.Total() - cc.imcuRowNum, |t.All()| - |cc.sent|
    {
      TransSentOf(cc);
      var done := cc.CompressOutput(accepts(i) + 1);
      TransSentOf(cc);
      i := i + 1;
    }
    TransSentOf(cc);
    sent := cc.sent;
  }

  lemma TransSentOf(cc: TransCoefController)
    requires cc.Valid()
    ensures cc.t.Legal() && 0 < cc.t.unitH && cc.imcuRowNum <= cc.t.Total()
    ensures cc.imcuRowNum < cc.t.Total() ==> |cc.sent| < |cc.t.All()|
    ensures cc.imcuRowNum == cc.t.Total() ==> cc.sent == cc.t.All()
  {
    hide cc.t.Legal, Counted, cc.t.Total;
    CountedMeans(cc.t, cc.imcuRowNum, cc.mcuRowsPerImcuRow, cc.mcuVertOffset, cc.mcuCtr, cc.sent);
  }

  /** A scan that takes in the data, in a controller with virtual arrays. */
  method FirstPass(cc: CoefController, accepts: nat -> nat)
    requires cc.Valid() && cc.imcuRowNum == 0 && Buffered(cc.t, cc.whole, 0)
    modifies cc
    ensures cc.Valid() && cc.t == old(cc.t) && cc.sent == cc.t.All()
    ensures 0 < cc.t.unitH && Buffered(cc.t, cc.whole, cc.t.Total())
  {
    hide *;
    SentOf(cc);
    var i: nat := 0;
    while cc.imcuRowNum < cc.t.Total()
      invariant cc.Valid() && cc.t == old(cc.t) && cc.imcuRowNum <= cc.t.Total()
      invariant Buffered(cc.t, cc.whole, cc.imcuRowNum)
      decreases cc.t.Total() - cc.imcuRowNum, |cc.t.All()| - |cc.sent|
    {
      SentOf(cc);
      ghost var n := cc.imcuRowNum;
      var done := cc.CompressFirstPass(accepts(i) + 1);
      SentOf(cc);
      if !done {
        BufferedUpto(cc.t, cc.whole, n, n + 1);
      }
      i := i + 1;
    }
    SentOf(cc);
  }

  /** A later scan, out of the virtual arrays. */
  method LaterPass(cc: CoefController, scan: seq<nat>, accepts: nat -> nat)
    requires cc.Valid() && 0 < |scan| && (forall i :: 0 <= i < |scan| ==> scan[i] < |cc.t.comps|)
    requires 0 < cc.t.unitH && Buffered(cc.t, cc.whole, cc.t.Total())
    modifies cc
    ensures cc.Valid() && cc.t == old(cc.t).(scan := scan) && cc.whole == old(cc.whole)
    ensures cc.sent == cc.t.All()
  {
    hide *;
    SentOf(cc);
    ghost var total := cc.t.Total();
    ghost var was := cc.t;
    assert Buffered(was, cc.whole, total);
    cc.StartPass(scan);
    SentOf(cc);
    SameTotal(was, cc.t);
    var i: nat := 0;
    while cc.imcuRowNum < cc.t.Total()
      invariant cc.Valid() && cc.t == old(cc.t).(scan := scan) && cc.imcuRowNum <= cc.t.Total()
      invariant cc.whole == old(cc.whole) && Buffered(cc.t, cc.whole, cc.t.Total())
      decreases cc.t.Total() - cc.imcuRowNum, |cc.t.All()| - |cc.sent|
    {
      SentOf(cc);
      BufferedUpto(cc.t, cc.whole, cc.imcuRowNum + 1, cc.t.Total());
      var done := cc.CompressOutput(accepts(i) + 1);
      SentOf(cc);
      i := i + 1;
    }
    SentOf(cc);
  }

  lemma SameTotal(t: Task, u: Task)
    requires 0 < t.unitH && u == t.(scan := u.scan)
    ensures 0 < u.unitH && u.Total() == t.Total()
  {
  }

  lemma BufferedUpto(t: Task, whole: seq<seq<seq<Zigzag>>>, m: nat, n: nat)
    requires t.Legal() && m <= n && Buffered(t, whole, n)
    ensures Buffered(t, whole, m)
  {
    hide t.Legal, t.Total, t.McusAcross, PadRow;
    forall c | 0 <= c < |whole|
      ensures PlaneBuffered(t, c, whole[c], m)
    {
      assert PlaneBuffered(t, c, whole[c], n);
      MulLe(m, n, t.comps[c].v);
    }
  }
}
