/** The MCUs of a scan, in raster order, with the dummy blocks at the right and bottom edges:
    what the coefficient controllers (jccoefct.c, jctrans.c) have to send the entropy coder. */
module McuSequence {
  import opened Ceilings
  import opened Coefficients

  /** A component: sampling factors, and its size in blocks. */
  datatype Comp = Comp(h: nat, v: nat, width: nat, height: nat)

  type Plane = seq<seq<Zigzag>>

  predicate IsPlane(p: Comp, plane: Plane)
  {
    |plane| == p.height && forall r :: 0 <= r < |plane| ==> |plane[r]| == p.width
  }

  /** A dummy block: it codes to the least data after a block with this DC value. */
  function DcOnly(dc: int): (b: Zigzag)
    ensures b[0] == dc && forall j :: 1 <= j < 64 ==> b[j] == 0
  {
    ZerosAt(63);
    [dc] + Zeros(63)
  }

  /** Block row `r`, column `c` of a component, in an MCU that ends at column `right`.  To the
      right of the image the DC value of the last real block of the row is repeated; below
      it that of the last block, real or not, of the MCU's last real row. */
  function PadBlock(p: Comp, plane: Plane, r: nat, c: nat, right: nat): Zigzag
    requires IsPlane(p, plane) && 0 < p.width && 0 < p.height
  {
    if r < p.height then
      if c < p.width then plane[r][c] else DcOnly(plane[r][p.width - 1][0])
    else
      DcOnly(plane[p.height - 1][if right < p.width then right else p.width - 1][0])
  }

  /** The first `w` blocks from column `c0` on. */
  function BlockRow(p: Comp, plane: Plane, r: nat, c0: nat, w: nat, right: nat): (s: seq<Zigzag>)
    requires IsPlane(p, plane) && 0 < p.width && 0 < p.height
    ensures |s| == w && forall x :: 0 <= x < w ==> s[x] == PadBlock(p, plane, r, c0 + x, right)
  {
    if w == 0 then [] else BlockRow(p, plane, r, c0, w - 1, right) + [PadBlock(p, plane, r, c0 + w - 1, right)]
  }

  /** The blocks of a component in an MCU, row by row. */
  function BlockRows(p: Comp, plane: Plane, r: nat, c0: nat, w: nat, rows: nat): (s: seq<Zigzag>)
    requires IsPlane(p, plane) && 0 < p.width && 0 < p.height && 0 < w
    ensures |s| == rows * w
  {
    if rows == 0 then []
    else BlockRows(p, plane, r, c0, w, rows - 1) + BlockRow(p, plane, r + rows - 1, c0, w, c0 + w - 1)
  }

  /** A scan over the components `scan` of an image whose blocks are `img`.  An iMCU row is
      `unitH` image rows high, a fully interleaved MCU `unitW` image columns wide. */
  datatype Task = Task(imageWidth: nat, imageHeight: nat, unitW: nat, unitH: nat,
                       comps: seq<Comp>, img: seq<Plane>, scan: seq<nat>)
  {
    ghost predicate Legal()
    {
      && 0 < imageWidth && 0 < imageHeight && 0 < unitW && 0 < unitH && |img| == |comps| && 0 < |scan|
      && (forall c :: 0 <= c < |comps| ==> LegalComp(comps[c]) && IsPlane(comps[c], img[c]))
      && forall i :: 0 <= i < |scan| ==> scan[i] < |comps|
    }

    /** initial_setup (jcmaster.c): width_in_blocks and height_in_blocks. */
    ghost predicate LegalComp(p: Comp)
      requires 0 < unitW && 0 < unitH
    {
      && 0 < p.h && 0 < p.v && p.width == DivUp(imageWidth * p.h, unitW) && p.height == DivUp(imageHeight * p.v, unitH)
      && 0 < p.width && 0 < p.height
    }

    function McusAcross(): nat
      requires 0 < unitW
    {
      DivUp(imageWidth, unitW)
    }

    /** total_iMCU_rows. */
    function Total(): nat
      requires 0 < unitH
    {
      DivUp(imageHeight, unitH)
    }

    /** Component `ci` of the scan. */
    function P(ci: nat): Comp
      requires ci < |scan| && scan[ci] < |comps|
    {
      comps[scan[ci]]
    }

    function PlaneOf(ci: nat): Plane
      requires ci < |scan| && scan[ci] < |img|
    {
      img[scan[ci]]
    }

    // per_scan_setup (jcmaster.c)

    function McuWidth(ci: nat): nat
      requires ci < |scan| && scan[ci] < |comps|
    {
      if |scan| == 1 then 1 else P(ci).h
    }

    function McuHeight(ci: nat): nat
      requires ci < |scan| && scan[ci] < |comps|
    {
      if |scan| == 1 then 1 else P(ci).v
    }

    function McusPerRow(): nat
      requires 0 < |scan| && scan[0] < |comps| && 0 < unitW
    {
      if |scan| == 1 then P(0).width else McusAcross()
    }

    /** Real block columns in the last MCU of a row. */
    function LastColWidth(ci: nat): nat
      requires ci < |scan| && scan[ci] < |comps| && 0 < P(ci).h
    {
      if |scan| == 1 then 1 else if P(ci).width % P(ci).h == 0 then P(ci).h else P(ci).width % P(ci).h
    }

    /** Real block rows in the last iMCU row. */
    function LastRowHeight(ci: nat): nat
      requires ci < |scan| && scan[ci] < |comps| && 0 < P(ci).v
    {
      if P(ci).height % P(ci).v == 0 then P(ci).v else P(ci).height % P(ci).v
    }

    /** MCU rows in an iMCU row, as start_iMCU_row has it. */
    function McuRows(n: nat): nat
      requires 0 < |scan| && scan[0] < |comps| && 0 < unitH && 0 < P(0).v
    {
      if |scan| > 1 then 1 else if n + 1 < Total() then P(0).v else LastRowHeight(0)
    }

    /** The first `count` components' blocks of the MCU in column `col` of MCU row `y` of
        iMCU row `n`. */
    ghost function McuPart(n: nat, y: nat, col: nat, count: nat): seq<Zigzag>
      requires Legal() && count <= |scan|
      decreases count
    {
      if count == 0 then []
      else
        var ci := count - 1;
        McuPart(n, y, col, ci)
        + BlockRows(P(ci), PlaneOf(ci), n * P(ci).v + y, col * McuWidth(ci), McuWidth(ci), McuHeight(ci))
    }

    ghost function Mcu(n: nat, y: nat, col: nat): seq<Zigzag>
      requires Legal()
    {
      McuPart(n, y, col, |scan|)
    }

    /** The first `cols` MCUs of an MCU row. */
    ghost function McuCols(n: nat, y: nat, cols: nat): (r: seq<seq<Zigzag>>)
      requires Legal()
      ensures |r| == cols
    {
      if cols == 0 then [] else McuCols(n, y, cols - 1) + [Mcu(n, y, cols - 1)]
    }

    /** The first `y` MCU rows of an iMCU row. */
    ghost function McuLines(n: nat, y: nat): seq<seq<Zigzag>>
      requires Legal()
    {
      if y == 0 then [] else McuLines(n, y - 1) + McuCols(n, y - 1, McusPerRow())
    }

    /** The first `n` iMCU rows. */
    ghost function ImcuRows(n: nat): seq<seq<Zigzag>>
      requires Legal()
    {
      if n == 0 then [] else ImcuRows(n - 1) + McuLines(n - 1, McuRows(n - 1))
    }

    /** Everything before an MCU. */
    ghost function Before(n: nat, y: nat, cols: nat): seq<seq<Zigzag>>
      requires Legal()
    {
      ImcuRows(n) + (McuLines(n, y) + McuCols(n, y, cols))
    }

    /** All of the scan. */
    ghost function All(): seq<seq<Zigzag>>
      requires Legal()
    {
      ImcuRows(Total())
    }
  }

  lemma LegalMeans(t: Task, ci: nat)
    requires t.Legal() && ci < |t.scan|
    ensures 0 < t.imageWidth && 0 < t.imageHeight && 0 < t.unitW && 0 < t.unitH
    ensures |t.img| == |t.comps| && t.scan[ci] < |t.comps| && t.LegalComp(t.P(ci)) && IsPlane(t.P(ci), t.PlaneOf(ci))
  {
  }

  lemma LastOf(a: nat, k: nat, q: nat)
    requires 0 < k && 0 < a && DivUp(a, k) == q
    ensures 0 < q && (q - 1) * k < a <= q * k && (if a % k == 0 then k else a % k) == a - (q - 1) * k
  {
    var d, m := a / k, a % k;
    assert a == d * k + m;
    if m == 0 {
      DivUpIs(a, k, d);
    } else {
      DivUpIs(a, k, d + 1);
    }
  }

  /** MCUs across and iMCU rows cover every component, with less than an MCU to spare. */
  lemma Covered(t: Task, p: Comp)
    requires 0 < t.imageWidth && 0 < t.imageHeight && 0 < t.unitW && 0 < t.unitH && t.LegalComp(p)
    ensures 0 < t.McusAcross() && 0 < t.Total()
    ensures (t.McusAcross() - 1) * p.h < p.width <= t.McusAcross() * p.h
    ensures (t.Total() - 1) * p.v < p.height <= t.Total() * p.v
    ensures (if p.width % p.h == 0 then p.h else p.width % p.h) == p.width - (t.McusAcross() - 1) * p.h
    ensures (if p.height % p.v == 0 then p.v else p.height % p.v) == p.height - (t.Total() - 1) * p.v
  {
    hide DivUp;
    NestedCeilings(t.imageWidth, p.h, t.unitW);
    NestedCeilings(t.imageHeight, p.v, t.unitH);
    LastOf(p.width, p.h, t.McusAcross());
    LastOf(p.height, p.v, t.Total());
  }
}
