/** The decompressor's main buffer controller with context rows (jdmainct.c). Two lists of
    pointers into a workspace of M + 2 row groups present it, in turn, as a run of adjacent
    image rows. A list holds one row group at negative offsets: entry `k` is at index
    `k + r`, for row groups of `r` rows; `rm` is r * M, the rows of an iMCU row. */
module DecompressMain {
  import opened Powers
  import opened Ceilings
  import opened ImageEdges

  type Row = seq<int>

  // --------------------------------------------------------------- pointer lists

  ghost predicate Straight(x: seq<nat>, r: nat, rm: nat)
  {
    |x| == rm + 4 * r && forall j :: r <= j < rm + 3 * r ==> x[j] == j - r
  }

  /** The last four row groups in swapped order. */
  ghost predicate Swapped(x: seq<nat>, r: nat, rm: nat)
  {
    && |x| == rm + 4 * r
    && (forall j :: r <= j < rm - r ==> x[j] == j - r)
    && (forall j :: r <= j && rm - r <= j < rm + r ==> x[j] == j + r)
    && forall j :: rm + r <= j < rm + 3 * r ==> x[j] == j - 3 * r
  }

  /** Above the first row is the first row. */
  ghost predicate AtTop(x: seq<nat>, r: nat)
  {
    r < |x| && forall j :: 0 <= j < r ==> x[j] == x[r]
  }

  /** Above the first row group is the last one, and below the last one the first. */
  ghost predicate Wrapped(x: seq<nat>, r: nat, rm: nat)
  {
    && |x| == rm + 4 * r
    && (forall j :: 0 <= j < r ==> x[j] == x[j + rm + 2 * r])
    && forall j :: rm + 3 * r <= j < rm + 4 * r ==> x[j] == x[j - rm - 2 * r]
  }

  /** make_funny_pointers for one component. */
  method MakeFunnyPointers(r: nat, m: nat) returns (x0: seq<nat>, x1: seq<nat>)
    requires 0 < r && 2 <= m
    ensures Straight(x0, r, r * m) && AtTop(x0, r) && Swapped(x1, r, r * m)
  {
    var rm := r * m;
    MulLe(2, m, r);
    x0, x1 := seq(rm + 4 * r, i => 0), seq(rm + 4 * r, i => 0);
    for i := 0 to rm + 2 * r
      invariant |x0| == |x1| == rm + 4 * r
      invariant forall j :: r <= j < i + r ==> x0[j] == j - r && x1[j] == j - r
    {
      x0, x1 := x0[i + r := i], x1[i + r := i];
    }
    for i := 0 to 2 * r
      invariant |x1| == rm + 4 * r
      invariant forall j :: r <= j < rm - r ==> x1[j] == j - r
      invariant forall j :: rm - r <= j < rm - r + i ==> x1[j] == j + r
      invariant forall j :: rm + r <= j < rm + r + i ==> x1[j] == j - 3 * r
    {
      x1 := x1[rm - r + i := rm + i];
      x1 := x1[rm + r + i := rm - 2 * r + i];
    }
    for i := 0 to r
      invariant Straight(x0, r, rm)
      invariant forall j :: 0 <= j < i ==> x0[j] == x0[r]
    {
      x0 := x0[i := x0[r]];
    }
  }

  /** The workspace part of a list is as it was. */
  ghost predicate SameRows(x: seq<nat>, was: seq<nat>, r: nat, rm: nat)
  {
    |x| == |was| == rm + 4 * r && forall j :: r <= j < rm + 3 * r ==> x[j] == was[j]
  }

  /** set_wraparound_pointers for one list. */
  method SetWraparoundPointers(was: seq<nat>, r: nat, m: nat) returns (x: seq<nat>)
    requires 0 < r && 2 <= m && |was| == r * m + 4 * r
    ensures Wrapped(x, r, r * m) && SameRows(x, was, r, r * m)
  {
    var rm := r * m;
    MulLe(2, m, r);
    x := was;
    for i := 0 to r
      invariant |x| == rm + 4 * r
      invariant forall j :: r <= j < rm + 3 * r ==> x[j] == was[j]
      invariant forall j :: 0 <= j < i ==> x[j] == was[j + rm + 2 * r]
      invariant forall j :: rm + 3 * r <= j < rm + 3 * r + i ==> x[j] == was[j - rm - 2 * r]
    {
      x := x[i := x[rm + 2 * r + i]];
      x := x[rm + 3 * r + i := x[i + r]];
    }
  }

  /** Rows of a component of `height` rows that are left in the last iMCU row. */
  function RowsLeft(height: nat, rm: nat): (left: nat)
    requires 0 < rm
    ensures 0 < left <= rm
  {
    if height % rm == 0 then rm else height % rm
  }

  /** From row `left` on, for two row groups, the last real row is repeated. */
  ghost predicate AtBottom(x: seq<nat>, was: seq<nat>, r: nat, left: nat)
  {
    && |x| == |was| && 0 < left && left + 3 * r <= |x|
    && (forall j :: 0 <= j < left + r ==> x[j] == was[j])
    && forall j :: left + r <= j < left + 3 * r ==> x[j] == was[left + r - 1]
  }

  /** set_bottom_pointers for one component. */
  method SetBottomPointers(was: seq<nat>, r: nat, m: nat, height: nat) returns (x: seq<nat>, avail: nat)
    requires 0 < r && 2 <= m && |was| == r * m + 4 * r && 0 < r * m
    ensures AtBottom(x, was, r, RowsLeft(height, r * m))
    ensures avail == DivUp(RowsLeft(height, r * m), r)
  {
    var rm := r * m;
    var left := RowsLeft(height, rm);
    avail := (left - 1) / r + 1;
    DivUpIs(left, r, avail);
    x := was;
    for i := 0 to 2 * r
      invariant |x| == |was| == rm + 4 * r
      invariant forall j :: 0 <= j < left + r ==> x[j] == was[j]
      invariant forall j :: left + r <= j < left + r + i ==> x[j] == was[left + r - 1]
    {
      x := x[left + r + i := x[left + r - 1]];
    }
  }

  // ----------------------------------------------------------- what a list shows

  /** The rows an iMCU row was just read into, by a list: those from row `b` of the image. */
  ghost predicate Fresh(x: seq<nat>, buf: seq<Row>, img: seq<Row>, r: nat, rm: nat, b: nat)
  {
    && |x| == rm + 4 * r && b + rm <= |img|
    && forall j :: r <= j < rm + r ==> x[j] < |buf| && buf[x[j]] == img[b + j - r]
  }

  /** The two row groups before them are still in the workspace. */
  ghost predicate Kept(x: seq<nat>, buf: seq<Row>, img: seq<Row>, r: nat, rm: nat, b: nat)
  {
    && |x| == rm + 4 * r && 2 * r <= b <= |img|
    && forall j :: rm + r <= j < rm + 3 * r ==> x[j] < |buf| && buf[x[j]] == img[b + j - rm - 3 * r]
  }

  /** All of it: rows above, the iMCU row, and from M + 1 groups on the postponed row group
      between its neighbours. */
  ghost predicate View(x: seq<nat>, buf: seq<Row>, img: seq<Row>, r: nat, rm: nat, b: nat)
  {
    && Fresh(x, buf, img, r, rm, b) && 0 < rm && r <= rm
    && (0 < b ==> Kept(x, buf, img, r, rm, b))
    && (forall j :: 0 <= j < r ==> x[j] < |buf| && buf[x[j]] == img[if b == 0 then 0 else b + j - r])
    && (0 < b ==> forall j :: rm + 3 * r <= j < rm + 4 * r ==>
                    x[j] < |buf| && buf[x[j]] == img[b + j - rm - 3 * r])
  }

  /** The last iMCU row, its last real row (the last of the image) repeated. */
  ghost predicate BottomView(x: seq<nat>, buf: seq<Row>, img: seq<Row>, r: nat, b: nat, left: nat)
  {
    && left + 3 * r <= |x| && 0 < left && b + left <= |img| && (b == 0 || r <= b)
    && forall j :: 0 <= j < left + 3 * r ==>
         && x[j] < |buf|
         && buf[x[j]] == img[if b + j < r then 0 else if j < left + r then b + j - r else b + left - 1]
  }

  /** Both lists in their orders over a workspace. */
  ghost predicate Ordered(x0: seq<nat>, x1: seq<nat>, buf: seq<Row>, r: nat, rm: nat)
  {
    && 0 < r && 2 * r <= rm && |buf| == rm + 2 * r
    && Straight(x0, r, rm) && Swapped(x1, r, rm)
  }

  /** Reading by one list leaves the last two row groups of the other. */
  lemma ReadKeeps(x: seq<nat>, y: seq<nat>, was: seq<Row>, buf: seq<Row>, img: seq<Row>, rows: seq<Row>,
                  r: nat, rm: nat, b: nat)
    requires Ordered(x, y, was, r, rm) || Ordered(y, x, was, r, rm)
    requires |rows| == rm && |img| == b && |buf| == |was|
    requires forall j :: r <= j < rm + r ==> buf[x[j]] == rows[j - r]
    requires forall p :: 0 <= p < |buf| && (forall j :: r <= j < rm + r ==> x[j] != p) ==> buf[p] == was[p]
    requires rm <= b && Fresh(y, was, img, r, rm, b - rm)
    ensures Fresh(x, buf, img + rows, r, rm, b) && Kept(x, buf, img + rows, r, rm, b)
  {
    forall j | rm + r <= j < rm + 3 * r
      ensures x[j] < |buf| && buf[x[j]] == (img + rows)[b + j - rm - 3 * r]
    {
      assert x[j] == y[j - 2 * r];
      assert forall i :: r <= i < rm + r ==> x[i] != x[j];
    }
  }

  lemma WrappedView(x: seq<nat>, buf: seq<Row>, img: seq<Row>, r: nat, rm: nat, b: nat)
    requires 0 < r <= rm && Wrapped(x, r, rm) && Fresh(x, buf, img, r, rm, b) && Kept(x, buf, img, r, rm, b)
    ensures View(x, buf, img, r, rm, b)
  {
    forall j | 0 <= j < r
      ensures x[j] < |buf| && buf[x[j]] == img[b + j - r]
    {
      assert x[j] == x[j + rm + 2 * r];
    }
    forall j | rm + 3 * r <= j < rm + 4 * r
      ensures x[j] < |buf| && buf[x[j]] == img[b + j - rm - 3 * r]
    {
      assert x[j] == x[j - rm - 2 * r];
    }
  }

  lemma TopView(x: seq<nat>, buf: seq<Row>, img: seq<Row>, r: nat, rm: nat)
    requires 0 < r <= rm && AtTop(x, r) && Fresh(x, buf, img, r, rm, 0)
    ensures View(x, buf, img, r, rm, 0)
  {
    assert x[r] < |buf| && buf[x[r]] == img[0];
  }

  lemma BottomShown(x: seq<nat>, was: seq<nat>, buf: seq<Row>, img: seq<Row>, r: nat, rm: nat, b: nat, left: nat)
    requires View(was, buf, img, r, rm, b) && AtBottom(x, was, r, left) && left <= rm && (b == 0 || r <= b)
    ensures BottomView(x, buf, img, r, b, left)
  {
    assert was[left + r - 1] < |buf| && buf[was[left + r - 1]] == img[b + left - 1];
  }

  // --------------------------------------------------------------------- windows

  /** The delivered row that it is: the rows below a postponed row group are shown before
      the pointers of the last iMCU row are set up, so they are never repeated. */
  function Shown(k: int, height: nat, postponed: bool): (i: int)
    requires 0 < height
    ensures 0 <= i && (i == Clamp(k, height) <==> !(postponed && height <= k))
  {
    if k < 0 then 0 else if k < height || postponed then k else height - 1
  }

  ghost predicate IsRow(row: Row, img: seq<Row>, k: int, height: nat, postponed: bool)
    requires 0 < height
  {
    Shown(k, height, postponed) < |img| && row == img[Shown(k, height, postponed)]
  }

  /** What the row group that starts at row `top` has to look like with the group above and
      the group below. */
  ghost predicate IsWindow(w: seq<Row>, img: seq<Row>, r: nat, top: nat, height: nat, postponed: bool)
  {
    |w| == 3 * r && 0 < height && forall j :: 0 <= j < |w| ==> IsRow(w[j], img, top + j - r, height, postponed)
  }

  /** The row group at entry `s` of a list, with the groups above and below. */
  function Strip(x: seq<nat>, buf: seq<Row>, r: nat, s: nat): (w: seq<Row>)
    requires s + 3 * r <= |x|
    requires forall j :: s <= j < s + 3 * r ==> x[j] < |buf|
    ensures |w| == 3 * r && forall j :: 0 <= j < 3 * r ==> w[j] == buf[x[s + j]]
  {
    seq(3 * r, j requires 0 <= j < 3 * r => buf[x[s + j]])
  }

  lemma WindowInside(x: seq<nat>, buf: seq<Row>, img: seq<Row>, r: nat, rm: nat, b: nat, s: nat, height: nat)
    requires View(x, buf, img, r, rm, b) && b + rm <= height
    requires s + 2 * r <= rm && (b == 0 || r <= b)
    ensures (forall j :: s <= j < s + 3 * r ==> x[j] < |buf|)
    ensures IsWindow(Strip(x, buf, r, s), img, r, b + s, height, false)
  {
    var w := Strip(x, buf, r, s);
    forall j | 0 <= j < |w|
      ensures IsRow(w[j], img, b + s + j - r, height, false)
    {
      var i: nat := s + j;
      assert w[j] == buf[x[i]];
    }
  }

  lemma WindowPostponed(x: seq<nat>, buf: seq<Row>, img: seq<Row>, r: nat, rm: nat, b: nat,
                        top: nat, height: nat, postponed: bool)
    requires View(x, buf, img, r, rm, b) && b < height && (postponed || b + rm <= height)
    requires 2 * r <= b == top + r
    ensures (forall j :: rm + r <= j < rm + 4 * r ==> x[j] < |buf|)
    ensures IsWindow(Strip(x, buf, r, rm + r), img, r, top, height, postponed)
  {
    var w := Strip(x, buf, r, rm + r);
    forall j | 0 <= j < |w|
      ensures IsRow(w[j], img, top + j - r, height, postponed)
    {
      var i: nat := rm + r + j;
      assert w[j] == buf[x[i]];
    }
  }

  lemma WindowBottom(x: seq<nat>, buf: seq<Row>, img: seq<Row>, r: nat, b: nat, left: nat, s: nat,
                     top: nat, height: nat)
    requires BottomView(x, buf, img, r, b, left) && s < left && top == b + s && height == b + left
    ensures (forall j :: s <= j < s + 3 * r ==> x[j] < |buf|)
    ensures IsWindow(Strip(x, buf, r, s), img, r, top, height, false)
  {
    var w := Strip(x, buf, r, s);
    forall j | 0 <= j < |w|
      ensures IsRow(w[j], img, top + j - r, height, false)
    {
      var i: nat := s + j;
      assert w[j] == buf[x[i]];
    }
  }
}
