/** process_data_context_main (jdmainct.c): iMCU rows come in whole, row groups go out to the
    upsampler as fast as it takes them, each exactly once and with its neighbours around it. */
module DecompressController {
  import opened Powers
  import opened Ceilings
  import opened DecompressMain
  import opened ImageEdges

  /** One component: rows of a row group, downsampled_height, workspace and pointer lists. */
  datatype Part = Part(r: nat, height: nat, buf: seq<Row>, x0: seq<nat>, x1: seq<nat>)

  function ListOf(p: Part, which: nat): seq<nat> {
    if which == 0 then p.x0 else p.x1
  }

  /** The dimension arithmetic of jpeg_calc_output_dimensions: `h` is the image height, `v`
      the image rows of an iMCU row, `m` the row groups of an iMCU row. */
  ghost predicate Fits(p: Part, h: nat, v: nat, m: nat)
  {
    0 < p.r && 0 < h && 0 < v && 2 <= m && p.height == DivUp(h * (p.r * m), v)
  }

  /** The last iMCU row is the same, and so is its number of real row groups, for every
      component: counting on component 0 alone is right. */
  lemma SameForAll(p: Part, h: nat, v: nat, m: nat)
    requires Fits(p, h, v, m)
    ensures 0 < p.r * m && (DivUp(h, v) - 1) * (p.r * m) < p.height <= DivUp(h, v) * (p.r * m)
    ensures RowsLeft(p.height, p.r * m) == p.height - (DivUp(h, v) - 1) * (p.r * m)
    ensures DivUp(RowsLeft(p.height, p.r * m), p.r) == DivUp(h * m, v) - (DivUp(h, v) - 1) * m
    ensures DivUp(p.height, p.r) == DivUp(h * m, v)
  {
    LastIsSame(p.r * m, p.height, h, v, p.r, m);
    var n := DivUp(h, v);
    NestedCeilings(h, p.r * m, v);
    LastRows(p.height, p.r * m, n);
    CountIsSame(p.r, p.height, h, v, m, n, RowsLeft(p.height, p.r * m));
  }

  lemma LastIsSame(rm: nat, height: nat, h: nat, v: nat, r: nat, m: nat)
    requires rm == r * m && 0 < r && 0 < m && 0 < h && 0 < v && height == DivUp(h * rm, v)
    ensures 0 < rm && 0 < height
  {
    hide DivUp;
    MulLe(1, r, m);
    MulLe(1, h, rm);
  }

  lemma CountIsSame(r: nat, height: nat, h: nat, v: nat, m: nat, n: nat, left: nat)
    requires 0 < r && 0 < m && 0 < h && 0 < v && 0 < n && height == DivUp(h * (r * m), v)
    requires 0 < left && height == left + (n - 1) * (r * m)
    ensures DivUp(height, r) == DivUp(h * m, v)
    ensures DivUp(left, r) == DivUp(h * m, v) - (n - 1) * m
  {
    hide DivUp;
    assert h * (r * m) == (h * m) * r by { MulShuffle(h, r, m); }
    assert 0 < h * m by { MulLe(1, h, m); }
    NestedCeilings(h * m, r, v);
    assert (n - 1) * (r * m) == ((n - 1) * m) * r by { MulShuffle(n - 1, r, m); }
    Less(left, height, (n - 1) * m, DivUp(h * m, v), r);
  }

  lemma LastRows(height: nat, rm: nat, n: nat)
    requires 0 < rm && 0 < height && DivUp(height, rm) == n
    ensures 0 < n && (n - 1) * rm < height <= n * rm && RowsLeft(height, rm) == height - (n - 1) * rm
  {
    var q, k := height / rm, height % rm;
    assert height == q * rm + k;
    if k == 0 {
      DivUpIs(height, rm, q);
    } else {
      DivUpIs(height, rm, q + 1);
    }
  }

  lemma Less(left: nat, height: nat, before: nat, g: nat, r: nat)
    requires 0 < r && 0 < left && height == left + before * r && DivUp(height, r) == g
    ensures before < g && DivUp(left, r) == g - before
  {
    if g <= before {
      MulLe(g, before, r);
    }
    assert (g - 1 - before) * r == (g - 1) * r - before * r;
    assert (g - before) * r == g * r - before * r;
    DivUpIs(left, r, g - before);
  }

  // -------------------------------------------------------- what one component holds

  /** Between iMCU rows: `b` rows are read, the last of them still shown by the other list. */
  ghost predicate Idle(p: Part, img: seq<Row>, rm: nat, b: nat, which: nat)
  {
    && Ordered(p.x0, p.x1, p.buf, p.r, rm) && |img| == b && which < 2
    && if b == 0 then which == 0 && AtTop(p.x0, p.r)
       else
         && rm <= b && Wrapped(p.x0, p.r, rm) && Wrapped(p.x1, p.r, rm)
         && Fresh(ListOf(p, 1 - which), p.buf, img, p.r, rm, b - rm)
  }

  /** The current list shows the iMCU row that starts at row `b`. */
  ghost predicate Loaded(p: Part, img: seq<Row>, rm: nat, b: nat, which: nat)
  {
    && Ordered(p.x0, p.x1, p.buf, p.r, rm) && |img| == b + rm && which < 2
    && (if b == 0 then which == 0 else rm <= b && Wrapped(p.x0, p.r, rm) && Wrapped(p.x1, p.r, rm))
    && View(ListOf(p, which), p.buf, img, p.r, rm, b)
  }

  /** The same for the last iMCU row of the image, with its pointers set up. */
  ghost predicate Last(p: Part, img: seq<Row>, rm: nat, b: nat, which: nat)
  {
    && 0 < p.r && |img| == b + rm && which < 2 && b < p.height
    && |p.x0| == |p.x1| == rm + 4 * p.r
    && BottomView(ListOf(p, which), p.buf, img, p.r, b, p.height - b)
  }

  ghost predicate ReadBy(x: seq<nat>, was: seq<Row>, buf: seq<Row>, rows: seq<Row>, r: nat, rm: nat)
  {
    && |buf| == |was| && |rows| == rm && |x| == rm + 4 * r
    && (forall j :: r <= j < rm + r ==> x[j] < |buf| && buf[x[j]] == rows[j - r])
    && forall p :: 0 <= p < |buf| && (forall j :: r <= j < rm + r ==> x[j] != p) ==> buf[p] == was[p]
  }

  /** decompress_data for one component: its rows go through the current list. */
  method ReadRows(x: seq<nat>, was: seq<Row>, rows: seq<Row>, r: nat, rm: nat) returns (buf: seq<Row>)
    requires |x| == rm + 4 * r && |rows| == rm
    requires forall j :: r <= j < rm + r ==> x[j] < |was|
    requires forall i, j :: r <= i < j < rm + r ==> x[i] != x[j]
    ensures ReadBy(x, was, buf, rows, r, rm)
  {
    buf := was;
    for k := 0 to rm
      invariant |buf| == |was|
      invariant forall j :: r <= j < k + r ==> buf[x[j]] == rows[j - r]
      invariant forall p :: 0 <= p < |buf| && (forall j :: r <= j < rm + r ==> x[j] != p) ==> buf[p] == was[p]
    {
      assert forall j :: r <= j < k + r ==> x[j] != x[k + r];
      buf := buf[x[k + r] := rows[k]];
    }
  }

  lemma ReadSizes(x: seq<nat>, was: seq<Row>, buf: seq<Row>, rows: seq<Row>, r: nat, rm: nat)
    requires ReadBy(x, was, buf, rows, r, rm)
    ensures |buf| == |was| && |rows| == rm
  {
  }

  lemma ReadFirst(p: Part, buf: seq<Row>, rows: seq<Row>, r: nat, rm: nat)
    requires Ordered(p.x0, p.x1, p.buf, r, rm) && AtTop(p.x0, r) && ReadBy(p.x0, p.buf, buf, rows, r, rm)
    ensures View(p.x0, buf, rows, r, rm, 0)
  {
    TopView(p.x0, buf, rows, r, rm);
  }

  lemma ReadNext(x: seq<nat>, y: seq<nat>, was: seq<Row>, buf: seq<Row>, img: seq<Row>, rows: seq<Row>,
                 r: nat, rm: nat, b: nat)
    requires Ordered(x, y, was, r, rm) || Ordered(y, x, was, r, rm)
    requires ReadBy(x, was, buf, rows, r, rm) && |img| == b && Wrapped(x, r, rm)
    requires rm <= b && Fresh(y, was, img, r, rm, b - rm)
    ensures View(x, buf, img + rows, r, rm, b)
  {
    ReadKeeps(x, y, was, buf, img, rows, r, rm, b);
    WrappedView(x, buf, img + rows, r, rm, b);
  }

  lemma ReadDone(p: Part, buf: seq<Row>, img: seq<Row>, rows: seq<Row>, rm: nat, b: nat, which: nat)
    requires Idle(p, img, rm, b, which) && ReadBy(ListOf(p, which), p.buf, buf, rows, p.r, rm)
    ensures Loaded(p.(buf := buf), img + rows, rm, b, which)
  {
    hide ReadBy, Fresh, View, Wrapped, Straight, Swapped, AtTop;
    ReadSizes(ListOf(p, which), p.buf, buf, rows, p.r, rm);
    if b == 0 {
      ReadFirst(p, buf, rows, p.r, rm);
      assert img + rows == rows;
    } else {
      ReadNext(ListOf(p, which), ListOf(p, 1 - which), p.buf, buf, img, rows, p.r, rm, b);
    }
  }

  lemma Readable(p: Part, img: seq<Row>, rm: nat, b: nat, which: nat)
    requires Idle(p, img, rm, b, which)
    ensures var x, r := ListOf(p, which), p.r;
            && |x| == rm + 4 * r
            && (forall j :: r <= j < rm + r ==> x[j] < |p.buf|)
            && forall i, j :: r <= i < j < rm + r ==> x[i] != x[j]
  {
    hide Fresh, Wrapped, AtTop;
  }

  /** The pointers of the last iMCU row are set up. */
  lemma BottomDone(p: Part, x: seq<nat>, img: seq<Row>, rm: nat, b: nat, which: nat)
    requires Loaded(p, img, rm, b, which) && b < p.height <= b + rm
    requires AtBottom(x, ListOf(p, which), p.r, p.height - b)
    ensures Last(if which == 0 then p.(x0 := x) else p.(x1 := x), img, rm, b, which)
  {
    hide View, BottomView, AtBottom, Wrapped;
    SameSize(x, ListOf(p, which), p.r, p.height - b);
    BottomShown(x, ListOf(p, which), p.buf, img, p.r, rm, b, p.height - b);
  }

  lemma SameSize(x: seq<nat>, was: seq<nat>, r: nat, left: nat)
    requires AtBottom(x, was, r, left)
    ensures |x| == |was|
  {
  }

  lemma ViewFresh(x: seq<nat>, buf: seq<Row>, img: seq<Row>, r: nat, rm: nat, b: nat)
    requires View(x, buf, img, r, rm, b)
    ensures Fresh(x, buf, img, r, rm, b) && |x| == rm + 4 * r
  {
  }

  /** The wraparound pointers do not touch the orders. */
  lemma StillOrdered(p: Part, q: Part, img: seq<Row>, rm: nat)
    requires Ordered(p.x0, p.x1, p.buf, p.r, rm) && SameRows(q.x0, p.x0, p.r, rm) && SameRows(q.x1, p.x1, p.r, rm)
    requires q.buf == p.buf && q.r == p.r && Fresh(p.x0, p.buf, img, p.r, rm, 0)
    ensures Ordered(q.x0, q.x1, q.buf, q.r, rm) && Fresh(q.x0, q.buf, img, q.r, rm, 0)
  {
  }

  /** Setting the wraparound pointers after the first iMCU row. */
  ghost predicate WrapDone(p: Part, q: Part, rm: nat)
  {
    && q == p.(x0 := q.x0, x1 := q.x1)
    && Wrapped(q.x0, p.r, rm) && Wrapped(q.x1, p.r, rm)
    && SameRows(q.x0, p.x0, p.r, rm) && SameRows(q.x1, p.x1, p.r, rm)
  }

  /** All but the last row group have gone out; the other list is next. */
  lemma FinishDone(p: Part, q: Part, img: seq<Row>, rm: nat, b: nat, which: nat)
    requires Loaded(p, img, rm, b, which)
    requires if b == 0 then WrapDone(p, q, rm) else q == p
    ensures Idle(q, img, rm, b + rm, 1 - which)
  {
    hide View, Wrapped, Fresh, SameRows;
    ViewFresh(ListOf(p, which), p.buf, img, p.r, rm, b);
    if b == 0 {
      StillOrdered(p, q, img, rm);
    }
  }

  // --------------------------------------------------------------- row groups shown

  /** The row group at entry `s` of the current list can be handed over with its neighbours. */
  ghost predicate Showable(p: Part, which: nat, s: nat)
  {
    var x := ListOf(p, which);
    s + 3 * p.r <= |x| && forall j :: s <= j < s + 3 * p.r ==> x[j] < |p.buf|
  }

  function Shows(p: Part, which: nat, s: nat): (w: seq<Row>)
    requires Showable(p, which, s)
  {
    Strip(ListOf(p, which), p.buf, p.r, s)
  }

  /** A row group of an iMCU row that is not the last, except its last one. */
  lemma ShownInside(p: Part, img: seq<Row>, rm: nat, b: nat, which: nat, s: nat)
    requires Loaded(p, img, rm, b, which) && s + 2 * p.r <= rm && b + rm <= p.height
    ensures Showable(p, which, s) && IsWindow(Shows(p, which, s), img, p.r, b + s, p.height, false)
  {
    hide View, Wrapped, IsWindow;
    ViewFresh(ListOf(p, which), p.buf, img, p.r, rm, b);
    WindowInside(ListOf(p, which), p.buf, img, p.r, rm, b, s, p.height);
  }

  /** The postponed row group of the iMCU row before. */
  lemma ShownPostponed(p: Part, img: seq<Row>, rm: nat, b: nat, which: nat, postponed: bool)
    requires Loaded(p, img, rm, b, which) && 0 < b < p.height && (postponed || b + rm <= p.height)
    ensures Showable(p, which, rm + p.r)
    ensures IsWindow(Shows(p, which, rm + p.r), img, p.r, b - p.r, p.height, postponed)
  {
    hide View, Wrapped, IsWindow;
    ViewFresh(ListOf(p, which), p.buf, img, p.r, rm, b);
    WindowPostponed(ListOf(p, which), p.buf, img, p.r, rm, b, b - p.r, p.height, postponed);
  }

  /** A real row group of the last iMCU row. */
  lemma ShownLast(p: Part, img: seq<Row>, rm: nat, b: nat, which: nat, s: nat)
    requires Last(p, img, rm, b, which) && b + s < p.height
    ensures Showable(p, which, s) && IsWindow(Shows(p, which, s), img, p.r, b + s, p.height, false)
  {
    hide BottomView, IsWindow;
    BottomSize(ListOf(p, which), p.buf, img, p.r, b, p.height - b);
    WindowBottom(ListOf(p, which), p.buf, img, p.r, b, p.height - b, s, b + s, p.height);
  }

  lemma BottomSize(x: seq<nat>, buf: seq<Row>, img: seq<Row>, r: nat, b: nat, left: nat)
    requires BottomView(x, buf, img, r, b, left)
    ensures left + 3 * r <= |x|
  {
  }

  // ------------------------------------------------------------------ all components

  /** Where the controller is: before the first or between iMCU rows, inside one, inside the
      last one with its pointers set up, or done. */
  datatype Phase = Between | Inside | Bottom | Over

  ghost predicate Holds(p: Part, img: seq<Row>, rm: nat, phase: Phase, n: nat, which: nat)
  {
    match phase
    case Between => Idle(p, img, rm, n * rm, which)
    case Inside => 0 < n && Loaded(p, img, rm, (n - 1) * rm, which)
    case Bottom => 0 < n && Last(p, img, rm, (n - 1) * rm, which)
    case Over => true
  }

  /** The image: its height, the image rows of an iMCU row, the row groups of an iMCU row
      and, for each component, the rows of a row group. */
  datatype Frame = Frame(h: nat, v: nat, m: nat, rg: seq<nat>) {
    ghost predicate Legal() {
      0 < h && 0 < v && 2 <= m && 0 < |rg| && forall c :: 0 <= c < |rg| ==> 0 < rg[c]
    }

    /** downsampled_height of component `c`. */
    function Height(c: nat): (height: nat)
      requires 0 < v && c < |rg|
    {
      DivUp(h * (rg[c] * m), v)
    }

    /** total_iMCU_rows. */
    function Total(): (n: nat)
      requires 0 < v
    {
      DivUp(h, v)
    }

    /** Row groups with a real row, for every component (GroupsReal). */
    function Groups(): (n: nat)
      requires 0 < v
    {
      DivUp(h * m, v)
    }
  }

  /** However a component is sampled, its real rows make the same number of row groups, and
      the last iMCU row holds the same number of them. */
  lemma GroupsReal(f: Frame, c: nat)
    requires f.Legal() && c < |f.rg|
    ensures DivUp(f.Height(c), f.rg[c]) == f.Groups()
    ensures (f.Groups() - 1) * f.rg[c] < f.Height(c) <= f.Groups() * f.rg[c]
    ensures (f.Total() - 1) * f.m < f.Groups() <= f.Total() * f.m && 0 < f.Total()
  {
    var p := Part(f.rg[c], f.Height(c), [], [], []);
    SameForAll(p, f.h, f.v, f.m);
    assert 0 < f.h * f.m by { MulLe(1, f.h, f.m); }
    NestedCeilings(f.h, f.m, f.v);
  }

  ghost predicate AllHold(parts: seq<Part>, image: seq<seq<Row>>, f: Frame, phase: Phase, n: nat, which: nat)
    requires 0 < f.v
  {
    && |parts| == |image| == |f.rg|
    && forall c :: 0 <= c < |parts| ==>
         && parts[c].r == f.rg[c] && parts[c].height == f.Height(c)
         && Holds(parts[c], image[c], f.rg[c] * f.m, phase, n, which)
  }

  /** What was handed over as row group `g`: for each component the group with the groups
      above and below. */
  ghost predicate GroupSent(w: seq<seq<Row>>, image: seq<seq<Row>>, f: Frame, g: nat)
    requires 0 < f.v
  {
    && |w| == |image| == |f.rg|
    && forall c :: 0 <= c < |w| ==>
         IsWindow(w[c], image[c], f.rg[c], g * f.rg[c], f.Height(c), g + 1 == (f.Total() - 1) * f.m)
  }

  /** Every row group so far, once each and in order. */
  ghost predicate Sent(output: seq<seq<seq<Row>>>, image: seq<seq<Row>>, f: Frame)
    requires 0 < f.v
  {
    |output| <= f.Groups() && forall g :: 0 <= g < |output| ==> GroupSent(output[g], image, f, g)
  }

  lemma SentGrows(output: seq<seq<seq<Row>>>, was: seq<seq<Row>>, image: seq<seq<Row>>, f: Frame)
    requires 0 < f.v && Sent(output, was, f) && |was| == |image|
    requires forall c :: 0 <= c < |was| ==> was[c] <= image[c]
    ensures Sent(output, image, f)
  {
    forall g | 0 <= g < |output|
      ensures GroupSent(output[g], image, f, g)
    {
      assert GroupSent(output[g], was, f, g);
      forall c | 0 <= c < |output[g]|
        ensures IsWindow(output[g][c], image[c], f.rg[c], g * f.rg[c], f.Height(c), g + 1 == (f.Total() - 1) * f.m)
      {
        WindowGrows(output[g][c], was[c], image[c], f.rg[c], g * f.rg[c], f.Height(c),
                    g + 1 == (f.Total() - 1) * f.m);
      }
    }
  }

  lemma WindowGrows(w: seq<Row>, was: seq<Row>, img: seq<Row>, r: nat, top: nat, height: nat, postponed: bool)
    requires IsWindow(w, was, r, top, height, postponed) && was <= img
    ensures IsWindow(w, img, r, top, height, postponed)
  {
    forall j | 0 <= j < |w|
      ensures IsRow(w[j], img, top + j - r, height, postponed)
    {
      assert IsRow(w[j], was, top + j - r, height, postponed);
    }
  }

  method StartAll(f: Frame) returns (parts: seq<Part>)
    requires f.Legal()
    ensures AllHold(parts, seq(|f.rg|, c => []), f, Between, 0, 0)
  {
    parts := [];
    for c := 0 to |f.rg|
      invariant |parts| == c
      invariant forall k :: 0 <= k < c ==>
                  parts[k].r == f.rg[k] && parts[k].height == f.Height(k)
                    && Holds(parts[k], [], f.rg[k] * f.m, Between, 0, 0)
    {
      var r := f.rg[c];
      var x0, x1 := MakeFunnyPointers(r, f.m);
      MulLe(2, f.m, r);
      parts := parts + [Part(r, f.Height(c), seq(r * f.m + 2 * r, i => []), x0, x1)];
    }
  }

  /** The image with the next iMCU row of every component. */
  function Grown(image: seq<seq<Row>>, rows: seq<seq<Row>>): (r: seq<seq<Row>>)
    requires |image| == |rows|
    ensures |r| == |image| && forall c :: 0 <= c < |r| ==> r[c] == image[c] + rows[c]
  {
    seq(|image|, c requires 0 <= c < |image| => image[c] + rows[c])
  }

  method ReadOne(p: Part, which: nat, rows: seq<Row>, ghost img: seq<Row>, rm: nat, ghost n: nat)
    returns (q: Part)
    requires Holds(p, img, rm, Between, n, which) && |rows| == rm
    ensures q.r == p.r && q.height == p.height && Holds(q, img + rows, rm, Inside, n + 1, which)
  {
    hide *;
    ghost var b: nat := n * rm;
    BetweenIs(p, img, rm, n, which);
    Readable(p, img, rm, b, which);
    var buf := ReadRows(ListOf(p, which), p.buf, rows, p.r, rm);
    ReadDone(p, buf, img, rows, rm, b, which);
    q := p.(buf := buf);
    InsideIs(q, img + rows, rm, n + 1, which);
  }

  lemma BetweenIs(p: Part, img: seq<Row>, rm: nat, n: nat, which: nat)
    ensures Holds(p, img, rm, Between, n, which) == Idle(p, img, rm, n * rm, which)
  {
  }

  lemma InsideIs(p: Part, img: seq<Row>, rm: nat, n: nat, which: nat)
    requires 0 < n
    ensures Holds(p, img, rm, Inside, n, which) == Loaded(p, img, rm, (n - 1) * rm, which)
  {
  }

  /** decompress_data: an iMCU row of every component through the current lists. */
  method ReadAll(was: seq<Part>, which: nat, rows: seq<seq<Row>>, ghost image: seq<seq<Row>>, f: Frame, ghost n: nat)
    returns (parts: seq<Part>)
    requires f.Legal() && AllHold(was, image, f, Between, n, which)
    requires |rows| == |f.rg| && forall c :: 0 <= c < |rows| ==> |rows[c]| == f.rg[c] * f.m
    ensures AllHold(parts, Grown(image, rows), f, Inside, n + 1, which)
  {
    hide Holds;
    parts := [];
    for c := 0 to |was|
      invariant |parts| == c
      invariant forall k :: 0 <= k < c ==>
                  && parts[k].r == f.rg[k] && parts[k].height == f.Height(k)
                  && Holds(parts[k], image[k] + rows[k], f.rg[k] * f.m, Inside, n + 1, which)
    {
      var part := ReadOne(was[c], which, rows[c], image[c], f.rg[c] * f.m, n);
      parts := parts + [part];
    }
  }

  /** set_wraparound_pointers. */
  method WrapAll(was: seq<Part>, m: nat) returns (parts: seq<Part>)
    requires 2 <= m && forall c :: 0 <= c < |was| ==>
                             0 < was[c].r && |was[c].x0| == |was[c].x1| == was[c].r * m + 4 * was[c].r
    ensures |parts| == |was| && forall c :: 0 <= c < |was| ==> WrapDone(was[c], parts[c], was[c].r * m)
  {
    parts := [];
    for c := 0 to |was|
      invariant |parts| == c && forall k :: 0 <= k < c ==> WrapDone(was[k], parts[k], was[k].r * m)
    {
      var p := was[c];
      var x0 := SetWraparoundPointers(p.x0, p.r, m);
      var x1 := SetWraparoundPointers(p.x1, p.r, m);
      parts := parts + [p.(x0 := x0, x1 := x1)];
    }
  }

  method BottomOne(p: Part, which: nat, ghost img: seq<Row>, f: Frame, c: nat) returns (q: Part, count: nat)
    requires f.Legal() && c < |f.rg| && p.r == f.rg[c] && p.height == f.Height(c)
    requires Holds(p, img, p.r * f.m, Inside, f.Total(), which)
    ensures q.r == p.r && q.height == p.height && Holds(q, img, p.r * f.m, Bottom, f.Total(), which)
    ensures count == f.Groups() - (f.Total() - 1) * f.m
  {
    hide View, BottomView, AtBottom, Wrapped, Ordered;
    SameForAll(p, f.h, f.v, f.m);
    OneMore(f.Total(), p.r * f.m);
    ghost var b: nat := (f.Total() - 1) * (p.r * f.m);
    ViewFresh(ListOf(p, which), p.buf, img, p.r, p.r * f.m, b);
    var x;
    x, count := SetBottomPointers(ListOf(p, which), p.r, f.m, p.height);
    BottomDone(p, x, img, p.r * f.m, b, which);
    q := if which == 0 then p.(x0 := x) else p.(x1 := x);
  }

  /** set_bottom_pointers; the row groups are counted on component 0. */
  method BottomAll(was: seq<Part>, which: nat, ghost image: seq<seq<Row>>, f: Frame)
    returns (parts: seq<Part>, avail: nat)
    requires f.Legal() && AllHold(was, image, f, Inside, f.Total(), which)
    ensures AllHold(parts, image, f, Bottom, f.Total(), which)
    ensures avail == f.Groups() - (f.Total() - 1) * f.m
  {
    hide Holds;
    parts, avail := [], 0;
    for c := 0 to |was|
      invariant |parts| == c
      invariant 0 < c ==> avail == f.Groups() - (f.Total() - 1) * f.m
      invariant forall k :: 0 <= k < c ==>
                  && parts[k].r == f.rg[k] && parts[k].height == f.Height(k)
                  && Holds(parts[k], image[k], f.rg[k] * f.m, Bottom, f.Total(), which)
    {
      var part, count := BottomOne(was[c], which, image[c], f, c);
      if c == 0 {
        avail := count;
      }
      parts := parts + [part];
    }
  }

  /** Entry group `k` of a component's current list is row group `g` of the image. */
  ghost predicate PartReady(p: Part, which: nat, img: seq<Row>, k: nat, g: nat, height: nat, late: bool)
  {
    Showable(p, which, k * p.r) && IsWindow(Shows(p, which, k * p.r), img, p.r, g * p.r, height, late)
  }

  /** It is so for all components. */
  ghost predicate Ready(parts: seq<Part>, which: nat, image: seq<seq<Row>>, f: Frame, k: nat, g: nat)
    requires 0 < f.v
  {
    && |parts| == |image| == |f.rg|
    && forall c :: 0 <= c < |parts| ==>
         && parts[c].r == f.rg[c]
         && PartReady(parts[c], which, image[c], k, g, f.Height(c), g + 1 == (f.Total() - 1) * f.m)
  }

  lemma GroupTop(n: nat, m: nat, r: nat, k: nat)
    requires 0 < n
    ensures ((n - 1) * m + k) * r == (n - 1) * (r * m) + k * r
  {
    MulShuffle(n - 1, r, m);
  }

  /** Rows that an iMCU row before the last one ends at. */
  lemma Before(f: Frame, c: nat, n: nat)
    requires f.Legal() && c < |f.rg| && 0 < n <= f.Total()
    ensures var rm := f.rg[c] * f.m;
            && n * rm == (n - 1) * rm + rm && 2 * f.rg[c] <= rm && (n - 1) * rm < f.Height(c)
            && (n < f.Total() ==> n * rm < f.Height(c))
  {
    var rm := f.rg[c] * f.m;
    SameForAll(Part(f.rg[c], f.Height(c), [], [], []), f.h, f.v, f.m);
    OneMore(n, rm);
    MulLe(n - 1, f.Total() - 1, rm);
    MulLe(2, f.m, f.rg[c]);
    if n < f.Total() { MulLe(n, f.Total() - 1, rm); }
  }

  lemma InsidePart(p: Part, which: nat, img: seq<Row>, rm: nat, m: nat, n: nat, k: nat, g: nat)
    requires 0 < n && Loaded(p, img, rm, (n - 1) * rm, which) && rm == p.r * m && k + 1 < m
    requires n * rm <= p.height && g == (n - 1) * m + k
    ensures PartReady(p, which, img, k, g, p.height, false)
  {
    hide Loaded, Showable, IsWindow, Shows;
    GroupTop(n, m, p.r, k);
    OneMore(n, rm);
    MulLe(k + 2, m, p.r);
    ShownInside(p, img, rm, (n - 1) * rm, which, k * p.r);
  }

  lemma PostponedPart(p: Part, which: nat, img: seq<Row>, rm: nat, m: nat, n: nat, g: nat, late: bool)
    requires 1 < n && Loaded(p, img, rm, (n - 1) * rm, which) && rm == p.r * m && 0 < rm
    requires (n - 1) * rm < p.height && (late || n * rm <= p.height) && g + 1 == (n - 1) * m
    ensures PartReady(p, which, img, m + 1, g, p.height, late)
  {
    hide Loaded, Showable, IsWindow, Shows;
    GroupTop(n, m, p.r, 0);
    OneMore(n, rm);
    MulLe(1, n - 1, rm);
    OneMore(g + 1, p.r);
    OneMore(m + 1, p.r);
    ShownPostponed(p, img, rm, (n - 1) * rm, which, late);
  }

  lemma BottomPart(p: Part, which: nat, img: seq<Row>, rm: nat, m: nat, n: nat, k: nat, g: nat, groups: nat)
    requires 0 < n && Last(p, img, rm, (n - 1) * rm, which) && rm == p.r * m
    requires g == (n - 1) * m + k && g < groups && (groups - 1) * p.r < p.height
    ensures PartReady(p, which, img, k, g, p.height, false)
  {
    hide Last, Showable, IsWindow, Shows;
    GroupTop(n, m, p.r, k);
    MulLe(g, groups - 1, p.r);
    ShownLast(p, img, rm, (n - 1) * rm, which, k * p.r);
  }

  lemma InsideReady(parts: seq<Part>, which: nat, image: seq<seq<Row>>, f: Frame, n: nat, k: nat)
    requires f.Legal() && AllHold(parts, image, f, Inside, n, which) && 0 < n < f.Total() && k + 1 < f.m
    ensures Ready(parts, which, image, f, k, (n - 1) * f.m + k)
  {
    hide Loaded, PartReady, f.Total, f.Height;
    var g := (n - 1) * f.m + k;
    assert g + 1 < (f.Total() - 1) * f.m by { MulLe(n, f.Total() - 1, f.m); OneMore(n, f.m); }
    forall c | 0 <= c < |parts|
      ensures PartReady(parts[c], which, image[c], k, g, f.Height(c), false)
    {
      Before(f, c, n);
      InsidePart(parts[c], which, image[c], f.rg[c] * f.m, f.m, n, k, g);
    }
  }

  lemma PostponedReady(parts: seq<Part>, which: nat, image: seq<seq<Row>>, f: Frame, n: nat)
    requires f.Legal() && AllHold(parts, image, f, Inside, n, which) && 1 < n <= f.Total()
    ensures 0 < (n - 1) * f.m && Ready(parts, which, image, f, f.m + 1, (n - 1) * f.m - 1)
  {
    hide Loaded, PartReady, f.Total, f.Height;
    MulLe(1, n - 1, f.m);
    var g: nat := (n - 1) * f.m - 1;
    var late := n == f.Total();
    assert late == (g + 1 == (f.Total() - 1) * f.m) by {
      if n < f.Total() { MulLt(n - 1, f.Total() - 1, f.m); }
    }
    forall c | 0 <= c < |parts|
      ensures PartReady(parts[c], which, image[c], f.m + 1, g, f.Height(c), late)
    {
      Before(f, c, n);
      PostponedPart(parts[c], which, image[c], f.rg[c] * f.m, f.m, n, g, late);
    }
  }

  lemma BottomReady(parts: seq<Part>, which: nat, image: seq<seq<Row>>, f: Frame, k: nat)
    requires f.Legal() && AllHold(parts, image, f, Bottom, f.Total(), which)
    requires 0 < f.Total() && (f.Total() - 1) * f.m + k < f.Groups()
    ensures Ready(parts, which, image, f, k, (f.Total() - 1) * f.m + k)
  {
    hide Last, PartReady, f.Total, f.Height, f.Groups;
    var g := (f.Total() - 1) * f.m + k;
    forall c | 0 <= c < |parts|
      ensures PartReady(parts[c], which, image[c], k, g, f.Height(c), false)
    {
      GroupsReal(f, c);
      BottomPart(parts[c], which, image[c], f.rg[c] * f.m, f.m, f.Total(), k, g, f.Groups());
    }
  }

  /** Entry groups and row groups of the image differ by `first`. */
  ghost predicate ReadyFrom(parts: seq<Part>, which: nat, image: seq<seq<Row>>, f: Frame, k: nat, first: int)
    requires 0 < f.v
  {
    0 <= first + k && Ready(parts, which, image, f, k, first + k)
  }

  // ------------------------------------------------------------------ the controller

  datatype ContextState = PrepareForImcu | ProcessImcu | PostponedRow

  /** The counters, when `sent` row groups have gone out. */
  ghost predicate Control(f: Frame, state: ContextState, full: bool, n: nat, which: nat,
                          ctr: nat, avail: nat, sent: nat)
    requires f.Legal()
  {
    && n <= f.Total()
    && (full ==> 0 < n && which == (n - 1) % 2)
    && (!full ==> which == n % 2)
    && match state
       case PrepareForImcu => if full then sent == (n - 1) * f.m else n == 0 && sent == 0
       case ProcessImcu =>
         && full && ctr <= avail && sent == (n - 1) * f.m + ctr
         && avail == if n < f.Total() then f.m - 1 else f.Groups() - (n - 1) * f.m
       case PostponedRow =>
         && 0 < n && avail == f.m + 2
         && if full then 1 < n && f.m + 1 <= ctr <= f.m + 2 && sent + f.m + 2 == (n - 1) * f.m + ctr
            else ctr == f.m + 1 && sent == if n == f.Total() then f.Groups() else n * f.m - 1
  }

  function PhaseOf(f: Frame, state: ContextState, full: bool, n: nat): Phase
    requires 0 < f.v
  {
    if !full then (if n == f.Total() then Over else Between)
    else if state == ProcessImcu && n == f.Total() then Bottom
    else Inside
  }

  /** The current row groups of all components, handed over together. */
  function Windows(parts: seq<Part>, which: nat, k: nat): (w: seq<seq<Row>>)
    requires forall c :: 0 <= c < |parts| ==> Showable(parts[c], which, k * parts[c].r)
    ensures |w| == |parts|
    ensures forall c :: 0 <= c < |w| ==> w[c] == Shows(parts[c], which, k * parts[c].r)
  {
    seq(|parts|, c requires 0 <= c < |parts| => Shows(parts[c], which, k * parts[c].r))
  }

  lemma ReadySent(parts: seq<Part>, which: nat, image: seq<seq<Row>>, f: Frame, k: nat, g: nat)
    requires 0 < f.v && Ready(parts, which, image, f, k, g)
    ensures forall c :: 0 <= c < |parts| ==> Showable(parts[c], which, k * parts[c].r)
    ensures GroupSent(Windows(parts, which, k), image, f, g)
  {
    hide Showable, Shows, IsWindow, f.Height, f.Total;
    forall c | 0 <= c < |parts|
      ensures Showable(parts[c], which, k * parts[c].r)
    {
      assert PartReady(parts[c], which, image[c], k, g, f.Height(c), g + 1 == (f.Total() - 1) * f.m);
    }
  }

  lemma AllSized(parts: seq<Part>, image: seq<seq<Row>>, f: Frame, phase: Phase, n: nat, which: nat)
    requires 0 < f.v && AllHold(parts, image, f, phase, n, which)
    ensures |parts| == |image| == |f.rg|
  {
  }

  lemma StillToRead(f: Frame, state: ContextState, n: nat, which: nat, ctr: nat, avail: nat, sent: nat)
    requires f.Legal() && Control(f, state, false, n, which, ctr, avail, sent) && sent < f.Groups()
    ensures n < f.Total() && !state.ProcessImcu?
    ensures Control(f, state, true, n + 1, which, ctr, avail, sent)
  {
    GroupsReal(f, 0);
  }
  lemma PostponedAvail(parts: seq<Part>, which: nat, image: seq<seq<Row>>, f: Frame, n: nat,
                       ctr: nat, avail: nat, sent: nat, first: int)
    requires f.Legal() && Control(f, PostponedRow, true, n, which, ctr, avail, sent)
    requires 0 < n && first == (n - 1) * f.m - f.m - 2
    requires AllHold(parts, image, f, Inside, n, which)
    ensures forall k :: ctr <= k < avail ==> ReadyFrom(parts, which, image, f, k, first)
    ensures sent == first + ctr && first + avail <= f.Groups()
  {
    hide AllHold, Ready;
    PostponedReady(parts, which, image, f, n);
    GroupsReal(f, 0);
    MulLe(n - 1, f.Total() - 1, f.m);
  }

  lemma ProcessAvail(parts: seq<Part>, which: nat, image: seq<seq<Row>>, f: Frame, n: nat,
                       ctr: nat, avail: nat, sent: nat, first: int)
    requires f.Legal() && Control(f, ProcessImcu, true, n, which, ctr, avail, sent)
    requires first == (n - 1) * f.m
    requires AllHold(parts, image, f, PhaseOf(f, ProcessImcu, true, n), n, which)
    ensures forall k :: ctr <= k < avail ==> ReadyFrom(parts, which, image, f, k, first)
    ensures ctr <= avail && sent == first + ctr && first + avail <= f.Groups()
    ensures n < f.Total() ==> first + avail + 1 == n * f.m < f.Groups()
  {
    hide AllHold, Ready;
    GroupsReal(f, 0);
    OneMore(n, f.m);
    if n < f.Total() { MulLe(n, f.Total() - 1, f.m); }
    forall k | ctr <= k < avail
      ensures ReadyFrom(parts, which, image, f, k, first)
    {
      if n < f.Total() {
        InsideReady(parts, which, image, f, n, k);
      } else {
        BottomReady(parts, which, image, f, k);
      }
    }
  }

  class MainController {
    const f: Frame
    var parts: seq<Part>
    var whichptr: nat
    var bufferFull: bool
    var contextState: ContextState
    var rowgroupCtr: nat
    var rowgroupsAvail: nat
    var imcuRowCtr: nat
    /** What the post-processor was handed, row group by row group. */
    var output: seq<seq<seq<Row>>>
    /** All the rows delivered so far, for each component. */
    ghost var image: seq<seq<Row>>

    ghost predicate Valid()
      reads this
    {
      && f.Legal()
      && Control(f, contextState, bufferFull, imcuRowCtr, whichptr, rowgroupCtr, rowgroupsAvail, |output|)
      && AllHold(parts, image, f, PhaseOf(f, contextState, bufferFull, imcuRowCtr), imcuRowCtr, whichptr)
      && Sent(output, image, f)
    }

    /** start_pass_main, pass-through mode with context rows. */
    constructor (f: Frame)
      requires f.Legal()
      ensures Valid() && this.f == f && output == [] && image == seq(|f.rg|, c => [])
      ensures !bufferFull && imcuRowCtr == 0
    {
      var lists := StartAll(f);
      this.f := f;
      parts := lists;
      whichptr, bufferFull, contextState := 0, false, PrepareForImcu;
      rowgroupCtr, rowgroupsAvail, imcuRowCtr, output := 0, 0, 0, [];
      image := seq(|f.rg|, c => []);
      new;
      GroupsReal(f, 0);
    }

    /** post_process_data: the upsampler takes up to `taken` of the available row groups. */
    method PostProcess(taken: nat, ghost first: int)
      requires f.Legal() && Sent(output, image, f) && rowgroupCtr <= rowgroupsAvail
      requires |output| == first + rowgroupCtr && first + rowgroupsAvail <= f.Groups()
      requires forall k :: rowgroupCtr <= k < rowgroupsAvail ==> ReadyFrom(parts, whichptr, image, f, k, first)
      modifies `output, `rowgroupCtr
      ensures Sent(output, image, f) && old(output) <= output && |output| == first + rowgroupCtr
      ensures rowgroupCtr
           == if taken < rowgroupsAvail - old(rowgroupCtr) then old(rowgroupCtr) + taken else rowgroupsAvail
    {
      hide Ready, GroupSent, f.Groups;
      var left := taken;
      while 0 < left && rowgroupCtr < rowgroupsAvail
        invariant Sent(output, image, f) && old(output) <= output && |output| == first + rowgroupCtr
        invariant old(rowgroupCtr) <= rowgroupCtr <= rowgroupsAvail
        invariant 0 <= left && left + rowgroupCtr == taken + old(rowgroupCtr)
      {
        assert ReadyFrom(parts, whichptr, image, f, rowgroupCtr, first);
        ReadySent(parts, whichptr, image, f, rowgroupCtr, first + rowgroupCtr);
        output := output + [Windows(parts, whichptr, rowgroupCtr)];
        rowgroupCtr, left := rowgroupCtr + 1, left - 1;
      }
    }

    /** decompress_data delivers an iMCU row through the current lists. */
    method ReadImcuRow(rows: seq<seq<Row>>)
      requires Valid() && !bufferFull && |output| < f.Groups()
      requires |rows| == |f.rg| && forall c :: 0 <= c < |rows| ==> |rows[c]| == f.rg[c] * f.m
      modifies `parts, `bufferFull, `imcuRowCtr, `image
      ensures Valid() && bufferFull && imcuRowCtr == old(imcuRowCtr) + 1
      ensures |old(image)| == |rows| && image == Grown(old(image), rows)
    {
      hide AllHold, Sent;
      StillToRead(f, contextState, imcuRowCtr, whichptr, rowgroupCtr, rowgroupsAvail, |output|);
      AllSized(parts, image, f, Between, imcuRowCtr, whichptr);
      parts := ReadAll(parts, whichptr, rows, image, f, imcuRowCtr);
      SentGrows(output, image, Grown(image, rows), f);
      image := Grown(image, rows);
      bufferFull, imcuRowCtr := true, imcuRowCtr + 1;
    }

    /** The postponed row group of the iMCU row before goes out. */
    method FeedPostponed(taken: nat)
      requires Valid() && bufferFull && contextState == PostponedRow
      modifies `output, `rowgroupCtr, `contextState
      ensures Valid() && old(output) <= output
      ensures contextState == (if rowgroupCtr < rowgroupsAvail then PostponedRow else PrepareForImcu)
      ensures 0 < taken ==> contextState == PrepareForImcu
    {
      hide AllHold, Sent, ReadyFrom;
      ghost var first := (imcuRowCtr - 1) * f.m - f.m - 2;
      PostponedAvail(parts, whichptr, image, f, imcuRowCtr, rowgroupCtr, rowgroupsAvail, |output|, first);
      PostProcess(taken, first);
      if rowgroupsAvail <= rowgroupCtr {
        contextState := PrepareForImcu;
      }
    }

    /** The first M - 1 row groups are made available; those of the last iMCU row all, and
        its pointers are set up. */
    method Prepare()
      requires Valid() && bufferFull && contextState == PrepareForImcu
      modifies `parts, `rowgroupCtr, `rowgroupsAvail, `contextState
      ensures Valid() && contextState == ProcessImcu && rowgroupCtr == 0
    {
      hide AllHold, Sent;
      rowgroupCtr := 0;
      rowgroupsAvail := f.m - 1;
      if imcuRowCtr == f.Total() {
        parts, rowgroupsAvail := BottomAll(parts, whichptr, image, f);
      }
      contextState := ProcessImcu;
    }

    /** They go out; then the other list is next, and shows the last row group once more is read. */
    method FeedImcuRow(taken: nat)
      requires Valid() && bufferFull && contextState == ProcessImcu
      modifies `output, `rowgroupCtr, `rowgroupsAvail, `contextState, `parts, `whichptr, `bufferFull
      ensures Valid() && old(output) <= output
      ensures if bufferFull then contextState == ProcessImcu && rowgroupCtr < rowgroupsAvail
              else contextState == PostponedRow
      ensures old(rowgroupsAvail - rowgroupCtr) <= taken ==> !bufferFull
    {
      hide AllHold, Sent, ReadyFrom, Control, PhaseOf, f.Legal, f.Total, f.Groups;
      LegalIs(f);
      ghost var first := (imcuRowCtr - 1) * f.m;
      ProcessAvail(parts, whichptr, image, f, imcuRowCtr, rowgroupCtr, rowgroupsAvail, |output|, first);
      PostProcess(taken, first);
      FedControl(f, imcuRowCtr, whichptr, old(rowgroupCtr), rowgroupCtr, rowgroupsAvail, |old(output)|, |output|);
      if rowgroupCtr < rowgroupsAvail {
        return;
      }
      NextList();
      whichptr := 1 - whichptr;
      bufferFull := false;
      rowgroupCtr, rowgroupsAvail := f.m + 1, f.m + 2;
      contextState := PostponedRow;
    }

    /** process_data_context_main. `ready` says whether decompress_data delivers `rows`,
        `taken0` and `taken1` how many row groups the two calls of the post-processor swallow,
        `filled` whether the first of them filled the output buffer. */
    method ProcessDataContextMain(rows: seq<seq<Row>>, ready: bool, taken0: nat, filled: bool, taken1: nat)
      requires Valid() && |output| < f.Groups()
      requires |rows| == |f.rg| && forall c :: 0 <= c < |rows| ==> |rows[c]| == f.rg[c] * f.m
      modifies this
      ensures Valid() && old(output) <= output
      ensures |old(image)| == |rows|
      ensures image == if ready && !old(bufferFull) then Grown(old(image), rows) else old(image)
      ensures !ready && !old(bufferFull) ==> output == old(output)
      ensures (ready || old(bufferFull)) && 0 < taken0 && !filled && f.Groups() <= taken1 ==>
                !bufferFull && imcuRowCtr == old(imcuRowCtr) + (if old(bufferFull) then 0 else 1)
    {
      hide AllHold, Sent, Control, f.Groups;
      AllSized(parts, image, f, PhaseOf(f, contextState, bufferFull, imcuRowCtr), imcuRowCtr, whichptr);
      if !bufferFull {
        if !ready {
          return;
        }
        ReadImcuRow(rows);
      }
      if contextState == PostponedRow {
        FeedPostponed(taken0);
        if contextState == PostponedRow || filled {
          return;
        }
      }
      if contextState == PrepareForImcu {
        Prepare();
      }
      AtMost(f, imcuRowCtr, whichptr, rowgroupCtr, rowgroupsAvail, |output|);
      FeedImcuRow(taken1);
    }

    /** After the first iMCU row the wraparound pointers are set. */
    method NextList()
      requires f.Legal() && 0 < imcuRowCtr <= f.Total() && whichptr < 2
      requires AllHold(parts, image, f, PhaseOf(f, ProcessImcu, true, imcuRowCtr), imcuRowCtr, whichptr)
      modifies `parts
      ensures AllHold(parts, image, f, PhaseOf(f, PostponedRow, false, imcuRowCtr), imcuRowCtr, 1 - whichptr)
    {
      hide *;
      ghost var was := parts;
      var one := imcuRowCtr == 1;
      if one {
        ListSizes(parts, image, f, imcuRowCtr, whichptr);
        parts := WrapAll(parts, f.m);
      }
      Finished(was, parts, image, f, imcuRowCtr, whichptr);
    }
  }

  lemma AtMost(f: Frame, n: nat, which: nat, ctr: nat, avail: nat, sent: nat)
    requires f.Legal() && Control(f, ProcessImcu, true, n, which, ctr, avail, sent)
    ensures avail - ctr <= f.Groups()
  {
    GroupsReal(f, 0);
    if n < f.Total() { MulLe(1, f.Total() - 1, f.m); }
  }

  lemma LegalIs(f: Frame)
    requires f.Legal()
    ensures 0 < f.v && 2 <= f.m
  {
  }

  /** Row groups of an iMCU row went out; with the last of them the next list is current. */
  lemma FedControl(f: Frame, n: nat, which: nat, was: nat, ctr: nat, avail: nat, before: nat, sent: nat)
    requires f.Legal() && Control(f, ProcessImcu, true, n, which, was, avail, before)
    requires was <= ctr <= avail && sent == before + ctr - was
    ensures 0 < n <= f.Total() && which < 2
    ensures Control(f, ProcessImcu, true, n, which, ctr, avail, sent)
    ensures ctr == avail ==> Control(f, PostponedRow, false, n, 1 - which, f.m + 1, f.m + 2, sent)
  {
    GroupsReal(f, 0);
    OneMore(n, f.m);
  }

  lemma ListSizes(parts: seq<Part>, image: seq<seq<Row>>, f: Frame, n: nat, which: nat)
    requires f.Legal() && 0 < n <= f.Total()
    requires AllHold(parts, image, f, PhaseOf(f, ProcessImcu, true, n), n, which)
    ensures 2 <= f.m
    ensures forall c :: 0 <= c < |parts| ==>
              0 < parts[c].r && |parts[c].x0| == |parts[c].x1| == parts[c].r * f.m + 4 * parts[c].r
  {
    hide View, BottomView, Wrapped, f.Total, f.Height;
    forall c | 0 <= c < |parts|
      ensures 0 < parts[c].r && |parts[c].x0| == |parts[c].x1| == parts[c].r * f.m + 4 * parts[c].r
    {
      assert Holds(parts[c], image[c], f.rg[c] * f.m, PhaseOf(f, ProcessImcu, true, n), n, which);
    }
  }

  lemma Finished(was: seq<Part>, parts: seq<Part>, image: seq<seq<Row>>, f: Frame, n: nat, which: nat)
    requires f.Legal() && 0 < n <= f.Total() && which < 2
    requires AllHold(was, image, f, PhaseOf(f, ProcessImcu, true, n), n, which)
    requires if n != 1 then parts == was else
               |parts| == |was| && forall c :: 0 <= c < |was| ==> WrapDone(was[c], parts[c], was[c].r * f.m)
    ensures AllHold(parts, image, f, PhaseOf(f, PostponedRow, false, n), n, 1 - which)
  {
    hide Loaded, Idle, Wrapped, SameRows, f.Total, f.Height;
    forall c | 0 <= c < |parts|
      ensures parts[c].r == was[c].r && parts[c].height == was[c].height
      ensures Holds(parts[c], image[c], f.rg[c] * f.m, PhaseOf(f, PostponedRow, false, n), n, 1 - which)
    {
      assert n == 1 ==> WrapDone(was[c], parts[c], was[c].r * f.m);
      if n != f.Total() {
        var rm := f.rg[c] * f.m;
        assert Holds(was[c], image[c], rm, Inside, n, which);
        OneMore(n, rm);
        if n != 1 { SomeRows(was[c], image[c], rm, n, which); }
        FinishDone(was[c], parts[c], image[c], rm, (n - 1) * rm, which);
      }
    }
  }

  lemma SomeRows(p: Part, img: seq<Row>, rm: nat, n: nat, which: nat)
    requires 1 < n && Loaded(p, img, rm, (n - 1) * rm, which)
    ensures 0 < (n - 1) * rm
  {
    hide View, Wrapped, Straight, Swapped;
    MulLe(1, n - 1, rm);
  }

  // ---------------------------------------------------------------- what it amounts to

  /** When the image is done every row group was read in and none is left. */
  lemma DoneWhen(f: Frame, state: ContextState, full: bool, n: nat, which: nat, ctr: nat, avail: nat, sent: nat)
    requires f.Legal() && Control(f, state, full, n, which, ctr, avail, sent)
    ensures n == f.Total() && !full ==> sent == f.Groups()
    ensures sent == f.Groups() ==> n == f.Total()
  {
    GroupsReal(f, 0);
    if 0 < n < f.Total() {
      MulLe(n, f.Total() - 1, f.m);
      OneMore(n, f.m);
    }
  }

  /** Row `j` of the window of row group `g` is the clamped image row. */
  ghost predicate Clamped(f: Frame, c: nat, g: nat, j: nat)
    requires f.Legal() && c < |f.rg| && 0 < f.Height(c)
  {
    var k := g * f.rg[c] + j - f.rg[c];
    Shown(k, f.Height(c), g + 1 == (f.Total() - 1) * f.m) == Clamp(k, f.Height(c))
  }

  lemma ClampedMeans(f: Frame, c: nat, g: nat, j: nat)
    requires f.Legal() && c < |f.rg| && 0 < f.Height(c)
    ensures Clamped(f, c, g, j) <==>
            !(g + 1 == (f.Total() - 1) * f.m && f.Height(c) <= g * f.rg[c] + j - f.rg[c])
  {
    hide f.Total, f.Height;
  }

  /** Where the postponed row group before the last iMCU row starts. */
  lemma PostponedTop(f: Frame, c: nat) returns (g: nat)
    requires f.Legal() && c < |f.rg| && 1 < f.Total()
    ensures g + 1 == (f.Total() - 1) * f.m && g < f.Groups()
    ensures g * f.rg[c] + f.rg[c] == (f.Total() - 1) * (f.rg[c] * f.m)
  {
    hide f.Total, f.Groups, f.Height;
    GroupsReal(f, c);
    MulLe(1, f.Total() - 1, f.m);
    g := (f.Total() - 1) * f.m - 1;
    GroupTop(f.Total(), f.m, f.rg[c], 0);
    OneMore(g + 1, f.rg[c]);
  }

  /** The promise that the rows below the last real row repeat it is kept if and only if
      the last iMCU row is the first one or holds at least one full row group of real rows:
      otherwise the postponed row group before it shows delivered padding rows below. */
  lemma {:induction false} ClampedWhen(f: Frame, c: nat)
    requires f.Legal() && c < |f.rg|
    ensures 0 < f.Height(c)
    ensures (forall g, j :: 0 <= g < f.Groups() && 0 <= j < 3 * f.rg[c] ==> Clamped(f, c, g, j))
            <==> (f.Total() == 1 || f.rg[c] <= f.Height(c) - (f.Total() - 1) * (f.rg[c] * f.m))
  {
    hide Clamped, f.Total, f.Groups, f.Height;
    var r, last := f.rg[c], (f.Total() - 1) * (f.rg[c] * f.m);
    GroupsReal(f, c);
    Before(f, c, f.Total());
    if f.Total() == 1 {
      forall h, j | 0 <= h < f.Groups() && 0 <= j < 3 * r
        ensures Clamped(f, c, h, j)
      {
        ClampedMeans(f, c, h, j);
      }
    } else {
      var g := PostponedTop(f, c);
      ClampedMeans(f, c, g, 3 * r - 1);
      if r <= f.Height(c) - last {
        forall h, j | 0 <= h < f.Groups() && 0 <= j < 3 * r
          ensures Clamped(f, c, h, j)
        {
          ClampedMeans(f, c, h, j);
        }
      }
    }
  }

  // ---------------------------------------------------------------- a whole run

  /** The iMCU rows have the rows of each component. */
  ghost predicate Shaped(input: seq<seq<seq<Row>>>, f: Frame)
  {
    forall n :: 0 <= n < |input| ==>
      |input[n]| == |f.rg| && forall c :: 0 <= c < |f.rg| ==> |input[n][c]| == f.rg[c] * f.m
  }

  /** Each component's rows of the iMCU rows, one after the other. */
  function Collected(input: seq<seq<seq<Row>>>, components: nat): (image: seq<seq<Row>>)
    requires forall n :: 0 <= n < |input| ==> |input[n]| == components
    ensures |image| == components
    decreases |input|
  {
    if input == [] then seq(components, c => [])
    else Grown(Collected(input[..|input| - 1], components), input[|input| - 1])
  }

  /** A whole image through the controller. */
  method Decompress(f: Frame, input: seq<seq<seq<Row>>>) returns (mc: MainController)
    requires f.Legal() && |input| == f.Total() && Shaped(input, f)
    ensures fresh(mc) && mc.Valid() && mc.f == f && |mc.output| == f.Groups()
    ensures mc.image == Collected(input, |f.rg|) && Sent(mc.output, mc.image, f)
  {
    hide AllHold, Sent, Control, f.Groups, f.Total, f.Height;
    mc := new MainController(f);
    var most := f.Groups();
    for n := 0 to f.Total()
      invariant fresh(mc) && mc.Valid() && mc.f == f && !mc.bufferFull && mc.imcuRowCtr == n
      invariant mc.image == Collected(input[..n], |f.rg|)
    {
      Unfinished(mc);
      mc.ProcessDataContextMain(input[n], true, 1, false, most);
      assert input[..n + 1][..n] == input[..n] && input[..n + 1][n] == input[n];
    }
    assert input[..|input|] == input;
    DoneWhen(f, mc.contextState, mc.bufferFull, mc.imcuRowCtr, mc.whichptr, mc.rowgroupCtr, mc.rowgroupsAvail,
             |mc.output|);
  }

  lemma Unfinished(mc: MainController)
    requires mc.Valid() && mc.imcuRowCtr < mc.f.Total()
    ensures |mc.output| < mc.f.Groups()
  {
    hide AllHold, GroupSent;
    DoneWhen(mc.f, mc.contextState, mc.bufferFull, mc.imcuRowCtr, mc.whichptr, mc.rowgroupCtr, mc.rowgroupsAvail,
             |mc.output|);
  }

  /** 33 image rows with vertical sampling factors 4 and 2. */
  const TALL: Frame := Frame(33, 32, 8, [4, 2])

  lemma TallSizes()
    ensures TALL.Legal() && TALL.Total() == 2 && TALL.Groups() == 9 && TALL.Height(0) == 33 && TALL.Height(1) == 17
  {
    DivUpIs(33, 32, 2);
    DivUpIs(33 * 8, 32, 9);
    DivUpIs(33 * 32, 32, 33);
    DivUpIs(33 * 16, 32, 17);
  }

  /** For instance, of the 17 real rows of the subsampled component the last is the first
      one of the second iMCU row, but below it the postponed row group shows the padding
      row that was delivered after it. */
  method PaddingShows(first: seq<seq<Row>>, second: seq<seq<Row>>) returns (mc: MainController)
    requires |first| == |second| == 2 && |first[0]| == |second[0]| == 32 && |first[1]| == |second[1]| == 16
    ensures TALL.Legal() && TALL.Height(1) == 17 && |mc.output| == 9 && |mc.output[7]| == 2 && |mc.output[7][1]| == 6
    ensures mc.output[7][1][4] == second[1][0] && mc.output[7][1][5] == second[1][1] && Clamp(17, 17) == 16
  {
    TallSizes();
    hide AllHold, Control, TALL.Groups, TALL.Total, TALL.Height;
    var input := [first, second];
    mc := Decompress(TALL, input);
    assert input[..1] == [first] && [first][..0] == [];
    ghost var image := Collected(input, 2);
    assert Collected([first], 2)[1] == [] + first[1];
    assert image[1] == first[1] + second[1];
    PaddingShown(mc.output, image);
  }

  lemma PaddingShown(output: seq<seq<seq<Row>>>, image: seq<seq<Row>>)
    requires TALL.Legal() && Sent(output, image, TALL) && |output| == 9
    ensures |output[7]| == |image| == 2 && |output[7][1]| == 6 && 17 < |image[1]|
    ensures output[7][1][4] == image[1][16] && output[7][1][5] == image[1][17]
  {
    TallSizes();
    hide TALL.Groups, TALL.Total, TALL.Height;
    assert GroupSent(output[7], image, TALL, 7);
    assert IsWindow(output[7][1], image[1], 2, 14, 17, true);
    assert IsRow(output[7][1][4], image[1], 16, 17, true);
    assert IsRow(output[7][1][5], image[1], 17, 17, true);
  }
}
