/** The compressor's preprocessing controller with context rows (jcprepct.c): a wrapped-around
    buffer of three row groups shows the downsampler each row group between its neighbours.
    Every component has the same rows, so a `Row` stands for a row of all of them. */
module CompressPrep {
  import opened ImageEdges

  type Row = seq<seq<int>>

  /** The workspace row that entry `i` of the fake row pointers is; one row group of them is
      at negative offsets, so that row `k` of the buffer is entry `k + rg`. */
  function Fake(i: nat, rg: nat): (p: nat)
    ensures i < 5 * rg ==> p < 3 * rg
  {
    if i < rg then i + 2 * rg else if i < 4 * rg then i - rg else i - 4 * rg
  }

  ghost predicate IsFake(fake: seq<nat>, rg: nat)
  {
    |fake| == 5 * rg && forall i :: 0 <= i < 5 * rg ==> fake[i] == Fake(i, rg)
  }

  /** create_context_buffer. */
  method CreateContextBuffer(rg: nat) returns (fake: seq<nat>)
    ensures IsFake(fake, rg)
  {
    fake := seq(rg, i => 0) + seq(3 * rg, i => i) + seq(rg, i => 0);
    for i := 0 to rg
      invariant |fake| == 5 * rg
      invariant forall k :: rg <= k < 4 * rg ==> fake[k] == k - rg
      invariant forall k :: 0 <= k < i ==> fake[k] == 2 * rg + k
      invariant forall k :: 4 * rg <= k < 4 * rg + i ==> fake[k] == k - 4 * rg
    {
      fake := fake[i := 2 * rg + i];
      fake := fake[4 * rg + i := i];
    }
  }

  ghost predicate IsRow(row: Row, src: seq<Row>, k: int, height: nat)
    requires 0 < height
  {
    Clamp(k, height) < |src| && row == src[Clamp(k, height)]
  }

  /** The row group that starts at source row `top`, with the groups above and below. */
  ghost predicate IsWindow(w: seq<Row>, src: seq<Row>, rg: nat, top: nat, height: nat)
  {
    |w| == 3 * rg && 0 < height && forall j :: 0 <= j < |w| ==> IsRow(w[j], src, top + j - rg, height)
  }

  function Slot(buf: seq<Row>, rg: nat, i: nat): Row
    requires |buf| == 3 * rg && i < 5 * rg
  {
    buf[Fake(i, rg)]
  }

  /** Around the row group at buffer row `group`, source row `top`, the rows above from the
      `lo`-th on and `filled` rows from the group on are in place. */
  ghost predicate Filled(buf: seq<Row>, src: seq<Row>, rg: nat, group: nat, top: nat, lo: nat, filled: nat, height: nat)
  {
    && |buf| == 3 * rg && 0 < height && group + rg <= 3 * rg && filled <= 2 * rg
    && forall i :: group + lo <= i < group + rg + filled ==> IsRow(Slot(buf, rg, i), src, top - group + i - rg, height)
  }

  lemma FilledGrows(buf: seq<Row>, src: seq<Row>, more: seq<Row>, rg: nat, group: nat, top: nat, lo: nat,
                    filled: nat, height: nat)
    requires Filled(buf, src, rg, group, top, lo, filled, height) && src <= more
    ensures Filled(buf, more, rg, group, top, lo, filled, height)
  {
    forall i | group + lo <= i < group + rg + filled
      ensures IsRow(Slot(buf, rg, i), more, top - group + i - rg, height)
    {
      assert IsRow(Slot(buf, rg, i), src, top - group + i - rg, height);
    }
  }

  /** One more row in the place below. */
  lemma FilledNext(buf: seq<Row>, next: seq<Row>, row: Row, src: seq<Row>, rg: nat, group: nat, top: nat,
                   lo: nat, filled: nat, height: nat)
    requires Filled(buf, src, rg, group, top, lo, filled, height) && filled < 2 * rg
    requires IsRow(row, src, top + filled, height)
    requires next == buf[Fake(group + rg + filled, rg) := row]
    ensures Filled(next, src, rg, group, top, lo, filled + 1, height)
  {
    forall i | group + lo <= i < group + rg + filled + 1
      ensures IsRow(Slot(next, rg, i), src, top - group + i - rg, height)
    {
      if i < group + rg + filled {
        assert IsRow(Slot(buf, rg, i), src, top - group + i - rg, height);
      }
    }
  }

  /** One more row in the place above, at the top of the image. */
  lemma FilledAbove(buf: seq<Row>, next: seq<Row>, src: seq<Row>, rg: nat, lo: nat, filled: nat, height: nat)
    requires Filled(buf, src, rg, 0, 0, lo, filled, height) && 0 < lo <= rg && 0 < |src|
    requires next == buf[Fake(lo - 1, rg) := src[0]]
    ensures Filled(next, src, rg, 0, 0, lo - 1, filled, height)
  {
    forall i | lo - 1 <= i < rg + filled
      ensures IsRow(Slot(next, rg, i), src, i - rg, height)
    {
      if lo <= i {
        assert IsRow(Slot(buf, rg, i), src, 0 - 0 + i - rg, height);
      }
    }
  }

  /** The group below is the next group. */
  lemma FilledShift(buf: seq<Row>, src: seq<Row>, rg: nat, group: nat, top: nat, height: nat)
    requires Filled(buf, src, rg, group, top, 0, 2 * rg, height) && (group == 0 || group == rg || group == 2 * rg)
    ensures Filled(buf, src, rg, if 3 * rg <= group + rg then 0 else group + rg, top + rg, 0, rg, height)
  {
    var next := if 3 * rg <= group + rg then 0 else group + rg;
    forall i | next <= i < next + 2 * rg
      ensures IsRow(Slot(buf, rg, i), src, top + rg - next + i - rg, height)
    {
      var k := i - next + group + rg;
      assert IsRow(Slot(buf, rg, k), src, top - group + k - rg, height);
      assert Fake(i, rg) == Fake(k, rg);
    }
  }

  /** What downsample sees through the fake pointers. */
  function View(buf: seq<Row>, fake: seq<nat>, rg: nat, group: nat): (w: seq<Row>)
    requires |buf| == 3 * rg && IsFake(fake, rg) && group + rg <= 3 * rg
    ensures |w| == 3 * rg && forall j :: 0 <= j < |w| ==> w[j] == Slot(buf, rg, group + j)
  {
    seq(3 * rg, j requires 0 <= j < 3 * rg => assert fake[group + j] == Fake(group + j, rg); buf[fake[group + j]])
  }

  lemma ViewIs(buf: seq<Row>, fake: seq<nat>, src: seq<Row>, rg: nat, group: nat, top: nat, height: nat)
    requires Filled(buf, src, rg, group, top, 0, 2 * rg, height) && IsFake(fake, rg)
    ensures IsWindow(View(buf, fake, rg, group), src, rg, top, height)
  {
    var w := View(buf, fake, rg, group);
    forall j | 0 <= j < |w|
      ensures IsRow(w[j], src, top + j - rg, height)
    {
      var i := group + j;
      assert IsRow(Slot(buf, rg, i), src, top - group + i - rg, height);
    }
  }

  /** All row groups handed to the downsampler, in order. */
  ghost predicate AllWindows(output: seq<seq<Row>>, src: seq<Row>, rg: nat, height: nat)
  {
    forall g :: 0 <= g < |output| ==> IsWindow(output[g], src, rg, g * rg, height)
  }

  lemma AllGrow(output: seq<seq<Row>>, src: seq<Row>, more: seq<Row>, rg: nat, height: nat)
    requires AllWindows(output, src, rg, height) && src <= more
    ensures AllWindows(output, more, rg, height)
  {
    forall g | 0 <= g < |output|
      ensures IsWindow(output[g], more, rg, g * rg, height)
    {
      var w, top := output[g], g * rg;
      assert IsWindow(w, src, rg, top, height);
      forall j | 0 <= j < |w|
        ensures IsRow(w[j], more, top + j - rg, height)
      {
        assert IsRow(w[j], src, top + j - rg, height);
      }
    }
  }

  lemma AllNext(was: seq<seq<Row>>, output: seq<seq<Row>>, src: seq<Row>, rg: nat, height: nat)
    requires AllWindows(was, src, rg, height) && |output| == |was| + 1 && was <= output
    requires IsWindow(output[|was|], src, rg, |was| * rg, height)
    ensures AllWindows(output, src, rg, height)
  {
    hide IsWindow;
  }

  /** Where buffer row `next` is, when the rows up to `stop` are wanted and `filled` rows from
      the group on are there; only the first group is wanted itself. */
  ghost predicate Placed(rg: nat, group: nat, next: nat, stop: nat, filled: nat, first: bool)
  {
    && 0 < rg && (group == 0 || group == rg || group == 2 * rg)
    && stop == Fake(group + 2 * rg, rg) + rg && next <= stop && filled + stop == next + 2 * rg
    && if first then group == 0 else rg <= filled
  }

  lemma PlacedAt(rg: nat, group: nat, next: nat, stop: nat, filled: nat, first: bool)
    requires Placed(rg, group, next, stop, filled, first) && next < stop
    ensures stop <= 3 * rg && Fake(group + rg + filled, rg) == next == Fake(next + rg, rg)
    ensures 0 < group + rg + filled && Fake(next + rg - 1, rg) == Fake(group + rg + filled - 1, rg)
  {
  }

  /** After a row group, and the stop for the next one. */
  lemma PlacedShift(rg: nat, group: nat, next: nat, stop: nat, first: bool)
    requires Placed(rg, group, next, stop, 2 * rg, first)
    ensures next == stop <= 3 * rg && (group == 0 || group == rg || group == 2 * rg)
    ensures var at := if 3 * rg <= next then 0 else next;
            Placed(rg, if 3 * rg <= group + rg then 0 else group + rg, at, at + rg, rg, false)
  {
  }

  lemma FilledSize(buf: seq<Row>, src: seq<Row>, rg: nat, group: nat, top: nat, lo: nat, filled: nat, height: nat)
    requires Filled(buf, src, rg, group, top, lo, filled, height)
    ensures |buf| == 3 * rg && group + rg <= 3 * rg && 0 < height
  {
  }

  lemma FilledTop(buf: seq<Row>, src: seq<Row>, rg: nat, lo: nat, filled: nat, height: nat)
    requires Filled(buf, src, rg, 0, 0, lo, filled, height) && 0 < rg && 0 < filled && lo <= rg
    ensures 0 < |src| && buf[Fake(rg, rg)] == src[0]
  {
    assert IsRow(Slot(buf, rg, rg), src, 0 - 0 + rg - rg, height);
  }

  /** The row before the next one is the last row of the image, if all are there. */
  lemma FilledBottom(buf: seq<Row>, src: seq<Row>, rg: nat, group: nat, top: nat, filled: nat, height: nat)
    requires Filled(buf, src, rg, group, top, 0, filled, height) && height <= top + filled && 0 < rg
    ensures Fake(group + rg + filled - 1, rg) < |buf| && height <= |src|
    ensures buf[Fake(group + rg + filled - 1, rg)] == src[height - 1]
  {
    var i := group + rg + filled - 1;
    assert IsRow(Slot(buf, rg, i), src, top - group + i - rg, height);
  }

  lemma FakeIs(fake: seq<nat>, rg: nat, i: nat)
    requires IsFake(fake, rg) && i < 5 * rg
    ensures |fake| == 5 * rg && fake[i] == Fake(i, rg)
  {
  }

  /** color_convert into the rows from `next` on. */
  method WriteRows(was: seq<Row>, fake: seq<nat>, rows: seq<Row>, next: nat, ghost stop: nat, ghost src: seq<Row>,
                   rg: nat, ghost group: nat, ghost top: nat, ghost lo: nat, ghost filled: nat, ghost height: nat,
                   ghost first: bool)
    returns (buf: seq<Row>)
    requires IsFake(fake, rg) && Filled(was, src, rg, group, top, lo, filled, height)
    requires Placed(rg, group, next, stop, filled, first) && |rows| <= stop - next
    requires top + filled <= |src| <= height && src[..top + filled] + rows <= src
    ensures Filled(buf, src, rg, group, top, lo, filled + |rows|, height)
  {
    hide Filled, IsFake, Placed, Fake;
    buf := was;
    for k := 0 to |rows|
      invariant Filled(buf, src, rg, group, top, lo, filled + k, height)
    {
      PlacedStep(rg, group, next, stop, filled, first, k);
      PlacedAt(rg, group, next + k, stop, filled + k, first);
      FilledSize(buf, src, rg, group, top, lo, filled + k, height);
      FakeIs(fake, rg, next + k + rg);
      ghost var b := buf;
      buf := buf[fake[next + k + rg] := rows[k]];
      assert src[top + filled + k] == (src[..top + filled] + rows)[top + filled + k] == rows[k];
      FilledNext(b, buf, rows[k], src, rg, group, top, lo, filled + k, height);
    }
  }

  lemma PlacedStep(rg: nat, group: nat, next: nat, stop: nat, filled: nat, first: bool, k: nat)
    requires Placed(rg, group, next, stop, filled, first) && next + k <= stop
    ensures Placed(rg, group, next + k, stop, filled + k, first)
    ensures 0 < rg && next + k + rg < 5 * rg
  {
  }

  /** The first row of the image in the place of the row group above. */
  method PadTop(was: seq<Row>, fake: seq<nat>, ghost src: seq<Row>, rg: nat, ghost filled: nat, ghost height: nat)
    returns (buf: seq<Row>)
    requires IsFake(fake, rg) && 0 < rg && 0 < filled && Filled(was, src, rg, 0, 0, rg, filled, height)
    ensures Filled(buf, src, rg, 0, 0, 0, filled, height)
  {
    hide Filled, IsFake, Fake;
    buf := was;
    for row := 1 to rg + 1
      invariant Filled(buf, src, rg, 0, 0, rg + 1 - row, filled, height)
    {
      FilledSize(buf, src, rg, 0, 0, rg + 1 - row, filled, height);
      FakeIs(fake, rg, rg);
      FakeIs(fake, rg, rg - row);
      FilledTop(buf, src, rg, rg + 1 - row, filled, height);
      ghost var b := buf;
      buf := buf[fake[rg - row] := buf[fake[rg]]];
      FilledAbove(b, buf, src, rg, rg + 1 - row, filled, height);
    }
  }

  /** expand_bottom_edge from row `next` up to the stop. */
  method ExpandBottomEdge(was: seq<Row>, fake: seq<nat>, next: nat, stop: nat, ghost src: seq<Row>,
                          rg: nat, ghost group: nat, ghost top: nat, ghost filled: nat, ghost height: nat,
                          ghost first: bool)
    returns (buf: seq<Row>)
    requires IsFake(fake, rg) && Filled(was, src, rg, group, top, 0, filled, height)
    requires Placed(rg, group, next, stop, filled, first) && next < stop && height <= top + filled
    ensures Filled(buf, src, rg, group, top, 0, 2 * rg, height)
  {
    hide Filled, IsFake, Placed, Fake;
    buf := was;
    ghost var count := filled;
    FilledSize(buf, src, rg, group, top, 0, filled, height);
    PlacedStep(rg, group, next, stop, filled, first, 0);
    PlacedAt(rg, group, next, stop, filled, first);
    FilledBottom(buf, src, rg, group, top, filled, height);
    FakeIs(fake, rg, next + rg - 1);
    for row := next to stop
      invariant count == filled + row - next && Filled(buf, src, rg, group, top, 0, count, height)
      invariant |buf| == |was| && 0 < height <= |src| && 0 < next + rg <= |fake| && fake[next + rg - 1] < |buf|
      invariant buf[fake[next + rg - 1]] == src[height - 1]
    {
      PlacedStep(rg, group, next, stop, filled, first, row - next);
      PlacedAt(rg, group, row, stop, count, first);
      FakeIs(fake, rg, row + rg);
      ghost var b := buf;
      FilledSize(buf, src, rg, group, top, 0, count, height);
      buf := buf[fake[row + rg] := buf[fake[next + rg - 1]]];
      FilledNext(b, buf, src[height - 1], src, rg, group, top, 0, count, height);
      count := count + 1;
    }
  }

  lemma AtTop(rg: nat, group: nat, next: nat, stop: nat, filled: nat)
    requires Placed(rg, group, next, stop, filled, true)
    ensures group == 0
  {
  }

  lemma AtStart(n: nat, rg: nat, filled: nat)
    requires n * rg + filled == 0 && 0 < rg
    ensures n == 0 && filled == 0
  {
  }

  class PrepController {
    const height: nat            // image_height
    const rg: nat                // max_v_samp_factor
    const fake: seq<nat>
    var buf: seq<Row>
    var rowsToGo: nat
    var nextBufRow: nat
    var thisRowGroup: nat
    var nextBufStop: nat
    /** What the downsampler saw, call by call. */
    var output: seq<seq<Row>>
    /** The source rows taken in so far. */
    ghost var src: seq<Row>

    /** Rows in place from the current row group on. */
    ghost function Rows(): (filled: int)
      reads `nextBufRow, `nextBufStop
    {
      nextBufRow + 2 * rg - nextBufStop
    }

    ghost predicate Valid()
      reads this
    {
      && 0 < height && 0 <= Rows() && IsFake(fake, rg)
      && Placed(rg, thisRowGroup, nextBufRow, nextBufStop, Rows(), |output| == 0)
      && |src| + rowsToGo == height
      && (if 0 < rowsToGo then |output| * rg + Rows() == |src| else height <= |output| * rg + Rows())
      && Filled(buf, src, rg, thisRowGroup, |output| * rg, if |src| == 0 then rg else 0, Rows(), height)
      && AllWindows(output, src, rg, height)
    }

    /** start_pass_prep on a buffer of create_context_buffer. */
    constructor (height: nat, rg: nat, buf: seq<Row>)
      requires 0 < height && 0 < rg && |buf| == 3 * rg
      ensures Valid() && nextBufRow < nextBufStop && output == [] && src == []
      ensures this.height == height && this.rg == rg
    {
      var pointers := CreateContextBuffer(rg);
      this.height, this.rg, fake := height, rg, pointers;
      this.buf, rowsToGo, nextBufRow, thisRowGroup, nextBufStop := buf, height, 0, 0, 2 * rg;
      output, src := [], [];
    }

    /** color_convert of some rows, with the padding above the first of the image. */
    method ConvertRows(rows: seq<Row>)
      requires Valid() && 0 < |rows| <= nextBufStop - nextBufRow && |rows| <= rowsToGo
      modifies `buf, `nextBufRow, `rowsToGo, `src
      ensures Valid() && src == old(src) + rows && nextBufRow == old(nextBufRow) + |rows|
    {
      hide AllWindows, Filled, IsFake, Placed;
      PlacedStep(rg, thisRowGroup, nextBufRow, nextBufStop, Rows(), |output| == 0, |rows|);
      ghost var top, filled, lo, was := |output| * rg, Rows(), if |src| == 0 then rg else 0, src;
      var first := rowsToGo == height;
      src := src + rows;
      FilledGrows(buf, was, src, rg, thisRowGroup, top, lo, filled, height);
      AllGrow(output, was, src, rg, height);
      assert src[..top + filled] + rows == src;
      buf := WriteRows(buf, fake, rows, nextBufRow, nextBufStop, src, rg, thisRowGroup, top, lo, filled, height,
                       |output| == 0);
      if first {
        AtStart(|output|, rg, filled);
        AtTop(rg, thisRowGroup, nextBufRow, nextBufStop, filled);
        buf := PadTop(buf, fake, src, rg, |rows|, height);
      }
      nextBufRow := nextBufRow + |rows|;
      rowsToGo := rowsToGo - |rows|;
    }

    /** The bottom of the image: the last row down to the stop. */
    method PadBottom()
      requires Valid() && rowsToGo == 0 && nextBufRow < nextBufStop
      modifies `buf, `nextBufRow
      ensures Valid() && nextBufRow == nextBufStop
    {
      hide AllWindows, Filled, IsFake;
      buf := ExpandBottomEdge(buf, fake, nextBufRow, nextBufStop, src, rg, thisRowGroup, |output| * rg, Rows(), height,
                              |output| == 0);
      nextBufRow := nextBufStop;
    }

    /** downsample of the current row group, and the step to the next one. */
    method Downsample()
      requires Valid() && nextBufRow == nextBufStop
      modifies `output, `thisRowGroup, `nextBufRow, `nextBufStop
      ensures Valid() && nextBufRow < nextBufStop
      ensures |output| == |old(output)| + 1 && old(output) <= output
    {
      hide Filled, IsFake, AllWindows, Placed, Fake;
      ghost var top, was := |output| * rg, output;
      FilledSize(buf, src, rg, thisRowGroup, top, 0, 2 * rg, height);
      ViewIs(buf, fake, src, rg, thisRowGroup, top, height);
      PlacedShift(rg, thisRowGroup, nextBufRow, nextBufStop, |output| == 0);
      FilledShift(buf, src, rg, thisRowGroup, top, height);
      OneMore(|output| + 1, rg);
      output := output + [View(buf, fake, rg, thisRowGroup)];
      AllNext(was, output, src, rg, height);
      thisRowGroup := thisRowGroup + rg;
      if 3 * rg <= thisRowGroup {
        thisRowGroup := 0;
      }
      if 3 * rg <= nextBufRow {
        nextBufRow := 0;
      }
      nextBufStop := nextBufRow + rg;
    }

    /** pre_process_context: `input` from row `inRow` on, room for row groups up to `avail`. */
    method PreProcessContext(input: seq<Row>, inRow: nat, outGroup: nat, avail: nat)
      returns (inRowCtr: nat, outGroupCtr: nat)
      requires Valid() && nextBufRow < nextBufStop
      requires inRow <= |input| && |input| - inRow <= rowsToGo && outGroup <= avail
      modifies this
      ensures Valid() && nextBufRow < nextBufStop
      ensures inRow <= inRowCtr <= |input| && src == old(src) + input[inRow..inRowCtr]
      ensures outGroup <= outGroupCtr <= avail
      ensures |output| == |old(output)| + outGroupCtr - outGroup && old(output) <= output
      ensures outGroupCtr < avail ==> inRowCtr == |input| && 0 < rowsToGo
    {
      hide Filled, AllWindows, IsFake, Placed;
      inRowCtr, outGroupCtr := inRow, outGroup;
      while outGroupCtr < avail
        invariant Valid() && nextBufRow < nextBufStop
        invariant inRow <= inRowCtr <= |input| && src == old(src) + input[inRow..inRowCtr]
        invariant |input| - inRowCtr <= rowsToGo
        invariant outGroup <= outGroupCtr <= avail
        invariant |output| == |old(output)| + outGroupCtr - outGroup && old(output) <= output
        decreases avail - outGroupCtr, |input| - inRowCtr
      {
        if inRowCtr < |input| {
          var numrows := nextBufStop - nextBufRow;
          if |input| - inRowCtr < numrows {
            numrows := |input| - inRowCtr;
          }
          ConvertRows(input[inRowCtr..inRowCtr + numrows]);
          assert input[inRow..inRowCtr + numrows] == input[inRow..inRowCtr] + input[inRowCtr..inRowCtr + numrows];
          inRowCtr := inRowCtr + numrows;
        } else {
          if rowsToGo != 0 {
            break;
          }
          PadBottom();
        }
        if nextBufRow == nextBufStop {
          Downsample();
          outGroupCtr := outGroupCtr + 1;
        }
      }
    }
  }
}
