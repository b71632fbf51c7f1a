/** The blocks of a scan as the coefficient controller passes them: every MCU has arrays of
    its own. */
module ScanArrays {
  import opened Coefficients
  import opened RestartGroups

  /** The MCUs of a scan, each with arrays of its own; `all` has them all. */
  ghost predicate Apart(data: seq<seq<array<int>>>, all: set<array<int>>)
  {
    && (forall i :: 0 <= i < |data| ==> Blocks(data[i]))
    && (forall i, a :: 0 <= i < |data| && a in data[i] ==> a in all)
    && forall i, j, a :: 0 <= i < |data| && 0 <= j < |data| && i != j && a in data[i] ==> a !in data[j]
  }

  lemma ApartMeans(data: seq<seq<array<int>>>, all: set<array<int>>)
    requires Apart(data, all)
    ensures forall i :: 0 <= i < |data| ==> Blocks(data[i])
    ensures forall i, a :: 0 <= i < |data| && a in data[i] ==> a in all
    ensures forall i, j, a :: 0 <= i < |data| && 0 <= j < |data| && i != j && a in data[i] ==> a !in data[j]
  {
  }

  /** What the arrays hold. */
  ghost predicate Hold(order: seq<nat>, data: seq<seq<array<int>>>, all: set<array<int>>, held: seq<seq<Zigzag>>)
    requires IsOrder(order) && Apart(data, all)
    reads all
  {
    |held| == |data| && forall i :: 0 <= i < |data| ==> AllHeld(order, data[i]) == held[i]
  }

  lemma HoldMeans(order: seq<nat>, data: seq<seq<array<int>>>, all: set<array<int>>, held: seq<seq<Zigzag>>)
    requires IsOrder(order) && Apart(data, all) && |held| == |data|
    ensures Hold(order, data, all, held) <==> forall i :: 0 <= i < |data| ==> AllHeld(order, data[i]) == held[i]
  {
  }

  lemma HoldSizes(order: seq<nat>, data: seq<seq<array<int>>>, all: set<array<int>>, held: seq<seq<Zigzag>>)
    requires IsOrder(order) && Apart(data, all) && Hold(order, data, all, held)
    ensures |held| == |data| && forall i :: 0 <= i < |data| ==> |held[i]| == |data[i]|
  {
    hide IsOrder;
  }

  /** The MCUs of a scan as an encoder takes them. */
  ghost predicate Sendable(membership: seq<nat>, mcus: seq<seq<Zigzag>>)
  {
    forall i :: 0 <= i < |mcus| ==>
      |mcus[i]| == |membership| && forall b :: 0 <= b < |mcus[i]| ==> IsJcoef(mcus[i][b])
  }

  lemma SendableMeans(membership: seq<nat>, mcus: seq<seq<Zigzag>>)
    requires Sendable(membership, mcus)
    ensures forall i :: 0 <= i < |mcus| ==> |mcus[i]| == |membership|
    ensures forall i, b :: 0 <= i < |mcus| && 0 <= b < |mcus[i]| ==> IsJcoef(mcus[i][b])
  {
  }

  lemma SplitAt<T>(s: seq<T>, i: nat)
    requires i < |s|
    ensures s[..i] + [s[i]] + s[i + 1..] == s && s[..i + 1] == s[..i] + [s[i]]
  {
  }

  lemma ConcatNone<T>()
    ensures Concat<T>([]) == []
  {
  }
}
