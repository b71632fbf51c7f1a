/** Rows beyond the edges of an image, in both directions of coding. */
module ImageEdges {
  /** The image row that stands for row `k`: beyond an edge the row at the edge is repeated. */
  function Clamp(k: int, height: nat): (i: int)
    requires 0 < height
    ensures 0 <= i < height && (0 <= k < height ==> i == k)
  {
    if k < 0 then 0 else if k < height then k else height - 1
  }

  lemma OneMore(n: nat, rows: nat)
    requires 0 < n
    ensures n * rows == (n - 1) * rows + rows
  {
  }
}
