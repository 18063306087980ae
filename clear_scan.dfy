/**
 The bottom-up scan of `clearLines`, as a relation between the original grid
 and the rows part-way through the scan, with one lemma per step of the scan.
 */

module ClearScan {
  import opened Board

  /**
   The scan of `clearLines` has handled the original rows q.. (k of them were
   full): their emptied full rows are on top, the rows above q are untouched,
   and the kept rows of q.. are at the bottom.
   */
  ghost predicate Scanned(g: Grid, q: nat, k: nat, grid: Grid)
  {
    q <= |g| && k == |FullRows(g[q..])| && grid == Blanked(FullRows(g[q..])) + g[..q] + NonFullRows(g[q..])
  }

  /**
   The scan is at index y: while original rows remain, y is the lowest of
   them (row q-1); afterwards y only meets the emptied rows on top.
   */
  ghost predicate Scanning(g: Grid, q: nat, k: nat, rows: Grid, y: int)
  {
    && Scanned(g, q, k, rows)
    && (q > 0 ==> y == k + q - 1)
    && (q == 0 ==> -1 <= y < k)
  }

  /** Before the scan nothing is handled. */
  lemma ScanStart(g: Grid)
    ensures Scanning(g, |g|, 0, g, |g| - 1)
  {
    assert g[|g|..] == [] && g[..|g|] == g;
  }

  /** After the scan the grid is the cleared grid and k counts the full rows. */
  lemma ScanDone(g: Grid, k: nat, grid: Grid)
    requires Scanned(g, 0, k, grid)
    ensures k == |FullRows(g)| && grid == Cleared(g)
  {
    assert g[..0] == [] && g[0..] == g;
  }

  /** The row under the scan: original row q-1 while one remains, else an emptied row, which is not full. */
  lemma ScanView(g: Grid, q: nat, k: nat, rows: Grid, y: int)
    requires forall r :: 0 <= r < |g| ==> |g[r]| > 0
    requires Scanning(g, q, k, rows, y) && y >= 0
    ensures y < |rows|
    ensures q > 0 ==> rows[y] == g[q - 1]
    ensures q == 0 ==> !Full(rows[y])
  {
    if q == 0 {
      assert g[0..] == g;
      PartitionFromGrid(g);
      assert rows[y] == Blank(FullRows(g)[y]);
      assert FullRows(g)[y] in g;
      assert rows[y][0] == 0;
    }
  }

  /** A full original row q-1 is cut out, emptied and put on top; the index is examined again. */
  lemma ScanFull(g: Grid, q: nat, k: nat, rows: Grid, y: int)
    requires Scanning(g, q, k, rows, y) && 0 <= y < |rows|
    requires q > 0 ==> rows[y] == g[q - 1]
    requires q == 0 ==> !Full(rows[y])
    requires Full(rows[y])
    ensures q > 0
    ensures Scanning(g, q - 1, k + 1, [Blank(rows[y])] + rows[..y] + rows[y + 1..], y)
  {
    assert g[q - 1..][1..] == g[q..];
    assert FullRows(g[q - 1..]) == [g[q - 1]] + FullRows(g[q..]);
    assert NonFullRows(g[q - 1..]) == NonFullRows(g[q..]);
    var b := Blanked(FullRows(g[q..]));
    assert Blanked(FullRows(g[q - 1..])) == [Blank(g[q - 1])] + b;
    assert g[..q] == g[..q - 1] + [g[q - 1]];
    assert rows[..y] == b + g[..q - 1];
    assert rows[y + 1..] == NonFullRows(g[q..]);
  }

  /** An original row that is not full stays where it is and the scan moves up. */
  lemma ScanKeep(g: Grid, q: nat, k: nat, rows: Grid, y: int)
    requires 0 < q && Scanning(g, q, k, rows, y)
    requires !Full(g[q - 1])
    ensures Scanning(g, q - 1, k, rows, y - 1)
  {
    assert g[q - 1..][1..] == g[q..];
    assert FullRows(g[q - 1..]) == FullRows(g[q..]);
    assert NonFullRows(g[q - 1..]) == [g[q - 1]] + NonFullRows(g[q..]);
    assert g[..q] == g[..q - 1] + [g[q - 1]];
  }
}
