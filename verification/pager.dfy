/** The raw-data pager (`display_panda`): while the user answers `yes` (in
    any case) the next five rows are shown and the position advances by five;
    any other answer stops it. */
module Pager {
  import opened PyText
  import opened Loading

  const PageSize: nat := 5

  function Min(a: int, b: int): int { if a <= b then a else b }

  /** `df[i:i+5]`: the rows at positions i..i+4 that exist. */
  function Window(rows: seq<Row>, i: nat): (w: seq<Row>)
    ensures |w| == Min(PageSize, |rows| - i) || (i >= |rows| && w == [])
    ensures forall j :: 0 <= j < |w| ==> i + j < |rows| && w[j] == rows[i + j]
  {
    rows[Min(i, |rows|)..Min(i + PageSize, |rows|)]
  }

  /** The pages shown, one after the other. */
  function Flatten(pages: seq<seq<Row>>): seq<Row>
  {
    if pages == [] then [] else Flatten(pages[..|pages| - 1]) + pages[|pages| - 1]
  }

  /** Showing the first n windows shows the table's first 5n rows (or all
      of it), each once and in order: no row is skipped or repeated. */
  lemma {:induction false} PagesCoverPrefix(rows: seq<Row>, pages: seq<seq<Row>>)
    requires forall k :: 0 <= k < |pages| ==> pages[k] == Window(rows, PageSize * k)
    ensures Flatten(pages) == rows[..Min(PageSize * |pages|, |rows|)]
  {
    if pages != [] {
      var n := |pages| - 1;
      assert forall k :: 0 <= k < n ==> pages[..n][k] == pages[k];
      PagesCoverPrefix(rows, pages[..n]);
      var lo, hi := Min(PageSize * n, |rows|), Min(PageSize * n + PageSize, |rows|);
      assert PageSize * |pages| == PageSize * n + PageSize;
      assert pages[n] == rows[lo..hi];
      assert rows[..lo] + rows[lo..hi] == rows[..hi];
    }
  }

  /** `display_panda` over a finite stream of answers. It returns the pages
      shown, how many answers it read, and whether it stopped on an answer
      other than `yes` (otherwise the answers ran out). */
  method DisplayPages(rows: seq<Row>, answers: seq<string>)
    returns (pages: seq<seq<Row>>, used: nat, declined: bool)
    ensures |pages| <= used <= |answers|
    ensures forall k :: 0 <= k < |pages| ==> pages[k] == Window(rows, PageSize * k)
    ensures forall k :: 0 <= k < |pages| ==> EqualFold(answers[k], "yes")
    ensures declined ==> used == |pages| + 1 && !EqualFold(answers[|pages|], "yes")
    ensures !declined ==> used == |pages| == |answers|
  {
    var i: nat := 0;
    pages, used, declined := [], 0, false;
    while used < |answers|
      invariant used == |pages| <= |answers|
      invariant i == PageSize * |pages|
      invariant forall k :: 0 <= k < |pages| ==> pages[k] == Window(rows, PageSize * k)
      invariant forall k :: 0 <= k < |pages| ==> EqualFold(answers[k], "yes")
    {
      var display := answers[used];
      LowerIsWord(display, "yes");
      used := used + 1;
      if Lower(display) != "yes" {
        declined := true;
        return;
      }
      pages := pages + [Window(rows, i)];
      i := i + PageSize;
    }
  }
}
