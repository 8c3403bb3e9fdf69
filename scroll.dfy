/**
  The scroll bookkeeping of `getChapters` (index.js:97-99, 107, 136-137). The offset
  `currentHeight` starts at 0 and grows by 350 per pass; the loop runs while it is
  below `scrollHeight`, which is read once before the loop and again at the end of
  every pass. The heights are what the browser reports, so they are inputs here:
  `h0` is the first reading and `heights[k]` the reading at the end of pass k + 1.
*/
module Scroll {

  import opened Optional

  /** `scrollIncrement` (index.js:97). */
  const ScrollIncrement: int := 350

  /** The value of `scrollHeight` when the loop test is made for the k-th time (k passes done). */
  function HeightAt(h0: int, heights: seq<int>, k: nat): int
    requires k <= |heights|
  {
    if k == 0 then h0 else heights[k - 1]
  }

  /**
    The number of passes the loop makes when it is entered with k passes already done:
    the least j >= k at which the offset `ScrollIncrement * j` has reached the height
    then read, or None when the supplied readings run out first.
  */
  function PassesFrom(h0: int, heights: seq<int>, k: nat): (r: Option<nat>)
    requires k <= |heights|
    ensures r.Some? ==> k <= r.value <= |heights|
    ensures r.Some? ==> ScrollIncrement * r.value >= HeightAt(h0, heights, r.value)
    ensures r.Some? ==> forall j :: k <= j < r.value ==> ScrollIncrement * j < HeightAt(h0, heights, j)
    ensures r.None? ==> forall j :: k <= j <= |heights| ==> ScrollIncrement * j < HeightAt(h0, heights, j)
    decreases |heights| - k
  {
    if ScrollIncrement * k >= HeightAt(h0, heights, k) then Some(k)
    else if k == |heights| then None
    else PassesFrom(h0, heights, k + 1)
  }

  /** The number of passes of the whole loop, which starts with `currentHeight = 0`. */
  function PassCount(h0: int, heights: seq<int>): Option<nat> {
    PassesFrom(h0, heights, 0)
  }

  /** The body runs zero times exactly when the first height read is at most 0. */
  lemma NoPassIffNonPositive(h0: int, heights: seq<int>)
    ensures PassCount(h0, heights) == Some(0) <==> h0 <= 0
  {
  }

  /**
    When the page height stays at H >= 0, the loop makes ceil(H / 350) passes, provided
    the browser is observed that many times.
  */
  lemma ConstantHeightPasses(h: int, heights: seq<int>)
    requires h >= 0
    requires forall i :: 0 <= i < |heights| ==> heights[i] == h
    ensures PassCount(h, heights) ==
              if (h + ScrollIncrement - 1) / ScrollIncrement <= |heights|
              then Some((h + ScrollIncrement - 1) / ScrollIncrement)
              else None
  {
    ConstantHeightFrom(h, heights, 0);
  }

  lemma {:induction false} ConstantHeightFrom(h: int, heights: seq<int>, k: nat)
    requires h >= 0
    requires forall i :: 0 <= i < |heights| ==> heights[i] == h
    requires k <= |heights| && k <= (h + ScrollIncrement - 1) / ScrollIncrement
    ensures PassesFrom(h, heights, k) ==
              if (h + ScrollIncrement - 1) / ScrollIncrement <= |heights|
              then Some((h + ScrollIncrement - 1) / ScrollIncrement)
              else None
    decreases |heights| - k
  {
    var n := (h + ScrollIncrement - 1) / ScrollIncrement;
    assert HeightAt(h, heights, k) == h;
    if k < n {
      assert ScrollIncrement * k <= ScrollIncrement * (n - 1) < h;
      if k < |heights| {
        ConstantHeightFrom(h, heights, k + 1);
      }
    }
  }

}
