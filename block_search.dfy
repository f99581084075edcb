/** The specification of the historical block resolver of the balance route:
    the height its binary search over 0..latestBlock settles on for the target
    `ts`, and how many blocks it fetches on the way. */
module BlockSearch {
  import opened Wrappers
  import opened ChainReader

  /** `(left + right) / 2` on the non-negative heights of the search: a height
      inside the range that splits the rest of it into two halves. */
  function Midpoint(left: nat, right: int): (mid: nat)
    requires left <= right
    ensures left <= mid <= right
    ensures 2 * (mid - left) <= right - left + 1 && 2 * (right - mid) <= right - left + 1
  {
    (left + right) / 2
  }

  /** The height the resolver settles on when its loop is entered with the
      bounds `left`..`right` and `best` as the height found so far. */
  function Search(blocks: seq<Option<int>>, ts: int, left: nat, right: int, best: nat): nat
    decreases right - left + 1
  {
    if left > right then best
    else
      var mid: nat := Midpoint(left, right);
      var block := BlockAt(blocks, mid);
      if block.None? then Search(blocks, ts, left, mid - 1, best)
      else if block.value == ts then mid
      else if block.value < ts then Search(blocks, ts, mid + 1, right, mid)
      else Search(blocks, ts, left, mid - 1, best)
  }

  /** The search settles either on `best`, untouched, or on a height inside
      the bounds whose block is present and not later than `ts`. */
  lemma {:induction false} SearchSettles(blocks: seq<Option<int>>, ts: int, left: nat, right: int, best: nat)
    ensures var h := Search(blocks, ts, left, right, best);
      h == best || (left <= h <= right && BlockAt(blocks, h).Some? && BlockAt(blocks, h).value <= ts)
    decreases right - left + 1
  {
    if left <= right {
      var mid: nat := Midpoint(left, right);
      var block := BlockAt(blocks, mid);
      if block.None? || ts < block.value {
        SearchSettles(blocks, ts, left, mid - 1, best);
      } else if block.value < ts {
        SearchSettles(blocks, ts, mid + 1, right, mid);
      }
    }
  }

  /** One iteration of the resolver loop, as it changes the height the search
      settles on. */
  lemma SearchStep(blocks: seq<Option<int>>, ts: int, left: nat, right: int, best: nat)
    requires left <= right
    ensures var mid := Midpoint(left, right); var block := BlockAt(blocks, mid);
      Search(blocks, ts, left, right, best) ==
        if block.None? || ts < block.value then Search(blocks, ts, left, mid - 1, best)
        else if block.value == ts then mid
        else Search(blocks, ts, mid + 1, right, mid)
  {
  }

  /** Number of binary digits of `n`: the most probes a halving search over
      `n` heights can make. */
  function BitLength(n: nat): nat
  {
    if n == 0 then 0 else 1 + BitLength(n / 2)
  }

  /** Halving a non-empty range uses up one binary digit of its size. */
  lemma HalvingDropsADigit(size: nat, halved: nat)
    requires 1 <= size && 2 * halved <= size
    ensures 1 + BitLength(halved) <= BitLength(size)
  {
  }

  /** The number of `getBlock` round trips the resolver makes from the bounds
      `left`..`right` on: one per iteration of its loop. */
  function Probes(blocks: seq<Option<int>>, ts: int, left: nat, right: int): nat
    decreases right - left + 1
  {
    if left > right then 0
    else
      var mid: nat := Midpoint(left, right);
      var block := BlockAt(blocks, mid);
      if block.None? then 1 + Probes(blocks, ts, left, mid - 1)
      else if block.value == ts then 1
      else if block.value < ts then 1 + Probes(blocks, ts, mid + 1, right)
      else 1 + Probes(blocks, ts, left, mid - 1)
  }

  /** The resolver makes at most as many round trips as the range it searches
      has binary digits: logarithmically many in the chain's height. */
  lemma {:induction false} ProbesLogarithmic(blocks: seq<Option<int>>, ts: int, left: nat, right: int)
    requires left <= right + 1
    ensures Probes(blocks, ts, left, right) <= BitLength(right - left + 1)
    decreases right - left + 1
  {
    if left <= right {
      var size := right - left + 1;
      assert BitLength(size) == 1 + BitLength(size / 2);
      var mid: nat := Midpoint(left, right);
      var block := BlockAt(blocks, mid);
      var total := Probes(blocks, ts, left, right);
      if block.None? || ts < block.value {
        var rest := Probes(blocks, ts, left, mid - 1);
        assert total == 1 + rest;
        ProbesLogarithmic(blocks, ts, left, mid - 1);
        HalvingDropsADigit(size, (mid - 1) - left + 1);
      } else if block.value == ts {
        assert total == 1;
        HalvingDropsADigit(size, 0);
      } else {
        var rest := Probes(blocks, ts, mid + 1, right);
        assert total == 1 + rest;
        ProbesLogarithmic(blocks, ts, mid + 1, right);
        HalvingDropsADigit(size, right - (mid + 1) + 1);
      }
    }
  }
}
