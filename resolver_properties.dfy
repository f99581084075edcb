/** What the resolver of the balance route finds, proved about `Search`, the
    height its loop settles on. */
module ResolverProperties {
  import opened Wrappers
  import opened ChainReader
  import opened BlockSearch

  /** Timestamps that never go down as the height grows. */
  ghost predicate Sorted(times: seq<int>)
  {
    forall i, j :: 0 <= i <= j < |times| ==> times[i] <= times[j]
  }

  /** A node that has every block from 0 to `|times| - 1`, with these timestamps.
      The ensures restate the comprehension; they hand its length and elements
      to the lemmas below. */
  function Complete(times: seq<int>): (blocks: seq<Option<int>>)
    ensures |blocks| == |times|
    ensures forall h :: 0 <= h < |times| ==> blocks[h] == Some(times[h])
  {
    seq(|times|, h requires 0 <= h < |times| => Some(times[h]))
  }

  /** What the resolver should settle on for a complete chain with timestamps
      `times`: a height not later than `ts`, with every higher block no
      earlier than `ts`, strictly later unless `h` hits `ts` exactly, and
      hitting `ts` exactly whenever some block does. */
  ghost predicate SettledCorrectly(times: seq<int>, ts: int, h: nat)
  {
    h < |times| && times[h] <= ts &&
    (forall g :: h < g < |times| ==> ts <= times[g]) &&
    (times[h] != ts ==> forall g :: h < g < |times| ==> ts < times[g]) &&
    ((exists g :: 0 <= g < |times| && times[g] == ts) ==> times[h] == ts)
  }

  /** A block stamped exactly `ts` is a correct place to settle. */
  lemma SettledAtExactMatch(times: seq<int>, ts: int, h: nat)
    requires Sorted(times) && h < |times| && times[h] == ts
    ensures SettledCorrectly(times, ts, h)
  {
  }

  /** The last block earlier than `ts`, followed only by later ones, is a
      correct place to settle: then no block is stamped `ts`. */
  lemma SettledAtGap(times: seq<int>, ts: int, h: nat)
    requires h < |times| && times[h] < ts
    requires forall g :: 0 <= g <= h ==> times[g] < ts
    requires forall g :: h < g < |times| ==> ts < times[g]
    ensures SettledCorrectly(times, ts, h)
  {
  }

  /** A block earlier than `ts` makes every lower block earlier too. */
  lemma EarlierUpTo(times: seq<int>, ts: int, mid: nat)
    requires Sorted(times) && mid < |times| && times[mid] < ts
    ensures forall g :: 0 <= g <= mid ==> times[g] < ts
  {
  }

  /** A block later than `ts` makes every higher block later too. */
  lemma LaterFrom(times: seq<int>, ts: int, mid: nat)
    requires Sorted(times) && mid < |times| && ts < times[mid]
    ensures forall g :: mid <= g < |times| ==> ts < times[g]
  {
  }

  /** One iteration of the resolver on a complete chain, where the probed
      block is always present. */
  lemma StepOnComplete(times: seq<int>, ts: int, left: nat, right: int, best: nat)
    requires left <= right < |times|
    ensures var mid := Midpoint(left, right); var blocks := Complete(times);
      Search(blocks, ts, left, right, best) ==
        if times[mid] < ts then Search(blocks, ts, mid + 1, right, mid)
        else if ts < times[mid] then Search(blocks, ts, left, mid - 1, best)
        else mid
  {
    SearchStep(Complete(times), ts, left, right, best);
  }

  /** The loop invariant of the resolver on a complete chain with sorted
      timestamps: every height below `left` is earlier than `ts`, every height
      above `right` is later, and `best` is the height just below `left`. */
  lemma {:induction false} SearchOnSortedChain(times: seq<int>, ts: int, left: nat, right: int, best: nat)
    requires Sorted(times) && |times| > 0 && times[0] <= ts
    requires left <= right + 1 <= |times|
    requires best < |times| && (left > 0 ==> best == left - 1)
    requires forall g :: 0 <= g < left ==> times[g] < ts
    requires forall g :: right < g < |times| ==> ts < times[g]
    ensures SettledCorrectly(times, ts, Search(Complete(times), ts, left, right, best))
    decreases right - left + 1
  {
    var blocks := Complete(times);
    if left <= right {
      var mid: nat := Midpoint(left, right);
      StepOnComplete(times, ts, left, right, best);
      if times[mid] < ts {
        EarlierUpTo(times, ts, mid);
        SearchOnSortedChain(times, ts, mid + 1, right, mid);
      } else if ts < times[mid] {
        LaterFrom(times, ts, mid);
        SearchOnSortedChain(times, ts, left, mid - 1, best);
      } else {
        SettledAtExactMatch(times, ts, mid);
      }
    } else {
      assert 0 <= right && best == right;
      SettledAtGap(times, ts, best);
    }
  }

  /** On a complete chain whose timestamps never go down, and a target no
      earlier than the genesis block, the resolved height `h` is not later
      than `ts`, every higher block is no earlier than `ts`, `h` hits `ts`
      exactly if and only if some block does, and when none does `h` is the
      greatest height not later than `ts`. */
  lemma ResolveOnSortedChain(times: seq<int>, ts: int)
    requires Sorted(times) && |times| > 0 && times[0] <= ts
    ensures var latest := |times| - 1;
      var h := Search(Complete(times), ts, 0, latest, latest);
      h <= latest && times[h] <= ts &&
      (forall g :: h < g <= latest ==> ts <= times[g]) &&
      ((exists g :: 0 <= g <= latest && times[g] == ts) <==> times[h] == ts) &&
      (times[h] != ts ==> forall g :: h < g <= latest ==> ts < times[g])
  {
    SearchOnSortedChain(times, ts, 0, |times| - 1, |times| - 1);
  }

  /** When no block the search can look at is present and not later than
      `ts`, the resolver never moves off its starting `best`. */
  lemma {:induction false} NothingEarlierKeepsFallback(blocks: seq<Option<int>>, ts: int, left: nat, right: int, best: nat)
    requires forall g: nat :: left <= g <= right ==> BlockAt(blocks, g).None? || ts < BlockAt(blocks, g).value
    ensures Search(blocks, ts, left, right, best) == best
    decreases right - left + 1
  {
    if left <= right {
      var mid: nat := Midpoint(left, right);
      NothingEarlierKeepsFallback(blocks, ts, left, mid - 1, best);
    }
  }

  /** A target before the genesis block resolves to the latest height, not to
      height 0: the fallback `blockNumber = latestBlock` is never replaced. */
  lemma BeforeGenesisResolvesToLatest(times: seq<int>, ts: int)
    requires Sorted(times) && |times| > 0 && ts < times[0]
    ensures Search(Complete(times), ts, 0, |times| - 1, |times| - 1) == |times| - 1
  {
    var blocks := Complete(times);
    forall g: nat | 0 <= g <= |times| - 1
      ensures BlockAt(blocks, g).None? || ts < BlockAt(blocks, g).value
    {
      assert times[0] <= times[g];
    }
    NothingEarlierKeepsFallback(blocks, ts, 0, |times| - 1, |times| - 1);
  }

  /** A target after the newest block resolves to the latest height. */
  lemma AfterTipResolvesToLatest(times: seq<int>, ts: int)
    requires Sorted(times) && |times| > 0 && times[|times| - 1] < ts
    ensures Search(Complete(times), ts, 0, |times| - 1, |times| - 1) == |times| - 1
  {
    assert times[0] <= times[|times| - 1];
    ResolveOnSortedChain(times, ts);
  }

  /** Among blocks that share the target timestamp the resolver returns the one
      its probes reach first: here the middle one, neither the lowest nor the
      highest height stamped `ts`. */
  lemma TieResolvesToFirstProbed()
    ensures var times := [10, 20, 20, 20, 20];
      Sorted(times) &&
      Search(Complete(times), 20, 0, 4, 4) == 2 &&
      times[1] == 20 && times[4] == 20
  {
  }

  /** A missing block is not an error: the search drops everything from it
      upwards and settles below it, here on height 0 although height 2 is
      present and earlier than the target. */
  lemma MissingBlockHidesLaterBlocks()
    ensures var blocks := [Some(1), None, Some(3)];
      Search(blocks, 5, 0, 2, 2) == 0 &&
      BlockAt(blocks, 2) == Some(3) && 3 <= 5
  {
  }
}
