/**
 The packer's arithmetic: cutting a queue of lengths into consecutive segments
 of bounded total size, as many as possible at a time.
 */
module Packing {

  const MAX_PAYLOAD := 1300

  function Sum(lens: seq<nat>): nat {
    if lens == [] then 0 else lens[0] + Sum(lens[1..])
  }

  lemma {:induction false} SumConcat(a: seq<nat>, b: seq<nat>)
    ensures Sum(a + b) == Sum(a) + Sum(b)
  {
    if a == [] {
      assert a + b == b;
    } else {
      SumConcat(a[1..], b);
      assert (a + b)[1..] == a[1..] + b;
    }
  }

  lemma SumPrefixMonotone(lens: seq<nat>, m: nat, n: nat)
    requires m <= n <= |lens|
    ensures Sum(lens[..m]) <= Sum(lens[..n])
  {
    assert lens[..n] == lens[..m] + lens[m..n];
    SumConcat(lens[..m], lens[m..n]);
  }

  /** How many of the first lengths fit the budget together. */
  function FitCount(lens: seq<nat>, budget: nat): (n: nat)
    ensures n <= |lens|
  {
    if lens == [] || lens[0] > budget then 0 else 1 + FitCount(lens[1..], budget - lens[0])
  }

  /** A prefix fits exactly when it is no longer than the greedy one. */
  lemma {:induction false} FitCountIsLargest(lens: seq<nat>, budget: nat, m: nat)
    requires m <= |lens|
    ensures m <= FitCount(lens, budget) <==> Sum(lens[..m]) <= budget
  {
    if m > 0 {
      assert lens[..m][1..] == lens[1..][..m - 1];
      if lens[0] <= budget {
        FitCountIsLargest(lens[1..], budget - lens[0], m - 1);
      }
    }
  }

  function Flatten<T>(segments: seq<seq<T>>): seq<T> {
    if segments == [] then [] else segments[0] + Flatten(segments[1..])
  }

  lemma {:induction false} FlattenSnoc<T>(segments: seq<seq<T>>, last: seq<T>)
    ensures Flatten(segments + [last]) == Flatten(segments) + last
  {
    if segments == [] {
      assert [last][1..] == [] && segments + [last] == [last];
      assert last + [] == last;
    } else {
      FlattenSnoc(segments[1..], last);
      assert (segments + [last])[1..] == segments[1..] + [last];
    }
  }

  /** The packer's segments; it stops early at a length that fits no segment. */
  function Greedy(lens: seq<nat>): (segments: seq<seq<nat>>)
    decreases |lens|
  {
    var n := FitCount(lens, MAX_PAYLOAD);
    if n == 0 then [] else [lens[..n]] + Greedy(lens[n..])
  }

  predicate AllFit(lens: seq<nat>) {
    forall i :: 0 <= i < |lens| ==> lens[i] <= MAX_PAYLOAD
  }

  /** `segments` divides `lens` in order, no segment above the limit. */
  predicate Divides(lens: seq<nat>, segments: seq<seq<nat>>) {
    Flatten(segments) == lens && forall i :: 0 <= i < |segments| ==> Sum(segments[i]) <= MAX_PAYLOAD
  }

  lemma DividesTail(lens: seq<nat>, segments: seq<seq<nat>>)
    requires Divides(lens, segments) && segments != []
    ensures var n := |segments[0]|;
            && n <= |lens| && lens[..n] == segments[0] && Sum(lens[..n]) <= MAX_PAYLOAD
            && Divides(lens[n..], segments[1..])
  {
  }

  lemma {:induction false} PartsOfFittingFit(lens: seq<nat>)
    requires Sum(lens) <= MAX_PAYLOAD
    ensures AllFit(lens)
  {
    if lens != [] {
      PartsOfFittingFit(lens[1..]);
      assert lens == [lens[0]] + lens[1..];
    }
  }

  lemma {:induction false} DividedFits(lens: seq<nat>, segments: seq<seq<nat>>)
    requires Divides(lens, segments)
    ensures AllFit(lens)
    decreases |segments|
  {
    if segments != [] {
      DividesTail(lens, segments);
      PartsOfFittingFit(segments[0]);
      DividedFits(lens[|segments[0]|..], segments[1..]);
      assert lens == segments[0] + lens[|segments[0]|..];
    }
  }

  /** The packer gets through a queue exactly when every length fits on its own. */
  lemma {:induction false} GreedyDivides(lens: seq<nat>)
    ensures Divides(lens, Greedy(lens)) <==> AllFit(lens)
    decreases |lens|
  {
    if Divides(lens, Greedy(lens)) {
      DividedFits(lens, Greedy(lens));
    }
    var n := FitCount(lens, MAX_PAYLOAD);
    if n > 0 && AllFit(lens) {
      FitCountIsLargest(lens, MAX_PAYLOAD, n);
      GreedyDivides(lens[n..]);
      assert lens == lens[..n] + lens[n..];
    }
  }

  lemma FirstFits(lens: seq<nat>)
    requires lens != [] && AllFit(lens)
    ensures 0 < FitCount(lens, MAX_PAYLOAD)
  {
  }

  /** Starting later never needs more segments. */
  lemma {:induction false} GreedyStaysAhead(lens: seq<nat>, j: nat)
    requires AllFit(lens) && j <= |lens|
    ensures |Greedy(lens[j..])| <= |Greedy(lens)|
    decreases |lens|
  {
    hide FitCount, Sum;
    var n := FitCount(lens, MAX_PAYLOAD);
    if lens == [] {
      return;
    }
    FirstFits(lens);
    if j >= n {
      assert lens[j..] == lens[n..][j - n..];
      GreedyStaysAhead(lens[n..], j - n);
    } else {
      var later := lens[j..];
      var m := FitCount(later, MAX_PAYLOAD);
      FirstFits(later);
      FitCountIsLargest(lens, MAX_PAYLOAD, n);
      assert lens[..n] == lens[..j] + later[..n - j];
      SumConcat(lens[..j], later[..n - j]);
      FitCountIsLargest(later, MAX_PAYLOAD, n - j);
      assert later[m..] == lens[n..][m + j - n..];
      GreedyStaysAhead(lens[n..], m + j - n);
    }
  }

  /** No division into bounded consecutive segments has fewer of them than the packer's. */
  lemma {:induction false} GreedyIsOptimal(lens: seq<nat>, segments: seq<seq<nat>>)
    requires Divides(lens, segments)
    ensures Divides(lens, Greedy(lens)) && |Greedy(lens)| <= |segments|
    decreases |segments|
  {
    DividedFits(lens, segments);
    GreedyDivides(lens);
    if segments != [] && lens != [] {
      DividesTail(lens, segments);
      var m, n := |segments[0]|, FitCount(lens, MAX_PAYLOAD);
      FitCountIsLargest(lens, MAX_PAYLOAD, m);
      GreedyIsOptimal(lens[m..], segments[1..]);
      assert lens[n..] == lens[m..][n - m..];
      GreedyStaysAhead(lens[m..], n - m);
    }
  }

  /** Any two neighbouring segments together exceed the limit: none could have been merged. */
  lemma {:induction false} NeighboursExceed(lens: seq<nat>, i: nat)
    requires i + 1 < |Greedy(lens)|
    ensures Sum(Greedy(lens)[i]) + Sum(Greedy(lens)[i + 1]) > 1300
    decreases |lens|
  {
    var n := FitCount(lens, MAX_PAYLOAD);
    var rest := lens[n..];
    if i == 0 {
      var m := FitCount(rest, MAX_PAYLOAD);
      FitCountIsLargest(lens, MAX_PAYLOAD, n + 1);
      SumPrefixMonotone(lens, n + 1, n + m);
      assert lens[..n + m] == lens[..n] + rest[..m];
      SumConcat(lens[..n], rest[..m]);
    } else {
      NeighboursExceed(rest, i - 1);
    }
  }
}
