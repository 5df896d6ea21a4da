/** The history ledger: the rounds played, most recent first, capped at ten. */
module Ledger {
  import opened Round

  /** One row of the history table. */
  datatype HistoryItem = HistoryItem(
    id: string,
    time: string,
    mode: GuessMode,
    threshold: int,
    result: int,
    win: bool)

  const HistoryLimit: nat := 10

  /** The first n elements of s, or all of s when it is shorter
      (the behaviour of slice(0, n) on an array). */
  function Take<T>(s: seq<T>, n: nat): (r: seq<T>)
    ensures |r| == if |s| <= n then |s| else n
    ensures r == s[..|r|]
  {
    if |s| <= n then s else s[..n]
  }

  /** Prepends a new item and keeps at most HistoryLimit entries. */
  function Record(item: HistoryItem, history: seq<HistoryItem>): (r: seq<HistoryItem>)
    ensures |r| == if |history| < HistoryLimit then |history| + 1 else HistoryLimit
    ensures |r| <= HistoryLimit
    ensures r[0] == item
    ensures r[1..] == history[..|r| - 1]
  {
    Take([item] + history, HistoryLimit)
  }

  /** Cutting the tail before prepending makes no difference to the cut result. */
  lemma TakeAppendTake<T>(a: seq<T>, b: seq<T>, n: nat)
    ensures Take(a + Take(b, n), n) == Take(a + b, n)
  {
    var r1, r2 := Take(a + Take(b, n), n), Take(a + b, n);
    assert |r1| == |r2|;
    forall k | 0 <= k < |r1|
      ensures r1[k] == r2[k]
    {
      if k < |a| {
        assert r1[k] == a[k] == r2[k];
      } else {
        assert r1[k] == Take(b, n)[k - |a|] == b[k - |a|] == r2[k];
      }
    }
  }
}
