/**
 * The dashboard's summary of the caller's links (`calculateStats`): how
 * many there are, the views they have served, and how many have not
 * expired yet.
 */
module Dashboard {
  import opened Wrappers
  import opened UploadModel

  /** One listed link as the page reads it: a field the JSON lacks is
      `None` (an absent counter reads as 0, an absent date as an invalid
      date, which is never later than now). */
  datatype Item = Item(currentDownloads: Option<int>, expiresAt: Option<int>)

  function FromRecord(v: PublicRecord): Item {
    Item(Some(v.currentDownloads), Some(v.expiresAt))
  }

  /** `curr.currentDownloads || 0`. */
  function ViewsOf(it: Item): int {
    if it.currentDownloads.Some? then it.currentDownloads.value else 0
  }

  /** `new Date(item.expiresAt) > new Date()`. */
  predicate IsActive(it: Item, now: int) {
    it.expiresAt.Some? && it.expiresAt.value > now
  }

  /** The `reduce`, left to right. */
  function ViewSum(items: seq<Item>): int {
    if |items| == 0 then 0 else ViewSum(items[..|items| - 1]) + ViewsOf(items[|items| - 1])
  }

  /** The `filter`. */
  function ActiveItems(items: seq<Item>, now: int): (r: seq<Item>)
    ensures |r| <= |items|
    ensures forall it :: it in r <==> it in items && IsActive(it, now)
    ensures forall it :: multiset(r)[it] == if IsActive(it, now) then multiset(items)[it] else 0
  {
    if |items| == 0 then []
    else
      var rest := ActiveItems(items[..|items| - 1], now);
      var last := items[|items| - 1];
      assert items == items[..|items| - 1] + [last];
      assert multiset(items) == multiset(items[..|items| - 1]) + multiset{last};
      if IsActive(last, now) then rest + [last] else rest
  }

  datatype Stats = Stats(totalFiles: nat, totalViews: int, activeLinks: nat)

  method CalculateStats(items: seq<Item>, now: int) returns (s: Stats)
    ensures s.totalFiles == |items|
    ensures s.totalViews == ViewSum(items)
    ensures s.activeLinks == |ActiveItems(items, now)| <= s.totalFiles
  {
    var views := 0;
    var active := 0;
    var i := 0;
    while i < |items|
      invariant 0 <= i <= |items|
      invariant views == ViewSum(items[..i])
      invariant active == |ActiveItems(items[..i], now)|
    {
      assert items[..i + 1][..i] == items[..i];
      views := views + ViewsOf(items[i]);
      if IsActive(items[i], now) {
        active := active + 1;
      }
      i := i + 1;
    }
    assert items[..i] == items;
    s := Stats(|items|, views, active);
  }

  /** Non-negative counters give a non-negative total, and the total is
      at least any single link's views. */
  lemma {:induction false} ViewSumBounds(items: seq<Item>)
    requires forall k | 0 <= k < |items| :: ViewsOf(items[k]) >= 0
    ensures ViewSum(items) >= 0
    ensures forall k | 0 <= k < |items| :: ViewSum(items) >= ViewsOf(items[k])
  {
    if |items| > 0 {
      var init := items[..|items| - 1];
      ViewSumBounds(init);
      assert forall k | 0 <= k < |init| :: items[k] == init[k];
    }
  }

  /** The totals of a listing: counters are never negative in a
      well-formed store, so the dashboard never shows a negative total;
      and every listed link counts its views in full. */
  lemma ListingStats(views: seq<PublicRecord>)
    requires forall k | 0 <= k < |views| :: views[k].currentDownloads >= 0
    ensures var items := seq(|views|, k requires 0 <= k < |views| => FromRecord(views[k]));
      && ViewSum(items) >= 0
      && forall k | 0 <= k < |views| :: ViewSum(items) >= views[k].currentDownloads
  {
    var items := seq(|views|, k requires 0 <= k < |views| => FromRecord(views[k]));
    assert forall k | 0 <= k < |items| :: ViewsOf(items[k]) == views[k].currentDownloads;
    ViewSumBounds(items);
  }

  /** The summary of two lists together is the sum of their summaries. */
  lemma {:induction false} ViewSumAppend(a: seq<Item>, b: seq<Item>)
    ensures ViewSum(a + b) == ViewSum(a) + ViewSum(b)
    decreases |b|
  {
    if |b| > 0 {
      var b' := b[..|b| - 1];
      assert (a + b)[..|a + b| - 1] == a + b';
      ViewSumAppend(a, b');
    } else {
      assert a + b == a;
    }
  }
}
