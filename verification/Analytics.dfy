// The summary counts of internal/services/analytics_service.go: a histogram per item, responses per day.
module Analytics {
  import opened Survey
  import opened Listing
  import opened WideTable
  import opened Filtering

  // ----- counting -----

  predicate Distinct<K(==)>(keys: seq<K>) {
    forall i, j :: 0 <= i < j < |keys| ==> keys[i] != keys[j]
  }

  // How often each key stands in xs, added up over the keys.
  function CountsOf<K(==)>(xs: seq<K>, keys: seq<K>): nat {
    if keys == [] then 0 else CountsOf(xs, keys[..|keys| - 1]) + multiset(xs)[keys[|keys| - 1]]
  }

  // How many places of xs hold a key.
  function HoldingKey<K(==)>(xs: seq<K>, keys: seq<K>): (n: nat)
    ensures n <= |xs|
  {
    if xs == [] then 0
    else HoldingKey(xs[..|xs| - 1], keys) + if xs[|xs| - 1] in keys then 1 else 0
  }

  // Counting key by key counts every place once.
  lemma {:induction false} CountsConserve<K>(xs: seq<K>, keys: seq<K>)
    requires Distinct(keys)
    ensures CountsOf(xs, keys) == HoldingKey(xs, keys)
  {
    if xs == [] {
      NothingCounted(keys);
    } else {
      var n := |xs| - 1;
      assert xs == xs[..n] + [xs[n]];
      CountsConserve(xs[..n], keys);
      OneMore(xs[..n], xs[n], keys);
    }
  }

  lemma {:induction false} NothingCounted<K>(keys: seq<K>)
    ensures CountsOf([], keys) == 0
  {
    if keys != [] {
      NothingCounted(keys[..|keys| - 1]);
    }
  }

  lemma {:induction false} OneMore<K>(xs: seq<K>, x: K, keys: seq<K>)
    requires Distinct(keys)
    ensures CountsOf(xs + [x], keys) == CountsOf(xs, keys) + if x in keys then 1 else 0
  {
    if keys != [] {
      var n := |keys| - 1;
      OneMore(xs, x, keys[..n]);
      assert keys == keys[..n] + [keys[n]];
    }
  }

  lemma {:induction false} AllHoldKeys<K>(xs: seq<K>, keys: seq<K>)
    requires forall x :: x in xs ==> x in keys
    ensures HoldingKey(xs, keys) == |xs|
  {
    if xs != [] {
      AllHoldKeys(xs[..|xs| - 1], keys);
    }
  }

  // ----- histograms -----

  // The scores stored for one item.
  function ItemScores(rs: seq<Response>, itemId: string): seq<int> {
    if rs == [] then []
    else
      var n := |rs| - 1;
      ItemScores(rs[..n], itemId) + if rs[n].itemId == itemId then [rs[n].scoreValue] else []
  }

  function Points(points: nat): seq<int> {
    seq(points, i requires 0 <= i < points => i + 1)
  }

  datatype ItemCounts = ItemCounts(id: string, histogram: seq<nat>, total: nat)

  // Slot v - 1 counts the scores v, and the total the scores on the scale.
  predicate Tallies(c: ItemCounts, scores: seq<int>, points: nat) {
    && |c.histogram| == points
    && (forall v {:trigger c.histogram[v]} :: 0 <= v < points ==> c.histogram[v] == multiset(scores)[v + 1])
    && c.total == HoldingKey(scores, Points(points))
  }

  predicate IsCountOf(c: ItemCounts, rs: seq<Response>, points: nat) {
    Tallies(c, ItemScores(rs, c.id), points)
  }

  method BuildAnalyticsItems(items: seq<Item>, rs: seq<Response>, points: nat, day: int -> string)
    returns (counts: seq<ItemCounts>, countsByDay: map<string, nat>)
    requires forall i, j :: 0 <= i < j < |items| ==> items[i].id != items[j].id
    ensures |counts| == |items|
    ensures forall i :: 0 <= i < |items| ==> counts[i].id == items[i].id && IsCountOf(counts[i], rs, points)
    ensures AreDayCounts(countsByDay, rs, day)
  {
    var itemIndex: map<string, nat>;
    counts, itemIndex := EmptyCounts(items, points);
    countsByDay := map[];
    for i := 0 to |rs|
      invariant |counts| == |items|
      invariant forall k :: 0 <= k < |items| ==> counts[k].id == items[k].id && IsCountOf(counts[k], rs[..i], points)
      invariant AreDayCounts(countsByDay, rs[..i], day)
    {
      counts := CountResponse(items, itemIndex, counts, rs, i, points);
      var d := day(rs[i].submittedAt);
      DayStep(countsByDay, rs, i, day);
      countsByDay := countsByDay[d := (if d in countsByDay then countsByDay[d] else 0) + 1];
    }
    assert rs[..|rs|] == rs;
  }

  predicate Indexes(itemIndex: map<string, nat>, items: seq<Item>) {
    && (forall k :: 0 <= k < |items| ==> items[k].id in itemIndex && itemIndex[items[k].id] == k)
    && (forall id :: id in itemIndex ==> itemIndex[id] < |items| && items[itemIndex[id]].id == id)
  }

  method EmptyCounts(items: seq<Item>, points: nat) returns (counts: seq<ItemCounts>, itemIndex: map<string, nat>)
    requires forall i, j :: 0 <= i < j < |items| ==> items[i].id != items[j].id
    ensures |counts| == |items|
    ensures forall k :: 0 <= k < |items| ==> counts[k].id == items[k].id && IsCountOf(counts[k], [], points)
    ensures Indexes(itemIndex, items)
  {
    counts, itemIndex := [], map[];
    for i := 0 to |items|
      invariant |counts| == i
      invariant forall k :: 0 <= k < i ==> counts[k].id == items[k].id && IsCountOf(counts[k], [], points)
      invariant forall k :: 0 <= k < i ==> items[k].id in itemIndex && itemIndex[items[k].id] == k
      invariant forall id :: id in itemIndex ==> itemIndex[id] < i && items[itemIndex[id]].id == id
    {
      counts := counts + [ItemCounts(items[i].id, seq(points, _ => 0), 0)];
      itemIndex := itemIndex[items[i].id := i];
    }
  }

  method CountResponse(items: seq<Item>, itemIndex: map<string, nat>, before: seq<ItemCounts>, rs: seq<Response>, i: nat, points: nat)
    returns (counts: seq<ItemCounts>)
    requires i < |rs| && |before| == |items|
    requires Indexes(itemIndex, items)
    requires forall k :: 0 <= k < |items| ==> before[k].id == items[k].id && IsCountOf(before[k], rs[..i], points)
    ensures |counts| == |items|
    ensures forall k :: 0 <= k < |items| ==> counts[k].id == items[k].id && IsCountOf(counts[k], rs[..i + 1], points)
  {
    counts := before;
    var resp := rs[i];
    if resp.itemId in itemIndex {
      var idx := itemIndex[resp.itemId];
      var v := resp.scoreValue;
      if 1 <= v <= points {
        counts := counts[idx := Counted(counts[idx], v)];
      }
    }
    forall k | 0 <= k < |items| ensures counts[k].id == items[k].id && IsCountOf(counts[k], rs[..i + 1], points) {
      CountedStep(before[k], rs, i, points);
    }
  }

  function Counted(c: ItemCounts, v: int): ItemCounts
    requires 1 <= v <= |c.histogram|
  {
    c.(histogram := c.histogram[v - 1 := c.histogram[v - 1] + 1], total := c.total + 1)
  }

  lemma CountedStep(c: ItemCounts, rs: seq<Response>, i: nat, points: nat)
    requires i < |rs| && IsCountOf(c, rs[..i], points)
    ensures
      IsCountOf(if rs[i].itemId == c.id && 1 <= rs[i].scoreValue <= points then Counted(c, rs[i].scoreValue) else c, rs[..i + 1], points)
  {
    CountStep(rs, i, points);
    var scores := ItemScores(rs[..i], c.id);
    if rs[i].itemId == c.id {
      TallyStep(c, scores, rs[i].scoreValue, points);
    } else {
      assert scores + [] == scores;
    }
  }

  lemma TallyStep(c: ItemCounts, scores: seq<int>, v: int, points: nat)
    requires Tallies(c, scores, points)
    ensures Tallies(if 1 <= v <= points then Counted(c, v) else c, scores + [v], points)
  {
    HoldingStep(scores, v, Points(points));
    IsPoint(v, points);
    CountsStep(scores, v);
  }

  lemma HoldingStep<K>(xs: seq<K>, x: K, keys: seq<K>)
    ensures HoldingKey(xs + [x], keys) == HoldingKey(xs, keys) + if x in keys then 1 else 0
  {
    assert (xs + [x])[..|xs|] == xs;
  }

  lemma CountsStep(xs: seq<int>, x: int)
    ensures forall y {:trigger multiset(xs + [x])[y]} :: multiset(xs + [x])[y] == multiset(xs)[y] + if y == x then 1 else 0
  {
    assert multiset(xs + [x]) == multiset(xs) + multiset{x};
  }

  lemma IsPoint(v: int, points: nat)
    ensures v in Points(points) <==> 1 <= v <= points
  {
    if 1 <= v <= points {
      assert Points(points)[v - 1] == v;
    }
  }

  lemma CountStep(rs: seq<Response>, i: nat, points: nat)
    requires i < |rs|
    ensures forall id {:trigger ItemScores(rs[..i + 1], id)} ::
      ItemScores(rs[..i + 1], id) == ItemScores(rs[..i], id) + if rs[i].itemId == id then [rs[i].scoreValue] else []
  {
    assert rs[..i + 1][..i] == rs[..i];
  }

  // Every score on the scale is in exactly one slot.
  // Counted one by one: slot v - 1 is the number of responses to the item with the score v.
  lemma SlotCountsResponses(c: ItemCounts, rs: seq<Response>, points: nat, v: nat, scored: Response -> bool)
    requires IsCountOf(c, rs, points) && 1 <= v <= points
    requires forall r :: scored(r) <==> r.itemId == c.id && r.scoreValue == v
    ensures |c.histogram| == points && c.histogram[v - 1] == |Places(rs, scored)|
  {
    ScoresCount(rs, c.id, v, scored);
  }

  lemma {:induction false} ScoresCount(rs: seq<Response>, itemId: string, v: int, scored: Response -> bool)
    requires forall r :: scored(r) <==> r.itemId == itemId && r.scoreValue == v
    ensures multiset(ItemScores(rs, itemId))[v] == |Places(rs, scored)|
  {
    if rs != [] {
      ScoresCount(rs[..|rs| - 1], itemId, v, scored);
      PlacesGrow(rs, scored);
    }
  }

  // The total is the number of responses to the item with a score on the scale.
  lemma TotalCountsResponses(c: ItemCounts, rs: seq<Response>, points: nat, scored: Response -> bool)
    requires IsCountOf(c, rs, points)
    requires forall r :: scored(r) <==> r.itemId == c.id && 1 <= r.scoreValue <= points
    ensures c.total == |Places(rs, scored)|
  {
    PointsCount(rs, c.id, points, scored);
  }

  lemma {:induction false} PointsCount(rs: seq<Response>, itemId: string, points: nat, scored: Response -> bool)
    requires forall r :: scored(r) <==> r.itemId == itemId && 1 <= r.scoreValue <= points
    ensures HoldingKey(ItemScores(rs, itemId), Points(points)) == |Places(rs, scored)|
  {
    if rs != [] {
      var n := |rs| - 1;
      PointsCount(rs[..n], itemId, points, scored);
      PlacesGrow(rs, scored);
      IsPoint(rs[n].scoreValue, points);
      HoldingStep(ItemScores(rs[..n], itemId), rs[n].scoreValue, Points(points));
      assert ItemScores(rs[..n], itemId) + [] == ItemScores(rs[..n], itemId);
    }
  }

  // And a day's count is the number of responses submitted on it.
  lemma DayCountsResponses(counts: map<string, nat>, rs: seq<Response>, day: int -> string, d: string, that: Response -> bool)
    requires AreDayCounts(counts, rs, day) && forall r :: that(r) <==> day(r.submittedAt) == d
    ensures (if d in counts then counts[d] else 0) == |Places(rs, that)|
    ensures d in counts <==> exists r :: r in rs && day(r.submittedAt) == d
  {
    DaysCount(rs, day, d, that);
    DayOfEach(rs, day);
    var days := DaysOf(rs, day);
    if d in days {
      var i :| 0 <= i < |days| && days[i] == d;
      assert rs[i] in rs;
    }
    forall r | r in rs && day(r.submittedAt) == d ensures d in days {
      var i :| 0 <= i < |rs| && rs[i] == r;
      assert days[i] == d;
    }
  }

  lemma {:induction false} DaysCount(rs: seq<Response>, day: int -> string, d: string, that: Response -> bool)
    requires forall r :: that(r) <==> day(r.submittedAt) == d
    ensures multiset(DaysOf(rs, day))[d] == |Places(rs, that)|
  {
    if rs != [] {
      DaysCount(rs[..|rs| - 1], day, d, that);
      PlacesGrow(rs, that);
    }
  }

  lemma {:induction false} DayOfEach(rs: seq<Response>, day: int -> string)
    ensures forall i :: 0 <= i < |rs| ==> DaysOf(rs, day)[i] == day(rs[i].submittedAt)
  {
    if rs != [] {
      DayOfEach(rs[..|rs| - 1], day);
    }
  }

  lemma HistogramConserves(c: ItemCounts, rs: seq<Response>, points: nat)
    requires IsCountOf(c, rs, points)
    ensures SumNat(c.histogram) == c.total
  {
    var scores := ItemScores(rs, c.id);
    CountsConserve(scores, Points(points));
    SlotsAreCounts(c.histogram, scores, points);
  }

  function SumNat(xs: seq<nat>): nat {
    if xs == [] then 0 else SumNat(xs[..|xs| - 1]) + xs[|xs| - 1]
  }

  lemma {:induction false} SlotsAreCounts(histogram: seq<nat>, scores: seq<int>, points: nat)
    requires |histogram| == points
    requires forall v {:trigger histogram[v]} :: 0 <= v < points ==> histogram[v] == multiset(scores)[v + 1]
    ensures SumNat(histogram) == CountsOf(scores, Points(points))
  {
    if points > 0 {
      assert Points(points)[..points - 1] == Points(points - 1);
      SlotsAreCounts(histogram[..points - 1], scores, points - 1);
    }
  }

  // ----- days -----

  function DaysOf(rs: seq<Response>, day: int -> string): (r: seq<string>)
    ensures |r| == |rs|
  {
    if rs == [] then [] else DaysOf(rs[..|rs| - 1], day) + [day(rs[|rs| - 1].submittedAt)]
  }

  ghost predicate AreDayCounts(counts: map<string, nat>, rs: seq<Response>, day: int -> string) {
    && (forall d :: d in counts <==> d in DaysOf(rs, day))
    && (forall d :: d in counts ==> counts[d] == multiset(DaysOf(rs, day))[d])
  }

  lemma DayStep(counts: map<string, nat>, rs: seq<Response>, i: nat, day: int -> string)
    requires i < |rs| && AreDayCounts(counts, rs[..i], day)
    ensures var d := day(rs[i].submittedAt);
            AreDayCounts(counts[d := (if d in counts then counts[d] else 0) + 1], rs[..i + 1], day)
  {
    assert rs[..i + 1][..i] == rs[..i];
    var d := day(rs[i].submittedAt);
    var days := DaysOf(rs[..i], day);
    assert d !in counts ==> multiset(days)[d] == 0 by {
      assert d !in counts ==> d !in days;
    }
  }

  datatype DayCount = DayCount(date: string, count: nat)

  // One entry per day, in order.
  ghost predicate IsSeries(series: seq<DayCount>, counts: map<string, nat>) {
    && (forall d :: d in counts ==> d in Dates(series))
    && (forall i :: 0 <= i < |series| ==> series[i].date in counts && series[i].count == counts[series[i].date])
    && (forall i, j :: 0 <= i < j < |series| ==> StringLess(series[i].date, series[j].date))
  }

  method BuildTimeseries(counts: map<string, nat>) returns (series: seq<DayCount>)
    ensures IsSeries(series, counts)
  {
    var days := SortedKeys(counts.Keys);
    series := [];
    for i := 0 to |days|
      invariant |series| == i
      invariant forall k :: 0 <= k < i ==> series[k].date == days[k] && days[k] in counts && series[k].count == counts[days[k]]
    {
      assert days[i] in days;
      series := series + [DayCount(days[i], counts[days[i]])];
    }
    assert Dates(series) == days;
  }

  function SumCounts(series: seq<DayCount>): nat {
    if series == [] then 0 else SumCounts(series[..|series| - 1]) + series[|series| - 1].count
  }

  function Dates(series: seq<DayCount>): seq<string> {
    seq(|series|, i requires 0 <= i < |series| => series[i].date)
  }

  lemma DatesDistinct(series: seq<DayCount>, counts: map<string, nat>)
    requires IsSeries(series, counts)
    ensures Distinct(Dates(series))
  {
    var dates := Dates(series);
    forall i, j ensures 0 <= i < j < |series| ==> dates[i] != dates[j] {
      if 0 <= i < j < |series| {
        StringLessTotal(series[i].date, series[j].date);
      }
    }
  }

  // The days together count every response once.
  lemma DaysConserve(series: seq<DayCount>, counts: map<string, nat>, rs: seq<Response>, day: int -> string)
    requires AreDayCounts(counts, rs, day) && IsSeries(series, counts)
    ensures SumCounts(series) == |rs|
  {
    var days, dates := DaysOf(rs, day), Dates(series);
    DatesDistinct(series, counts);
    CountsConserve(days, dates);
    AllHoldKeys(days, dates);
    SeriesAreCounts(series, days);
  }

  lemma {:induction false} SeriesAreCounts(series: seq<DayCount>, days: seq<string>)
    requires forall i :: 0 <= i < |series| ==> series[i].count == multiset(days)[series[i].date]
    ensures SumCounts(series) == CountsOf(days, Dates(series))
  {
    if series != [] {
      var n := |series| - 1;
      assert Dates(series)[..n] == Dates(series[..n]);
      SeriesAreCounts(series[..n], days);
    }
  }
}
