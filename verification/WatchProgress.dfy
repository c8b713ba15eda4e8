/** Watch progress of seasons and of whole series, judged against the expected episode inventory. */
module WatchProgress {
  import opened Basics

  datatype Episode = Episode(number: int, lastViewed: Option<int>, addedAt: Option<int>, viewCount: Option<int>)

  datatype Season = Season(number: int, expected: seq<int>, episodes: seq<Episode>, addedAt: Option<int>)

  datatype Counts = Counts(watched: nat, expected: nat)

  /** Completion and the percentage shown. */
  datatype Progress = Unknown | Known(full: bool, percent: real)

  // -------------------------------------------------------------------------------------------
  // Single episodes

  /** A watch older than the current copy does not count. */
  function EffectiveLastViewed(lastViewed: Option<int>, addedAt: Option<int>): Option<int> {
    if lastViewed.Some? && addedAt.Some? && addedAt.value > lastViewed.value then None else lastViewed
  }

  predicate NeverWatched(viewCount: Option<int>, lastViewed: Option<int>, addedAt: Option<int>) {
    if EffectiveLastViewed(lastViewed, addedAt).Some? then false
    else if lastViewed.Some? then true
    else OrElse(viewCount, 0) == 0
  }

  function OrElse(value: Option<int>, default: int): int {
    if value.Some? then value.value else default
  }

  /** When the copy of an episode was added; the season answers for an episode that does not say. */
  function AddedAt(episode: Episode, season: Season): Option<int> {
    if episode.addedAt.Some? then episode.addedAt else season.addedAt
  }

  /** Watched since its copy was added, or counted as viewed without a date. */
  predicate IsWatched(episode: Episode, season: Season) {
    match episode.lastViewed
    case Some(seen) => AddedAt(episode, season).None? || AddedAt(episode, season).value <= seen
    case None => OrElse(episode.viewCount, 0) > 0
  }

  /**
   A dated watch counts unless the copy is newer: by the episode's own date if it has one, by the season's
   otherwise, and without either it counts. An undated one counts when it was viewed at least once.
   */
  lemma WatchedMeans(episode: Episode, season: Season)
    ensures IsWatched(episode, season)
            == match (episode.lastViewed, episode.addedAt, season.addedAt)
               case (Some(seen), Some(copied), _) => copied <= seen
               case (Some(seen), None, Some(copied)) => copied <= seen
               case (Some(_), None, None) => true
               case (None, _, _) => episode.viewCount.Some? && episode.viewCount.value > 0
  {
  }

  /**
   The season roll-up and the never-watched test are opposites, except for an undated episode with a
   negative view count, which is neither.
   */
  lemma WatchedIsNotNeverWatched(episode: Episode, season: Season)
    ensures (IsWatched(episode, season)
             <==> !NeverWatched(episode.viewCount, episode.lastViewed, AddedAt(episode, season)))
            <==> (episode.lastViewed.Some? || OrElse(episode.viewCount, 0) >= 0)
  {
  }

  // -------------------------------------------------------------------------------------------
  // Seasons

  function Expected(season: Season): set<int> {
    set n | n in season.expected
  }

  /** Some copy of episode `n` among the first `k` entries was watched. */
  predicate WatchedBefore(season: Season, k: nat, n: int)
    requires k <= |season.episodes|
  {
    exists i :: 0 <= i < k && season.episodes[i].number == n && IsWatched(season.episodes[i], season)
  }

  /** The expected episodes that were watched, however many entries an episode has. */
  function WatchedNumbers(season: Season): (watched: set<int>)
    ensures watched <= Expected(season)
  {
    set n | n in Expected(season) && WatchedBefore(season, |season.episodes|, n)
  }

  lemma WatchedNumbersAre(season: Season)
    ensures WatchedNumbers(season)
            == set n | n in season.expected
                       && exists e :: e in season.episodes && e.number == n && IsWatched(e, season)
  {
  }

  predicate HasInventory(season: Season) {
    season.expected != []
  }

  lemma EmptyWithoutInventory(season: Season)
    ensures Expected(season) == {} <==> !HasInventory(season)
  {
    if HasInventory(season) {
      assert season.expected[0] in Expected(season);
    }
  }

  /** Every expected episode was watched. */
  predicate IsComplete(season: Season) {
    forall n :: n in season.expected ==> WatchedBefore(season, |season.episodes|, n)
  }

  function CountsOf(season: Season): (counts: Counts) {
    Counts(|WatchedNumbers(season)|, |Expected(season)|)
  }

  lemma SmallerSubset(a: set<int>, b: set<int>)
    requires a <= b
    ensures |a| <= |b|
    ensures |a| == |b| <==> a == b
  {
    assert |b| == |a| + |b - a| by {
      assert b == a + (b - a);
    }
    if |a| == |b| {
      assert b - a == {};
    }
  }

  /** The counts are ordered, and equal exactly for a complete season. */
  lemma CountsTellCompletion(season: Season)
    requires HasInventory(season)
    ensures CountsOf(season).watched <= CountsOf(season).expected
    ensures CountsOf(season).expected > 0
    ensures CountsOf(season).watched == CountsOf(season).expected <==> IsComplete(season)
  {
    var watched, all := WatchedNumbers(season), Expected(season);
    SmallerSubset(watched, all);
    assert season.expected[0] in all;
    if watched == all {
      forall n | n in season.expected
        ensures WatchedBefore(season, |season.episodes|, n)
      {
        assert n in watched;
      }
    }
    if IsComplete(season) {
      assert all <= watched;
    }
  }

  method SeasonWatchCounts(season: Season) returns (counts: Option<Counts>)
    ensures counts.None? <==> !HasInventory(season)
    ensures counts.Some? ==> counts.value == CountsOf(season)
    ensures counts.Some? ==>
              && counts.value.expected == |(set n | n in season.expected)|
              && counts.value.watched
                 == |(set n | n in season.expected
                              && exists e :: e in season.episodes && e.number == n && IsWatched(e, season))|
  {
    WatchedNumbersAre(season);
    var expected := Expected(season);
    EmptyWithoutInventory(season);
    if expected == {} {
      return None;
    }
    var watched: set<int> := {};
    for k := 0 to |season.episodes|
      invariant watched == set n | n in expected && WatchedBefore(season, k, n)
    {
      var episode := season.episodes[k];
      if episode.number in expected {
        var effective := EffectiveLastViewed(episode.lastViewed, AddedAt(episode, season));
        if effective.Some? {
          watched := watched + {episode.number};
        } else if episode.lastViewed.None? && OrElse(episode.viewCount, 0) > 0 {
          watched := watched + {episode.number};
        }
      }
      assert forall n :: WatchedBefore(season, k + 1, n)
                         <==> WatchedBefore(season, k, n) || (episode.number == n && IsWatched(episode, season));
    }
    assert watched == WatchedNumbers(season);
    counts := Some(Counts(|watched|, |expected|));
  }

  // -------------------------------------------------------------------------------------------
  // Progress

  function Ratio(counts: Counts): real
    requires counts.expected > 0
  {
    counts.watched as real / counts.expected as real
  }

  /**
   How a ratio becomes a percentage rounded to two places. Whatever floating-point arithmetic does in
   detail, it is monotone, exact at both ends, and off by less than a hundredth.
   */
  type Display = real -> real

  ghost predicate IsRounding(display: Display) {
    && display(0.0) == 0.0 && display(1.0) == 100.0
    && (forall a, b :: a <= b ==> display(a) <= display(b))
    && (forall a :: 0.0 <= a <= 1.0 ==> 100.0 * a - 0.01 < display(a) < 100.0 * a + 0.01)
  }

  function ProgressOf(display: Display, counts: Option<Counts>): Progress {
    match counts
    case None => Unknown
    case Some(c) => if c.expected == 0 then Unknown else Known(c.watched >= c.expected, display(Ratio(c)))
  }

  lemma RatioTimesExpected(counts: Counts)
    requires counts.expected > 0
    ensures Ratio(counts) * counts.expected as real == counts.watched as real
  {
  }

  lemma OrderScales(a: real, b: real, e: real)
    requires e > 0.0
    ensures a <= b <==> a * e <= b * e
  {
    assert (b - a) * e == b * e - a * e;
    if a > b {
      assert (a - b) * e > 0.0;
    }
  }

  lemma RatioOfReals(r: real, w: real, e: real)
    requires e > 0.0 && r * e == w && 0.0 <= w <= e
    ensures 0.0 <= r <= 1.0
    ensures r == 1.0 <==> w == e
  {
    OrderScales(0.0, r, e);
    OrderScales(1.0, r, e);
    OrderScales(r, 1.0, e);
  }

  lemma RatioWithOneMissing(r: real, w: real, e: real)
    requires e > 0.0 && r * e == w && w <= e - 1.0 && e <= 10000.0
    ensures r <= 0.9999
  {
    OneMissing(w, e);
    OrderScales(r, 0.9999, e);
  }

  lemma OneMissing(w: real, e: real)
    requires w <= e - 1.0 && 0.0 < e <= 10000.0
    ensures w <= 0.9999 * e
  {
  }

  lemma RatioOfCounts(counts: Counts)
    requires counts.expected > 0 && counts.watched <= counts.expected
    ensures 0.0 <= Ratio(counts) <= 1.0
    ensures Ratio(counts) == 1.0 <==> counts.watched == counts.expected
    ensures counts.watched < counts.expected <= 10000 ==> Ratio(counts) <= 0.9999
  {
    RatioTimesExpected(counts);
    RatioOfReals(Ratio(counts), counts.watched as real, counts.expected as real);
    if counts.watched < counts.expected <= 10000 {
      RatioWithOneMissing(Ratio(counts), counts.watched as real, counts.expected as real);
    }
  }

  /**
   What the percentage tells: completion shows as 100, and up to ten thousand expected episodes nothing
   else does.
   */
  lemma ShownPercent(display: Display, counts: Counts)
    requires IsRounding(display) && counts.expected > 0 && counts.watched <= counts.expected
    ensures 0.0 <= display(Ratio(counts)) <= 100.0
    ensures counts.watched == counts.expected ==> display(Ratio(counts)) == 100.0
    ensures counts.expected <= 10000 ==> (display(Ratio(counts)) == 100.0 <==> counts.watched == counts.expected)
  {
    RatioOfCounts(counts);
  }

  /** Rounding to the nearest hundredth, halves up. */
  function Nearest(ratio: real): real {
    (ratio * 10000.0 + 0.5).Floor as real / 100.0
  }

  lemma NearestIsRounding()
    ensures IsRounding(Nearest)
  {
    forall a: real, b: real | a <= b
      ensures Nearest(a) <= Nearest(b)
    {
      FloorKeepsOrder(a * 10000.0 + 0.5, b * 10000.0 + 0.5);
    }
    assert Nearest(0.0) == 0.0 && Nearest(1.0) == 100.0;
  }

  lemma FloorKeepsOrder(a: real, b: real)
    requires a <= b
    ensures a.Floor <= b.Floor
  {
  }

  lemma FloorAtLeast(x: real, n: int)
    ensures x.Floor >= n <==> x >= n as real
  {
  }

  /** Rounded like this, a percentage of 100 means that at most one episode of twenty thousand is missing. */
  lemma NearestShowsFullExactly(counts: Counts)
    requires counts.expected > 0 && counts.watched <= counts.expected
    ensures Nearest(Ratio(counts)) == 100.0 <==> 20000 * (counts.expected - counts.watched) <= counts.expected
  {
    RatioOfCounts(counts);
    RatioTimesExpected(counts);
    NearestAtFull(Ratio(counts));
    RatioAtFull(Ratio(counts), counts.watched as real, counts.expected as real);
  }

  lemma NearestAtFull(r: real)
    requires 0.0 <= r <= 1.0
    ensures Nearest(r) == 100.0 <==> 0.99995 <= r
  {
    FloorAtLeast(r * 10000.0 + 0.5, 10000);
    FloorAtLeast(r * 10000.0 + 0.5, 10001);
  }

  lemma RatioAtFull(r: real, w: real, e: real)
    requires e > 0.0 && r * e == w
    ensures 0.99995 <= r <==> 20000.0 * (e - w) <= e
  {
    OrderScales(0.99995, r, e);
    OneOfTwentyThousand(w, e);
  }

  lemma OneOfTwentyThousand(w: real, e: real)
    ensures 0.99995 * e <= w <==> 20000.0 * (e - w) <= e
  {
  }

  /** With more episodes the percentage no longer tells: one missing of a hundred thousand shows as 100. */
  lemma FullPercentWithoutCompletion()
    ensures IsRounding(Nearest)
    ensures ProgressOf(Nearest, Some(Counts(99999, 100000))) == Known(false, 100.0)
  {
    NearestIsRounding();
    assert Ratio(Counts(99999, 100000)) == 0.99999;
    assert (0.99999 * 10000.0 + 0.5).Floor == 10000;
  }

  method SeasonWatchProgress(display: Display, season: Season) returns (progress: Progress)
    ensures progress.Unknown? <==> !HasInventory(season)
    ensures progress.Known? ==>
              && (progress.full <==> IsComplete(season))
              && CountsOf(season).expected > 0
              && progress.percent == display(Ratio(CountsOf(season)))
  {
    var counts := SeasonWatchCounts(season);
    if counts.Some? {
      CountsTellCompletion(season);
    }
    progress := ProgressOf(display, counts);
  }

  // -------------------------------------------------------------------------------------------
  // Series

  /** The seasons other than the specials. */
  function Regular(seasons: seq<Season>): (regular: seq<Season>)
    ensures forall season :: season in regular <==> season in seasons && season.number > 0
  {
    if seasons == [] then []
    else (if seasons[0].number > 0 then [seasons[0]] else []) + Regular(seasons[1..])
  }

  /** The specials are left out; every other season stays as often as it is there. */
  lemma {:induction false} RegularKeeps(seasons: seq<Season>, season: Season)
    ensures multiset(Regular(seasons))[season] == if season.number > 0 then multiset(seasons)[season] else 0
  {
    if seasons != [] {
      RegularKeeps(seasons[1..], season);
      assert seasons == [seasons[0]] + seasons[1..];
    }
  }

  function Sum(a: Counts, b: Counts): Counts {
    Counts(a.watched + b.watched, a.expected + b.expected)
  }

  function Total(seasons: seq<Season>): Counts {
    if seasons == [] then
      Counts(0, 0)
    else
      Sum(Total(seasons[..|seasons| - 1]), CountsOf(seasons[|seasons| - 1]))
  }

  /** Episodes are added up, not percentages: the totals of two lists of seasons are the sums of theirs. */
  lemma {:induction false} TotalOfBoth(first: seq<Season>, second: seq<Season>)
    ensures Total(first + second).watched == Total(first).watched + Total(second).watched
    ensures Total(first + second).expected == Total(first).expected + Total(second).expected
    ensures |second| == 1 ==> Total(second) == CountsOf(second[0])
  {
    if second == [] {
      assert first + second == first;
    } else {
      TotalOfBoth(first, second[..|second| - 1]);
      assert (first + second)[..|first + second| - 1] == first + second[..|second| - 1];
    }
  }

  predicate AllHaveInventory(seasons: seq<Season>) {
    forall i :: 0 <= i < |seasons| ==> HasInventory(seasons[i])
  }

  predicate AllComplete(seasons: seq<Season>) {
    forall i :: 0 <= i < |seasons| ==> IsComplete(seasons[i])
  }

  /** Comparing the totals is comparing season by season: no season can watch more than it expects. */
  lemma {:induction false} TotalTellsCompletion(seasons: seq<Season>)
    requires AllHaveInventory(seasons)
    ensures Total(seasons).watched <= Total(seasons).expected
    ensures Total(seasons).expected > 0 <==> seasons != []
    ensures Total(seasons).watched == Total(seasons).expected <==> AllComplete(seasons)
  {
    if seasons != [] {
      var front, last := seasons[..|seasons| - 1], seasons[|seasons| - 1];
      TotalTellsCompletion(front);
      CountsTellCompletion(last);
      assert AllComplete(seasons) <==> AllComplete(front) && IsComplete(last) by {
        if AllComplete(front) && IsComplete(last) {
          assert forall i :: 0 <= i < |seasons| - 1 ==> seasons[i] == front[i];
        }
        if AllComplete(seasons) {
          assert forall i :: 0 <= i < |front| ==> front[i] == seasons[i];
        }
      }
    }
  }

  lemma Mediant(ra: real, rb: real, r: real, ea: real, eb: real)
    requires ea > 0.0 && eb > 0.0 && ra <= rb && r * (ea + eb) == ra * ea + rb * eb
    ensures ra <= r <= rb
  {
    var e := ea + eb;
    OrderScales(ra, rb, ea);
    OrderScales(ra, rb, eb);
    assert ra * e == ra * ea + ra * eb && rb * e == rb * ea + rb * eb;
    assert ra * e <= r * e <= rb * e;
    OrderScales(ra, r, e);
    OrderScales(r, rb, e);
  }

  lemma RatioBelow(a: Counts, b: Counts)
    requires a.expected > 0 && b.expected > 0 && Ratio(a) <= Ratio(b)
    ensures Ratio(a) <= Ratio(Sum(a, b)) <= Ratio(b)
  {
    RatioTimesExpected(a);
    RatioTimesExpected(b);
    RatioTimesExpected(Sum(a, b));
    Mediant(Ratio(a), Ratio(b), Ratio(Sum(a, b)), a.expected as real, b.expected as real);
  }

  lemma SumCommutes(a: Counts, b: Counts)
    ensures Sum(a, b) == Sum(b, a)
  {
  }

  /** Some season watched at most as large a part of its episodes as all of them together. */
  lemma {:induction false} SomeSeasonBelow(seasons: seq<Season>) returns (i: nat)
    requires seasons != [] && AllHaveInventory(seasons)
    ensures i < |seasons| && CountsOf(seasons[i]).expected > 0 && Total(seasons).expected > 0
    ensures Ratio(CountsOf(seasons[i])) <= Ratio(Total(seasons))
  {
    var front, end := seasons[..|seasons| - 1], |seasons| - 1;
    var last := CountsOf(seasons[end]);
    CountsTellCompletion(seasons[end]);
    TotalTellsCompletion(seasons);
    if front == [] {
      assert Total(seasons) == last;
      return end;
    }
    TotalTellsCompletion(front);
    if last.expected > 0 && Ratio(last) <= Ratio(Total(front)) {
      RatioBelow(last, Total(front));
      SumCommutes(last, Total(front));
      i := end;
    } else {
      RatioBelow(Total(front), last);
      i := SomeSeasonBelow(front);
      assert front[i] == seasons[i];
    }
  }

  /** And some season at least as large a part. */
  lemma {:induction false} SomeSeasonAbove(seasons: seq<Season>) returns (i: nat)
    requires seasons != [] && AllHaveInventory(seasons)
    ensures i < |seasons| && CountsOf(seasons[i]).expected > 0 && Total(seasons).expected > 0
    ensures Ratio(Total(seasons)) <= Ratio(CountsOf(seasons[i]))
  {
    var front, end := seasons[..|seasons| - 1], |seasons| - 1;
    var last := CountsOf(seasons[end]);
    CountsTellCompletion(seasons[end]);
    TotalTellsCompletion(seasons);
    if front == [] {
      assert Total(seasons) == last;
      return end;
    }
    TotalTellsCompletion(front);
    if last.expected > 0 && Ratio(Total(front)) <= Ratio(last) {
      RatioBelow(Total(front), last);
      i := end;
    } else {
      RatioBelow(last, Total(front));
      SumCommutes(last, Total(front));
      i := SomeSeasonAbove(front);
      assert front[i] == seasons[i];
    }
  }

  /** The percentage of a list of seasons lies between the smallest and the largest of theirs. */
  lemma PercentLiesBetween(display: Display, seasons: seq<Season>) returns (low: nat, high: nat)
    requires seasons != [] && AllHaveInventory(seasons) && IsRounding(display)
    ensures low < |seasons| && high < |seasons| && Total(seasons).expected > 0
    ensures CountsOf(seasons[low]).expected > 0 && CountsOf(seasons[high]).expected > 0
    ensures display(Ratio(CountsOf(seasons[low]))) <= display(Ratio(Total(seasons)))
            <= display(Ratio(CountsOf(seasons[high])))
  {
    low := SomeSeasonBelow(seasons);
    high := SomeSeasonAbove(seasons);
  }

  /** The totals of all seasons, unless one of them has no inventory. */
  method AddUpCounts(seasons: seq<Season>) returns (counts: Option<Counts>)
    ensures counts.None? <==> !AllHaveInventory(seasons)
    ensures counts.Some? ==> counts.value == Total(seasons)
  {
    var watched: nat, expected: nat := 0, 0;
    for k := 0 to |seasons|
      invariant AllHaveInventory(seasons[..k])
      invariant Counts(watched, expected) == Total(seasons[..k])
    {
      var season := SeasonWatchCounts(seasons[k]);
      if season.None? {
        return None;
      }
      watched, expected := watched + season.value.watched, expected + season.value.expected;
      assert seasons[..k + 1][..k] == seasons[..k];
    }
    assert seasons[..|seasons|] == seasons;
    counts := Some(Counts(watched, expected));
  }

  /**
   The series is answerable exactly when it has a regular season and all of them are, and complete
   exactly when each of them is.
   */
  method SeriesWatchProgress(display: Display, seasons: seq<Season>) returns (progress: Progress)
    ensures progress.Unknown? <==> Regular(seasons) == [] || !AllHaveInventory(Regular(seasons))
    ensures progress.Known? ==>
              && (progress.full <==> AllComplete(Regular(seasons)))
              && Total(Regular(seasons)).expected > 0
              && progress.percent == display(Ratio(Total(Regular(seasons))))
  {
    var regular := Regular(seasons);
    if regular == [] {
      return Unknown;
    }
    var counts := AddUpCounts(regular);
    if counts.Some? {
      TotalTellsCompletion(regular);
    }
    progress := ProgressOf(display, counts);
  }
}
