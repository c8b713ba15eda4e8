/** Protections: which rows cover a target, and the upsert that is meant only to widen them. */
module ProtectionScope {
  import opened Basics

  datatype MediaType = Movie | Series

  /** The scope columns of a row, or of a request. */
  datatype Scope = Scope(
    mediaType: MediaType,
    movie: Option<int>,
    version: Option<int>,
    series: Option<int>,
    season: Option<int>,
    episode: Option<int>
  )

  datatype Row = Row(fromRule: bool, scope: Scope, permanent: bool, expiresAt: Option<int>)

  // -------------------------------------------------------------------------------------------
  // The clauses

  predicate MovieOverlap(row: Scope, version: Option<int>) {
    if version.Some? then row.version.None? || row.version == version else row.version.None?
  }

  predicate SeriesOverlap(row: Scope, season: Option<int>, episode: Option<int>) {
    if episode.Some? then
      || (row.season.None? && row.episode.None?)
      || (row.season == season && row.episode.None?)
      || row.episode == episode
    else if season.Some? then
      || (row.season.None? && row.episode.None?)
      || (row.season == season && row.episode.None?)
    else row.season.None? && row.episode.None?
  }

  predicate IsInForce(row: Row, now: int) {
    row.permanent || row.expiresAt.None? || row.expiresAt.value > now
  }

  /** The rows an upsert may reuse. */
  predicate Reusable(row: Row, target: Scope, now: int) {
    && !row.fromRule
    && row.scope.mediaType == target.mediaType
    && IsInForce(row, now)
    && if target.mediaType.Movie? then
         row.scope.movie == target.movie && MovieOverlap(row.scope, target.version)
       else
         row.scope.series == target.series && SeriesOverlap(row.scope, target.season, target.episode)
  }

  // -------------------------------------------------------------------------------------------
  // The scope hierarchies

  /** A place in the movie or in the series hierarchy. */
  datatype Item =
    | WholeMovie(movie: Option<int>)
    | MovieFile(movie: Option<int>, version: int)
    | WholeSeries(series: Option<int>)
    | WholeSeason(series: Option<int>, season: int)
    | OneEpisode(series: Option<int>, episode: int)

  /** The item a scope names. */
  function ItemOf(scope: Scope): Item {
    if scope.mediaType.Movie? then
      match scope.version
      case None => WholeMovie(scope.movie)
      case Some(version) => MovieFile(scope.movie, version)
    else
      match scope.episode
      case Some(episode) => OneEpisode(scope.series, episode)
      case None =>
        match scope.season
        case Some(season) => WholeSeason(scope.series, season)
        case None => WholeSeries(scope.series)
  }

  /** Directly above an item; `seasonOf` says which season an episode belongs to. */
  function Parent(item: Item, seasonOf: int -> int): Option<Item> {
    match item
    case MovieFile(movie, _) => Some(WholeMovie(movie))
    case WholeSeason(series, _) => Some(WholeSeries(series))
    case OneEpisode(series, episode) => Some(WholeSeason(series, seasonOf(episode)))
    case _ => None
  }

  /** The item itself or something above it. */
  predicate Contains(outer: Item, inner: Item, seasonOf: int -> int)
    decreases match inner case OneEpisode(_, _) => 2 case WholeSeason(_, _) => 1 case MovieFile(_, _) => 1 case _ => 0
  {
    outer == inner
    || (Parent(inner, seasonOf).Some? && Contains(outer, Parent(inner, seasonOf).value, seasonOf))
  }

  /** An episode scope names the season of its episode. */
  predicate NamesItsSeason(scope: Scope, seasonOf: int -> int) {
    scope.mediaType.Series? && scope.episode.Some? ==> scope.season == Some(seasonOf(scope.episode.value))
  }

  predicate SameTitle(row: Scope, target: Scope) {
    row.mediaType == target.mediaType
    && if target.mediaType.Movie? then row.movie == target.movie else row.series == target.series
  }

  predicate Overlaps(row: Scope, target: Scope) {
    SameTitle(row, target)
    && if target.mediaType.Movie? then MovieOverlap(row, target.version)
       else SeriesOverlap(row, target.season, target.episode)
  }

  /** The clauses select exactly the rows whose item contains the target's, in both hierarchies. */
  lemma OverlapIsContainment(row: Scope, target: Scope, seasonOf: int -> int)
    requires NamesItsSeason(target, seasonOf)
    ensures Overlaps(row, target) == Contains(ItemOf(row), ItemOf(target), seasonOf)
  {
    var item := ItemOf(target);
    if Parent(item, seasonOf).Some? {
      var above := Parent(item, seasonOf).value;
      assert Contains(ItemOf(row), item, seasonOf) == (ItemOf(row) == item || Contains(ItemOf(row), above, seasonOf));
      if Parent(above, seasonOf).Some? {
        var top := Parent(above, seasonOf).value;
        assert Contains(ItemOf(row), top, seasonOf) == (ItemOf(row) == top);
      }
    }
  }

  /**
   The clauses are right for every row exactly when an episode target names its season: without it
   they miss a protection of the whole season.
   */
  lemma OverlapNeedsTheSeason(target: Scope, seasonOf: int -> int)
    requires target.mediaType.Series? && target.episode.Some?
    ensures (forall row: Scope :: Overlaps(row, target) == Contains(ItemOf(row), ItemOf(target), seasonOf))
            <==> target.season == Some(seasonOf(target.episode.value))
  {
    if target.season == Some(seasonOf(target.episode.value)) {
      forall row: Scope
        ensures Overlaps(row, target) == Contains(ItemOf(row), ItemOf(target), seasonOf)
      {
        OverlapIsContainment(row, target, seasonOf);
      }
    } else {
      var row := Scope(Series, None, None, target.series, Some(seasonOf(target.episode.value)), None);
      assert Contains(ItemOf(row), ItemOf(target), seasonOf) by {
        assert Parent(ItemOf(target), seasonOf) == Some(ItemOf(row));
      }
      assert !Overlaps(row, target);
    }
  }

  /** An episode scope of a series names the season of its episode, or none. */
  predicate NamesNoOtherSeason(scope: Scope, seasonOf: int -> int) {
    scope.mediaType.Series? && scope.episode.Some? ==>
      scope.season.None? || scope.season == Some(seasonOf(scope.episode.value))
  }

  /** A row may be reused exactly when a user made it, it is in force, and its item contains the target's. */
  lemma ReusableExactly(row: Row, target: Scope, now: int, seasonOf: int -> int)
    requires NamesItsSeason(target, seasonOf)
    ensures Reusable(row, target, now)
            <==> && !row.fromRule
                 && (row.permanent || row.expiresAt.None? || now < row.expiresAt.value)
                 && Contains(ItemOf(row.scope), ItemOf(target), seasonOf)
  {
    OverlapIsContainment(row.scope, target, seasonOf);
  }

  lemma OverlapCovers(row: Scope, target: Scope, seasonOf: int -> int)
    requires NamesNoOtherSeason(target, seasonOf) && Overlaps(row, target)
    ensures Contains(ItemOf(row), ItemOf(target), seasonOf)
  {
    if NamesItsSeason(target, seasonOf) {
      OverlapIsContainment(row, target, seasonOf);
    } else {
      var whole := WholeSeries(target.series);
      var season := WholeSeason(target.series, seasonOf(target.episode.value));
      assert Parent(ItemOf(target), seasonOf) == Some(season) && Parent(season, seasonOf) == Some(whole);
      assert Contains(whole, whole, seasonOf);
      assert Contains(whole, season, seasonOf);
    }
  }

  /** The clauses select covering rows only, exactly when an episode target names no other season than its own. */
  lemma OverlapOnlyCoversExactly(target: Scope, seasonOf: int -> int)
    ensures (forall row: Scope :: Overlaps(row, target) ==> Contains(ItemOf(row), ItemOf(target), seasonOf))
            <==> NamesNoOtherSeason(target, seasonOf)
  {
    if NamesNoOtherSeason(target, seasonOf) {
      forall row: Scope | Overlaps(row, target)
        ensures Contains(ItemOf(row), ItemOf(target), seasonOf)
      {
        OverlapCovers(row, target, seasonOf);
      }
    } else {
      var row := Scope(Series, None, None, target.series, target.season, None);
      assert Overlaps(row, target);
      var season := WholeSeason(target.series, seasonOf(target.episode.value));
      assert Parent(ItemOf(target), seasonOf) == Some(season) && ItemOf(row) != season;
      assert !Contains(ItemOf(row), WholeSeries(target.series), seasonOf);
      assert !Contains(ItemOf(row), season, seasonOf);
    }
  }

  // -------------------------------------------------------------------------------------------
  // The upsert

  datatype Request = Request(target: Scope, permanent: bool, expiresAt: Option<int>)

  /** A reused row after the request was applied to it. */
  function Widened(row: Row, request: Request): Row {
    if request.permanent && !row.permanent then
      row.(permanent := true, expiresAt := None)
    else if && !row.permanent && request.expiresAt.Some?
            && (row.expiresAt.None? || request.expiresAt.value > row.expiresAt.value) then
      row.(expiresAt := request.expiresAt)
    else row
  }

  function NewRow(request: Request): Row {
    Row(false, request.target, request.permanent, request.expiresAt)
  }

  /** `after` is in force whenever `before` is. */
  ghost predicate ProtectsNoLess(after: Row, before: Row) {
    forall t: int :: IsInForce(before, t) ==> IsInForce(after, t)
  }

  /** The request asks for protection at time `t`. */
  predicate AsksFor(request: Request, t: int) {
    request.permanent || (request.expiresAt.Some? && t < request.expiresAt.value)
  }

  /** The row is in force for as long as the request asks. */
  ghost predicate Grants(row: Row, request: Request) {
    forall t: int :: AsksFor(request, t) ==> IsInForce(row, t)
  }

  /** A protection that is not permanent has an end. */
  predicate HasEnd(row: Row) {
    row.permanent || row.expiresAt.Some?
  }

  /** A reused row grants what was asked, and protects no less exactly when no open end is cut short. */
  lemma WidenedGrants(row: Row, request: Request)
    ensures Grants(Widened(row, request), request)
    ensures ProtectsNoLess(Widened(row, request), row)
            <==> HasEnd(row) || request.permanent || request.expiresAt.None?
  {
    if !row.permanent && row.expiresAt.None? && !request.permanent && request.expiresAt.Some? {
      var t := request.expiresAt.value;
      assert IsInForce(row, t) && !IsInForce(Widened(row, request), t);
    }
  }

  /** The row is in force when `before` is or the request asks for it, and at no other time. */
  ghost predicate AddsUp(row: Row, before: Row, request: Request) {
    forall t: int :: IsInForce(row, t) <==> IsInForce(before, t) || AsksFor(request, t)
  }

  /**
   A reused row is in force exactly when it was or the request asks for it, unless an open end is cut
   short; and nothing but how long it lasts is changed.
   */
  lemma WidenedExactly(row: Row, request: Request)
    ensures AddsUp(Widened(row, request), row, request)
            <==> HasEnd(row) || request.permanent || request.expiresAt.None?
    ensures Widened(row, request).scope == row.scope && Widened(row, request).fromRule == row.fromRule
    ensures Widened(row, request).permanent <==> row.permanent || request.permanent
    ensures request.permanent && !row.permanent ==> Widened(row, request).expiresAt.None?
    ensures row.permanent || (!request.permanent && request.expiresAt.None?) ==> Widened(row, request) == row
  {
    WidenedGrants(row, request);
    if !row.permanent && row.expiresAt.None? && !request.permanent && request.expiresAt.Some? {
      var t := request.expiresAt.value;
      assert IsInForce(row, t) && !IsInForce(Widened(row, request), t);
    }
  }

  /** A new row is the user's, names the target, and is in force as long as the request asks or has no end. */
  lemma NewRowIs(request: Request, t: int)
    ensures NewRow(request).scope == request.target && !NewRow(request).fromRule
    ensures NewRow(request).permanent == request.permanent
    ensures IsInForce(NewRow(request), t) <==> AsksFor(request, t) || (!request.permanent && request.expiresAt.None?)
  {
  }

  /** The rows an upsert may leave behind, for some row that the query may have returned. */
  ghost predicate UpsertStep(before: seq<Row>, after: seq<Row>, request: Request, now: int) {
    || ((forall i :: 0 <= i < |before| ==> !Reusable(before[i], request.target, now))
        && after == before + [NewRow(request)])
    || (exists i :: 0 <= i < |before| && Reusable(before[i], request.target, now)
                    && after == before[i := Widened(before[i], request)])
  }

  class ProtectionTable {
    var rows: seq<Row>

    constructor ()
      ensures rows == []
    {
      rows := [];
    }

    /**
     Protects a target: reuses any one row that is in force and overlaps it, whichever the query
     returns first, and inserts a row only when there is none.
     */
    method Upsert(request: Request, now: int, ghost seasonOf: int -> int) returns (index: nat, created: bool)
      modifies this
      ensures index < |rows|
      ensures created <==> forall i :: 0 <= i < |old(rows)| ==> !Reusable(old(rows)[i], request.target, now)
      ensures created ==> rows == old(rows) + [NewRow(request)] && index == |old(rows)|
      ensures !created ==> index < |old(rows)| && Reusable(old(rows)[index], request.target, now)
                           && rows == old(rows)[index := Widened(old(rows)[index], request)]
      ensures UpsertStep(old(rows), rows, request, now)
      ensures forall i :: 0 <= i < |old(rows)| && old(rows)[i].fromRule ==> rows[i] == old(rows)[i]
      ensures NamesNoOtherSeason(request.target, seasonOf) ==>
                Contains(ItemOf(rows[index].scope), ItemOf(request.target), seasonOf)
      ensures Grants(rows[index], request)
      ensures forall i :: 0 <= i < |old(rows)| ==> rows[i].scope == old(rows)[i].scope
      ensures forall i :: 0 <= i < |old(rows)| && HasEnd(old(rows)[i]) ==> ProtectsNoLess(rows[i], old(rows)[i])
      ensures (forall i :: 0 <= i < |old(rows)| ==> HasEnd(old(rows)[i])) && (request.permanent || request.expiresAt.Some?)
              ==> forall i :: 0 <= i < |rows| ==> HasEnd(rows[i])
    {
      if exists i :: 0 <= i < |rows| && Reusable(rows[i], request.target, now) {
        var found: nat :| found < |rows| && Reusable(rows[found], request.target, now);
        index, created := found, false;
        WidenedGrants(rows[index], request);
        if NamesNoOtherSeason(request.target, seasonOf) {
          OverlapCovers(rows[index].scope, request.target, seasonOf);
        }
        rows := rows[index := Widened(rows[index], request)];
      } else {
        index, created := |rows|, true;
        rows := rows + [NewRow(request)];
      }
    }
  }

  /** A row without an end is in force forever, yet a request with one cuts it short. */
  lemma OpenEndIsCutShort(scope: Scope, until: int)
    ensures var row := Row(false, scope, false, None);
            var request := Request(scope, false, Some(until));
            && IsInForce(row, until) && !IsInForce(Widened(row, request), until)
            && !ProtectsNoLess(Widened(row, request), row)
  {
    WidenedGrants(Row(false, scope, false, None), Request(scope, false, Some(until)));
  }

  // -------------------------------------------------------------------------------------------
  // Whole runs

  /** Some row protects the item at time `t`. */
  ghost predicate Protected(rows: seq<Row>, item: Item, t: int, seasonOf: int -> int) {
    exists i :: 0 <= i < |rows| && IsInForce(rows[i], t) && Contains(ItemOf(rows[i].scope), item, seasonOf)
  }

  predicate AllHaveEnds(rows: seq<Row>) {
    forall i :: 0 <= i < |rows| ==> HasEnd(rows[i])
  }

  predicate IsFinite(request: Request) {
    request.permanent || request.expiresAt.Some?
  }

  /** One upsert takes protection from nothing and protects its target as asked. */
  lemma UpsertOnlyWidens(
    before: seq<Row>, after: seq<Row>, request: Request, now: int, item: Item, t: int, seasonOf: int -> int
  )
    requires UpsertStep(before, after, request, now) && AllHaveEnds(before) && IsFinite(request)
    ensures AllHaveEnds(after)
    ensures Protected(before, item, t, seasonOf) ==> Protected(after, item, t, seasonOf)
    ensures AsksFor(request, t) && NamesNoOtherSeason(request.target, seasonOf) ==>
              Protected(after, ItemOf(request.target), t, seasonOf)
  {
    if i :| 0 <= i < |before| && Reusable(before[i], request.target, now)
            && after == before[i := Widened(before[i], request)]
    {
      WidenedGrants(before[i], request);
      if NamesNoOtherSeason(request.target, seasonOf) {
        OverlapCovers(before[i].scope, request.target, seasonOf);
        if AsksFor(request, t) {
          assert IsInForce(after[i], t) && Contains(ItemOf(after[i].scope), ItemOf(request.target), seasonOf);
        }
      }
      if k :| 0 <= k < |before| && IsInForce(before[k], t) && Contains(ItemOf(before[k].scope), item, seasonOf) {
        assert IsInForce(after[k], t) && Contains(ItemOf(after[k].scope), item, seasonOf);
      }
    } else {
      var last := |before|;
      assert after[last] == NewRow(request);
      assert Contains(ItemOf(after[last].scope), ItemOf(request.target), seasonOf);
      assert AsksFor(request, t) ==> IsInForce(after[last], t);
      if k :| 0 <= k < |before| && IsInForce(before[k], t) && Contains(ItemOf(before[k].scope), item, seasonOf) {
        assert after[k] == before[k];
      }
    }
  }

  /** A new row protects its target and what is below it, as long as was asked, and nothing else. */
  lemma NewRowProtectsExactly(before: seq<Row>, request: Request, item: Item, t: int, seasonOf: int -> int)
    requires IsFinite(request)
    ensures Protected(before + [NewRow(request)], item, t, seasonOf)
            <==> Protected(before, item, t, seasonOf)
                 || (AsksFor(request, t) && Contains(ItemOf(request.target), item, seasonOf))
  {
    var after := before + [NewRow(request)];
    NewRowIs(request, t);
    assert after[|before|] == NewRow(request);
    if k :| 0 <= k < |before| && IsInForce(before[k], t) && Contains(ItemOf(before[k].scope), item, seasonOf) {
      assert after[k] == before[k];
    }
    if k :| 0 <= k < |after| && IsInForce(after[k], t) && Contains(ItemOf(after[k].scope), item, seasonOf) {
      assert k < |before| ==> after[k] == before[k];
    }
  }

  /** A reused row extends what it protects, its own item and all below it, as long as was asked, and nothing else. */
  lemma WidenedProtectsExactly(before: seq<Row>, i: nat, request: Request, item: Item, t: int, seasonOf: int -> int)
    requires i < |before| && HasEnd(before[i])
    ensures Protected(before[i := Widened(before[i], request)], item, t, seasonOf)
            <==> Protected(before, item, t, seasonOf)
                 || (AsksFor(request, t) && Contains(ItemOf(before[i].scope), item, seasonOf))
  {
    var after := before[i := Widened(before[i], request)];
    WidenedExactly(before[i], request);
    assert IsInForce(after[i], t) <==> IsInForce(before[i], t) || AsksFor(request, t);
    if k :| 0 <= k < |before| && IsInForce(before[k], t) && Contains(ItemOf(before[k].scope), item, seasonOf) {
      assert IsInForce(after[k], t) && after[k].scope == before[k].scope;
    }
    if k :| 0 <= k < |after| && IsInForce(after[k], t) && Contains(ItemOf(after[k].scope), item, seasonOf) {
      assert after[k].scope == before[k].scope && (k != i ==> after[k] == before[k]);
    }
  }

  /** A run of upserts at arbitrary times: `states[k + 1]` comes from `states[k]` by `requests[k]`. */
  ghost predicate IsRun(states: seq<seq<Row>>, requests: seq<Request>, times: seq<int>) {
    && |states| == |requests| + 1 && |times| == |requests|
    && AllHaveEnds(states[0])
    && (forall k :: 0 <= k < |requests| ==> IsFinite(requests[k]))
    && (forall k :: 0 <= k < |requests| ==> UpsertStep(states[k], states[k + 1], requests[k], times[k]))
  }

  /** Whatever is protected at some point of a run stays protected for the rest of it. */
  lemma {:induction false} RunOnlyWidens(
    states: seq<seq<Row>>, requests: seq<Request>, times: seq<int>,
    first: nat, last: nat, item: Item, t: int, seasonOf: int -> int
  )
    requires IsRun(states, requests, times) && first <= last < |states|
    ensures AllHaveEnds(states[last])
    ensures Protected(states[first], item, t, seasonOf) ==> Protected(states[last], item, t, seasonOf)
    decreases last
  {
    if last > 0 {
      RunOnlyWidens(states, requests, times, if first < last then first else last - 1, last - 1, item, t, seasonOf);
      var k := last - 1;
      UpsertOnlyWidens(states[k], states[k + 1], requests[k], times[k], item, t, seasonOf);
    }
  }

  /** At the end of a run every target ever requested is protected for as long as was asked. */
  lemma EveryRequestIsHonoured(
    states: seq<seq<Row>>, requests: seq<Request>, times: seq<int>, k: nat, t: int, seasonOf: int -> int
  )
    requires IsRun(states, requests, times) && k < |requests|
    requires NamesNoOtherSeason(requests[k].target, seasonOf) && AsksFor(requests[k], t)
    ensures Protected(states[|requests|], ItemOf(requests[k].target), t, seasonOf)
  {
    var item := ItemOf(requests[k].target);
    RunOnlyWidens(states, requests, times, 0, k, item, t, seasonOf);
    UpsertOnlyWidens(states[k], states[k + 1], requests[k], times[k], item, t, seasonOf);
    RunOnlyWidens(states, requests, times, k + 1, |requests|, item, t, seasonOf);
  }
}
