/** The disk resolver: an accessible local path first, then the service entries, behind a cache. */
module DiskCache {
  import opened Basics
  import opened DiskStats

  // -------------------------------------------------------------------------------------------
  // Local paths

  /** A name counts unless it is empty or a dot. */
  function NameOf(segment: string): seq<string> {
    if segment == "" || segment == "." then [] else [segment]
  }

  /** The names between the slashes of `current + text`, of which `current` was read already. */
  function NamesFrom(current: string, text: string): seq<string>
    decreases |text|
  {
    if text == "" then NameOf(current)
    else if text[0] == '/' then NameOf(current) + NamesFrom("", text[1..])
    else NamesFrom(current + [text[0]], text[1..])
  }

  function LeadingSlashes(text: string): nat {
    if text != "" && text[0] == '/' then 1 + LeadingSlashes(text[1..]) else 0
  }

  /** Two leading slashes are an anchor of their own; any other number of them is the root. */
  function AnchorOf(text: string): string {
    match LeadingSlashes(text) case 0 => "" case 2 => "//" case _ => "/"
  }

  function PathOf(text: string): LocalPath {
    LocalPath(AnchorOf(text), NamesFrom("", text))
  }

  lemma {:induction false} NamesOfSegment(current: string, segment: string)
    requires '/' !in segment
    ensures NamesFrom(current, segment) == NameOf(current + segment)
    decreases |segment|
  {
    if segment == "" {
      assert current + segment == current;
    } else {
      NamesOfSegment(current + [segment[0]], segment[1..]);
      assert current + [segment[0]] + segment[1..] == current + segment;
    }
  }

  lemma {:induction false} NamesSplitFrom(current: string, a: string, b: string)
    ensures NamesFrom(current, a + "/" + b) == NamesFrom(current, a) + NamesFrom("", b)
    decreases |a|
  {
    var text := a + "/" + b;
    if a == "" {
      assert text[1..] == b;
    } else {
      assert text[1..] == a[1..] + "/" + b;
      NamesSplitFrom(if a[0] == '/' then "" else current + [a[0]], a[1..], b);
      if a[0] == '/' { ConcatAssociates(NameOf(current), NamesFrom("", a[1..]), NamesFrom("", b)); }
    }
  }

  /** A segment is a name unless it is empty or a dot. */
  lemma SegmentName(segment: string)
    requires '/' !in segment
    ensures PathOf(segment).names == if segment in {"", "."} then [] else [segment]
  {
    NamesOfSegment("", segment);
    assert "" + segment == segment;
  }

  /** The names of a text are those of its parts, split at any slash. */
  lemma NamesSplit(a: string, b: string)
    ensures PathOf(a + "/" + b).names == PathOf(a).names + PathOf(b).names
  {
    NamesSplitFrom("", a, b);
  }

  /** The anchor tells no, exactly two, and any other number of leading slashes apart. */
  lemma AnchorMeans(text: string)
    ensures AnchorOf(text) == if text == "" || text[0] != '/' then ""
                              else if |text| > 1 && text[1] == '/' && (|text| == 2 || text[2] != '/') then "//"
                              else "/"
  {
    if text != "" && text[0] == '/' {
      assert LeadingSlashes(text) == 1 + LeadingSlashes(text[1..]);
      if |text| > 1 && text[1] == '/' {
        assert text[1..][1..] == text[2..];
        assert LeadingSlashes(text[1..]) == 1 + LeadingSlashes(text[2..]);
      }
    }
  }

  // -------------------------------------------------------------------------------------------
  // Where a path is looked for

  /** The prefix a mapping replaces; empty when it has none. */
  function SourceOf(mapping: Mapping): string {
    if Normal(mapping.source) != "" then Normal(mapping.source) else if IsRoot(mapping.source) then "/" else ""
  }

  predicate MatchesLocally(mapping: Mapping, normal: string, serviceType: Option<string>) {
    AppliesToScope(mapping, serviceType, None) && SourceOf(mapping) != "" && IsWithinMount(normal, SourceOf(mapping))
  }

  predicate HasConfig(mapping: Mapping) {
    mapping.configId.Some? && mapping.configId.value != 0
  }

  /** Mappings of the very service type come before those of any type. */
  function Rank(serviceType: Option<string>): Mapping -> int {
    (mapping: Mapping) =>
      if HasConfig(mapping) then 3
      else if serviceType.Some? && serviceType.value != "" && Lower(mapping.serviceType) == Lower(serviceType.value) then 1
      else if mapping.serviceType == "" then 2
      else 3
  }

  function FirstMatching(mappings: seq<Mapping>, normal: string, serviceType: Option<string>): Option<Mapping> {
    if mappings == [] then None
    else if MatchesLocally(mappings[0], normal, serviceType) then Some(mappings[0])
    else FirstMatching(mappings[1..], normal, serviceType)
  }

  /** The mapping that decides where a path is looked for. */
  function MappingFor(mappings: seq<Mapping>, call: Call): Option<Mapping> {
    var byLength := SortedBy(MappingOrder, mappings);
    FirstMatching(SortedBy(Rank(call.mediaType), byLength), Normal(call.path), call.mediaType)
  }

  lemma {:induction false} FirstMatchingIsPreferred(
    mappings: seq<Mapping>, normal: string, serviceType: Option<string>, other: Mapping
  )
    requires AscendingByBoth(Rank(serviceType), MappingOrder, mappings)
    requires other in mappings && MatchesLocally(other, normal, serviceType)
    ensures match FirstMatching(mappings, normal, serviceType)
            case None => false
            case Some(mapping) =>
              && mapping in mappings && MatchesLocally(mapping, normal, serviceType)
              && NoLater(Rank(serviceType), MappingOrder, mapping, other)
  {
    assert mappings == [mappings[0]] + mappings[1..];
    if !MatchesLocally(mappings[0], normal, serviceType) {
      FirstMatchingIsPreferred(mappings[1..], normal, serviceType, other);
    }
  }

  /**
   The mapping that decides is one of those that match, and none of these is preferred to it: neither
   by naming the very service type, nor among equals by a longer source.
   */
  lemma MappingForIsPreferred(mappings: seq<Mapping>, call: Call, other: Mapping)
    requires other in mappings && MatchesLocally(other, Normal(call.path), call.mediaType)
    ensures match MappingFor(mappings, call)
            case None => false
            case Some(mapping) =>
              && mapping in mappings && MatchesLocally(mapping, Normal(call.path), call.mediaType)
              && NoLater(Rank(call.mediaType), MappingOrder, mapping, other)
  {
    var byLength := SortedBy(MappingOrder, mappings);
    SortKeepsItems(MappingOrder, mappings);
    var byRank := SortedBy(Rank(call.mediaType), byLength);
    SortKeepsEarlierOrder(Rank(call.mediaType), MappingOrder, byLength);
    SortKeepsItem(MappingOrder, mappings, other);
    SortKeepsItem(Rank(call.mediaType), byLength, other);
    FirstMatchingIsPreferred(byRank, Normal(call.path), call.mediaType, other);
    var mapping := MappingFor(mappings, call).value;
    SortKeepsItem(Rank(call.mediaType), byLength, mapping);
    SortKeepsItem(MappingOrder, mappings, mapping);
  }

  /**
   A mapping matches locally exactly when it has no configuration, is for the type asked for or for all, and
   its source holds the path; the root is a source of its own.
   */
  lemma MatchesLocallyExactly(mapping: Mapping, normal: string, serviceType: Option<string>)
    ensures MatchesLocally(mapping, normal, serviceType)
            <==> && mapping.configId.None?
                 && (mapping.serviceType == "" || Some(Lower(mapping.serviceType)) == LowerOf(serviceType))
                 && if Normal(mapping.source) == "" then
                      Slashes(Strip(mapping.source)) == "/" && normal != "" && normal[0] == '/'
                    else
                      IsWithinMount(normal, Normal(mapping.source))
  {
    AppliesExactly(mapping, serviceType, None);
    if Normal(mapping.source) == "" && IsRoot(mapping.source) {
      WithinMountMeans(normal, "/");
    }
  }

  lemma LocalMatchIs(mapping: Mapping, normal: string, serviceType: Option<string>)
    requires MatchesLocally(mapping, normal, serviceType)
    ensures Rank(serviceType)(mapping) == if mapping.serviceType != "" then 1 else 2
  {
    if mapping.serviceType != "" {
      assert Lower(mapping.serviceType) != "";
      assert serviceType.value != "" by { assert |Lower(serviceType.value)| == |serviceType.value|; }
    } else if serviceType.Some? && serviceType.value != "" {
      assert |Lower(mapping.serviceType)| != |Lower(serviceType.value)|;
    }
  }

  /**
   So a mapping for the service type asked for is preferred to one for all types, and among mappings of
   one kind none with a longer source is passed over.
   */
  lemma MappingForMeans(mappings: seq<Mapping>, call: Call, other: Mapping)
    requires other in mappings && MatchesLocally(other, Normal(call.path), call.mediaType)
    ensures match MappingFor(mappings, call)
            case None => false
            case Some(mapping) =>
              && (other.serviceType != "" ==> mapping.serviceType != "")
              && ((other.serviceType == "") == (mapping.serviceType == "") ==> |mapping.source| >= |other.source|)
  {
    MappingForIsPreferred(mappings, call, other);
    LocalMatchIs(other, Normal(call.path), call.mediaType);
    LocalMatchIs(MappingFor(mappings, call).value, Normal(call.path), call.mediaType);
  }

  lemma {:induction false} FirstMatchingMatches(mappings: seq<Mapping>, normal: string, serviceType: Option<string>)
    ensures match FirstMatching(mappings, normal, serviceType)
            case None => forall m :: m in mappings ==> !MatchesLocally(m, normal, serviceType)
            case Some(mapping) => mapping in mappings && MatchesLocally(mapping, normal, serviceType)
  {
    if mappings != [] {
      assert mappings == [mappings[0]] + mappings[1..];
      FirstMatchingMatches(mappings[1..], normal, serviceType);
    }
  }

  /** The mapping that decides is one of those that match; there is none exactly when none matches. */
  lemma MappingForMatches(mappings: seq<Mapping>, call: Call)
    ensures match MappingFor(mappings, call)
            case None => forall m :: m in mappings ==> !MatchesLocally(m, Normal(call.path), call.mediaType)
            case Some(mapping) => mapping in mappings && MatchesLocally(mapping, Normal(call.path), call.mediaType)
  {
    var byLength := SortedBy(MappingOrder, mappings);
    var byRank := SortedBy(Rank(call.mediaType), byLength);
    FirstMatchingMatches(byRank, Normal(call.path), call.mediaType);
    forall m ensures (m in byRank) == (m in mappings) {
      SortKeepsItem(MappingOrder, mappings, m);
      SortKeepsItem(Rank(call.mediaType), byLength, m);
    }
  }

  /**
   The local path that is looked up: through the first mapping that matches the normal form, and else
   the raw text of the path.
   */
  function LocalPathOf(mappings: seq<Mapping>, call: Call): Option<LocalPath> {
    if call.path == "" then None
    else
      match MappingFor(mappings, call)
      case None => Some(PathOf(call.path))
      case Some(mapping) =>
        var local, source := PathOf(Strip(mapping.local)), SourceOf(mapping);
        var rest := if |source| <= |Normal(call.path)| then Normal(call.path)[|source|..] else "";
        Some(LocalPath(local.anchor, local.names + NamesFrom("", rest)))
  }

  /** Under a mapping the names after its source stand behind those of its local path. */
  lemma MappedLocally(mappings: seq<Mapping>, call: Call, mapping: Mapping) returns (rest: string)
    requires MappingFor(mappings, call) == Some(mapping) && call.path != ""
    ensures Normal(call.path) == SourceOf(mapping) + rest
    ensures var local := PathOf(Strip(mapping.local));
            LocalPathOf(mappings, call) == Some(LocalPath(local.anchor, local.names + PathOf(rest).names))
  {
    MappingForMatches(mappings, call);
    WithinMountMeans(Normal(call.path), SourceOf(mapping));
    rest := Normal(call.path)[|SourceOf(mapping)|..];
    assert Normal(call.path)[..|SourceOf(mapping)|] == SourceOf(mapping);
  }

  /** The statistics of the local path, if there is one and it can be read. */
  function ResolveLocal(world: World, call: Call): Option<Stats> {
    match LocalPathOf(world.mappings, call)
    case None => None
    case Some(path) => world.disk(path)
  }

  // -------------------------------------------------------------------------------------------
  // The lookup without a cache

  /** An accessible local path first, then the entries. */
  ghost predicate IsAnswer(world: World, call: Call, answer: Option<Stats>) {
    match ResolveLocal(world, call)
    case Some(stats) => answer == Some(stats)
    case None => IsArrAnswer(world, call, answer)
  }

  lemma AnswerIsUnique(world: World, call: Call, a: Option<Stats>, b: Option<Stats>)
    requires IsAnswer(world, call, a) && IsAnswer(world, call, b)
    ensures a == b
  {
    if ResolveLocal(world, call).None? {
      ArrAnswerIsUnique(world, call, a, b);
    }
  }

  method ResolveUncached(world: World, call: Call) returns (answer: Option<Stats>)
    ensures IsAnswer(world, call, answer)
  {
    answer := ResolveLocal(world, call);
    if answer.None? {
      answer := ResolveArr(world, call);
    }
  }

  // -------------------------------------------------------------------------------------------
  // The cache

  /** What answers are stored under: the normal form and both service types. */
  type Key = (string, Option<string>, Option<string>)

  type Cache = map<Key, Option<Stats>>

  function KeyOf(call: Call): Key {
    (Normal(call.path), call.mediaType, call.arrType)
  }

  /** Two calls share a cache entry. */
  predicate SameKey(a: Call, b: Call) {
    KeyOf(a) == KeyOf(b)
  }

  /** The first call that shares the cache entry of `call`. */
  function FirstWithKey(calls: seq<Call>, call: Call): (first: Call)
    ensures SameKey(first, call)
    ensures first in calls + [call]
  {
    if calls == [] then call
    else if SameKey(calls[0], call) then calls[0]
    else FirstWithKey(calls[1..], call)
  }

  predicate IsKnown(calls: seq<Call>, call: Call) {
    calls != [] && (SameKey(calls[0], call) || IsKnown(calls[1..], call))
  }

  lemma {:induction false} KnownAfterAppend(calls: seq<Call>, call: Call, c: Call)
    ensures IsKnown(calls + [call], c) == (IsKnown(calls, c) || SameKey(call, c))
  {
    if calls == [] {
      assert calls + [call] == [call] && [call][1..] == [];
    } else {
      KnownAfterAppend(calls[1..], call, c);
      assert (calls + [call])[1..] == calls[1..] + [call];
    }
  }

  /** A call that shares its key with an earlier one keeps its first call. */
  lemma {:induction false} FirstOfKnown(calls: seq<Call>, call: Call, c: Call)
    requires IsKnown(calls, c)
    ensures FirstWithKey(calls + [call], c) == FirstWithKey(calls, c)
  {
    assert (calls + [call])[0] == calls[0] && (calls + [call])[1..] == calls[1..] + [call];
    if !SameKey(calls[0], c) {
      FirstOfKnown(calls[1..], call, c);
    }
  }

  /** The first call with a new key is the one that just came. */
  lemma {:induction false} FirstOfNew(calls: seq<Call>, call: Call, c: Call)
    requires !IsKnown(calls, c) && SameKey(call, c)
    ensures FirstWithKey(calls + [call], c) == call
  {
    if calls == [] {
      assert calls + [call] == [call];
    } else {
      assert (calls + [call])[0] == calls[0] && (calls + [call])[1..] == calls[1..] + [call];
      FirstOfNew(calls[1..], call, c);
    }
  }

  lemma {:induction false} UnknownIsFirst(calls: seq<Call>, call: Call)
    requires !IsKnown(calls, call)
    ensures FirstWithKey(calls, call) == call
  {
    if calls != [] {
      UnknownIsFirst(calls[1..], call);
    }
  }

  /** Calls with the same key are known, and have their first call, alike. */
  lemma {:induction false} SameKeySameFirst(calls: seq<Call>, a: Call, b: Call)
    requires SameKey(a, b)
    ensures IsKnown(calls, a) == IsKnown(calls, b)
    ensures IsKnown(calls, a) ==> FirstWithKey(calls, a) == FirstWithKey(calls, b)
  {
    if calls != [] {
      SameKeySameFirst(calls[1..], a, b);
    }
  }

  /** The cache holds a call's key when one like it was asked, and then the answer to the first of these. */
  ghost predicate Remembers(world: World, cache: Cache, calls: seq<Call>, call: Call) {
    match IsKnown(calls, call)
    case true => KeyOf(call) in cache && IsAnswer(world, FirstWithKey(calls, call), cache[KeyOf(call)])
    case false => KeyOf(call) !in cache
  }

  /** A hit leaves the cache as it is. */
  lemma HitIsRemembered(world: World, cache: Cache, calls: seq<Call>, call: Call, c: Call)
    requires Remembers(world, cache, calls, c) && IsKnown(calls, call)
    ensures Remembers(world, cache, calls + [call], c)
  {
    KnownAfterAppend(calls, call, c);
    if IsKnown(calls, c) {
      FirstOfKnown(calls, call, c);
    } else if SameKey(call, c) {
      SameKeySameFirst(calls, call, c);
    }
  }

  /** A miss stores the answer to the new call. */
  lemma MissIsRemembered(world: World, cache: Cache, calls: seq<Call>, call: Call, answer: Option<Stats>, c: Call)
    requires Remembers(world, cache, calls, c) && !IsKnown(calls, call) && IsAnswer(world, call, answer)
    ensures Remembers(world, cache[KeyOf(call) := answer], calls + [call], c)
  {
    KnownAfterAppend(calls, call, c);
    if SameKey(call, c) {
      SameKeySameFirst(calls, call, c);
      FirstOfNew(calls, call, c);
    } else if IsKnown(calls, c) {
      FirstOfKnown(calls, call, c);
    }
  }

  /** One call against a cache: the answer to the first call with its key, and the cache afterwards. */
  method ResolveCached(world: World, cache: Cache, ghost calls: seq<Call>, call: Call)
    returns (answer: Option<Stats>, next: Cache)
    requires forall c: Call :: Remembers(world, cache, calls, c)
    ensures IsAnswer(world, FirstWithKey(calls, call), answer)
    ensures forall c: Call :: Remembers(world, next, calls + [call], c)
  {
    assert Remembers(world, cache, calls, call);
    if KeyOf(call) in cache {
      answer, next := cache[KeyOf(call)], cache;
      forall c: Call
        ensures Remembers(world, next, calls + [call], c)
      {
        HitIsRemembered(world, cache, calls, call, c);
      }
    } else {
      UnknownIsFirst(calls, call);
      answer := ResolveUncached(world, call);
      next := cache[KeyOf(call) := answer];
      forall c: Call
        ensures Remembers(world, next, calls + [call], c)
      {
        MissIsRemembered(world, cache, calls, call, answer, c);
      }
    }
  }

  class Resolver {
    const world: World
    var cache: Cache
    /** Every call so far. */
    ghost var calls: seq<Call>

    ghost predicate Valid()
      reads this
    {
      forall call: Call :: Remembers(world, cache, calls, call)
    }

    constructor (entries: seq<Entry>, mappings: seq<Mapping>, disk: LocalPath -> Option<Stats>)
      ensures Valid() && calls == []
      ensures world == World(SortedBy(EntryOrder, entries), SortedBy(MappingOrder, mappings), disk)
    {
      world := World(SortedBy(EntryOrder, entries), SortedBy(MappingOrder, mappings), disk);
      cache := map[];
      calls := [];
    }

    /** Answers what the first call with the same key was answered without a cache. */
    method Resolve(call: Call) returns (answer: Option<Stats>)
      requires Valid()
      modifies this
      ensures Valid() && calls == old(calls) + [call]
      ensures IsAnswer(world, FirstWithKey(old(calls), call), answer)
    {
      var next;
      answer, next := ResolveCached(world, cache, calls, call);
      cache, calls := next, calls + [call];
    }
  }

  // -------------------------------------------------------------------------------------------
  // Whole runs

  /** A call of a run stays the reason why others with its key are known. */
  lemma {:induction false} FirstIsSharedBy(calls: seq<Call>, j: nat, k: nat, c: Call)
    requires j < k <= |calls| && SameKey(calls[j], c)
    ensures IsKnown(calls[..k], c) && FirstWithKey(calls[..k], c) == FirstWithKey(calls[..j], calls[j])
    decreases k
  {
    var front, last := calls[..k - 1], calls[k - 1];
    assert calls[..k] == front + [last];
    KnownAfterAppend(front, last, c);
    if j < k - 1 {
      FirstIsSharedBy(calls, j, k - 1, c);
      FirstOfKnown(front, last, c);
    } else {
      SameKeySameFirst(front, last, c);
      if IsKnown(front, c) {
        FirstOfKnown(front, last, c);
      } else {
        FirstOfNew(front, last, c);
        UnknownIsFirst(front, last);
      }
    }
  }

  /** Two calls of a run that share a key have the same first call. */
  lemma FirstIsShared(calls: seq<Call>, j: nat, k: nat)
    requires j < k < |calls| && SameKey(calls[j], calls[k])
    ensures FirstWithKey(calls[..j], calls[j]) == FirstWithKey(calls[..k], calls[k])
  {
    FirstIsSharedBy(calls, j, k, calls[k]);
  }

  /** What a resolver answers over a run, by the contract of `Resolve`. */
  ghost predicate IsRun(world: World, calls: seq<Call>, answers: seq<Option<Stats>>) {
    |answers| == |calls|
    && forall k :: 0 <= k < |calls| ==> IsAnswer(world, FirstWithKey(calls[..k], calls[k]), answers[k])
  }

  /** Without a cache both calls are answered alike. */
  ghost predicate AnsweredAlike(world: World, a: Call, b: Call) {
    exists answer :: IsAnswer(world, a, answer) && IsAnswer(world, b, answer)
  }

  lemma SharersAreAlike(world: World, calls: seq<Call>, answers: seq<Option<Stats>>, j: nat, k: nat)
    requires IsRun(world, calls, answers) && j < k < |calls| && SameKey(calls[j], calls[k])
    requires IsAnswer(world, calls[j], answers[j]) && IsAnswer(world, calls[k], answers[k])
    ensures AnsweredAlike(world, calls[j], calls[k])
  {
    FirstIsShared(calls, j, k);
    AnswerIsUnique(world, FirstWithKey(calls[..k], calls[k]), answers[j], answers[k]);
  }

  /** A call of the run that is not answered as without a cache shares its key with an unlike one. */
  lemma WrongAnswerIsShared(world: World, calls: seq<Call>, answers: seq<Option<Stats>>, k: nat) returns (j: nat)
    requires IsRun(world, calls, answers) && k < |calls| && !IsAnswer(world, calls[k], answers[k])
    ensures j < k && SameKey(calls[j], calls[k]) && !AnsweredAlike(world, calls[j], calls[k])
  {
    var first := FirstWithKey(calls[..k], calls[k]);
    assert IsAnswer(world, first, answers[k]);
    assert first in calls[..k];
    j :| j < k && calls[j] == first;
    if AnsweredAlike(world, first, calls[k]) {
      var answer :| IsAnswer(world, first, answer) && IsAnswer(world, calls[k], answer);
      AnswerIsUnique(world, first, answer, answers[k]);
    }
  }

  /** Every call of the run is answered as without a cache. */
  ghost predicate IsTransparent(world: World, calls: seq<Call>, answers: seq<Option<Stats>>)
    requires |answers| == |calls|
  {
    forall k :: 0 <= k < |calls| ==> IsAnswer(world, calls[k], answers[k])
  }

  /**
   A run is answered as if there were no cache exactly when calls that share a cache entry have the
   same answer without it.
   */
  lemma CacheIsTransparentExactlyWhen(world: World, calls: seq<Call>, answers: seq<Option<Stats>>)
    requires IsRun(world, calls, answers)
    ensures IsTransparent(world, calls, answers)
            <==> (forall j, k :: 0 <= j < k < |calls| && SameKey(calls[j], calls[k]) ==>
                    AnsweredAlike(world, calls[j], calls[k]))
  {
    if IsTransparent(world, calls, answers) {
      forall j, k | 0 <= j < k < |calls| && SameKey(calls[j], calls[k])
        ensures AnsweredAlike(world, calls[j], calls[k])
      {
        SharersAreAlike(world, calls, answers, j, k);
      }
    } else {
      var k :| 0 <= k < |calls| && !IsAnswer(world, calls[k], answers[k]);
      var j := WrongAnswerIsShared(world, calls, answers, k);
    }
  }

  // -------------------------------------------------------------------------------------------
  // Which calls are safe

  /** Calls that share a key have the same offers, unless only one of them asks for a root. */
  lemma SameOffer(world: World, a: Call, b: Call, o: Offer)
    requires SameKey(a, b) && (Normal(a.path) != "" || IsRoot(a.path) == IsRoot(b.path))
    ensures IsOffer(world, a, o) == IsOffer(world, b, o)
  {
    VariantsDependOnNormalForm(a.path, b.path, world.mappings, a.mediaType, None);
    assert MediaVariants(world, a) == MediaVariants(world, b);
    if o.entry < |world.entries| {
      SameMounts(world, a, b, world.entries[o.entry]);
    }
  }

  lemma SameMounts(world: World, a: Call, b: Call, entry: Entry)
    requires a.arrType == b.arrType
    ensures MountVariants(world, a, entry) == MountVariants(world, b, entry)
    ensures IsConsidered(entry, a) == IsConsidered(entry, b)
  {
  }

  lemma SameWins(world: World, a: Call, b: Call, o: Offer)
    requires forall other: Offer :: IsOffer(world, a, other) == IsOffer(world, b, other)
    ensures Wins(world, a, o) == Wins(world, b, o)
  {
  }

  /** So they have the same answer. */
  lemma SameAnswer(world: World, a: Call, b: Call, answer: Option<Stats>)
    requires SameKey(a, b) && (Normal(a.path) != "" || IsRoot(a.path) == IsRoot(b.path))
    ensures IsArrAnswer(world, a, answer) == IsArrAnswer(world, b, answer)
  {
    forall o: Offer ensures IsOffer(world, a, o) == IsOffer(world, b, o) {
      SameOffer(world, a, b, o);
    }
    forall o: Offer ensures Wins(world, a, o) == Wins(world, b, o) {
      SameWins(world, a, b, o);
    }
  }

  /** Two calls are looked up alike: under one local path, and with the same variants. */
  predicate AreAlike(mappings: seq<Mapping>, a: Call, b: Call) {
    && LocalPathOf(mappings, a) == LocalPathOf(mappings, b)
    && (Normal(a.path) != "" || IsRoot(a.path) == IsRoot(b.path))
  }

  /** All calls that share a key are looked up alike. */
  predicate KeysAreSafe(mappings: seq<Mapping>, calls: seq<Call>) {
    forall j, k :: 0 <= j < k < |calls| && SameKey(calls[j], calls[k]) ==> AreAlike(mappings, calls[j], calls[k])
  }

  lemma AlikeAnswers(world: World, a: Call, b: Call, answer: Option<Stats>)
    requires SameKey(a, b) && AreAlike(world.mappings, a, b)
    ensures IsAnswer(world, a, answer) == IsAnswer(world, b, answer)
  {
    SameAnswer(world, a, b, answer);
  }

  /** With safe keys the cache is invisible in every run. */
  lemma CacheIsTransparent(world: World, calls: seq<Call>, answers: seq<Option<Stats>>)
    requires IsRun(world, calls, answers) && KeysAreSafe(world.mappings, calls)
    ensures IsTransparent(world, calls, answers)
  {
    forall k | 0 <= k < |calls|
      ensures IsAnswer(world, calls[k], answers[k])
    {
      var first := FirstWithKey(calls[..k], calls[k]);
      if first != calls[k] {
        assert first in calls[..k];
        AlikeAnswers(world, first, calls[k], answers[k]);
      }
    }
  }

  /** Given what each call is answered without a cache, the answers of a run. */
  function FirstAnswers(calls: seq<Call>, uncached: Call -> Option<Stats>): (answers: seq<Option<Stats>>)
    ensures |answers| == |calls|
    ensures forall k :: 0 <= k < |calls| ==> answers[k] == uncached(FirstWithKey(calls[..k], calls[k]))
  {
    seq(|calls|, k requires 0 <= k < |calls| => uncached(FirstWithKey(calls[..k], calls[k])))
  }

  /** A run that answers two calls alike though they are not shows the cache. */
  lemma UnlikeCallsShow(world: World, calls: seq<Call>, uncached: Call -> Option<Stats>, j: nat, k: nat)
    requires forall c: Call :: IsAnswer(world, c, uncached(c))
    requires j < k < |calls| && SameKey(calls[j], calls[k]) && uncached(calls[j]) != uncached(calls[k])
    ensures IsRun(world, calls, FirstAnswers(calls, uncached))
    ensures !IsTransparent(world, calls, FirstAnswers(calls, uncached))
  {
    var answers := FirstAnswers(calls, uncached);
    FirstIsShared(calls, j, k);
    assert answers[j] == answers[k];
    if IsTransparent(world, calls, answers) {
      AnswerIsUnique(world, calls[j], answers[j], uncached(calls[j]));
      AnswerIsUnique(world, calls[k], answers[k], uncached(calls[k]));
    }
  }

  /** A world without entries whose local file system tells one path from all others. */
  function TellingApart(mappings: seq<Mapping>, odd: Option<LocalPath>): World {
    World([], mappings, path => Some(Stats(if Some(path) == odd then 0 else 1, 0.0)))
  }

  lemma AnswersTellApart(mappings: seq<Mapping>, odd: Option<LocalPath>, call: Call)
    ensures var world := TellingApart(mappings, odd);
            IsAnswer(world, call, ResolveLocal(world, call))
  {
    var world := TellingApart(mappings, odd);
    assert forall o: Offer :: !IsOffer(world, call, o);
  }

  /** A world with one mount, the root, and nothing that is accessible locally. */
  function RootOnly(mappings: seq<Mapping>): World {
    World([Entry("/", "", None, 0, 0)], mappings, _ => None)
  }

  /** In that world every path with a rooted variant is answered from the mount. */
  function RootAnswer(mappings: seq<Mapping>, call: Call): Option<Stats> {
    if exists m :: m in MediaVariants(RootOnly(mappings), call) && StartsWith(m, "/") then Some(Stats(0, 0.0)) else None
  }

  lemma OffersOfRootOnly(mappings: seq<Mapping>, call: Call, o: Offer)
    ensures IsOffer(RootOnly(mappings), call, o)
            == (o.entry == 0 && o.mount == "/" && o.path in MediaVariants(RootOnly(mappings), call)
                && StartsWith(o.path, "/"))
  {
    VariantsOfBlankAndRoot();
    assert MappedVariants("", mappings, if RequestedType(call) != "" then Some(RequestedType(call)) else None, None) == {};
  }

  lemma RootOnlyAnswers(mappings: seq<Mapping>, call: Call)
    ensures IsAnswer(RootOnly(mappings), call, RootAnswer(mappings, call))
  {
    var world := RootOnly(mappings);
    forall o: Offer
      ensures IsOffer(world, call, o) ==> o.entry == 0 && o.mount == "/"
    {
      OffersOfRootOnly(mappings, call, o);
    }
    if m :| m in MediaVariants(world, call) && StartsWith(m, "/") {
      var o := Offer(0, m, "/");
      OffersOfRootOnly(mappings, call, o);
      assert Wins(world, call, o);
    } else {
      forall o: Offer ensures !IsOffer(world, call, o) {
        OffersOfRootOnly(mappings, call, o);
      }
    }
  }

  /** Only a root has a rooted variant when the normal form is empty. */
  lemma RootAnswerOfEmpty(mappings: seq<Mapping>, call: Call)
    requires Normal(call.path) == ""
    ensures RootAnswer(mappings, call).Some? == IsRoot(call.path)
  {
    if IsRoot(call.path) {
      assert "/" in MediaVariants(RootOnly(mappings), call) && StartsWith("/", "/");
    }
  }

  lemma UnlikePairShows(mappings: seq<Mapping>, calls: seq<Call>, j: nat, k: nat)
    requires j < k < |calls| && SameKey(calls[j], calls[k]) && !AreAlike(mappings, calls[j], calls[k])
    ensures exists entries, disk, answers ::
              var world := World(entries, mappings, disk);
              IsRun(world, calls, answers) && !IsTransparent(world, calls, answers)
  {
    if LocalPathOf(mappings, calls[j]) != LocalPathOf(mappings, calls[k]) {
      var world := TellingApart(mappings, LocalPathOf(mappings, calls[j]));
      var uncached := (c: Call) => ResolveLocal(world, c);
      forall c: Call ensures IsAnswer(world, c, uncached(c)) {
        AnswersTellApart(mappings, LocalPathOf(mappings, calls[j]), c);
      }
      UnlikeCallsShow(world, calls, uncached, j, k);
      assert world == World(world.entries, mappings, world.disk);
    } else {
      var world := RootOnly(mappings);
      var uncached := (c: Call) => RootAnswer(mappings, c);
      forall c: Call ensures IsAnswer(world, c, uncached(c)) {
        RootOnlyAnswers(mappings, c);
      }
      RootAnswerOfEmpty(mappings, calls[j]);
      RootAnswerOfEmpty(mappings, calls[k]);
      UnlikeCallsShow(world, calls, uncached, j, k);
      assert world == World(world.entries, mappings, world.disk);
    }
  }

  /**
   Under given mappings the cache is invisible, whatever the entries and the file system, exactly when
   calls that share a key are looked up alike.
   */
  lemma CacheIsTransparentInEveryWorldExactlyWhen(mappings: seq<Mapping>, calls: seq<Call>)
    ensures KeysAreSafe(mappings, calls)
            <==> forall entries, disk, answers ::
                   var world := World(entries, mappings, disk);
                   IsRun(world, calls, answers) ==> IsTransparent(world, calls, answers)
  {
    if KeysAreSafe(mappings, calls) {
      forall entries, disk, answers | IsRun(World(entries, mappings, disk), calls, answers)
        ensures IsTransparent(World(entries, mappings, disk), calls, answers)
      {
        CacheIsTransparent(World(entries, mappings, disk), calls, answers);
      }
    } else {
      var j, k :| 0 <= j < k < |calls| && SameKey(calls[j], calls[k]) && !AreAlike(mappings, calls[j], calls[k]);
      UnlikePairShows(mappings, calls, j, k);
    }
  }

  // -------------------------------------------------------------------------------------------
  // Reading the condition

  lemma {:induction false} EmptyIsUnmapped(mappings: seq<Mapping>, serviceType: Option<string>)
    ensures FirstMatching(mappings, "", serviceType) == None
  {
    if mappings != [] {
      assert !MatchesLocally(mappings[0], "", serviceType);
      EmptyIsUnmapped(mappings[1..], serviceType);
    }
  }

  /** The local path of the raw text, where no mapping matches. */
  function RawPath(call: Call): Option<LocalPath> {
    if call.path == "" then None else Some(PathOf(call.path))
  }

  /**
   Calls that share a key are looked up alike exactly when a mapping matches them, or their raw texts
   are the same local path and they do not differ in being the root.
   */
  lemma AlikeExactly(mappings: seq<Mapping>, a: Call, b: Call)
    requires SameKey(a, b)
    ensures AreAlike(mappings, a, b)
            <==> MappingFor(mappings, a).Some?
                 || (RawPath(a) == RawPath(b) && (Normal(a.path) != "" || IsRoot(a.path) == IsRoot(b.path)))
  {
    EmptyIsUnmapped(SortedBy(Rank(a.mediaType), SortedBy(MappingOrder, mappings)), a.mediaType);
    assert MappingFor(mappings, a) == MappingFor(mappings, b);
    NormalOfEmpty();
  }

  lemma NormalOfEmpty()
    ensures Normal("") == ""
  {
    assert Slashes("") == "";
  }

  lemma VariantsOfBlankAndRoot()
    ensures Normal(" ") == "" && !IsRoot(" ") && Normal("/") == "" && IsRoot("/")
    ensures Variants(" ", [], None, None) == {} && Variants("/", [], None, None) == {"/"}
  {
    assert StripEnd(StripStart(" ")) == "" by {
      assert StripStart(" ") == StripStart("");
    }
    assert Slashes("/") == "/" && TrimSlashes("/") == TrimSlashes("");
    assert Slashes("") == "";
  }

  /** A blank path and the root share a cache entry but not their answer: the root gets that of the blank path. */
  lemma RootIsAnsweredAsBlank()
    ensures var world := RootOnly([]);
            var calls := [Call(" ", None, None), Call("/", None, None)];
            && IsRun(world, calls, [None, None])
            && IsAnswer(world, calls[1], Some(Stats(0, 0.0))) && !IsAnswer(world, calls[1], None)
  {
    var world := RootOnly([]);
    var blank, root := Call(" ", None, None), Call("/", None, None);
    VariantsOfBlankAndRoot();
    RootOnlyAnswers([], blank);
    RootOnlyAnswers([], root);
    RootAnswerOfEmpty([], blank);
    RootAnswerOfEmpty([], root);
    AnswersOfTwo(world, blank, root, None);
    if IsAnswer(world, root, None) {
      AnswerIsUnique(world, root, None, RootAnswer([], root));
    }
  }

  /** The second of two calls with one key gets the answer of the first. */
  lemma AnswersOfTwo(world: World, first: Call, second: Call, answer: Option<Stats>)
    requires SameKey(first, second) && IsAnswer(world, first, answer)
    ensures IsRun(world, [first, second], [answer, answer])
  {
    assert FirstWithKey([], first) == first && FirstWithKey([first], second) == first;
    assert [first, second][..0] == [] && [first, second][..1] == [first];
  }

  /** A world without entries and mappings in which only `/x` exists. */
  function OnlyX(stats: Stats): World {
    World([], [], path => if path == PathOf("/x") then Some(stats) else None)
  }

  lemma PathsOfX()
    ensures Normal(" /x") == Normal("/x") && PathOf(" /x") != PathOf("/x")
  {
    assert StripStart(" /x") == StripStart("/x") == "/x";
    assert LeadingSlashes("/x") == 1 + LeadingSlashes("x");
    assert LeadingSlashes(" /x") == 0;
  }

  /** A path with a leading blank is remembered for the path itself, which exists. */
  lemma RawTextIsRemembered(stats: Stats)
    ensures var world := OnlyX(stats);
            var calls := [Call(" /x", None, None), Call("/x", None, None)];
            && IsRun(world, calls, [None, None])
            && IsAnswer(world, calls[1], Some(stats)) && !IsAnswer(world, calls[1], None)
  {
    var world := OnlyX(stats);
    var padded, plain := Call(" /x", None, None), Call("/x", None, None);
    PathsOfX();
    assert MappingFor([], padded) == None && MappingFor([], plain) == None;
    assert forall o: Offer :: !IsOffer(world, padded, o);
    assert IsAnswer(world, padded, None);
    AnswersOfTwo(world, padded, plain, None);
  }
}
