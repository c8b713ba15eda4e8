/** Disk statistics of a path: normal forms, mappings, and the longest-mount lookup over service entries. */
module DiskStats {
  import opened Basics

  /** A disk-space entry as a service reports it; an unknown service type is the empty text. */
  datatype Entry = Entry(path: string, serviceType: string, configId: Option<int>, free: int, total: int)

  datatype Mapping = Mapping(source: string, local: string, serviceType: string, configId: Option<int>)

  datatype Stats = Stats(free: int, percent: real)

  function StatsOf(entry: Entry): Stats {
    Stats(entry.free, if entry.total == 0 then 0.0 else entry.free as real / entry.total as real * 100.0)
  }

  // -------------------------------------------------------------------------------------------
  // Paths

  function LowerChar(c: char): char {
    if 'A' <= c <= 'Z' then (c as int - 'A' as int + 'a' as int) as char else c
  }

  function Lower(s: string): string {
    seq(|s|, i requires 0 <= i < |s| => LowerChar(s[i]))
  }

  /** Back slashes turned into slashes. */
  function Slashes(s: string): string {
    seq(|s|, i requires 0 <= i < |s| => if s[i] == '\\' then '/' else s[i])
  }

  function TrimSlashes(s: string): (r: string)
    ensures r <= s
    ensures r != [] ==> r[|r| - 1] != '/'
  {
    if s != [] && s[|s| - 1] == '/' then TrimSlashes(s[..|s| - 1]) else s
  }

  /** The normal form: no outer white space, slashes only, none at the end. */
  function Normal(path: string): string {
    TrimSlashes(Slashes(Strip(path)))
  }

  /** The file-system root, whose normal form is empty. */
  predicate IsRoot(path: string) {
    Slashes(Strip(path)) == "/"
  }

  predicate StartsWith(s: string, prefix: string) {
    prefix <= s
  }

  predicate IsWithinMount(path: string, mount: string) {
    if mount == "/" then StartsWith(path, "/") else path == mount || StartsWith(path, mount + "/")
  }

  predicate OnlySlashes(s: string) {
    forall i :: 0 <= i < |s| ==> s[i] == '/'
  }

  lemma {:induction false} TrimCutsSlashes(s: string) returns (tail: string)
    ensures OnlySlashes(tail) && s == TrimSlashes(s) + tail
  {
    tail := [];
    if s != [] && s[|s| - 1] == '/' {
      var rest := TrimCutsSlashes(s[..|s| - 1]);
      tail := rest + [s[|s| - 1]];
      assert s == s[..|s| - 1] + [s[|s| - 1]];
    }
  }

  /** A normal form has no back slash and does not end in a slash; only slashes at the end were cut off. */
  lemma NormalMeans(path: string) returns (tail: string)
    ensures OnlySlashes(tail) && |Strip(path)| == |Normal(path)| + |tail|
    ensures forall i :: 0 <= i < |Normal(path)| ==>
              Normal(path)[i] == if Strip(path)[i] == '\\' then '/' else Strip(path)[i]
    ensures forall i :: |Normal(path)| <= i < |Strip(path)| ==> Strip(path)[i] in {'/', '\\'}
    ensures Normal(path) != "" ==> Normal(path)[|Normal(path)| - 1] != '/'
  {
    var slashed := Slashes(Strip(path));
    tail := TrimCutsSlashes(slashed);
    assert forall i :: 0 <= i < |Normal(path)| ==> Normal(path)[i] == slashed[i];
    forall i | |Normal(path)| <= i < |slashed|
      ensures Strip(path)[i] in {'/', '\\'}
    {
      assert slashed[i] == tail[i - |Normal(path)|] == '/';
      assert slashed[i] == if Strip(path)[i] == '\\' then '/' else Strip(path)[i];
    }
  }

  /** `s` starts with all characters of `prefix`. */
  predicate Begins(s: string, prefix: string) {
    |prefix| <= |s| && forall i :: 0 <= i < |prefix| ==> s[i] == prefix[i]
  }

  /** A mount other than the root holds itself and what continues it with a slash; the root what starts with one. */
  lemma WithinMountMeans(path: string, mount: string)
    ensures IsWithinMount(path, mount)
            <==> Begins(path, mount) && (mount == "/" || |path| == |mount| || path[|mount|] == '/')
  {
    if mount != "/" && Begins(path, mount) && |path| > |mount| && path[|mount|] == '/' {
      assert path[..|mount| + 1] == mount + "/";
    }
    if mount != "/" && StartsWith(path, mount + "/") {
      assert path[..|mount| + 1] == mount + "/";
      assert forall i :: 0 <= i < |mount| ==> path[i] == (mount + "/")[i];
      assert path[|mount|] == (mount + "/")[|mount|];
    }
  }

  // -------------------------------------------------------------------------------------------
  // Variants of a path under the configured mappings

  predicate AppliesToScope(mapping: Mapping, serviceType: Option<string>, configId: Option<int>) {
    if mapping.configId.Some? then configId == mapping.configId
    else if mapping.serviceType != "" then serviceType.Some? && Lower(mapping.serviceType) == Lower(serviceType.value)
    else true
  }

  /** What a mapping makes of a normal form; empty when it does not apply. */
  function Mapped(mapping: Mapping, normal: string): string {
    var source, local := Normal(mapping.source), Normal(mapping.local);
    if source == "" || local == "" then ""
    else if normal == source || StartsWith(normal, source + "/") then Normal(local + normal[|source|..])
    else ""
  }

  function MappedVariants(
    normal: string, mappings: seq<Mapping>, serviceType: Option<string>, configId: Option<int>
  ): set<string>
  {
    if normal == "" then {}
    else
      {normal} + (set mapping | mapping in mappings && AppliesToScope(mapping, serviceType, configId)
                                && Mapped(mapping, normal) != "" :: Mapped(mapping, normal))
  }

  function Variants(
    path: string, mappings: seq<Mapping>, serviceType: Option<string>, configId: Option<int>
  ): set<string>
  {
    MappedVariants(Normal(path), mappings, serviceType, configId)
    + if Normal(path) != "" then {Normal(path)} else if IsRoot(path) then {"/"} else {}
  }

  /** Case does not matter to service types. */
  lemma LowerIs(s: string)
    ensures |Lower(s)| == |s|
    ensures forall i :: 0 <= i < |s| && 'A' <= s[i] <= 'Z' ==> Lower(s)[i] as int == s[i] as int + 32
    ensures forall i :: 0 <= i < |s| && !('A' <= s[i] <= 'Z') ==> Lower(s)[i] == s[i]
  {
  }

  /**
   A mapping with a configuration applies to that configuration alone, and else one with a service type
   to that type alone; a mapping with neither applies always.
   */
  lemma AppliesExactly(mapping: Mapping, serviceType: Option<string>, configId: Option<int>)
    ensures AppliesToScope(mapping, serviceType, configId)
            == match (mapping.configId, serviceType)
               case (Some(id), _) => configId == Some(id)
               case (None, Some(t)) => mapping.serviceType == "" || Lower(mapping.serviceType) == Lower(t)
               case (None, None) => mapping.serviceType == ""
  {
  }

  /**
   A mapping with a source and a local path swaps the one for the other where a normal form is the source
   or continues it with a slash, and makes nothing of any other.
   */
  lemma MappedMeans(mapping: Mapping, normal: string)
    ensures var source, local := Normal(mapping.source), Normal(mapping.local);
            if source != "" && local != "" && Begins(normal, source)
               && (|normal| == |source| || normal[|source|] == '/')
            then Mapped(mapping, normal) == Normal(local + normal[|source|..])
            else Mapped(mapping, normal) == ""
  {
    var source := Normal(mapping.source);
    WithinMountMeans(normal, source);
  }

  /** The variants of a path: itself in normal form, and what each mapping that applies makes of it. */
  lemma VariantsAre(
    path: string, mappings: seq<Mapping>, serviceType: Option<string>, configId: Option<int>, v: string
  )
    ensures v in Variants(path, mappings, serviceType, configId)
            <==> if Normal(path) == "" then v == "/" && Slashes(Strip(path)) == "/"
                 else
                   || v == Normal(path)
                   || (v != "" && exists m :: m in mappings && AppliesToScope(m, serviceType, configId)
                                              && v == Mapped(m, Normal(path)))
  {
  }

  /** Variants depend on the normal form alone, except that only a root has any when it is empty. */
  lemma VariantsDependOnNormalForm(
    p: string, q: string, mappings: seq<Mapping>, serviceType: Option<string>, configId: Option<int>
  )
    requires Normal(p) == Normal(q)
    ensures Variants(p, mappings, serviceType, configId) == Variants(q, mappings, serviceType, configId)
            <==> Normal(p) != "" || IsRoot(p) == IsRoot(q)
  {
    if Normal(p) == "" && IsRoot(p) != IsRoot(q) {
      var root := if IsRoot(p) then p else q;
      assert "/" in Variants(root, mappings, serviceType, configId);
    }
  }

  // -------------------------------------------------------------------------------------------
  // Entries and mappings in the order they are looked at

  function InsertBy<T>(key: T -> int, item: T, sorted: seq<T>): seq<T> {
    if sorted == [] || key(item) <= key(sorted[0]) then [item] + sorted
    else [sorted[0]] + InsertBy(key, item, sorted[1..])
  }

  /** Smallest key first; items with the same key keep their order. */
  function SortedBy<T>(key: T -> int, items: seq<T>): seq<T> {
    if items == [] then [] else InsertBy(key, items[0], SortedBy(key, items[1..]))
  }

  function EntryOrder(entry: Entry): int {
    -|entry.path|
  }

  function MappingOrder(mapping: Mapping): int {
    -|mapping.source|
  }

  ghost predicate Ascending<T>(key: T -> int, items: seq<T>) {
    items == []
    || ((forall e :: e in items[1..] ==> key(items[0]) <= key(e)) && Ascending(key, items[1..]))
  }

  function IfKey<T>(key: T -> int, item: T, n: int): seq<T> {
    if key(item) == n then [item] else []
  }

  /** The items with key `n`, in order. */
  function WithKey<T>(key: T -> int, items: seq<T>, n: int): seq<T> {
    if items == [] then [] else IfKey(key, items[0], n) + WithKey(key, items[1..], n)
  }

  lemma {:induction false} InsertKeepsSorted<T>(key: T -> int, item: T, sorted: seq<T>)
    requires Ascending(key, sorted)
    ensures Ascending(key, InsertBy(key, item, sorted))
    ensures forall e :: e in InsertBy(key, item, sorted) ==> e == item || e in sorted
  {
    if sorted == [] || key(item) <= key(sorted[0]) {
      assert ([item] + sorted)[1..] == sorted;
    } else {
      InsertKeepsSorted(key, item, sorted[1..]);
      assert ([sorted[0]] + InsertBy(key, item, sorted[1..]))[1..] == InsertBy(key, item, sorted[1..]);
    }
  }

  lemma WithKeyOfCons<T>(key: T -> int, item: T, rest: seq<T>, n: int)
    ensures WithKey(key, [item] + rest, n) == IfKey(key, item, n) + WithKey(key, rest, n)
  {
    assert ([item] + rest)[1..] == rest;
  }

  lemma KeysDiffer<T>(key: T -> int, a: T, b: T, n: int, rest: seq<T>)
    requires key(a) != key(b)
    ensures IfKey(key, a, n) + (IfKey(key, b, n) + rest) == IfKey(key, b, n) + (IfKey(key, a, n) + rest)
  {
    ConcatEmpty(rest);
    ConcatEmpty(IfKey(key, a, n) + rest);
    ConcatEmpty(IfKey(key, b, n) + rest);
  }

  /** An insertion puts the item before all with the same key, and moves nothing else. */
  lemma {:induction false} InsertIsStable<T>(key: T -> int, item: T, sorted: seq<T>, n: int)
    requires Ascending(key, sorted)
    ensures WithKey(key, InsertBy(key, item, sorted), n) == WithKey(key, [item] + sorted, n)
  {
    if sorted != [] && key(item) > key(sorted[0]) {
      var head, rest := sorted[0], sorted[1..];
      InsertIsStable(key, item, rest, n);
      WithKeyOfCons(key, head, InsertBy(key, item, rest), n);
      WithKeyOfCons(key, item, rest, n);
      WithKeyOfCons(key, item, sorted, n);
      KeysDiffer(key, head, item, n, WithKey(key, rest, n));
    }
  }

  /** The sort is stable and loses nothing. */
  lemma {:induction false} SortIsStable<T>(key: T -> int, items: seq<T>, n: int)
    ensures Ascending(key, SortedBy(key, items))
    ensures WithKey(key, SortedBy(key, items), n) == WithKey(key, items, n)
  {
    if items != [] {
      var head, rest := items[0], items[1..];
      SortIsStable(key, rest, n);
      InsertKeepsSorted(key, head, SortedBy(key, rest));
      InsertIsStable(key, head, SortedBy(key, rest), n);
      WithKeyOfCons(key, head, SortedBy(key, rest), n);
    }
  }

  /** Smaller by the first key, or equal there and no larger by the second. */
  predicate NoLater<T>(first: T -> int, second: T -> int, a: T, b: T) {
    first(a) < first(b) || (first(a) == first(b) && second(a) <= second(b))
  }

  ghost predicate AscendingByBoth<T>(first: T -> int, second: T -> int, items: seq<T>) {
    items == []
    || ((forall e :: e in items[1..] ==> NoLater(first, second, items[0], e))
        && AscendingByBoth(first, second, items[1..]))
  }

  lemma {:induction false} InsertKeepsBoth<T>(first: T -> int, second: T -> int, item: T, sorted: seq<T>)
    requires AscendingByBoth(first, second, sorted)
    requires forall e :: e in sorted ==> second(item) <= second(e)
    ensures AscendingByBoth(first, second, InsertBy(first, item, sorted))
    ensures forall e :: e in InsertBy(first, item, sorted) ==> e == item || e in sorted
  {
    if sorted == [] || first(item) <= first(sorted[0]) {
      forall e | e in sorted
        ensures NoLater(first, second, item, e)
      {
        assert e == sorted[0] || e in sorted[1..];
      }
      BothOfCons(first, second, item, sorted);
    } else {
      var rest := InsertBy(first, item, sorted[1..]);
      InsertKeepsBoth(first, second, item, sorted[1..]);
      assert sorted == [sorted[0]] + sorted[1..];
      BothOfCons(first, second, sorted[0], rest);
    }
  }

  lemma BothOfCons<T>(first: T -> int, second: T -> int, item: T, rest: seq<T>)
    requires AscendingByBoth(first, second, rest)
    requires forall e :: e in rest ==> NoLater(first, second, item, e)
    ensures AscendingByBoth(first, second, [item] + rest)
  {
    var all := [item] + rest;
    assert all[0] == item && all[1..] == rest;
  }

  lemma {:induction false} SortKeepsItems<T>(key: T -> int, items: seq<T>)
    ensures forall e :: e in SortedBy(key, items) ==> e in items
    ensures forall e :: e in items ==> e in SortedBy(key, items)
    ensures Ascending(key, SortedBy(key, items))
  {
    if items != [] {
      SortKeepsItems(key, items[1..]);
      InsertKeepsSorted(key, items[0], SortedBy(key, items[1..]));
      InsertKeepsItems(key, items[0], SortedBy(key, items[1..]));
      assert items == [items[0]] + items[1..];
    }
  }

  lemma {:induction false} InsertKeepsItems<T>(key: T -> int, item: T, sorted: seq<T>)
    ensures forall e :: e in InsertBy(key, item, sorted) ==> e == item || e in sorted
    ensures forall e :: e == item || e in sorted ==> e in InsertBy(key, item, sorted)
  {
    if sorted != [] {
      InsertKeepsItems(key, item, sorted[1..]);
      assert sorted == [sorted[0]] + sorted[1..];
    }
  }

  lemma SortKeepsItem<T>(key: T -> int, items: seq<T>, item: T)
    ensures (item in SortedBy(key, items)) == (item in items)
  {
    SortKeepsItems(key, items);
  }

  lemma NoneSmaller<T>(first: T -> int, second: T -> int, item: T, rest: seq<T>, sorted: seq<T>)
    requires sorted == SortedBy(first, rest)
    requires forall e :: e in rest ==> second(item) <= second(e)
    ensures forall e :: e in sorted ==> second(item) <= second(e)
  {
    SortKeepsItems(first, rest);
    forall e | e in sorted
      ensures second(item) <= second(e)
    {
      assert e in rest;
    }
  }

  /** Sorting a list again by another key keeps the first order among items that this key does not tell apart. */
  lemma {:induction false} SortKeepsEarlierOrder<T>(first: T -> int, second: T -> int, items: seq<T>)
    requires Ascending(second, items)
    ensures AscendingByBoth(first, second, SortedBy(first, items))
  {
    if items != [] {
      var rest := items[1..];
      SortKeepsEarlierOrder(first, second, rest);
      NoneSmaller(first, second, items[0], rest, SortedBy(first, rest));
      InsertKeepsBoth(first, second, items[0], SortedBy(first, rest));
    }
  }

  // -------------------------------------------------------------------------------------------
  // The lookup over the entries

  /** A question to the resolver. */
  datatype Call = Call(path: string, mediaType: Option<string>, arrType: Option<string>)

  /** A path of the local file system, as the path library reads a text: its anchor and its names. */
  datatype LocalPath = LocalPath(anchor: string, names: seq<string>)

  /**
   Everything the answers depend on: the sorted entries, the mappings, and the statistics of the local
   paths that exist and can be read.
   */
  datatype World = World(entries: seq<Entry>, mappings: seq<Mapping>, disk: LocalPath -> Option<Stats>)

  function RequestedType(call: Call): string {
    match call.arrType case Some(t) => Lower(t) case None => ""
  }

  /** Entries of another service are skipped when both types are known. */
  predicate IsConsidered(entry: Entry, call: Call) {
    RequestedType(call) == "" || Lower(entry.serviceType) == "" || Lower(entry.serviceType) == RequestedType(call)
  }

  function MediaVariants(world: World, call: Call): set<string> {
    Variants(call.path, world.mappings, call.mediaType, None)
  }

  function MountVariants(world: World, call: Call, entry: Entry): set<string> {
    var own := Lower(entry.serviceType);
    var scope := if own != "" then Some(own) else if RequestedType(call) != "" then Some(RequestedType(call)) else None;
    Variants(entry.path, world.mappings, scope, entry.configId)
  }

  /** The share of free space: nothing of an empty total, and else so many hundredths. */
  lemma PercentIs(entry: Entry)
    ensures StatsOf(entry).free == entry.free
    ensures entry.total == 0 ==> StatsOf(entry).percent == 0.0
    ensures entry.total != 0 ==> StatsOf(entry).percent * entry.total as real == entry.free as real * 100.0
  {
    if entry.total != 0 {
      PercentOfTotal(entry.free as real, entry.total as real);
    }
  }

  lemma PercentOfTotal(free: real, total: real)
    requires total != 0.0
    ensures free / total * 100.0 * total == free * 100.0
  {
    assert free / total * total == free;
  }

  /** An entry is skipped exactly when both service types are known and differ. */
  lemma SkippedExactly(entry: Entry, call: Call)
    ensures !IsConsidered(entry, call)
            <==> && entry.serviceType != "" && call.arrType.Some? && call.arrType.value != ""
                 && Lower(entry.serviceType) != Lower(call.arrType.value)
  {
  }

  /** Mappings apply to an entry by its configuration and its own service type, or else by the type asked for. */
  lemma MountScope(world: World, call: Call, entry: Entry, own: bool)
    requires own <==> entry.serviceType != ""
    ensures own ==> MountVariants(world, call, entry)
                    == Variants(entry.path, world.mappings, Some(Lower(entry.serviceType)), entry.configId)
    ensures !own && call.arrType.Some? && call.arrType.value != "" ==>
              MountVariants(world, call, entry)
              == Variants(entry.path, world.mappings, Some(Lower(call.arrType.value)), entry.configId)
    ensures !own && (call.arrType.None? || call.arrType.value == "") ==>
              MountVariants(world, call, entry) == Variants(entry.path, world.mappings, None, entry.configId)
  {
  }

  /** The variants of the path asked for: mappings without a configuration apply, by the type of the media service. */
  lemma MediaVariantsAre(world: World, call: Call, v: string)
    requires Normal(call.path) != ""
    ensures v in MediaVariants(world, call)
            <==> v == Normal(call.path)
                 || (v != "" && exists m :: m in world.mappings && v == Mapped(m, Normal(call.path)) && m.configId.None?
                                            && (m.serviceType == "" || Some(Lower(m.serviceType)) == LowerOf(call.mediaType)))
  {
    forall m
      ensures AppliesToScope(m, call.mediaType, None)
              <==> m.configId.None? && (m.serviceType == "" || Some(Lower(m.serviceType)) == LowerOf(call.mediaType))
    {
      AppliesExactly(m, call.mediaType, None);
    }
    VariantsAre(call.path, world.mappings, call.mediaType, None, v);
  }

  function LowerOf(text: Option<string>): Option<string> {
    match text case Some(t) => Some(Lower(t)) case None => None
  }

  lemma {:induction false} AscendingKeys<T>(key: T -> int, items: seq<T>, i: nat, j: nat)
    requires Ascending(key, items) && i < j < |items|
    ensures key(items[i]) <= key(items[j])
  {
    if i == 0 {
      assert items[j] == items[1..][j - 1];
    } else {
      AscendingKeys(key, items[1..], i - 1, j - 1);
    }
  }

  /** The sorted entries and mappings come longest first. */
  lemma LongestFirst(entries: seq<Entry>, mappings: seq<Mapping>, i: nat, j: nat)
    ensures i < j < |SortedBy(EntryOrder, entries)| ==>
              |SortedBy(EntryOrder, entries)[i].path| >= |SortedBy(EntryOrder, entries)[j].path|
    ensures i < j < |SortedBy(MappingOrder, mappings)| ==>
              |SortedBy(MappingOrder, mappings)[i].source| >= |SortedBy(MappingOrder, mappings)[j].source|
  {
    SortIsStable(EntryOrder, entries, 0);
    SortIsStable(MappingOrder, mappings, 0);
    if i < j < |SortedBy(EntryOrder, entries)| {
      AscendingKeys(EntryOrder, SortedBy(EntryOrder, entries), i, j);
    }
    if i < j < |SortedBy(MappingOrder, mappings)| {
      AscendingKeys(MappingOrder, SortedBy(MappingOrder, mappings), i, j);
    }
  }

  /** Mount `mount` of entry number `entry`, around the variant `path` of the path asked for. */
  datatype Offer = Offer(entry: nat, path: string, mount: string)

  predicate IsOffer(world: World, call: Call, o: Offer) {
    o.entry < |world.entries| && IsConsidered(world.entries[o.entry], call)
    && o.path in MediaVariants(world, call) && o.mount in MountVariants(world, call, world.entries[o.entry])
    && IsWithinMount(o.path, o.mount)
  }

  /** A longer mount, or one as long from no later an entry. */
  predicate AtLeastAsGood(a: Offer, b: Offer) {
    |b.mount| < |a.mount| || (|b.mount| == |a.mount| && a.entry <= b.entry)
  }

  ghost predicate Wins(world: World, call: Call, o: Offer) {
    IsOffer(world, call, o) && forall other: Offer :: IsOffer(world, call, other) ==> AtLeastAsGood(o, other)
  }

  /** The answer of a winning offer, or none when there is no offer. */
  ghost predicate IsArrAnswer(world: World, call: Call, answer: Option<Stats>) {
    match answer
    case Some(stats) => exists o: Offer :: Wins(world, call, o) && stats == StatsOf(world.entries[o.entry])
    case None => forall o: Offer :: !IsOffer(world, call, o)
  }

  lemma AnswerHasWinner(world: World, call: Call, stats: Stats) returns (o: Offer)
    requires IsArrAnswer(world, call, Some(stats))
    ensures IsOffer(world, call, o) && Wins(world, call, o) && stats == StatsOf(world.entries[o.entry])
  {
    o :| Wins(world, call, o) && stats == StatsOf(world.entries[o.entry]);
  }

  /** There is only one such answer, whatever order the sets of variants are visited in. */
  lemma ArrAnswerIsUnique(world: World, call: Call, a: Option<Stats>, b: Option<Stats>)
    requires IsArrAnswer(world, call, a) && IsArrAnswer(world, call, b)
    ensures a == b
  {
    if a.Some? {
      var o := AnswerHasWinner(world, call, a.value);
      assert b.Some?;
    }
    if b.Some? {
      var other := AnswerHasWinner(world, call, b.value);
      assert a.Some?;
      var o := AnswerHasWinner(world, call, a.value);
      assert AtLeastAsGood(o, other) && AtLeastAsGood(other, o);
    }
  }

  /** The longest mount in `mounts` around a path in `media`, if longer than `best`; both in any order. */
  method LongestMount(media: set<string>, mounts: set<string>, best: int)
    returns (longest: int, ghost m: string, ghost p: string)
    ensures longest >= best
    ensures longest > best ==> m in media && p in mounts && IsWithinMount(m, p) && longest == |p|
    ensures forall n, q :: n in media && q in mounts && IsWithinMount(n, q) ==> |q| <= longest
  {
    longest, m, p := best, "", "";
    var mediaLeft := media;
    while mediaLeft != {}
      invariant mediaLeft <= media && longest >= best
      invariant longest > best ==> m in media && p in mounts && IsWithinMount(m, p) && longest == |p|
      invariant forall n, q :: n in media - mediaLeft && q in mounts && IsWithinMount(n, q) ==> |q| <= longest
    {
      var path :| path in mediaLeft;
      var mountsLeft := mounts;
      while mountsLeft != {}
        invariant mountsLeft <= mounts && longest >= best
        invariant longest > best ==> m in media && p in mounts && IsWithinMount(m, p) && longest == |p|
        invariant forall n, q :: n in media - mediaLeft && q in mounts && IsWithinMount(n, q) ==> |q| <= longest
        invariant forall q :: q in mounts - mountsLeft && IsWithinMount(path, q) ==> |q| <= longest
      {
        var mount :| mount in mountsLeft;
        mountsLeft := mountsLeft - {mount};
        if IsWithinMount(path, mount) && |mount| > longest {
          longest, m, p := |mount|, path, mount;
        }
      }
      mediaLeft := mediaLeft - {path};
    }
  }

  /** `o` wins among the offers of the first `k` entries. */
  ghost predicate Leads(world: World, call: Call, k: nat, o: Offer) {
    && IsOffer(world, call, o) && o.entry < k
    && forall other: Offer :: IsOffer(world, call, other) && other.entry < k ==> AtLeastAsGood(o, other)
  }

  ghost predicate NoneBefore(world: World, call: Call, k: nat) {
    forall o: Offer :: IsOffer(world, call, o) ==> o.entry >= k
  }

  /** After the first `k` entries: no offer yet, or the leading one with its length and its answer. */
  ghost predicate IsBestSoFar(world: World, call: Call, k: nat, best: int, answer: Option<Stats>, o: Offer) {
    match answer
    case None => best == -1 && NoneBefore(world, call, k)
    case Some(stats) =>
      Leads(world, call, k, o) && best == |o.mount| && stats == StatsOf(world.entries[o.entry])
  }

  /** No offer of entry `k` has a mount longer than `longest`. */
  ghost predicate NoneLonger(world: World, call: Call, k: nat, longest: int) {
    forall other: Offer :: IsOffer(world, call, other) && other.entry == k ==> |other.mount| <= longest
  }

  lemma StaysBehind(world: World, call: Call, k: nat, best: int, answer: Option<Stats>, o: Offer)
    requires IsBestSoFar(world, call, k, best, answer, o) && NoneLonger(world, call, k, best)
    ensures IsBestSoFar(world, call, k + 1, best, answer, o)
  {
    match answer
    case None =>
      forall other: Offer | IsOffer(world, call, other)
        ensures other.entry >= k + 1
      {
        assert other.entry != k;
      }
    case Some(_) =>
      forall other: Offer | IsOffer(world, call, other) && other.entry < k + 1
        ensures AtLeastAsGood(o, other)
      {
      }
  }

  lemma TakesOver(world: World, call: Call, k: nat, best: int, answer: Option<Stats>, o: Offer, next: Offer)
    requires IsBestSoFar(world, call, k, best, answer, o)
    requires IsOffer(world, call, next) && next.entry == k && |next.mount| > best
    requires NoneLonger(world, call, k, |next.mount|)
    ensures IsBestSoFar(world, call, k + 1, |next.mount|, Some(StatsOf(world.entries[k])), next)
  {
    forall other: Offer | IsOffer(world, call, other) && other.entry < k + 1
      ensures AtLeastAsGood(next, other)
    {
      if other.entry < k {
        assert answer.Some? && AtLeastAsGood(o, other);
      }
    }
  }

  lemma SkippedEntryOffersNothing(world: World, call: Call, k: nat, best: int)
    requires k < |world.entries| && !IsConsidered(world.entries[k], call)
    ensures NoneLonger(world, call, k, best)
  {
  }

  /** What the loops over the variants found about one entry. */
  lemma LongestOfEntry(world: World, call: Call, k: nat, longest: int)
    requires k < |world.entries|
    requires forall n, q ::
               n in MediaVariants(world, call) && q in MountVariants(world, call, world.entries[k]) && IsWithinMount(n, q)
               ==> |q| <= longest
    ensures NoneLonger(world, call, k, longest)
  {
  }

  lemma BestOfAllWins(world: World, call: Call, best: int, answer: Option<Stats>, o: Offer)
    requires IsBestSoFar(world, call, |world.entries|, best, answer, o)
    ensures IsArrAnswer(world, call, answer)
  {
    if answer.Some? {
      assert Wins(world, call, o);
    }
  }

  lemma NoVariantsNoAnswer(world: World, call: Call)
    requires MediaVariants(world, call) == {}
    ensures IsArrAnswer(world, call, None)
  {
  }

  /** The longest matching mount wins, and of equally long ones the earliest entry. */
  method ResolveArr(world: World, call: Call) returns (answer: Option<Stats>)
    ensures IsArrAnswer(world, call, answer)
  {
    var media := MediaVariants(world, call);
    if media == {} {
      NoVariantsNoAnswer(world, call);
      return None;
    }
    var best := -1;
    answer := None;
    ghost var o := Offer(0, "", "");
    for i := 0 to |world.entries|
      invariant IsBestSoFar(world, call, i, best, answer, o)
    {
      var entry := world.entries[i];
      if !IsConsidered(entry, call) {
        SkippedEntryOffersNothing(world, call, i, best);
        StaysBehind(world, call, i, best, answer, o);
      } else {
        var longest, m, p := LongestMount(media, MountVariants(world, call, entry), best);
        LongestOfEntry(world, call, i, longest);
        if longest > best {
          TakesOver(world, call, i, best, answer, o, Offer(i, m, p));
          best, answer, o := longest, Some(StatsOf(entry)), Offer(i, m, p);
        } else {
          StaysBehind(world, call, i, best, answer, o);
        }
      }
    }
    BestOfAllWins(world, call, best, answer, o);
  }
}
