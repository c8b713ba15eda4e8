/** Dropping one Seerr instance from the requester conditions of a rule definition, and collecting those they name. */
module SeerrRewrites {
  import opened Basics
  import opened SeerrIdentity
  import opened RuleActions

  // -------------------------------------------------------------------------------------------
  // Which instances a tree names

  /** Every Seerr instance the requester conditions of a tree point at. */
  function CollectConfigs(node: Json): set<nat>
    decreases node, 1
  {
    match node
    case Arr(items) => CollectFromItems(items)
    case Obj(members) =>
      (if IsRequester(members) then ConfigsOf(ValuesOf(Find(members, "value").value)) else {})
      + CollectFromMembers(members)
    case _ => {}
  }

  function CollectFromItems(items: seq<Json>): set<nat>
    decreases items, 0
  {
    if items == [] then {} else CollectConfigs(items[0]) + CollectFromItems(items[1..])
  }

  function CollectFromMembers(members: seq<Member>): set<nat>
    decreases members, 0
  {
    if members == [] then {} else CollectConfigs(members[0].value) + CollectFromMembers(members[1..])
  }

  function ConfigsOf(values: seq<Json>): set<nat> {
    set v | v in values && ConfigOf(v).Some? :: ConfigOf(v).value
  }

  /** A value that names the instance. */
  function NamesConfig(id: nat): Json -> bool {
    value => ConfigOf(value) == Some(id)
  }

  /** Some requester value in the lists names the instance. */
  ghost predicate Names(lists: seq<seq<Json>>, id: nat) {
    AnyValue(lists, NamesConfig(id))
  }

  lemma ContainersNameNothing(value: Json)
    requires IsContainer(value)
    ensures ConfigOf(value) == None && !IsBare(value)
    ensures IsUnqualified(value)
  {
    assert TextOf(value) == "[" || TextOf(value) == "{";
    BareTextDoesNotParse("");
    BareTextDoesNotParse(TextOf(value));
    StripOfStripped(TextOf(value));
  }

  lemma {:induction false} FacesNameTheSame(values: seq<Json>)
    ensures forall v :: v in values ==> Face(v) in Faces(values)
    ensures forall f :: f in Faces(values) ==> exists v :: v in values && f == Face(v)
  {
    if values != [] { FacesNameTheSame(values[1..]); }
  }

  lemma FaceNamesTheSame(value: Json)
    ensures ConfigOf(Face(value)) == ConfigOf(value)
    ensures IsUnqualified(Face(value)) == IsUnqualified(value)
  {
    if IsContainer(value) {
      ContainersNameNothing(value);
      ContainersNameNothing(Face(value));
    }
  }

  lemma ConfigsOfFaces(values: seq<Json>, id: nat)
    ensures id in ConfigsOf(values) <==> AnyIn(Faces(values), NamesConfig(id))
  {
    FacesNameTheSame(values);
    forall v | v in values ensures ConfigOf(Face(v)) == ConfigOf(v) { FaceNamesTheSame(v); }
    if AnyIn(Faces(values), NamesConfig(id)) {
      var f :| f in Faces(values) && NamesConfig(id)(f);
      var v :| v in values && f == Face(v);
      assert ConfigOf(v) == Some(id);
    }
    if v :| v in values && ConfigOf(v) == Some(id) {
      assert Face(v) in Faces(values) && NamesConfig(id)(Face(v));
    }
  }

  /** The collected instances are exactly those some requester value names. */
  lemma {:induction false} CollectsTheNamed(node: Json, id: nat)
    ensures id in CollectConfigs(node) <==> Names(RequesterLists(node), id)
    decreases node, 1
  {
    match node
    case Arr(items) => ItemsCollectTheNamed(items, id);
    case Obj(members) =>
      MembersCollectTheNamed(members, id);
      if IsRequester(members) {
        var values := ValuesOf(Find(members, "value").value);
        ConfigsOfFaces(values, id);
        SomeOfBoth([Faces(values)], ListsOfMembers(members), NamesConfig(id));
        SomeOfOne(Faces(values), NamesConfig(id));
      } else {
        ConcatEmpty(ListsOfMembers(members));
      }
    case _ =>
  }

  lemma {:induction false} ItemsCollectTheNamed(items: seq<Json>, id: nat)
    ensures id in CollectFromItems(items) <==> Names(ListsOfItems(items), id)
    decreases items, 0
  {
    if items != [] {
      CollectsTheNamed(items[0], id);
      ItemsCollectTheNamed(items[1..], id);
      SomeOfBoth(RequesterLists(items[0]), ListsOfItems(items[1..]), NamesConfig(id));
    }
  }

  lemma {:induction false} MembersCollectTheNamed(members: seq<Member>, id: nat)
    ensures id in CollectFromMembers(members) <==> Names(ListsOfMembers(members), id)
    decreases members, 0
  {
    if members != [] {
      CollectsTheNamed(members[0].value, id);
      MembersCollectTheNamed(members[1..], id);
      SomeOfBoth(RequesterLists(members[0].value), ListsOfMembers(members[1..]), NamesConfig(id));
    }
  }

  // -------------------------------------------------------------------------------------------
  // Stripping one instance

  /** Drops the values that name the instance. */
  function StripRule(id: nat): Rule {
    (value: Json) => if ConfigOf(value) == Some(id) then None else Some(value)
  }

  lemma StripRuleOnScalars(id: nat)
    ensures OnScalars(StripRule(id))
  {
    forall v | IsContainer(v) ensures StripRule(id)(v) == Some(v) { ContainersNameNothing(v); }
  }

  /** Some list had values and loses all of them. */
  ghost predicate Empties(lists: seq<seq<Json>>, id: nat) {
    exists l :: l in lists && l != [] && forall v :: v in l ==> ConfigOf(v) == Some(id)
  }

  lemma EmptiesBoth(first: seq<seq<Json>>, second: seq<seq<Json>>, id: nat)
    ensures Empties(first + second, id) <==> Empties(first, id) || Empties(second, id)
  {
    assert forall l :: l in first + second <==> l in first || l in second;
  }

  /**
   Stripping is exact: the tree names the same instances but the stripped one, every other value
   survives in its list and in order, everything else is untouched, and a second strip does nothing.
   */
  lemma StripIsExact(node: Json, id: nat)
    ensures CollectConfigs(Rewrite(node, StripRule(id))) == CollectConfigs(node) - {id}
    ensures RequesterLists(Rewrite(node, StripRule(id))) == ApplyToLists(RequesterLists(node), StripRule(id))
    ensures Mask(Rewrite(node, StripRule(id))) == Mask(node)
    ensures Rewrite(node, StripRule(id)) == node <==> id !in CollectConfigs(node)
    ensures Rewrite(Rewrite(node, StripRule(id)), StripRule(id)) == Rewrite(node, StripRule(id))
    ensures !Names(RequesterLists(Rewrite(node, StripRule(id))), id)
    ensures !Empties(RequesterLists(Rewrite(node, StripRule(id))), id)
  {
    var rule := StripRule(id);
    var stripped := Rewrite(node, rule);
    StripRuleOnScalars(id);
    RewriteAppliesRule(node, rule);
    RewriteKeepsTheRest(node, rule);
    forall other: nat ensures other in CollectConfigs(stripped) <==> other in CollectConfigs(node) && other != id {
      CollectsTheNamed(node, other);
      CollectsTheNamed(stripped, other);
      StrippedNames(RequesterLists(node), id, other);
    }
    CollectsTheNamed(node, id);
    CollectsTheNamed(stripped, id);
    StripChangesExactly(node, id);
    StripChangesExactly(stripped, id);
    NothingLeftToEmpty(RequesterLists(stripped), id);
  }

  lemma NothingLeftToEmpty(lists: seq<seq<Json>>, id: nat)
    requires !Names(lists, id)
    ensures !Empties(lists, id)
  {
    forall l | l in lists && l != [] ensures exists v :: v in l && ConfigOf(v) != Some(id) {
      assert l[0] in l && !AnyIn(l, NamesConfig(id));
    }
  }

  /** The rule keeps a value exactly when it does not name the instance. */
  lemma StripKeeps(lists: seq<seq<Json>>, id: nat)
    ensures KeepsAll(lists, StripRule(id)) == !Names(lists, id)
  {
    KeepsUnless(lists, StripRule(id), NamesConfig(id));
  }

  lemma StripChangesExactly(node: Json, id: nat)
    ensures Rewrite(node, StripRule(id)) == node <==> !Names(RequesterLists(node), id)
  {
    StripRuleOnScalars(id);
    StripKeeps(RequesterLists(node), id);
    RewriteChangesExactly(node, StripRule(id));
  }

  /** Stripping removes one instance from the named ones, and no other. */
  lemma StrippedNames(lists: seq<seq<Json>>, id: nat, other: nat)
    ensures Names(ApplyToLists(lists, StripRule(id)), other) <==> Names(lists, other) && other != id
  {
    var left := Through(StripRule(id), NamesConfig(other));
    AppliedValues(lists, StripRule(id), NamesConfig(other));
    if other == id {
      NothingSatisfies(lists, left);
    } else {
      SameCondition(lists, left, NamesConfig(other));
    }
  }

  /** Filtering and then rewriting the kept values is rewriting the kept values. */
  lemma {:induction false} KeptIsFiltered(values: seq<Json>, rule: Rule)
    requires OnScalars(rule)
    ensures RewriteItems(ApplyRule(values, rule), rule) == RewriteKept(values, rule)
    decreases values
  {
    if values != [] {
      KeptIsFiltered(values[1..], rule);
      var v := values[0];
      if rule(v).Some? {
        var w := rule(v).value;
        assert ApplyRule(values, rule) == [w] + ApplyRule(values[1..], rule);
        assert ApplyRule(values, rule)[1..] == ApplyRule(values[1..], rule);
      } else {
        assert ApplyRule(values, rule) == ApplyRule(values[1..], rule);
      }
    }
  }

  /**
   Drops one Seerr instance out of every requester condition. `changed` tells that some value named
   it, `emptied` that some condition lost its last value.
   */
  method StripConfig(node: Json, id: nat) returns (result: Json, changed: bool, emptied: bool)
    ensures result == Rewrite(node, StripRule(id))
    ensures changed <==> Names(RequesterLists(node), id)
    ensures emptied <==> Empties(RequesterLists(node), id)
    decreases node, 1
  {
    match node {
      case Arr(items) =>
        var rewritten, childChanged, childEmptied := StripItems(items, id, node);
        return Arr(rewritten), childChanged, childEmptied;
      case Obj(members) =>
        var rewritten, childChanged, childEmptied := StripMembers(members, id, IsRequester(members));
        result, changed, emptied := Obj(rewritten), childChanged, childEmptied;
        if IsRequester(members) {
          var values := ValuesOf(Find(members, "value").value);
          var loses, losesAll := Loses(values, id);
          SomeOfBoth([Faces(values)], ListsOfMembers(members), NamesConfig(id));
          EmptiesBoth([Faces(values)], ListsOfMembers(members), id);
          changed, emptied := changed || loses, emptied || losesAll;
        } else {
          ConcatEmpty(ListsOfMembers(members));
        }
      case _ =>
        return node, false, false;
    }
  }

  /** Whether a value list has a value that is dropped, and whether it loses all it has. */
  method Loses(values: seq<Json>, id: nat) returns (some: bool, all: bool)
    ensures some <==> Names([Faces(values)], id)
    ensures all <==> Empties([Faces(values)], id)
  {
    var kept := KeptValues(values, id);
    StripDropsOnly(values, id);
    KeptNames(values, id);
    some := |kept| != |values|;
    all := some && kept == [];
  }

  lemma KeptNames(values: seq<Json>, id: nat)
    ensures ApplyRule(values, StripRule(id)) != values <==> Names([Faces(values)], id)
    ensures values != [] && ApplyRule(values, StripRule(id)) == [] <==> Empties([Faces(values)], id)
  {
    var faces, rule := Faces(values), StripRule(id);
    StripRuleOnScalars(id);
    FacesKept(values, rule);
    FacesLength(values, rule);
    SomeOfOne(faces, NamesConfig(id));
    ApplyRuleKeeps(faces, rule);
    ApplyRuleEmpties(faces, rule);
    EmptiesOne(faces, id);
    assert forall v :: rule(v) == Some(v) <==> !NamesConfig(id)(v);
    assert forall v :: rule(v) == None <==> ConfigOf(v) == Some(id);
  }

  lemma EmptiesOne(list: seq<Json>, id: nat)
    ensures Empties([list], id) == (list != [] && forall v :: v in list ==> ConfigOf(v) == Some(id))
  {
    assert list in [list];
  }

  /** The rule keeps the values exactly when it keeps their faces. */
  lemma FacesKept(values: seq<Json>, rule: Rule)
    requires OnScalars(rule)
    ensures ApplyRule(values, rule) == values <==> ApplyRule(Faces(values), rule) == Faces(values)
  {
    FacesNameTheSame(values);
    ApplyRuleKeeps(values, rule);
    ApplyRuleKeeps(Faces(values), rule);
    forall v ensures (rule(v) == Some(v)) == (rule(Face(v)) == Some(Face(v))) {
      FaceKept(v, rule);
    }
  }

  lemma FaceKept(value: Json, rule: Rule)
    requires OnScalars(rule)
    ensures rule(value) == Some(value) <==> rule(Face(value)) == Some(Face(value))
    ensures rule(value).None? <==> rule(Face(value)).None?
  {
  }

  /** The rule drops as many of the values as of their faces. */
  lemma {:induction false} FacesLength(values: seq<Json>, rule: Rule)
    requires OnScalars(rule)
    ensures |Faces(values)| == |values|
    ensures |ApplyRule(values, rule)| == |ApplyRule(Faces(values), rule)|
  {
    if values != [] {
      FacesLength(values[1..], rule);
      FaceKept(values[0], rule);
      assert Faces(values)[1..] == Faces(values[1..]);
    }
  }

  lemma StripDropsOnly(values: seq<Json>, id: nat)
    ensures |ApplyRule(values, StripRule(id))| == |values| <==> ApplyRule(values, StripRule(id)) == values
  {
    DropsNothing(values, StripRule(id));
  }

  method KeptValues(values: seq<Json>, id: nat) returns (kept: seq<Json>)
    ensures kept == ApplyRule(values, StripRule(id))
  {
    kept := [];
    ghost var rule := StripRule(id);
    var i := 0;
    while i < |values|
      invariant 0 <= i <= |values|
      invariant kept + ApplyRule(values[i..], rule) == ApplyRule(values, rule)
    {
      ApplyRuleFrom(values, i, rule, kept);
      ConcatEmpty(kept);
      if ConfigOf(values[i]) != Some(id) {
        kept := kept + [values[i]];
      }
      i := i + 1;
    }
    ConcatEmpty(kept);
  }

  /** What stripping yields: the new value, whether an instance was named, whether a list lost all. */
  datatype Outcome<T> = Outcome(result: seq<T>, changed: bool, emptied: bool)

  function Then<T>(first: Outcome<T>, second: Outcome<T>): Outcome<T> {
    Outcome(first.result + second.result, first.changed || second.changed, first.emptied || second.emptied)
  }

  lemma ThenAssociates<T>(a: Outcome<T>, b: Outcome<T>, c: Outcome<T>)
    ensures Then(Then(a, b), c) == Then(a, Then(b, c))
  {
    ConcatAssociates(a.result, b.result, c.result);
  }

  lemma ThenNothing<T>(a: Outcome<T>)
    ensures Then(a, Outcome([], false, false)) == a && Then(Outcome([], false, false), a) == a
  {
    ConcatEmpty(a.result);
  }

  ghost function ItemOutcome(item: Json, id: nat): Outcome<Json> {
    Outcome([Rewrite(item, StripRule(id))], Names(RequesterLists(item), id), Empties(RequesterLists(item), id))
  }

  ghost function ItemsOutcome(items: seq<Json>, id: nat): Outcome<Json> {
    Outcome(RewriteItems(items, StripRule(id)), Names(ListsOfItems(items), id), Empties(ListsOfItems(items), id))
  }

  lemma NoItems(id: nat)
    ensures ItemsOutcome([], id) == Outcome([], false, false)
  {
  }

  /** The first item is handled before those after it. */
  lemma ItemsFrom(items: seq<Json>, i: nat, id: nat)
    requires i < |items|
    ensures ItemsOutcome(items[i..], id) == Then(ItemOutcome(items[i], id), ItemsOutcome(items[i + 1..], id))
  {
    assert items[i..][0] == items[i] && items[i..][1..] == items[i + 1..];
    SomeOfBoth(RequesterLists(items[i]), ListsOfItems(items[i + 1..]), NamesConfig(id));
    EmptiesBoth(RequesterLists(items[i]), ListsOfItems(items[i + 1..]), id);
  }

  method StripItems(items: seq<Json>, id: nat, ghost limit: Json)
    returns (result: seq<Json>, changed: bool, emptied: bool)
    requires forall x :: x in items ==> x < limit
    ensures Outcome(result, changed, emptied) == ItemsOutcome(items, id)
    decreases limit, 0
  {
    result, changed, emptied := [], false, false;
    ThenNothing(ItemsOutcome(items, id));
    for i := 0 to |items|
      invariant Then(Outcome(result, changed, emptied), ItemsOutcome(items[i..], id)) == ItemsOutcome(items, id)
    {
      var item := items[i];
      assert item in items;
      var child, childChanged, childEmptied := StripConfig(item, id);
      ItemsFrom(items, i, id);
      ThenAssociates(Outcome(result, changed, emptied), ItemOutcome(item, id), ItemsOutcome(items[i + 1..], id));
      result := result + [child];
      changed, emptied := changed || childChanged, emptied || childEmptied;
    }
    NoItems(id);
    ThenNothing(Outcome(result, changed, emptied));
  }

  ghost function MemberOutcome(member: Member, id: nat, here: bool): Outcome<Member> {
    var value := if here then RewriteValue(member.value, StripRule(id)) else Rewrite(member.value, StripRule(id));
    Outcome([Member(member.key, value)], Names(RequesterLists(member.value), id), Empties(RequesterLists(member.value), id))
  }

  ghost function MembersOutcome(members: seq<Member>, id: nat, pending: bool): Outcome<Member> {
    Outcome(RewriteMembers(members, StripRule(id), pending), Names(ListsOfMembers(members), id),
            Empties(ListsOfMembers(members), id))
  }

  lemma NoMoreMembers(id: nat, pending: bool)
    ensures MembersOutcome([], id, pending) == Outcome([], false, false)
  {
  }

  /** The first member is handled before those after it, and may be the one `value` to filter. */
  lemma MembersFrom(members: seq<Member>, i: nat, id: nat, pending: bool)
    requires i < |members|
    ensures var here := pending && members[i].key == "value";
            MembersOutcome(members[i..], id, pending)
            == Then(MemberOutcome(members[i], id, here), MembersOutcome(members[i + 1..], id, pending && !here))
  {
    assert members[i..][0] == members[i] && members[i..][1..] == members[i + 1..];
    SomeOfBoth(RequesterLists(members[i].value), ListsOfMembers(members[i + 1..]), NamesConfig(id));
    EmptiesBoth(RequesterLists(members[i].value), ListsOfMembers(members[i + 1..]), id);
  }

  method StripMember(member: Member, id: nat, here: bool) returns (result: Member, changed: bool, emptied: bool)
    ensures Outcome([result], changed, emptied) == MemberOutcome(member, id, here)
    decreases member, 3
  {
    var child;
    if here {
      child, changed, emptied := StripValue(member.value, id);
    } else {
      child, changed, emptied := StripConfig(member.value, id);
    }
    result := Member(member.key, child);
  }

  method StripMembers(members: seq<Member>, id: nat, requester: bool)
    returns (result: seq<Member>, changed: bool, emptied: bool)
    ensures Outcome(result, changed, emptied) == MembersOutcome(members, id, requester)
    decreases members, 0
  {
    result, changed, emptied := [], false, false;
    var pending := requester;
    ThenNothing(MembersOutcome(members, id, requester));
    for i := 0 to |members|
      invariant Then(Outcome(result, changed, emptied), MembersOutcome(members[i..], id, pending))
                == MembersOutcome(members, id, requester)
    {
      var member := members[i];
      var here := pending && member.key == "value";
      var child, childChanged, childEmptied := StripMember(member, id, here);
      MembersFrom(members, i, id, pending);
      pending := pending && !here;
      ThenAssociates(Outcome(result, changed, emptied), MemberOutcome(member, id, here),
                     MembersOutcome(members[i + 1..], id, pending));
      result := result + [child];
      changed, emptied := changed || childChanged, emptied || childEmptied;
    }
    NoMoreMembers(id, pending);
    ThenNothing(Outcome(result, changed, emptied));
  }

  /** A value none of whose entries is dropped is only searched. */
  lemma KeptValue(raw: Json, rule: Rule)
    requires OnScalars(rule) && ApplyRule(ValuesOf(raw), rule) == ValuesOf(raw)
    ensures RewriteValue(raw, rule) == Rewrite(raw, rule)
  {
    match raw
    case Arr(items) => KeptIsFiltered(items, rule);
    case Obj(_) =>
    case _ =>
      ApplyRuleKeeps([raw], rule);
      assert raw in [raw];
  }

  /** A list of values is filtered, and then searched. */
  lemma FilteredList(items: seq<Json>, rule: Rule)
    requires OnScalars(rule)
    ensures RewriteValue(Arr(items), rule) == Arr(RewriteItems(ApplyRule(items, rule), rule))
    ensures RequesterLists(Arr(items)) == ListsOfItems(ApplyRule(items, rule))
    ensures forall x :: x in ApplyRule(items, rule) ==> x in items || !IsContainer(x)
  {
    KeptIsFiltered(items, rule);
    ApplyRuleKeepsLists(items, rule);
  }

  /** A single value that is not kept holds no further conditions. */
  lemma FilteredScalar(raw: Json, rule: Rule)
    requires OnScalars(rule) && !raw.Arr? && ApplyRule([raw], rule) != [raw]
    ensures RewriteValue(raw, rule) == Arr(ApplyRule([raw], rule)) && RequesterLists(raw) == []
  {
    ApplyRuleKeeps([raw], rule);
    assert forall v :: v in [raw] <==> v == raw;
  }

  lemma NothingInNoLists(id: nat)
    ensures !Names([], id) && !Empties([], id)
  {
  }

  /** The value of a requester condition: filtered first, then searched for further conditions. */
  method StripValue(raw: Json, id: nat) returns (result: Json, changed: bool, emptied: bool)
    ensures result == RewriteValue(raw, StripRule(id))
    ensures changed <==> Names(RequesterLists(raw), id)
    ensures emptied <==> Empties(RequesterLists(raw), id)
    decreases raw, 2
  {
    var values := ValuesOf(raw);
    var kept := KeptValues(values, id);
    ghost var rule := StripRule(id);
    StripDropsOnly(values, id);
    StripRuleOnScalars(id);
    if |kept| == |values| {
      KeptValue(raw, rule);
      result, changed, emptied := StripConfig(raw, id);
    } else if raw.Arr? {
      FilteredList(values, rule);
      KeptAreOld(values, id);
      var items, childChanged, childEmptied := StripItems(kept, id, raw);
      result, changed, emptied := Arr(items), childChanged, childEmptied;
    } else {
      FilteredScalar(raw, rule);
      NothingInNoLists(id);
      result, changed, emptied := Arr(kept), false, false;
    }
  }

  lemma {:induction false} KeptAreOld(values: seq<Json>, id: nat)
    ensures forall x :: x in ApplyRule(values, StripRule(id)) ==> x in values
  {
    if values != [] {
      KeptAreOld(values[1..], id);
    }
  }
}
