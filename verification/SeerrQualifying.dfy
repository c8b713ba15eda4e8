/** Attaching a Seerr instance to every bare requester id of a rule definition. */
module SeerrQualifying {
  import opened Basics
  import opened SeerrIdentity
  import opened RuleActions
  import opened SeerrRewrites

  /** Whether some requester condition still names a user without an instance. */
  predicate HasUnqualified(node: Json)
    decreases node, 1
  {
    match node
    case Arr(items) => ItemsHaveUnqualified(items)
    case Obj(members) =>
      || (IsRequester(members) && exists v :: v in ValuesOf(Find(members, "value").value) && IsUnqualified(v))
      || MembersHaveUnqualified(members)
    case _ => false
  }

  predicate ItemsHaveUnqualified(items: seq<Json>)
    decreases items, 0
  {
    items != [] && (HasUnqualified(items[0]) || ItemsHaveUnqualified(items[1..]))
  }

  predicate MembersHaveUnqualified(members: seq<Member>)
    decreases members, 0
  {
    members != [] && (HasUnqualified(members[0].value) || MembersHaveUnqualified(members[1..]))
  }

  /** A condition that reads a container as it reads an empty one. */
  ghost predicate ReadsFaces(p: Json -> bool) {
    forall v :: p(v) <==> p(Face(v))
  }

  lemma SomeFace(values: seq<Json>, p: Json -> bool)
    requires ReadsFaces(p)
    ensures AnyIn(values, p) == AnyValue([Faces(values)], p)
  {
    FacesNameTheSame(values);
    SomeOfOne(Faces(values), p);
    if v :| v in values && p(v) {
      assert Face(v) in Faces(values) && p(Face(v));
    }
    if f :| f in Faces(values) && p(f) {
      var v :| v in values && f == Face(v);
      assert p(v);
    }
  }

  lemma UnqualifiedReadsFaces()
    ensures ReadsFaces(IsUnqualified) && ReadsFaces(IsBare)
  {
    forall v ensures IsUnqualified(v) == IsUnqualified(Face(v)) && IsBare(v) == IsBare(Face(v)) {
      FaceNamesTheSame(v);
      if IsContainer(v) {
        ContainersNameNothing(v);
        ContainersNameNothing(Face(v));
      }
    }
  }

  lemma {:induction false} UnqualifiedInLists(node: Json)
    ensures HasUnqualified(node) == AnyValue(RequesterLists(node), IsUnqualified)
    decreases node, 1
  {
    match node
    case Arr(items) => ItemsUnqualifiedInLists(items);
    case Obj(members) =>
      MembersUnqualifiedInLists(members);
      if IsRequester(members) {
        var values := ValuesOf(Find(members, "value").value);
        UnqualifiedReadsFaces();
        SomeFace(values, IsUnqualified);
        SomeOfBoth([Faces(values)], ListsOfMembers(members), IsUnqualified);
      } else {
        ConcatEmpty(ListsOfMembers(members));
      }
    case _ =>
  }

  lemma {:induction false} ItemsUnqualifiedInLists(items: seq<Json>)
    ensures ItemsHaveUnqualified(items) == AnyValue(ListsOfItems(items), IsUnqualified)
    decreases items, 0
  {
    if items != [] {
      UnqualifiedInLists(items[0]);
      ItemsUnqualifiedInLists(items[1..]);
      SomeOfBoth(RequesterLists(items[0]), ListsOfItems(items[1..]), IsUnqualified);
    }
  }

  lemma {:induction false} MembersUnqualifiedInLists(members: seq<Member>)
    ensures MembersHaveUnqualified(members) == AnyValue(ListsOfMembers(members), IsUnqualified)
    decreases members, 0
  {
    if members != [] {
      UnqualifiedInLists(members[0].value);
      MembersUnqualifiedInLists(members[1..]);
      SomeOfBoth(RequesterLists(members[0].value), ListsOfMembers(members[1..]), IsUnqualified);
    }
  }

  // -------------------------------------------------------------------------------------------
  // Qualifying

  function Qualified(value: Json, config: nat): Json {
    if IsBare(value) then Str(Qualify(config, ParseDecimal(Strip(TextOf(value))))) else value
  }

  function QualifyRule(config: nat): Rule {
    (value: Json) => Some(Qualified(value, config))
  }

  lemma QualifyRuleOnScalars(config: nat)
    ensures OnScalars(QualifyRule(config))
  {
    forall v | IsContainer(v) ensures QualifyRule(config)(v) == Some(v) { ContainersNameNothing(v); }
  }

  lemma BareIsUnqualified(value: Json)
    requires IsBare(value)
    ensures ConfigOf(value) == None && IsUnqualified(value)
  {
    var text := Strip(TextOf(value));
    DigitsHaveNoSeparator(text);
    NoSeparatorFound(text);
    assert FirstSeparator(text) == |text|;
    BareTextDoesNotParse("");
  }

  lemma QualifiedIsQualified(config: nat, user: nat)
    ensures ConfigOf(Str(Qualify(config, user))) == Some(config)
    ensures !IsBare(Str(Qualify(config, user))) && !IsUnqualified(Str(Qualify(config, user)))
  {
    var text := Qualify(config, user);
    ParseOfQualify(config, user);
    assert text != "";
    if AllDigits(Strip(text)) { BareIsUnqualified(Str(text)); }
  }

  lemma QualifyingChanges(value: Json, config: nat)
    ensures Qualified(value, config) == value <==> !IsBare(value)
    ensures !IsBare(Qualified(value, config))
    ensures ConfigOf(Qualified(value, config)) == if IsBare(value) then Some(config) else ConfigOf(value)
    ensures IsUnqualified(Qualified(value, config)) <==> IsUnqualified(value) && !IsBare(value)
  {
    if IsBare(value) { QualifiedIsQualified(config, ParseDecimal(Strip(TextOf(value)))); }
  }

  /** A bare value becomes the user it denotes, of the instance attached; every other value stays itself. */
  lemma QualifiedNamesUser(value: Json, config: nat)
    ensures if IsBare(value) then
              IdentityOf(Qualified(value, config)) == Some(Identity(config, ParseDecimal(Strip(TextOf(value)))))
            else Qualified(value, config) == value
  {
    if IsBare(value) {
      var user := ParseDecimal(Strip(TextOf(value)));
      assert Qualify(config, user) != "";
      ParseOfQualify(config, user);
    }
  }

  lemma {:induction false} QualifiedPlaces(values: seq<Json>, config: nat)
    ensures |ApplyRule(values, QualifyRule(config))| == |values|
    ensures forall j :: 0 <= j < |values| ==> ApplyRule(values, QualifyRule(config))[j] == Qualified(values[j], config)
  {
    if values != [] { QualifiedPlaces(values[1..], config); }
  }

  /** Qualifying moves nothing: the requester lists stay as many and as long as they are. */
  lemma QualifyKeepsPlaces(node: Json, config: nat)
    ensures |RequesterLists(Rewrite(node, QualifyRule(config)))| == |RequesterLists(node)|
    ensures forall i :: 0 <= i < |RequesterLists(node)|
              ==> |RequesterLists(Rewrite(node, QualifyRule(config)))[i]| == |RequesterLists(node)[i]|
  {
    var lists := RequesterLists(node);
    QualifyRuleOnScalars(config);
    RewriteAppliesRule(node, QualifyRule(config));
    AppliedLists(lists, QualifyRule(config));
    forall i | 0 <= i < |lists| ensures |ApplyRule(lists[i], QualifyRule(config))| == |lists[i]| {
      QualifiedPlaces(lists[i], config);
    }
  }

  /**
   In a qualified rule every place of every requester list names the instance attached and the user
   that stood there bare, and holds what it held where no bare id stood.
   */
  lemma QualifyKeepsUsers(node: Json, config: nat, i: nat, j: nat)
    requires i < |RequesterLists(node)| && j < |RequesterLists(node)[i]|
    ensures i < |RequesterLists(Rewrite(node, QualifyRule(config)))|
    ensures j < |RequesterLists(Rewrite(node, QualifyRule(config)))[i]|
    ensures var before, after := RequesterLists(node)[i][j], RequesterLists(Rewrite(node, QualifyRule(config)))[i][j];
            if IsBare(before) then
              IdentityOf(after) == Some(Identity(config, ParseDecimal(Strip(TextOf(before)))))
            else after == before
  {
    var lists := RequesterLists(node);
    QualifyKeepsPlaces(node, config);
    QualifyRuleOnScalars(config);
    RewriteAppliesRule(node, QualifyRule(config));
    AppliedLists(lists, QualifyRule(config));
    QualifiedPlaces(lists[i], config);
    QualifiedNamesUser(lists[i][j], config);
  }

  /** Neither qualified nor blank, and no digits to qualify: such a value is left for validation to refuse. */
  predicate IsStuck(value: Json) {
    IsUnqualified(value) && !IsBare(value)
  }

  /** The rule keeps a value exactly when it is not bare. */
  lemma QualifyKeeps(lists: seq<seq<Json>>, config: nat)
    ensures KeepsAll(lists, QualifyRule(config)) == !AnyValue(lists, IsBare)
  {
    var rule := QualifyRule(config);
    forall v ensures (rule(v) == Some(v)) == !IsBare(v) { QualifyingChanges(v, config); }
    KeepsUnless(lists, rule, IsBare);
  }

  lemma QualifyChangesExactly(node: Json, config: nat)
    ensures Rewrite(node, QualifyRule(config)) == node <==> !AnyValue(RequesterLists(node), IsBare)
  {
    QualifyRuleOnScalars(config);
    RewriteChangesExactly(node, QualifyRule(config));
    QualifyKeeps(RequesterLists(node), config);
  }

  /** After qualifying, a value satisfies a condition exactly when it did under the qualified reading. */
  lemma QualifiedTree(node: Json, config: nat, p: Json -> bool, q: Json -> bool)
    requires forall v :: q(v) == p(Qualified(v, config))
    ensures AnyValue(RequesterLists(Rewrite(node, QualifyRule(config))), p) == AnyValue(RequesterLists(node), q)
  {
    var rule := QualifyRule(config);
    QualifyRuleOnScalars(config);
    RewriteAppliesRule(node, rule);
    AppliedValues(RequesterLists(node), rule, p);
    SameCondition(RequesterLists(node), Through(rule, p), q);
  }

  /**
   Qualifying is complete and idempotent: no bare id is left, what is still unqualified is neither
   blank nor digits, every other value and the rest of the tree stay as they are, and a second run
   changes nothing.
   */
  lemma QualifyIsComplete(node: Json, config: nat)
    ensures HasUnqualified(Rewrite(node, QualifyRule(config))) <==> AnyValue(RequesterLists(node), IsStuck)
    ensures RequesterLists(Rewrite(node, QualifyRule(config))) == ApplyToLists(RequesterLists(node), QualifyRule(config))
    ensures Mask(Rewrite(node, QualifyRule(config))) == Mask(node)
    ensures Rewrite(node, QualifyRule(config)) == node <==> !AnyValue(RequesterLists(node), IsBare)
    ensures Rewrite(Rewrite(node, QualifyRule(config)), QualifyRule(config)) == Rewrite(node, QualifyRule(config))
  {
    var qualified := Rewrite(node, QualifyRule(config));
    QualifyRuleOnScalars(config);
    RewriteAppliesRule(node, QualifyRule(config));
    RewriteKeepsTheRest(node, QualifyRule(config));
    forall v ensures IsStuck(v) == IsUnqualified(Qualified(v, config)) { QualifyingChanges(v, config); }
    QualifiedTree(node, config, IsUnqualified, IsStuck);
    UnqualifiedInLists(qualified);
    QualifyChangesExactly(node, config);
    forall v ensures !IsBare(Qualified(v, config)) { QualifyingChanges(v, config); }
    QualifiedTree(node, config, IsBare, v => false);
    NothingSatisfies(RequesterLists(node), v => false);
    QualifyChangesExactly(qualified, config);
  }

  /** Qualifying adds the instance exactly when some value was bare, and loses no other. */
  lemma QualifyAddsInstance(node: Json, config: nat, id: nat)
    ensures id in CollectConfigs(Rewrite(node, QualifyRule(config)))
            <==> id in CollectConfigs(node) || (id == config && AnyValue(RequesterLists(node), IsBare))
  {
    var lists := RequesterLists(node);
    var q := v => ConfigOf(v) == Some(id) || (id == config && IsBare(v));
    forall v ensures q(v) == NamesConfig(id)(Qualified(v, config)) {
      QualifyingChanges(v, config);
      if IsBare(v) { BareIsUnqualified(v); }
    }
    QualifiedTree(node, config, NamesConfig(id), q);
    CollectsTheNamed(node, id);
    CollectsTheNamed(Rewrite(node, QualifyRule(config)), id);
    EitherCondition(lists, NamesConfig(id), v => id == config && IsBare(v), q);
    if id == config {
      SameCondition(lists, v => id == config && IsBare(v), IsBare);
    } else {
      SameCondition(lists, v => id == config && IsBare(v), v => false);
      NothingSatisfies(lists, v => false);
    }
  }

  lemma EitherCondition(lists: seq<seq<Json>>, p: Json -> bool, q: Json -> bool, either: Json -> bool)
    requires forall v :: either(v) == (p(v) || q(v))
    ensures AnyValue(lists, either) == (AnyValue(lists, p) || AnyValue(lists, q))
  {
    assert forall l :: AnyIn(l, either) == (AnyIn(l, p) || AnyIn(l, q));
  }

  // -------------------------------------------------------------------------------------------
  // The rewrite as it runs

  /** Attaches the instance to every bare requester id; `changed` tells whether there was one. */
  method QualifyConfig(node: Json, config: nat) returns (result: Json, changed: bool)
    ensures result == Rewrite(node, QualifyRule(config))
    ensures changed == AnyValue(RequesterLists(node), IsBare)
    decreases node, 1
  {
    match node {
      case Arr(items) =>
        var rewritten, childChanged := QualifyItems(items, config, node);
        return Arr(rewritten), childChanged;
      case Obj(members) =>
        var rewritten, childChanged := QualifyMembers(members, config, IsRequester(members));
        result, changed := Obj(rewritten), childChanged;
        if IsRequester(members) {
          var values := ValuesOf(Find(members, "value").value);
          var _, own := QualifiedValues(values, config);
          UnqualifiedReadsFaces();
          SomeFace(values, IsBare);
          SomeOfBoth([Faces(values)], ListsOfMembers(members), IsBare);
          changed := changed || own;
        } else {
          ConcatEmpty(ListsOfMembers(members));
        }
      case _ =>
        return node, false;
    }
  }

  method QualifiedValues(values: seq<Json>, config: nat) returns (qualified: seq<Json>, changed: bool)
    ensures qualified == ApplyRule(values, QualifyRule(config))
    ensures changed == AnyIn(values, IsBare)
  {
    ghost var rule := QualifyRule(config);
    ghost var bare := Null;
    qualified, changed := [], false;
    for i := 0 to |values|
      invariant qualified + ApplyRule(values[i..], rule) == ApplyRule(values, rule)
      invariant changed ==> bare in values && IsBare(bare)
      invariant !changed ==> forall k :: 0 <= k < i ==> !IsBare(values[k])
    {
      var value := values[i];
      ApplyRuleFrom(values, i, rule, qualified);
      if IsBare(value) {
        qualified := qualified + [Str(Qualify(config, ParseDecimal(Strip(TextOf(value)))))];
        changed, bare := true, value;
      } else {
        qualified := qualified + [value];
      }
    }
    ConcatEmpty(qualified);
  }

  ghost function ItemOutcome(item: Json, config: nat): Outcome<Json> {
    Outcome([Rewrite(item, QualifyRule(config))], AnyValue(RequesterLists(item), IsBare), false)
  }

  ghost function ItemsOutcome(items: seq<Json>, config: nat): Outcome<Json> {
    Outcome(RewriteItems(items, QualifyRule(config)), AnyValue(ListsOfItems(items), IsBare), false)
  }

  lemma NothingInNoLists()
    ensures !AnyValue([], IsBare)
  {
  }

  lemma ScalarOutcome(item: Json, config: nat)
    requires !IsContainer(item)
    ensures ItemOutcome(item, config) == Outcome([item], false, false)
  {
    NothingInNoLists();
  }

  lemma NoItems(config: nat)
    ensures ItemsOutcome([], config) == Outcome([], false, false)
  {
  }

  lemma ItemsFrom(items: seq<Json>, i: nat, config: nat)
    requires i < |items|
    ensures ItemsOutcome(items[i..], config)
            == Then(ItemOutcome(items[i], config), ItemsOutcome(items[i + 1..], config))
  {
    assert items[i..][0] == items[i] && items[i..][1..] == items[i + 1..];
    SomeOfBoth(RequesterLists(items[i]), ListsOfItems(items[i + 1..]), IsBare);
  }

  method QualifyItems(items: seq<Json>, config: nat, ghost limit: Json) returns (result: seq<Json>, changed: bool)
    requires forall x :: x in items ==> x < limit || !IsContainer(x)
    ensures Outcome(result, changed, false) == ItemsOutcome(items, config)
    decreases limit, 0
  {
    result, changed := [], false;
    ThenNothing(ItemsOutcome(items, config));
    for i := 0 to |items|
      invariant Then(Outcome(result, changed, false), ItemsOutcome(items[i..], config)) == ItemsOutcome(items, config)
    {
      var item := items[i];
      assert item in items;
      var child, childChanged := item, false;
      if IsContainer(item) {
        child, childChanged := QualifyConfig(item, config);
      } else {
        ScalarOutcome(item, config);
      }
      assert Outcome([child], childChanged, false) == ItemOutcome(item, config);
      ItemsFrom(items, i, config);
      ThenAssociates(Outcome(result, changed, false), ItemOutcome(item, config), ItemsOutcome(items[i + 1..], config));
      result, changed := result + [child], changed || childChanged;
    }
    NoItems(config);
    ThenNothing(Outcome(result, changed, false));
  }

  ghost function MemberOutcome(member: Member, config: nat, here: bool): Outcome<Member> {
    var rule := QualifyRule(config);
    var value := if here then RewriteValue(member.value, rule) else Rewrite(member.value, rule);
    Outcome([Member(member.key, value)], AnyValue(RequesterLists(member.value), IsBare), false)
  }

  ghost function MembersOutcome(members: seq<Member>, config: nat, pending: bool): Outcome<Member> {
    Outcome(RewriteMembers(members, QualifyRule(config), pending), AnyValue(ListsOfMembers(members), IsBare), false)
  }

  lemma NoMoreMembers(config: nat, pending: bool)
    ensures MembersOutcome([], config, pending) == Outcome([], false, false)
  {
  }

  lemma MembersFrom(members: seq<Member>, i: nat, config: nat, pending: bool)
    requires i < |members|
    ensures var here := pending && members[i].key == "value";
            MembersOutcome(members[i..], config, pending)
            == Then(MemberOutcome(members[i], config, here), MembersOutcome(members[i + 1..], config, pending && !here))
  {
    assert members[i..][0] == members[i] && members[i..][1..] == members[i + 1..];
    SomeOfBoth(RequesterLists(members[i].value), ListsOfMembers(members[i + 1..]), IsBare);
  }

  method QualifyMember(member: Member, config: nat, here: bool) returns (result: Member, changed: bool)
    ensures Outcome([result], changed, false) == MemberOutcome(member, config, here)
    decreases member, 3
  {
    var child;
    if here {
      child, changed := QualifyValue(member.value, config);
    } else {
      child, changed := QualifyConfig(member.value, config);
    }
    result := Member(member.key, child);
  }

  method QualifyMembers(members: seq<Member>, config: nat, requester: bool)
    returns (result: seq<Member>, changed: bool)
    ensures Outcome(result, changed, false) == MembersOutcome(members, config, requester)
    decreases members, 0
  {
    result, changed := [], false;
    var pending := requester;
    ThenNothing(MembersOutcome(members, config, requester));
    for i := 0 to |members|
      invariant Then(Outcome(result, changed, false), MembersOutcome(members[i..], config, pending))
                == MembersOutcome(members, config, requester)
    {
      var member := members[i];
      var here := pending && member.key == "value";
      var child, childChanged := QualifyMember(member, config, here);
      MembersFrom(members, i, config, pending);
      pending := pending && !here;
      ThenAssociates(Outcome(result, changed, false), MemberOutcome(member, config, here),
                     MembersOutcome(members[i + 1..], config, pending));
      result, changed := result + [child], changed || childChanged;
    }
    NoMoreMembers(config, pending);
    ThenNothing(Outcome(result, changed, false));
  }

  /** A single value is replaced by a list of its qualified form exactly when it is bare. */
  lemma QualifiedScalar(raw: Json, config: nat)
    requires !IsContainer(raw)
    ensures RewriteValue(raw, QualifyRule(config))
            == if IsBare(raw) then Arr(ApplyRule([raw], QualifyRule(config))) else raw
    ensures AnyIn([raw], IsBare) == IsBare(raw)
  {
    QualifyingChanges(raw, config);
    assert raw in [raw];
  }

  /** The value of a requester condition: qualified first, then searched for further conditions. */
  method QualifyValue(raw: Json, config: nat) returns (result: Json, changed: bool)
    ensures result == RewriteValue(raw, QualifyRule(config))
    ensures changed == AnyValue(RequesterLists(raw), IsBare)
    decreases raw, 2
  {
    var qualified, own := QualifiedValues(ValuesOf(raw), config);
    QualifyRuleOnScalars(config);
    match raw {
      case Arr(items) =>
        FilteredList(items, QualifyRule(config));
        var rewritten;
        rewritten, changed := QualifyItems(qualified, config, raw);
        result := Arr(rewritten);
      case Obj(_) =>
        result, changed := QualifyConfig(raw, config);
      case _ =>
        QualifiedScalar(raw, config);
        NothingInNoLists();
        result := if own then Arr(qualified) else raw;
        changed := false;
    }
  }
}
