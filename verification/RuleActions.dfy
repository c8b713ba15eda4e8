/**
 What the rewrites of Seerr requester values in a rule definition have in common: a rule for single
 values, applied to every requester condition of a JSON tree.
 */
module RuleActions {
  import opened Basics
  import opened SeerrIdentity

  const REQUESTER_FIELD: string := "seerr.requested_by_user_ids"

  datatype Json =
    | Null
    | Bool(flag: bool)
    | Int(number: int)
    | Float(whole: int, decimals: nat)
    | Str(text: string)
    | Arr(items: seq<Json>)
    | Obj(members: seq<Member>)

  /** One entry of an object; an object lists its entries in order. */
  datatype Member = Member(key: string, value: Json)

  predicate IsContainer(value: Json) {
    value.Arr? || value.Obj?
  }

  function IntText(n: int): string {
    if n < 0 then "-" + Decimal(-n) else Decimal(n)
  }

  /** The text of a value; of a container only the opening bracket matters here. */
  function TextOf(value: Json): string {
    match value
    case Null => "None"
    case Bool(flag) => if flag then "True" else "False"
    case Int(n) => IntText(n)
    case Float(whole, decimals) => IntText(whole) + ("." + Decimal(decimals))
    case Str(text) => text
    case Arr(_) => "["
    case Obj(_) => "{"
  }

  predicate IsFalsy(value: Json) {
    match value
    case Null => true
    case Bool(flag) => !flag
    case Int(n) => n == 0
    case Float(whole, decimals) => whole == 0 && decimals == 0
    case Str(text) => text == ""
    case Arr(items) => items == []
    case Obj(members) => members == []
  }

  function IdentityOf(value: Json): Option<Identity> {
    Parse(if IsFalsy(value) then "" else TextOf(value))
  }

  /** Which Seerr instance a value names. */
  function ConfigOf(value: Json): Option<nat> {
    match IdentityOf(value)
    case None => None
    case Some(identity) => Some(identity.config)
  }

  /** A bare user id: digits that name no instance. */
  predicate IsBare(value: Json) {
    !value.Null? && AllDigits(Strip(TextOf(value)))
  }

  /** A value that neither names an instance nor is blank. */
  predicate IsUnqualified(value: Json) {
    !value.Null? && Strip(TextOf(value)) != "" && IdentityOf(value).None?
  }

  /** A number is written with its own digits: its text denotes it. */
  lemma IntTextDenotes(n: nat)
    ensures AllDigits(Strip(IntText(n))) && ParseDecimal(Strip(IntText(n))) == n
  {
    var text := Decimal(n);
    assert IsDigit(text[0]) && IsDigit(text[|text| - 1]);
    StripOfStripped(text);
  }

  lemma NegativeTextIsNoDigits(n: int)
    requires n < 0
    ensures Strip(IntText(n)) == IntText(n) && !AllDigits(IntText(n)) && SEPARATOR !in IntText(n)
  {
    var digits := Decimal(-n);
    DigitsHaveNoSeparator(digits);
    assert IntText(n) == ['-'] + digits && IsDigit(digits[|digits| - 1]);
    assert IntText(n)[0] == '-' && IntText(n)[|IntText(n)| - 1] == digits[|digits| - 1];
    StripOfStripped(IntText(n));
  }

  lemma IntTextHasNoSeparator(n: int)
    ensures SEPARATOR !in IntText(n)
  {
    if n < 0 { NegativeTextIsNoDigits(n); } else { DigitsHaveNoSeparator(Decimal(n)); }
  }

  lemma IntTextEnds(n: int)
    ensures IntText(n) != [] && !IsSpace(IntText(n)[0])
  {
    if n < 0 { assert IntText(n)[0] == '-'; } else { assert IsDigit(Decimal(n)[0]); }
  }

  lemma FloatTextIsNoDigits(whole: int, decimals: nat)
    ensures var text := IntText(whole) + ("." + Decimal(decimals));
            Strip(text) == text && !AllDigits(text) && SEPARATOR !in text
  {
    var digits := Decimal(decimals);
    var text := IntText(whole) + ("." + digits);
    IntTextHasNoSeparator(whole);
    IntTextEnds(whole);
    DigitsHaveNoSeparator(digits);
    assert IsDigit(digits[|digits| - 1]);
    assert text[0] == IntText(whole)[0] && text[|text| - 1] == digits[|digits| - 1];
    StripOfStripped(text);
    assert text[|IntText(whole)|] == '.';
  }

  lemma WordIsNoDigits(text: string)
    requires text in {"None", "True", "False", "[", "{"}
    ensures Strip(text) == text && !AllDigits(text) && SEPARATOR !in text
  {
    StripOfStripped(text);
    assert !IsDigit(text[0]);
  }

  /** The values other than texts and natural numbers are written with other characters than digits. */
  lemma OtherTextIsNoDigits(value: Json)
    requires !value.Str? && !(value.Int? && value.number >= 0)
    ensures !AllDigits(Strip(TextOf(value))) && SEPARATOR !in TextOf(value)
  {
    match value
    case Int(n) => NegativeTextIsNoDigits(n);
    case Float(whole, decimals) => FloatTextIsNoDigits(whole, decimals);
    case _ => WordIsNoDigits(TextOf(value));
  }

  /** Only a text can name an instance. */
  lemma OnlyTextsNameInstances(value: Json)
    ensures IdentityOf(value) == if value.Str? then Parse(value.text) else None
  {
    BareTextDoesNotParse("");
    if !value.Str? {
      if value.Int? {
        IntTextHasNoSeparator(value.number);
      } else {
        OtherTextIsNoDigits(value);
      }
      BareTextDoesNotParse(TextOf(value));
    }
  }

  /** The bare ids are the natural numbers and the texts of digits, and each denotes its own number. */
  lemma BareValues(value: Json)
    ensures IsBare(value) <==> (value.Int? && value.number >= 0) || (value.Str? && AllDigits(Strip(value.text)))
    ensures value.Int? && value.number >= 0 ==> ParseDecimal(Strip(TextOf(value))) == value.number
  {
    if value.Int? && value.number >= 0 {
      IntTextDenotes(value.number);
    } else if !value.Str? {
      OtherTextIsNoDigits(value);
    }
  }

  /** Unqualified are the texts that are neither blank nor an identity, and all values but texts and null. */
  lemma UnqualifiedValues(value: Json)
    ensures IsUnqualified(value) == match value
                                    case Null => false
                                    case Str(text) => Strip(text) != "" && Parse(text) == None
                                    case _ => true
  {
    OnlyTextsNameInstances(value);
    match value
    case Int(n) => if n >= 0 { IntTextDenotes(n); } else { NegativeTextIsNoDigits(n); }
    case Float(whole, decimals) => FloatTextIsNoDigits(whole, decimals);
    case Str(_) =>
    case _ => WordIsNoDigits(TextOf(value));
  }

  // -------------------------------------------------------------------------------------------
  // Requester conditions

  function Find(members: seq<Member>, key: string): Option<Json> {
    if members == [] then None
    else if members[0].key == key then Some(members[0].value)
    else Find(members[1..], key)
  }

  /** An object whose `field` is the requester field and that has a `value`. */
  predicate IsRequester(members: seq<Member>) {
    Find(members, "field") == Some(Str(REQUESTER_FIELD)) && Find(members, "value").Some?
  }

  function ValuesOf(raw: Json): seq<Json> {
    match raw
    case Arr(items) => items
    case _ => [raw]
  }

  /** A value with the contents of a container left out. */
  function Face(value: Json): Json {
    match value
    case Arr(_) => Arr([])
    case Obj(_) => Obj([])
    case _ => value
  }

  function Faces(values: seq<Json>): seq<Json> {
    if values == [] then [] else [Face(values[0])] + Faces(values[1..])
  }

  /** The value lists of all requester conditions of a tree, outermost first, in order. */
  function RequesterLists(node: Json): seq<seq<Json>>
    decreases node, 1
  {
    match node
    case Arr(items) => ListsOfItems(items)
    case Obj(members) =>
      (if IsRequester(members) then [Faces(ValuesOf(Find(members, "value").value))] else [])
      + ListsOfMembers(members)
    case _ => []
  }

  function ListsOfItems(items: seq<Json>): seq<seq<Json>>
    decreases items, 0
  {
    if items == [] then [] else RequesterLists(items[0]) + ListsOfItems(items[1..])
  }

  function ListsOfMembers(members: seq<Member>): seq<seq<Json>>
    decreases members, 0
  {
    if members == [] then [] else RequesterLists(members[0].value) + ListsOfMembers(members[1..])
  }

  /** The values directly inside a container. */
  predicate IsPart(part: Json, whole: Json) {
    match whole
    case Arr(items) => part in items
    case Obj(members) => exists m :: m in members && m.value == part
    case _ => false
  }

  /** A chain of values, each directly inside the one before. */
  ghost predicate IsChain(chain: seq<Json>) {
    chain != [] && forall i :: 0 < i < |chain| ==> IsPart(chain[i], chain[i - 1])
  }

  /** The chain leads to an object that asks for requesters and lists these. */
  ghost predicate LeadsToList(node: Json, chain: seq<Json>, list: seq<Json>) {
    && IsChain(chain) && chain[0] == node && chain[|chain| - 1].Obj?
    && var members := chain[|chain| - 1].members;
    && Find(members, "field") == Some(Str("seerr.requested_by_user_ids"))
    && Find(members, "value").Some? && list == Faces(ValuesOf(Find(members, "value").value))
  }

  lemma LongerChain(whole: Json, part: Json, chain: seq<Json>, list: seq<Json>)
    requires IsPart(part, whole) && LeadsToList(part, chain, list)
    ensures LeadsToList(whole, [whole] + chain, list)
  {
    var longer := [whole] + chain;
    forall i | 0 < i < |longer|
      ensures IsPart(longer[i], longer[i - 1])
    {
      assert longer[i] == chain[i - 1];
      if i > 1 { assert longer[i - 1] == chain[i - 2]; }
    }
  }

  lemma {:induction false} ListIsReached(node: Json, list: seq<Json>) returns (chain: seq<Json>)
    requires list in RequesterLists(node)
    ensures LeadsToList(node, chain, list)
    decreases node, 1
  {
    match node
    case Arr(items) =>
      var part, rest := ItemIsReached(items, list);
      LongerChain(node, part, rest, list);
      chain := [node] + rest;
    case Obj(members) =>
      if list in ListsOfMembers(members) {
        var member, rest := MemberIsReached(members, list);
        LongerChain(node, member.value, rest, list);
        chain := [node] + rest;
      } else {
        chain := [node];
      }
  }

  lemma {:induction false} ItemIsReached(items: seq<Json>, list: seq<Json>) returns (part: Json, chain: seq<Json>)
    requires list in ListsOfItems(items)
    ensures part in items && LeadsToList(part, chain, list)
    decreases items, 0
  {
    if list in RequesterLists(items[0]) {
      part := items[0];
      chain := ListIsReached(part, list);
    } else {
      part, chain := ItemIsReached(items[1..], list);
    }
  }

  lemma {:induction false} MemberIsReached(members: seq<Member>, list: seq<Json>)
    returns (member: Member, chain: seq<Json>)
    requires list in ListsOfMembers(members)
    ensures member in members && LeadsToList(member.value, chain, list)
    decreases members, 0
  {
    if list in RequesterLists(members[0].value) {
      member := members[0];
      chain := ListIsReached(member.value, list);
    } else {
      member, chain := MemberIsReached(members[1..], list);
    }
  }

  lemma {:induction false} ItemLists(items: seq<Json>, part: Json, list: seq<Json>)
    requires part in items && list in RequesterLists(part)
    ensures list in ListsOfItems(items)
  {
    if part != items[0] { ItemLists(items[1..], part, list); }
  }

  lemma {:induction false} MemberLists(members: seq<Member>, member: Member, list: seq<Json>)
    requires member in members && list in RequesterLists(member.value)
    ensures list in ListsOfMembers(members)
  {
    if member != members[0] { MemberLists(members[1..], member, list); }
  }

  lemma {:induction false} ReachedIsListed(node: Json, chain: seq<Json>, list: seq<Json>)
    requires LeadsToList(node, chain, list)
    ensures list in RequesterLists(node)
    decreases |chain|
  {
    if |chain| > 1 {
      var part := chain[1];
      assert IsPart(part, chain[0]);
      assert LeadsToList(part, chain[1..], list);
      ReachedIsListed(part, chain[1..], list);
      match node
      case Arr(items) => ItemLists(items, part, list);
      case Obj(members) =>
        var member :| member in members && member.value == part;
        MemberLists(members, member, list);
    }
  }

  /**
   The requester lists are exactly the values of the objects, anywhere in the tree, whose `field` is
   the requester field.
   */
  lemma RequesterListsAre(node: Json, list: seq<Json>)
    ensures list in RequesterLists(node) <==> exists chain :: LeadsToList(node, chain, list)
  {
    if list in RequesterLists(node) {
      var chain := ListIsReached(node, list);
    }
    if chain :| LeadsToList(node, chain, list) {
      ReachedIsListed(node, chain, list);
    }
  }

  // -------------------------------------------------------------------------------------------
  // Rewriting the values of all requester conditions

  /** What becomes of one value: dropped, kept or replaced. */
  type Rule = Json -> Option<Json>

  /** Containers are kept as they are, and no other value becomes a container. */
  ghost predicate OnScalars(rule: Rule) {
    forall v {:trigger rule(v)} ::
      if IsContainer(v) then rule(v) == Some(v) else rule(v).Some? ==> !IsContainer(rule(v).value)
  }

  function ApplyRule(values: seq<Json>, rule: Rule): seq<Json> {
    if values == [] then []
    else (match rule(values[0]) case None => [] case Some(w) => [w]) + ApplyRule(values[1..], rule)
  }

  function Rewrite(node: Json, rule: Rule): Json
    decreases node, 1
  {
    match node
    case Arr(items) => Arr(RewriteItems(items, rule))
    case Obj(members) => Obj(RewriteMembers(members, rule, IsRequester(members)))
    case _ => node
  }

  function RewriteItems(items: seq<Json>, rule: Rule): seq<Json>
    decreases items, 0
  {
    if items == [] then [] else [Rewrite(items[0], rule)] + RewriteItems(items[1..], rule)
  }

  /** `pending` says that the first `value` entry still has to be filtered. */
  function RewriteMembers(members: seq<Member>, rule: Rule, pending: bool): seq<Member>
    decreases members, 0
  {
    if members == [] then []
    else
      var here := pending && members[0].key == "value";
      var value := if here then RewriteValue(members[0].value, rule) else Rewrite(members[0].value, rule);
      [Member(members[0].key, value)] + RewriteMembers(members[1..], rule, pending && !here)
  }

  /** The `value` of a requester condition: a list once anything in it changed. */
  function RewriteValue(raw: Json, rule: Rule): Json
    decreases raw, 2
  {
    match raw
    case Arr(items) => Arr(RewriteKept(items, rule))
    case Obj(_) => Rewrite(raw, rule)
    case _ => if rule(raw) == Some(raw) then raw else Arr(ApplyRule([raw], rule))
  }

  /** The kept values of a requester list, with the containers among them rewritten in turn. */
  function RewriteKept(values: seq<Json>, rule: Rule): seq<Json>
    decreases values, 0
  {
    if values == [] then []
    else
      (match rule(values[0])
       case None => []
       case Some(w) => [if IsContainer(values[0]) then Rewrite(values[0], rule) else w])
      + RewriteKept(values[1..], rule)
  }

  // -------------------------------------------------------------------------------------------
  // What rewriting does to the requester lists

  function ApplyToLists(lists: seq<seq<Json>>, rule: Rule): seq<seq<Json>> {
    if lists == [] then [] else [ApplyRule(lists[0], rule)] + ApplyToLists(lists[1..], rule)
  }

  lemma {:induction false} ApplyToBoth(first: seq<seq<Json>>, second: seq<seq<Json>>, rule: Rule)
    ensures ApplyToLists(first + second, rule) == ApplyToLists(first, rule) + ApplyToLists(second, rule)
  {
    if first == [] {
      assert first + second == second;
    } else {
      ApplyToBoth(first[1..], second, rule);
      assert (first + second)[1..] == first[1..] + second;
    }
  }

  lemma {:induction false} FacesOfKept(values: seq<Json>, rule: Rule)
    requires OnScalars(rule)
    ensures Faces(RewriteKept(values, rule)) == ApplyRule(Faces(values), rule)
  {
    if values != [] {
      var v := values[0];
      FacesOfKept(values[1..], rule);
      assert rule(Face(v)) == if IsContainer(v) then Some(Face(v)) else rule(v);
      assert Faces(values)[1..] == Faces(values[1..]);
      if rule(v).Some? {
        var w := if IsContainer(v) then Rewrite(v, rule) else rule(v).value;
        assert ([w] + RewriteKept(values[1..], rule))[1..] == RewriteKept(values[1..], rule);
        assert Face(w) == rule(Face(v)).value;
      } else {
        assert RewriteKept(values, rule) == RewriteKept(values[1..], rule);
      }
    }
  }

  lemma FacesOfValue(raw: Json, rule: Rule)
    requires OnScalars(rule)
    ensures Faces(ValuesOf(RewriteValue(raw, rule))) == ApplyRule(Faces(ValuesOf(raw)), rule)
  {
    match raw
    case Arr(items) => FacesOfKept(items, rule);
    case Obj(_) =>
      assert rule(Face(raw)) == Some(Face(raw));
    case _ =>
      ApplyToScalar(raw, rule);
      assert Faces([raw]) == [raw];
  }

  lemma {:induction false} FindAfterRewrite(members: seq<Member>, rule: Rule, pending: bool, key: string)
    ensures key != "value" || !pending ==>
              Find(RewriteMembers(members, rule, pending), key)
              == match Find(members, key) case None => None case Some(v) => Some(Rewrite(v, rule))
    ensures key == "value" && pending ==>
              Find(RewriteMembers(members, rule, pending), key)
              == match Find(members, key) case None => None case Some(v) => Some(RewriteValue(v, rule))
  {
    if members != [] {
      var here := pending && members[0].key == "value";
      FindAfterRewrite(members[1..], rule, pending && !here, key);
      assert RewriteMembers(members, rule, pending)[1..] == RewriteMembers(members[1..], rule, pending && !here);
    }
  }

  /** Rewriting applies the rule to every requester list, in place, and to nothing else. */
  lemma {:induction false} RewriteAppliesRule(node: Json, rule: Rule)
    requires OnScalars(rule)
    ensures RequesterLists(Rewrite(node, rule)) == ApplyToLists(RequesterLists(node), rule)
    decreases node, 1
  {
    match node
    case Arr(items) => ItemsApplyRule(items, rule);
    case Obj(members) =>
      MembersApplyRule(members, rule, IsRequester(members));
      if IsRequester(members) {
        RequesterApplyRule(members, rule);
      } else {
        NoRequesterApplyRule(members, rule);
      }
    case _ =>
  }

  /** A requester condition: its own list comes first, and both parts get the rule. */
  lemma RequesterApplyRule(members: seq<Member>, rule: Rule)
    requires OnScalars(rule) && IsRequester(members)
    requires ListsOfMembers(RewriteMembers(members, rule, true)) == ApplyToLists(ListsOfMembers(members), rule)
    ensures RequesterLists(Rewrite(Obj(members), rule)) == ApplyToLists(RequesterLists(Obj(members)), rule)
  {
    var raw := Find(members, "value").value;
    var own := Faces(ValuesOf(raw));
    FieldStays(members, rule);
    FindAfterRewrite(members, rule, true, "value");
    FacesOfValue(raw, rule);
    ApplyToBoth([own], ListsOfMembers(members), rule);
    ApplyToOne(own, rule);
  }

  lemma NoRequesterApplyRule(members: seq<Member>, rule: Rule)
    requires OnScalars(rule) && !IsRequester(members)
    requires ListsOfMembers(RewriteMembers(members, rule, false)) == ApplyToLists(ListsOfMembers(members), rule)
    ensures RequesterLists(Rewrite(Obj(members), rule)) == ApplyToLists(RequesterLists(Obj(members)), rule)
  {
    FieldStays(members, rule);
    ConcatEmpty(ListsOfMembers(members));
    ConcatEmpty(ListsOfMembers(RewriteMembers(members, rule, false)));
  }

  lemma ApplyToOne(list: seq<Json>, rule: Rule)
    ensures ApplyToLists([list], rule) == [ApplyRule(list, rule)]
  {
    assert [list][1..] == [];
  }

  /** Rewriting neither makes nor unmakes a requester condition. */
  lemma FieldStays(members: seq<Member>, rule: Rule)
    ensures IsRequester(RewriteMembers(members, rule, IsRequester(members))) == IsRequester(members)
  {
    FindAfterRewrite(members, rule, IsRequester(members), "field");
    FindAfterRewrite(members, rule, IsRequester(members), "value");
  }

  lemma {:induction false} ItemsApplyRule(items: seq<Json>, rule: Rule)
    requires OnScalars(rule)
    ensures ListsOfItems(RewriteItems(items, rule)) == ApplyToLists(ListsOfItems(items), rule)
    decreases items, 0
  {
    if items != [] {
      RewriteAppliesRule(items[0], rule);
      ItemsApplyRule(items[1..], rule);
      ApplyToBoth(RequesterLists(items[0]), ListsOfItems(items[1..]), rule);
      assert RewriteItems(items, rule)[1..] == RewriteItems(items[1..], rule);
    }
  }

  lemma {:induction false} MembersApplyRule(members: seq<Member>, rule: Rule, pending: bool)
    requires OnScalars(rule)
    ensures ListsOfMembers(RewriteMembers(members, rule, pending)) == ApplyToLists(ListsOfMembers(members), rule)
    decreases members, 0
  {
    if members != [] {
      var here := pending && members[0].key == "value";
      if here { ValueApplyRule(members[0].value, rule); } else { RewriteAppliesRule(members[0].value, rule); }
      MembersApplyRule(members[1..], rule, pending && !here);
      ApplyToBoth(RequesterLists(members[0].value), ListsOfMembers(members[1..]), rule);
      assert RewriteMembers(members, rule, pending)[1..] == RewriteMembers(members[1..], rule, pending && !here);
    }
  }

  lemma {:induction false} ValueApplyRule(raw: Json, rule: Rule)
    requires OnScalars(rule)
    ensures RequesterLists(RewriteValue(raw, rule)) == ApplyToLists(RequesterLists(raw), rule)
    decreases raw, 2
  {
    match raw
    case Arr(items) => KeptApplyRule(items, rule);
    case Obj(_) => RewriteAppliesRule(raw, rule);
    case _ =>
      ApplyToScalar(raw, rule);
  }

  lemma ApplyToScalar(raw: Json, rule: Rule)
    requires OnScalars(rule) && !IsContainer(raw)
    ensures rule(raw).None? ==> ApplyRule([raw], rule) == []
    ensures rule(raw).Some? ==> ApplyRule([raw], rule) == [rule(raw).value]
    ensures ListsOfItems(ApplyRule([raw], rule)) == []
    ensures Faces(ApplyRule([raw], rule)) == ApplyRule([raw], rule)
  {
    assert [raw][1..] == [];
    if rule(raw).Some? {
      var w := rule(raw).value;
      ConcatEmpty([w]);
      assert [w][1..] == [];
      assert !IsContainer(w);
    }
  }

  lemma {:induction false} KeptApplyRule(values: seq<Json>, rule: Rule)
    requires OnScalars(rule)
    ensures ListsOfItems(RewriteKept(values, rule)) == ApplyToLists(ListsOfItems(values), rule)
    decreases values, 0
  {
    if values != [] {
      var v := values[0];
      KeptApplyRule(values[1..], rule);
      ApplyToBoth(RequesterLists(v), ListsOfItems(values[1..]), rule);
      if IsContainer(v) { RewriteAppliesRule(v, rule); }
      if rule(v).Some? {
        var w := if IsContainer(v) then Rewrite(v, rule) else rule(v).value;
        assert RewriteKept(values, rule) == [w] + RewriteKept(values[1..], rule);
        assert ([w] + RewriteKept(values[1..], rule))[1..] == RewriteKept(values[1..], rule);
      } else {
        assert RewriteKept(values, rule) == RewriteKept(values[1..], rule);
      }
    }
  }

  // -------------------------------------------------------------------------------------------
  // Trees that a rule leaves as they are

  /** The rule keeps every value of some lists. */
  ghost predicate KeepsAll(lists: seq<seq<Json>>, rule: Rule) {
    forall l, v {:trigger l in lists, v in l} :: l in lists && v in l ==> rule(v) == Some(v)
  }

  lemma {:induction false} KeptUnchanged(values: seq<Json>, rule: Rule)
    requires OnScalars(rule)
    requires forall v :: v in Faces(values) ==> rule(v) == Some(v)
    requires KeepsAll(ListsOfItems(values), rule)
    ensures RewriteKept(values, rule) == values
    decreases values, 0
  {
    if values != [] {
      var v := values[0];
      assert Face(v) in Faces(values);
      assert forall l :: l in RequesterLists(v) || l in ListsOfItems(values[1..]) ==> l in ListsOfItems(values);
      if IsContainer(v) { TreeUnchanged(v, rule); assert rule(v) == Some(v); }
      KeptUnchanged(values[1..], rule);
    }
  }

  /** A tree none of whose requester values the rule changes is left exactly as it is. */
  lemma {:induction false} TreeUnchanged(node: Json, rule: Rule)
    requires OnScalars(rule) && KeepsAll(RequesterLists(node), rule)
    ensures Rewrite(node, rule) == node
    decreases node, 1
  {
    match node
    case Arr(items) => ItemsUnchanged(items, rule);
    case Obj(members) =>
      if IsRequester(members) {
        assert Faces(ValuesOf(Find(members, "value").value)) in RequesterLists(node);
      }
      assert forall l :: l in ListsOfMembers(members) ==> l in RequesterLists(node);
      MembersUnchanged(members, rule, IsRequester(members));
    case _ =>
  }

  lemma {:induction false} ItemsUnchanged(items: seq<Json>, rule: Rule)
    requires OnScalars(rule) && KeepsAll(ListsOfItems(items), rule)
    ensures RewriteItems(items, rule) == items
    decreases items, 0
  {
    if items != [] {
      assert forall l :: l in RequesterLists(items[0]) || l in ListsOfItems(items[1..]) ==> l in ListsOfItems(items);
      TreeUnchanged(items[0], rule);
      ItemsUnchanged(items[1..], rule);
    }
  }

  lemma {:induction false} MembersUnchanged(members: seq<Member>, rule: Rule, pending: bool)
    requires OnScalars(rule) && KeepsAll(ListsOfMembers(members), rule)
    requires pending && Find(members, "value").Some? ==>
               forall v :: v in Faces(ValuesOf(Find(members, "value").value)) ==> rule(v) == Some(v)
    ensures RewriteMembers(members, rule, pending) == members
    decreases members, 0
  {
    if members != [] {
      var value := members[0].value;
      assert forall l :: l in RequesterLists(value) || l in ListsOfMembers(members[1..]) ==> l in ListsOfMembers(members);
      if pending && members[0].key == "value" {
        ValueUnchanged(value, rule);
        MembersUnchanged(members[1..], rule, false);
      } else {
        TreeUnchanged(value, rule);
        MembersUnchanged(members[1..], rule, pending);
      }
    }
  }

  lemma {:induction false} ValueUnchanged(raw: Json, rule: Rule)
    requires OnScalars(rule) && KeepsAll(RequesterLists(raw), rule)
    requires forall v :: v in Faces(ValuesOf(raw)) ==> rule(v) == Some(v)
    ensures RewriteValue(raw, rule) == raw
    decreases raw, 2
  {
    match raw
    case Arr(items) => KeptUnchanged(items, rule);
    case Obj(_) => TreeUnchanged(raw, rule);
    case _ => assert Faces([raw])[0] == raw && raw in Faces([raw]);
  }

  lemma {:induction false} ApplyRuleLength(values: seq<Json>, rule: Rule)
    ensures |ApplyRule(values, rule)| <= |values|
  {
    if values != [] {
      ApplyRuleLength(values[1..], rule);
    }
  }

  /** The first value is handled before those after it. */
  lemma ApplyRuleFrom(values: seq<Json>, i: nat, rule: Rule, done: seq<Json>)
    requires i < |values|
    ensures done + ApplyRule(values[i..], rule)
            == (done + match rule(values[i]) case None => [] case Some(w) => [w]) + ApplyRule(values[i + 1..], rule)
  {
    assert values[i..][0] == values[i] && values[i..][1..] == values[i + 1..];
    var head := match rule(values[i]) case None => [] case Some(w) => [w];
    ConcatAssociates(done, head, ApplyRule(values[i + 1..], rule));
  }

  /** A list stays as it is exactly when each of its values does. */
  lemma {:induction false} ApplyRuleKeeps(values: seq<Json>, rule: Rule)
    ensures ApplyRule(values, rule) == values <==> forall v :: v in values ==> rule(v) == Some(v)
  {
    if values != [] {
      var first, rest := values[0], values[1..];
      ApplyRuleKeeps(rest, rule);
      ApplyRuleLength(rest, rule);
      assert values == [first] + rest;
      if rule(first).Some? {
        var kept := ApplyRule(rest, rule);
        assert ApplyRule(values, rule) == [rule(first).value] + kept;
        assert ([rule(first).value] + kept)[1..] == kept && ([rule(first).value] + kept)[0] == rule(first).value;
      }
    }
  }

  lemma {:induction false} ApplyRuleEmpties(values: seq<Json>, rule: Rule)
    ensures ApplyRule(values, rule) == [] <==> forall v :: v in values ==> rule(v) == None
  {
    if values != [] {
      ApplyRuleEmpties(values[1..], rule);
      assert values == [values[0]] + values[1..];
    }
  }

  /** A rule that changes no value leaves a list as it is exactly when it drops nothing. */
  lemma {:induction false} DropsNothing(values: seq<Json>, rule: Rule)
    requires forall v :: rule(v).Some? ==> rule(v).value == v
    ensures |ApplyRule(values, rule)| == |values| <==> ApplyRule(values, rule) == values
  {
    if values != [] {
      DropsNothing(values[1..], rule);
      ApplyRuleLength(values[1..], rule);
      assert values == [values[0]] + values[1..];
    }
  }

  /** Containers keep their places, and with them the requester conditions inside them. */
  lemma {:induction false} ApplyRuleKeepsLists(values: seq<Json>, rule: Rule)
    requires OnScalars(rule)
    ensures ListsOfItems(ApplyRule(values, rule)) == ListsOfItems(values)
    ensures forall x :: x in ApplyRule(values, rule) ==> x in values || !IsContainer(x)
  {
    if values != [] {
      var first, rest := values[0], ApplyRule(values[1..], rule);
      ApplyRuleKeepsLists(values[1..], rule);
      if rule(first).Some? {
        var w := rule(first).value;
        assert ApplyRule(values, rule) == [w] + rest && ([w] + rest)[1..] == rest;
        assert RequesterLists(w) == RequesterLists(first);
      } else {
        ConcatEmpty(rest);
        ConcatEmpty(ListsOfItems(values[1..]));
      }
    }
  }

  // -------------------------------------------------------------------------------------------
  // Some value of some list

  ghost predicate AnyIn(values: seq<Json>, p: Json -> bool) {
    exists v :: v in values && p(v)
  }

  /** Some value in the lists satisfies a condition. */
  ghost predicate AnyValue(lists: seq<seq<Json>>, p: Json -> bool) {
    exists l :: l in lists && AnyIn(l, p)
  }

  lemma SomeOfBoth(first: seq<seq<Json>>, second: seq<seq<Json>>, p: Json -> bool)
    ensures AnyValue(first + second, p) == (AnyValue(first, p) || AnyValue(second, p))
  {
    assert forall l :: l in first + second <==> l in first || l in second;
  }

  lemma SomeOfOne(list: seq<Json>, p: Json -> bool)
    ensures AnyValue([list], p) == AnyIn(list, p)
  {
    assert list in [list];
  }

  lemma AnyOfFirst(first: Json, rest: seq<Json>, p: Json -> bool)
    ensures AnyIn([first] + rest, p) == (p(first) || AnyIn(rest, p))
  {
    assert forall v :: v in [first] + rest <==> v == first || v in rest;
  }

  lemma SameCondition(lists: seq<seq<Json>>, p: Json -> bool, q: Json -> bool)
    requires forall v :: p(v) == q(v)
    ensures AnyValue(lists, p) == AnyValue(lists, q)
  {
    assert forall l :: AnyIn(l, p) == AnyIn(l, q);
  }

  lemma NothingSatisfies(lists: seq<seq<Json>>, p: Json -> bool)
    requires forall v :: !p(v)
    ensures !AnyValue(lists, p)
  {
    assert forall l :: !AnyIn(l, p);
  }

  lemma KeepsUnless(lists: seq<seq<Json>>, rule: Rule, p: Json -> bool)
    requires forall v :: (rule(v) == Some(v)) == !p(v)
    ensures KeepsAll(lists, rule) == !AnyValue(lists, p)
  {
    if KeepsAll(lists, rule) {
      forall l | l in lists ensures !AnyIn(l, p) {
        forall v | v in l ensures !p(v) {
          assert rule(v) == Some(v);
        }
      }
    } else {
      var l, v :| l in lists && v in l && rule(v) != Some(v);
      assert p(v) && AnyIn(l, p);
    }
  }

  /** What the rule makes of a value satisfies a condition. */
  function Through(rule: Rule, p: Json -> bool): Json -> bool {
    v => rule(v).Some? && p(rule(v).value)
  }

  lemma {:induction false} AppliedAny(values: seq<Json>, rule: Rule, p: Json -> bool)
    ensures AnyIn(ApplyRule(values, rule), p) == AnyIn(values, Through(rule, p))
  {
    if values != [] {
      var first, rest := values[0], values[1..];
      AppliedAny(rest, rule, p);
      assert values == [first] + rest;
      AnyOfFirst(first, rest, Through(rule, p));
      if rule(first).Some? {
        AnyOfFirst(rule(first).value, ApplyRule(rest, rule), p);
      } else {
        ConcatEmpty(ApplyRule(rest, rule));
      }
    }
  }

  /** A value after the rule comes from a value before it, and only dropped values have no successor. */
  lemma {:induction false} AppliedValues(lists: seq<seq<Json>>, rule: Rule, p: Json -> bool)
    ensures AnyValue(ApplyToLists(lists, rule), p) == AnyValue(lists, Through(rule, p))
  {
    if lists != [] {
      var first, rest := lists[0], lists[1..];
      AppliedValues(rest, rule, p);
      AppliedAny(first, rule, p);
      assert lists == [first] + rest;
      SomeOfBoth([first], rest, Through(rule, p));
      SomeOfOne(first, Through(rule, p));
      SomeOfBoth([ApplyRule(first, rule)], ApplyToLists(rest, rule), p);
      SomeOfOne(ApplyRule(first, rule), p);
    }
  }

  // -------------------------------------------------------------------------------------------
  // What a rewrite changes

  lemma {:induction false} AppliedLists(lists: seq<seq<Json>>, rule: Rule)
    ensures |ApplyToLists(lists, rule)| == |lists|
    ensures forall i :: 0 <= i < |lists| ==> ApplyToLists(lists, rule)[i] == ApplyRule(lists[i], rule)
  {
    if lists != [] { AppliedLists(lists[1..], rule); }
  }

  /** Exactly the trees whose every requester value the rule keeps are left as they are. */
  lemma RewriteChangesExactly(node: Json, rule: Rule)
    requires OnScalars(rule)
    ensures Rewrite(node, rule) == node <==> KeepsAll(RequesterLists(node), rule)
  {
    var lists := RequesterLists(node);
    if KeepsAll(lists, rule) {
      TreeUnchanged(node, rule);
    } else if Rewrite(node, rule) == node {
      RewriteAppliesRule(node, rule);
      AppliedLists(lists, rule);
      forall l, v | l in lists && v in l ensures rule(v) == Some(v) {
        ApplyRuleKeeps(l, rule);
      }
      assert false;
    }
  }

  // -------------------------------------------------------------------------------------------
  // Everything outside requester values

  /** A tree with the values of its requester conditions blanked out. */
  function Mask(node: Json): Json
    decreases node, 1
  {
    match node
    case Arr(items) => Arr(MaskItems(items))
    case Obj(members) => Obj(MaskMembers(members, IsRequester(members)))
    case _ => node
  }

  function MaskItems(items: seq<Json>): seq<Json>
    decreases items, 0
  {
    if items == [] then [] else [Mask(items[0])] + MaskItems(items[1..])
  }

  function MaskMembers(members: seq<Member>, pending: bool): seq<Member>
    decreases members, 0
  {
    if members == [] then []
    else
      var here := pending && members[0].key == "value";
      [Member(members[0].key, if here then Null else Mask(members[0].value))]
      + MaskMembers(members[1..], pending && !here)
  }

  /** Rewriting touches nothing but the values of requester conditions. */
  lemma {:induction false} RewriteKeepsTheRest(node: Json, rule: Rule)
    ensures Mask(Rewrite(node, rule)) == Mask(node)
    decreases node, 1
  {
    match node
    case Arr(items) => ItemsKeepTheRest(items, rule);
    case Obj(members) =>
      FieldStays(members, rule);
      MembersKeepTheRest(members, rule, IsRequester(members));
    case _ =>
  }

  lemma {:induction false} ItemsKeepTheRest(items: seq<Json>, rule: Rule)
    ensures MaskItems(RewriteItems(items, rule)) == MaskItems(items)
    decreases items, 0
  {
    if items != [] {
      RewriteKeepsTheRest(items[0], rule);
      ItemsKeepTheRest(items[1..], rule);
      assert RewriteItems(items, rule)[1..] == RewriteItems(items[1..], rule);
    }
  }

  lemma {:induction false} MembersKeepTheRest(members: seq<Member>, rule: Rule, pending: bool)
    ensures MaskMembers(RewriteMembers(members, rule, pending), pending) == MaskMembers(members, pending)
    decreases members, 0
  {
    if members != [] {
      var here := pending && members[0].key == "value";
      if !here { RewriteKeepsTheRest(members[0].value, rule); }
      MembersKeepTheRest(members[1..], rule, pending && !here);
      assert RewriteMembers(members, rule, pending)[1..] == RewriteMembers(members[1..], rule, pending && !here);
    }
  }

  // -------------------------------------------------------------------------------------------
  // The same, place by place

  function PartAt(node: Json, path: seq<nat>): Option<Json> {
    if path == [] then Some(node)
    else
      match node
      case Arr(items) => if path[0] < |items| then PartAt(items[path[0]], path[1..]) else None
      case Obj(members) => if path[0] < |members| then PartAt(members[path[0]].value, path[1..]) else None
      case _ => None
  }

  /** Entry `k` is the one whose value a requester condition reads. */
  predicate IsReadAt(members: seq<Member>, k: nat)
    requires k < |members|
  {
    && Find(members, "field") == Some(Str("seerr.requested_by_user_ids"))
    && members[k].key == "value" && forall i :: 0 <= i < k ==> members[i].key != "value"
  }

  /** The path leads to a place that lies in the value of no requester condition. */
  predicate IsOutside(node: Json, path: seq<nat>) {
    path == [] ||
    match node
    case Arr(items) => path[0] < |items| && IsOutside(items[path[0]], path[1..])
    case Obj(members) =>
      path[0] < |members| && !IsReadAt(members, path[0]) && IsOutside(members[path[0]].value, path[1..])
    case _ => false
  }

  /** Equal but for what containers hold: equal scalars, lists of one length, objects with the same keys in order. */
  predicate IsShapedLike(a: Json, b: Json) {
    match a
    case Arr(items) => b.Arr? && |b.items| == |items|
    case Obj(members) =>
      b.Obj? && |b.members| == |members| && forall k :: 0 <= k < |members| ==> b.members[k].key == members[k].key
    case _ => a == b
  }

  lemma {:induction false} RewrittenItems(items: seq<Json>, rule: Rule)
    ensures |RewriteItems(items, rule)| == |items|
    ensures forall k :: 0 <= k < |items| ==> RewriteItems(items, rule)[k] == Rewrite(items[k], rule)
  {
    if items != [] {
      RewrittenItems(items[1..], rule);
    }
  }

  lemma {:induction false} RewrittenMembers(members: seq<Member>, rule: Rule, pending: bool)
    ensures |RewriteMembers(members, rule, pending)| == |members|
    ensures forall k :: 0 <= k < |members| ==> RewriteMembers(members, rule, pending)[k].key == members[k].key
    ensures forall k :: 0 <= k < |members|
                        && !(pending && members[k].key == "value" && forall i :: 0 <= i < k ==> members[i].key != "value")
                        ==> RewriteMembers(members, rule, pending)[k].value == Rewrite(members[k].value, rule)
  {
    if members != [] {
      var here := pending && members[0].key == "value";
      RewrittenMembers(members[1..], rule, pending && !here);
      forall k | 0 < k < |members|
                 && !(pending && members[k].key == "value" && forall i :: 0 <= i < k ==> members[i].key != "value")
        ensures RewriteMembers(members, rule, pending)[k].value == Rewrite(members[k].value, rule)
      {
        assert members[k] == members[1..][k - 1];
        assert !(pending && !here && members[k].key == "value"
                 && forall i :: 0 <= i < k - 1 ==> members[1..][i].key != "value");
      }
    }
  }

  lemma {:induction false} MaskedItems(items: seq<Json>)
    ensures |MaskItems(items)| == |items|
    ensures forall k :: 0 <= k < |items| ==> MaskItems(items)[k] == Mask(items[k])
  {
    if items != [] {
      MaskedItems(items[1..]);
    }
  }

  lemma {:induction false} MaskedMembers(members: seq<Member>, pending: bool)
    ensures |MaskMembers(members, pending)| == |members|
    ensures forall k :: 0 <= k < |members| ==> MaskMembers(members, pending)[k].key == members[k].key
    ensures forall k :: 0 <= k < |members|
                        && !(pending && members[k].key == "value" && forall i :: 0 <= i < k ==> members[i].key != "value")
                        ==> MaskMembers(members, pending)[k].value == Mask(members[k].value)
  {
    if members != [] {
      var here := pending && members[0].key == "value";
      MaskedMembers(members[1..], pending && !here);
      forall k | 0 < k < |members|
                 && !(pending && members[k].key == "value" && forall i :: 0 <= i < k ==> members[i].key != "value")
        ensures MaskMembers(members, pending)[k].value == Mask(members[k].value)
      {
        assert members[k] == members[1..][k - 1];
        assert !(pending && !here && members[k].key == "value"
                 && forall i :: 0 <= i < k - 1 ==> members[1..][i].key != "value");
      }
    }
  }

  /** A mask shows every place outside requester values. */
  lemma {:induction false} MaskShowsPlaces(node: Json, path: seq<nat>)
    requires IsOutside(node, path)
    ensures PartAt(node, path).Some? && PartAt(Mask(node), path).Some?
    ensures IsShapedLike(PartAt(node, path).value, PartAt(Mask(node), path).value)
    decreases |path|
  {
    match node
    case Arr(items) =>
      MaskedItems(items);
      if path != [] { MaskShowsPlaces(items[path[0]], path[1..]); }
    case Obj(members) =>
      MaskedMembers(members, IsRequester(members));
      if path != [] { MaskShowsPlaces(members[path[0]].value, path[1..]); }
    case _ =>
  }

  /** Every place outside requester values is there after a rewrite, and what stands there looks the same. */
  lemma {:induction false} RewriteKeepsPlaces(node: Json, rule: Rule, path: seq<nat>)
    requires IsOutside(node, path)
    ensures PartAt(node, path).Some? && PartAt(Rewrite(node, rule), path).Some?
    ensures IsShapedLike(PartAt(node, path).value, PartAt(Rewrite(node, rule), path).value)
    decreases |path|
  {
    match node
    case Arr(items) =>
      RewrittenItems(items, rule);
      if path != [] { RewriteKeepsPlaces(items[path[0]], rule, path[1..]); }
    case Obj(members) =>
      RewrittenMembers(members, rule, IsRequester(members));
      if path != [] { RewriteKeepsPlaces(members[path[0]].value, rule, path[1..]); }
    case _ =>
  }
}
