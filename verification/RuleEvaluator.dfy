/**
 The boolean evaluator that decides a scan: it updates the matched fields and the reasons in place
 while it walks the tree, and its caller throws both away when the rule does not match.
 */
module RuleEvaluator {
  import opened Basics
  import opened RuleOperators
  import opened RuleTree

  /** One reason of a match: the condition that held, its field and the value it held for. */
  datatype Reason = Reason(condition: Node, field: Field, actual: Value)

  function ReasonFor(lib: Library, ctx: Context, condition: Node): Reason {
    if condition.Condition? then
      Reason(condition, condition.field, CheckCondition(lib, ctx, condition).actual)
    else Reason(condition, OtherField(""), Null)
  }

  function ReasonsFor(lib: Library, ctx: Context, conditions: seq<Node>): seq<Reason> {
    if conditions == [] then []
    else
      ReasonsFor(lib, ctx, conditions[..|conditions| - 1]) + [ReasonFor(lib, ctx, conditions[|conditions| - 1])]
  }

  lemma {:induction false} ReasonsForBoth(lib: Library, ctx: Context, first: seq<Node>, second: seq<Node>)
    ensures ReasonsFor(lib, ctx, first + second) == ReasonsFor(lib, ctx, first) + ReasonsFor(lib, ctx, second)
  {
    if second == [] {
      assert first + second == first;
    } else {
      var front, last := second[..|second| - 1], second[|second| - 1];
      ReasonsForBoth(lib, ctx, first, front);
      assert second == front + [last];
      ReasonsForOneMore(lib, ctx, first + front, last);
      ReasonsForOneMore(lib, ctx, front, last);
      ConcatAssociates(first, front, [last]);
      ConcatAssociates(ReasonsFor(lib, ctx, first), ReasonsFor(lib, ctx, front), [ReasonFor(lib, ctx, last)]);
    }
  }

  lemma ReasonsForOneMore(lib: Library, ctx: Context, front: seq<Node>, last: Node)
    ensures ReasonsFor(lib, ctx, front + [last]) == ReasonsFor(lib, ctx, front) + [ReasonFor(lib, ctx, last)]
  {
    assert (front + [last])[..|front|] == front && (front + [last])[|front|] == last;
  }

  lemma {:induction false} ReasonsForMembers(lib: Library, ctx: Context, conditions: seq<Node>)
    ensures forall r :: r in ReasonsFor(lib, ctx, conditions) ==>
              r.condition in conditions && r == ReasonFor(lib, ctx, r.condition)
    ensures forall c :: c in conditions ==> ReasonFor(lib, ctx, c) in ReasonsFor(lib, ctx, conditions)
  {
    if conditions != [] {
      var front := conditions[..|conditions| - 1];
      ReasonsForMembers(lib, ctx, front);
      assert conditions == front + [conditions[|conditions| - 1]];
    }
  }

  /** The fields some reasons match, added one by one; the last reason for a field wins. */
  function MatchedBy(reasons: seq<Reason>): map<Field, Value> {
    if reasons == [] then map[]
    else
      var last := reasons[|reasons| - 1];
      MatchedBy(reasons[..|reasons| - 1])[last.field := last.actual]
  }

  lemma {:induction false} MatchedByBoth(first: seq<Reason>, second: seq<Reason>)
    ensures MatchedBy(first + second) == MatchedBy(first) + MatchedBy(second)
  {
    if second == [] {
      assert first + second == first;
    } else {
      MatchedByBoth(first, second[..|second| - 1]);
      assert (first + second)[..|first + second| - 1] == first + second[..|second| - 1];
    }
  }

  /** The matched fields are the fields of the reasons. */
  lemma {:induction false} MatchedFields(reasons: seq<Reason>)
    ensures forall field :: field in MatchedBy(reasons) <==> exists r :: r in reasons && r.field == field
  {
    if reasons != [] {
      var rest := reasons[..|reasons| - 1];
      MatchedFields(rest);
      assert reasons == rest + [reasons[|reasons| - 1]];
    }
  }

  /** Each has the value that the last reason for it gives. */
  lemma {:induction false} LastReasonWins(reasons: seq<Reason>, i: nat)
    requires i < |reasons| && forall j :: i < j < |reasons| ==> reasons[j].field != reasons[i].field
    ensures reasons[i].field in MatchedBy(reasons) && MatchedBy(reasons)[reasons[i].field] == reasons[i].actual
  {
    if i < |reasons| - 1 {
      LastReasonWins(reasons[..|reasons| - 1], i);
    }
  }

  /** The `matched` and `reasons` arguments that evaluation updates in place. */
  class Accumulator {
    var matched: map<Field, Value>
    var reasons: seq<Reason>
    /** The conditions recorded so far. */
    ghost var trace: seq<Node>

    ghost predicate Valid(lib: Library, ctx: Context)
      reads this
    {
      reasons == ReasonsFor(lib, ctx, trace) && matched == MatchedBy(reasons)
    }

    constructor ()
      ensures trace == [] && matched == map[] && reasons == []
    {
      matched, reasons, trace := map[], [], [];
    }

    /** Adds one condition that holds. */
    method Record(lib: Library, ctx: Context, condition: Node, actual: Value)
      requires Valid(lib, ctx) && condition.Condition?
      requires actual == CheckCondition(lib, ctx, condition).actual
      modifies this
      ensures Valid(lib, ctx) && trace == old(trace) + [condition]
    {
      matched := matched[condition.field := actual];
      reasons := reasons + [Reason(condition, condition.field, actual)];
      trace := trace + [condition];
      assert reasons[..|reasons| - 1] == old(reasons);
    }

    /** Adds what another branch recorded. */
    method Merge(lib: Library, ctx: Context, branchMatched: map<Field, Value>, branchReasons: seq<Reason>,
                 ghost branchTrace: seq<Node>)
      requires Valid(lib, ctx)
      requires branchReasons == ReasonsFor(lib, ctx, branchTrace) && branchMatched == MatchedBy(branchReasons)
      modifies this
      ensures Valid(lib, ctx) && trace == old(trace) + branchTrace
    {
      MatchedByBoth(reasons, branchReasons);
      ReasonsForBoth(lib, ctx, trace, branchTrace);
      matched := matched + branchMatched;
      reasons := reasons + branchReasons;
      trace := trace + branchTrace;
    }
  }

  /** `leaf` gives the verdict of every condition in this context. */
  ghost predicate GivesVerdicts(lib: Library, ctx: Context, leaf: Node -> Verdict) {
    forall node: Node {:trigger CheckCondition(lib, ctx, node)} ::
      node.Condition? ==> leaf(node) == CheckCondition(lib, ctx, node).verdict
  }

  /**
   Evaluates a node. It passes exactly when the three-valued evaluator says so, and the
   accumulator records exactly the trace of the node.
   */
  method EvaluateNode(lib: Library, ctx: Context, node: Node, acc: Accumulator,
                        ghost leaf: Node -> Verdict) returns (passed: bool)
    requires GivesVerdicts(lib, ctx, leaf) && acc.Valid(lib, ctx)
    modifies acc
    ensures acc.Valid(lib, ctx)
    ensures passed <==> Evaluate(node, leaf) == Pass
    ensures acc.trace == old(acc.trace) + Trace(node, leaf)
    decreases node, 1
  {
    if IsDisabled(node) {
      return true;
    }
    if node.Condition? {
      passed := EvaluateCondition(lib, ctx, node, acc, leaf);
      return;
    }
    if !WellShapedGroup(node) {
      return false;
    }
    if node.op.Or? {
      passed := EvaluateOr(lib, ctx, node.children.nodes, acc, leaf);
      OrVerdict(node.children.nodes, leaf);
    } else {
      passed := EvaluateAnd(lib, ctx, node.children.nodes, acc, leaf);
      AndVerdict(node.children.nodes, leaf);
    }
  }

  /**
   One condition: records its field and its reason when it holds, and nothing otherwise. There is no
   test for unavailable data here; that such data never matches is left to the operators.
   */
  method EvaluateCondition(lib: Library, ctx: Context, node: Node, acc: Accumulator,
                        ghost leaf: Node -> Verdict) returns (passed: bool)
    requires node.Condition? && !node.disabled
    requires GivesVerdicts(lib, ctx, leaf) && acc.Valid(lib, ctx)
    modifies acc
    ensures acc.Valid(lib, ctx)
    ensures passed <==> Evaluate(node, leaf) == Pass
    ensures acc.trace == old(acc.trace) + Trace(node, leaf)
  {
    var kind := KindOf(node.field);
    var actual := Lookup(ctx, node.field);
    assert leaf(node) == CheckCondition(lib, ctx, node).verdict;
    if kind.UserScopedField? {
      var checked := CheckUserScoped(lib, actual, node.expected, node.operator, kind);
      if checked.verdict != Pass {
        return false;
      }
      actual := checked.actual;
    } else if !MatchesOperator(lib, actual, node.operator, node.expected, kind) {
      return false;
    }
    acc.Record(lib, ctx, node, actual);
    return true;
  }

  /** Whether all of some nodes pass, and what an AND over them records. */
  ghost function AndOutcome(nodes: seq<Node>, leaf: Node -> Verdict): (bool, seq<Node>) {
    (AllPass(nodes, leaf), TraceAnd(nodes, leaf))
  }

  function Recording(done: seq<Node>, outcome: (bool, seq<Node>)): (bool, seq<Node>) {
    (outcome.0, done + outcome.1)
  }

  /** One more child of an AND: it goes on after a child that passes, and ends with any other. */
  lemma AndFrom(nodes: seq<Node>, i: nat, leaf: Node -> Verdict)
    requires i < |nodes|
    ensures AndOutcome(nodes[i..], leaf)
            == if Evaluate(nodes[i], leaf) == Pass then Recording(Trace(nodes[i], leaf), AndOutcome(nodes[i + 1..], leaf))
               else (false, Trace(nodes[i], leaf))
  {
    assert nodes[i..][0] == nodes[i] && nodes[i..][1..] == nodes[i + 1..];
    PassesFrom(nodes, i, leaf);
    ConcatEmpty(Trace(nodes[i], leaf));
  }

  lemma RecordingAssociates(a: seq<Node>, b: seq<Node>, outcome: (bool, seq<Node>))
    ensures Recording(a + b, outcome) == Recording(a, Recording(b, outcome))
  {
    ConcatAssociates(a, b, outcome.1);
  }

  lemma NothingToRecord(done: seq<Node>, leaf: Node -> Verdict)
    ensures Recording(done, AndOutcome([], leaf)) == (true, done)
  {
    ConcatEmpty(done);
  }

  lemma DisabledRecordsNothing(node: Node, leaf: Node -> Verdict)
    requires IsDisabled(node)
    ensures Evaluate(node, leaf) == Pass && Trace(node, leaf) == []
  {
  }

  /** An AND group over its children: stops at the first active child that does not pass. */
  method EvaluateAnd(lib: Library, ctx: Context, nodes: seq<Node>, acc: Accumulator,
                     ghost leaf: Node -> Verdict) returns (passed: bool)
    requires GivesVerdicts(lib, ctx, leaf) && acc.Valid(lib, ctx)
    modifies acc
    ensures acc.Valid(lib, ctx)
    ensures passed == AllPass(nodes, leaf)
    ensures acc.trace == old(acc.trace) + TraceAnd(nodes, leaf)
    decreases nodes, 0
  {
    ghost var goal := Recording(acc.trace, AndOutcome(nodes, leaf));
    for i := 0 to |nodes|
      invariant acc.Valid(lib, ctx)
      invariant Recording(acc.trace, AndOutcome(nodes[i..], leaf)) == goal
    {
      var node := nodes[i];
      AndFrom(nodes, i, leaf);
      RecordingAssociates(acc.trace, Trace(node, leaf), AndOutcome(nodes[i + 1..], leaf));
      if IsDisabled(node) {
        DisabledRecordsNothing(node, leaf);
        ConcatEmpty(acc.trace);
      } else {
        var childPassed := EvaluateNode(lib, ctx, node, acc, leaf);
        if !childPassed {
          return false;
        }
      }
    }
    NothingToRecord(acc.trace, leaf);
    return true;
  }

  /** Whether some nodes are all disabled, whether one passes, and what an OR over them records. */
  ghost function OrOutcome(nodes: seq<Node>, leaf: Node -> Verdict): (bool, bool, seq<Node>) {
    (AllDisabled(nodes), SomePasses(nodes, leaf), TraceOr(nodes, leaf))
  }

  function After(active: bool, found: bool, done: seq<Node>, outcome: (bool, bool, seq<Node>))
    : (bool, bool, seq<Node>)
  {
    (!active && outcome.0, found || outcome.1, done + outcome.2)
  }

  /** One more child of an OR: only a passing one leaves a record. */
  lemma OrFrom(nodes: seq<Node>, i: nat, leaf: Node -> Verdict, active: bool, found: bool, done: seq<Node>)
    requires i < |nodes|
    ensures var rest := OrOutcome(nodes[i + 1..], leaf);
            After(active, found, done, OrOutcome(nodes[i..], leaf))
            == if IsDisabled(nodes[i]) then After(active, found, done, rest)
               else if Evaluate(nodes[i], leaf) == Pass then After(true, true, done + Trace(nodes[i], leaf), rest)
               else After(true, found, done, rest)
  {
    assert nodes[i..][0] == nodes[i] && nodes[i..][1..] == nodes[i + 1..];
    var rest := TraceOr(nodes[i + 1..], leaf);
    PassesFrom(nodes, i, leaf);
    ConcatAssociates(done, Trace(nodes[i], leaf), rest);
    ConcatEmpty(rest);
    if IsDisabled(nodes[i]) {
      DisabledRecordsNothing(nodes[i], leaf);
    }
  }

  lemma NoMoreBranches(active: bool, found: bool, done: seq<Node>, leaf: Node -> Verdict)
    ensures After(active, found, done, OrOutcome([], leaf)) == (!active, found, done)
  {
    ConcatEmpty(done);
  }

  lemma NothingBefore(outcome: (bool, bool, seq<Node>))
    ensures After(false, false, [], outcome) == outcome
  {
    ConcatEmpty(outcome.2);
  }

  /** The children of an OR, each active one evaluated apart; the passing ones are kept in order. */
  method EvaluateBranches(lib: Library, ctx: Context, nodes: seq<Node>, ghost leaf: Node -> Verdict)
    returns (active: bool, branches: seq<(map<Field, Value>, seq<Reason>)>, ghost traces: seq<seq<Node>>)
    requires GivesVerdicts(lib, ctx, leaf)
    ensures BranchesRecord(lib, ctx, branches, traces)
    ensures active == !AllDisabled(nodes)
    ensures (branches != []) == SomePasses(nodes, leaf)
    ensures Flatten(traces) == TraceOr(nodes, leaf)
    decreases nodes, 0
  {
    active, branches, traces := false, [], [];
    ghost var goal := OrOutcome(nodes, leaf);
    NothingBefore(goal);
    for i := 0 to |nodes|
      invariant BranchesRecord(lib, ctx, branches, traces)
      invariant After(active, branches != [], Flatten(traces), OrOutcome(nodes[i..], leaf)) == goal
    {
      var node := nodes[i];
      OrFrom(nodes, i, leaf, active, branches != [], Flatten(traces));
      if !IsDisabled(node) {
        active := true;
        var childPassed, childMatched, childReasons := EvaluateBranch(lib, ctx, node, leaf);
        if childPassed {
          FlattenAppend(traces, Trace(node, leaf));
          OneMoreBranch(lib, ctx, branches, traces, (childMatched, childReasons), Trace(node, leaf));
          branches := branches + [(childMatched, childReasons)];
          traces := traces + [Trace(node, leaf)];
        }
      }
    }
    NoMoreBranches(active, branches != [], Flatten(traces), leaf);
  }

  lemma OneMoreBranch(lib: Library, ctx: Context, branches: seq<(map<Field, Value>, seq<Reason>)>,
                      traces: seq<seq<Node>>, branch: (map<Field, Value>, seq<Reason>), trace: seq<Node>)
    requires BranchesRecord(lib, ctx, branches, traces)
    requires branch.1 == ReasonsFor(lib, ctx, trace) && branch.0 == MatchedBy(branch.1)
    ensures BranchesRecord(lib, ctx, branches + [branch], traces + [trace])
  {
  }

  /** An OR group over its children: evaluates every active child apart and merges the passing ones. */
  method EvaluateOr(lib: Library, ctx: Context, nodes: seq<Node>, acc: Accumulator,
                    ghost leaf: Node -> Verdict) returns (passed: bool)
    requires GivesVerdicts(lib, ctx, leaf) && acc.Valid(lib, ctx)
    modifies acc
    ensures acc.Valid(lib, ctx)
    ensures passed == (SomePasses(nodes, leaf) || AllDisabled(nodes))
    ensures acc.trace == old(acc.trace) + TraceOr(nodes, leaf)
    decreases nodes, 1
  {
    var active, branches, traces := EvaluateBranches(lib, ctx, nodes, leaf);
    if branches == [] {
      ConcatEmpty(acc.trace);
      assert Flatten(traces) == [];
      return !active;
    }
    MergeBranches(lib, ctx, branches, traces, acc);
    return true;
  }

  /** Evaluates one child of an OR into a fresh accumulator. */
  method EvaluateBranch(lib: Library, ctx: Context, node: Node, ghost leaf: Node -> Verdict)
    returns (passed: bool, matched: map<Field, Value>, reasons: seq<Reason>)
    requires GivesVerdicts(lib, ctx, leaf)
    ensures passed <==> Evaluate(node, leaf) == Pass
    ensures reasons == ReasonsFor(lib, ctx, Trace(node, leaf)) && matched == MatchedBy(reasons)
    decreases node, 2
  {
    var branch := new Accumulator();
    passed := EvaluateNode(lib, ctx, node, branch, leaf);
    ConcatEmpty(Trace(node, leaf));
    matched, reasons := branch.matched, branch.reasons;
  }

  /** Each branch holds what evaluating it recorded. */
  ghost predicate BranchesRecord(lib: Library, ctx: Context, branches: seq<(map<Field, Value>, seq<Reason>)>,
                                 traces: seq<seq<Node>>)
  {
    && |branches| == |traces|
    && forall k :: 0 <= k < |branches| ==>
         branches[k].1 == ReasonsFor(lib, ctx, traces[k]) && branches[k].0 == MatchedBy(branches[k].1)
  }

  method MergeBranches(lib: Library, ctx: Context, branches: seq<(map<Field, Value>, seq<Reason>)>,
                       ghost traces: seq<seq<Node>>, acc: Accumulator)
    requires acc.Valid(lib, ctx)
    requires BranchesRecord(lib, ctx, branches, traces)
    modifies acc
    ensures acc.Valid(lib, ctx)
    ensures acc.trace == old(acc.trace) + Flatten(traces)
  {
    ghost var start := acc.trace;
    ConcatEmpty(start);
    var k := 0;
    while k < |branches|
      invariant 0 <= k <= |branches|
      invariant acc.Valid(lib, ctx)
      invariant acc.trace == start + Flatten(traces[..k])
    {
      acc.Merge(lib, ctx, branches[k].0, branches[k].1, traces[k]);
      FlattenAppend(traces[..k], traces[k]);
      ConcatAssociates(start, Flatten(traces[..k]), traces[k]);
      assert traces[..k + 1] == traces[..k] + [traces[k]];
      k := k + 1;
    }
    assert traces[..k] == traces;
  }

  ghost function Flatten(traces: seq<seq<Node>>): seq<Node> {
    if traces == [] then [] else traces[0] + Flatten(traces[1..])
  }

  lemma {:induction false} FlattenAppend(traces: seq<seq<Node>>, last: seq<Node>)
    ensures Flatten(traces + [last]) == Flatten(traces) + last
  {
    if traces != [] {
      FlattenAppend(traces[1..], last);
      assert (traces + [last])[1..] == traces[1..] + [last];
    }
  }

  ghost predicate AllPass(nodes: seq<Node>, leaf: Node -> Verdict) {
    forall child :: child in nodes ==> Evaluate(child, leaf) == Pass
  }

  ghost predicate SomePasses(nodes: seq<Node>, leaf: Node -> Verdict) {
    exists child :: child in nodes && !IsDisabled(child) && Evaluate(child, leaf) == Pass
  }

  ghost predicate AllDisabled(nodes: seq<Node>) {
    forall child :: child in nodes ==> IsDisabled(child)
  }

  /** The first node decides together with those after it. */
  lemma PassesFrom(nodes: seq<Node>, i: nat, leaf: Node -> Verdict)
    requires i < |nodes|
    ensures AllPass(nodes[i..], leaf) == (Evaluate(nodes[i], leaf) == Pass && AllPass(nodes[i + 1..], leaf))
    ensures SomePasses(nodes[i..], leaf)
            == ((!IsDisabled(nodes[i]) && Evaluate(nodes[i], leaf) == Pass) || SomePasses(nodes[i + 1..], leaf))
    ensures AllDisabled(nodes[i..]) == (IsDisabled(nodes[i]) && AllDisabled(nodes[i + 1..]))
  {
    assert nodes[i..] == [nodes[i]] + nodes[i + 1..];
    assert forall child :: child in nodes[i..] <==> child == nodes[i] || child in nodes[i + 1..];
  }

  lemma {:induction false} ActiveVerdictsOf(nodes: seq<Node>, leaf: Node -> Verdict)
    ensures forall v :: v in ActiveVerdicts(nodes, leaf) <==>
              exists child :: child in nodes && !IsDisabled(child) && Evaluate(child, leaf) == v
    ensures ActiveVerdicts(nodes, leaf) == [] <==> AllDisabled(nodes)
  {
    if nodes != [] {
      ActiveVerdictsOf(nodes[1..], leaf);
      assert forall child :: child in nodes <==> child == nodes[0] || child in nodes[1..];
    }
  }

  lemma AndVerdict(nodes: seq<Node>, leaf: Node -> Verdict)
    ensures (Combine(And, ActiveVerdicts(nodes, leaf)) == Pass) == AllPass(nodes, leaf)
  {
    ActiveVerdictsOf(nodes, leaf);
    forall child | child in nodes && Combine(And, ActiveVerdicts(nodes, leaf)) == Pass
      ensures Evaluate(child, leaf) == Pass
    {
      if !IsDisabled(child) { assert Evaluate(child, leaf) in ActiveVerdicts(nodes, leaf); }
    }
  }

  lemma OrVerdict(nodes: seq<Node>, leaf: Node -> Verdict)
    ensures (Combine(Or, ActiveVerdicts(nodes, leaf)) == Pass) == (SomePasses(nodes, leaf) || AllDisabled(nodes))
  {
    ActiveVerdictsOf(nodes, leaf);
  }

  // -------------------------------------------------------------------------------------------
  // The rule as a whole

  /** Whether an enabled condition can be reached without passing a disabled node. */
  predicate HasEnabledCondition(node: Node)
    decreases node
  {
    match node
    case NotAnObject => false
    case Condition(disabled, _, _, _) => !disabled
    case OtherType(disabled, below) => !disabled && SomeHasEnabledCondition(below)
    case MissingType(disabled, below) => !disabled && SomeHasEnabledCondition(below)
    case Group(disabled, _, children) => !disabled && children.Nodes? && SomeHasEnabledCondition(children.nodes)
  }

  predicate SomeHasEnabledCondition(nodes: seq<Node>)
    decreases nodes
  {
    exists child :: child in nodes && HasEnabledCondition(child)
  }

  /** The nodes directly below a node that the search for a condition looks through. */
  function ChildrenOf(node: Node): seq<Node> {
    match node
    case Group(_, _, Nodes(nodes)) => nodes
    case OtherType(_, below) => below
    case MissingType(_, below) => below
    case _ => []
  }

  /** A chain of nodes, each a child of the one before and none of them disabled, that ends in a condition. */
  ghost predicate LeadsToCondition(root: Node, chain: seq<Node>) {
    && chain != [] && chain[0] == root && chain[|chain| - 1].Condition?
    && (forall i :: 0 <= i < |chain| ==> !chain[i].NotAnObject? && !chain[i].disabled)
    && (forall i :: 0 < i < |chain| ==> chain[i] in ChildrenOf(chain[i - 1]))
  }

  ghost predicate ReachesCondition(root: Node) {
    exists chain :: LeadsToCondition(root, chain)
  }

  lemma {:induction false} EnabledConditionIsReached(node: Node) returns (chain: seq<Node>)
    requires HasEnabledCondition(node)
    ensures LeadsToCondition(node, chain)
    decreases node
  {
    if node.Condition? {
      chain := [node];
    } else {
      var below := if node.Group? then node.children.nodes else node.below;
      var child :| child in below && HasEnabledCondition(child);
      var rest := EnabledConditionIsReached(child);
      chain := [node] + rest;
    }
  }

  lemma {:induction false} ReachedConditionIsFound(node: Node, chain: seq<Node>)
    requires LeadsToCondition(node, chain)
    ensures HasEnabledCondition(node)
    decreases |chain|
  {
    if |chain| > 1 {
      assert chain[1] in ChildrenOf(chain[0]);
      assert LeadsToCondition(chain[1], chain[1..]);
      ReachedConditionIsFound(chain[1], chain[1..]);
    }
  }

  /** The search answers exactly whether a condition can be reached through enabled nodes, ends included. */
  lemma EnabledConditionExactly(root: Node)
    ensures HasEnabledCondition(root) == ReachesCondition(root)
  {
    if HasEnabledCondition(root) {
      var chain := EnabledConditionIsReached(root);
    }
    if chain :| LeadsToCondition(root, chain) {
      ReachedConditionIsFound(root, chain);
    }
  }

  /** A condition that supports a node is reached from it through enabled nodes. */
  lemma {:induction false} SupportIsReached(node: Node, leaf: Node -> Verdict, condition: Node)
    requires Supports(node, leaf, condition)
    ensures HasEnabledCondition(node)
    decreases node
  {
    if !node.Condition? {
      var child :| child in node.children.nodes && Supports(child, leaf, condition);
      SupportIsReached(child, leaf, condition);
    }
  }

  /** The reasons of a passing rule are exactly its supporting conditions, each with the value it held for. */
  ghost predicate ReasonsAreSupport(lib: Library, ctx: Context, root: Node, reasons: seq<Reason>) {
    && (forall r :: r in reasons ==> r == ReasonFor(lib, ctx, r.condition) && Supports(root, Leaves(lib, ctx), r.condition))
    && (forall c :: Supports(root, Leaves(lib, ctx), c) ==> ReasonFor(lib, ctx, c) in reasons)
  }

  /** Evaluates a rule: a rule that does not match reports no fields and no reasons. */
  method EvaluateRule(lib: Library, ctx: Context, root: Node)
    returns (outcome: bool, matched: map<Field, Value>, reasons: seq<Reason>)
    ensures outcome <==> ReachesCondition(root) && EvaluateState(lib, ctx, root) == Pass
    ensures (exists c :: Supports(root, Leaves(lib, ctx), c)) ==> outcome
    ensures !outcome ==> reasons == []
    ensures outcome ==> ReasonsAreSupport(lib, ctx, root, reasons)
    ensures matched == MatchedBy(reasons)
  {
    EnabledConditionExactly(root);
    if c :| Supports(root, Leaves(lib, ctx), c) {
      SupportIsReached(root, Leaves(lib, ctx), c);
    }
    if !HasEnabledCondition(root) {
      return false, map[], [];
    }
    var acc := new Accumulator();
    outcome := EvaluateNode(lib, ctx, root, acc, Leaves(lib, ctx));
    if !outcome {
      return false, map[], [];
    }
    assert acc.trace == Trace(root, Leaves(lib, ctx));
    TraceReasons(lib, ctx, root);
    return true, acc.matched, acc.reasons;
  }

  lemma TraceReasons(lib: Library, ctx: Context, root: Node)
    requires EvaluateState(lib, ctx, root) == Pass
    ensures ReasonsAreSupport(lib, ctx, root, ReasonsFor(lib, ctx, Trace(root, Leaves(lib, ctx))))
  {
    var leaf := Leaves(lib, ctx);
    ReasonsForMembers(lib, ctx, Trace(root, leaf));
    forall c ensures c in Trace(root, leaf) <==> Supports(root, leaf, c) {
      TraceIsSupport(root, leaf, c);
    }
  }

  /** One user's own total satisfies the operator. */
  predicate UserMatches(lib: Library, totals: map<string, real>, amount: Value,
                        operator: Operator, kind: FieldKind, name: string) {
    match UserTotal(lib, totals, name)
    case Number(total) => MatchesOperator(lib, Number(total), operator, amount, kind)
    case _ => false
  }

  lemma UserPassesIs(lib: Library, totals: map<string, real>, amount: Value,
                     operator: Operator, kind: FieldKind, name: string)
    ensures UserPasses(lib, totals, amount, operator, kind)(name)
            == UserMatches(lib, totals, amount, operator, kind, name)
  {
  }

  lemma FirstPassingUser(lib: Library, totals: map<string, real>, amount: Value,
                         operator: Operator, kind: FieldKind, names: seq<string>)
    ensures match FirstPassing(names, UserPasses(lib, totals, amount, operator, kind))
            case Some(name) => name in names && UserMatches(lib, totals, amount, operator, kind, name)
            case None => forall name :: name in names ==> !UserMatches(lib, totals, amount, operator, kind, name)
  {
    forall name
      ensures UserPasses(lib, totals, amount, operator, kind)(name)
              == UserMatches(lib, totals, amount, operator, kind, name)
    {
      UserPassesIs(lib, totals, amount, operator, kind, name);
    }
  }

  /**
   A user-scoped condition is unknown exactly without activity data or without a selected user, and
   otherwise passes exactly when one selected user's own total satisfies the operator.
   */
  lemma PassingUser(lib: Library, actual: Value, expected: Value, operator: Operator, kind: FieldKind)
    ensures var checked := CheckUserScoped(lib, actual, expected, operator, kind);
            if !actual.PerUser? || !expected.UserAmount? || !expected.usernames.List?
               || forall item :: item in expected.usernames.items ==> lib.account(item) == ""
            then checked.verdict == Unknown
            else
              var names := set item | item in expected.usernames.items && lib.account(item) != "" :: lib.account(item);
              if checked.verdict == Pass then
                exists name :: name in names && checked.actual == UserTotal(lib, actual.totals, name)
                               && UserMatches(lib, actual.totals, expected.amount, operator, kind, name)
              else
                && checked.verdict == Fail
                && forall name :: name in names ==>
                     !UserMatches(lib, actual.totals, expected.amount, operator, kind, name)
  {
    if actual.PerUser? && expected.UserAmount? && expected.usernames.List? {
      AccountNamesAre(lib, expected.usernames.items);
      FirstPassingUser(lib, actual.totals, expected.amount, operator, kind, AccountNames(lib, expected.usernames.items));
    }
  }

  lemma {:induction false} AccountNamesAre(lib: Library, items: seq<Value>)
    ensures forall name :: name in AccountNames(lib, items)
                           <==> exists item :: item in items && lib.account(item) == name && name != ""
    ensures AccountNames(lib, items) == [] <==> forall item :: item in items ==> lib.account(item) == ""
  {
    if items != [] {
      AccountNamesAre(lib, items[1..]);
      assert forall item :: item in items <==> item == items[0] || item in items[1..];
    }
  }

  /**
   The reasons of a match are sufficient: whatever every other condition evaluates to, the rule
   still passes as long as the recorded conditions hold.
   */
  lemma ReasonsSuffice(lib: Library, ctx: Context, root: Node, reasons: seq<Reason>, leaf: Node -> Verdict)
    requires EvaluateState(lib, ctx, root) == Pass
    requires ReasonsAreSupport(lib, ctx, root, reasons)
    requires forall r :: r in reasons ==> leaf(r.condition) == Pass
    ensures Evaluate(root, leaf) == Pass
  {
    forall c | c in Trace(root, Leaves(lib, ctx)) ensures leaf(c) == Pass {
      TraceIsSupport(root, Leaves(lib, ctx), c);
      assert ReasonFor(lib, ctx, c).condition == c;
    }
    TraceSuffices(root, Leaves(lib, ctx), leaf);
  }

  /** Every reason names an enabled condition that holds. */
  lemma {:induction false} SupportHolds(node: Node, leaf: Node -> Verdict, condition: Node)
    requires Supports(node, leaf, condition)
    ensures condition.Condition? && !condition.disabled && leaf(condition) == Pass
    decreases node
  {
    if !node.Condition? {
      var child :| child in node.children.nodes && Supports(child, leaf, condition);
      SupportHolds(child, leaf, condition);
    }
  }

  /** A match without reasons is a match in every context: no condition decided it. */
  lemma ReasonlessMatchIsUnconditional(lib: Library, ctx: Context, root: Node, leaf: Node -> Verdict)
    requires EvaluateState(lib, ctx, root) == Pass
    requires ReasonsAreSupport(lib, ctx, root, [])
    ensures Evaluate(root, leaf) == Pass
  {
    ReasonsSuffice(lib, ctx, root, [], leaf);
  }

  /** A node that passes on its shape alone: disabled, or a group that its empty parts make pass. */
  predicate IsVacuous(node: Node)
    decreases node
  {
    IsDisabled(node)
    || (WellShapedGroup(node)
        && if node.op.And? then forall child :: child in node.children.nodes ==> IsVacuous(child)
           else
             || (forall child :: child in node.children.nodes ==> IsDisabled(child))
             || (exists child :: child in node.children.nodes && !IsDisabled(child) && IsVacuous(child)))
  }

  /** Exactly the vacuous nodes pass while every condition fails. */
  lemma {:induction false} VacuousPassesAnyway(node: Node, leaf: Node -> Verdict)
    requires forall n :: leaf(n) == Fail
    ensures IsVacuous(node) == (Evaluate(node, leaf) == Pass)
    decreases node
  {
    if WellShapedGroup(node) && !IsDisabled(node) {
      var nodes := node.children.nodes;
      forall child | child in nodes
        ensures IsVacuous(child) == (Evaluate(child, leaf) == Pass)
      {
        VacuousPassesAnyway(child, leaf);
      }
      AndVerdict(nodes, leaf);
      OrVerdict(nodes, leaf);
    }
  }

  /** The rule matches in this context and no condition is a reason for it. */
  ghost predicate MatchesWithoutReasons(lib: Library, ctx: Context, root: Node) {
    ReachesCondition(root) && EvaluateState(lib, ctx, root) == Pass && ReasonsAreSupport(lib, ctx, root, [])
  }

  /** The fields of the conditions in a tree. */
  function FieldsOf(node: Node): set<Field>
    decreases node, 1
  {
    if node.Condition? then {node.field}
    else if node.Group? && node.children.Nodes? then FieldsOfAll(node.children.nodes)
    else {}
  }

  function FieldsOfAll(nodes: seq<Node>): set<Field>
    decreases nodes, 0
  {
    if nodes == [] then {} else FieldsOf(nodes[0]) + FieldsOfAll(nodes[1..])
  }

  lemma {:induction false} FieldsOfChild(nodes: seq<Node>, child: Node)
    requires child in nodes
    ensures FieldsOf(child) <= FieldsOfAll(nodes)
  {
    if child != nodes[0] {
      FieldsOfChild(nodes[1..], child);
    }
  }

  lemma {:induction false} SupportHasField(node: Node, leaf: Node -> Verdict, condition: Node)
    requires Supports(node, leaf, condition)
    ensures condition.Condition? && condition.field in FieldsOf(node)
    decreases node
  {
    if !node.Condition? {
      var child :| child in node.children.nodes && Supports(child, leaf, condition);
      SupportHasField(child, leaf, condition);
      FieldsOfChild(node.children.nodes, child);
    }
  }

  /** Nothing that the tree asks about could be fetched. */
  function NothingAvailable(root: Node): Context {
    map field | field in FieldsOf(root) :: Unavailable
  }

  /** Where nothing is available no condition is a reason. */
  lemma NothingSupports(lib: Library, root: Node)
    ensures ReasonsAreSupport(lib, NothingAvailable(root), root, [])
  {
    var ctx := NothingAvailable(root);
    var leaf := Leaves(lib, ctx);
    forall c
      ensures !Supports(root, leaf, c)
    {
      if Supports(root, leaf, c) {
        SupportHolds(root, leaf, c);
        SupportHasField(root, leaf, c);
      }
    }
  }

  /** A vacuous node passes whatever its conditions evaluate to. */
  lemma VacuousPassesAlways(node: Node, leaf: Node -> Verdict)
    requires IsVacuous(node)
    ensures Evaluate(node, leaf) == Pass
  {
    var failing: Node -> Verdict := (n: Node) => Fail;
    VacuousPassesAnyway(node, failing);
    TraceIsSound(node, failing);
    TraceSuffices(node, failing, leaf);
  }

  /**
   Whether a rule matches without any reason in some context can be told from its shape: it must be
   vacuous and yet have an enabled condition.
   */
  lemma ReasonlessMatchesExactlyWhen(lib: Library, root: Node)
    ensures (exists ctx: Context :: MatchesWithoutReasons(lib, ctx, root))
            <==> ReachesCondition(root) && IsVacuous(root)
  {
    if ctx: Context :| MatchesWithoutReasons(lib, ctx, root) {
      var failing: Node -> Verdict := (n: Node) => Fail;
      ReasonlessMatchIsUnconditional(lib, ctx, root, failing);
      VacuousPassesAnyway(root, failing);
    }
    if ReachesCondition(root) && IsVacuous(root) {
      VacuousPassesAlways(root, Leaves(lib, NothingAvailable(root)));
      NothingSupports(lib, root);
      assert MatchesWithoutReasons(lib, NothingAvailable(root), root);
    }
  }

  /** Such matches exist: an enabled group whose children are all disabled passes, even below an OR. */
  lemma EmptiedGroupMatchesWithoutReasons(lib: Library, ctx: Context, condition: Node, off: Node, emptied: Node, root: Node)
    requires condition.Condition? && !condition.disabled
    requires off == Condition(true, condition.field, condition.operator, condition.expected)
    requires EvaluateState(lib, ctx, condition) != Pass
    requires emptied == Group(false, And, Nodes([off])) && root == Group(false, Or, Nodes([emptied, condition]))
    ensures EvaluateState(lib, ctx, root) == Pass
    ensures Trace(root, Leaves(lib, ctx)) == []
    ensures ReachesCondition(root)
  {
    var leaf := Leaves(lib, ctx);
    assert LeadsToCondition(root, [root, condition]);
    OrVerdict([emptied, condition], leaf);
    AndVerdict([off], leaf);
    assert emptied in [emptied, condition] && condition in [emptied, condition];
    assert [off][1..] == [] && TraceAnd([off], leaf) == [];
    assert [emptied, condition][1..] == [condition] && [condition][1..] == [];
    assert TraceOr([condition], leaf) == [];
    assert TraceOr([emptied, condition], leaf) == [];
  }
}
