/** What the verdicts of a rule and the states of its explanation are, told group by group from the children. */
module VerdictMeaning {
  import opened Basics
  import opened RuleOperators
  import opened RuleTree
  import opened RuleEvaluator
  import opened RuleExplainer

  // -------------------------------------------------------------------------------------------
  // Verdicts

  /** Some child that is not disabled has this verdict. */
  ghost predicate SomeIs(nodes: seq<Node>, leaf: Node -> Verdict, verdict: Verdict) {
    exists child :: child in nodes && !IsDisabled(child) && Evaluate(child, leaf) == verdict
  }

  ghost predicate EachIs(nodes: seq<Node>, leaf: Node -> Verdict, verdict: Verdict) {
    forall child :: child in nodes && !IsDisabled(child) ==> Evaluate(child, leaf) == verdict
  }

  /** Exactly the nodes whose own `enabled` entry says so are disabled. */
  lemma DisabledIs(node: Node)
    ensures IsDisabled(node) == match node
                                case NotAnObject => false
                                case Group(disabled, _, _) => disabled
                                case Condition(disabled, _, _, _) => disabled
                                case OtherType(disabled, _) => disabled
                                case MissingType(disabled, _) => disabled
  {
  }

  lemma GroupCombines(op: GroupOp, nodes: seq<Node>, leaf: Node -> Verdict)
    requires op.And? || op.Or?
    requires nodes != [] && NotAnObject !in nodes
    ensures Evaluate(Group(false, op, Nodes(nodes)), leaf) == Combine(op, ActiveVerdicts(nodes, leaf))
  {
  }

  lemma VerdictsAre(nodes: seq<Node>, leaf: Node -> Verdict, verdict: Verdict)
    ensures (verdict in ActiveVerdicts(nodes, leaf)) == SomeIs(nodes, leaf, verdict)
    ensures (ActiveVerdicts(nodes, leaf) == []) == AllDisabled(nodes)
  {
    ActiveVerdictsOf(nodes, leaf);
  }

  /** A list of verdicts holds one that is neither of two others only if it holds the third. */
  lemma SomeVerdict(nodes: seq<Node>, leaf: Node -> Verdict)
    ensures EachIs(nodes, leaf, Pass) == (!SomeIs(nodes, leaf, Fail) && !SomeIs(nodes, leaf, Unknown))
    ensures EachIs(nodes, leaf, Fail) == (!SomeIs(nodes, leaf, Pass) && !SomeIs(nodes, leaf, Unknown))
    ensures AllDisabled(nodes)
            == (!SomeIs(nodes, leaf, Pass) && !SomeIs(nodes, leaf, Fail) && !SomeIs(nodes, leaf, Unknown))
  {
  }

  /**
   An AND fails exactly when an active child fails, passes exactly when each active child passes,
   and is unknown in between: no active child fails and one is unknown.
   */
  lemma AndGroupVerdict(nodes: seq<Node>, leaf: Node -> Verdict)
    requires nodes != [] && NotAnObject !in nodes
    ensures var verdict := Evaluate(Group(false, And, Nodes(nodes)), leaf);
            && (verdict == Fail) == SomeIs(nodes, leaf, Fail)
            && (verdict == Pass) == EachIs(nodes, leaf, Pass)
            && (verdict == Unknown) == (!SomeIs(nodes, leaf, Fail) && SomeIs(nodes, leaf, Unknown))
  {
    GroupCombines(And, nodes, leaf);
    VerdictsAre(nodes, leaf, Fail);
    VerdictsAre(nodes, leaf, Unknown);
    SomeVerdict(nodes, leaf);
  }

  /**
   An OR passes exactly when an active child passes or there is none, fails exactly when there are
   active children and each of them fails, and is unknown in between.
   */
  lemma OrGroupVerdict(nodes: seq<Node>, leaf: Node -> Verdict)
    requires nodes != [] && NotAnObject !in nodes
    ensures var verdict := Evaluate(Group(false, Or, Nodes(nodes)), leaf);
            && (verdict == Pass) == (SomeIs(nodes, leaf, Pass) || AllDisabled(nodes))
            && (verdict == Fail) == (!AllDisabled(nodes) && EachIs(nodes, leaf, Fail))
            && (verdict == Unknown) == (!SomeIs(nodes, leaf, Pass) && SomeIs(nodes, leaf, Unknown))
  {
    GroupCombines(Or, nodes, leaf);
    VerdictsAre(nodes, leaf, Pass);
    VerdictsAre(nodes, leaf, Fail);
    VerdictsAre(nodes, leaf, Unknown);
    SomeVerdict(nodes, leaf);
  }

  /** A group that neither evaluator accepts. */
  predicate IsMalformed(op: GroupOp, children: ChildList) {
    || op.MissingOp? || op.UnsupportedOp?
    || children.Absent? || children.NotAList?
    || (children.Nodes? && (children.nodes == [] || NotAnObject in children.nodes))
  }

  /** Disabled nodes pass, and enabled ones that are no condition and no well-shaped group fail. */
  lemma OddNodeVerdicts(node: Node, leaf: Node -> Verdict)
    ensures IsDisabled(node) ==> Evaluate(node, leaf) == Pass
    ensures !IsDisabled(node) && (node.NotAnObject? || node.OtherType? || node.MissingType?)
            ==> Evaluate(node, leaf) == Fail
    ensures !IsDisabled(node) && node.Group? && IsMalformed(node.op, node.children) ==> Evaluate(node, leaf) == Fail
    ensures !IsDisabled(node) && node.Condition? ==> Evaluate(node, leaf) == leaf(node)
  {
  }

  /**
   A condition on one value: unknown exactly where the value could not be fetched, and otherwise
   decided by its operator. A field the context does not have reads as null.
   */
  lemma ConditionVerdict(lib: Library, ctx: Context, field: Field, operator: Operator, expected: Value)
    requires field !in {UserWatchedDurationMinutes, UserWatchedPercent}
    ensures var actual := if field in ctx then ctx[field] else Null;
            var condition := Condition(false, field, operator, expected);
            && CheckCondition(lib, ctx, condition).actual == actual
            && EvaluateState(lib, ctx, condition)
               == if actual == Unavailable then Unknown
                  else if MatchesOperator(lib, actual, operator, expected, KindOf(field)) then Pass
                  else Fail
  {
  }

  /** A condition on one value per user is checked user by user, on what the context has for its field. */
  lemma UserConditionVerdict(lib: Library, ctx: Context, field: Field, operator: Operator, expected: Value)
    requires field in {UserWatchedDurationMinutes, UserWatchedPercent}
    ensures var actual := if field in ctx then ctx[field] else Null;
            var condition := Condition(false, field, operator, expected);
            var checked := CheckUserScoped(lib, actual, expected, operator, UserScopedField);
            CheckCondition(lib, ctx, condition) == checked && EvaluateState(lib, ctx, condition) == checked.verdict
  {
  }

  // -------------------------------------------------------------------------------------------
  // The states of an explanation

  ghost predicate SomeShows(reports: seq<Report>, verdict: Verdict) {
    exists report :: report in reports && report.state == Some(verdict)
  }

  ghost predicate EachShows(reports: seq<Report>, verdict: Verdict) {
    forall report :: report in reports && report.state.Some? ==> report.state == Some(verdict)
  }

  ghost predicate NoneShows(reports: seq<Report>) {
    forall report :: report in reports ==> report.state.None?
  }

  lemma {:induction false} ShownStatesAre(reports: seq<Report>, verdict: Verdict)
    ensures (verdict in ShownStates(reports)) == SomeShows(reports, verdict)
    ensures (ShownStates(reports) == []) == NoneShows(reports)
  {
    if reports != [] {
      ShownStatesAre(reports[1..], verdict);
      assert forall report :: report in reports <==> report == reports[0] || report in reports[1..];
    }
  }

  lemma SomeState(reports: seq<Report>)
    ensures EachShows(reports, Pass) == (!SomeShows(reports, Fail) && !SomeShows(reports, Unknown))
    ensures EachShows(reports, Fail) == (!SomeShows(reports, Pass) && !SomeShows(reports, Unknown))
    ensures NoneShows(reports)
            == (!SomeShows(reports, Pass) && !SomeShows(reports, Fail) && !SomeShows(reports, Unknown))
  {
    forall report | report in reports && report.state.Some?
      ensures report.state == Some(Pass) || report.state == Some(Fail) || report.state == Some(Unknown)
    {
      match report.state.value {
        case Pass =>
        case Fail =>
        case Unknown =>
      }
    }
  }

  /** The state an explained group shows, from those of its children; a missing operator reads as AND. */
  ghost predicate IsGroupState(op: GroupOp, reports: seq<Report>, state: Verdict) {
    if op.And? || op.MissingOp? then
      match state
      case Fail => SomeShows(reports, Fail)
      case Pass => EachShows(reports, Pass)
      case Unknown => !SomeShows(reports, Fail) && SomeShows(reports, Unknown)
    else
      match state
      case Pass => SomeShows(reports, Pass) || NoneShows(reports)
      case Fail => !NoneShows(reports) && EachShows(reports, Fail)
      case Unknown => !SomeShows(reports, Pass) && SomeShows(reports, Unknown)
  }

  /** The reports of the children of a group, one for each child in order. */
  ghost predicate AreReportsOf(children: ChildList, leaf: Node -> Verdict, above: bool, reports: seq<Report>) {
    match children
    case Nodes(nodes) =>
      |reports| == |nodes| && forall i :: 0 <= i < |nodes| ==> Walk(nodes[i], leaf, above) == Done(reports[i])
    case _ => reports == []
  }

  lemma ReportShows(op: GroupOp, reports: seq<Report>, state: Verdict)
    ensures GroupReport(op, reports, false).state.Some?
    ensures (GroupReport(op, reports, false).state == Some(state)) == IsGroupState(op, reports, state)
  {
    ShownStatesAre(reports, Pass);
    ShownStatesAre(reports, Fail);
    ShownStatesAre(reports, Unknown);
    SomeState(reports);
  }

  /**
   The explanation of a group: its children are explained one by one, as disabled when the group is,
   and an enabled group shows what the states of its children add up to.
   */
  lemma GroupIsExplained(disabled: bool, op: GroupOp, children: ChildList, leaf: Node -> Verdict, above: bool)
    requires Walk(Group(disabled, op, children), leaf, above).Done?
    ensures var report := Walk(Group(disabled, op, children), leaf, above).value;
            && AreReportsOf(children, leaf, above || disabled, report.children)
            && if above || disabled then report.state == None
               else report.state.Some? && IsGroupState(op, report.children, report.state.value)
  {
    match children {
      case Nodes(nodes) => WalkAllReports(nodes, leaf, above || disabled);
      case _ =>
    }
    var report := Walk(Group(disabled, op, children), leaf, above).value;
    if !above && !disabled {
      ReportShows(op, report.children, report.state.value);
    }
  }

  /** At most one state fits the children of a group. */
  lemma GroupStateIsUnique(op: GroupOp, reports: seq<Report>, state: Verdict, other: Verdict)
    requires IsGroupState(op, reports, state) && IsGroupState(op, reports, other)
    ensures state == other
  {
    ReportShows(op, reports, state);
    ReportShows(op, reports, other);
  }
}
