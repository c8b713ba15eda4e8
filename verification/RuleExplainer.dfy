/**
 The explainer visits every node of a validated rule and reports a state for each: disabled, or the
 pass, fail or unknown that the evaluators compute for it.
 */
module RuleExplainer {
  import opened Basics
  import opened RuleOperators
  import opened RuleTree

  /** The report for one node; `state` is None where the explainer says "disabled". */
  datatype Report = Report(state: Option<Verdict>, children: seq<Report>)

  /** The explainer raises on nodes it cannot read. */
  datatype Walked<T> = Raised | Done(value: T)

  /**
   Validation, up to the checks of a single enabled condition (`accepts`). A disabled node is
   accepted without looking below it.
   */
  predicate Validate(node: Node, accepts: Node -> bool)
    decreases node
  {
    match node
    case NotAnObject | OtherType(_, _) | MissingType(_, _) => false
    case Condition(disabled, _, _, _) => disabled || accepts(node)
    case Group(disabled, op, children) =>
      disabled ||
      (&& (op.And? || op.Or?)
       && children.Nodes? && children.nodes != []
       && forall child :: child in children.nodes ==> Validate(child, accepts))
  }

  function Walk(node: Node, leaf: Node -> Verdict, disabledAbove: bool): Walked<Report>
    decreases node, 1
  {
    match node
    case NotAnObject | MissingType(_, _) => Raised
    case OtherType(disabled, _) => if disabledAbove || disabled then Done(Report(None, [])) else Raised
    case Condition(disabled, _, _, _) =>
      if disabledAbove || disabled then Done(Report(None, [])) else Done(Report(Some(Evaluate(node, leaf)), []))
    case Group(disabled, op, children) =>
      match children
      case NotAList(walksEmpty) =>
        if walksEmpty then Done(GroupReport(op, [], disabledAbove || disabled)) else Raised
      case Absent => Done(GroupReport(op, [], disabledAbove || disabled))
      case Nodes(nodes) =>
        match WalkAll(nodes, leaf, disabledAbove || disabled)
        case Raised => Raised
        case Done(reports) => Done(GroupReport(op, reports, disabledAbove || disabled))
  }

  function WalkAll(nodes: seq<Node>, leaf: Node -> Verdict, disabledAbove: bool): Walked<seq<Report>>
    decreases nodes, 0
  {
    if nodes == [] then Done([])
    else
      match Walk(nodes[0], leaf, disabledAbove)
      case Raised => Raised
      case Done(first) =>
        match WalkAll(nodes[1..], leaf, disabledAbove)
        case Raised => Raised
        case Done(rest) => Done([first] + rest)
  }

  /** A missing operator reads as AND; any operator but AND reads as OR. */
  function GroupReport(op: GroupOp, reports: seq<Report>, disabled: bool): Report {
    if disabled then Report(None, reports)
    else Report(Some(Combine(if op.MissingOp? then And else op, ShownStates(reports))), reports)
  }

  /** The states of the children that are not disabled, in order. */
  function ShownStates(reports: seq<Report>): seq<Verdict> {
    if reports == [] then []
    else (if reports[0].state.Some? then [reports[0].state.value] else []) + ShownStates(reports[1..])
  }

  // -------------------------------------------------------------------------------------------
  // Nodes and reports along a path of child positions

  function NodeAt(node: Node, path: seq<nat>): Option<Node> {
    if path == [] then Some(node)
    else if node.Group? && node.children.Nodes? && path[0] < |node.children.nodes| then
      NodeAt(node.children.nodes[path[0]], path[1..])
    else None
  }

  function ReportAt(report: Report, path: seq<nat>): Option<Report> {
    if path == [] then Some(report)
    else if path[0] < |report.children| then ReportAt(report.children[path[0]], path[1..])
    else None
  }

  /** Some node on the path, ends included, is disabled. */
  predicate DisabledAlong(node: Node, path: seq<nat>)
    requires NodeAt(node, path).Some?
  {
    IsDisabled(node) || (path != [] && DisabledAlong(node.children.nodes[path[0]], path[1..]))
  }

  /** A node the walk cannot read, wherever it stands. */
  predicate Unreadable(node: Node) {
    node.NotAnObject? || node.MissingType? || (node.Group? && node.children.NotAList? && !node.children.walksEmpty)
  }

  // -------------------------------------------------------------------------------------------
  // Agreement with the evaluators

  /** Every report of a validated tree shows what the evaluator computes for its node. */
  lemma {:induction false} WalkAgrees(node: Node, accepts: Node -> bool, leaf: Node -> Verdict, above: bool, path: seq<nat>)
    requires above || Validate(node, accepts)
    requires Walk(node, leaf, above).Done?
    requires NodeAt(node, path).Some?
    ensures ReportAt(Walk(node, leaf, above).value, path).Some?
    ensures ReportAt(Walk(node, leaf, above).value, path).value.state
            == if above || DisabledAlong(node, path) then None else Some(Evaluate(NodeAt(node, path).value, leaf))
    decreases node, |path|, 1
  {
    if node.Group? && node.children.Nodes? {
      var nodes := node.children.nodes;
      var off := above || IsDisabled(node);
      WalkAllReports(nodes, leaf, off);
      if path != [] {
        WalkAgrees(nodes[path[0]], accepts, leaf, off, path[1..]);
      } else if !off {
        ChildrenAgree(nodes, accepts, leaf);
      }
    }
  }

  lemma {:induction false} WalkAllReports(nodes: seq<Node>, leaf: Node -> Verdict, above: bool)
    requires WalkAll(nodes, leaf, above).Done?
    ensures |WalkAll(nodes, leaf, above).value| == |nodes|
    ensures forall i :: 0 <= i < |nodes| ==> Walk(nodes[i], leaf, above) == Done(WalkAll(nodes, leaf, above).value[i])
  {
    if nodes != [] { WalkAllReports(nodes[1..], leaf, above); }
  }

  lemma {:induction false} ChildrenAgree(nodes: seq<Node>, accepts: Node -> bool, leaf: Node -> Verdict)
    requires forall child :: child in nodes ==> Validate(child, accepts)
    requires WalkAll(nodes, leaf, false).Done?
    ensures ShownStates(WalkAll(nodes, leaf, false).value) == ActiveVerdicts(nodes, leaf)
    decreases nodes, 0
  {
    if nodes != [] {
      WalkAgrees(nodes[0], accepts, leaf, false, []);
      ChildrenAgree(nodes[1..], accepts, leaf);
    }
  }

  /**
   The explainer shows, at every node of a validated rule, exactly what the evaluators compute:
   pass, fail or unknown where no disabled node is on the way, and disabled elsewhere.
   */
  lemma ExplainerAgrees(lib: Library, ctx: Context, root: Node, accepts: Node -> bool, path: seq<nat>)
    requires Validate(root, accepts)
    requires Walk(root, Leaves(lib, ctx), false).Done?
    requires NodeAt(root, path).Some?
    ensures ReportAt(Walk(root, Leaves(lib, ctx), false).value, path).Some?
    ensures ReportAt(Walk(root, Leaves(lib, ctx), false).value, path).value.state
            == if DisabledAlong(root, path) then None
               else Some(EvaluateState(lib, ctx, NodeAt(root, path).value))
  {
    WalkAgrees(root, accepts, Leaves(lib, ctx), false, path);
  }

  // -------------------------------------------------------------------------------------------
  // When the explainer raises

  lemma {:induction false} RaisedFindsPath(node: Node, accepts: Node -> bool, leaf: Node -> Verdict, above: bool)
    returns (path: seq<nat>)
    requires above || Validate(node, accepts)
    requires Walk(node, leaf, above).Raised?
    ensures NodeAt(node, path).Some? && Unreadable(NodeAt(node, path).value)
    decreases node, 1
  {
    path := [];
    if node.Group? && node.children.Nodes? {
      var i, below := RaisedFindsChild(node.children.nodes, accepts, leaf, above || IsDisabled(node));
      path := [i] + below;
      assert path[1..] == below;
    }
  }

  lemma {:induction false} RaisedFindsChild(nodes: seq<Node>, accepts: Node -> bool, leaf: Node -> Verdict, above: bool)
    returns (i: nat, path: seq<nat>)
    requires forall child :: child in nodes ==> above || Validate(child, accepts)
    requires WalkAll(nodes, leaf, above).Raised?
    ensures i < |nodes| && NodeAt(nodes[i], path).Some? && Unreadable(NodeAt(nodes[i], path).value)
    decreases nodes, 0
  {
    if Walk(nodes[0], leaf, above).Raised? {
      i := 0;
      path := RaisedFindsPath(nodes[0], accepts, leaf, above);
    } else {
      i, path := RaisedFindsChild(nodes[1..], accepts, leaf, above);
      i := i + 1;
    }
  }

  lemma {:induction false} UnreadableRaises(node: Node, leaf: Node -> Verdict, above: bool, path: seq<nat>)
    requires NodeAt(node, path).Some? && Unreadable(NodeAt(node, path).value)
    ensures Walk(node, leaf, above).Raised?
    decreases |path|
  {
    if path != [] {
      UnreadableRaises(node.children.nodes[path[0]], leaf, above || IsDisabled(node), path[1..]);
      if WalkAll(node.children.nodes, leaf, above || IsDisabled(node)).Done? {
        WalkAllReports(node.children.nodes, leaf, above || IsDisabled(node));
      }
    }
  }

  /**
   Validation does not look below a disabled node, but the explainer does: it raises on a
   validated rule exactly when some node of the tree is unreadable.
   */
  lemma ExplainerRaises(root: Node, accepts: Node -> bool, leaf: Node -> Verdict)
    requires Validate(root, accepts)
    ensures Walk(root, leaf, false).Raised?
            <==> exists path :: NodeAt(root, path).Some? && Unreadable(NodeAt(root, path).value)
  {
    if Walk(root, leaf, false).Raised? {
      var path := RaisedFindsPath(root, accepts, leaf, false);
    } else if path :| NodeAt(root, path).Some? && Unreadable(NodeAt(root, path).value) {
      UnreadableRaises(root, leaf, false, path);
    }
  }

  /** A rule that validates and evaluates, but whose explanation raises: the rubbish is below a disabled group. */
  lemma DisabledRubbishRaises(accepts: Node -> bool, leaf: Node -> Verdict, condition: Node, rubbish: Node, root: Node)
    requires condition.Condition? && !condition.disabled && accepts(condition)
    requires rubbish == Group(true, And, Nodes([NotAnObject]))
    requires root == Group(false, And, Nodes([condition, rubbish]))
    ensures Validate(root, accepts)
    ensures Evaluate(root, leaf) == leaf(condition)
    ensures Walk(root, leaf, false).Raised?
  {
    assert Validate(condition, accepts) && Validate(rubbish, accepts);
    assert NodeAt(rubbish, [0]) == Some(NotAnObject);
    UnreadableRaises(rubbish, leaf, false, [0]);
    assert [condition, rubbish][1..] == [rubbish] && [rubbish][1..] == [];
    assert WalkAll([rubbish], leaf, false).Raised?;
    assert ActiveVerdicts([rubbish], leaf) == [];
    assert ActiveVerdicts([condition, rubbish], leaf) == [leaf(condition)];
    CombineOne(And, leaf(condition));
  }

  lemma CombineOne(op: GroupOp, verdict: Verdict)
    ensures Combine(op, [verdict]) == verdict
  {
    assert verdict in [verdict];
  }

  /** Pruning keeps a rule valid. */
  lemma {:induction false} PruneStaysValid(node: Node, accepts: Node -> bool)
    requires Validate(node, accepts)
    ensures Validate(Prune(node), accepts)
    decreases node, 1
  {
    if node.Group? && !node.disabled {
      PruneAllStaysValid(node.children.nodes, accepts);
    }
  }

  lemma {:induction false} PruneAllStaysValid(nodes: seq<Node>, accepts: Node -> bool)
    requires forall child :: child in nodes ==> Validate(child, accepts)
    ensures forall child :: child in PruneAll(nodes) ==> Validate(child, accepts)
    decreases nodes, 0
  {
    if nodes != [] {
      PruneStaysValid(nodes[0], accepts);
      PruneAllStaysValid(nodes[1..], accepts);
    }
  }

  /** A tree that can be explained can be explained after pruning. */
  lemma {:induction false} PruneStaysReadable(node: Node, accepts: Node -> bool, leaf: Node -> Verdict)
    requires Validate(node, accepts) && Walk(node, leaf, false).Done?
    ensures Walk(Prune(node), leaf, false).Done?
    decreases node, 1
  {
    if node.Group? && !node.disabled {
      PruneAllStaysReadable(node.children.nodes, accepts, leaf);
    }
  }

  lemma {:induction false} PruneAllStaysReadable(nodes: seq<Node>, accepts: Node -> bool, leaf: Node -> Verdict)
    requires forall child :: child in nodes ==> Validate(child, accepts)
    requires WalkAll(nodes, leaf, false).Done?
    ensures WalkAll(PruneAll(nodes), leaf, false).Done?
    decreases nodes, 0
  {
    if nodes != [] {
      PruneAllStaysReadable(nodes[1..], accepts, leaf);
      if IsDisabled(nodes[0]) {
        assert PruneAll(nodes) == PruneAll(nodes[1..]);
      } else {
        PruneStaysReadable(nodes[0], accepts, leaf);
        assert PruneAll(nodes)[1..] == PruneAll(nodes[1..]);
      }
    }
  }

  /** A node of the pruned list is a pruned enabled node of the list. */
  lemma {:induction false} PrunedFrom(nodes: seq<Node>, i: nat) returns (j: nat)
    requires i < |PruneAll(nodes)|
    ensures j < |nodes| && !IsDisabled(nodes[j]) && PruneAll(nodes)[i] == Prune(nodes[j])
  {
    if IsDisabled(nodes[0]) {
      j := PrunedFrom(nodes[1..], i);
      j := j + 1;
    } else if i == 0 {
      j := 0;
    } else {
      j := PrunedFrom(nodes[1..], i - 1);
      j := j + 1;
    }
  }

  /** An enabled node of the list has a place in the pruned list. */
  lemma {:induction false} PrunedTo(nodes: seq<Node>, j: nat) returns (i: nat)
    requires j < |nodes| && !IsDisabled(nodes[j])
    ensures i < |PruneAll(nodes)| && PruneAll(nodes)[i] == Prune(nodes[j])
  {
    if j == 0 {
      i := 0;
    } else {
      i := PrunedTo(nodes[1..], j - 1);
      if !IsDisabled(nodes[0]) {
        i := i + 1;
      }
    }
  }

  /** A node is reached without passing a disabled one, ends included. */
  predicate IsEnabledAt(node: Node, path: seq<nat>) {
    NodeAt(node, path).Some? && !DisabledAlong(node, path)
  }

  // -------------------------------------------------------------------------------------------
  // What validation accepts

  /** A node is visited when no node above it is disabled. */
  predicate IsVisited(node: Node, path: seq<nat>) {
    NodeAt(node, path).Some?
    && (path == [] || (!IsDisabled(node) && IsVisited(node.children.nodes[path[0]], path[1..])))
  }

  /** What validation demands of a visited node by itself; of a disabled one only its type. */
  predicate IsSound(node: Node, accepts: Node -> bool) {
    match node
    case Condition(disabled, _, _, _) => disabled || accepts(node)
    case Group(disabled, op, children) => disabled || (op in {And, Or} && children.Nodes? && children != Nodes([]))
    case _ => false
  }

  lemma {:induction false} ValidIsSound(root: Node, accepts: Node -> bool, path: seq<nat>)
    requires Validate(root, accepts) && IsVisited(root, path)
    ensures IsSound(NodeAt(root, path).value, accepts)
    decreases |path|
  {
    if path != [] {
      ValidIsSound(root.children.nodes[path[0]], accepts, path[1..]);
    }
  }

  lemma {:induction false} InvalidHasUnsound(root: Node, accepts: Node -> bool) returns (path: seq<nat>)
    requires !Validate(root, accepts)
    ensures IsVisited(root, path) && !IsSound(NodeAt(root, path).value, accepts)
    decreases root
  {
    path := [];
    if IsSound(root, accepts) {
      var nodes := root.children.nodes;
      var i: nat :| i < |nodes| && !Validate(nodes[i], accepts);
      var below := InvalidHasUnsound(nodes[i], accepts);
      path := [i] + below;
      assert path[1..] == below;
    }
  }

  /** A rule validates exactly when every node that no disabled node stands above is sound by itself. */
  lemma ValidatesExactly(root: Node, accepts: Node -> bool)
    ensures Validate(root, accepts)
            <==> forall path :: IsVisited(root, path) ==> IsSound(NodeAt(root, path).value, accepts)
  {
    if Validate(root, accepts) {
      forall path | IsVisited(root, path)
        ensures IsSound(NodeAt(root, path).value, accepts)
      {
        ValidIsSound(root, accepts, path);
      }
    } else {
      var path := InvalidHasUnsound(root, accepts);
    }
  }

  // -------------------------------------------------------------------------------------------
  // Explaining a pruned rule

  /** `after` leads to the pruned form of the enabled node that `before` leads to. */
  predicate IsPrunedPath(root: Node, before: seq<nat>, after: seq<nat>) {
    && IsEnabledAt(root, before) && IsEnabledAt(Prune(root), after)
    && NodeAt(Prune(root), after).value == Prune(NodeAt(root, before).value)
  }

  lemma PrefixPath(root: Node, j: nat, before: seq<nat>, i: nat, after: seq<nat>)
    requires root.Group? && !root.disabled && root.children.Nodes?
    requires j < |root.children.nodes| && i < |PruneAll(root.children.nodes)|
    requires PruneAll(root.children.nodes)[i] == Prune(root.children.nodes[j])
    requires IsPrunedPath(root.children.nodes[j], before, after)
    ensures IsPrunedPath(root, [j] + before, [i] + after)
  {
    assert ([j] + before)[1..] == before && ([i] + after)[1..] == after;
  }

  /** A group with an enabled node below it keeps its pruned children. */
  lemma EnabledChildIsKept(root: Node, after: seq<nat>)
    requires IsEnabledAt(Prune(root), after) && after != []
    ensures root.Group? && root.children.Nodes? && !root.disabled
    ensures Prune(root).children == Nodes(PruneAll(root.children.nodes))
  {
    var nodes := root.children.nodes;
    assert IsEnabledAt(Prune(root).children.nodes[after[0]], after[1..]);
    forall j: nat | j < |nodes| && !IsDisabled(nodes[j])
      ensures PruneAll(nodes) != []
    {
      var i := PrunedTo(nodes, j);
    }
  }

  /** Every enabled node of the pruned tree comes from an enabled node of the tree. */
  lemma {:induction false} PathBeforePruning(root: Node, after: seq<nat>) returns (before: seq<nat>)
    requires IsEnabledAt(Prune(root), after)
    ensures IsPrunedPath(root, before, after)
    decreases |after|
  {
    if after == [] {
      before := [];
    } else {
      var nodes := root.children.nodes;
      EnabledChildIsKept(root, after);
      var j := PrunedFrom(nodes, after[0]);
      var rest := PathBeforePruning(nodes[j], after[1..]);
      PrefixPath(root, j, rest, after[0], after[1..]);
      assert [after[0]] + after[1..] == after;
      before := [j] + rest;
    }
  }

  /** Every enabled node of the tree is left, pruned, in the pruned tree. */
  lemma {:induction false} PathAfterPruning(root: Node, before: seq<nat>) returns (after: seq<nat>)
    requires IsEnabledAt(root, before)
    ensures IsPrunedPath(root, before, after)
    decreases |before|
  {
    if before == [] {
      after := [];
    } else {
      var nodes := root.children.nodes;
      assert IsEnabledAt(nodes[before[0]], before[1..]);
      var i := PrunedTo(nodes, before[0]);
      var rest := PathAfterPruning(nodes[before[0]], before[1..]);
      PrefixPath(root, before[0], before[1..], i, rest);
      assert [before[0]] + before[1..] == before;
      after := [i] + rest;
    }
  }

  ghost predicate NoneDisabled(nodes: seq<Node>) {
    forall child :: child in nodes ==> !IsDisabled(child)
  }

  lemma {:induction false} PrunedNodesAreEnabled(nodes: seq<Node>)
    ensures NoneDisabled(PruneAll(nodes))
    ensures PruneAll(nodes) == [] ==> forall child :: child in nodes ==> IsDisabled(child)
    decreases nodes
  {
    if nodes != [] {
      PrunedNodesAreEnabled(nodes[1..]);
      PruneChangesNothing(nodes[0], n => Fail);
    }
  }

  /** Pruning leaves no disabled child in a group with an enabled one, at any depth. */
  lemma {:induction false} PrunedGroupsAreClean(root: Node, after: seq<nat>)
    requires IsEnabledAt(Prune(root), after)
    requires NodeAt(Prune(root), after).value.Group? && NodeAt(Prune(root), after).value.children.Nodes?
    ensures var nodes := NodeAt(Prune(root), after).value.children.nodes;
            NoneDisabled(nodes) || forall child :: child in nodes ==> IsDisabled(child)
    decreases |after|
  {
    if after == [] {
      PrunedNodesAreEnabled(root.children.nodes);
    } else {
      EnabledChildIsKept(root, after);
      var j := PrunedFrom(root.children.nodes, after[0]);
      PrunedGroupsAreClean(root.children.nodes[j], after[1..]);
    }
  }

  /** The explanations of a rule and of its pruned form show the same state at two paths. */
  predicate ShownAlike(root: Node, leaf: Node -> Verdict, before: seq<nat>, after: seq<nat>)
    requires Walk(root, leaf, false).Done? && Walk(Prune(root), leaf, false).Done?
  {
    var report, pruned := Walk(root, leaf, false).value, Walk(Prune(root), leaf, false).value;
    && ReportAt(report, before).Some? && ReportAt(pruned, after).Some?
    && ReportAt(report, before).value.state == ReportAt(pruned, after).value.state
  }

  lemma PrunedPathIsShownAlike(
    lib: Library, ctx: Context, root: Node, accepts: Node -> bool, before: seq<nat>, after: seq<nat>
  )
    requires Validate(root, accepts) && IsPrunedPath(root, before, after)
    requires Walk(root, Leaves(lib, ctx), false).Done? && Walk(Prune(root), Leaves(lib, ctx), false).Done?
    ensures ShownAlike(root, Leaves(lib, ctx), before, after)
  {
    PruneStaysValid(root, accepts);
    ExplainerAgrees(lib, ctx, root, accepts, before);
    ExplainerAgrees(lib, ctx, Prune(root), accepts, after);
    PruneChangesNothing(NodeAt(root, before).value, Leaves(lib, ctx));
  }

  /**
   Pruning a rule that can be explained leaves it so, and keeps what the explanation shows at every
   enabled node: the enabled nodes of the two trees correspond, each to its pruned form, and
   corresponding nodes show the same state.
   */
  lemma PruneExplainsAlike(lib: Library, ctx: Context, root: Node, accepts: Node -> bool)
    requires Validate(root, accepts)
    requires Walk(root, Leaves(lib, ctx), false).Done?
    ensures Walk(Prune(root), Leaves(lib, ctx), false).Done?
    ensures forall after :: IsEnabledAt(Prune(root), after) ==>
              exists before :: IsPrunedPath(root, before, after) && ShownAlike(root, Leaves(lib, ctx), before, after)
    ensures forall before :: IsEnabledAt(root, before) ==>
              exists after :: IsPrunedPath(root, before, after) && ShownAlike(root, Leaves(lib, ctx), before, after)
  {
    PruneStaysReadable(root, accepts, Leaves(lib, ctx));
    forall after | IsEnabledAt(Prune(root), after)
      ensures exists before :: IsPrunedPath(root, before, after) && ShownAlike(root, Leaves(lib, ctx), before, after)
    {
      var before := PathBeforePruning(root, after);
      PrunedPathIsShownAlike(lib, ctx, root, accepts, before, after);
    }
    forall before | IsEnabledAt(root, before)
      ensures exists after :: IsPrunedPath(root, before, after) && ShownAlike(root, Leaves(lib, ctx), before, after)
    {
      var after := PathAfterPruning(root, before);
      PrunedPathIsShownAlike(lib, ctx, root, accepts, before, after);
    }
  }
}
