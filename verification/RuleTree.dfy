/**
 A rule is a tree of AND/OR groups over conditions. This module gives the three-valued evaluator, and
 which conditions a run of the boolean evaluator records.
 */
module RuleTree {
  import opened Basics
  import opened RuleOperators

  datatype GroupOp = And | Or | MissingOp | UnsupportedOp

  /** The `children` entry of a group; `walksEmpty` marks an empty text or empty object. */
  datatype ChildList = Absent | Nodes(nodes: seq<Node>) | NotAList(walksEmpty: bool)

  /** A rule node as stored: nothing has been validated yet, so malformed shapes are kept. */
  datatype Node =
    | Group(disabled: bool, op: GroupOp, children: ChildList)
    | Condition(disabled: bool, field: Field, operator: Operator, expected: Value)
    | OtherType(disabled: bool, below: seq<Node>)
    | MissingType(disabled: bool, below: seq<Node>)
    | NotAnObject

  predicate IsDisabled(node: Node) {
    !node.NotAnObject? && node.disabled
  }

  datatype Verdict = Pass | Fail | Unknown

  /** Kleene conjunction or disjunction of the active children; a group without any passes. */
  function Combine(op: GroupOp, verdicts: seq<Verdict>): Verdict {
    if verdicts == [] then Pass
    else if op.And? then
      if Fail in verdicts then Fail else if Unknown in verdicts then Unknown else Pass
    else
      if Pass in verdicts then Pass else if Unknown in verdicts then Unknown else Fail
  }

  /** A group both evaluators accept: a known operator and a non-empty list of objects. */
  predicate WellShapedGroup(node: Node) {
    && node.Group? && (node.op.And? || node.op.Or?)
    && node.children.Nodes? && node.children.nodes != []
    && forall child :: child in node.children.nodes ==> !child.NotAnObject?
  }

  /** The three-valued evaluator, over any verdict for the conditions. */
  function Evaluate(node: Node, leaf: Node -> Verdict): Verdict
    decreases node, 1
  {
    if IsDisabled(node) then Pass
    else if node.Condition? then leaf(node)
    else if !WellShapedGroup(node) then Fail
    else Combine(node.op, ActiveVerdicts(node.children.nodes, leaf))
  }

  /** The verdicts of the children that are not disabled, in order. */
  function ActiveVerdicts(nodes: seq<Node>, leaf: Node -> Verdict): seq<Verdict>
    decreases nodes, 0
  {
    if nodes == [] then []
    else (if IsDisabled(nodes[0]) then [] else [Evaluate(nodes[0], leaf)]) + ActiveVerdicts(nodes[1..], leaf)
  }

  // -------------------------------------------------------------------------------------------
  // Conditions

  type Context = map<Field, Value>

  function Lookup(ctx: Context, field: Field): Value {
    if field in ctx then ctx[field] else Null
  }

  function AccountNames(lib: Library, items: seq<Value>): seq<string> {
    if items == [] then []
    else (if lib.account(items[0]) != "" then [lib.account(items[0])] else []) + AccountNames(lib, items[1..])
  }

  /** The recorded total of one account; an account without activity counts as 0. */
  function TotalOf(totals: map<string, real>, name: string): real {
    if name in totals then totals[name] else 0.0
  }

  /** The largest total among some account names. */
  function LargestTotal(totals: map<string, real>, names: seq<string>): real
    requires names != []
  {
    var first := TotalOf(totals, names[0]);
    if |names| == 1 then first
    else
      var rest := LargestTotal(totals, names[1..]);
      if first >= rest then first else rest
  }

  /** It is the total of one of the names, and no other of them has more. */
  lemma {:induction false} LargestTotalIsMaximum(totals: map<string, real>, names: seq<string>)
    requires names != []
    ensures forall name :: name in names ==> TotalOf(totals, name) <= LargestTotal(totals, names)
    ensures exists name :: name in names && TotalOf(totals, name) == LargestTotal(totals, names)
  {
    assert names == [names[0]] + names[1..];
    if |names| > 1 {
      LargestTotalIsMaximum(totals, names[1..]);
      var best :| best in names[1..] && TotalOf(totals, best) == LargestTotal(totals, names[1..]);
      assert names[0] in names && best in names;
    }
  }

  function UserTotal(lib: Library, totals: map<string, real>, name: string): Value {
    Number(LargestTotal(totals, [name] + lib.aliases(Text(name))))
  }

  /** So a user's total is the largest of those recorded under the user's name and its aliases. */
  lemma UserTotalIsMaximum(lib: Library, totals: map<string, real>, name: string)
    ensures var accounts := [name] + lib.aliases(Text(name));
            && UserTotal(lib, totals, name).Number?
            && (forall account :: account in accounts ==> TotalOf(totals, account) <= UserTotal(lib, totals, name).number)
            && (exists account :: account in accounts && TotalOf(totals, account) == UserTotal(lib, totals, name).number)
  {
    LargestTotalIsMaximum(totals, [name] + lib.aliases(Text(name)));
  }

  /** A user without activity under any account has watched nothing, and no account's activity is lost. */
  lemma UserTotalOfRecorded(lib: Library, totals: map<string, real>, name: string)
    ensures var accounts := [name] + lib.aliases(Text(name));
            && ((forall account :: account in accounts ==> account !in totals)
                ==> UserTotal(lib, totals, name) == Number(0.0))
            && (forall account :: account in accounts && account in totals
                  ==> totals[account] <= UserTotal(lib, totals, name).number)
  {
    UserTotalIsMaximum(lib, totals, name);
    assert forall account :: account in totals ==> TotalOf(totals, account) == totals[account];
  }

  datatype Checked = Checked(verdict: Verdict, actual: Value)

  function FirstPassing(names: seq<string>, passes: string -> bool): (first: Option<string>)
    ensures first.Some? ==> first.value in names && passes(first.value)
    ensures first.None? ==> forall name :: name in names ==> !passes(name)
  {
    if names == [] then None
    else if passes(names[0]) then Some(names[0])
    else FirstPassing(names[1..], passes)
  }

  /** Whether one user's own total satisfies the operator. */
  function UserPasses(lib: Library, totals: map<string, real>, amount: Value,
                      operator: Operator, kind: FieldKind): string -> bool {
    name => MatchesOperator(lib, UserTotal(lib, totals, name), operator, amount, kind)
  }

  /** One user-scoped condition: it matches as soon as one selected user's own total does. */
  function CheckUserScoped(lib: Library, actual: Value, expected: Value, operator: Operator, kind: FieldKind): Checked {
    if !actual.PerUser? || !expected.UserAmount? || !expected.usernames.List? then
      Checked(Unknown, Unavailable)
    else
      var names := AccountNames(lib, expected.usernames.items);
      if names == [] then Checked(Unknown, Unavailable)
      else
        match FirstPassing(names, UserPasses(lib, actual.totals, expected.amount, operator, kind))
        case None => Checked(Fail, Null)
        case Some(name) => Checked(Pass, UserTotal(lib, actual.totals, name))
  }

  /** The verdict of one condition and the value it was decided on. */
  function CheckCondition(lib: Library, ctx: Context, condition: Node): Checked
    requires condition.Condition?
  {
    var actual := Lookup(ctx, condition.field);
    if KindOf(condition.field).UserScopedField? then
      CheckUserScoped(lib, actual, condition.expected, condition.operator, KindOf(condition.field))
    else if actual.Unavailable? then Checked(Unknown, actual)
    else if MatchesOperator(lib, actual, condition.operator, condition.expected, KindOf(condition.field)) then
      Checked(Pass, actual)
    else Checked(Fail, actual)
  }

  /** The verdicts of all conditions in a context. */
  function Leaves(lib: Library, ctx: Context): Node -> Verdict {
    (node: Node) => if node.Condition? then CheckCondition(lib, ctx, node).verdict else Fail
  }

  function EvaluateState(lib: Library, ctx: Context, node: Node): Verdict {
    Evaluate(node, Leaves(lib, ctx))
  }

  // -------------------------------------------------------------------------------------------
  // Unknown data never decides a rule

  /** `full` keeps every available value of `ctx` and gives the unavailable ones any value. */
  ghost predicate Completes(full: Context, ctx: Context) {
    forall field :: !Lookup(ctx, field).Unavailable? ==> Lookup(full, field) == Lookup(ctx, field)
  }

  ghost predicate Refines(leaf': Node -> Verdict, leaf: Node -> Verdict) {
    forall node :: leaf(node) != Unknown ==> leaf'(node) == leaf(node)
  }

  lemma {:induction false} RefinedTree(node: Node, leaf: Node -> Verdict, leaf': Node -> Verdict)
    requires Refines(leaf', leaf)
    ensures Evaluate(node, leaf) != Unknown ==> Evaluate(node, leaf') == Evaluate(node, leaf)
    decreases node, 1
  {
    if WellShapedGroup(node) {
      RefinedChildren(node.children.nodes, leaf, leaf');
      CombineRefines(node.op, ActiveVerdicts(node.children.nodes, leaf), ActiveVerdicts(node.children.nodes, leaf'));
    }
  }

  lemma {:induction false} RefinedChildren(nodes: seq<Node>, leaf: Node -> Verdict, leaf': Node -> Verdict)
    requires Refines(leaf', leaf)
    ensures |ActiveVerdicts(nodes, leaf)| == |ActiveVerdicts(nodes, leaf')|
    ensures forall i :: 0 <= i < |ActiveVerdicts(nodes, leaf)| && ActiveVerdicts(nodes, leaf)[i] != Unknown
                        ==> ActiveVerdicts(nodes, leaf')[i] == ActiveVerdicts(nodes, leaf)[i]
    decreases nodes, 0
  {
    if nodes != [] {
      RefinedTree(nodes[0], leaf, leaf');
      RefinedChildren(nodes[1..], leaf, leaf');
    }
  }

  lemma CombineRefines(op: GroupOp, verdicts: seq<Verdict>, verdicts': seq<Verdict>)
    requires |verdicts| == |verdicts'|
    requires forall i :: 0 <= i < |verdicts| && verdicts[i] != Unknown ==> verdicts'[i] == verdicts[i]
    ensures Combine(op, verdicts) != Unknown ==> Combine(op, verdicts') == Combine(op, verdicts)
  {
  }

  /** A known verdict in a context with unavailable data holds in every completion of that context. */
  lemma UnknownDataNeverDecides(lib: Library, ctx: Context, full: Context, node: Node)
    requires Completes(full, ctx)
    ensures EvaluateState(lib, ctx, node) != Unknown
            ==> EvaluateState(lib, full, node) == EvaluateState(lib, ctx, node)
  {
    RefinedTree(node, Leaves(lib, ctx), Leaves(lib, full));
  }

  // -------------------------------------------------------------------------------------------
  // The conditions a run of the boolean evaluator records

  /** The conditions recorded while a node is evaluated, whether or not it passes in the end. */
  function Trace(node: Node, leaf: Node -> Verdict): seq<Node>
    decreases node, 1
  {
    if IsDisabled(node) then []
    else if node.Condition? then if leaf(node) == Pass then [node] else []
    else if !WellShapedGroup(node) then []
    else if node.op.And? then TraceAnd(node.children.nodes, leaf)
    else TraceOr(node.children.nodes, leaf)
  }

  /** An AND stops at its first child that does not pass and leaves what was recorded so far. */
  function TraceAnd(nodes: seq<Node>, leaf: Node -> Verdict): seq<Node>
    decreases nodes, 0
  {
    if nodes == [] then []
    else
      Trace(nodes[0], leaf) + if Evaluate(nodes[0], leaf) == Pass then TraceAnd(nodes[1..], leaf) else []
  }

  /** An OR keeps what its passing children recorded, and nothing of the others. */
  function TraceOr(nodes: seq<Node>, leaf: Node -> Verdict): seq<Node>
    decreases nodes, 0
  {
    if nodes == [] then []
    else (if Evaluate(nodes[0], leaf) == Pass then Trace(nodes[0], leaf) else []) + TraceOr(nodes[1..], leaf)
  }

  /** A condition supports a node: it passes, and so does every group on the way down to it. */
  ghost predicate Supports(node: Node, leaf: Node -> Verdict, condition: Node)
    decreases node
  {
    && !IsDisabled(node)
    && Evaluate(node, leaf) == Pass
    && if node.Condition? then condition == node
       else
         WellShapedGroup(node)
         && exists child :: child in node.children.nodes && Supports(child, leaf, condition)
  }

  /** For a node that passes, the recorded conditions are exactly the supporting ones. */
  lemma {:induction false} TraceIsSupport(node: Node, leaf: Node -> Verdict, condition: Node)
    requires Evaluate(node, leaf) == Pass
    ensures condition in Trace(node, leaf) <==> Supports(node, leaf, condition)
    decreases node, 1
  {
    if WellShapedGroup(node) && !IsDisabled(node) {
      var nodes := node.children.nodes;
      if node.op.And? {
        PassingAnd(nodes, leaf);
        TraceAndIsSupport(nodes, leaf, condition);
      } else {
        TraceOrIsSupport(nodes, leaf, condition);
      }
    }
  }

  /** Every active child of a passing AND passes. */
  lemma {:induction false} PassingAnd(nodes: seq<Node>, leaf: Node -> Verdict)
    requires Combine(And, ActiveVerdicts(nodes, leaf)) == Pass
    ensures forall child :: child in nodes ==> Evaluate(child, leaf) == Pass
  {
    if nodes != [] {
      var rest := ActiveVerdicts(nodes[1..], leaf);
      assert forall v :: v in rest ==> v in ActiveVerdicts(nodes, leaf);
      PassingAnd(nodes[1..], leaf);
      if !IsDisabled(nodes[0]) {
        assert ActiveVerdicts(nodes, leaf)[0] == Evaluate(nodes[0], leaf);
      }
    }
  }

  lemma {:induction false} TraceAndIsSupport(nodes: seq<Node>, leaf: Node -> Verdict, condition: Node)
    requires forall child :: child in nodes ==> Evaluate(child, leaf) == Pass
    ensures condition in TraceAnd(nodes, leaf)
            <==> exists child :: child in nodes && Supports(child, leaf, condition)
    decreases nodes, 0
  {
    if nodes != [] {
      TraceIsSupport(nodes[0], leaf, condition);
      TraceAndIsSupport(nodes[1..], leaf, condition);
      assert forall child :: child in nodes <==> child == nodes[0] || child in nodes[1..];
    }
  }

  lemma {:induction false} TraceOrIsSupport(nodes: seq<Node>, leaf: Node -> Verdict, condition: Node)
    ensures condition in TraceOr(nodes, leaf)
            <==> exists child :: child in nodes && Supports(child, leaf, condition)
    decreases nodes, 0
  {
    if nodes != [] {
      if Evaluate(nodes[0], leaf) == Pass { TraceIsSupport(nodes[0], leaf, condition); }
      TraceOrIsSupport(nodes[1..], leaf, condition);
      assert forall child :: child in nodes <==> child == nodes[0] || child in nodes[1..];
    }
  }

  /** Everything recorded, even by a branch that fails in the end, is an enabled condition that passes. */
  lemma {:induction false} TraceIsSound(node: Node, leaf: Node -> Verdict)
    ensures forall c :: c in Trace(node, leaf) ==> c.Condition? && !c.disabled && leaf(c) == Pass
    decreases node, 1
  {
    if WellShapedGroup(node) { TracesAreSound(node.children.nodes, leaf); }
  }

  lemma {:induction false} TracesAreSound(nodes: seq<Node>, leaf: Node -> Verdict)
    ensures forall c :: c in TraceAnd(nodes, leaf) ==> c.Condition? && !c.disabled && leaf(c) == Pass
    ensures forall c :: c in TraceOr(nodes, leaf) ==> c.Condition? && !c.disabled && leaf(c) == Pass
    decreases nodes, 0
  {
    if nodes != [] {
      TraceIsSound(nodes[0], leaf);
      TracesAreSound(nodes[1..], leaf);
    }
  }

  /** The recorded conditions alone make the node pass, whatever all the others evaluate to. */
  lemma {:induction false} TraceSuffices(node: Node, leaf: Node -> Verdict, leaf': Node -> Verdict)
    requires Evaluate(node, leaf) == Pass
    requires forall c :: c in Trace(node, leaf) ==> leaf'(c) == Pass
    ensures Evaluate(node, leaf') == Pass
    decreases node, 1
  {
    if WellShapedGroup(node) && !IsDisabled(node) {
      var nodes := node.children.nodes;
      if node.op.And? {
        PassingAnd(nodes, leaf);
        TraceAndSuffices(nodes, leaf, leaf');
      } else {
        TraceOrSuffices(nodes, leaf, leaf');
      }
    }
  }

  lemma {:induction false} TraceAndSuffices(nodes: seq<Node>, leaf: Node -> Verdict, leaf': Node -> Verdict)
    requires forall child :: child in nodes ==> Evaluate(child, leaf) == Pass
    requires forall c :: c in TraceAnd(nodes, leaf) ==> leaf'(c) == Pass
    ensures forall v :: v in ActiveVerdicts(nodes, leaf') ==> v == Pass
    decreases nodes, 0
  {
    if nodes != [] {
      TraceSuffices(nodes[0], leaf, leaf');
      TraceAndSuffices(nodes[1..], leaf, leaf');
    }
  }

  lemma {:induction false} TraceOrSuffices(nodes: seq<Node>, leaf: Node -> Verdict, leaf': Node -> Verdict)
    requires forall c :: c in TraceOr(nodes, leaf) ==> leaf'(c) == Pass
    ensures Pass in ActiveVerdicts(nodes, leaf) ==> Pass in ActiveVerdicts(nodes, leaf')
    ensures ActiveVerdicts(nodes, leaf) == [] ==> ActiveVerdicts(nodes, leaf') == []
    decreases nodes, 0
  {
    if nodes != [] {
      if Evaluate(nodes[0], leaf) == Pass { TraceSuffices(nodes[0], leaf, leaf'); }
      TraceOrSuffices(nodes[1..], leaf, leaf');
    }
  }

  // -------------------------------------------------------------------------------------------
  // Deleting disabled children

  /** Deletes disabled children, at every depth, from the groups that keep an enabled child. */
  function Prune(node: Node): Node
    decreases node, 1
  {
    if IsDisabled(node) || !node.Group? || !node.children.Nodes? then node
    else
      var kept := PruneAll(node.children.nodes);
      if kept == [] then node else node.(children := Nodes(kept))
  }

  function PruneAll(nodes: seq<Node>): seq<Node>
    decreases nodes, 0
  {
    if nodes == [] then []
    else (if IsDisabled(nodes[0]) then [] else [Prune(nodes[0])]) + PruneAll(nodes[1..])
  }

  /** Pruning changes neither the verdict nor the recorded conditions of any tree. */
  lemma {:induction false} PruneChangesNothing(node: Node, leaf: Node -> Verdict)
    ensures IsDisabled(Prune(node)) == IsDisabled(node)
    ensures Prune(node).NotAnObject? == node.NotAnObject?
    ensures Evaluate(Prune(node), leaf) == Evaluate(node, leaf)
    ensures Trace(Prune(node), leaf) == Trace(node, leaf)
    decreases node, 1
  {
    if !IsDisabled(node) && node.Group? && node.children.Nodes? {
      PruneAllChangesNothing(node.children.nodes, leaf);
    }
  }

  lemma {:induction false} PruneAllChangesNothing(nodes: seq<Node>, leaf: Node -> Verdict)
    ensures ActiveVerdicts(PruneAll(nodes), leaf) == ActiveVerdicts(nodes, leaf)
    ensures TraceAnd(PruneAll(nodes), leaf) == TraceAnd(nodes, leaf)
    ensures TraceOr(PruneAll(nodes), leaf) == TraceOr(nodes, leaf)
    ensures (exists n :: n in PruneAll(nodes) && n.NotAnObject?) <==> (exists n :: n in nodes && n.NotAnObject?)
    decreases nodes, 0
  {
    if nodes != [] {
      var rest := PruneAll(nodes[1..]);
      PruneAllChangesNothing(nodes[1..], leaf);
      assert forall n :: n in nodes <==> n == nodes[0] || n in nodes[1..];
      if IsDisabled(nodes[0]) {
        assert PruneAll(nodes) == rest;
      } else {
        PruneChangesNothing(nodes[0], leaf);
        PrependChild(Prune(nodes[0]), rest, leaf);
      }
    }
  }

  lemma PrependChild(child: Node, rest: seq<Node>, leaf: Node -> Verdict)
    requires !IsDisabled(child)
    ensures ActiveVerdicts([child] + rest, leaf) == [Evaluate(child, leaf)] + ActiveVerdicts(rest, leaf)
    ensures TraceAnd([child] + rest, leaf)
            == Trace(child, leaf) + if Evaluate(child, leaf) == Pass then TraceAnd(rest, leaf) else []
    ensures TraceOr([child] + rest, leaf)
            == (if Evaluate(child, leaf) == Pass then Trace(child, leaf) else []) + TraceOr(rest, leaf)
    ensures forall n :: n in [child] + rest <==> n == child || n in rest
  {
    assert ([child] + rest)[1..] == rest;
  }
}
