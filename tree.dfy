/**
  The requirement tree: a plain requirement (`Leaf`), a constrained
  requirement with its candidate providers in priority order (`Choice`), or
  the nodes of one schema in schema order (`List`); and the visitor protocol
  that walks it.
 */
module RequirementTree {
  import opened Configuration

  datatype Tree =
    | Leaf(requirement: Requirement)
    | Choice(requirement: Requirement, candidates: seq<(Provider, Tree)>)
    | List(children: seq<Tree>)

  /** The `optional` property: a requirement node's requirement decides; a list is never optional. */
  function Optional(t: Tree): bool
  {
    match t
    case List(_) => false
    case _ => t.requirement.optional
  }

  /**
    The shape the resolver produces and validation walks: a list whose
    children are requirement nodes, each candidate of a choice again such a
    list.
   */
  predicate WellFormed(t: Tree)
  {
    t.List? &&
    forall c :: c in t.children ==>
      !c.List? && (c.Choice? ==> forall j :: 0 <= j < |c.candidates| ==> WellFormed(c.candidates[j].1))
  }

  /** No choice in the tree has an empty candidate list. */
  predicate ChoicesNonEmpty(t: Tree)
  {
    match t
    case Leaf(_) => true
    case Choice(_, cs) => cs != [] && forall j :: 0 <= j < |cs| ==> ChoicesNonEmpty(cs[j].1)
    case List(ns) => forall c :: c in ns ==> ChoicesNonEmpty(c)
  }

  // ---------------------------------------------------------------------
  // The visitor protocol.
  // ---------------------------------------------------------------------

  /**
    A visitor: `enter` answers whether to visit a node's children, `leave`
    and `visit` whether to go on with the node's siblings.
   */
  datatype Visitor = Visitor(enter: Tree -> bool, leave: Tree -> bool, visit: Tree -> bool)

  /** What a traversal did, in order: the hook it called and on which node. */
  datatype Event = Enter(node: Tree) | Leave(node: Tree) | Visit(node: Tree)

  /** The number of children `accept` walks: candidate subtrees of a choice, children of a list. */
  function ChildCount(t: Tree): nat
  {
    match t
    case Leaf(_) => 0
    case Choice(_, cs) => |cs|
    case List(ns) => |ns|
  }

  /** The child of `t` at index `i`, in the order `accept` walks them. */
  function ChildAt(t: Tree, i: nat): Tree
    requires i < ChildCount(t)
  {
    if t.Choice? then t.candidates[i].1 else t.children[i]
  }

  /** A child is smaller than its parent, so walks over children terminate. */
  lemma ChildSmaller(t: Tree, i: nat)
    requires i < ChildCount(t)
    ensures ChildAt(t, i) < t
  {
    if t.Choice? { assert t.candidates[i] in t.candidates; } else { assert t.children[i] in t.children; }
  }

  /** What `accept` does: the visitor's final answer, and the hook calls made in order. */
  function Traversal(t: Tree, v: Visitor): (bool, seq<Event>)
    decreases t, 1
  {
    match t
    case Leaf(_) => (v.visit(t), [Visit(t)])
    case _ =>
      if v.enter(t) then
        (v.leave(t), [Enter(t)] + TraversalChildren(t, 0, v) + [Leave(t)])
      else
        (v.leave(t), [Enter(t), Leave(t)])
  }

  /** The hook calls made on the children of `t` from index `i` on, stopping after the first child answering false. */
  function TraversalChildren(t: Tree, i: nat, v: Visitor): seq<Event>
    requires i <= ChildCount(t)
    decreases t, 0, ChildCount(t) - i
  {
    if i == ChildCount(t) then []
    else
      ChildSmaller(t, i);
      var (ok, events) := Traversal(ChildAt(t, i), v);
      if ok then events + TraversalChildren(t, i + 1, v) else events
  }

  /**
    `accept(visitor)`: a leaf calls `visit`; a choice or a list calls
    `visit_enter`, then, if that answered true, walks its children in order
    until one answers false, and answers what `visit_leave` answers.
   */
  method Accept(t: Tree, v: Visitor) returns (answer: bool, events: seq<Event>)
    ensures answer == Traversal(t, v).0 && events == Traversal(t, v).1
    decreases t
  {
    if t.Leaf? {
      return v.visit(t), [Visit(t)];
    }
    events := [Enter(t)];
    if v.enter(t) {
      var i := 0;
      while i < ChildCount(t)
        invariant i <= ChildCount(t)
        invariant events + TraversalChildren(t, i, v) == [Enter(t)] + TraversalChildren(t, 0, v)
      {
        ChildSmaller(t, i);
        var ok, childEvents := Accept(ChildAt(t, i), v);
        events := events + childEvents;
        if !ok {
          assert events == [Enter(t)] + TraversalChildren(t, 0, v);
          break;
        }
        i := i + 1;
      }
      assert events == [Enter(t)] + TraversalChildren(t, 0, v);
    }
    answer := v.leave(t);
    events := events + [Leave(t)];
  }

  /** Every hook call of a complete, never stopping, pre- and post-order walk of `t`. */
  function FullWalk(t: Tree): seq<Event>
    decreases t, 1
  {
    match t
    case Leaf(_) => [Visit(t)]
    case _ => [Enter(t)] + FullWalkChildren(t, 0) + [Leave(t)]
  }

  function FullWalkChildren(t: Tree, i: nat): seq<Event>
    requires i <= ChildCount(t)
    decreases t, 0, ChildCount(t) - i
  {
    if i == ChildCount(t) then []
    else
      ChildSmaller(t, i);
      FullWalk(ChildAt(t, i)) + FullWalkChildren(t, i + 1)
  }

  /** `TreeVisitor`: every hook answers true. */
  function DefaultVisitor(): Visitor
  {
    Visitor(_ => true, _ => true, _ => true)
  }

  /**
    A leaf answers what `visit` answers; a choice or a list answers what
    `leave` answers, and calls `enter` first and `leave` last.
   */
  lemma TraversalAnswers(t: Tree, v: Visitor)
    ensures t.Leaf? ==> Traversal(t, v) == (v.visit(t), [Visit(t)])
    ensures !t.Leaf? ==> Traversal(t, v).0 == v.leave(t)
    ensures !t.Leaf? ==> var ev := Traversal(t, v).1; |ev| >= 2 && ev[0] == Enter(t) && ev[|ev| - 1] == Leave(t)
  {
  }

  /** When `enter` refuses a node, none of its children is visited. */
  lemma EnterFalseSkipsChildren(t: Tree, v: Visitor)
    requires !t.Leaf? && !v.enter(t)
    ensures Traversal(t, v) == (v.leave(t), [Enter(t), Leave(t)])
  {
  }

  /** The concatenated walks of children `k` to `i` of `t`, inclusive. */
  function WalksUpTo(t: Tree, v: Visitor, k: nat, i: nat): seq<Event>
    requires k <= i < ChildCount(t)
    decreases i - k
  {
    if k == i then Traversal(ChildAt(t, i), v).1
    else Traversal(ChildAt(t, k), v).1 + WalksUpTo(t, v, k + 1, i)
  }

  /**
    A child answering false stops its siblings: when child `i` is the first
    from `k` on to answer false, the walk holds the walks of children `k` to
    `i` and nothing of the children after `i`.
   */
  lemma {:induction false} FalseChildStopsSiblings(t: Tree, v: Visitor, i: nat, k: nat)
    requires k <= i < ChildCount(t)
    requires forall j :: k <= j < i ==> Traversal(ChildAt(t, j), v).0
    requires !Traversal(ChildAt(t, i), v).0
    ensures TraversalChildren(t, k, v) == WalksUpTo(t, v, k, i)
    decreases i - k
  {
    if k < i {
      FalseChildStopsSiblings(t, v, i, k + 1);
    }
  }

  /** With the default visitor, `accept` answers true and walks the whole tree. */
  lemma {:induction false} DefaultVisitorWalksAll(t: Tree)
    ensures Traversal(t, DefaultVisitor()) == (true, FullWalk(t))
    decreases t, 1
  {
    if !t.Leaf? {
      DefaultVisitorWalksAllChildren(t, 0);
    }
  }

  lemma {:induction false} DefaultVisitorWalksAllChildren(t: Tree, i: nat)
    requires i <= ChildCount(t)
    ensures TraversalChildren(t, i, DefaultVisitor()) == FullWalkChildren(t, i)
    decreases t, 0, ChildCount(t) - i
  {
    if i < ChildCount(t) {
      ChildSmaller(t, i);
      DefaultVisitorWalksAll(ChildAt(t, i));
      DefaultVisitorWalksAllChildren(t, i + 1);
    }
  }

  // ---------------------------------------------------------------------
  // ValidateDependenciesVisitor.
  // ---------------------------------------------------------------------

  /**
    The check `ValidateDependenciesVisitor.visit` makes: the value stored at
    the visitor's own fixed `nodePath` (not at a path built from the node)
    must be accepted by the node's requirement, unless that requirement is
    optional.  A list has no requirement; the hook answers false for it.
   */
  predicate ValidateVisit(env: Collaborators, ctx: Context, nodePath: string, t: Tree)
  {
    !t.List? && (t.requirement.optional || ValueAccepted(env, ctx, t.requirement, nodePath))
  }

  /** `ValidateDependenciesVisitor(context, node_path)`: `enter` always true, `leave` the same as `visit`. */
  function ValidateDependenciesVisitor(env: Collaborators, ctx: Context, nodePath: string): Visitor
  {
    Visitor(_ => true, t => ValidateVisit(env, ctx, nodePath, t), t => ValidateVisit(env, ctx, nodePath, t))
  }

  /**
    Accepting the validating visitor checks a requirement node against the
    value at the visitor's path, whatever the node's name: an optional
    requirement always passes, a non-optional one passes exactly when that
    value exists and validates.
   */
  lemma ValidateVisitorChecksFixedPath(env: Collaborators, ctx: Context, nodePath: string, t: Tree)
    requires !t.List?
    ensures Traversal(t, ValidateDependenciesVisitor(env, ctx, nodePath)).0 <==>
              t.requirement.optional ||
              (nodePath in ctx.config && env.validate(t.requirement, ctx.config[nodePath], ctx.config))
  {
  }

  // ---------------------------------------------------------------------
  // `accept` as written: the child loops call `.apply(visitor)`.
  // ---------------------------------------------------------------------

  datatype Option<T> = None | Some(value: T)

  /**
    `accept` as the source writes it.  The child loops of a choice and of a
    list call `apply` on the child, which no tree class defines, so the
    first child reached raises AttributeError (`None` here).
   */
  function AcceptAsWritten(t: Tree, v: Visitor): Option<bool>
  {
    match t
    case Leaf(_) => Some(v.visit(t))
    case _ => if v.enter(t) && ChildCount(t) > 0 then None else Some(v.leave(t))
  }

  /**
    `accept` as written fails exactly when a choice or a list is entered and
    has a child; otherwise it answers what the corrected traversal answers.
   */
  lemma AcceptAsWrittenFails(t: Tree, v: Visitor)
    ensures AcceptAsWritten(t, v).None? <==> !t.Leaf? && v.enter(t) && ChildCount(t) > 0
    ensures AcceptAsWritten(t, v).Some? ==> AcceptAsWritten(t, v).value == Traversal(t, v).0
  {
  }

  /** The smallest tree `build_tree` returns for one plain requirement already fails under the default visitor. */
  lemma {:induction false} AcceptAsWrittenCounterexample(r: Requirement)
    ensures AcceptAsWritten(List([Leaf(r)]), DefaultVisitor()).None?
    ensures Traversal(List([Leaf(r)]), DefaultVisitor()).0
    ensures Traversal(List([Leaf(r)]), DefaultVisitor()).1 == [Enter(List([Leaf(r)])), Visit(Leaf(r)), Leave(List([Leaf(r)]))]
  {
    var t := List([Leaf(r)]);
    DefaultVisitorWalksAll(t);
    assert FullWalkChildren(t, 1) == [];
    assert FullWalkChildren(t, 0) == [Visit(Leaf(r))];
  }
}
