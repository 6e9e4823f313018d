/**
  What `validate_dependencies` computes, as functions threading the
  context through the walk, and what is proved about it.
 */
module Validation {
  import opened Configuration
  import opened RequirementTree

  /** The configuration path of a requirement node below `path`. */
  function NodePath(path: string, n: Tree): (r: string)
    requires !n.List?
    ensures |r| == |path| + |ConfigSeparator| + |n.requirement.name|
  {
    path + ConfigSeparator + n.requirement.name
  }

  /**
    A candidate's subtree may be validated: it has the shape `build_tree`
    produces.  This is the clause `WellFormed` states of each child of a
    list, stated here for one node, because a single node is what
    `ValidateNode` and `SelectFrom` are given.
   */
  predicate CandidatesWellFormed(n: Tree)
  {
    n.Choice? ==> forall j :: 0 <= j < |n.candidates| ==> WellFormed(n.candidates[j].1)
  }

  /**
    The loop over the children of list `t` from index `i` on: whether every
    child passes, and the context afterwards.  The first failing child ends
    the loop.
   */
  function ValidateFrom(t: Tree, i: nat, ctx: Context, path: string, env: Collaborators): (bool, Context)
    requires WellFormed(t) && i <= |t.children|
    decreases t, 2, |t.children| - i
  {
    if i == |t.children| then (true, ctx)
    else
      assert t.children[i] in t.children;
      var (ok, next) := ValidateNode(t.children[i], ctx, path, env);
      if ok then ValidateFrom(t, i + 1, next, path, env) else (false, next)
  }

  /**
    One child: a non-optional choice must first commit a candidate; then the
    value stored at the node's path must validate, unless the requirement is
    optional.
   */
  function ValidateNode(n: Tree, ctx: Context, path: string, env: Collaborators): (bool, Context)
    requires !n.List? && CandidatesWellFormed(n)
    decreases n, 1, 0
  {
    var nodePath := NodePath(path, n);
    var (selected, next) :=
      if n.Choice? && !n.requirement.optional then SelectFrom(n, 0, ctx, nodePath, env) else (true, ctx);
    if !selected then (false, next)
    else (n.requirement.optional || ValueAccepted(env, next, n.requirement, nodePath), next)
  }

  /**
    The loop over the candidates of choice `n` from index `j` on: the first
    whose subtree validates is fulfilled at `nodePath` and ends the loop.
    Whether one was found, and the context afterwards.
   */
  function SelectFrom(n: Tree, j: nat, ctx: Context, nodePath: string, env: Collaborators): (bool, Context)
    requires n.Choice? && CandidatesWellFormed(n) && j <= |n.candidates|
    decreases n, 0, |n.candidates| - j
  {
    if j == |n.candidates| then (false, ctx)
    else
      assert n.candidates[j] in n.candidates;
      var (ok, next) := ValidateFrom(n.candidates[j].1, 0, ctx, nodePath, env);
      if ok then (true, Fulfill(env, next, n.candidates[j].0, n.requirement, nodePath))
      else SelectFrom(n, j + 1, next, nodePath, env)
  }

  // ---------------------------------------------------------------------
  // Plain requirements and optional choices.
  // ---------------------------------------------------------------------

  /**
    A leaf commits nothing; it passes exactly when its requirement is
    optional or the value at its path exists and validates.
   */
  lemma LeafValidation(r: Requirement, ctx: Context, path: string, env: Collaborators)
    ensures ValidateNode(Leaf(r), ctx, path, env).1 == ctx
    ensures ValidateNode(Leaf(r), ctx, path, env).0 <==>
              r.optional || (path + ConfigSeparator + r.name in ctx.config &&
                             env.validate(r, ctx.config[path + ConfigSeparator + r.name], ctx.config))
  {
  }

  /** An optional choice skips candidate selection and commits nothing; it always passes. */
  lemma OptionalChoiceSkipsSelection(n: Tree, ctx: Context, path: string, env: Collaborators)
    requires n.Choice? && n.requirement.optional && CandidatesWellFormed(n)
    ensures ValidateNode(n, ctx, path, env).0
    ensures ValidateNode(n, ctx, path, env).1 == ctx
  {
  }

  /**
    A list of leaves commits nothing, and passes exactly when every
    non-optional leaf's value exists and validates.
   */
  lemma {:induction false} LeavesValidation(t: Tree, i: nat, ctx: Context, path: string, env: Collaborators)
    requires WellFormed(t) && i <= |t.children|
    requires forall c :: c in t.children ==> c.Leaf?
    ensures ValidateFrom(t, i, ctx, path, env).1 == ctx
    ensures ValidateFrom(t, i, ctx, path, env).0 <==>
              forall m :: i <= m < |t.children| ==>
                t.children[m].requirement.optional || ValueAccepted(env, ctx, t.children[m].requirement, NodePath(path, t.children[m]))
    decreases |t.children| - i
  {
    if i < |t.children| {
      assert t.children[i] in t.children;
      LeavesValidation(t, i + 1, ctx, path, env);
    }
  }

  // ---------------------------------------------------------------------
  // The list loop stops at the first failing child.
  // ---------------------------------------------------------------------

  /**
    Children `i` to `m - 1` of list `t`, each validated in the context the
    previous one left, stopping at the first that fails: whether all of
    them passed, and the context afterwards.
   */
  function Passes(t: Tree, i: nat, m: nat, ctx: Context, path: string, env: Collaborators): (bool, Context)
    requires WellFormed(t) && i <= m <= |t.children|
    decreases m - i
  {
    if i == m then (true, ctx)
    else
      assert t.children[i] in t.children;
      var (ok, next) := ValidateNode(t.children[i], ctx, path, env);
      if ok then Passes(t, i + 1, m, next, path, env) else (false, next)
  }

  /**
    The loop over a list's children returns true exactly when every child
    passes in the context its predecessors left; the first child that fails
    ends the loop, so no later sibling is selected or committed, and the
    context is the one that child's own validation left.
   */
  lemma {:induction false} ListStopsAtFirstFailure(t: Tree, i: nat, ctx: Context, path: string, env: Collaborators)
    requires WellFormed(t) && i <= |t.children|
    ensures ValidateFrom(t, i, ctx, path, env) == Passes(t, i, |t.children|, ctx, path, env)
    ensures ValidateFrom(t, i, ctx, path, env).0 <==>
              forall m :: i <= m < |t.children| && Passes(t, i, m, ctx, path, env).0 ==>
                ValidateNode(t.children[m], Passes(t, i, m, ctx, path, env).1, path, env).0
    ensures forall m :: i <= m < |t.children| && Passes(t, i, m, ctx, path, env).0 &&
                        !ValidateNode(t.children[m], Passes(t, i, m, ctx, path, env).1, path, env).0 ==>
              ValidateFrom(t, i, ctx, path, env) ==
                (false, ValidateNode(t.children[m], Passes(t, i, m, ctx, path, env).1, path, env).1)
    decreases |t.children| - i
  {
    if i < |t.children| {
      assert t.children[i] in t.children;
      var (ok, next) := ValidateNode(t.children[i], ctx, path, env);
      assert Passes(t, i, i, ctx, path, env) == (true, ctx);
      if ok {
        ListStopsAtFirstFailure(t, i + 1, next, path, env);
        forall m | i < m <= |t.children|
          ensures Passes(t, i, m, ctx, path, env) == Passes(t, i + 1, m, next, path, env)
        {
        }
      } else {
        forall m | i < m <= |t.children|
          ensures !Passes(t, i, m, ctx, path, env).0
        {
        }
      }
    }
  }

  // ---------------------------------------------------------------------
  // Where commits happen.
  // ---------------------------------------------------------------------

  /** `q` lies strictly below `path` in the configuration namespace. */
  predicate Under(path: string, q: string)
  {
    |path| + |ConfigSeparator| <= |q| && q[..|path| + |ConfigSeparator|] == path + ConfigSeparator
  }

  /** The path of a node lies below its parent's, and so does everything below the node. */
  lemma UnderNodePath(path: string, n: Tree, q: string)
    requires !n.List?
    ensures Under(path, NodePath(path, n))
    ensures Under(NodePath(path, n), q) ==> Under(path, q)
  {
    var np := NodePath(path, n);
    assert np[..|path| + |ConfigSeparator|] == path + ConfigSeparator;
    if Under(np, q) {
      assert q[..|path| + |ConfigSeparator|] == q[..|np| + |ConfigSeparator|][..|path| + |ConfigSeparator|];
    }
  }

  /** `after` keeps every record of `before` and adds only commits at paths below `path`. */
  predicate CommitsBelow(before: Context, after: Context, path: string)
  {
    |before.fulfilled| <= |after.fulfilled| &&
    after.fulfilled[..|before.fulfilled|] == before.fulfilled &&
    forall m :: |before.fulfilled| <= m < |after.fulfilled| ==> Under(path, after.fulfilled[m].path)
  }

  lemma CommitsBelowTransitive(a: Context, b: Context, c: Context, path: string)
    requires CommitsBelow(a, b, path) && CommitsBelow(b, c, path)
    ensures CommitsBelow(a, c, path)
  {
    assert c.fulfilled[..|a.fulfilled|] == c.fulfilled[..|b.fulfilled|][..|a.fulfilled|];
    forall m | |a.fulfilled| <= m < |c.fulfilled| ensures Under(path, c.fulfilled[m].path) {
      if m < |b.fulfilled| {
        assert c.fulfilled[m] == c.fulfilled[..|b.fulfilled|][m];
      }
    }
  }

  /** Validating the children of a list at `path` only commits below `path`, and forgets no earlier commit. */
  lemma {:induction false} ValidateCommitsBelow(t: Tree, i: nat, ctx: Context, path: string, env: Collaborators)
    requires WellFormed(t) && i <= |t.children|
    ensures CommitsBelow(ctx, ValidateFrom(t, i, ctx, path, env).1, path)
    decreases t, 2, |t.children| - i
  {
    if i < |t.children| {
      var n := t.children[i];
      assert n in t.children;
      NodeCommitsBelow(n, ctx, path, env);
      var next := ValidateNode(n, ctx, path, env).1;
      if ValidateNode(n, ctx, path, env).0 {
        ValidateCommitsBelow(t, i + 1, next, path, env);
        CommitsBelowTransitive(ctx, next, ValidateFrom(t, i + 1, next, path, env).1, path);
      }
    }
  }

  lemma {:induction false} NodeCommitsBelow(n: Tree, ctx: Context, path: string, env: Collaborators)
    requires !n.List? && CandidatesWellFormed(n)
    ensures CommitsBelow(ctx, ValidateNode(n, ctx, path, env).1, path)
    decreases n, 1, 0
  {
    if n.Choice? && !n.requirement.optional {
      var np := NodePath(path, n);
      SelectCommits(n, 0, ctx, np, env);
      var after := SelectFrom(n, 0, ctx, np, env).1;
      forall m | |ctx.fulfilled| <= m < |after.fulfilled| ensures Under(path, after.fulfilled[m].path) {
        UnderNodePath(path, n, after.fulfilled[m].path);
      }
    }
  }

  /** The number of commits in `log` made at exactly `path`. */
  function CountAt(log: seq<Fulfilment>, path: string): nat
  {
    if log == [] then 0
    else CountAt(log[..|log| - 1], path) + (if log[|log| - 1].path == path then 1 else 0)
  }

  lemma {:induction false} CountAtNoneBelow(log: seq<Fulfilment>, k: nat, path: string)
    requires k <= |log|
    requires forall m :: k <= m < |log| ==> Under(path, log[m].path)
    ensures CountAt(log, path) == CountAt(log[..k], path)
  {
    if |log| > k {
      assert log[..|log| - 1][..k] == log[..k];
      CountAtNoneBelow(log[..|log| - 1], k, path);
    } else {
      assert log[..k] == log;
    }
  }

  /**
    Candidate selection at `nodePath` keeps the earlier log, commits
    elsewhere only below `nodePath`, and commits at `nodePath` itself exactly
    once when it finds a candidate (the last record, for that candidate's
    provider) and never when it does not.
   */
  lemma {:induction false} SelectCommits(n: Tree, j: nat, ctx: Context, nodePath: string, env: Collaborators)
    requires n.Choice? && CandidatesWellFormed(n) && j <= |n.candidates|
    ensures var (found, after) := SelectFrom(n, j, ctx, nodePath, env);
      |ctx.fulfilled| <= |after.fulfilled| && after.fulfilled[..|ctx.fulfilled|] == ctx.fulfilled &&
      (forall m :: |ctx.fulfilled| <= m < |after.fulfilled| ==>
         Under(nodePath, after.fulfilled[m].path) || after.fulfilled[m].path == nodePath) &&
      CountAt(after.fulfilled, nodePath) == CountAt(ctx.fulfilled, nodePath) + (if found then 1 else 0) &&
      (found ==> exists k :: j <= k < |n.candidates| &&
                   after.fulfilled[|after.fulfilled| - 1] == Fulfilment(n.candidates[k].0, n.requirement, nodePath))
    decreases n, 0, |n.candidates| - j
  {
    if j < |n.candidates| {
      assert n.candidates[j] in n.candidates;
      var sub := n.candidates[j].1;
      ValidateCommitsBelow(sub, 0, ctx, nodePath, env);
      var (ok, next) := ValidateFrom(sub, 0, ctx, nodePath, env);
      CountAtNoneBelow(next.fulfilled, |ctx.fulfilled|, nodePath);
      if ok {
        var after := Fulfill(env, next, n.candidates[j].0, n.requirement, nodePath);
        assert after.fulfilled[..|next.fulfilled|] == next.fulfilled;
        assert after.fulfilled[..|ctx.fulfilled|] == next.fulfilled[..|ctx.fulfilled|];
      } else {
        SelectCommits(n, j + 1, next, nodePath, env);
        var after := SelectFrom(n, j + 1, next, nodePath, env).1;
        assert after.fulfilled[..|ctx.fulfilled|] == after.fulfilled[..|next.fulfilled|][..|ctx.fulfilled|];
        forall m | |ctx.fulfilled| <= m < |after.fulfilled|
          ensures Under(nodePath, after.fulfilled[m].path) || after.fulfilled[m].path == nodePath
        {
          if m < |next.fulfilled| {
            assert after.fulfilled[m] == after.fulfilled[..|next.fulfilled|][m];
          }
        }
      }
    }
  }

  // ---------------------------------------------------------------------
  // Which candidate is committed.
  // ---------------------------------------------------------------------

  /**
    Candidates `j` to `k - 1` of choice `n`, each validated in turn in the
    context the previous attempt left: whether every one of them failed, and
    the context after the last attempt.
   */
  function AllFail(n: Tree, j: nat, k: nat, ctx: Context, nodePath: string, env: Collaborators): (bool, Context)
    requires n.Choice? && CandidatesWellFormed(n) && j <= k <= |n.candidates|
    decreases k - j
  {
    if j == k then (true, ctx)
    else
      var (ok, next) := ValidateFrom(n.candidates[j].1, 0, ctx, nodePath, env);
      if ok then (false, next) else AllFail(n, j + 1, k, next, nodePath, env)
  }

  /** Selection passes over a run of failing candidates without committing anything for them. */
  lemma {:induction false} SelectSkipsFailures(n: Tree, j: nat, k: nat, ctx: Context, nodePath: string, env: Collaborators)
    requires n.Choice? && CandidatesWellFormed(n) && j <= k <= |n.candidates|
    requires AllFail(n, j, k, ctx, nodePath, env).0
    ensures SelectFrom(n, j, ctx, nodePath, env) == SelectFrom(n, k, AllFail(n, j, k, ctx, nodePath, env).1, nodePath, env)
    decreases k - j
  {
    if j < k {
      var next := ValidateFrom(n.candidates[j].1, 0, ctx, nodePath, env).1;
      SelectSkipsFailures(n, j + 1, k, next, nodePath, env);
    }
  }

  /**
    `validate_dependencies` fulfils the first candidate that validates: the
    choice goes unfulfilled exactly when every candidate fails, leaving the
    context the failed attempts left; otherwise it is fulfilled for the
    candidate `k` before which every candidate failed and whose subtree
    validates in the context those failures left, and for no other.
   */
  lemma SelectFirstValid(n: Tree, ctx: Context, nodePath: string, env: Collaborators)
    requires n.Choice? && CandidatesWellFormed(n)
    ensures var (found, after) := SelectFrom(n, 0, ctx, nodePath, env);
      (!found <==> AllFail(n, 0, |n.candidates|, ctx, nodePath, env).0) &&
      (!found ==> after == AllFail(n, 0, |n.candidates|, ctx, nodePath, env).1)
    ensures forall k :: 0 <= k < |n.candidates| && AllFail(n, 0, k, ctx, nodePath, env).0 &&
                        ValidateFrom(n.candidates[k].1, 0, AllFail(n, 0, k, ctx, nodePath, env).1, nodePath, env).0 ==>
              SelectFrom(n, 0, ctx, nodePath, env) ==
                (true, Fulfill(env, ValidateFrom(n.candidates[k].1, 0, AllFail(n, 0, k, ctx, nodePath, env).1, nodePath, env).1,
                               n.candidates[k].0, n.requirement, nodePath))
  {
    forall k | 0 <= k < |n.candidates| && AllFail(n, 0, k, ctx, nodePath, env).0
      ensures SelectFrom(n, 0, ctx, nodePath, env) == SelectFrom(n, k, AllFail(n, 0, k, ctx, nodePath, env).1, nodePath, env)
    {
      SelectSkipsFailures(n, 0, k, ctx, nodePath, env);
    }
    FirstValidExists(n, 0, ctx, nodePath, env);
  }

  /**
    Either every candidate from `j` on fails, and selection ends where those
    failures left the context, or some candidate is the first from `j` on to
    validate.
   */
  lemma {:induction false} FirstValidExists(n: Tree, j: nat, ctx: Context, nodePath: string, env: Collaborators)
    requires n.Choice? && CandidatesWellFormed(n) && j <= |n.candidates|
    ensures var (found, after) := SelectFrom(n, j, ctx, nodePath, env);
      (!found ==> AllFail(n, j, |n.candidates|, ctx, nodePath, env) == (true, after)) &&
      (found ==> !AllFail(n, j, |n.candidates|, ctx, nodePath, env).0) &&
      (found ==> exists k :: j <= k < |n.candidates| && AllFail(n, j, k, ctx, nodePath, env).0 &&
                   ValidateFrom(n.candidates[k].1, 0, AllFail(n, j, k, ctx, nodePath, env).1, nodePath, env).0)
    decreases |n.candidates| - j
  {
    if j < |n.candidates| {
      var (ok, next) := ValidateFrom(n.candidates[j].1, 0, ctx, nodePath, env);
      if ok {
        assert AllFail(n, j, j, ctx, nodePath, env) == (true, ctx);
      } else {
        FirstValidExists(n, j + 1, next, nodePath, env);
        assert AllFail(n, j, |n.candidates|, ctx, nodePath, env) == AllFail(n, j + 1, |n.candidates|, next, nodePath, env);
        if SelectFrom(n, j, ctx, nodePath, env).0 {
          var k :| j + 1 <= k < |n.candidates| && AllFail(n, j + 1, k, next, nodePath, env).0 &&
                   ValidateFrom(n.candidates[k].1, 0, AllFail(n, j + 1, k, next, nodePath, env).1, nodePath, env).0;
          assert AllFail(n, j, k, ctx, nodePath, env) == AllFail(n, j + 1, k, next, nodePath, env);
        }
      }
    }
  }

  /**
    A non-optional choice is fulfilled exactly once at its own path when some
    candidate validates, and not at all when every candidate fails; it passes
    exactly when it was fulfilled and the value then stored at its path
    exists and validates.
   */
  lemma ChoiceFulfilledOnce(n: Tree, ctx: Context, path: string, env: Collaborators)
    requires n.Choice? && !n.requirement.optional && CandidatesWellFormed(n)
    ensures var (ok, after) := ValidateNode(n, ctx, path, env);
      var found := !AllFail(n, 0, |n.candidates|, ctx, NodePath(path, n), env).0;
      (ok <==> found && ValueAccepted(env, after, n.requirement, NodePath(path, n))) &&
      CountAt(after.fulfilled, NodePath(path, n)) == CountAt(ctx.fulfilled, NodePath(path, n)) + (if found then 1 else 0)
  {
    SelectCommits(n, 0, ctx, NodePath(path, n), env);
    SelectFirstValid(n, ctx, NodePath(path, n), env);
  }

  /**
    A node whose `optional` property holds never fails and commits nothing:
    an optional choice is not selected and an optional value is not
    required.
   */
  lemma OptionalNodePasses(t: Tree, ctx: Context, path: string, env: Collaborators)
    requires !t.List? && CandidatesWellFormed(t) && Optional(t)
    ensures ValidateNode(t, ctx, path, env) == (true, ctx)
  {
  }
}
