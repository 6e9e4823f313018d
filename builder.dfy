/**
  What `build_tree` computes, as functions over the priority-ordered
  provider list `cache`, and what is proved about it.

  `depth` bounds how many `build_tree` calls may be nested.  Running out of
  it gives `RecursionLimit`, which stands for the RecursionError a cyclic
  provider schema ends in: like that error, and unlike `DependencyError`,
  it is not caught by the candidate loop.
 */
module TreeBuilder {
  import opened Capability
  import opened Configuration
  import opened Registry
  import opened RequirementTree

  /** Why building failed: no candidate for a requirement, or the nesting bound was reached. */
  datatype BuildError = DependencyError(requirement: Requirement) | RecursionLimit

  datatype Result<T> = Ok(value: T) | Err(error: BuildError)

  /** `build_tree` for a configurable with schema `schema`. */
  function BuildTree(cache: seq<Provider>, schema: seq<Requirement>, depth: nat): Result<Tree>
    decreases depth, 0, 0
  {
    if depth == 0 then Err(RecursionLimit)
    else
      match BuildNodes(cache, schema, 0, [], depth - 1)
      case Ok(nodes) => Ok(List(nodes))
      case Err(e) => Err(e)
  }

  /** The loop over the schema: the nodes for `schema[i..]` appended to `acc`, or the first error. */
  function BuildNodes(cache: seq<Provider>, schema: seq<Requirement>, i: nat, acc: seq<Tree>, depth: nat): Result<seq<Tree>>
    requires i <= |schema|
    decreases depth, 3, |schema| - i
  {
    if i == |schema| then Ok(acc)
    else
      match Resolve(cache, schema[i], depth)
      case Ok(node) => BuildNodes(cache, schema, i + 1, acc + [node], depth)
      case Err(e) => Err(e)
  }

  /**
    The node for one schema entry: a leaf for a plain requirement; for a
    constrained one a choice over its candidates, or `DependencyError` when
    there are none, optional or not.
   */
  function Resolve(cache: seq<Provider>, req: Requirement, depth: nat): Result<Tree>
    decreases depth, 2, 0
  {
    match req
    case Plain(_, _) => Ok(Leaf(req))
    case Constraint(_, _, _) =>
      match Candidates(cache, req, 0, [], depth)
      case Err(e) => Err(e)
      case Ok(cs) => if cs == [] then Err(DependencyError(req)) else Ok(Choice(req, cs))
  }

  /**
    The loop over the providers: `acc` extended with every provider of
    `cache[k..]` that satisfies `req` and whose own tree builds.  A
    `DependencyError` drops that provider only.
   */
  function Candidates(cache: seq<Provider>, req: Requirement, k: nat, acc: seq<(Provider, Tree)>, depth: nat): Result<seq<(Provider, Tree)>>
    requires req.Constraint? && k <= |cache|
    decreases depth, 1, |cache| - k
  {
    if k == |cache| then Ok(acc)
    else if !Satisfied(cache[k], req) then Candidates(cache, req, k + 1, acc, depth)
    else
      match BuildTree(cache, cache[k].schema, depth)
      case Ok(sub) => Candidates(cache, req, k + 1, acc + [(cache[k], sub)], depth)
      case Err(DependencyError(_)) => Candidates(cache, req, k + 1, acc, depth)
      case Err(RecursionLimit) => Err(RecursionLimit)
  }

  // ---------------------------------------------------------------------
  // The candidates of a requirement, defined as a filter.
  // ---------------------------------------------------------------------

  /** A provider is a candidate: it satisfies `req` and its own tree builds. */
  predicate IsCandidate(cache: seq<Provider>, p: Provider, req: Requirement, depth: nat)
    requires req.Constraint?
  {
    Satisfied(p, req) && BuildTree(cache, p.schema, depth).Ok?
  }

  /** The candidates among `ps`, in the order of `ps`, each with its tree. */
  function Survivors(cache: seq<Provider>, ps: seq<Provider>, req: Requirement, depth: nat): seq<(Provider, Tree)>
    requires req.Constraint?
  {
    if ps == [] then []
    else
      (if IsCandidate(cache, ps[0], req, depth) then [(ps[0], BuildTree(cache, ps[0].schema, depth).value)] else [])
      + Survivors(cache, ps[1..], req, depth)
  }

  /** No provider among `ps` that satisfies `req` runs out of nesting depth. */
  predicate WithinDepth(cache: seq<Provider>, ps: seq<Provider>, req: Requirement, depth: nat)
    requires req.Constraint?
  {
    forall p :: p in ps && Satisfied(p, req) ==> BuildTree(cache, p.schema, depth) != Err(RecursionLimit)
  }

  /** Each survivor is a candidate from `ps`, paired with its own tree. */
  lemma {:induction false} SurvivorsAreCandidates(cache: seq<Provider>, ps: seq<Provider>, req: Requirement, depth: nat)
    requires req.Constraint?
    ensures forall j :: 0 <= j < |Survivors(cache, ps, req, depth)| ==>
              var (p, sub) := Survivors(cache, ps, req, depth)[j];
              p in ps && IsCandidate(cache, p, req, depth) && BuildTree(cache, p.schema, depth) == Ok(sub)
  {
    if ps != [] {
      SurvivorsAreCandidates(cache, ps[1..], req, depth);
    }
  }

  /** Every candidate in `ps` survives. */
  lemma {:induction false} CandidatesSurvive(cache: seq<Provider>, ps: seq<Provider>, req: Requirement, depth: nat, p: Provider)
    requires req.Constraint? && p in ps && IsCandidate(cache, p, req, depth)
    ensures exists j :: 0 <= j < |Survivors(cache, ps, req, depth)| && Survivors(cache, ps, req, depth)[j].0 == p
  {
    var s := Survivors(cache, ps, req, depth);
    if ps[0] == p {
      assert s[0].0 == p;
    } else {
      CandidatesSurvive(cache, ps[1..], req, depth, p);
      var rest := Survivors(cache, ps[1..], req, depth);
      var j :| 0 <= j < |rest| && rest[j].0 == p;
      assert s[|s| - |rest| + j] == rest[j];
    }
  }

  /**
    Every survivor's provider is drawn from `ps`.  This is the `p in ps`
    part of `SurvivorsAreCandidates`, kept apart because it needs no
    unfolding of `BuildTree`, which keeps the ordering proofs that use it
    small.
   */
  lemma {:induction false} SurvivorsFrom(cache: seq<Provider>, ps: seq<Provider>, req: Requirement, depth: nat)
    requires req.Constraint?
    ensures forall j :: 0 <= j < |Survivors(cache, ps, req, depth)| ==> Survivors(cache, ps, req, depth)[j].0 in ps
  {
    if ps != [] {
      SurvivorsFrom(cache, ps[1..], req, depth);
      var s := Survivors(cache, ps, req, depth);
      var rest := Survivors(cache, ps[1..], req, depth);
      forall j | 0 <= j < |s| ensures s[j].0 in ps {
        if j >= |s| - |rest| {
          assert s[j] == rest[j - (|s| - |rest|)];
        }
      }
    }
  }

  /** In a priority-ordered list nothing after the head outranks it. */
  lemma HeadOutranksTail(ps: seq<Provider>)
    requires ps != [] && NonIncreasing(ps)
    ensures forall q :: q in ps[1..] ==> q.priority <= ps[0].priority
  {
    forall q | q in ps[1..] ensures q.priority <= ps[0].priority {
      var m :| 0 <= m < |ps[1..]| && ps[1..][m] == q;
      assert ps[m + 1] == q;
    }
  }

  /** Priorities do not increase along the providers of `s`. */
  predicate PairsOrdered(s: seq<(Provider, Tree)>)
  {
    forall i, j :: 0 <= i < j < |s| ==> s[i].0.priority >= s[j].0.priority
  }

  /** A pair that outranks every pair of an ordered sequence can lead it. */
  lemma PrependOrdered(x: (Provider, Tree), rest: seq<(Provider, Tree)>)
    requires PairsOrdered(rest)
    requires forall j :: 0 <= j < |rest| ==> rest[j].0.priority <= x.0.priority
    ensures PairsOrdered([x] + rest)
  {
    var s := [x] + rest;
    forall i, j | 0 <= i < j < |s| ensures s[i].0.priority >= s[j].0.priority {
      assert s[j] == rest[j - 1];
      if i > 0 { assert s[i] == rest[i - 1]; }
    }
  }

  /** Survivors keep the order of `ps`: from a priority-ordered list they come out priority-ordered. */
  lemma {:induction false} SurvivorsOrdered(cache: seq<Provider>, ps: seq<Provider>, req: Requirement, depth: nat)
    requires req.Constraint? && NonIncreasing(ps)
    ensures PairsOrdered(Survivors(cache, ps, req, depth))
  {
    if ps != [] {
      var rest := Survivors(cache, ps[1..], req, depth);
      assert NonIncreasing(ps[1..]);
      SurvivorsOrdered(cache, ps[1..], req, depth);
      if IsCandidate(cache, ps[0], req, depth) {
        var x := (ps[0], BuildTree(cache, ps[0].schema, depth).value);
        SurvivorsFrom(cache, ps[1..], req, depth);
        HeadOutranksTail(ps);
        PrependOrdered(x, rest);
        assert Survivors(cache, ps, req, depth) == [x] + rest;
      } else {
        assert Survivors(cache, ps, req, depth) == [] + rest;
      }
    }
  }

  /** Candidates are keyed by provider: from a list without repeats, no provider survives twice. */
  lemma {:induction false} SurvivorsDistinct(cache: seq<Provider>, ps: seq<Provider>, req: Requirement, depth: nat)
    requires req.Constraint? && forall i, j :: 0 <= i < j < |ps| ==> ps[i] != ps[j]
    ensures forall i, j :: 0 <= i < j < |Survivors(cache, ps, req, depth)| ==>
              Survivors(cache, ps, req, depth)[i].0 != Survivors(cache, ps, req, depth)[j].0
  {
    if ps != [] {
      var s := Survivors(cache, ps, req, depth);
      var rest := Survivors(cache, ps[1..], req, depth);
      SurvivorsDistinct(cache, ps[1..], req, depth);
      SurvivorsAreCandidates(cache, ps[1..], req, depth);
      if IsCandidate(cache, ps[0], req, depth) {
        assert s == [s[0]] + rest;
        forall i, j | 0 <= i < j < |s| ensures s[i].0 != s[j].0 {
          assert s[j] == rest[j - 1];
          if i > 0 {
            assert s[i] == rest[i - 1];
          } else {
            var q := rest[j - 1].0;
            assert q in ps[1..];
            var m :| 0 <= m < |ps[1..]| && ps[1..][m] == q;
            assert ps[m + 1] == q;
          }
        }
      } else {
        assert s == rest;
      }
    }
  }

  /**
    The candidate loop computes the survivors: unless some satisfying
    provider runs out of nesting depth, it yields exactly the candidates of
    `cache[k..]`, in order, after `acc`.
   */
  lemma {:induction false} CandidatesAreSurvivors(cache: seq<Provider>, req: Requirement, k: nat, acc: seq<(Provider, Tree)>, depth: nat)
    requires req.Constraint? && k <= |cache|
    ensures Candidates(cache, req, k, acc, depth) ==
              if WithinDepth(cache, cache[k..], req, depth) then Ok(acc + Survivors(cache, cache[k..], req, depth))
              else Err(RecursionLimit)
    decreases |cache| - k
  {
    if k < |cache| {
      var p, rest := cache[k], cache[k + 1..];
      assert cache[k..] == [p] + rest;
      assert cache[k..][1..] == rest;
      assert WithinDepth(cache, cache[k..], req, depth) <==>
               (Satisfied(p, req) ==> BuildTree(cache, p.schema, depth) != Err(RecursionLimit)) &&
               WithinDepth(cache, rest, req, depth);
      if !Satisfied(p, req) {
        CandidatesAreSurvivors(cache, req, k + 1, acc, depth);
        assert Survivors(cache, cache[k..], req, depth) == Survivors(cache, rest, req, depth);
      } else {
        match BuildTree(cache, p.schema, depth)
        case Ok(sub) =>
          CandidatesAreSurvivors(cache, req, k + 1, acc + [(p, sub)], depth);
          assert acc + [(p, sub)] + Survivors(cache, rest, req, depth) == acc + ([(p, sub)] + Survivors(cache, rest, req, depth));
        case Err(DependencyError(_)) =>
          CandidatesAreSurvivors(cache, req, k + 1, acc, depth);
          assert Survivors(cache, cache[k..], req, depth) == Survivors(cache, rest, req, depth);
        case Err(RecursionLimit) =>
      }
    } else {
      assert cache[k..] == [];
      assert acc + [] == acc;
    }
  }

  /**
    A constrained requirement becomes a choice over exactly its survivors,
    which are never empty; with no survivor it fails with
    `DependencyError` naming it, whether or not it is optional.
   */
  lemma ResolveConstraint(cache: seq<Provider>, req: Requirement, depth: nat)
    requires req.Constraint? && WithinDepth(cache, cache, req, depth)
    ensures Survivors(cache, cache, req, depth) == [] ==> Resolve(cache, req, depth) == Err(DependencyError(req))
    ensures Survivors(cache, cache, req, depth) != [] ==>
              Resolve(cache, req, depth) == Ok(Choice(req, Survivors(cache, cache, req, depth)))
  {
    CandidatesAreSurvivors(cache, req, 0, [], depth);
    assert cache[0..] == cache;
    assert [] + Survivors(cache, cache, req, depth) == Survivors(cache, cache, req, depth);
  }

  // ---------------------------------------------------------------------
  // The list built from a schema.
  // ---------------------------------------------------------------------

  /** The schema loop appends one node per entry, in schema order, each the entry's own node. */
  lemma {:induction false} BuildNodesShape(cache: seq<Provider>, schema: seq<Requirement>, i: nat, acc: seq<Tree>, depth: nat, ns: seq<Tree>)
    requires i <= |schema| && BuildNodes(cache, schema, i, acc, depth) == Ok(ns)
    ensures |ns| == |acc| + |schema| - i && ns[..|acc|] == acc
    ensures forall j :: i <= j < |schema| ==> Resolve(cache, schema[j], depth) == Ok(ns[|acc| + j - i])
    decreases |schema| - i
  {
    if i < |schema| {
      var node := Resolve(cache, schema[i], depth).value;
      BuildNodesShape(cache, schema, i + 1, acc + [node], depth, ns);
      assert ns[..|acc| + 1][..|acc|] == ns[..|acc|];
    }
  }

  /** The schema loop fails exactly when some entry fails, and with the error of the first entry that does. */
  lemma {:induction false} BuildNodesError(cache: seq<Provider>, schema: seq<Requirement>, i: nat, acc: seq<Tree>, depth: nat)
    requires i <= |schema|
    ensures BuildNodes(cache, schema, i, acc, depth).Err? <==> exists j :: i <= j < |schema| && Resolve(cache, schema[j], depth).Err?
    ensures BuildNodes(cache, schema, i, acc, depth).Err? ==>
              exists j :: i <= j < |schema| && Resolve(cache, schema[j], depth) == Err(BuildNodes(cache, schema, i, acc, depth).error) &&
                forall m :: i <= m < j ==> Resolve(cache, schema[m], depth).Ok?
    decreases |schema| - i
  {
    if i < |schema| && Resolve(cache, schema[i], depth).Ok? {
      BuildNodesError(cache, schema, i + 1, acc + [Resolve(cache, schema[i], depth).value], depth);
    }
  }

  /**
    On success `build_tree` returns a list with one node per schema entry,
    in schema order: a plain entry becomes a leaf carrying it, a constrained
    entry a choice over its non-empty survivors in provider order.
   */
  lemma BuildTreeShape(cache: seq<Provider>, schema: seq<Requirement>, depth: nat, t: Tree)
    requires BuildTree(cache, schema, depth) == Ok(t)
    ensures depth > 0 && t.List? && |t.children| == |schema|
    ensures forall j :: 0 <= j < |schema| && schema[j].Plain? ==> t.children[j] == Leaf(schema[j])
    ensures forall j :: 0 <= j < |schema| && schema[j].Constraint? ==>
              Survivors(cache, cache, schema[j], depth - 1) != [] &&
              t.children[j] == Choice(schema[j], Survivors(cache, cache, schema[j], depth - 1))
  {
    BuildNodesShape(cache, schema, 0, [], depth - 1, t.children);
    forall j | 0 <= j < |schema| && schema[j].Constraint?
      ensures Survivors(cache, cache, schema[j], depth - 1) != []
      ensures t.children[j] == Choice(schema[j], Survivors(cache, cache, schema[j], depth - 1))
    {
      CandidatesAreSurvivors(cache, schema[j], 0, [], depth - 1);
      assert cache[0..] == cache;
      ResolveConstraint(cache, schema[j], depth - 1);
    }
  }

  /**
    `build_tree` fails exactly when the nesting bound is exhausted or some
    schema entry cannot be resolved; the error is that of the first such
    entry, and no partial tree is returned.
   */
  lemma BuildTreeError(cache: seq<Provider>, schema: seq<Requirement>, depth: nat)
    ensures BuildTree(cache, schema, depth).Err? <==>
              depth == 0 || exists j :: 0 <= j < |schema| && Resolve(cache, schema[j], depth - 1).Err?
    ensures depth > 0 && BuildTree(cache, schema, depth).Err? ==>
              exists j :: 0 <= j < |schema| && Resolve(cache, schema[j], depth - 1) == Err(BuildTree(cache, schema, depth).error) &&
                forall m :: 0 <= m < j ==> Resolve(cache, schema[m], depth - 1).Ok?
  {
    if depth > 0 {
      BuildNodesError(cache, schema, 0, [], depth - 1);
    }
  }

  /** A schema of plain requirements only becomes a list of leaves, whatever the providers. */
  lemma PlainSchemaLeaves(cache: seq<Provider>, other: seq<Provider>, schema: seq<Requirement>, depth: nat)
    requires depth > 0 && forall j :: 0 <= j < |schema| ==> schema[j].Plain?
    ensures BuildTree(cache, schema, depth).Ok?
    ensures BuildTree(cache, schema, depth) == BuildTree(other, schema, depth)
    ensures BuildTree(cache, schema, depth).value.List? && |BuildTree(cache, schema, depth).value.children| == |schema|
    ensures forall j :: 0 <= j < |schema| ==> BuildTree(cache, schema, depth).value.children[j] == Leaf(schema[j])
  {
    BuildNodesError(cache, schema, 0, [], depth - 1);
    var t := BuildTree(cache, schema, depth).value;
    BuildTreeShape(cache, schema, depth, t);
    BuildNodesError(other, schema, 0, [], depth - 1);
    var u := BuildTree(other, schema, depth).value;
    BuildTreeShape(other, schema, depth, u);
    assert t.children == u.children;
  }

  // ---------------------------------------------------------------------
  // The nesting bound only cuts off: a result reached within it is final.
  // ---------------------------------------------------------------------

  /** More nesting depth does not change a result that did not hit the bound. */
  lemma {:induction false} DepthStableTree(cache: seq<Provider>, schema: seq<Requirement>, depth: nat, more: nat)
    requires depth <= more && BuildTree(cache, schema, depth) != Err(RecursionLimit)
    ensures BuildTree(cache, schema, more) == BuildTree(cache, schema, depth)
    decreases depth, 0, 0
  {
    DepthStableNodes(cache, schema, 0, [], depth - 1, more - 1);
  }

  lemma {:induction false} DepthStableNodes(cache: seq<Provider>, schema: seq<Requirement>, i: nat, acc: seq<Tree>, depth: nat, more: nat)
    requires i <= |schema| && depth <= more && BuildNodes(cache, schema, i, acc, depth) != Err(RecursionLimit)
    ensures BuildNodes(cache, schema, i, acc, more) == BuildNodes(cache, schema, i, acc, depth)
    decreases depth, 3, |schema| - i
  {
    if i < |schema| {
      DepthStableResolve(cache, schema[i], depth, more);
      if Resolve(cache, schema[i], depth).Ok? {
        DepthStableNodes(cache, schema, i + 1, acc + [Resolve(cache, schema[i], depth).value], depth, more);
      }
    }
  }

  lemma {:induction false} DepthStableResolve(cache: seq<Provider>, req: Requirement, depth: nat, more: nat)
    requires depth <= more && Resolve(cache, req, depth) != Err(RecursionLimit)
    ensures Resolve(cache, req, more) == Resolve(cache, req, depth)
    decreases depth, 2, 0
  {
    if req.Constraint? {
      DepthStableCandidates(cache, req, 0, [], depth, more);
    }
  }

  lemma {:induction false} DepthStableCandidates(cache: seq<Provider>, req: Requirement, k: nat, acc: seq<(Provider, Tree)>, depth: nat, more: nat)
    requires req.Constraint? && k <= |cache| && depth <= more
    requires Candidates(cache, req, k, acc, depth) != Err(RecursionLimit)
    ensures Candidates(cache, req, k, acc, more) == Candidates(cache, req, k, acc, depth)
    decreases depth, 1, |cache| - k
  {
    if k < |cache| {
      if !Satisfied(cache[k], req) {
        DepthStableCandidates(cache, req, k + 1, acc, depth, more);
      } else {
        DepthStableTree(cache, cache[k].schema, depth, more);
        match BuildTree(cache, cache[k].schema, depth)
        case Ok(sub) => DepthStableCandidates(cache, req, k + 1, acc + [(cache[k], sub)], depth, more);
        case Err(DependencyError(_)) => DepthStableCandidates(cache, req, k + 1, acc, depth, more);
      }
    }
  }

  // ---------------------------------------------------------------------
  // What validation may assume of a built tree.
  // ---------------------------------------------------------------------

  /** Every tree `build_tree` returns has the shape validation walks, and no empty choice. */
  lemma {:induction false} BuildTreeWellFormed(cache: seq<Provider>, schema: seq<Requirement>, depth: nat, t: Tree)
    requires BuildTree(cache, schema, depth) == Ok(t)
    ensures WellFormed(t) && ChoicesNonEmpty(t)
    decreases depth
  {
    BuildTreeShape(cache, schema, depth, t);
    forall c | c in t.children
      ensures !c.List?
      ensures c.Choice? ==> forall j :: 0 <= j < |c.candidates| ==> WellFormed(c.candidates[j].1)
      ensures ChoicesNonEmpty(c)
    {
      var i :| 0 <= i < |t.children| && t.children[i] == c;
      if schema[i].Constraint? {
        var s := Survivors(cache, cache, schema[i], depth - 1);
        SurvivorsAreCandidates(cache, cache, schema[i], depth - 1);
        forall j | 0 <= j < |s| ensures WellFormed(s[j].1) && ChoicesNonEmpty(s[j].1) {
          BuildTreeWellFormed(cache, s[j].0.schema, depth - 1, s[j].1);
        }
      }
    }
  }

  // ---------------------------------------------------------------------
  // A worked example.
  // ---------------------------------------------------------------------

  /**
    A configurable needing `os = linux`, with P2 (os windows, priority 20)
    and P1 (os linux or mac, priority 10) registered: the requirement becomes
    a choice over P1 alone, although P2 is tried first.
   */
  lemma LinuxExample()
    ensures
      var req := Constraint("layer", false, map["os" := Single("linux")]);
      var p1 := Provider("P1", 10, map["os" := Many(["linux", "mac"])], []);
      var p2 := Provider("P2", 20, map["os" := Single("windows")], []);
      BuildTree([p2, p1], [req], 2) == Ok(List([Choice(req, [(p1, List([]))])]))
  {
    var req := Constraint("layer", false, map["os" := Single("linux")]);
    var p1 := Provider("P1", 10, map["os" := Many(["linux", "mac"])], []);
    var p2 := Provider("P2", 20, map["os" := Single("windows")], []);
    var cache := [p2, p1];
    assert "linux" in Normalize(p1.capabilities["os"]);
    assert "linux" in CommonProvision(p1.capabilities["os"], req.constraints["os"]);
    assert Satisfied(p1, req);
    assert !Satisfied(p2, req) by {
      assert Normalize(p2.capabilities["os"]) == {"windows"};
      assert CommonProvision(p2.capabilities["os"], req.constraints["os"]) == {};
    }
    assert BuildTree(cache, [], 1) == Ok(List([]));
    assert Candidates(cache, req, 2, [(p1, List([]))], 1) == Ok([(p1, List([]))]);
    assert [] + [(p1, List([]))] == [(p1, List([]))];
    assert Candidates(cache, req, 1, [], 1) == Ok([(p1, List([]))]);
    assert Candidates(cache, req, 0, [], 1) == Ok([(p1, List([]))]);
    assert Resolve(cache, req, 1) == Ok(Choice(req, [(p1, List([]))]));
    assert BuildNodes(cache, [req], 1, [Choice(req, [(p1, List([]))])], 1) == Ok([Choice(req, [(p1, List([]))])]);
    assert [] + [Choice(req, [(p1, List([]))])] == [Choice(req, [(p1, List([]))])];
  }
}
