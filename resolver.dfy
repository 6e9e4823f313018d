/**
  `DependencyResolver`: the registry state built once at construction, and
  the imperative `satisfies`, `build_tree` and `validate_dependencies`, each
  proved to compute what the specification modules define.
 */
module DepResolver {
  import opened Capability
  import opened Configuration
  import opened Registry
  import opened RequirementTree
  import opened TreeBuilder
  import opened Validation

  /**
    `satisfies(provider, requirement)`: loops over the constraints, and for
    each key the provider declares folds the overlap into `satisfied`.
   */
  method Satisfies(p: Provider, req: Requirement) returns (satisfied: bool)
    requires req.Constraint?
    ensures satisfied == Satisfied(p, req)
  {
    satisfied := true;
    var todo := req.constraints.Keys;
    ghost var done: set<Key> := {};
    while todo != {}
      invariant todo + done == req.constraints.Keys && todo !! done
      invariant satisfied <==> forall k :: k in done && k in p.capabilities ==> Overlaps(p.capabilities[k], req.constraints[k])
      decreases todo
    {
      var k :| k in todo;
      if k in p.capabilities {
        satisfied := satisfied && CommonProvision(p.capabilities[k], req.constraints[k]) != {};
      }
      todo := todo - {k};
      done := done + {k};
    }
  }

  /**
    `sorted(list(cache), key = lambda x: -x.priority)`: the providers of
    `cache`, taken in any order, each inserted after those of priority at
    least its own.
   */
  method SortByPriority(cache: set<Provider>) returns (sorted: seq<Provider>)
    ensures NonIncreasing(sorted)
    ensures multiset(sorted) == multiset(cache)
  {
    sorted := [];
    var todo := cache;
    while todo != {}
      invariant todo <= cache
      invariant NonIncreasing(sorted)
      invariant multiset(sorted) + multiset(todo) == multiset(cache)
      decreases todo
    {
      var p :| p in todo;
      InsertByPriorityOrdered(sorted, p);
      InsertByPriorityPermutes(sorted, p);
      sorted := InsertByPriority(sorted, p);
      assert multiset(todo - {p}) + multiset{p} == multiset(todo);
      todo := todo - {p};
    }
  }

  class DependencyResolver {
    /** The source's `self.provides`: every declared capability key with the union of its tokens. */
    var provided: map<Key, set<Token>>
    /** The source's `self.providers_cache`: the declaring providers, highest priority first. */
    var providersCache: seq<Provider>

    /** `__init__`: builds the caches from the known providers and sorts them by descending priority. */
    constructor (providers: seq<Provider>)
      ensures provided == Index(providers)
      ensures NonIncreasing(providersCache)
      ensures multiset(providersCache) == multiset(Declaring(providers))
    {
      provided := map[];
      providersCache := [];
      new;
      var cache := BuildCaches(providers);
      providersCache := SortByPriority(cache);
    }

    /**
      `_build_caches`: merges every provider's declared capabilities into
      `provided` and returns the providers that declare at least one.
     */
    method BuildCaches(providers: seq<Provider>) returns (cache: set<Provider>)
      modifies this
      ensures provided == Index(providers)
      ensures cache == Declaring(providers)
      ensures providersCache == old(providersCache)
    {
      provided := map[];
      cache := {};
      var i := 0;
      while i < |providers|
        invariant i <= |providers|
        invariant provided == Index(providers[..i])
        invariant cache == Declaring(providers[..i])
        invariant providersCache == old(providersCache)
      {
        var declares := MergeProvider(providers[i]);
        if declares {
          cache := cache + {providers[i]};
        }
        IndexStep(providers, i);
        DeclaringStep(providers, i);
        i := i + 1;
      }
      assert providers[..|providers|] == providers;
    }

    /**
      The body of `_build_caches`' loop for one provider: each declared
      value, a single token or a list of them, is added to the tokens
      recorded under its key; `declares` tells whether the provider was
      added to the cache, which happens once it has any entry.
     */
    method MergeProvider(provider: Provider) returns (declares: bool)
      modifies this
      ensures provided == MergeKeys(old(provided), provider, provider.capabilities.Keys)
      ensures declares <==> provider.capabilities != map[]
      ensures providersCache == old(providersCache)
    {
      declares := false;
      var todo := provider.capabilities.Keys;
      ghost var done: set<Key> := {};
      MergeKeysNone(provided, provider);
      while todo != {}
        invariant todo + done == provider.capabilities.Keys && todo !! done
        invariant provided == MergeKeys(old(provided), provider, done)
        invariant declares <==> done != {}
        invariant providersCache == old(providersCache)
        decreases todo
      {
        var k :| k in todo;
        var newV: set<Token>;
        match provider.capabilities[k] {
          case Single(v) =>
            newV := Lookup(provided, k) + {v};
          case Many(vs) =>
            newV := Lookup(provided, k) + (set v | v in vs);
        }
        MergeKeysStep(old(provided), provider, done, k);
        provided := provided[k := newV];
        declares := true;
        todo := todo - {k};
        done := done + {k};
      }
      assert done == provider.capabilities.Keys;
    }

    /**
      `build_tree(configurable)` for a configurable with schema `schema`,
      with `depth` nested calls allowed.
     */
    method BuildTree(schema: seq<Requirement>, depth: nat) returns (r: Result<Tree>)
      ensures r == TreeBuilder.BuildTree(providersCache, schema, depth)
      decreases depth
    {
      if depth == 0 {
        return Err(RecursionLimit);
      }
      var deptree: seq<Tree> := [];
      var i := 0;
      while i < |schema|
        invariant i <= |schema|
        invariant BuildNodes(providersCache, schema, 0, [], depth - 1) == BuildNodes(providersCache, schema, i, deptree, depth - 1)
      {
        var subreq := schema[i];
        if subreq.Plain? {
          deptree := deptree + [Leaf(subreq)];
        } else {
          var candidates: seq<(Provider, Tree)> := [];
          var satisfiable := false;
          var k := 0;
          while k < |providersCache|
            invariant k <= |providersCache|
            invariant satisfiable <==> candidates != []
            invariant Candidates(providersCache, subreq, 0, [], depth - 1) == Candidates(providersCache, subreq, k, candidates, depth - 1)
          {
            var potential := providersCache[k];
            var ok := Satisfies(potential, subreq);
            if ok {
              var candidate := BuildTree(potential.schema, depth - 1);
              match candidate {
                case Ok(sub) =>
                  candidates := candidates + [(potential, sub)];
                  satisfiable := true;
                case Err(DependencyError(_)) =>
                case Err(RecursionLimit) =>
                  return Err(RecursionLimit);
              }
            }
            k := k + 1;
          }
          if !satisfiable {
            return Err(DependencyError(subreq));
          }
          if candidates != [] {
            deptree := deptree + [Choice(subreq, candidates)];
          }
        }
        i := i + 1;
      }
      return Ok(List(deptree));
    }

    /**
      `validate_dependencies(deptree, context, path)`: picks and fulfils a
      candidate for every non-optional choice, checks every child's stored
      value, and stops at the first non-optional failure.
     */
    method ValidateDependencies(deptree: Tree, ctx: Context, path: string, env: Collaborators) returns (ok: bool, after: Context)
      requires WellFormed(deptree)
      ensures ok == ValidateFrom(deptree, 0, ctx, path, env).0
      ensures after == ValidateFrom(deptree, 0, ctx, path, env).1
      decreases deptree
    {
      after := ctx;
      var i := 0;
      while i < |deptree.children|
        invariant i <= |deptree.children|
        invariant ValidateFrom(deptree, 0, ctx, path, env) == ValidateFrom(deptree, i, after, path, env)
      {
        var node := deptree.children[i];
        assert node in deptree.children;
        var nodePath := path + ConfigSeparator + node.requirement.name;
        if node.Choice? && !node.requirement.optional {
          var found := false;
          ghost var atNode := after;
          var j := 0;
          while j < |node.candidates|
            invariant j <= |node.candidates|
            invariant SelectFrom(node, 0, atNode, nodePath, env) == SelectFrom(node, j, after, nodePath, env)
          {
            assert node.candidates[j] in node.candidates;
            var (provider, subtree) := node.candidates[j];
            var valid, next := ValidateDependencies(subtree, after, nodePath, env);
            after := next;
            if valid {
              after := Fulfill(env, after, provider, node.requirement, nodePath);
              found := true;
              break;
            }
            j := j + 1;
          }
          if !found {
            return false, after;
          }
        }
        var accepted := false;
        if nodePath in after.config {
          var value := after.config[nodePath];
          accepted := env.validate(node.requirement, value, after.config);
        }
        if !accepted && !node.requirement.optional {
          return false, after;
        }
        i := i + 1;
      }
      return true, after;
    }
  }
}
