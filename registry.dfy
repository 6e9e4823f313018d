/**
  The provider registry: which providers satisfy a requirement, the index of
  every declared capability, and the priority order providers are tried in.
 */
module Registry {
  import opened Capability
  import opened Configuration

  /**
    `satisfies(provider, requirement)`: every constrained key that the
    provider also declares must overlap; keys the provider does not declare
    are skipped.
   */
  predicate Satisfied(p: Provider, req: Requirement)
    requires req.Constraint?
  {
    forall k :: k in req.constraints && k in p.capabilities ==> Overlaps(p.capabilities[k], req.constraints[k])
  }

  /** A requirement without constraints is satisfied by every provider. */
  lemma EmptyConstraintsSatisfied(p: Provider, name: string, optional: bool)
    ensures Satisfied(p, Constraint(name, optional, map[]))
  {
  }

  /**
    Only the keys the provider declares matter: removing the undeclared keys
    from the constraints does not change the answer, and a provider declaring
    none of them satisfies the requirement.
   */
  lemma UndeclaredKeysIgnored(p: Provider, req: Requirement)
    requires req.Constraint?
    ensures Satisfied(p, req) <==> Satisfied(p, req.(constraints := map k | k in req.constraints && k in p.capabilities :: req.constraints[k]))
    ensures req.constraints.Keys !! p.capabilities.Keys ==> Satisfied(p, req)
  {
  }

  /** A declared key whose values are disjoint from the constraint's defeats the provider. */
  lemma DisjointDeclaredKeyFails(p: Provider, req: Requirement, k: Key)
    requires req.Constraint? && k in req.constraints && k in p.capabilities
    requires Normalize(p.capabilities[k]) !! Normalize(req.constraints[k])
    ensures !Satisfied(p, req)
  {
    assert !Overlaps(p.capabilities[k], req.constraints[k]);
  }

  // ---------------------------------------------------------------------
  // The capability index built by `_build_caches`.
  // ---------------------------------------------------------------------

  /** The tokens recorded for `k`, or none. */
  function Lookup(idx: map<Key, set<Token>>, k: Key): set<Token>
  {
    if k in idx then idx[k] else {}
  }

  /**
    The index after merging the entries of `p` whose keys are in `done`:
    each such key gains the normalised tokens `p` declares for it.
   */
  function MergeKeys(base: map<Key, set<Token>>, p: Provider, done: set<Key>): (r: map<Key, set<Token>>)
    requires done <= p.capabilities.Keys
    ensures r.Keys == base.Keys + done
  {
    map k | k in base.Keys + done :: Lookup(base, k) + (if k in done then Normalize(p.capabilities[k]) else {})
  }

  /** The index of the capabilities of `ps`, merged one provider after another. */
  function Index(ps: seq<Provider>): map<Key, set<Token>>
  {
    if ps == [] then map[]
    else
      var last := ps[|ps| - 1];
      MergeKeys(Index(ps[..|ps| - 1]), last, last.capabilities.Keys)
  }

  /** What merging a provider's entries does to the tokens recorded for one key. */
  lemma MergeKeysLookup(base: map<Key, set<Token>>, p: Provider, done: set<Key>, k: Key)
    requires done <= p.capabilities.Keys
    ensures Lookup(MergeKeys(base, p, done), k) == Lookup(base, k) + (if k in done then Normalize(p.capabilities[k]) else {})
  {
  }

  /** The index holds exactly the keys some provider declares. */
  lemma {:induction false} IndexKeys(ps: seq<Provider>, k: Key)
    ensures k in Index(ps) <==> exists j :: 0 <= j < |ps| && k in ps[j].capabilities
  {
    if ps != [] {
      var init, last := ps[..|ps| - 1], ps[|ps| - 1];
      IndexKeys(init, k);
      assert forall j :: 0 <= j < |init| ==> init[j] == ps[j];
      assert k in Index(ps) <==> k in Index(init) || k in last.capabilities;
    }
  }

  /** Under each key the index holds the union of the normalised values declared for it. */
  lemma {:induction false} IndexTokens(ps: seq<Provider>, k: Key, t: Token)
    ensures t in Lookup(Index(ps), k) <==>
              exists j :: 0 <= j < |ps| && k in ps[j].capabilities && t in Normalize(ps[j].capabilities[k])
  {
    if ps != [] {
      var init, last := ps[..|ps| - 1], ps[|ps| - 1];
      IndexTokens(init, k, t);
      MergeKeysLookup(Index(init), last, last.capabilities.Keys, k);
      assert forall j :: 0 <= j < |init| ==> init[j] == ps[j];
      if t in Lookup(Index(ps), k) && t !in Lookup(Index(init), k) {
        assert k in last.capabilities && t in Normalize(last.capabilities[k]);
        assert ps[|ps| - 1] == last;
      }
    }
  }

  /** Merging no key leaves the index as it was. */
  lemma MergeKeysNone(base: map<Key, set<Token>>, p: Provider)
    ensures MergeKeys(base, p, {}) == base
  {
    var r := MergeKeys(base, p, {});
    assert r.Keys == base.Keys;
    forall x | x in r ensures r[x] == base[x] {
      assert r[x] == Lookup(base, x) + {};
    }
  }

  /** Merging one more key of `p` updates that key alone. */
  lemma MergeKeysStep(base: map<Key, set<Token>>, p: Provider, done: set<Key>, k: Key)
    requires done <= p.capabilities.Keys && k in p.capabilities && k !in done
    ensures MergeKeys(base, p, done)[k := Lookup(MergeKeys(base, p, done), k) + Normalize(p.capabilities[k])] ==
            MergeKeys(base, p, done + {k})
  {
    var m := MergeKeys(base, p, done);
    var l := m[k := Lookup(m, k) + Normalize(p.capabilities[k])];
    var r := MergeKeys(base, p, done + {k});
    assert l.Keys == r.Keys;
    forall x | x in l ensures l[x] == r[x] {
      if x != k {
        assert l[x] == m[x];
      }
    }
  }

  /** The index of one more provider merges all of that provider's keys. */
  lemma IndexStep(ps: seq<Provider>, i: nat)
    requires i < |ps|
    ensures Index(ps[..i + 1]) == MergeKeys(Index(ps[..i]), ps[i], ps[i].capabilities.Keys)
  {
    assert ps[..i + 1][..i] == ps[..i];
    assert ps[..i + 1][i] == ps[i];
  }

  /** Which providers `_build_caches` records: those declaring at least one capability. */
  function Declaring(ps: seq<Provider>): set<Provider>
  {
    set p | p in ps && p.capabilities != map[]
  }

  /** One more provider is recorded exactly when it declares a capability. */
  lemma DeclaringStep(ps: seq<Provider>, i: nat)
    requires i < |ps|
    ensures Declaring(ps[..i + 1]) == Declaring(ps[..i]) + (if ps[i].capabilities != map[] then {ps[i]} else {})
  {
    assert ps[..i + 1] == ps[..i] + [ps[i]];
  }

  // ---------------------------------------------------------------------
  // Priority order.
  // ---------------------------------------------------------------------

  /** Priorities do not increase along `s`. */
  predicate NonIncreasing(s: seq<Provider>)
  {
    forall i, j :: 0 <= i < j < |s| ==> s[i].priority >= s[j].priority
  }

  /**
    Inserts `p` after every provider of priority at least its own, so that
    providers of equal priority keep the order they were inserted in.
   */
  function InsertByPriority(s: seq<Provider>, p: Provider): (r: seq<Provider>)
    ensures |r| == |s| + 1
  {
    if s == [] then [p]
    else if s[0].priority >= p.priority then [s[0]] + InsertByPriority(s[1..], p)
    else [p] + s
  }

  /** Insertion adds exactly one copy of `p` and nothing else. */
  lemma {:induction false} InsertByPriorityPermutes(s: seq<Provider>, p: Provider)
    ensures multiset(InsertByPriority(s, p)) == multiset(s) + multiset{p}
  {
    if s != [] && s[0].priority >= p.priority {
      InsertByPriorityPermutes(s[1..], p);
      assert s == [s[0]] + s[1..];
    }
  }

  /** A provider that outranks everything in an ordered list can lead it. */
  lemma PrependNonIncreasing(x: Provider, s: seq<Provider>)
    requires NonIncreasing(s)
    requires forall q :: q in s ==> q.priority <= x.priority
    ensures NonIncreasing([x] + s)
  {
    var r := [x] + s;
    forall i, j | 0 <= i < j < |r| ensures r[i].priority >= r[j].priority {
      assert r[j] == s[j - 1];
      if i > 0 { assert r[i] == s[i - 1]; }
    }
  }

  /** Insertion keeps the order non-increasing. */
  lemma {:induction false} InsertByPriorityOrdered(s: seq<Provider>, p: Provider)
    requires NonIncreasing(s)
    ensures NonIncreasing(InsertByPriority(s, p))
  {
    if s == [] {
    } else if s[0].priority >= p.priority {
      var tail := s[1..];
      var rest := InsertByPriority(tail, p);
      assert NonIncreasing(tail);
      InsertByPriorityOrdered(tail, p);
      InsertByPriorityPermutes(tail, p);
      forall q | q in rest ensures q.priority <= s[0].priority {
        assert q in multiset(rest);
        if q != p {
          assert q in multiset(tail);
          var m :| 0 <= m < |tail| && tail[m] == q;
          assert s[m + 1] == q;
        }
      }
      PrependNonIncreasing(s[0], rest);
      assert InsertByPriority(s, p) == [s[0]] + rest;
    } else {
      forall q | q in s ensures q.priority <= p.priority {
        var m :| 0 <= m < |s| && s[m] == q;
      }
      PrependNonIncreasing(p, s);
    }
  }
}
