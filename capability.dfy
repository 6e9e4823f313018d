/**
  Capability matching: the values a provider declares under a capability key
  and the values a requirement constrains that key to.  A value is either a
  single token or a list of tokens; matching always works on sets.
 */
module Capability {

  /** A capability key, e.g. "type" or "architecture". */
  type Key = string

  /** One opaque capability token. */
  type Token = string

  /** A declared capability value: a single token, or a list of tokens. */
  datatype CapValue = Single(token: Token) | Many(tokens: seq<Token>)

  /** The set of tokens a value stands for: a single token becomes a singleton. */
  function Normalize(v: CapValue): set<Token>
  {
    match v
    case Single(t) => {t}
    case Many(ts) => set t | t in ts
  }

  /** A single token stands for the same set as a one-element list holding it. */
  lemma SingleAsList(t: Token)
    ensures Normalize(Single(t)) == Normalize(Many([t]))
  {
    assert forall u :: u in Normalize(Many([t])) <==> u == t;
  }

  /**
    A list stands for the set of its tokens: the order of the tokens and
    their repeats make no difference.
   */
  lemma NormalizeMembersOnly(ts: seq<Token>, us: seq<Token>)
    requires forall t :: t in ts <==> t in us
    ensures Normalize(Many(ts)) == Normalize(Many(us))
  {
  }

  /** The tokens two capability values have in common (`common_provision`). */
  function CommonProvision(a: CapValue, b: CapValue): (r: set<Token>)
    ensures r <= Normalize(a) && r <= Normalize(b)
    ensures forall t :: t in Normalize(a) && t in Normalize(b) ==> t in r
  {
    Normalize(a) * Normalize(b)
  }

  /** Two values overlap, the truth value of `bool(common_provision(a, b))`. */
  predicate Overlaps(a: CapValue, b: CapValue)
  {
    CommonProvision(a, b) != {}
  }

  /** The overlap does not depend on which side is the provider. */
  lemma CommonProvisionSymmetric(a: CapValue, b: CapValue)
    ensures CommonProvision(a, b) == CommonProvision(b, a)
    ensures Overlaps(a, b) <==> Overlaps(b, a)
  {
  }

  /** Two values overlap exactly when some token is named by both. */
  lemma OverlapsWitness(a: CapValue, b: CapValue)
    ensures Overlaps(a, b) <==> exists t :: t in Normalize(a) && t in Normalize(b)
  {
    if exists t :: t in Normalize(a) && t in Normalize(b) {
      var t :| t in Normalize(a) && t in Normalize(b);
      assert t in CommonProvision(a, b);
    }
  }
}
