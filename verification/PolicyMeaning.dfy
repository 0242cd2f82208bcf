/**
 What policies mean to the analyzer: in each request environment a policy matches some of the
 possible requests (a request taken together with its entities).  The solver answers questions
 about these sets exactly.
 */
module PolicyMeaning {
  import opened Wrappers

  type PolicyId = string

  datatype Effect = Permit | Forbid

  datatype Policy = Policy(id: PolicyId, effect: Effect)

  /** A request with its entities, numbered. */
  type Request = nat

  /** The possible requests of each environment, and which of them a policy matches there. */
  datatype Meaning = Meaning(requests: seq<iset<Request>>, matches: (Policy, nat) -> iset<Request>) {

    ghost function M(p: Policy, k: nat): iset<Request> {
      matches(p, k)
    }

    ghost predicate Valid() {
      && (forall k: nat | k < |requests| :: requests[k] != iset{})
      && (forall p: Policy, k: nat | k < |requests| :: M(p, k) <= requests[k])
    }

    ghost predicate Empty(p: Policy, k: nat) {
      M(p, k) == iset{}
    }

    ghost predicate Full(p: Policy, k: nat)
      requires k < |requests|
    {
      M(p, k) == requests[k]
    }

    /** Some permit policy matches and no forbid policy does. */
    ghost predicate Allows(policies: seq<Policy>, k: nat, r: Request) {
      && (exists p :: p in policies && p.effect.Permit? && r in M(p, k))
      && !(exists f :: f in policies && f.effect.Forbid? && r in M(f, k))
    }

    ghost function Allowed(policies: seq<Policy>, k: nat): iset<Request>
      requires k < |requests|
    {
      iset r | r in requests[k] && Allows(policies, k, r)
    }
  }

  /** The checks run by the solver, per environment. */
  datatype Solver = Solver(
    alwaysMatches: (Policy, nat) -> bool,
    neverMatches: (Policy, nat) -> bool,
    matchesImplies: (Policy, Policy, nat) -> bool,
    alwaysAllows: (seq<Policy>, nat) -> bool,
    alwaysDenies: (seq<Policy>, nat) -> bool,
    implies: (seq<Policy>, seq<Policy>, nat) -> bool,
    impliesWithCex: (seq<Policy>, seq<Policy>, nat) -> Option<Request>)
  {
    ghost predicate Exact(meaning: Meaning) {
      forall k: nat | k < |meaning.requests| :: ExactAt(meaning, k)
    }

    ghost predicate ExactAt(meaning: Meaning, k: nat)
      requires k < |meaning.requests|
    {
      && (forall p :: alwaysMatches(p, k) <==> meaning.Full(p, k))
      && (forall p :: neverMatches(p, k) <==> meaning.Empty(p, k))
      && (forall p, q :: matchesImplies(p, q, k) <==> meaning.M(p, k) <= meaning.M(q, k))
      && (forall ps :: alwaysAllows(ps, k) <==> meaning.Allowed(ps, k) == meaning.requests[k])
      && (forall ps :: alwaysDenies(ps, k) <==> meaning.Allowed(ps, k) == iset{})
      && (forall ps, qs :: implies(ps, qs, k) <==> meaning.Allowed(ps, k) <= meaning.Allowed(qs, k))
      && (forall ps, qs :: impliesWithCex(ps, qs, k).None? <==> meaning.Allowed(ps, k) <= meaning.Allowed(qs, k))
      && (forall ps, qs :: impliesWithCex(ps, qs, k).Some? ==>
            impliesWithCex(ps, qs, k).value in meaning.Allowed(ps, k) - meaning.Allowed(qs, k))
    }
  }

  /** A policy set with one permit policy allows what the policy matches. */
  lemma AllowedBySinglePermit(meaning: Meaning, p: Policy, k: nat)
    requires meaning.Valid() && k < |meaning.requests| && p.effect.Permit?
    ensures meaning.Allowed([p], k) == meaning.M(p, k)
  {
    forall r | r in meaning.M(p, k) ensures meaning.Allows([p], k, r) {
      assert p in [p];
    }
  }
}
