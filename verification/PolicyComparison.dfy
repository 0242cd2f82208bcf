/** Vacuity of a policy and comparison of two policies, environment by environment. */
module PolicyComparison {
  import opened PolicyMeaning

  datatype VacuityResult = MatchesAll | MatchesSome | MatchesNone

  datatype ShadowingResult = Equivalent | Policy1Shadows2 | Policy2Shadows1 | NoShadowing

  datatype OverrideResult = Overrides | NoOverride

  // ---------- What the results mean ----------

  ghost predicate IsVacuity(meaning: Meaning, p: Policy, k: nat, vr: VacuityResult)
    requires k < |meaning.requests|
  {
    && (vr.MatchesAll? <==> meaning.Full(p, k))
    && (vr.MatchesNone? <==> meaning.Empty(p, k))
  }

  ghost predicate AreVacuities(meaning: Meaning, p: Policy, vrs: seq<VacuityResult>) {
    && |vrs| == |meaning.requests|
    && forall k: nat | k < |vrs| :: IsVacuity(meaning, p, k, vrs[k])
  }

  /** Both match something, and the match sets compare as the result says. */
  ghost predicate IsShadowing(meaning: Meaning, p1: Policy, p2: Policy, k: nat, result: ShadowingResult) {
    var some := !meaning.Empty(p1, k) && !meaning.Empty(p2, k);
    && (result.Equivalent? <==> some && meaning.M(p1, k) == meaning.M(p2, k))
    && (result.Policy1Shadows2? <==> some && meaning.M(p2, k) < meaning.M(p1, k))
    && (result.Policy2Shadows1? <==> some && meaning.M(p1, k) < meaning.M(p2, k))
  }

  /** Neither matches nothing or everything, and the permit matches only what the forbid does. */
  ghost predicate IsOverride(meaning: Meaning, forbid: Policy, permit: Policy, k: nat, result: OverrideResult)
    requires k < |meaning.requests|
  {
    result.Overrides? <==>
      && !meaning.Empty(forbid, k) && !meaning.Full(forbid, k)
      && !meaning.Empty(permit, k) && !meaning.Full(permit, k)
      && meaning.M(permit, k) <= meaning.M(forbid, k)
  }

  // ---------- Where the results differ from the documentation ----------

  /**
   An override is documented as "every request the permit matches, the forbid matches".  That is what is
   reported unless the permit matches nothing or the forbid everything: then it holds and is not reported.
   */
  lemma OverrideIsAsDocumentedIff(meaning: Meaning, forbid: Policy, permit: Policy, k: nat, result: OverrideResult)
    requires meaning.Valid() && k < |meaning.requests| && IsOverride(meaning, forbid, permit, k, result)
    ensures (result.Overrides? <==> meaning.M(permit, k) <= meaning.M(forbid, k))
        <==> !meaning.Empty(permit, k) && !meaning.Full(forbid, k)
  {
    assert meaning.M(permit, k) <= meaning.requests[k] && meaning.M(forbid, k) <= meaning.requests[k];
  }

  /**
   Redundancy is documented as the same match set, and shadowing as a strictly larger one.  Redundancy is not
   reported if both match nothing, nor shadowing if exactly one of the two matches nothing.
   */
  lemma ShadowingIsAsDocumentedIff(meaning: Meaning, p1: Policy, p2: Policy, k: nat, result: ShadowingResult)
    requires IsShadowing(meaning, p1, p2, k, result)
    ensures (result.Equivalent? <==> meaning.M(p1, k) == meaning.M(p2, k))
        <==> !(meaning.Empty(p1, k) && meaning.Empty(p2, k))
    ensures ((result.Policy2Shadows1? <==> meaning.M(p1, k) < meaning.M(p2, k))
             && (result.Policy1Shadows2? <==> meaning.M(p2, k) < meaning.M(p1, k)))
        <==> (meaning.Empty(p1, k) <==> meaning.Empty(p2, k))
  {
  }

  /** One environment with one possible request, which some policies match. */
  function OneRequest(matching: set<Policy>): Meaning {
    Meaning([iset{0}], (p: Policy, k: nat) => if p in matching then iset{0} else iset{})
  }

  const PERMIT := Policy("p", Permit)
  const OTHER_PERMIT := Policy("q", Permit)
  const FORBID := Policy("f", Forbid)

  /** An empty permit, and a full forbid: what is documented as an override holds and is not reported. */
  lemma OverrideDiffersFromDocumentation()
    ensures var empty := OneRequest({});
            && empty.Valid() && empty.M(PERMIT, 0) <= empty.M(FORBID, 0)
            && IsOverride(empty, FORBID, PERMIT, 0, NoOverride) && !IsOverride(empty, FORBID, PERMIT, 0, Overrides)
    ensures var full := OneRequest({PERMIT, FORBID});
            && full.Valid() && full.M(PERMIT, 0) <= full.M(FORBID, 0)
            && IsOverride(full, FORBID, PERMIT, 0, NoOverride) && !IsOverride(full, FORBID, PERMIT, 0, Overrides)
  {
    var empty, full := OneRequest({}), OneRequest({PERMIT, FORBID});
    assert 0 in full.M(PERMIT, 0) && 0 in empty.requests[0];
    assert empty.Empty(PERMIT, 0) && full.Full(FORBID, 0);
  }

  /** Two empty permits are not reported as redundant, nor an empty one as shadowed by one that is not. */
  lemma ShadowingDiffersFromDocumentation()
    ensures var empty := OneRequest({});
            && empty.Valid() && empty.M(PERMIT, 0) == empty.M(OTHER_PERMIT, 0)
            && IsShadowing(empty, PERMIT, OTHER_PERMIT, 0, NoShadowing)
    ensures var one := OneRequest({OTHER_PERMIT});
            && one.Valid() && one.M(PERMIT, 0) < one.M(OTHER_PERMIT, 0)
            && IsShadowing(one, PERMIT, OTHER_PERMIT, 0, NoShadowing)
  {
    var empty, one := OneRequest({}), OneRequest({OTHER_PERMIT});
    assert 0 in one.M(OTHER_PERMIT, 0) && one.Empty(PERMIT, 0) && empty.Empty(PERMIT, 0);
  }

  // ---------- Computing them ----------

  method PolicyVacuous(solver: Solver, ghost meaning: Meaning, policy: Policy, envs: nat)
    returns (vrs: seq<VacuityResult>)
    requires meaning.Valid() && solver.Exact(meaning) && envs == |meaning.requests|
    ensures AreVacuities(meaning, policy, vrs)
  {
    vrs := [];
    for k := 0 to envs
      invariant |vrs| == k
      invariant forall i: nat | i < k :: IsVacuity(meaning, policy, i, vrs[i])
    {
      assert solver.ExactAt(meaning, k);
      if solver.alwaysMatches(policy, k) {
        vrs := vrs + [MatchesAll];
      } else if solver.neverMatches(policy, k) {
        vrs := vrs + [MatchesNone];
      } else {
        vrs := vrs + [MatchesSome];
      }
    }
  }

  /** Vacuity of a whole policy set: whether it allows everything, or nothing. */
  method PolicySetVacuous(solver: Solver, ghost meaning: Meaning, policies: seq<Policy>, envs: nat)
    returns (vrs: seq<VacuityResult>)
    requires meaning.Valid() && solver.Exact(meaning) && envs == |meaning.requests|
    ensures |vrs| == envs
    ensures forall k: nat | k < envs :: vrs[k].MatchesAll? <==> meaning.Allowed(policies, k) == meaning.requests[k]
    ensures forall k: nat | k < envs :: vrs[k].MatchesNone? <==> meaning.Allowed(policies, k) == iset{}
  {
    vrs := [];
    for k := 0 to envs
      invariant |vrs| == k
      invariant forall i: nat | i < k :: vrs[i].MatchesAll? <==> meaning.Allowed(policies, i) == meaning.requests[i]
      invariant forall i: nat | i < k :: vrs[i].MatchesNone? <==> meaning.Allowed(policies, i) == iset{}
    {
      assert solver.ExactAt(meaning, k);
      if solver.alwaysAllows(policies, k) {
        vrs := vrs + [MatchesAll];
      } else if solver.alwaysDenies(policies, k) {
        vrs := vrs + [MatchesNone];
      } else {
        vrs := vrs + [MatchesSome];
      }
    }
  }

  /** From the answers to "does 1 imply 2" and "does 2 imply 1". */
  function FromImplications(forward: bool, backward: bool): ShadowingResult {
    match (forward, backward)
    case (true, true) => Equivalent
    case (true, false) => Policy2Shadows1
    case (false, true) => Policy1Shadows2
    case (false, false) => NoShadowing
  }

  /** Two permit policies: vacuous ones are settled without the solver. */
  method ComputePermitShadowingResult(solver: Solver, ghost meaning: Meaning, p1: Policy, vrs1: seq<VacuityResult>,
                                      p2: Policy, vrs2: seq<VacuityResult>) returns (results: seq<ShadowingResult>)
    requires meaning.Valid() && solver.Exact(meaning)
    requires p1.effect.Permit? && p2.effect.Permit?
    requires AreVacuities(meaning, p1, vrs1) && AreVacuities(meaning, p2, vrs2)
    ensures |results| == |meaning.requests|
    ensures forall k: nat | k < |results| :: IsShadowing(meaning, p1, p2, k, results[k])
  {
    results := [];
    for k := 0 to |vrs1|
      invariant |results| == k
      invariant forall i: nat | i < k :: IsShadowing(meaning, p1, p2, i, results[i])
    {
      assert IsVacuity(meaning, p1, k, vrs1[k]) && IsVacuity(meaning, p2, k, vrs2[k]);
      var result;
      match (vrs1[k], vrs2[k]) {
        case (MatchesNone, _) => result := NoShadowing;
        case (_, MatchesNone) => result := NoShadowing;
        case (MatchesAll, MatchesAll) => result := Equivalent;
        case (MatchesAll, MatchesSome) => result := Policy1Shadows2;
        case (MatchesSome, MatchesAll) => result := Policy2Shadows1;
        case (MatchesSome, MatchesSome) =>
          assert solver.ExactAt(meaning, k);
          AllowedBySinglePermit(meaning, p1, k);
          AllowedBySinglePermit(meaning, p2, k);
          result := FromImplications(solver.implies([p1], [p2], k), solver.implies([p2], [p1], k));
      }
      assert IsShadowing(meaning, p1, p2, k, result);
      results := results + [result];
    }
  }

  /** Two forbid policies, compared by what they match. */
  method ComputeForbidShadowingResult(solver: Solver, ghost meaning: Meaning, p1: Policy, vrs1: seq<VacuityResult>,
                                      p2: Policy, vrs2: seq<VacuityResult>) returns (results: seq<ShadowingResult>)
    requires meaning.Valid() && solver.Exact(meaning)
    requires AreVacuities(meaning, p1, vrs1) && AreVacuities(meaning, p2, vrs2)
    ensures |results| == |meaning.requests|
    ensures forall k: nat | k < |results| :: IsShadowing(meaning, p1, p2, k, results[k])
  {
    results := [];
    for k := 0 to |vrs1|
      invariant |results| == k
      invariant forall i: nat | i < k :: IsShadowing(meaning, p1, p2, i, results[i])
    {
      assert IsVacuity(meaning, p1, k, vrs1[k]) && IsVacuity(meaning, p2, k, vrs2[k]);
      var result;
      match (vrs1[k], vrs2[k]) {
        case (MatchesNone, _) => result := NoShadowing;
        case (_, MatchesNone) => result := NoShadowing;
        case (MatchesAll, MatchesAll) => result := Equivalent;
        case (MatchesAll, MatchesSome) => result := Policy1Shadows2;
        case (MatchesSome, MatchesAll) => result := Policy2Shadows1;
        case (MatchesSome, MatchesSome) =>
          assert solver.ExactAt(meaning, k);
          result := FromImplications(solver.matchesImplies(p1, p2, k), solver.matchesImplies(p2, p1, k));
      }
      assert IsShadowing(meaning, p1, p2, k, result);
      results := results + [result];
    }
  }

  /** Whether a forbid policy overrides a permit policy; never, if one of them is vacuous. */
  method ComputeForbidOverridesResult(solver: Solver, ghost meaning: Meaning, forbid: Policy,
                                      forbidVrs: seq<VacuityResult>,
                                      permit: Policy, permitVrs: seq<VacuityResult>)
    returns (results: seq<OverrideResult>)
    requires meaning.Valid() && solver.Exact(meaning)
    requires AreVacuities(meaning, forbid, forbidVrs) && AreVacuities(meaning, permit, permitVrs)
    ensures |results| == |meaning.requests|
    ensures forall k: nat | k < |results| :: IsOverride(meaning, forbid, permit, k, results[k])
  {
    results := [];
    for k := 0 to |forbidVrs|
      invariant |results| == k
      invariant forall i: nat | i < k :: IsOverride(meaning, forbid, permit, i, results[i])
    {
      assert IsVacuity(meaning, forbid, k, forbidVrs[k]) && IsVacuity(meaning, permit, k, permitVrs[k]);
      assert solver.ExactAt(meaning, k);
      if forbidVrs[k].MatchesSome? && permitVrs[k].MatchesSome? && solver.matchesImplies(permit, forbid, k) {
        results := results + [Overrides];
      } else {
        results := results + [NoOverride];
      }
    }
  }

  /** Vacuity over all environments: the same answer in every one, or "some". */
  function VacuousFindingFromResults(results: seq<VacuityResult>): VacuityResult {
    if forall i | 0 <= i < |results| :: results[i] == MatchesAll then MatchesAll
    else if forall i | 0 <= i < |results| :: results[i] == MatchesNone then MatchesNone
    else MatchesSome
  }

  // ---------- Comparing two policy sets ----------

  datatype ComparisonStatus =
    | MorePermissive(example: Request)
    | LessPermissive(example: Request)
    | SameDecisions
    | Incomparable(moreExample: Request, lessExample: Request)

  /** The status names how the allowed requests compare, and its examples show the difference. */
  ghost predicate IsComparison(meaning: Meaning, ps: seq<Policy>, qs: seq<Policy>, k: nat, status: ComparisonStatus)
    requires k < |meaning.requests|
  {
    var a, b := meaning.Allowed(ps, k), meaning.Allowed(qs, k);
    && (status.SameDecisions? <==> a == b)
    && (status.MorePermissive? <==> b < a)
    && (status.LessPermissive? <==> a < b)
    && (status.MorePermissive? ==> status.example in a - b)
    && (status.LessPermissive? ==> status.example in b - a)
    && (status.Incomparable? ==> status.moreExample in a - b && status.lessExample in b - a)
  }

  method ComparePolicySets(solver: Solver, ghost meaning: Meaning, ps: seq<Policy>, qs: seq<Policy>, envs: nat)
    returns (statuses: seq<ComparisonStatus>)
    requires meaning.Valid() && solver.Exact(meaning) && envs == |meaning.requests|
    ensures |statuses| == envs
    ensures forall k: nat | k < envs :: IsComparison(meaning, ps, qs, k, statuses[k])
  {
    statuses := [];
    for k := 0 to envs
      invariant |statuses| == k
      invariant forall i: nat | i < k :: IsComparison(meaning, ps, qs, i, statuses[i])
    {
      assert solver.ExactAt(meaning, k);
      var status;
      match (solver.impliesWithCex(ps, qs, k), solver.impliesWithCex(qs, ps, k)) {
        case (None, None) => status := SameDecisions;
        case (None, Some(cex)) => status := LessPermissive(cex);
        case (Some(cex), None) => status := MorePermissive(cex);
        case (Some(more), Some(less)) => status := Incomparable(more, less);
      }
      assert IsComparison(meaning, ps, qs, k, status);
      statuses := statuses + [status];
    }
  }
}
