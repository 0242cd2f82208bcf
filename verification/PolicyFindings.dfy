/**
 The pairwise analysis of a policy set: every pair of policies is compared once and what is found
 is recorded under policy ids, one set of ids per environment.
 */
module PolicyFindings {
  import opened PolicyMeaning
  import opened PolicyComparison

  /** policy |-> for each environment, the policies found for it. */
  type FindingsMap = map<PolicyId, seq<set<PolicyId>>>

  datatype Findings = Findings(
    redundant: FindingsMap,
    permitShadowed: FindingsMap,
    permitOverridden: FindingsMap,
    forbidShadowed: FindingsMap)

  datatype Kind = Redundant | PermitShadowed | PermitOverridden | ForbidShadowed

  function Of(findings: Findings, kind: Kind): FindingsMap {
    match kind
    case Redundant => findings.redundant
    case PermitShadowed => findings.permitShadowed
    case PermitOverridden => findings.permitOverridden
    case ForbidShadowed => findings.forbidShadowed
  }

  // ---------- What a finding means ----------

  /** The effects for which a finding "q for p" exists. */
  predicate Comparable(kind: Kind, p: Policy, q: Policy) {
    match kind
    case Redundant => p.effect == q.effect
    case PermitShadowed => p.effect.Permit? && q.effect.Permit?
    case PermitOverridden => p.effect.Permit? && q.effect.Forbid?
    case ForbidShadowed => p.effect.Forbid? && q.effect.Forbid?
  }

  /** q is equivalent to p, shadows p or overrides p in environment k. */
  ghost predicate Holds(kind: Kind, meaning: Meaning, p: Policy, q: Policy, k: nat)
    requires k < |meaning.requests|
  {
    && Comparable(kind, p, q)
    && !meaning.Empty(p, k)
    && match kind
       case Redundant => meaning.M(p, k) == meaning.M(q, k)
       case PermitOverridden =>
         !meaning.Full(p, k) && !meaning.Empty(q, k) && !meaning.Full(q, k) && meaning.M(p, k) <= meaning.M(q, k)
       case _ => meaning.M(p, k) < meaning.M(q, k)
  }

  predicate DistinctIds(policies: set<Policy>) {
    forall p, q | p in policies && q in policies && p.id == q.id :: p == q
  }

  ghost predicate ExactFor(kind: Kind, meaning: Meaning, p: Policy, policies: set<Policy>, done: set<(Policy, Policy)>,
                           sets: seq<set<PolicyId>>)
  {
    && |sets| == |meaning.requests|
    && forall k: nat, q | k < |sets| && q in policies ::
         q.id in sets[k] <==> (p, q) in done && Holds(kind, meaning, p, q, k)
  }

  ghost function IdsOf(policies: set<Policy>): set<PolicyId> {
    set p | p in policies :: p.id
  }

  /** The policy was compared with one for which there could have been a finding. */
  ghost predicate Compared(kind: Kind, p: Policy, done: set<(Policy, Policy)>) {
    exists q :: (p, q) in done && Comparable(kind, p, q)
  }

  /** The findings of one kind are exactly those of the ordered pairs in `done`. */
  ghost predicate Exact(kind: Kind, meaning: Meaning, policies: set<Policy>, done: set<(Policy, Policy)>,
                        findings: FindingsMap)
  {
    && findings.Keys <= IdsOf(policies)
    && (forall id, k: nat | id in findings && k < |findings[id]| :: findings[id][k] <= IdsOf(policies))
    && (forall p | p in policies :: p.id in findings <==> Compared(kind, p, done))
    && (forall p | p in policies && p.id in findings :: ExactFor(kind, meaning, p, policies, done, findings[p.id]))
  }

  ghost predicate AllExact(meaning: Meaning, policies: set<Policy>, done: set<(Policy, Policy)>, findings: Findings) {
    forall kind: Kind :: ExactOf(kind, meaning, policies, done, findings)
  }

  ghost predicate ExactOf(kind: Kind, meaning: Meaning, policies: set<Policy>, done: set<(Policy, Policy)>,
                          findings: Findings)
  {
    Exact(kind, meaning, policies, done, Of(findings, kind))
  }

  // ---------- Recording the results of one comparison ----------

  /** Adds `id` to the sets of the environments with the wanted result. */
  function AddWhere<T(==)>(sets: seq<set<PolicyId>>, id: PolicyId, results: seq<T>,
                           wanted: T): (out: seq<set<PolicyId>>)
    requires |sets| == |results|
    ensures |out| == |sets|
    ensures forall k, x | 0 <= k < |out| :: x in out[k] <==> x in sets[k] || (x == id && results[k] == wanted)
  {
    seq(|sets|, k requires 0 <= k < |sets| => if results[k] == wanted then sets[k] + {id} else sets[k])
  }

  function NoneFound(n: nat): seq<set<PolicyId>> {
    seq(n, _ => {})
  }

  /** The findings after the comparison of a policy with another. */
  function Recorded<T(==)>(id1: PolicyId, id2: PolicyId, results: seq<T>, findings: FindingsMap, wanted: T): FindingsMap
    requires id1 in findings ==> |findings[id1]| == |results|
  {
    findings[id1 := AddWhere(if id1 in findings then findings[id1] else NoneFound(|results|), id2, results, wanted)]
  }

  method UpdateFindings<T(==)>(id1: PolicyId, id2: PolicyId, results: seq<T>, findings: FindingsMap, wanted: T)
    returns (out: FindingsMap)
    requires id1 in findings ==> |findings[id1]| == |results|
    ensures out == Recorded(id1, id2, results, findings, wanted)
  {
    out := findings;
    if id1 !in out {
      out := out[id1 := NoneFound(|results|)];
    }
    ghost var before := out[id1];
    for k := 0 to |results|
      invariant out.Keys == findings.Keys + {id1} && |out[id1]| == |results|
      invariant forall id | id in findings && id != id1 :: out[id] == findings[id]
      invariant forall i | 0 <= i < k :: out[id1][i] == if results[i] == wanted then before[i] + {id2} else before[i]
      invariant forall i | k <= i < |results| :: out[id1][i] == before[i]
    {
      if results[k] == wanted {
        out := out[id1 := out[id1][k := out[id1][k] + {id2}]];
      }
    }
    assert out[id1] == AddWhere(before, id2, results, wanted);
  }

  /** One more pair matters only to its first policy, and only if a finding of the kind is possible. */
  lemma ComparedWithOneMore(kind: Kind, o: Policy, p: Policy, q: Policy, done: set<(Policy, Policy)>)
    ensures Compared(kind, o, done + {(p, q)}) <==> Compared(kind, o, done) || (o == p && Comparable(kind, p, q))
  {
    var done' := done + {(p, q)};
    assert (p, q) in done';
    if x :| (o, x) in done && Comparable(kind, o, x) {
      assert (o, x) in done';
    }
  }

  lemma ExactForOneMore(kind: Kind, meaning: Meaning, o: Policy, policies: set<Policy>, done: set<(Policy, Policy)>,
                        sets: seq<set<PolicyId>>, p: Policy, q: Policy)
    requires ExactFor(kind, meaning, o, policies, done, sets) && (o != p || !Comparable(kind, p, q))
    ensures ExactFor(kind, meaning, o, policies, done + {(p, q)}, sets)
  {
  }

  /** The wanted result stands exactly where the finding holds. */
  ghost predicate Records<T>(kind: Kind, meaning: Meaning, p: Policy, q: Policy, results: seq<T>, wanted: T) {
    && |results| == |meaning.requests|
    && forall k: nat | k < |results| :: results[k] == wanted <==> Holds(kind, meaning, p, q, k)
  }

  /** The sets of the first policy of a pair, after the pair's results are added. */
  lemma AddedIsExactFor<T>(kind: Kind, meaning: Meaning, policies: set<Policy>, done: set<(Policy, Policy)>,
                           sets: seq<set<PolicyId>>, p: Policy, q: Policy, results: seq<T>, wanted: T)
    requires ExactFor(kind, meaning, p, policies, done, sets) && DistinctIds(policies)
    requires q in policies && Records(kind, meaning, p, q, results, wanted)
    ensures ExactFor(kind, meaning, p, policies, done + {(p, q)}, AddWhere(sets, q.id, results, wanted))
  {
  }

  /** Recording a comparison makes the findings exact for one more ordered pair. */
  lemma RecordedIsExact<T>(kind: Kind, meaning: Meaning, policies: set<Policy>, done: set<(Policy, Policy)>,
                           findings: FindingsMap, p: Policy, q: Policy, results: seq<T>, wanted: T)
    requires Exact(kind, meaning, policies, done, findings) && DistinctIds(policies)
    requires p in policies && q in policies && Comparable(kind, p, q)
    requires Records(kind, meaning, p, q, results, wanted)
    ensures p.id in findings ==> |findings[p.id]| == |results|
    ensures Exact(kind, meaning, policies, done + {(p, q)}, Recorded(p.id, q.id, results, findings, wanted))
  {
    assert p.id in findings ==> ExactFor(kind, meaning, p, policies, done, findings[p.id]);
    var out, done' := Recorded(p.id, q.id, results, findings, wanted), done + {(p, q)};
    var before := if p.id in findings then findings[p.id] else NoneFound(|results|);
    assert ExactFor(kind, meaning, p, policies, done, before) by {
      if p.id !in findings {
        assert !Compared(kind, p, done);
      }
    }
    AddedIsExactFor(kind, meaning, policies, done, before, p, q, results, wanted);
    forall o | o in policies
      ensures o.id in out <==> Compared(kind, o, done')
      ensures o.id in out ==> ExactFor(kind, meaning, o, policies, done', out[o.id])
    {
      ComparedWithOneMore(kind, o, p, q, done);
      if o != p && o.id in findings {
        ExactForOneMore(kind, meaning, o, policies, done, findings[o.id], p, q);
      }
    }
  }

  /** A pair for which there is no finding of a kind changes nothing. */
  lemma SkippedIsExact(kind: Kind, meaning: Meaning, policies: set<Policy>, done: set<(Policy, Policy)>,
                       findings: FindingsMap, p: Policy, q: Policy)
    requires Exact(kind, meaning, policies, done, findings) && !Comparable(kind, p, q)
    ensures Exact(kind, meaning, policies, done + {(p, q)}, findings)
  {
    forall o | o in policies ensures o.id in findings <==> Compared(kind, o, done + {(p, q)}) {
      ComparedWithOneMore(kind, o, p, q, done);
    }
    forall o | o in policies && o.id in findings
      ensures ExactFor(kind, meaning, o, policies, done + {(p, q)}, findings[o.id])
    {
      ExactForOneMore(kind, meaning, o, policies, done, findings[o.id], p, q);
    }
  }

  // ---------- The pair loop ----------

  /** The pairs compared before the i-th policy is compared with the j-th, in both directions. */
  predicate Before(i: nat, j: nat, a: nat, b: nat) {
    var lo, hi := if a < b then a else b, if a < b then b else a;
    lo < hi && (lo < i || (lo == i && hi < j))
  }

  ghost function PairsBefore(policies: seq<Policy>, i: nat, j: nat): set<(Policy, Policy)> {
    set a: nat, b: nat | a < |policies| && b < |policies| && Before(i, j, a, b) :: (policies[a], policies[b])
  }

  lemma PairsBeforeNext(policies: seq<Policy>, i: nat, j: nat)
    requires i < j < |policies|
    ensures PairsBefore(policies, i, j + 1)
         == PairsBefore(policies, i, j) + {(policies[i], policies[j])} + {(policies[j], policies[i])}
  {
    var pairs := PairsBefore(policies, i, j + 1);
    assert Before(i, j + 1, i, j) && Before(i, j + 1, j, i);
    forall a: nat, b: nat | a < |policies| && b < |policies| && Before(i, j + 1, a, b)
      ensures (policies[a], policies[b]) in PairsBefore(policies, i, j) || (a == i && b == j) || (a == j && b == i)
    {
      assert Before(i, j, a, b) || (a == i && b == j) || (a == j && b == i);
    }
    forall a: nat, b: nat | a < |policies| && b < |policies| && Before(i, j, a, b)
      ensures (policies[a], policies[b]) in pairs
    {
      assert Before(i, j + 1, a, b);
    }
  }

  lemma PairsBeforeNextRow(policies: seq<Policy>, i: nat)
    requires i < |policies|
    ensures PairsBefore(policies, i, |policies|) == PairsBefore(policies, i + 1, i + 2)
  {
    forall a: nat, b: nat | a < |policies| && b < |policies|
      ensures Before(i, |policies|, a, b) <==> Before(i + 1, i + 2, a, b)
    {
    }
  }

  lemma AllPairs(policies: seq<Policy>)
    requires UniqueIds(policies)
    ensures PairsBefore(policies, |policies|, |policies| + 1) == OrderedPairs(policies)
  {
    forall p, q | p in policies && q in policies && p != q
      ensures (p, q) in PairsBefore(policies, |policies|, |policies| + 1)
    {
      var a: nat :| a < |policies| && policies[a] == p;
      var b: nat :| b < |policies| && policies[b] == q;
      assert Before(|policies|, |policies| + 1, a, b);
    }
  }

  /** Compares two policies and records what is found, in the four ways their effects can combine. */
  method AnalyzePair(solver: Solver, ghost meaning: Meaning, ghost policies: set<Policy>,
                     ghost done: set<(Policy, Policy)>,
                     p1: Policy, vrs1: seq<VacuityResult>, p2: Policy, vrs2: seq<VacuityResult>, findings: Findings)
    returns (out: Findings)
    requires meaning.Valid() && solver.Exact(meaning) && DistinctIds(policies)
    requires p1 in policies && p2 in policies && p1 != p2
    requires AreVacuities(meaning, p1, vrs1) && AreVacuities(meaning, p2, vrs2)
    requires AllExact(meaning, policies, done, findings)
    ensures AllExact(meaning, policies, done + {(p1, p2)} + {(p2, p1)}, out)
  {
    match (p1.effect, p2.effect) {
      case (Permit, Permit) =>
        var results := ComputePermitShadowingResult(solver, meaning, p1, vrs1, p2, vrs2);
        out := RecordShadowing(PermitShadowed, meaning, policies, done, p1, p2, results, findings);
      case (Permit, Forbid) =>
        var results := ComputeForbidOverridesResult(solver, meaning, p2, vrs2, p1, vrs1);
        out := RecordOverride(meaning, policies, done, p1, p2, results, findings);
        assert done + {(p1, p2)} + {(p2, p1)} == done + {(p2, p1)} + {(p1, p2)};
      case (Forbid, Permit) =>
        var results := ComputeForbidOverridesResult(solver, meaning, p1, vrs1, p2, vrs2);
        out := RecordOverride(meaning, policies, done, p2, p1, results, findings);
      case (Forbid, Forbid) =>
        var results := ComputeForbidShadowingResult(solver, meaning, p1, vrs1, p2, vrs2);
        out := RecordShadowing(ForbidShadowed, meaning, policies, done, p1, p2, results, findings);
    }
  }

  /** Records the comparison of two policies in one map, in both directions. */
  method RecordBothWays(kind: Kind, ghost meaning: Meaning, ghost policies: set<Policy>,
                        ghost done: set<(Policy, Policy)>,
                        p1: Policy, p2: Policy, results: seq<ShadowingResult>, findings: FindingsMap,
                        wanted12: ShadowingResult, wanted21: ShadowingResult)
    returns (out: FindingsMap)
    requires DistinctIds(policies) && p1 in policies && p2 in policies && p1 != p2
    requires Comparable(kind, p1, p2) && Comparable(kind, p2, p1)
    requires Records(kind, meaning, p1, p2, results, wanted12) && Records(kind, meaning, p2, p1, results, wanted21)
    requires Exact(kind, meaning, policies, done, findings)
    ensures Exact(kind, meaning, policies, done + {(p1, p2)} + {(p2, p1)}, out)
  {
    RecordedIsExact(kind, meaning, policies, done, findings, p1, p2, results, wanted12);
    out := UpdateFindings(p1.id, p2.id, results, findings, wanted12);
    RecordedIsExact(kind, meaning, policies, done + {(p1, p2)}, out, p2, p1, results, wanted21);
    out := UpdateFindings(p2.id, p1.id, results, out, wanted21);
  }

  lemma SkippedBothWays(kind: Kind, meaning: Meaning, policies: set<Policy>, done: set<(Policy, Policy)>,
                        findings: FindingsMap, p: Policy, q: Policy)
    requires Exact(kind, meaning, policies, done, findings)
    requires !Comparable(kind, p, q) && !Comparable(kind, q, p)
    ensures Exact(kind, meaning, policies, done + {(p, q)} + {(q, p)}, findings)
  {
    SkippedIsExact(kind, meaning, policies, done, findings, p, q);
    SkippedIsExact(kind, meaning, policies, done + {(p, q)}, findings, q, p);
  }

  /** What each result of comparing two policies of the same effect records. */
  lemma ShadowingRecords(kind: Kind, meaning: Meaning, p1: Policy, p2: Policy, results: seq<ShadowingResult>)
    requires p1.effect == p2.effect && kind == if p1.effect.Permit? then PermitShadowed else ForbidShadowed
    requires |results| == |meaning.requests|
    requires forall k: nat | k < |results| :: IsShadowing(meaning, p1, p2, k, results[k])
    ensures Records(Redundant, meaning, p1, p2, results, Equivalent)
      && Records(Redundant, meaning, p2, p1, results, Equivalent)
    ensures Records(kind, meaning, p1, p2, results, Policy2Shadows1)
      && Records(kind, meaning, p2, p1, results, Policy1Shadows2)
  {
    forall k: nat | k < |results|
      ensures results[k] == Equivalent <==> Holds(Redundant, meaning, p1, p2, k)
      ensures results[k] == Equivalent <==> Holds(Redundant, meaning, p2, p1, k)
      ensures results[k] == Policy2Shadows1 <==> Holds(kind, meaning, p1, p2, k)
      ensures results[k] == Policy1Shadows2 <==> Holds(kind, meaning, p2, p1, k)
    {
      assert IsShadowing(meaning, p1, p2, k, results[k]);
    }
  }

  function WithShadowing(findings: Findings, kind: Kind, redundant: FindingsMap, shadowed: FindingsMap): Findings {
    if kind.PermitShadowed? then findings.(redundant := redundant, permitShadowed := shadowed)
    else findings.(redundant := redundant, forbidShadowed := shadowed)
  }

  /** Two policies of the same effect have no findings besides redundancy and shadowing. */
  lemma OthersSkipped(kind: Kind, meaning: Meaning, policies: set<Policy>, done: set<(Policy, Policy)>,
                      p1: Policy, p2: Policy, findings: Findings, redundant: FindingsMap, shadowed: FindingsMap)
    requires AllExact(meaning, policies, done, findings)
    requires p1.effect == p2.effect && kind == if p1.effect.Permit? then PermitShadowed else ForbidShadowed
    requires Exact(Redundant, meaning, policies, done + {(p1, p2)} + {(p2, p1)}, redundant)
    requires Exact(kind, meaning, policies, done + {(p1, p2)} + {(p2, p1)}, shadowed)
    ensures AllExact(meaning, policies, done + {(p1, p2)} + {(p2, p1)},
                     WithShadowing(findings, kind, redundant, shadowed))
  {
    var out := WithShadowing(findings, kind, redundant, shadowed);
    forall other: Kind ensures ExactOf(other, meaning, policies, done + {(p1, p2)} + {(p2, p1)}, out) {
      if other != kind && other != Redundant {
        assert ExactOf(other, meaning, policies, done, findings);
        SkippedBothWays(other, meaning, policies, done, Of(findings, other), p1, p2);
      }
    }
  }

  /** Records the comparison of two policies of the same effect. */
  method RecordShadowing(kind: Kind, ghost meaning: Meaning, ghost policies: set<Policy>,
                         ghost done: set<(Policy, Policy)>,
                         p1: Policy, p2: Policy, results: seq<ShadowingResult>, findings: Findings)
    returns (out: Findings)
    requires DistinctIds(policies) && p1 in policies && p2 in policies && p1 != p2
    requires p1.effect == p2.effect && kind == if p1.effect.Permit? then PermitShadowed else ForbidShadowed
    requires |results| == |meaning.requests|
    requires forall k: nat | k < |results| :: IsShadowing(meaning, p1, p2, k, results[k])
    requires AllExact(meaning, policies, done, findings)
    ensures AllExact(meaning, policies, done + {(p1, p2)} + {(p2, p1)}, out)
  {
    assert ExactOf(Redundant, meaning, policies, done, findings);
    assert ExactOf(kind, meaning, policies, done, findings);
    ShadowingRecords(kind, meaning, p1, p2, results);
    var redundant := RecordBothWays(Redundant, meaning, policies, done, p1, p2, results, findings.redundant,
                                    Equivalent, Equivalent);
    var shadowed := RecordBothWays(kind, meaning, policies, done, p1, p2, results, Of(findings, kind),
                                   Policy2Shadows1, Policy1Shadows2);
    OthersSkipped(kind, meaning, policies, done, p1, p2, findings, redundant, shadowed);
    out := WithShadowing(findings, kind, redundant, shadowed);
  }

  /** Records whether a forbid policy overrides a permit policy, under the permit policy. */
  method RecordOverride(ghost meaning: Meaning, ghost policies: set<Policy>, ghost done: set<(Policy, Policy)>,
                        permit: Policy, forbid: Policy, results: seq<OverrideResult>, findings: Findings)
    returns (out: Findings)
    requires DistinctIds(policies) && permit in policies && forbid in policies
    requires permit.effect.Permit? && forbid.effect.Forbid?
    requires |results| == |meaning.requests|
    requires forall k: nat | k < |results| :: IsOverride(meaning, forbid, permit, k, results[k])
    requires AllExact(meaning, policies, done, findings)
    ensures AllExact(meaning, policies, done + {(forbid, permit)} + {(permit, forbid)}, out)
  {
    ghost var done1 := done + {(forbid, permit)};
    assert ExactOf(PermitOverridden, meaning, policies, done, findings);
    SkippedIsExact(PermitOverridden, meaning, policies, done, findings.permitOverridden, forbid, permit);
    RecordedIsExact(PermitOverridden, meaning, policies, done1, findings.permitOverridden, permit, forbid, results,
      Overrides);
    var overridden := UpdateFindings(permit.id, forbid.id, results, findings.permitOverridden, Overrides);
    out := findings.(permitOverridden := overridden);
    forall other: Kind ensures ExactOf(other, meaning, policies, done1 + {(permit, forbid)}, out) {
      if other != PermitOverridden {
        assert ExactOf(other, meaning, policies, done, findings);
        SkippedBothWays(other, meaning, policies, done, Of(findings, other), forbid, permit);
      }
    }
  }

  lemma NothingRecorded(meaning: Meaning, policies: seq<Policy>)
    ensures ExactBefore(meaning, policies, 0, 1, Findings(map[], map[], map[], map[]))
  {
    assert PairsBefore(policies, 0, 1) == {};
    forall kind: Kind ensures ExactOf(kind, meaning, AsSet(policies), {}, Findings(map[], map[], map[], map[])) {}
  }

  /** The findings are exact for the pairs compared before the i-th policy is compared with the j-th. */
  ghost predicate ExactBefore(meaning: Meaning, policies: seq<Policy>, i: nat, j: nat, findings: Findings) {
    AllExact(meaning, AsSet(policies), PairsBefore(policies, i, j), findings)
  }

  /** Compares the i-th policy with the j-th. */
  method AnalyzePairAt(solver: Solver, ghost meaning: Meaning, policies: seq<Policy>,
                       vacuities: map<PolicyId, seq<VacuityResult>>, i: nat, j: nat, findings: Findings)
    returns (out: Findings)
    requires Analyzable(solver, meaning, policies, vacuities)
    requires i < j < |policies|
    requires ExactBefore(meaning, policies, i, j, findings)
    ensures ExactBefore(meaning, policies, i, j + 1, out)
  {
    var p1, p2 := policies[i], policies[j];
    PairsBeforeNext(policies, i, j);
    assert p1.id in vacuities && p2.id in vacuities;
    out := AnalyzePair(solver, meaning, AsSet(policies), PairsBefore(policies, i, j),
                       p1, vacuities[p1.id], p2, vacuities[p2.id], findings);
  }

  ghost function AsSet(policies: seq<Policy>): set<Policy> {
    set p | p in policies
  }

  predicate UniqueIds(policies: seq<Policy>) {
    forall i, j | 0 <= i < j < |policies| :: policies[i].id != policies[j].id
  }

  ghost predicate HasVacuities(meaning: Meaning, policies: seq<Policy>, vacuities: map<PolicyId, seq<VacuityResult>>) {
    forall p | p in policies :: p.id in vacuities && AreVacuities(meaning, p, vacuities[p.id])
  }

  /** What the pair loop starts from: different ids, and the vacuity of every policy. */
  ghost predicate Analyzable(solver: Solver, meaning: Meaning, policies: seq<Policy>,
                             vacuities: map<PolicyId, seq<VacuityResult>>)
  {
    && meaning.Valid() && solver.Exact(meaning)
    && UniqueIds(policies) && HasVacuities(meaning, policies, vacuities)
  }

  /** All ordered pairs of two of the policies. */
  ghost function OrderedPairs(policies: seq<Policy>): set<(Policy, Policy)> {
    set p, q | p in policies && q in policies && p != q :: (p, q)
  }

  /** Compares every pair of policies; the findings are exact for all ordered pairs of two policies. */
  method AnalyzePairs(solver: Solver, ghost meaning: Meaning, policies: seq<Policy>,
                      vacuities: map<PolicyId, seq<VacuityResult>>)
    returns (findings: Findings)
    requires Analyzable(solver, meaning, policies, vacuities)
    ensures AllExact(meaning, AsSet(policies), OrderedPairs(policies), findings)
  {
    findings := Findings(map[], map[], map[], map[]);
    NothingRecorded(meaning, policies);
    for i := 0 to |policies|
      invariant ExactBefore(meaning, policies, i, i + 1, findings)
    {
      findings := AnalyzeRow(solver, meaning, policies, vacuities, i, findings);
      PairsBeforeNextRow(policies, i);
    }
    AllPairs(policies);
  }

  /** Compares the i-th policy with all later ones. */
  method AnalyzeRow(solver: Solver, ghost meaning: Meaning, policies: seq<Policy>,
                    vacuities: map<PolicyId, seq<VacuityResult>>, i: nat, findings: Findings)
    returns (out: Findings)
    requires Analyzable(solver, meaning, policies, vacuities)
    requires i < |policies| && ExactBefore(meaning, policies, i, i + 1, findings)
    ensures ExactBefore(meaning, policies, i, |policies|, out)
  {
    out := findings;
    for j := i + 1 to |policies|
      invariant ExactBefore(meaning, policies, i, j, out)
    {
      out := AnalyzePairAt(solver, meaning, policies, vacuities, i, j, out);
    }
  }
}
