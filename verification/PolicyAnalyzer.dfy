/** The whole analysis of a policy set, and what acting on its report does to decisions. */
module PolicyAnalyzer {
  import opened PolicyMeaning
  import opened PolicyComparison
  import opened PolicyFindings
  import opened PolicyReport
  import opened Cardinality

  datatype AnalyzePolicyFindings = AnalyzePolicyFindings(
    vacuousResult: VacuityResult,
    vacuousPolicies: map<PolicyId, VacuityResult>,
    perSigFindings: seq<PerSigFindings>)

  // ---------- The report of one environment ----------

  method PerSigFindingsNew(ghost meaning: Meaning, ghost policies: seq<Policy>, k: nat, findings: Findings)
    returns (sig: PerSigFindings)
    requires k < |meaning.requests| && UniqueIds(policies)
    requires AllExact(meaning, AsSet(policies), OrderedPairs(policies), findings)
    ensures sig.env == k && ExactAt(meaning, policies, sig)
  {
    assert ExactOf(Redundant, meaning, AsSet(policies), OrderedPairs(policies), findings);
    assert ExactOf(PermitShadowed, meaning, AsSet(policies), OrderedPairs(policies), findings);
    assert ExactOf(PermitOverridden, meaning, AsSet(policies), OrderedPairs(policies), findings);
    assert ExactOf(ForbidShadowed, meaning, AsSet(policies), OrderedPairs(policies), findings);
    var redundant := SetsAt(Redundant, meaning, policies, k, findings.redundant);
    var permitShadowed := SetsAt(PermitShadowed, meaning, policies, k, findings.permitShadowed);
    var permitOverridden := SetsAt(PermitOverridden, meaning, policies, k, findings.permitOverridden);
    var forbidShadowed := SetsAt(ForbidShadowed, meaning, policies, k, findings.forbidShadowed);
    var classes := SemanticClasses(meaning, policies, k, redundant);
    sig := PerSigFindings(k, classes, permitShadowed, forbidShadowed, permitOverridden);
  }

  /** The entries of one environment list exactly what holds there. */
  method SetsAt(ghost kind: Kind, ghost meaning: Meaning, ghost policies: seq<Policy>, k: nat, findings: FindingsMap)
    returns (out: IdSets)
    requires k < |meaning.requests| && Exact(kind, meaning, AsSet(policies), OrderedPairs(policies), findings)
    ensures ExactSets(kind, meaning, policies, k, out)
  {
    RecordedSets(kind, meaning, policies, k, findings);
    out := FindingsAt(findings, k);
  }

  method SemanticClasses(ghost meaning: Meaning, ghost policies: seq<Policy>, k: nat, redundant: IdSets)
    returns (classes: seq<set<PolicyId>>)
    requires k < |meaning.requests| && UniqueIds(policies) && ExactSets(Redundant, meaning, policies, k, redundant)
    ensures ExactClasses(meaning, policies, k, classes)
  {
    forall id | id in redundant ensures exists p :: p in policies && p.id == id {
      var p :| p in AsSet(policies) && p.id == id;
    }
    RedundancyIsEquivalence(meaning, policies, k, redundant);
    classes := ExtractClasses(redundant);
    ExtractedAreExact(meaning, policies, k, redundant, classes);
  }

  /** Something is found in an environment: for two different policies a finding of some kind holds. */
  ghost predicate SomethingFound(meaning: Meaning, policies: seq<Policy>, k: nat)
    requires k < |meaning.requests|
  {
    exists p, q, kind: Kind {:trigger Holds(kind, meaning, p, q, k)} ::
      p in policies && q in policies && p != q && Holds(kind, meaning, p, q, k)
  }

  ghost predicate FoundOf(kind: Kind, meaning: Meaning, policies: seq<Policy>, k: nat)
    requires k < |meaning.requests|
  {
    exists p, q :: p in policies && q in policies && p != q && Holds(kind, meaning, p, q, k)
  }

  /** The number of findings is zero exactly when nothing holds. */
  lemma CountedFindings(meaning: Meaning, policies: seq<Policy>, sig: PerSigFindings)
    requires UniqueIds(policies) && ExactAt(meaning, policies, sig)
    ensures SomethingFound(meaning, policies, sig.env) <==>
              |sig.equivClasses| + |PairsOf(sig.permitShadowed)| + |PairsOf(sig.permitOverridden)|
              + |PairsOf(sig.forbidShadowed)| != 0
  {
    CountedPairs(PermitShadowed, meaning, policies, sig.env, sig.permitShadowed);
    CountedPairs(PermitOverridden, meaning, policies, sig.env, sig.permitOverridden);
    CountedPairs(ForbidShadowed, meaning, policies, sig.env, sig.forbidShadowed);
    CountedClasses(meaning, policies, sig.env, sig.equivClasses);
  }

  lemma CountedClasses(meaning: Meaning, policies: seq<Policy>, k: nat, classes: seq<set<PolicyId>>)
    requires k < |meaning.requests| && UniqueIds(policies) && ExactClasses(meaning, policies, k, classes)
    ensures classes != [] <==> FoundOf(Redundant, meaning, policies, k)
  {
    if classes != [] {
      var c := classes[0];
      assert c in classes;
      var p :| p in policies && !meaning.Empty(p, k) && c == ClassOf(meaning, policies, p, k);
      var id := AnotherMember(c, p.id);
      var q :| q in policies && q.effect == p.effect && meaning.M(q, k) == meaning.M(p, k) && q.id == id;
      assert Holds(Redundant, meaning, p, q, k);
    }
    if p, q :| p in policies && q in policies && p != q && Holds(Redundant, meaning, p, q, k) {
      var c := ClassOf(meaning, policies, p, k);
      if p.id == q.id {
        SameIdSamePolicy(policies, p, q);
      }
      assert {p.id, q.id} <= c;
      SubsetSize({p.id, q.id}, c);
      assert c in classes;
    }
  }

  lemma CountedPairs(kind: Kind, meaning: Meaning, policies: seq<Policy>, k: nat, m: IdSets)
    requires k < |meaning.requests| && ExactSets(kind, meaning, policies, k, m)
    ensures PairsOf(m) != {} <==> FoundOf(kind, meaning, policies, k)
  {
    if pair :| pair in PairsOf(m) {
      var p :| p in AsSet(policies) && p.id == pair.0;
      var q :| q in AsSet(policies) && q.id == pair.1;
      assert Holds(kind, meaning, p, q, k);
    }
    if p, q :| p in policies && q in policies && p != q && Holds(kind, meaning, p, q, k) {
      assert (p.id, q.id) in PairsOf(m);
    }
  }

  // ---------- The whole report ----------

  /** Vacuity over all environments. */
  ghost predicate IsOverallVacuity(meaning: Meaning, p: Policy, vr: VacuityResult) {
    && (vr.MatchesAll? <==> forall k: nat | k < |meaning.requests| :: meaning.Full(p, k))
    && (vr.MatchesNone? <==> |meaning.requests| > 0 && forall k: nat | k < |meaning.requests| :: meaning.Empty(p, k))
  }

  lemma OverallVacuity(meaning: Meaning, p: Policy, vrs: seq<VacuityResult>)
    requires meaning.Valid() && AreVacuities(meaning, p, vrs)
    ensures IsOverallVacuity(meaning, p, VacuousFindingFromResults(vrs))
  {
    forall k: nat | k < |vrs| ensures vrs[k] == MatchesAll <==> meaning.Full(p, k) {
      assert IsVacuity(meaning, p, k, vrs[k]);
    }
    forall k: nat | k < |vrs| ensures vrs[k] == MatchesNone <==> meaning.Empty(p, k) {
      assert IsVacuity(meaning, p, k, vrs[k]);
    }
    if |vrs| > 0 && vrs[0] == MatchesAll {
      assert !meaning.Empty(p, 0);
    }
  }

  /** The environments of the report: in order, those in which something is found, each with exactly what is found. */
  ghost predicate ReportUpTo(meaning: Meaning, policies: seq<Policy>, n: nat, sigs: seq<PerSigFindings>)
    requires n <= |meaning.requests|
  {
    && (forall i | 0 <= i < |sigs| :: sigs[i].env < n && ExactAt(meaning, policies, sigs[i]))
    && (forall i, j | 0 <= i < j < |sigs| :: sigs[i].env < sigs[j].env)
    && (forall k: nat | k < n ::
          SomethingFound(meaning, policies, k) <==> exists i :: 0 <= i < |sigs| && sigs[i].env == k)
  }

  /** The policies reported as vacuous: those that match everything, or nothing, in all environments. */
  ghost predicate VacuousPoliciesOf(meaning: Meaning, policies: seq<Policy>, vacuous: map<PolicyId, VacuityResult>) {
    && (forall id | id in vacuous :: !vacuous[id].MatchesSome? && id in IdsOf(AsSet(policies)))
    && forall p | p in policies ::
         IsOverallVacuity(meaning, p, if p.id in vacuous then vacuous[p.id] else MatchesSome)
  }

  ghost predicate ExactReport(meaning: Meaning, policies: seq<Policy>, report: AnalyzePolicyFindings) {
    && VacuousPoliciesOf(meaning, policies, report.vacuousPolicies)
    && ReportUpTo(meaning, policies, |meaning.requests|, report.perSigFindings)
    && (report.vacuousResult.MatchesAll? <==>
          forall k: nat | k < |meaning.requests| :: meaning.Allowed(policies, k) == meaning.requests[k])
    && (report.vacuousResult.MatchesNone? <==>
          |meaning.requests| > 0 && forall k: nat | k < |meaning.requests| :: meaning.Allowed(policies, k) == iset{})
  }

  method Vacuities(solver: Solver, ghost meaning: Meaning, policies: seq<Policy>, envs: nat)
    returns (vacuities: map<PolicyId, seq<VacuityResult>>)
    requires meaning.Valid() && solver.Exact(meaning) && UniqueIds(policies) && envs == |meaning.requests|
    ensures HasVacuities(meaning, policies, vacuities)
    ensures vacuities.Keys == IdsOf(AsSet(policies))
  {
    vacuities := map[];
    for i := 0 to |policies|
      invariant HasVacuities(meaning, policies[..i], vacuities)
      invariant vacuities.Keys == IdsOf(AsSet(policies[..i]))
    {
      var vrs := PolicyVacuous(solver, meaning, policies[i], envs);
      forall p | p in policies[..i] ensures p.id != policies[i].id {}
      vacuities := vacuities[policies[i].id := vrs];
      assert policies[..i + 1] == policies[..i] + [policies[i]];
      assert AsSet(policies[..i + 1]) == AsSet(policies[..i]) + {policies[i]};
    }
    assert policies[..|policies|] == policies;
  }

  method VacuousPolicies(ghost meaning: Meaning, ghost policies: seq<Policy>,
                         vacuities: map<PolicyId, seq<VacuityResult>>)
    returns (vacuous: map<PolicyId, VacuityResult>)
    requires meaning.Valid() && HasVacuities(meaning, policies, vacuities) && vacuities.Keys == IdsOf(AsSet(policies))
    ensures VacuousPoliciesOf(meaning, policies, vacuous)
  {
    var findings := map id | id in vacuities :: VacuousFindingFromResults(vacuities[id]);
    vacuous := map id | id in findings && findings[id] != MatchesSome :: findings[id];
    forall p | p in policies
      ensures IsOverallVacuity(meaning, p, if p.id in vacuous then vacuous[p.id] else MatchesSome)
    {
      OverallVacuity(meaning, p, vacuities[p.id]);
    }
  }

  method PerSigReport(ghost meaning: Meaning, ghost policies: seq<Policy>, envs: nat, findings: Findings)
    returns (sigs: seq<PerSigFindings>)
    requires UniqueIds(policies) && envs == |meaning.requests|
    requires AllExact(meaning, AsSet(policies), OrderedPairs(policies), findings)
    ensures ReportUpTo(meaning, policies, envs, sigs)
  {
    sigs := [];
    for k := 0 to envs
      invariant ReportUpTo(meaning, policies, k, sigs)
    {
      sigs := ReportEnv(meaning, policies, k, findings, sigs);
    }
  }

  /** Adds the findings of one environment to the report, if there are any. */
  method ReportEnv(ghost meaning: Meaning, ghost policies: seq<Policy>, k: nat, findings: Findings,
                   sigs: seq<PerSigFindings>)
    returns (out: seq<PerSigFindings>)
    requires UniqueIds(policies) && k < |meaning.requests| && ReportUpTo(meaning, policies, k, sigs)
    requires AllExact(meaning, AsSet(policies), OrderedPairs(policies), findings)
    ensures ReportUpTo(meaning, policies, k + 1, out)
  {
    var sig := PerSigFindingsNew(meaning, policies, k, findings);
    var n := NFindings(sig);
    CountedFindings(meaning, policies, sig);
    NextEnv(meaning, policies, k, sigs, sig);
    out := if n != 0 then sigs + [sig] else sigs;
  }

  lemma NextEnv(meaning: Meaning, policies: seq<Policy>, k: nat, sigs: seq<PerSigFindings>, sig: PerSigFindings)
    requires k < |meaning.requests| && ReportUpTo(meaning, policies, k, sigs) && sig.env == k
      && ExactAt(meaning, policies, sig)
    ensures ReportUpTo(meaning, policies, k + 1, if SomethingFound(meaning, policies, k) then sigs + [sig] else sigs)
  {
    var out := if SomethingFound(meaning, policies, k) then sigs + [sig] else sigs;
    forall i: nat | i < k + 1
      ensures SomethingFound(meaning, policies, i) <==> exists j :: 0 <= j < |out| && out[j].env == i
    {
      if j :| 0 <= j < |sigs| && sigs[j].env == i {
        assert out[j].env == i;
      }
      if i == k && SomethingFound(meaning, policies, k) {
        assert out[|sigs|].env == k;
      }
    }
  }

  /** Analyses a policy set in the given number of request environments. */
  method AnalyzePolicySet(solver: Solver, ghost meaning: Meaning, policies: seq<Policy>, envs: nat)
    returns (report: AnalyzePolicyFindings)
    requires meaning.Valid() && solver.Exact(meaning) && UniqueIds(policies) && envs == |meaning.requests|
    ensures ExactReport(meaning, policies, report)
  {
    var vacuities := Vacuities(solver, meaning, policies, envs);
    var setVacuities := PolicySetVacuous(solver, meaning, policies, envs);
    var findings := AnalyzePairs(solver, meaning, policies, vacuities);
    var vacuous := VacuousPolicies(meaning, policies, vacuities);
    var sigs := PerSigReport(meaning, policies, envs, findings);
    report := AnalyzePolicyFindings(VacuousFindingFromResults(setVacuities), vacuous, sigs);
    SetVacuity(meaning, policies, setVacuities);
  }

  lemma SetVacuity(meaning: Meaning, policies: seq<Policy>, vrs: seq<VacuityResult>)
    requires meaning.Valid() && |vrs| == |meaning.requests|
    requires forall k: nat | k < |vrs| :: vrs[k].MatchesAll? <==> meaning.Allowed(policies, k) == meaning.requests[k]
    requires forall k: nat | k < |vrs| :: vrs[k].MatchesNone? <==> meaning.Allowed(policies, k) == iset{}
    ensures VacuousFindingFromResults(vrs).MatchesAll? <==>
              forall k: nat | k < |vrs| :: meaning.Allowed(policies, k) == meaning.requests[k]
    ensures VacuousFindingFromResults(vrs).MatchesNone? <==>
              |vrs| > 0 && forall k: nat | k < |vrs| :: meaning.Allowed(policies, k) == iset{}
  {
    if |vrs| > 0 && vrs[0] == MatchesAll {
      assert meaning.Allowed(policies, 0) != iset{};
    }
  }

  // ---------- Acting on the report ----------

  predicate NothingListed(m: IdSets, id: PolicyId) {
    id in m ==> m[id] == {}
  }

  /** Not reported as shadowed or overridden, and not one of the class members that are dropped. */
  predicate IsKept(sig: PerSigFindings, representatives: set<PolicyId>, p: Policy) {
    && NothingListed(sig.permitShadowed, p.id)
    && NothingListed(sig.forbidShadowed, p.id)
    && NothingListed(sig.permitOverridden, p.id)
    && forall c | c in sig.equivClasses && p.id in c :: p.id in representatives
  }

  /** The policies that have the effect of `p` and match strictly more. */
  ghost function Above(meaning: Meaning, policies: seq<Policy>, k: nat, p: Policy): set<Policy> {
    set q | q in policies && q.effect == p.effect && meaning.M(p, k) < meaning.M(q, k)
  }

  /** Some policy with the same effect matches at least as much and is not shadowed. */
  lemma {:induction false} MaximalAbove(meaning: Meaning, policies: seq<Policy>, k: nat, p: Policy) returns (m: Policy)
    requires p in policies
    ensures m in policies && m.effect == p.effect && meaning.M(p, k) <= meaning.M(m, k)
    ensures Above(meaning, policies, k, m) == {}
    decreases Above(meaning, policies, k, p)
  {
    m := p;
    if q :| q in Above(meaning, policies, k, p) {
      assert Above(meaning, policies, k, q) <= Above(meaning, policies, k, p) - {q};
      m := MaximalAbove(meaning, policies, k, q);
    }
  }

  /** A policy that matches exactly what `m` does and is the one of its class that stays. */
  lemma RepresentativeOf(meaning: Meaning, policies: seq<Policy>, sig: PerSigFindings, representatives: set<PolicyId>,
                         m: Policy)
    returns (p: Policy)
    requires UniqueIds(policies) && ExactAt(meaning, policies, sig)
    requires forall c | c in sig.equivClasses :: c * representatives != {}
    requires m in policies && !meaning.Empty(m, sig.env)
    ensures p in policies && p.effect == m.effect && meaning.M(p, sig.env) == meaning.M(m, sig.env)
    ensures forall c | c in sig.equivClasses && p.id in c :: p.id in representatives
  {
    var k := sig.env;
    var c := ClassOf(meaning, policies, m, k);
    forall d | d in sig.equivClasses && m.id in d ensures d == c {
      ReportedInOwnClass(meaning, policies, k, sig.equivClasses, d, m);
    }
    if c in sig.equivClasses {
      var id :| id in c * representatives;
      p :| p in policies && p.effect == m.effect && meaning.M(p, k) == meaning.M(m, k) && p.id == id;
    } else {
      p := m;
    }
  }

  /** The class a policy is reported in is its own class. */
  lemma ReportedInOwnClass(meaning: Meaning, policies: seq<Policy>, k: nat, classes: seq<set<PolicyId>>,
                           d: set<PolicyId>, m: Policy)
    requires UniqueIds(policies) && ExactClasses(meaning, policies, k, classes)
    requires d in classes && m in policies && m.id in d
    ensures d == ClassOf(meaning, policies, m, k)
  {
    var q :| q in policies && d == ClassOf(meaning, policies, q, k);
    assert m.id in ClassOf(meaning, policies, q, k);
    var o :| o in policies && o.effect == q.effect && meaning.M(o, k) == meaning.M(q, k) && o.id == m.id;
    SameIdSamePolicy(policies, o, m);
  }

  lemma ListedHolds(kind: Kind, meaning: Meaning, policies: seq<Policy>, k: nat, m: IdSets, p: Policy)
    requires k < |meaning.requests| && ExactSets(kind, meaning, policies, k, m) && p in policies
    ensures NothingListed(m, p.id) || exists q :: q in policies && Holds(kind, meaning, p, q, k)
  {
    if p.id in m && m[p.id] != {} {
      var id :| id in m[p.id];
      var q :| q in AsSet(policies) && q.id == id;
      assert Holds(kind, meaning, p, q, k);
    }
  }

  /** A matching policy leads to one that also matches and is kept, or, for a permit, is overridden by a forbid. */
  lemma KeptInstead(meaning: Meaning, policies: seq<Policy>, sig: PerSigFindings, representatives: set<PolicyId>,
                    p: Policy, r: Request) returns (kept: Policy)
    requires UniqueIds(policies) && ExactAt(meaning, policies, sig)
    requires forall c | c in sig.equivClasses :: c * representatives != {}
    requires p in policies && r in meaning.M(p, sig.env)
    requires p.effect.Permit? ==> forall f | f in policies && f.effect.Forbid? :: r !in meaning.M(f, sig.env)
    ensures kept in policies && kept.effect == p.effect && r in meaning.M(kept, sig.env)
    ensures IsKept(sig, representatives, kept)
  {
    var k := sig.env;
    var m := MaximalAbove(meaning, policies, k, p);
    kept := RepresentativeOf(meaning, policies, sig, representatives, m);
    assert Above(meaning, policies, k, kept) == Above(meaning, policies, k, m);
    forall q | q in policies
      ensures !Holds(PermitShadowed, meaning, kept, q, k) && !Holds(ForbidShadowed, meaning, kept, q, k)
    {
      assert q !in Above(meaning, policies, k, kept);
    }
    ListedHolds(PermitShadowed, meaning, policies, k, sig.permitShadowed, kept);
    ListedHolds(ForbidShadowed, meaning, policies, k, sig.forbidShadowed, kept);
    ListedHolds(PermitOverridden, meaning, policies, k, sig.permitOverridden, kept);
  }

  /**
   Keeping at least one member of every class, and every other policy that is not reported as shadowed
   or overridden, decides every request of the environment as the whole policy set does.
   */
  lemma ActingOnTheReportIsSound(meaning: Meaning, policies: seq<Policy>, sig: PerSigFindings,
                                 representatives: set<PolicyId>, remaining: seq<Policy>, r: Request)
    requires UniqueIds(policies) && ExactAt(meaning, policies, sig)
    requires forall c | c in sig.equivClasses :: c * representatives != {}
    requires forall p | p in remaining :: p in policies
    requires forall p | p in policies && IsKept(sig, representatives, p) :: p in remaining
    ensures meaning.Allows(remaining, sig.env, r) <==> meaning.Allows(policies, sig.env, r)
  {
    var k := sig.env;
    if f :| f in policies && f.effect.Forbid? && r in meaning.M(f, k) {
      var kept := KeptInstead(meaning, policies, sig, representatives, f, r);
      assert kept in remaining;
    } else if p :| p in policies && p.effect.Permit? && r in meaning.M(p, k) {
      var kept := KeptInstead(meaning, policies, sig, representatives, p, r);
      assert kept in remaining;
    }
  }
}
