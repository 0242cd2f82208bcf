/** From the recorded findings to the report: equivalence classes and findings per environment. */
module PolicyReport {
  import opened PolicyMeaning
  import opened PolicyFindings
  import opened Cardinality

  type IdSets = map<PolicyId, set<PolicyId>>

  // ---------- Equivalence classes ----------

  function ClassIn(m: IdSets, id: PolicyId): set<PolicyId>
    requires id in m
  {
    m[id] + {id}
  }

  /** Every id lists the other members of its class, and all members of a class are keys. */
  ghost predicate IsEquivalence(m: IdSets) {
    forall id, other | id in m && other in ClassIn(m, id) :: other in m && ClassIn(m, other) == ClassIn(m, id)
  }

  predicate PairwiseDisjoint(classes: seq<set<PolicyId>>) {
    forall i, j | 0 <= i < j < |classes| :: classes[i] !! classes[j]
  }

  ghost predicate IsClassOf(m: IdSets, done: set<PolicyId>, c: set<PolicyId>) {
    |c| >= 2 && c <= done && exists id :: id in done && id in m && c == ClassIn(m, id)
  }

  /** The classes are those of the ids in `done` that have another member, each once. */
  ghost predicate ClassesOf(m: IdSets, done: set<PolicyId>, classes: seq<set<PolicyId>>) {
    && (forall c | c in classes :: IsClassOf(m, done, c))
    && (forall id | id in done && id in m && |ClassIn(m, id)| >= 2 :: ClassIn(m, id) in classes)
    && PairwiseDisjoint(classes)
  }

  /** The part of the loop's state that is still to be turned into classes. */
  ghost predicate Remaining(m: IdSets, done: set<PolicyId>, rest: IdSets) {
    && done <= m.Keys
    && rest.Keys == m.Keys - done
    && (forall id | id in rest :: rest[id] == m[id])
    && ClosedUnderClasses(m, m.Keys - done)
  }

  /** Some ids are done, and the classes so far are theirs. */
  ghost predicate InProgress(m: IdSets, rest: IdSets, classes: seq<set<PolicyId>>) {
    IsEquivalence(m) && exists done :: Remaining(m, done, rest) && ClassesOf(m, done, classes)
  }

  /** Taking the class of any entry left makes progress. */
  lemma ClassTaken(m: IdSets, rest: IdSets, id: PolicyId, classes: seq<set<PolicyId>>)
    requires InProgress(m, rest, classes) && id in rest
    ensures var c := rest[id] + {id};
            && InProgress(m, rest - c, if |c| >= 2 then classes + [c] else classes)
            && |(rest - c).Keys| < |rest.Keys|
  {
    var done :| Remaining(m, done, rest) && ClassesOf(m, done, classes);
    var c := m[id] + {id};
    NextClass(m, done, id, classes);
    SmallerKeys(rest.Keys, (rest - c).Keys, id);
    RemainingAfter(m, done, rest, c);
  }

  lemma RemainingAfter(m: IdSets, done: set<PolicyId>, rest: IdSets, c: set<PolicyId>)
    requires Remaining(m, done, rest) && c <= m.Keys && ClosedUnderClasses(m, m.Keys - (done + c))
    ensures Remaining(m, done + c, rest - c)
  {
  }

  lemma NothingTaken(m: IdSets)
    requires IsEquivalence(m)
    ensures InProgress(m, m, [])
  {
    assert Remaining(m, {}, m) && ClassesOf(m, {}, []);
  }

  lemma EverythingTaken(m: IdSets, rest: IdSets, classes: seq<set<PolicyId>>)
    requires InProgress(m, rest, classes) && rest.Keys == {}
    ensures ClassesOf(m, m.Keys, classes)
  {
    var done :| Remaining(m, done, rest) && ClassesOf(m, done, classes);
    assert done == m.Keys;
  }

  /** Turns the redundancy sets into classes: takes any entry, makes its class, and removes all members. */
  method ExtractClasses(equivResults: IdSets) returns (classes: seq<set<PolicyId>>)
    requires IsEquivalence(equivResults)
    ensures ClassesOf(equivResults, equivResults.Keys, classes)
  {
    classes := [];
    var rest := equivResults;
    NothingTaken(equivResults);
    while rest.Keys != {}
      invariant InProgress(equivResults, rest, classes)
      decreases |rest.Keys|
    {
      var id :| id in rest;
      var equivClass := rest[id] + {id};
      ClassTaken(equivResults, rest, id, classes);
      rest := rest - equivClass;
      if |equivClass| >= 2 {
        classes := classes + [equivClass];
      }
    }
    EverythingTaken(equivResults, rest, classes);
  }

  ghost predicate ClosedUnderClasses(m: IdSets, keys: set<PolicyId>) {
    forall id | id in keys && id in m :: ClassIn(m, id) <= keys
  }

  lemma SmallerKeys(a: set<PolicyId>, b: set<PolicyId>, id: PolicyId)
    requires b <= a && id in a && id !in b
    ensures |b| < |a|
  {
    SubsetSize(b, a - {id});
  }

  lemma RemoveClass(m: IdSets, keys: set<PolicyId>, id: PolicyId)
    requires IsEquivalence(m) && id in m && ClosedUnderClasses(m, keys)
    ensures ClosedUnderClasses(m, keys - ClassIn(m, id))
  {
    forall other, x | other in keys - ClassIn(m, id) && other in m && x in ClassIn(m, other)
      ensures x in keys - ClassIn(m, id)
    {
      assert ClassIn(m, x) == ClassIn(m, other);
    }
  }

  lemma AddClass(m: IdSets, done: set<PolicyId>, id: PolicyId, classes: seq<set<PolicyId>>)
    requires id in m && ClassIn(m, id) !! done
    requires forall x | x in ClassIn(m, id) && x in m :: ClassIn(m, x) == ClassIn(m, id)
    requires ClassesOf(m, done, classes)
    ensures var c := ClassIn(m, id);
            ClassesOf(m, done + c, if |c| >= 2 then classes + [c] else classes)
  {
    var c := ClassIn(m, id);
    var out := if |c| >= 2 then classes + [c] else classes;
    forall d | d in out ensures IsClassOf(m, done + c, d) {
      if d in classes {
        assert IsClassOf(m, done, d);
      } else {
        assert id in done + c && d == ClassIn(m, id);
      }
    }
    forall i, j | 0 <= i < j < |out| ensures out[i] !! out[j] {
      if j == |classes| {
        assert IsClassOf(m, done, out[i]);
      }
    }
  }

  /** One turn of the loop: the class of `id` is reported, and what is left is still whole classes. */
  lemma NextClass(m: IdSets, done: set<PolicyId>, id: PolicyId, classes: seq<set<PolicyId>>)
    requires IsEquivalence(m) && id in m && id !in done && done <= m.Keys
    requires ClosedUnderClasses(m, m.Keys - done) && ClassesOf(m, done, classes)
    ensures var c := m[id] + {id};
            && c <= m.Keys
            && ClosedUnderClasses(m, m.Keys - (done + c))
            && ClassesOf(m, done + c, if |c| >= 2 then classes + [c] else classes)
  {
    var c := ClassIn(m, id);
    RemoveClass(m, m.Keys - done, id);
    assert m.Keys - done - c == m.Keys - (done + c);
    assert id in m.Keys - done;
    AddClass(m, done, id, classes);
  }

  // ---------- The findings of one environment ----------

  datatype PerSigFindings = PerSigFindings(
    env: nat,
    equivClasses: seq<set<PolicyId>>,
    permitShadowed: IdSets,
    forbidShadowed: IdSets,
    permitOverridden: IdSets)

  /** The entries of one environment. */
  method FindingsAt(findings: FindingsMap, k: nat) returns (out: IdSets)
    requires forall id | id in findings :: k < |findings[id]|
    ensures out == map id | id in findings :: findings[id][k]
  {
    out := map[];
    var todo := findings.Keys;
    while todo != {}
      invariant todo <= findings.Keys
      invariant out == map id | id in findings && id !in todo :: findings[id][k]
      decreases |todo|
    {
      var id :| id in todo;
      out := out[id := findings[id][k]];
      todo := todo - {id};
    }
  }

  function PairsOf(m: IdSets): set<(PolicyId, PolicyId)> {
    set id, other | id in m && other in m[id] :: (id, other)
  }

  method CountPairs(m: IdSets) returns (n: nat)
    ensures n == |PairsOf(m)|
  {
    n := 0;
    var todo := m.Keys;
    ghost var counted: set<(PolicyId, PolicyId)> := {};
    while todo != {}
      invariant todo <= m.Keys
      invariant counted == set id, other | id in m && id !in todo && other in m[id] :: (id, other)
      invariant n == |counted|
      decreases |todo|
    {
      var id :| id in todo;
      ghost var more := set other | other in m[id] :: (id, other);
      PairsWith(id, m[id]);
      assert counted !! more;
      n := n + |m[id]|;
      counted := counted + more;
      todo := todo - {id};
    }
    assert counted == PairsOf(m);
  }

  lemma {:induction false} PairsWith(id: PolicyId, s: set<PolicyId>)
    ensures |set other | other in s :: (id, other)| == |s|
  {
    if s == {} {
      assert (set other | other in s :: (id, other)) == {};
    } else {
      var x :| x in s;
      PairsWith(id, s - {x});
      assert (set other | other in s :: (id, other)) == (set other | other in s - {x} :: (id, other)) + {(id, x)};
    }
  }

  /** How many findings there are: classes, and pairs of policies in the maps. */
  method NFindings(sig: PerSigFindings) returns (n: nat)
    ensures n == |sig.equivClasses| + |PairsOf(sig.permitShadowed)| + |PairsOf(sig.permitOverridden)|
                 + |PairsOf(sig.forbidShadowed)|
  {
    var a := CountPairs(sig.permitShadowed);
    var b := CountPairs(sig.permitOverridden);
    var c := CountPairs(sig.forbidShadowed);
    n := |sig.equivClasses| + a + b + c;
  }

  // ---------- What a report says ----------

  /** The ids of the policies with the effect and the match set of `p`. */
  ghost function ClassOf(meaning: Meaning, policies: seq<Policy>, p: Policy, k: nat): set<PolicyId> {
    set q | q in policies && q.effect == p.effect && meaning.M(q, k) == meaning.M(p, k) :: q.id
  }

  /** The classes are exactly the semantic classes with two or more members that match something. */
  ghost predicate ExactClasses(meaning: Meaning, policies: seq<Policy>, k: nat, classes: seq<set<PolicyId>>) {
    && (forall c | c in classes ::
          |c| >= 2 && exists p :: p in policies && !meaning.Empty(p, k) && c == ClassOf(meaning, policies, p, k))
    && (forall p | p in policies && !meaning.Empty(p, k) && |ClassOf(meaning, policies, p, k)| >= 2 ::
          ClassOf(meaning, policies, p, k) in classes)
    && PairwiseDisjoint(classes)
  }

  /** The map lists q for p exactly when the finding holds. */
  ghost predicate ExactSets(kind: Kind, meaning: Meaning, policies: seq<Policy>, k: nat, m: IdSets)
    requires k < |meaning.requests|
  {
    && (forall p, q | p in policies && q in policies ::
          p.id in m && q.id in m[p.id] <==> p != q && Holds(kind, meaning, p, q, k))
    && m.Keys <= IdsOf(AsSet(policies))
    && forall id | id in m :: m[id] <= IdsOf(AsSet(policies))
  }

  ghost predicate ExactAt(meaning: Meaning, policies: seq<Policy>, sig: PerSigFindings) {
    && sig.env < |meaning.requests|
    && ExactClasses(meaning, policies, sig.env, sig.equivClasses)
    && ExactSets(PermitShadowed, meaning, policies, sig.env, sig.permitShadowed)
    && ExactSets(ForbidShadowed, meaning, policies, sig.env, sig.forbidShadowed)
    && ExactSets(PermitOverridden, meaning, policies, sig.env, sig.permitOverridden)
  }

  lemma SameIdSamePolicy(policies: seq<Policy>, p: Policy, q: Policy)
    requires UniqueIds(policies) && p in policies && q in policies && p.id == q.id
    ensures p == q
  {
    var i :| 0 <= i < |policies| && policies[i] == p;
    var j :| 0 <= j < |policies| && policies[j] == q;
    assert i == j;
  }

  /** The recorded sets of one environment, read without the bookkeeping of pairs. */
  lemma RecordedSets(kind: Kind, meaning: Meaning, policies: seq<Policy>, k: nat, findings: FindingsMap)
    requires Exact(kind, meaning, AsSet(policies), OrderedPairs(policies), findings) && k < |meaning.requests|
    ensures forall id | id in findings :: k < |findings[id]|
    ensures ExactSets(kind, meaning, policies, k, map id | id in findings :: findings[id][k])
  {
    forall id | id in findings ensures k < |findings[id]| && findings[id][k] <= IdsOf(AsSet(policies)) {
      var p :| p in AsSet(policies) && p.id == id;
      assert ExactFor(kind, meaning, p, AsSet(policies), OrderedPairs(policies), findings[p.id]);
    }
    forall p, q | p in policies && q in policies
      ensures p.id in findings && q.id in findings[p.id][k] <==> p != q && Holds(kind, meaning, p, q, k)
    {
      if p.id in findings {
        assert ExactFor(kind, meaning, p, AsSet(policies), OrderedPairs(policies), findings[p.id]);
      } else if p != q && Comparable(kind, p, q) {
        assert (p, q) in OrderedPairs(policies);
        assert Compared(kind, p, OrderedPairs(policies));
      }
    }
  }

  /** With the redundancy sets of one environment, the class of an id is the semantic class. */
  lemma RedundancyClass(meaning: Meaning, policies: seq<Policy>, k: nat, m: IdSets, p: Policy)
    requires UniqueIds(policies) && k < |meaning.requests| && ExactSets(Redundant, meaning, policies, k, m)
    requires p in policies && p.id in m
    ensures ClassIn(m, p.id) == if meaning.Empty(p, k) then {p.id} else ClassOf(meaning, policies, p, k)
  {
    forall id | id in m[p.id]
      ensures exists q :: q in policies && q.id == id && q != p && Holds(Redundant, meaning, p, q, k)
    {
      var q :| q in AsSet(policies) && q.id == id;
    }
    forall q | q in policies && q != p && Holds(Redundant, meaning, p, q, k) ensures q.id in m[p.id] {}
  }

  lemma RedundancyIsEquivalence(meaning: Meaning, policies: seq<Policy>, k: nat, m: IdSets)
    requires UniqueIds(policies) && k < |meaning.requests| && ExactSets(Redundant, meaning, policies, k, m)
    requires forall id | id in m :: exists p :: p in policies && p.id == id
    ensures IsEquivalence(m)
  {
    forall id, other | id in m && other in ClassIn(m, id) ensures other in m && ClassIn(m, other) == ClassIn(m, id) {
      var p :| p in policies && p.id == id;
      RedundancyClass(meaning, policies, k, m, p);
      if other != id {
        var q :| q in policies && q.id == other && q.effect == p.effect && meaning.M(q, k) == meaning.M(p, k);
        assert Holds(Redundant, meaning, q, p, k);
        RedundancyClass(meaning, policies, k, m, q);
      }
    }
  }

  /** A class with two members has one besides `p`. */
  lemma AnotherMember(c: set<PolicyId>, id: PolicyId) returns (other: PolicyId)
    requires |c| >= 2
    ensures other in c && other != id
  {
    if c <= {id} {
      SubsetSize(c, {id});
    }
    other :| other in c && other != id;
  }

  lemma ExtractedAreExact(meaning: Meaning, policies: seq<Policy>, k: nat, m: IdSets, classes: seq<set<PolicyId>>)
    requires UniqueIds(policies) && k < |meaning.requests| && ExactSets(Redundant, meaning, policies, k, m)
    requires forall id | id in m :: exists p :: p in policies && p.id == id
    requires ClassesOf(m, m.Keys, classes)
    ensures ExactClasses(meaning, policies, k, classes)
  {
    forall c | c in classes
      ensures |c| >= 2 && exists p :: p in policies && !meaning.Empty(p, k) && c == ClassOf(meaning, policies, p, k)
    {
      assert IsClassOf(m, m.Keys, c);
      var id :| id in m && c == ClassIn(m, id);
      var p :| p in policies && p.id == id;
      RedundancyClass(meaning, policies, k, m, p);
      assert |{p.id}| == 1;
    }
    forall p | p in policies && !meaning.Empty(p, k) && |ClassOf(meaning, policies, p, k)| >= 2
      ensures ClassOf(meaning, policies, p, k) in classes
    {
      var id := AnotherMember(ClassOf(meaning, policies, p, k), p.id);
      var q :| q in policies && q.effect == p.effect && meaning.M(q, k) == meaning.M(p, k) && q.id == id;
      assert Holds(Redundant, meaning, p, q, k);
      assert p.id in m;
      RedundancyClass(meaning, policies, k, m, p);
    }
  }
}
