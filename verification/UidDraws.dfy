/** Drawing the uids of one entity type: which uids, and how many, a number of draws can give. */
module UidDraws {
  import opened Wrappers
  import opened Cardinality
  import opened Hierarchy

  /** A uid of the type; one of the choices if the type is enumerated. */
  predicate IsUidOf(ty: EntityTypeName, choices: Option<seq<string>>, u: Uid) {
    u.ty == ty && (choices.Some? ==> u.eid in choices.value)
  }

  predicate AreUidsOf(ty: EntityTypeName, choices: Option<seq<string>>, uids: seq<Uid>) {
    Distinct(uids) && forall u | u in uids :: IsUidOf(ty, choices, u)
  }

  /** An enumerated type has at least one choice. */
  predicate HasChoice(choices: Option<seq<string>>) {
    choices.Some? ==> choices.value != []
  }

  function AddNew(uids: seq<Uid>, u: Uid): seq<Uid> {
    if u in uids then uids else uids + [u]
  }

  /** The draws collected into a set that keeps the order of insertion. */
  function Collapse(draws: seq<Uid>): seq<Uid> {
    if draws == [] then [] else AddNew(Collapse(draws[..|draws| - 1]), draws[|draws| - 1])
  }

  /** The uids can come from `n` draws. */
  ghost predicate CanDraw(ty: EntityTypeName, choices: Option<seq<string>>, n: nat, uids: seq<Uid>) {
    exists draws :: IsDraws(ty, choices, n, draws) && uids == Collapse(draws)
  }

  ghost predicate IsDraws(ty: EntityTypeName, choices: Option<seq<string>>, n: nat, draws: seq<Uid>) {
    |draws| == n && forall u | u in draws :: IsUidOf(ty, choices, u)
  }

  /** The uids can come from a number of draws between the two. */
  ghost predicate CanDrawBetween(ty: EntityTypeName, choices: Option<seq<string>>, min: nat, max: nat, uids: seq<Uid>) {
    exists n :: min <= n <= max && CanDraw(ty, choices, n, uids)
  }

  /** There are that many different uids of the type. */
  predicate FitsChoices(choices: Option<seq<string>>, c: nat) {
    choices.Some? ==> c <= |ToSet(choices.value)|
  }

  lemma {:induction false} CollapseKeeps(draws: seq<Uid>)
    ensures Distinct(Collapse(draws)) && ToSet(Collapse(draws)) == ToSet(draws)
    ensures |Collapse(draws)| <= |draws| && (draws != [] ==> Collapse(draws) != [])
  {
    if draws == [] {
    } else {
      var front, last := draws[..|draws| - 1], draws[|draws| - 1];
      CollapseKeeps(front);
      assert ToSet(draws) == ToSet(front) + {last} by {
        assert draws == front + [last];
      }
      assert last in Collapse(front) <==> last in ToSet(Collapse(front));
      assert ToSet(AddNew(Collapse(front), last)) == ToSet(Collapse(front)) + {last};
    }
  }

  /** Later draws only add at the end: the uids are in the order in which each was first drawn. */
  lemma {:induction false} CollapseGrows(draws: seq<Uid>, n: nat)
    requires n <= |draws|
    ensures Collapse(draws[..n]) <= Collapse(draws)
    decreases |draws|
  {
    if n == |draws| {
      assert draws[..n] == draws;
    } else {
      var front := draws[..|draws| - 1];
      CollapseGrows(front, n);
      assert front[..n] == draws[..n];
    }
  }

  /** One more draw. */
  lemma DrawOneMore(ty: EntityTypeName, choices: Option<seq<string>>, n: nat, uids: seq<Uid>, u: Uid)
    requires CanDraw(ty, choices, n, uids) && IsUidOf(ty, choices, u)
    ensures CanDraw(ty, choices, n + 1, AddNew(uids, u))
  {
    var draws :| IsDraws(ty, choices, n, draws) && uids == Collapse(draws);
    assert (draws + [u])[..n] == draws;
    assert IsDraws(ty, choices, n + 1, draws + [u]);
  }

  lemma NoDraws(ty: EntityTypeName, choices: Option<seq<string>>)
    ensures CanDraw(ty, choices, 0, [])
  {
    assert IsDraws(ty, choices, 0, []) && Collapse([]) == [];
  }

  lemma DrawnAreUids(ty: EntityTypeName, choices: Option<seq<string>>, n: nat, uids: seq<Uid>)
    requires CanDraw(ty, choices, n, uids)
    ensures AreUidsOf(ty, choices, uids)
    ensures |uids| <= n && (n > 0 ==> |uids| > 0) && FitsChoices(choices, |uids|)
  {
    var draws :| IsDraws(ty, choices, n, draws) && uids == Collapse(draws);
    CollapseKeeps(draws);
    forall u | u in uids ensures u in draws {
      assert u in ToSet(uids);
    }
    UidsFitChoices(ty, choices, uids);
  }

  /** Different uids of an enumerated type are no more than its different choices. */
  lemma UidsFitChoices(ty: EntityTypeName, choices: Option<seq<string>>, uids: seq<Uid>)
    requires AreUidsOf(ty, choices, uids)
    ensures FitsChoices(choices, |uids|)
  {
    if choices.Some? {
      var eids := seq(|uids|, i requires 0 <= i < |uids| => uids[i].eid);
      forall i, j | 0 <= i < |eids| && 0 <= j < |eids| && eids[i] == eids[j] ensures i == j {
        assert IsUidOf(ty, choices, uids[i]) && IsUidOf(ty, choices, uids[j]);
        assert uids[i] == uids[j];
      }
      DistinctSeqSize(eids);
      forall e | e in eids ensures e in choices.value {
        var i :| 0 <= i < |eids| && eids[i] == e;
        assert IsUidOf(ty, choices, uids[i]);
      }
      SubsetSize(ToSet(eids), ToSet(choices.value));
    }
  }

  // ---------- How many there can be ----------

  lemma {:induction false} TakeDistinct(s: set<string>, c: nat) returns (es: seq<string>)
    requires c <= |s|
    ensures |es| == c && Distinct(es) && forall e | e in es :: e in s
  {
    if c == 0 {
      es := [];
    } else {
      var e :| e in s;
      var rest := TakeDistinct(s - {e}, c - 1);
      es := rest + [e];
      forall i, j | 0 <= i < j < |es| ensures es[i] != es[j] {
        assert i < |rest| && rest[i] in s - {e};
      }
    }
  }

  function Letters(n: nat): string {
    seq(n, _ => 'a')
  }

  /** That many different uids of the type. */
  lemma DifferentUids(ty: EntityTypeName, choices: Option<seq<string>>, c: nat) returns (uids: seq<Uid>)
    requires FitsChoices(choices, c)
    ensures AreUidsOf(ty, choices, uids) && |uids| == c
  {
    var eids: seq<string>;
    match choices {
      case Some(names) =>
        eids := TakeDistinct(ToSet(names), c);
      case None =>
        eids := seq(c, i requires 0 <= i < c => Letters(i));
        forall i, j | 0 <= i < j < c ensures eids[i] != eids[j] {
          assert |eids[i]| == i && |eids[j]| == j;
        }
    }
    uids := seq(c, i requires 0 <= i < c => Uid(ty, eids[i]));
    forall u | u in uids ensures IsUidOf(ty, choices, u) {
      var i :| 0 <= i < c && uids[i] == u;
      assert eids[i] in eids;
    }
  }

  /** Different uids drawn one after the other stay as they are. */
  lemma {:induction false} DifferentCanBeDrawn(ty: EntityTypeName, choices: Option<seq<string>>, uids: seq<Uid>)
    requires AreUidsOf(ty, choices, uids)
    ensures CanDraw(ty, choices, |uids|, uids)
  {
    if uids == [] {
      NoDraws(ty, choices);
    } else {
      var front, last := uids[..|uids| - 1], uids[|uids| - 1];
      DifferentCanBeDrawn(ty, choices, front);
      DrawOneMore(ty, choices, |front|, front, last);
      assert uids == front + [last];
    }
  }

  /** Drawing a uid again changes nothing. */
  lemma {:induction false} DrawAgain(ty: EntityTypeName, choices: Option<seq<string>>, n: nat, uids: seq<Uid>,
                                     more: nat)
    requires CanDraw(ty, choices, n, uids) && uids != []
    ensures CanDraw(ty, choices, n + more, uids)
  {
    if more == 0 {
    } else {
      DrawAgain(ty, choices, n, uids, more - 1);
      DrawnAreUids(ty, choices, n, uids);
      DrawOneMore(ty, choices, n + more - 1, uids, uids[0]);
    }
  }

  /** The number of uids that `n` draws can give. */
  predicate CountCanBe(choices: Option<seq<string>>, n: nat, c: nat) {
    if c == 0 then n == 0 else c <= n && FitsChoices(choices, c)
  }

  lemma CountCanBeIff(ty: EntityTypeName, choices: Option<seq<string>>, n: nat, c: nat)
    ensures CountCanBe(choices, n, c) <==> exists uids :: CanDraw(ty, choices, n, uids) && |uids| == c
  {
    if CountCanBe(choices, n, c) {
      var uids := DifferentUids(ty, choices, c);
      DifferentCanBeDrawn(ty, choices, uids);
      if c > 0 {
        DrawAgain(ty, choices, c, uids, n - c);
      }
    } else if uids :| CanDraw(ty, choices, n, uids) && |uids| == c {
      DrawnAreUids(ty, choices, n, uids);
    }
  }

  // ---------- When the promised number is reached ----------

  /** However many draws, all of them can give the same uid. */
  lemma OneUidOnly(ty: EntityTypeName, choices: Option<seq<string>>, n: nat, u: Uid)
    requires n > 0 && IsUidOf(ty, choices, u)
    ensures CanDraw(ty, choices, n, [u])
  {
    DifferentCanBeDrawn(ty, choices, [u]);
    DrawAgain(ty, choices, 1, [u], n - 1);
  }

  /** Every outcome has the promised number exactly if at most one uid is promised. */
  lemma AlwaysAsPromisedIff(ty: EntityTypeName, choices: Option<seq<string>>, n: nat)
    requires HasChoice(choices)
    ensures (forall uids | CanDraw(ty, choices, n, uids) :: |uids| == n) <==> n <= 1
  {
    if n <= 1 {
      forall uids | CanDraw(ty, choices, n, uids) ensures |uids| == n {
        DrawnAreUids(ty, choices, n, uids);
      }
    } else {
      var u := Uid(ty, if choices.Some? then choices.value[0] else "");
      OneUidOnly(ty, choices, n, u);
      assert |[u]| != n;
    }
  }

  /** Some outcome has the promised number exactly if there are as many different uids. */
  lemma SometimesAsPromisedIff(ty: EntityTypeName, choices: Option<seq<string>>, n: nat)
    ensures (exists uids :: CanDraw(ty, choices, n, uids) && |uids| == n) <==> FitsChoices(choices, n)
  {
    CountCanBeIff(ty, choices, n, n);
  }

  /** Every outcome is within the promised range exactly if its lower end is at most one. */
  lemma AlwaysInRangeIff(ty: EntityTypeName, choices: Option<seq<string>>, min: nat, max: nat)
    requires HasChoice(choices) && min <= max
    ensures (forall uids | CanDrawBetween(ty, choices, min, max, uids) :: min <= |uids| <= max) <==> min <= 1
  {
    if min <= 1 {
      forall uids | CanDrawBetween(ty, choices, min, max, uids) ensures min <= |uids| <= max {
        var n :| min <= n <= max && CanDraw(ty, choices, n, uids);
        DrawnAreUids(ty, choices, n, uids);
      }
    } else {
      var u := Uid(ty, if choices.Some? then choices.value[0] else "");
      OneUidOnly(ty, choices, min, u);
      assert CanDrawBetween(ty, choices, min, max, [u]) && |[u]| < min;
    }
  }

  /** Some outcome is within the promised range exactly if there are as many different uids as its lower end. */
  lemma SometimesInRangeIff(ty: EntityTypeName, choices: Option<seq<string>>, min: nat, max: nat)
    requires min <= max
    ensures (exists uids :: CanDrawBetween(ty, choices, min, max, uids) && min <= |uids| <= max)
      <==> FitsChoices(choices, min)
  {
    if FitsChoices(choices, min) {
      var uids := DifferentUids(ty, choices, min);
      DifferentCanBeDrawn(ty, choices, uids);
      assert CanDrawBetween(ty, choices, min, max, uids);
    } else if uids :| CanDrawBetween(ty, choices, min, max, uids) && min <= |uids| <= max {
      var n :| min <= n <= max && CanDraw(ty, choices, n, uids);
      DrawnAreUids(ty, choices, n, uids);
    }
  }
}
