/**
 When the generated parent relation has no cycle: always without a schema, and with one exactly when the types
 allow none.
 */
module HierarchyAcyclicity {
  import opened Hierarchy
  import opened HierarchyGenerator

  predicate IsParentOf(h: Hierarchy, parent: Uid, child: Uid) {
    child in h.entities && parent in h.entities[child].parents
  }

  /** Each entity is followed by one of its parents. */
  predicate IsParentPath(h: Hierarchy, path: seq<Uid>) {
    path != [] && forall i | 0 < i < |path| :: IsParentOf(h, path[i], path[i - 1])
  }

  /** No entity is its own ancestor. */
  ghost predicate Acyclic(h: Hierarchy) {
    forall path | |path| >= 2 && IsParentPath(h, path) :: path[0] != path[|path| - 1]
  }

  // ---------- Without a schema ----------

  lemma {:induction false} PositionIsUnique(uids: seq<Uid>, i: nat)
    requires Distinct(uids) && i < |uids|
    ensures PositionOf(uids, uids[i]) == i
  {
    assert uids[PositionOf(uids, uids[i])] == uids[i];
  }

  /** Without a schema the candidates are the uids that come later, whatever their types. */
  lemma ArbitraryCandidates(h: Hierarchy, u: Uid, v: Uid)
    requires InSync(h) && u in h.uids
    ensures v in Candidates(h, Arbitrary, u) <==> v in h.uids && PositionOf(h.uids, u) < PositionOf(h.uids, v)
  {
    var at := PositionOf(h.uids, u);
    if v in h.uids && at < PositionOf(h.uids, v) {
      assert h.uids[at + 1..][PositionOf(h.uids, v) - at - 1] == v;
    }
    if v in Candidates(h, Arbitrary, u) {
      var i :| at < i < |h.uids| && h.uids[i] == v;
      PositionIsUnique(h.uids, i);
    }
  }

  /** If every parent ranks higher than its child, ranks grow along a path. */
  lemma {:induction false} RanksIncrease(h: Hierarchy, rank: Uid -> nat, path: seq<Uid>)
    requires forall u, v | u in h.entities && v in h.entities[u].parents :: rank(u) < rank(v)
    requires |path| >= 2 && IsParentPath(h, path)
    ensures rank(path[0]) < rank(path[|path| - 1])
    decreases |path|
  {
    assert IsParentOf(h, path[1], path[0]);
    if |path| > 2 {
      RanksIncrease(h, rank, path[1..]);
    }
  }

  lemma ParentsComeLater(bare: Hierarchy, h: Hierarchy, u: Uid, v: Uid)
    requires InSync(bare) && ParentsChosen(bare, Arbitrary, h)
    requires u in h.entities && v in h.entities[u].parents
    ensures u in bare.uids && v in bare.uids && PositionOf(bare.uids, u) < PositionOf(bare.uids, v)
  {
    assert EntityChosen(bare, Arbitrary, u, h.entities[u]);
    assert v in ToSet(Candidates(bare, Arbitrary, u));
    ArbitraryCandidates(bare, u, v);
  }

  lemma ArbitraryIsAcyclic(bare: Hierarchy, h: Hierarchy)
    requires InSync(bare) && ParentsChosen(bare, Arbitrary, h)
    ensures Acyclic(h)
  {
    var rank: Uid -> nat := (u: Uid) => if u in bare.uids then PositionOf(bare.uids, u) else 0;
    forall u, v | u in h.entities && v in h.entities[u].parents ensures rank(u) < rank(v) {
      ParentsComeLater(bare, h, u, v);
    }
    forall path | |path| >= 2 && IsParentPath(h, path) ensures path[0] != path[|path| - 1] {
      RanksIncrease(h, rank, path);
    }
  }

  // ---------- With a schema ----------

  predicate Populated(h: Hierarchy, ty: EntityTypeName) {
    exists u :: u in h.uids && u.ty == ty
  }

  /** A walk over types that have entities, each followed by a different type it allows as a parent. */
  predicate IsTypeWalk(h: Hierarchy, mode: Mode, walk: seq<EntityTypeName>)
    requires mode.SchemaBased?
  {
    && walk != []
    && (forall i | 0 <= i < |walk| :: Populated(h, walk[i]))
    && (forall i | 0 < i < |walk| :: IsStep(mode, walk[i - 1], walk[i]))
  }

  /** A different type that the type allows as a parent. */
  predicate IsStep(mode: Mode, ty: EntityTypeName, parentTy: EntityTypeName)
    requires mode.SchemaBased?
  {
    ty in mode.allowedParents && parentTy in mode.allowedParents[ty] && parentTy != ty
  }

  /** Apart from a type allowing itself, no cycle in the allowed parents of the types that have entities. */
  ghost predicate TypesAcyclic(h: Hierarchy, mode: Mode)
    requires mode.SchemaBased?
  {
    forall walk | |walk| >= 2 && IsTypeWalk(h, mode, walk) :: walk[0] != walk[|walk| - 1]
  }

  lemma {:induction false} CandidatesOfTypesMembers(h: Hierarchy, types: seq<EntityTypeName>, u: Uid, v: Uid)
    requires InSync(h) && u in h.uids
    ensures v in CandidatesOfTypes(h, types, u) <==> v.ty in types && v in UidsForType(h, v.ty, u)
  {
    if types == [] {
    } else {
      CandidatesOfTypesMembers(h, types[1..], u, v);
      UidsForTypeMembers(h, types[0], u, v);
    }
  }

  /** A candidate is of an allowed type, and comes later in its bucket if it is of the entity's own type. */
  lemma SchemaCandidates(h: Hierarchy, mode: Mode, u: Uid, v: Uid)
    requires InSync(h) && mode.SchemaBased? && KnowsTypes(mode, h) && u in h.uids
    ensures v in Candidates(h, mode, u) <==>
              && v in h.uids && v.ty in mode.allowedParents[u.ty]
              && (u.ty == v.ty ==> h.uidsByType[v.ty].indices[v] > h.uidsByType[v.ty].indices[u])
  {
    CandidatesOfTypesMembers(h, mode.allowedParents[u.ty], u, v);
    UidsForTypeMembers(h, v.ty, u, v);
  }

  /** The types along a path, without repeating a type that follows itself. */
  function TypesAlong(path: seq<Uid>): (walk: seq<EntityTypeName>)
    requires path != []
    ensures walk != [] && walk[0] == path[0].ty
  {
    if |path| == 1 then [path[0].ty]
    else
      var rest := TypesAlong(path[1..]);
      if path[0].ty == path[1].ty then rest else [path[0].ty] + rest
  }

  /** Where a uid stands in its bucket. */
  function IndexInBucket(h: Hierarchy, u: Uid): nat {
    if u.ty in h.uidsByType && u in h.uidsByType[u.ty].indices then h.uidsByType[u.ty].indices[u] else 0
  }

  /** A parent is of a type the child's type allows, and comes later in its bucket if the types are the same. */
  predicate EdgeFits(bare: Hierarchy, mode: Mode, u: Uid, v: Uid)
    requires mode.SchemaBased?
  {
    && Populated(bare, u.ty) && Populated(bare, v.ty)
    && u.ty in mode.allowedParents && v.ty in mode.allowedParents[u.ty]
    && (u.ty == v.ty ==> IndexInBucket(bare, u) < IndexInBucket(bare, v))
  }

  lemma ChosenEdgeFits(bare: Hierarchy, mode: Mode, h: Hierarchy, u: Uid, v: Uid)
    requires InSync(bare) && mode.SchemaBased? && KnowsTypes(mode, bare) && ParentsChosen(bare, mode, h)
    requires u in h.entities && v in h.entities[u].parents
    ensures EdgeFits(bare, mode, u, v)
  {
    assert EntityChosen(bare, mode, u, h.entities[u]);
    assert v in ToSet(Candidates(bare, mode, u));
    SchemaCandidates(bare, mode, u, v);
    assert Populated(bare, u.ty) && Populated(bare, v.ty);
    if u.ty == v.ty {
      assert BucketInSync(bare, u.ty);
      assert u in ToSet(bare.uidsByType[u.ty].uids) && v in ToSet(bare.uidsByType[u.ty].uids);
    }
  }

  /** Along a path the types make a walk; if the type never changes, the index in its bucket grows. */
  lemma {:induction false} PathMakesWalk(bare: Hierarchy, mode: Mode, h: Hierarchy, path: seq<Uid>)
    requires mode.SchemaBased?
    requires forall u, v | u in h.entities && v in h.entities[u].parents :: EdgeFits(bare, mode, u, v)
    requires |path| >= 2 && IsParentPath(h, path)
    ensures var walk := TypesAlong(path);
            && IsTypeWalk(bare, mode, walk)
            && walk[|walk| - 1] == path[|path| - 1].ty
            && (|walk| == 1 ==> IndexInBucket(bare, path[0]) < IndexInBucket(bare, path[|path| - 1]))
    decreases |path|
  {
    var u, v := path[0], path[1];
    assert IsParentOf(h, path[1], path[0]);
    assert EdgeFits(bare, mode, u, v);
    if |path| > 2 {
      PathMakesWalk(bare, mode, h, path[1..]);
    } else {
      assert TypesAlong(path[1..]) == [v.ty];
    }
  }

  lemma AcyclicTypesGiveAcyclicParents(bare: Hierarchy, mode: Mode, h: Hierarchy)
    requires InSync(bare) && mode.SchemaBased? && KnowsTypes(mode, bare) && ParentsChosen(bare, mode, h)
    requires TypesAcyclic(bare, mode)
    ensures Acyclic(h)
  {
    forall u, v | u in h.entities && v in h.entities[u].parents ensures EdgeFits(bare, mode, u, v) {
      ChosenEdgeFits(bare, mode, h, u, v);
    }
    forall path | |path| >= 2 && IsParentPath(h, path) ensures path[0] != path[|path| - 1] {
      PathMakesWalk(bare, mode, h, path);
      var walk := TypesAlong(path);
      if |walk| >= 2 {
        assert walk[0] != walk[|walk| - 1];
      }
    }
  }

  /** Every entity has all its candidates as parents: a possible outcome of the draws. */
  function AllCandidates(bare: Hierarchy, mode: Mode): Hierarchy
    requires InSync(bare) && KnowsTypes(mode, bare)
  {
    ReplaceEntities(bare, map u | u in bare.uids :: Entity(u, ToSet(Candidates(bare, mode, u))))
  }

  function AnyOf(h: Hierarchy, ty: EntityTypeName): (u: Uid)
    requires InSync(h) && Populated(h, ty)
    ensures u in h.uids && u.ty == ty
  {
    var bucket := h.uidsByType[ty].uids;
    assert BucketInSync(h, ty);
    assert bucket != [] by {
      var u :| u in h.uids && u.ty == ty;
      assert u in ToSet(bucket);
    }
    assert bucket[0] in ToSet(bucket);
    bucket[0]
  }

  lemma StepBetweenTypes(bare: Hierarchy, mode: Mode, ty: EntityTypeName, parentTy: EntityTypeName)
    requires InSync(bare) && mode.SchemaBased? && KnowsTypes(mode, bare)
    requires Populated(bare, ty) && Populated(bare, parentTy) && IsStep(mode, ty, parentTy)
    ensures var h, u := AllCandidates(bare, mode), AnyOf(bare, ty);
            IsParentOf(h, AnyOf(bare, parentTy), u)
  {
    SchemaCandidates(bare, mode, AnyOf(bare, ty), AnyOf(bare, parentTy));
  }

  /** A cycle of types can be followed from entity to entity. */
  lemma WalkMakesPath(bare: Hierarchy, mode: Mode, walk: seq<EntityTypeName>)
    requires InSync(bare) && mode.SchemaBased? && KnowsTypes(mode, bare) && IsTypeWalk(bare, mode, walk)
    requires |walk| >= 2 && walk[0] == walk[|walk| - 1]
    ensures !Acyclic(AllCandidates(bare, mode))
  {
    var path := seq(|walk|, i requires 0 <= i < |walk| => AnyOf(bare, walk[i]));
    AnyOfWalk(bare, mode, walk, path);
    CycleFound(AllCandidates(bare, mode), path);
  }

  lemma CycleFound(h: Hierarchy, path: seq<Uid>)
    requires |path| >= 2 && IsParentPath(h, path) && path[0] == path[|path| - 1]
    ensures !Acyclic(h)
  {
  }

  lemma AnyOfWalk(bare: Hierarchy, mode: Mode, walk: seq<EntityTypeName>, path: seq<Uid>)
    requires InSync(bare) && mode.SchemaBased? && KnowsTypes(mode, bare) && IsTypeWalk(bare, mode, walk)
    requires |path| == |walk| && forall i | 0 <= i < |walk| :: path[i] == AnyOf(bare, walk[i])
    ensures IsParentPath(AllCandidates(bare, mode), path)
  {
    var h := AllCandidates(bare, mode);
    forall i | 0 < i < |path| ensures IsParentOf(h, path[i], path[i - 1]) {
      assert IsStep(mode, walk[i - 1], walk[i]);
      StepBetweenTypes(bare, mode, walk[i - 1], walk[i]);
    }
  }

  /** With a schema no outcome of the draws has a cycle, exactly if the types have none. */
  lemma SchemaBasedIsAcyclicIff(bare: Hierarchy, mode: Mode)
    requires InSync(bare) && mode.SchemaBased? && KnowsTypes(mode, bare)
    ensures TypesAcyclic(bare, mode) <==> forall h | ParentsChosen(bare, mode, h) :: Acyclic(h)
  {
    if TypesAcyclic(bare, mode) {
      forall h | ParentsChosen(bare, mode, h) ensures Acyclic(h) {
        AcyclicTypesGiveAcyclicParents(bare, mode, h);
      }
    } else {
      var walk :| |walk| >= 2 && IsTypeWalk(bare, mode, walk) && walk[0] == walk[|walk| - 1];
      WalkMakesPath(bare, mode, walk);
      assert ParentsChosen(bare, mode, AllCandidates(bare, mode));
    }
  }
}
