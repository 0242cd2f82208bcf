/** Generating a hierarchy: uids for every type, then parents for every entity. */
module HierarchyGenerator {
  import opened Wrappers
  import opened Hierarchy
  import opened UidDraws

  datatype Mode = SchemaBased(allowedParents: map<EntityTypeName, seq<EntityTypeName>>) | Arbitrary

  datatype NumEntities =
    | Exactly(n: nat)
    | ExactlyPerEntityType(n: nat)
    | RangePerEntityType(min: nat, max: nat)

  /** `NeverEnds` stands for a loop that goes on for ever. */
  datatype Error = NotEnoughData | EntitiesError | NeverEnds

  // ---------- Uids ----------

  method GenerateUidWithType(ty: EntityTypeName, choices: Option<seq<string>>) returns (u: Uid)
    requires HasChoice(choices)
    ensures IsUidOf(ty, choices, u)
  {
    if choices.Some? {
      var i :| 0 <= i < |choices.value|;
      u := Uid(ty, choices.value[i]);
    } else {
      var eid: string := *;
      u := Uid(ty, eid);
    }
  }

  /** Inserts a number of drawn uids into a set kept in insertion order; equal ones collapse. */
  method DrawUids(ty: EntityTypeName, choices: Option<seq<string>>, draws: nat) returns (uids: seq<Uid>)
    requires HasChoice(choices)
    ensures CanDraw(ty, choices, draws, uids)
  {
    uids := [];
    NoDraws(ty, choices);
    for i := 0 to draws
      invariant CanDraw(ty, choices, i, uids)
    {
      var u := GenerateUidWithType(ty, choices);
      DrawOneMore(ty, choices, i, uids, u);
      uids := if u in uids then uids else uids + [u];
    }
  }

  /** The uids a type can get, for each way of saying how many. */
  ghost predicate CanGet(num: NumEntities, numTypes: nat, ty: EntityTypeName, choices: Option<seq<string>>,
                         uids: seq<Uid>)
    requires numTypes > 0
  {
    match num
    case Exactly(n) => AreUidsOf(ty, choices, uids) && |uids| == n / numTypes
    case ExactlyPerEntityType(n) => CanDraw(ty, choices, n, uids)
    case RangePerEntityType(min, max) => CanDrawBetween(ty, choices, min, max, uids)
  }

  /** A number of uids that a type can get. */
  predicate CountFits(num: NumEntities, numTypes: nat, choices: Option<seq<string>>, count: nat)
    requires numTypes > 0
  {
    && FitsChoices(choices, count)
    && match num
       case Exactly(n) => count == n / numTypes
       case ExactlyPerEntityType(n) => if count == 0 then n == 0 else count <= n
       case RangePerEntityType(min, max) => if count == 0 then min == 0 else count <= max
  }

  /** The possible numbers of uids, exactly. */
  lemma CountFitsIff(num: NumEntities, numTypes: nat, ty: EntityTypeName, choices: Option<seq<string>>, count: nat)
    requires numTypes > 0 && (num.RangePerEntityType? ==> num.min <= num.max)
    ensures CountFits(num, numTypes, choices, count)
       <==> exists uids :: CanGet(num, numTypes, ty, choices, uids) && |uids| == count
  {
    match num
    case Exactly(n) =>
      if CountFits(num, numTypes, choices, count) {
        var uids := DifferentUids(ty, choices, count);
        assert CanGet(num, numTypes, ty, choices, uids);
      } else if uids :| CanGet(num, numTypes, ty, choices, uids) && |uids| == count {
        UidsFitChoices(ty, choices, uids);
      }
    case ExactlyPerEntityType(n) =>
      CountCanBeIff(ty, choices, n, count);
      if CountFits(num, numTypes, choices, count) {
        var uids :| CanDraw(ty, choices, n, uids) && |uids| == count;
        assert CanGet(num, numTypes, ty, choices, uids);
      }
    case RangePerEntityType(min, max) =>
      RangeCountFits(min, max, ty, choices, count);
      if CountFits(num, numTypes, choices, count) {
        var uids :| CanDrawBetween(ty, choices, min, max, uids) && |uids| == count;
        assert CanGet(num, numTypes, ty, choices, uids);
      }
  }

  lemma RangeCountFits(min: nat, max: nat, ty: EntityTypeName, choices: Option<seq<string>>, count: nat)
    requires min <= max
    ensures FitsChoices(choices, count) && (if count == 0 then min == 0 else count <= max)
       <==> exists uids :: CanDrawBetween(ty, choices, min, max, uids) && |uids| == count
  {
    if FitsChoices(choices, count) && (if count == 0 then min == 0 else count <= max) {
      var n := if count == 0 then 0 else if count < min then min else count;
      CountCanBeIff(ty, choices, n, count);
      var uids :| CanDraw(ty, choices, n, uids) && |uids| == count;
      assert CanDrawBetween(ty, choices, min, max, uids);
    } else if uids :| CanDrawBetween(ty, choices, min, max, uids) && |uids| == count {
      var n :| min <= n <= max && CanDraw(ty, choices, n, uids);
      DrawnAreUids(ty, choices, n, uids);
    }
  }

  /** With a single choice a draw is always the same uid and uses no input. */
  predicate IsSingleChoice(choices: Option<seq<string>>) {
    choices.Some? && |choices.value| == 1
  }

  /**
   The uids of one type, out of `bytes` of input, and how much of it is left.  When an exact number is
   asked for, the loop goes on until there are enough, which with a single choice can be never.
   */
  method GenerateUids(ty: EntityTypeName, choices: Option<seq<string>>, num: NumEntities, numTypes: nat, bytes: nat)
    returns (r: Result<seq<Uid>, Error>, left: nat)
    requires numTypes > 0 && HasChoice(choices)
    requires num.RangePerEntityType? ==> num.min <= num.max
    ensures r.Ok? ==> AreUidsOf(ty, choices, r.value) && CanGet(num, numTypes, ty, choices, r.value)
    ensures r.Ok? ==> CountFits(num, numTypes, choices, |r.value|)
    ensures r.Err? ==> num.Exactly? && r.error in {NotEnoughData, NeverEnds}
    ensures r == Err(NeverEnds) <==> num.Exactly? && num.n / numTypes > 1 && IsSingleChoice(choices) && bytes > 0
    ensures left <= bytes
  {
    match num
    case RangePerEntityType(min, max) =>
      var draws :| min <= draws <= max;
      var uids := DrawUids(ty, choices, draws);
      r := Ok(uids);
      left :| 0 <= left <= bytes;
      DrawnAreUids(ty, choices, draws, uids);
    case ExactlyPerEntityType(n) =>
      var uids := DrawUids(ty, choices, n);
      r := Ok(uids);
      left :| 0 <= left <= bytes;
      DrawnAreUids(ty, choices, n, uids);
    case Exactly(n) =>
      r, left := GenerateExactly(ty, choices, n / numTypes, bytes);
      if r.Ok? {
        UidsFitChoices(ty, choices, r.value);
      }
  }

  /** Draws until there are `n` different uids or the input is used up. */
  method GenerateExactly(ty: EntityTypeName, choices: Option<seq<string>>, n: nat, bytes: nat)
    returns (r: Result<seq<Uid>, Error>, left: nat)
    requires HasChoice(choices)
    ensures r.Ok? ==> AreUidsOf(ty, choices, r.value) && |r.value| == n
    ensures r.Err? ==> r.error in {NotEnoughData, NeverEnds}
    ensures r == Err(NeverEnds) <==> n > 1 && IsSingleChoice(choices) && bytes > 0
    ensures left <= bytes
  {
    var uids: seq<Uid> := [];
    left := bytes;
    while |uids| < n
      invariant AreUidsOf(ty, choices, uids) && |uids| <= n && left <= bytes
      invariant IsSingleChoice(choices) ==> |uids| <= 1 && left == bytes
      invariant |uids| > 0 ==> bytes > 0
      decreases left, n - |uids|
    {
      if left == 0 {
        return Err(NotEnoughData), left;
      }
      if IsSingleChoice(choices) && uids != [] {
        OnlyOneUid(ty, choices, uids);
        return Err(NeverEnds), left;
      }
      var u := GenerateUidWithType(ty, choices);
      if !IsSingleChoice(choices) {
        var used :| 1 <= used <= left;
        left := left - used;
      }
      if u !in uids {
        uids := uids + [u];
      }
    }
    r := Ok(uids);
  }

  /** With a single choice no draw adds to what is there, so the loop would repeat the same state. */
  lemma OnlyOneUid(ty: EntityTypeName, choices: Option<seq<string>>, uids: seq<Uid>)
    requires IsSingleChoice(choices) && AreUidsOf(ty, choices, uids) && uids != []
    ensures forall u | IsUidOf(ty, choices, u) :: AddNew(uids, u) == uids
  {
    forall u | IsUidOf(ty, choices, u) ensures u == uids[0] {
      assert IsUidOf(ty, choices, uids[0]);
    }
  }

  // ---------- Parents ----------

  /** Where a uid stands in a duplicate-free list. */
  function PositionOf(uids: seq<Uid>, u: Uid): (i: nat)
    requires u in uids
    ensures i < |uids| && uids[i] == u
  {
    if uids[0] == u then 0 else 1 + PositionOf(uids[1..], u)
  }

  /** The uids an entity may get as parents. */
  function Candidates(h: Hierarchy, mode: Mode, u: Uid): seq<Uid>
    requires InSync(h) && u in h.uids
    requires mode.SchemaBased? ==> u.ty in mode.allowedParents
  {
    match mode
    case Arbitrary => h.uids[PositionOf(h.uids, u) + 1..]
    case SchemaBased(allowed) => CandidatesOfTypes(h, allowed[u.ty], u)
  }

  function CandidatesOfTypes(h: Hierarchy, types: seq<EntityTypeName>, u: Uid): seq<Uid>
    requires InSync(h) && u in h.uids
  {
    if types == [] then [] else UidsForType(h, types[0], u) + CandidatesOfTypes(h, types[1..], u)
  }

  /** Flips a coin for every candidate. */
  method ChooseAmong(candidates: seq<Uid>) returns (parents: set<Uid>)
    ensures parents <= ToSet(candidates)
  {
    parents := {};
    for i := 0 to |candidates|
      invariant parents <= ToSet(candidates)
    {
      var coin: bool := *;
      if coin {
        parents := parents + {candidates[i]};
      }
    }
  }

  method ChooseParents(h: Hierarchy, mode: Mode, u: Uid) returns (parents: set<Uid>)
    requires InSync(h) && u in h.uids
    requires mode.SchemaBased? ==> u.ty in mode.allowedParents
    ensures parents <= ToSet(Candidates(h, mode, u))
  {
    match mode
    case Arbitrary =>
      parents := ChooseAmong(h.uids[PositionOf(h.uids, u) + 1..]);
    case SchemaBased(allowed) =>
      parents := {};
      var types := allowed[u.ty];
      for i := 0 to |types|
        invariant parents + ToSet(CandidatesOfTypes(h, types[i..], u)) <= ToSet(Candidates(h, mode, u))
      {
        assert types[i..][1..] == types[i + 1..];
        var chosen := ChooseAmong(UidsForType(h, types[i], u));
        parents := parents + chosen;
      }
  }

  /** The mode has an entry for every type. */
  predicate KnowsTypes(mode: Mode, h: Hierarchy) {
    mode.SchemaBased? ==> forall u | u in h.uids :: u.ty in mode.allowedParents
  }

  /** An entity of the hierarchy with parents among its candidates. */
  predicate EntityChosen(bare: Hierarchy, mode: Mode, u: Uid, e: Entity)
    requires InSync(bare) && KnowsTypes(mode, bare)
  {
    u in bare.uids && e.uid == u && e.parents <= ToSet(Candidates(bare, mode, u))
  }

  /** `h` is `bare` with parents chosen among the candidates of each entity: what generation can return. */
  predicate ParentsChosen(bare: Hierarchy, mode: Mode, h: Hierarchy)
    requires InSync(bare) && KnowsTypes(mode, bare)
  {
    && h == ReplaceEntities(bare, h.entities)
    && h.entities.Keys == bare.entities.Keys
    && forall u | u in h.entities :: EntityChosen(bare, mode, u, h.entities[u])
  }

  /** The entities of the first `n` uids, each with parents among its candidates. */
  predicate EntitiesChosen(bare: Hierarchy, mode: Mode, n: nat, entities: map<Uid, Entity>)
    requires InSync(bare) && KnowsTypes(mode, bare) && n <= |bare.uids|
  {
    && entities.Keys == ToSet(bare.uids[..n])
    && forall u | u in entities :: EntityChosen(bare, mode, u, entities[u])
  }

  lemma NextEntityChosen(bare: Hierarchy, mode: Mode, n: nat, entities: map<Uid, Entity>, e: Entity)
    requires InSync(bare) && KnowsTypes(mode, bare) && n < |bare.uids| && EntitiesChosen(bare, mode, n, entities)
    requires EntityChosen(bare, mode, bare.uids[n], e)
    ensures EntitiesChosen(bare, mode, n + 1, entities[bare.uids[n] := e])
  {
    PrefixGrows(bare.uids, n);
  }

  lemma PrefixGrows(uids: seq<Uid>, n: nat)
    requires n < |uids|
    ensures ToSet(uids[..n + 1]) == ToSet(uids[..n]) + {uids[n]}
  {
    assert uids[..n + 1] == uids[..n] + [uids[n]];
  }

  /** Makes the entities, each with its parents; making one can fail. */
  method MakeEntities(bare: Hierarchy, mode: Mode) returns (r: Result<map<Uid, Entity>, Error>)
    requires InSync(bare) && KnowsTypes(mode, bare)
    ensures r.Ok? ==> EntitiesChosen(bare, mode, |bare.uids|, r.value)
  {
    var entities: map<Uid, Entity> := map[];
    for i := 0 to |bare.uids|
      invariant EntitiesChosen(bare, mode, i, entities)
    {
      var u := bare.uids[i];
      var e := MakeEntity(bare, mode, u);
      if e.Err? {
        return Err(e.error);
      }
      NextEntityChosen(bare, mode, i, entities, e.value);
      entities := entities[u := e.value];
    }
    r := Ok(entities);
  }

  method MakeEntity(bare: Hierarchy, mode: Mode, u: Uid) returns (r: Result<Entity, Error>)
    requires InSync(bare) && KnowsTypes(mode, bare) && u in bare.uids
    ensures r.Ok? ==> EntityChosen(bare, mode, u, r.value)
  {
    var parents := ChooseParents(bare, mode, u);
    var fails: bool := *;
    r := if fails then Err(EntitiesError) else Ok(Entity(u, parents));
  }

  method AddParents(bare: Hierarchy, mode: Mode) returns (r: Result<Hierarchy, Error>)
    requires InSync(bare) && KnowsTypes(mode, bare)
    ensures r.Ok? ==> ParentsChosen(bare, mode, r.value) && InSync(r.value)
  {
    var entities := MakeEntities(bare, mode);
    if entities.Err? {
      return Err(entities.error);
    }
    assert bare.uids[..|bare.uids|] == bare.uids;
    ReplaceEntitiesInSync(bare, entities.value);
    r := Ok(ReplaceEntities(bare, entities.value));
  }

  /** The buckets made for some types: one for each, in order, with as many uids as asked for. */
  ghost predicate BucketsFor(types: seq<EntityTypeName>, choices: map<EntityTypeName, seq<string>>, num: NumEntities,
                             numTypes: nat, buckets: Buckets)
    requires numTypes > 0
  {
    && |buckets| == |types|
    && forall i | 0 <= i < |types| ::
         && buckets[i].0 == types[i]
         && IsBucketFor(types[i], ChoicesOf(choices, types[i]), num, numTypes, buckets[i].1)
  }

  function ChoicesOf(choices: map<EntityTypeName, seq<string>>, ty: EntityTypeName): Option<seq<string>> {
    if ty in choices then Some(choices[ty]) else None
  }

  ghost predicate IsBucketFor(ty: EntityTypeName, choices: Option<seq<string>>, num: NumEntities, numTypes: nat,
                              uids: seq<Uid>)
    requires numTypes > 0
  {
    && AreUidsOf(ty, choices, uids)
    && CanGet(num, numTypes, ty, choices, uids) && CountFits(num, numTypes, choices, |uids|)
  }

  /** Generates a hierarchy with the given types; `choices` holds the enumerated ones. */
  method Generate(mode: Mode, types: seq<EntityTypeName>, choices: map<EntityTypeName, seq<string>>, num: NumEntities,
                  bytes: nat)
    returns (r: Result<Hierarchy, Error>)
    requires Distinct(types) && forall ty | ty in choices :: choices[ty] != []
    requires mode.SchemaBased? ==> forall ty | ty in types :: ty in mode.allowedParents
    requires num.RangePerEntityType? ==> num.min <= num.max
    ensures r.Ok? ==> InSync(r.value) && exists buckets :: IsGeneratedFrom(mode, types, choices, num, buckets, r.value)
    ensures r.Ok? ==> HasContents(types, choices, num, r.value)
  {
    var buckets: Buckets := [];
    var left: nat := bytes;
    for i := 0 to |types|
      invariant |buckets| == i && left <= bytes
      invariant types != [] ==> BucketsFor(types[..i], choices, num, |types|, buckets)
    {
      var uids;
      uids, left := GenerateUids(types[i], ChoicesOf(choices, types[i]), num, |types|, left);
      if uids.Err? {
        return Err(uids.error);
      }
      buckets := buckets + [(types[i], uids.value)];
    }
    assert types[..|types|] == types;
    BareHierarchy(mode, types, buckets);
    r := AddParents(FromUidsByType(buckets), mode);
    assert r.Ok? ==> IsGeneratedFrom(mode, types, choices, num, buckets, r.value);
    if r.Ok? {
      GeneratedHasContents(mode, types, choices, num, buckets, r.value);
    }
  }

  /** The types asked for in their order, and under each the uids that can be asked for, in such a number. */
  ghost predicate HasContents(types: seq<EntityTypeName>, choices: map<EntityTypeName, seq<string>>, num: NumEntities,
                              h: Hierarchy)
  {
    && h.entityTypes == types
    && forall ty | ty in types ::
         ty in h.uidsByType && IsBucketFor(ty, ChoicesOf(choices, ty), num, |types|, h.uidsByType[ty].uids)
  }

  lemma GeneratedHasContents(mode: Mode, types: seq<EntityTypeName>, choices: map<EntityTypeName, seq<string>>,
                             num: NumEntities, buckets: Buckets, h: Hierarchy)
    requires IsGeneratedFrom(mode, types, choices, num, buckets, h)
    ensures HasContents(types, choices, num, h)
  {
    FromUidsByTypeContents(buckets);
    assert h.entityTypes == types;
    forall ty | ty in types
      ensures ty in h.uidsByType && IsBucketFor(ty, ChoicesOf(choices, ty), num, |types|, h.uidsByType[ty].uids)
    {
      var i :| 0 <= i < |types| && types[i] == ty;
      assert buckets[i].0 == ty;
    }
  }

  /** The uids of the buckets are those asked for, and `h` is their hierarchy with parents chosen. */
  ghost predicate IsGeneratedFrom(mode: Mode, types: seq<EntityTypeName>, choices: map<EntityTypeName, seq<string>>,
                                  num: NumEntities, buckets: Buckets, h: Hierarchy)
  {
    && (if types == [] then buckets == [] else BucketsFor(types, choices, num, |types|, buckets))
    && WellTyped(buckets)
    && InSync(FromUidsByType(buckets)) && KnowsTypes(mode, FromUidsByType(buckets))
    && ParentsChosen(FromUidsByType(buckets), mode, h)
  }

  lemma BareHierarchy(mode: Mode, types: seq<EntityTypeName>, buckets: Buckets)
    requires Distinct(types) && |buckets| == |types|
    requires forall i | 0 <= i < |types| ::
      buckets[i].0 == types[i] && Distinct(buckets[i].1) && forall u | u in buckets[i].1 :: u.ty == types[i]
    requires mode.SchemaBased? ==> forall ty | ty in types :: ty in mode.allowedParents
    ensures WellTyped(buckets) && InSync(FromUidsByType(buckets)) && KnowsTypes(mode, FromUidsByType(buckets))
  {
    FromUidsByTypeInSync(buckets);
    forall u | u in Flatten(buckets) ensures u.ty in types {
      FlattenMembers(buckets, u);
    }
  }
}
