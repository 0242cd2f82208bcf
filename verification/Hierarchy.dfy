/** An entity hierarchy with its redundant indexes, and the ways it is built. */
module Hierarchy {
  type EntityTypeName = string

  datatype Uid = Uid(ty: EntityTypeName, eid: string)

  datatype Entity = Entity(uid: Uid, parents: set<Uid>)

  /** The uids of one type, with the index of each. */
  datatype EntityUIDs = EntityUIDs(indices: map<Uid, nat>, uids: seq<Uid>)

  /** The uids of every type, in insertion order. */
  type Buckets = seq<(EntityTypeName, seq<Uid>)>

  datatype Hierarchy = Hierarchy(
    entities: map<Uid, Entity>,
    uids: seq<Uid>,
    uidsByType: map<EntityTypeName, EntityUIDs>,
    entityTypes: seq<EntityTypeName>)

  predicate Distinct<T(==)>(s: seq<T>) {
    forall i, j | 0 <= i < j < |s| :: s[i] != s[j]
  }

  function ToSet<T>(s: seq<T>): set<T> {
    set x | x in s
  }

  // ---------- Indexes ----------

  /** Collecting (uid, index) pairs: of several equal uids the last index stays. */
  function IndicesOf(uids: seq<Uid>): map<Uid, nat> {
    if uids == [] then map[]
    else IndicesOf(uids[..|uids| - 1])[uids[|uids| - 1] := |uids| - 1]
  }

  function FromVec(uids: seq<Uid>): EntityUIDs {
    EntityUIDs(IndicesOf(uids), uids)
  }

  /** The index of a uid is the last place where it stands. */
  lemma {:induction false} IndicesAreLast(uids: seq<Uid>)
    ensures IndicesOf(uids).Keys == ToSet(uids)
    ensures forall u | u in IndicesOf(uids) :: IndicesOf(uids)[u] < |uids| && uids[IndicesOf(uids)[u]] == u
    ensures forall i | 0 <= i < |uids| :: IndicesOf(uids)[uids[i]] >= i
  {
    if uids == [] {
    } else {
      var front := uids[..|uids| - 1];
      IndicesAreLast(front);
      forall i | 0 <= i < |uids| ensures uids[i] in IndicesOf(uids) && IndicesOf(uids)[uids[i]] >= i {
        if i < |front| {
          assert uids[i] == front[i];
        }
      }
      forall u | u in ToSet(uids) ensures u in IndicesOf(uids) {
        var i :| 0 <= i < |uids| && uids[i] == u;
      }
    }
  }

  /** The bucket holds exactly the uids of its type, each once, and the indices are the inverse of the list. */
  predicate BucketInSync(h: Hierarchy, ty: EntityTypeName)
    requires ty in h.uidsByType
  {
    var bucket := h.uidsByType[ty];
    && Distinct(bucket.uids)
    && bucket.indices.Keys == ToSet(bucket.uids)
    && (forall i | 0 <= i < |bucket.uids| :: bucket.indices[bucket.uids[i]] == i)
    && ToSet(bucket.uids) == set u | u in h.uids && u.ty == ty
  }

  /** All four indexes describe the same entities. */
  predicate InSync(h: Hierarchy) {
    && Distinct(h.uids) && h.entities.Keys == ToSet(h.uids)
    && (forall u | u in h.entities :: h.entities[u].uid == u)
    && Distinct(h.entityTypes) && h.uidsByType.Keys == ToSet(h.entityTypes)
    && (forall u | u in h.uids :: u.ty in h.uidsByType)
    && (forall ty | ty in h.uidsByType :: BucketInSync(h, ty))
  }

  lemma BucketFromVec(uids: seq<Uid>)
    requires Distinct(uids)
    ensures FromVec(uids).indices.Keys == ToSet(uids)
    ensures forall i | 0 <= i < |uids| :: FromVec(uids).indices[uids[i]] == i
  {
    IndicesAreLast(uids);
  }

  // ---------- From the uids of every type ----------

  /** Different types, and in each bucket different uids of its type. */
  predicate WellTyped(buckets: Buckets) {
    && (forall i, j | 0 <= i < j < |buckets| :: buckets[i].0 != buckets[j].0)
    && forall i | 0 <= i < |buckets| :: Distinct(buckets[i].1) && forall u | u in buckets[i].1 :: u.ty == buckets[i].0
  }

  function Flatten(buckets: Buckets): seq<Uid> {
    if buckets == [] then [] else buckets[0].1 + Flatten(buckets[1..])
  }

  function GroupsOf(buckets: Buckets): map<EntityTypeName, seq<Uid>>
    requires WellTyped(buckets)
  {
    map i | 0 <= i < |buckets| :: buckets[i].0 := buckets[i].1
  }

  function TypesOf(buckets: Buckets): seq<EntityTypeName> {
    seq(|buckets|, i requires 0 <= i < |buckets| => buckets[i].0)
  }

  /** Entities without parents, one for each uid. */
  function FromUidsByType(buckets: Buckets): Hierarchy
    requires WellTyped(buckets)
  {
    var uids, groups := Flatten(buckets), GroupsOf(buckets);
    Hierarchy(map u | u in uids :: Entity(u, {}), uids, map ty | ty in groups :: FromVec(groups[ty]), TypesOf(buckets))
  }

  lemma {:induction false} FlattenMembers(buckets: Buckets, u: Uid)
    ensures u in Flatten(buckets) <==> exists i :: 0 <= i < |buckets| && u in buckets[i].1
  {
    if buckets == [] {
    } else {
      FlattenMembers(buckets[1..], u);
      if i :| 0 <= i < |buckets| && u in buckets[i].1 {
        if i > 0 {
          assert u in buckets[1..][i - 1].1;
        }
      }
      if i :| 0 <= i < |buckets[1..]| && u in buckets[1..][i].1 {
        assert u in buckets[i + 1].1;
      }
    }
  }

  lemma ConcatDistinct(a: seq<Uid>, b: seq<Uid>)
    requires Distinct(a) && Distinct(b) && forall u | u in a :: u !in b
    ensures Distinct(a + b)
  {
    forall i, j | 0 <= i < j < |a + b| ensures (a + b)[i] != (a + b)[j] {
      if i < |a| <= j {
        assert a[i] in a && b[j - |a|] in b;
      }
    }
  }

  lemma {:induction false} FlattenDistinct(buckets: Buckets)
    requires WellTyped(buckets)
    ensures Distinct(Flatten(buckets))
  {
    if buckets == [] {
    } else {
      FlattenDistinct(buckets[1..]);
      forall u | u in buckets[0].1 ensures u !in Flatten(buckets[1..]) {
        FlattenMembers(buckets[1..], u);
      }
      ConcatDistinct(buckets[0].1, Flatten(buckets[1..]));
    }
  }

  lemma FlattenGrouped(buckets: Buckets)
    requires WellTyped(buckets)
    ensures Grouped(Flatten(buckets), TypesOf(buckets), GroupsOf(buckets))
  {
    var uids, types, groups := Flatten(buckets), TypesOf(buckets), GroupsOf(buckets);
    forall ty ensures ty in groups <==> ty in types {
      if i :| 0 <= i < |buckets| && buckets[i].0 == ty {
        assert types[i] == ty;
      }
    }
    forall u | u in uids ensures u.ty in groups {
      FlattenMembers(buckets, u);
    }
    forall ty | ty in groups ensures Distinct(groups[ty]) && ToSet(groups[ty]) == set u | u in uids && u.ty == ty {
      GroupMembers(buckets, ty);
    }
  }

  /** The group of a type has exactly the uids of the type. */
  lemma GroupMembers(buckets: Buckets, ty: EntityTypeName)
    requires WellTyped(buckets) && ty in GroupsOf(buckets)
    ensures Distinct(GroupsOf(buckets)[ty])
    ensures ToSet(GroupsOf(buckets)[ty]) == set u | u in Flatten(buckets) && u.ty == ty
  {
    var k :| 0 <= k < |buckets| && buckets[k].0 == ty;
    forall u ensures u in buckets[k].1 <==> u in Flatten(buckets) && u.ty == ty {
      FlattenMembers(buckets, u);
    }
  }

  lemma FromUidsByTypeInSync(buckets: Buckets)
    requires WellTyped(buckets)
    ensures InSync(FromUidsByType(buckets))
    ensures forall u | u in FromUidsByType(buckets).entities :: FromUidsByType(buckets).entities[u].parents == {}
  {
    var h := FromUidsByType(buckets);
    FlattenDistinct(buckets);
    FlattenGrouped(buckets);
    GroupedInSync(h.entities, h.uids, h.entityTypes, GroupsOf(buckets));
  }

  /** Exactly the uids of the buckets become entities, under the types of the buckets in their order. */
  lemma FromUidsByTypeContents(buckets: Buckets)
    requires WellTyped(buckets)
    ensures var h := FromUidsByType(buckets);
            && (forall u :: u in h.entities <==> exists i :: 0 <= i < |buckets| && u in buckets[i].1)
            && |h.entityTypes| == |buckets|
            && forall i | 0 <= i < |buckets| ::
                 && h.entityTypes[i] == buckets[i].0
                 && buckets[i].0 in h.uidsByType && h.uidsByType[buckets[i].0].uids == buckets[i].1
  {
    forall u ensures u in FromUidsByType(buckets).entities <==> exists i :: 0 <= i < |buckets| && u in buckets[i].1 {
      FlattenMembers(buckets, u);
    }
  }

  /** How many uids come before the bucket at `i`. */
  function StartOf(buckets: Buckets, i: nat): nat
    requires i <= |buckets|
  {
    if i == 0 then 0 else StartOf(buckets, i - 1) + |buckets[i - 1].1|
  }

  lemma {:induction false} StartOfRest(buckets: Buckets, i: nat)
    requires 0 < i <= |buckets|
    ensures StartOf(buckets, i) == |buckets[0].1| + StartOf(buckets[1..], i - 1)
  {
    if i == 1 {
      assert StartOf(buckets, 1) == StartOf(buckets, 0) + |buckets[0].1|;
    } else {
      StartOfRest(buckets, i - 1);
    }
  }

  /** The list of all uids is the buckets one after the other. */
  lemma {:induction false} FlattenAt(buckets: Buckets, i: nat, k: nat)
    requires i < |buckets| && k < |buckets[i].1|
    ensures StartOf(buckets, i) + k < |Flatten(buckets)|
    ensures Flatten(buckets)[StartOf(buckets, i) + k] == buckets[i].1[k]
    decreases |buckets|
  {
    if i == 0 {
    } else {
      FlattenAt(buckets[1..], i - 1, k);
      StartOfRest(buckets, i);
    }
  }

  // ---------- From an entity store ----------

  /** The uids per type while the store is read: the types in order, and a duplicate-free list for each. */
  predicate Grouped(uids: seq<Uid>, types: seq<EntityTypeName>, groups: map<EntityTypeName, seq<Uid>>) {
    && Distinct(types) && groups.Keys == ToSet(types)
    && (forall u | u in uids :: u.ty in groups)
    && forall ty | ty in groups :: Distinct(groups[ty]) && ToSet(groups[ty]) == set u | u in uids && u.ty == ty
  }

  /** Indexes made from grouped uids are in sync. */
  lemma GroupedInSync(entities: map<Uid, Entity>, uids: seq<Uid>, types: seq<EntityTypeName>,
                      groups: map<EntityTypeName, seq<Uid>>)
    requires Distinct(uids) && Grouped(uids, types, groups) && entities.Keys == ToSet(uids)
    requires forall u | u in entities :: entities[u].uid == u
    ensures InSync(Hierarchy(entities, uids, map ty | ty in groups :: FromVec(groups[ty]), types))
  {
    var h := Hierarchy(entities, uids, map ty | ty in groups :: FromVec(groups[ty]), types);
    forall ty | ty in h.uidsByType ensures BucketInSync(h, ty) {
      BucketFromVec(groups[ty]);
    }
  }

  lemma GroupedNext(uids: seq<Uid>, types: seq<EntityTypeName>, groups: map<EntityTypeName, seq<Uid>>, u: Uid)
    requires Grouped(uids, types, groups) && u !in uids
    ensures Grouped(uids + [u], if u.ty in groups then types else types + [u.ty],
                    groups[u.ty := (if u.ty in groups then groups[u.ty] else []) + [u]])
  {
    var groups' := groups[u.ty := (if u.ty in groups then groups[u.ty] else []) + [u]];
    forall ty | ty in groups'
      ensures Distinct(groups'[ty]) && ToSet(groups'[ty]) == set v | v in uids + [u] && v.ty == ty
    {
      if ty == u.ty {
        assert ToSet(groups'[ty]) == (set v | v in uids && v.ty == ty) + {u};
        if ty in groups {
          assert u !in ToSet(groups[ty]);
        }
      }
    }
    if u.ty !in groups {
      assert u.ty !in ToSet(types);
    }
  }

  /** The uids read so far, each once, and grouped. */
  predicate ReadSoFar(read: set<Uid>, uids: seq<Uid>, types: seq<EntityTypeName>,
                      groups: map<EntityTypeName, seq<Uid>>)
  {
    Distinct(uids) && ToSet(uids) == read && Grouped(uids, types, groups)
  }

  lemma ReadNext(read: set<Uid>, uids: seq<Uid>, types: seq<EntityTypeName>, groups: map<EntityTypeName, seq<Uid>>,
                 u: Uid)
    requires ReadSoFar(read, uids, types, groups) && u !in read
    ensures ReadSoFar(read + {u}, uids + [u], if u.ty in groups then types else types + [u.ty],
                      groups[u.ty := (if u.ty in groups then groups[u.ty] else []) + [u]])
  {
    assert u !in ToSet(uids);
    GroupedNext(uids, types, groups, u);
    ConcatDistinct(uids, [u]);
  }

  lemma OneLess(all: set<Uid>, todo: set<Uid>, u: Uid)
    requires u in todo && todo <= all
    ensures all - todo + {u} == all - (todo - {u})
  {
  }

  /** Reads the uids of a store in any order. */
  method ReadUids(all: set<Uid>)
    returns (uids: seq<Uid>, types: seq<EntityTypeName>, groups: map<EntityTypeName, seq<Uid>>)
    ensures ReadSoFar(all, uids, types, groups)
  {
    uids, types, groups := [], [], map[];
    var todo := all;
    ghost var read: set<Uid> := {};
    while todo != {}
      invariant read == all - todo && todo <= all
      invariant ReadSoFar(read, uids, types, groups)
      decreases |todo|
    {
      var u :| u in todo;
      ReadNext(read, uids, types, groups, u);
      var known := u.ty in groups;
      var group := if known then groups[u.ty] else [];
      types := if known then types else types + [u.ty];
      groups := groups[u.ty := group + [u]];
      uids := uids + [u];
      OneLess(all, todo, u);
      todo, read := todo - {u}, read + {u};
    }
    assert read == all;
  }

  /** A hierarchy with the entities of a store. */
  method FromEntities(entities: map<Uid, Entity>) returns (h: Hierarchy)
    requires forall u | u in entities :: entities[u].uid == u
    ensures InSync(h) && h.entities == entities
  {
    var uids, types, groups := ReadUids(entities.Keys);
    GroupedInSync(entities, uids, types, groups);
    h := Hierarchy(entities, uids, map ty | ty in groups :: FromVec(groups[ty]), types);
  }

  // ---------- Replacing the entities ----------

  function ReplaceEntities(h: Hierarchy, entities: map<Uid, Entity>): Hierarchy {
    h.(entities := entities)
  }

  /** New entity data under the same uids leaves the indexes right, and nothing else does. */
  lemma ReplaceEntitiesInSync(h: Hierarchy, entities: map<Uid, Entity>)
    requires InSync(h)
    ensures InSync(ReplaceEntities(h, entities)) <==>
              entities.Keys == h.entities.Keys && forall u | u in entities :: entities[u].uid == u
  {
    var h' := ReplaceEntities(h, entities);
    forall ty | ty in h.uidsByType ensures BucketInSync(h', ty) {
      assert BucketInSync(h, ty);
    }
  }

  // ---------- Candidates for parents ----------

  /** The uids of a type; of the entity's own type only those after the entity. */
  function UidsForType(h: Hierarchy, dst: EntityTypeName, u: Uid): seq<Uid>
    requires InSync(h) && u in h.uids
  {
    if dst !in h.uidsByType then []
    else
      assert BucketInSync(h, dst);
      var bucket := h.uidsByType[dst];
      if u.ty == dst then
        assert u in ToSet(bucket.uids);
        bucket.uids[bucket.indices[u] + 1..]
      else bucket.uids
  }

  /** Which uids those are. */
  lemma UidsForTypeMembers(h: Hierarchy, dst: EntityTypeName, u: Uid, v: Uid)
    requires InSync(h) && u in h.uids
    ensures v in UidsForType(h, dst, u) <==>
              && v in h.uids && v.ty == dst
              && (u.ty == dst ==> h.uidsByType[dst].indices[v] > h.uidsByType[dst].indices[u])
  {
    if dst in h.uidsByType {
      assert BucketInSync(h, dst);
      var bucket := h.uidsByType[dst];
      assert v in h.uids && v.ty == dst <==> v in ToSet(bucket.uids);
      if u.ty == dst {
        assert u in ToSet(bucket.uids);
        var at := bucket.indices[u];
        if v in ToSet(bucket.uids) && bucket.indices[v] > at {
          assert bucket.uids[at + 1..][bucket.indices[v] - at - 1] == v;
        }
      }
    }
  }
}
