/** Generating a policy set of templates, links to them and static policies. */
module PstPolicySets {
  import opened Wrappers
  import opened Numerals
  import opened Cardinality

  type PolicyId = string

  datatype EntityUid = EntityUid(ty: string, eid: string)

  datatype SlotId = PrincipalSlot | ResourceSlot

  datatype EntityOrSlot = Entity(uid: EntityUid) | Slot(slot: SlotId)

  /** A constraint on the principal or the resource. */
  datatype Constraint = Any | Eq(e: EntityOrSlot) | In(e: EntityOrSlot) | Is(ty: string)
    | IsIn(ty: string, e: EntityOrSlot)

  datatype ActionConstraint = AnyAction | ActionEq(uid: EntityUid) | ActionIn(uids: seq<EntityUid>)

  datatype Effect = Permit | Forbid

  datatype Template = Template(
    id: PolicyId, effect: Effect, principal: Constraint, action: ActionConstraint, resource: Constraint,
    annotations: map<string, string>)

  datatype TemplateLink = TemplateLink(templateId: PolicyId, newId: PolicyId, values: map<SlotId, EntityUid>)

  datatype PolicySet = PolicySet(
    templates: map<PolicyId, Template>, policies: map<PolicyId, Template>, links: seq<TemplateLink>)

  datatype Error = DrawError

  // ---------- Slots ----------

  function SlotsOf(c: Constraint): set<SlotId> {
    match c
    case Eq(Slot(s)) => {s}
    case In(Slot(s)) => {s}
    case IsIn(_, Slot(s)) => {s}
    case _ => {}
  }

  function Slots(t: Template): set<SlotId> {
    SlotsOf(t.principal) + SlotsOf(t.resource)
  }

  predicate IsStatic(t: Template) {
    Slots(t) == {}
  }

  /** Each slot only where it belongs. */
  predicate WellSlotted(t: Template) {
    SlotsOf(t.principal) <= {PrincipalSlot} && SlotsOf(t.resource) <= {ResourceSlot}
  }

  // ---------- Templates ----------

  method ArbitraryEntityOrSlot(slot: Option<SlotId>) returns (e: EntityOrSlot)
    ensures e.Slot? ==> slot == Some(e.slot)
  {
    var coin: bool := *;
    if slot.Some? && coin {
      e := Slot(slot.value);
    } else {
      var uid: EntityUid := *;
      e := Entity(uid);
    }
  }

  method ArbitraryConstraint(slot: Option<SlotId>) returns (c: Constraint)
    ensures forall s | s in SlotsOf(c) :: slot == Some(s)
  {
    var choice: nat := *;
    var ty: string := *;
    var e := ArbitraryEntityOrSlot(slot);
    c := match choice
         case 0 => Any
         case 1 => Eq(e)
         case 2 => In(e)
         case 3 => Is(ty)
         case _ => IsIn(ty, e);
  }

  method ArbitraryActionConstraint() returns (c: ActionConstraint)
    ensures c.ActionEq? ==> c.uid.ty == "Action"
    ensures c.ActionIn? ==> |c.uids| <= 3 && forall i | 0 <= i < |c.uids| :: c.uids[i].ty == "Action"
  {
    var any: bool, eq: bool := *, *;
    if any {
      return AnyAction;
    }
    var eid: string := *;
    if eq {
      return ActionEq(EntityUid("Action", eid));
    }
    var n :| 0 <= n <= 3;
    var uids: seq<EntityUid> := [];
    for i := 0 to n
      invariant |uids| == i && forall j | 0 <= j < i :: uids[j].ty == "Action"
    {
      eid := *;
      uids := uids + [EntityUid("Action", eid)];
    }
    c := ActionIn(uids);
  }

  /** Up to two annotations, under keys numbered by how many there are. */
  method ArbitraryAnnotations() returns (annotations: map<string, string>)
    ensures |annotations| <= 2 && AnnotationsNumbered(annotations, |annotations|)
  {
    annotations := map[];
    var count :| 0 <= count <= 2;
    for k := 0 to count
      invariant AnnotationsNumbered(annotations, k)
    {
      var value: string := *;
      var key := "ann" + Print10(|annotations|);
      NextAnnotation(annotations, k, value);
      annotations := annotations[key := value];
    }
  }

  /** As many annotations as keys, which are numbered from 0. */
  ghost predicate AnnotationsNumbered(annotations: map<string, string>, n: nat) {
    |annotations| == n && annotations.Keys == Numbered("ann", n)
  }

  lemma NextAnnotation(annotations: map<string, string>, n: nat, value: string)
    requires AnnotationsNumbered(annotations, n)
    ensures AnnotationsNumbered(annotations["ann" + Print10(n) := value], n + 1)
  {
    var key := "ann" + Print10(n);
    NumberedIsNew("ann", n);
    assert annotations[key := value].Keys == annotations.Keys + {key};
    assert |annotations[key := value]| == |annotations[key := value].Keys|;
    assert |annotations| == |annotations.Keys|;
  }

  /** A template that may use the given number of slots. */
  method ArbitraryTemplateWithSlots(numSlots: nat) returns (r: Result<Template, Error>)
    ensures r.Ok? ==> WellSlotted(r.value) && (numSlots == 0 ==> IsStatic(r.value))
    ensures r.Ok? ==> |Slots(r.value)| <= numSlots
  {
    var coin: bool := *;
    var principalSlot := numSlots >= 2 || (numSlots == 1 && coin);
    var resourceSlot := numSlots >= 2 || (numSlots == 1 && !coin);
    var id: PolicyId, effect: Effect := *, *;
    var principal := ArbitraryConstraint(if principalSlot then Some(PrincipalSlot) else None);
    var action := ArbitraryActionConstraint();
    var resource := ArbitraryConstraint(if resourceSlot then Some(ResourceSlot) else None);
    var annotations := ArbitraryAnnotations();
    var fails: bool := *;
    if fails {
      return Err(DrawError);
    }
    var t := Template(id, effect, principal, action, resource, annotations);
    SlotCount(t, principalSlot, resourceSlot);
    r := Ok(t);
  }

  lemma SlotCount(t: Template, principalSlot: bool, resourceSlot: bool)
    requires SlotsOf(t.principal) <= if principalSlot then {PrincipalSlot} else {}
    requires SlotsOf(t.resource) <= if resourceSlot then {ResourceSlot} else {}
    ensures |Slots(t)| <= (if principalSlot then 1 else 0) + (if resourceSlot then 1 else 0)
    ensures WellSlotted(t) && (!principalSlot && !resourceSlot ==> IsStatic(t))
  {
    assert |SlotsOf(t.principal)| <= if principalSlot then 1 else 0;
    assert |SlotsOf(t.resource)| <= if resourceSlot then 1 else 0;
    assert SlotsOf(t.principal) !! SlotsOf(t.resource);
  }

  // ---------- Policy sets ----------

  /** All ids are different: those of templates, links and static policies. */
  predicate IdsApart(ts: seq<Template>, ls: seq<TemplateLink>, ps: seq<Template>) {
    && (forall i, j | 0 <= i < j < |ts| :: ts[i].id != ts[j].id)
    && (forall i, j | 0 <= i < j < |ls| :: ls[i].newId != ls[j].newId)
    && (forall i, j | 0 <= i < j < |ps| :: ps[i].id != ps[j].id)
    && (forall i, j | 0 <= i < |ts| && 0 <= j < |ls| :: ts[i].id != ls[j].newId)
    && (forall i, j | 0 <= i < |ts| && 0 <= j < |ps| :: ts[i].id != ps[j].id)
    && (forall i, j | 0 <= i < |ls| && 0 <= j < |ps| :: ls[i].newId != ps[j].id)
  }

  /** All ids come from the counter. */
  ghost predicate IdsNumbered(ts: seq<Template>, ls: seq<TemplateLink>, ps: seq<Template>, n: nat) {
    && (forall i | 0 <= i < |ts| :: ts[i].id in Numbered("policy", n))
    && (forall i | 0 <= i < |ls| :: ls[i].newId in Numbered("policy", n))
    && (forall i | 0 <= i < |ps| :: ps[i].id in Numbered("policy", n))
  }

  /** The link names one of the templates and gives a value to exactly its slots. */
  predicate LinksTo(ts: seq<Template>, l: TemplateLink) {
    exists i :: 0 <= i < |ts| && ts[i].id == l.templateId && l.values.Keys == Slots(ts[i])
  }

  ghost predicate WellLinked(ts: seq<Template>, ls: seq<TemplateLink>, ps: seq<Template>, n: nat) {
    && IdsApart(ts, ls, ps) && IdsNumbered(ts, ls, ps, n)
    && (forall i | 0 <= i < |ts| :: !IsStatic(ts[i]) && WellSlotted(ts[i]))
    && (forall i | 0 <= i < |ls| :: LinksTo(ts, ls[i]))
    && (forall i | 0 <= i < |ps| :: IsStatic(ps[i]))
  }

  /** Closed and without collisions. */
  predicate IsClosed(s: PolicySet) {
    && (forall id | id in s.templates ::
          s.templates[id].id == id && !IsStatic(s.templates[id]) && WellSlotted(s.templates[id]))
    && (forall id | id in s.policies :: s.policies[id].id == id && IsStatic(s.policies[id]))
    && s.templates.Keys !! s.policies.Keys
    && (forall i, j | 0 <= i < j < |s.links| :: s.links[i].newId != s.links[j].newId)
    && (forall i | 0 <= i < |s.links| ::
          && s.links[i].newId !in s.templates && s.links[i].newId !in s.policies
          && s.links[i].templateId in s.templates
          && s.links[i].values.Keys == Slots(s.templates[s.links[i].templateId]))
  }

  lemma AddTemplate(ts: seq<Template>, ls: seq<TemplateLink>, ps: seq<Template>, n: nat, t: Template)
    requires WellLinked(ts, ls, ps, n) && t.id == "policy" + Print10(n) && !IsStatic(t) && WellSlotted(t)
    ensures WellLinked(ts + [t], ls, ps, n + 1)
  {
    NumberedIsNew("policy", n);
    forall i | 0 <= i < |ls| ensures LinksTo(ts + [t], ls[i]) {
      assert LinksTo(ts, ls[i]);
      var j :| 0 <= j < |ts| && ts[j].id == ls[i].templateId && ls[i].values.Keys == Slots(ts[j]);
      assert (ts + [t])[j] == ts[j];
    }
  }

  lemma AddLink(ts: seq<Template>, ls: seq<TemplateLink>, ps: seq<Template>, n: nat, l: TemplateLink)
    requires WellLinked(ts, ls, ps, n) && l.newId == "policy" + Print10(n) && LinksTo(ts, l)
    ensures WellLinked(ts, ls + [l], ps, n + 1)
  {
    NumberedIsNew("policy", n);
  }

  lemma AddStatic(ts: seq<Template>, ls: seq<TemplateLink>, ps: seq<Template>, n: nat, p: Template)
    requires WellLinked(ts, ls, ps, n) && p.id == "policy" + Print10(n) && IsStatic(p)
    ensures WellLinked(ts, ls, ps + [p], n + 1)
  {
    NumberedIsNew("policy", n);
  }

  /** A uid for every slot. */
  method ArbitraryValues(slots: set<SlotId>) returns (values: map<SlotId, EntityUid>)
    ensures values.Keys == slots
  {
    values := map[];
    var todo := slots;
    while todo != {}
      invariant todo <= slots && values.Keys == slots - todo
      decreases |todo|
    {
      var s :| s in todo;
      var uid: EntityUid := *;
      values := values[s := uid];
      todo := todo - {s};
    }
  }

  /** A template with its own id, made to have a slot if it has none. */
  method SlottedTemplate(next: nat) returns (r: Result<Template, Error>)
    ensures r.Ok? ==> r.value.id == "policy" + Print10(next) && !IsStatic(r.value) && WellSlotted(r.value)
  {
    var numSlots :| 1 <= numSlots <= 2;
    r := ArbitraryTemplateWithSlots(numSlots);
    if r.Err? {
      return;
    }
    var t := r.value.(id := "policy" + Print10(next));
    if IsStatic(t) {
      t := t.(principal := Eq(Slot(PrincipalSlot)));
      assert PrincipalSlot in Slots(t);
    }
    r := Ok(t);
  }

  /** The links of the template added last. */
  method LinkLastTemplate(ts: seq<Template>, ls: seq<TemplateLink>, ghost ps: seq<Template>, next: nat)
    returns (ls': seq<TemplateLink>, next': nat)
    requires WellLinked(ts, ls, ps, next) && ts != []
    ensures WellLinked(ts, ls', ps, next') && |ls'| <= |ls| + 2
  {
    ls', next' := ls, next;
    var t := ts[|ts| - 1];
    var numLinks :| 0 <= numLinks <= 2;
    for i := 0 to numLinks
      invariant WellLinked(ts, ls', ps, next') && |ls'| == |ls| + i
    {
      var values := ArbitraryValues(Slots(t));
      var l := TemplateLink(t.id, "policy" + Print10(next'), values);
      assert LinksTo(ts, l);
      AddLink(ts, ls', ps, next', l);
      ls', next' := ls' + [l], next' + 1;
    }
  }

  method TemplatesAndLinks() returns (r: Result<(seq<Template>, seq<TemplateLink>, nat), Error>)
    ensures r.Ok? ==> WellLinked(r.value.0, r.value.1, [], r.value.2)
    ensures r.Ok? ==> |r.value.0| <= 3 && |r.value.1| <= 2 * |r.value.0|
  {
    var ts: seq<Template>, ls: seq<TemplateLink>, next: nat := [], [], 0;
    var numTemplates :| 0 <= numTemplates <= 3;
    for i := 0 to numTemplates
      invariant WellLinked(ts, ls, [], next) && |ts| == i && |ls| <= 2 * i
    {
      var t := SlottedTemplate(next);
      if t.Err? {
        return Err(t.error);
      }
      AddTemplate(ts, ls, [], next, t.value);
      ts, next := ts + [t.value], next + 1;
      ls, next := LinkLastTemplate(ts, ls, [], next);
    }
    r := Ok((ts, ls, next));
  }

  method StaticPolicies(ghost ts: seq<Template>, ghost ls: seq<TemplateLink>, first: nat)
    returns (r: Result<seq<Template>, Error>)
    requires WellLinked(ts, ls, [], first)
    ensures r.Ok? ==> |r.value| <= 3 && exists n :: WellLinked(ts, ls, r.value, n)
  {
    var ps: seq<Template>, next: nat := [], first;
    var numStatic :| 0 <= numStatic <= 3;
    for i := 0 to numStatic
      invariant WellLinked(ts, ls, ps, next) && |ps| == i
    {
      var t := ArbitraryTemplateWithSlots(0);
      if t.Err? {
        return Err(t.error);
      }
      var p := t.value.(id := "policy" + Print10(next));
      AddStatic(ts, ls, ps, next, p);
      ps, next := ps + [p], next + 1;
    }
    r := Ok(ps);
  }

  predicate DistinctIds(ts: seq<Template>) {
    forall i, j | 0 <= i < j < |ts| :: ts[i].id != ts[j].id
  }

  /** Collects templates under their ids. */
  function Collect(ts: seq<Template>): map<PolicyId, Template>
    requires DistinctIds(ts)
  {
    map i | 0 <= i < |ts| :: ts[i].id := ts[i]
  }

  /** No template is lost to another with its id. */
  lemma CollectKeepsAll(ts: seq<Template>)
    requires DistinctIds(ts)
    ensures |Collect(ts)| == |ts|
  {
    var ids := seq(|ts|, i requires 0 <= i < |ts| => ts[i].id);
    DistinctSeqSize(ids);
    forall id ensures id in Collect(ts) <==> id in ids {
      if id in Collect(ts) {
        var i :| 0 <= i < |ts| && ts[i].id == id;
        assert ids[i] == id;
      }
    }
    assert Collect(ts).Keys == set id | id in ids;
    assert |Collect(ts)| == |Collect(ts).Keys|;
  }

  lemma CollectedIsClosed(ts: seq<Template>, ls: seq<TemplateLink>, ps: seq<Template>, n: nat)
    requires WellLinked(ts, ls, ps, n)
    ensures IsClosed(PolicySet(Collect(ts), Collect(ps), ls))
  {
    var s := PolicySet(Collect(ts), Collect(ps), ls);
    forall i | 0 <= i < |ls|
      ensures ls[i].templateId in s.templates && ls[i].values.Keys == Slots(s.templates[ls[i].templateId])
    {
      assert LinksTo(ts, ls[i]);
      var j :| 0 <= j < |ts| && ts[j].id == ls[i].templateId && ls[i].values.Keys == Slots(ts[j]);
      assert s.templates[ts[j].id] == ts[j];
    }
  }

  /** A policy set with up to three templates, up to two links each, and up to three static policies. */
  method ArbitraryPolicySet() returns (r: Result<PolicySet, Error>)
    ensures r.Ok? ==> IsClosed(r.value)
    ensures r.Ok? ==>
              |r.value.templates| <= 3 && |r.value.policies| <= 3 && |r.value.links| <= 2 * |r.value.templates|
  {
    var made := TemplatesAndLinks();
    if made.Err? {
      return Err(made.error);
    }
    var (ts, ls, next) := made.value;
    var ps := StaticPolicies(ts, ls, next);
    if ps.Err? {
      return Err(ps.error);
    }
    ghost var n :| WellLinked(ts, ls, ps.value, n);
    CollectedIsClosed(ts, ls, ps.value, n);
    CollectKeepsAll(ts);
    CollectKeepsAll(ps.value);
    r := Ok(PolicySet(Collect(ts), Collect(ps.value), ls));
  }
}
