/** The request environments of a schema that agree with what a caller left open. */
module RequestEnvs {
  import opened Wrappers

  type EntityTypeName = string

  datatype ActionUid = ActionUid(ty: EntityTypeName, id: string)

  /** An action of the schema with the types it applies to; None if it applies to nothing. */
  datatype Action = Action(uid: ActionUid, principals: Option<seq<EntityTypeName>>,
    resources: Option<seq<EntityTypeName>>)

  datatype RequestEnv = RequestEnv(principal: EntityTypeName, action: ActionUid, resource: EntityTypeName)

  datatype OpenRequestEnv = OpenRequestEnv(
    principalType: Option<EntityTypeName>, actionId: Option<ActionUid>, resourceType: Option<EntityTypeName>)

  datatype Error = RequestEnvArgsIncompatible

  // ---------- Which environments there are ----------

  function EnvsOfResources(a: ActionUid, p: EntityTypeName, rs: seq<EntityTypeName>): seq<RequestEnv> {
    seq(|rs|, i requires 0 <= i < |rs| => RequestEnv(p, a, rs[i]))
  }

  function EnvsOfPrincipals(a: Action, ps: seq<EntityTypeName>): seq<RequestEnv> {
    if ps == [] || a.resources.None? then []
    else EnvsOfPrincipals(a, ps[..|ps| - 1]) + EnvsOfResources(a.uid, ps[|ps| - 1], a.resources.value)
  }

  function EnvsOfAction(a: Action): seq<RequestEnv> {
    if a.principals.None? then [] else EnvsOfPrincipals(a, a.principals.value)
  }

  /** All environments of the schema. */
  function EnvsOf(actions: seq<Action>): seq<RequestEnv> {
    if actions == [] then [] else EnvsOf(actions[..|actions| - 1]) + EnvsOfAction(actions[|actions| - 1])
  }

  /** The action applies to the principal type and to the resource type. */
  predicate IsEnvOfAction(a: Action, e: RequestEnv) {
    && a.uid == e.action
    && a.principals.Some? && e.principal in a.principals.value
    && a.resources.Some? && e.resource in a.resources.value
  }

  predicate IsEnvOf(actions: seq<Action>, e: RequestEnv) {
    exists a :: a in actions && IsEnvOfAction(a, e)
  }

  lemma {:induction false} EnvsOfPrincipalsMembers(a: Action, ps: seq<EntityTypeName>, e: RequestEnv)
    ensures e in EnvsOfPrincipals(a, ps) <==>
              && a.uid == e.action && e.principal in ps
              && a.resources.Some? && e.resource in a.resources.value
  {
    if ps == [] || a.resources.None? {
    } else {
      var front, last := ps[..|ps| - 1], ps[|ps| - 1];
      EnvsOfPrincipalsMembers(a, front, e);
      assert e.principal in ps <==> e.principal in front || e.principal == last;
      var envs := EnvsOfResources(a.uid, last, a.resources.value);
      if e == RequestEnv(last, a.uid, e.resource) && e.resource in a.resources.value {
        var i :| 0 <= i < |a.resources.value| && a.resources.value[i] == e.resource;
        assert envs[i] == e;
      }
    }
  }

  /** The environments of a schema are those of its actions: a principal type and a resource type it applies to. */
  lemma {:induction false} EnvsOfMembers(actions: seq<Action>, e: RequestEnv)
    ensures e in EnvsOf(actions) <==> IsEnvOf(actions, e)
  {
    if actions == [] {
    } else {
      var front, last := actions[..|actions| - 1], actions[|actions| - 1];
      EnvsOfMembers(front, e);
      EnvsOfActionMembers(last, e);
      OneMoreAction(front, last, e);
      assert actions == front + [last];
    }
  }

  lemma EnvsOfActionMembers(a: Action, e: RequestEnv)
    ensures e in EnvsOfAction(a) <==> IsEnvOfAction(a, e)
  {
    if a.principals.Some? {
      EnvsOfPrincipalsMembers(a, a.principals.value, e);
    }
  }

  lemma OneMoreAction(front: seq<Action>, last: Action, e: RequestEnv)
    ensures IsEnvOf(front + [last], e) <==> IsEnvOf(front, e) || IsEnvOfAction(last, e)
  {
    if IsEnvOf(front, e) {
      var a :| a in front && IsEnvOfAction(a, e);
      assert a in front + [last];
    }
    assert last in front + [last];
  }

  /** The environment agrees with every given component; of the action only the id is compared. */
  predicate Agrees(open_: OpenRequestEnv, env: RequestEnv) {
    && (open_.principalType.Some? ==> env.principal == open_.principalType.value)
    && (open_.actionId.Some? ==> env.action.id == open_.actionId.value.id)
    && (open_.resourceType.Some? ==> env.resource == open_.resourceType.value)
  }

  /** The ones that agree, in order. */
  function Agreeing(open_: OpenRequestEnv, envs: seq<RequestEnv>): seq<RequestEnv> {
    if envs == [] then []
    else Agreeing(open_, envs[..|envs| - 1]) + if Agrees(open_, envs[|envs| - 1]) then [envs[|envs| - 1]] else []
  }

  lemma {:induction false} AgreeingMembers(open_: OpenRequestEnv, envs: seq<RequestEnv>, e: RequestEnv)
    ensures e in Agreeing(open_, envs) <==> e in envs && Agrees(open_, e)
  {
    if envs == [] {
    } else {
      AgreeingMembers(open_, envs[..|envs| - 1], e);
      assert envs == envs[..|envs| - 1] + [envs[|envs| - 1]];
    }
  }

  predicate IsRestricted(open_: OpenRequestEnv) {
    open_.principalType.Some? || open_.actionId.Some? || open_.resourceType.Some?
  }

  lemma {:induction false} AgreeingOfConcat(open_: OpenRequestEnv, a: seq<RequestEnv>, b: seq<RequestEnv>)
    ensures Agreeing(open_, a + b) == Agreeing(open_, a) + Agreeing(open_, b)
  {
    if b == [] {
      assert a + b == a;
    } else {
      AgreeingOfConcat(open_, a, b[..|b| - 1]);
      assert (a + b)[..|a + b| - 1] == a + b[..|b| - 1];
    }
  }

  lemma {:induction false} NoneAgree(open_: OpenRequestEnv, envs: seq<RequestEnv>)
    requires forall e | e in envs :: !Agrees(open_, e)
    ensures Agreeing(open_, envs) == []
  {
    if envs == [] {
    } else {
      NoneAgree(open_, envs[..|envs| - 1]);
    }
  }

  // ---------- Sorting ----------

  ghost predicate TotalOrder(leq: (RequestEnv, RequestEnv) -> bool) {
    && (forall x, y :: leq(x, y) || leq(y, x))
    && (forall x, y, z :: leq(x, y) && leq(y, z) ==> leq(x, z))
  }

  predicate IsSorted(leq: (RequestEnv, RequestEnv) -> bool, s: seq<RequestEnv>) {
    forall i, j | 0 <= i < j < |s| :: leq(s[i], s[j])
  }

  function InsertSorted(leq: (RequestEnv, RequestEnv) -> bool, s: seq<RequestEnv>, x: RequestEnv): seq<RequestEnv> {
    if s == [] || leq(x, s[0]) then [x] + s else [s[0]] + InsertSorted(leq, s[1..], x)
  }

  function Sort(leq: (RequestEnv, RequestEnv) -> bool, s: seq<RequestEnv>): seq<RequestEnv> {
    if s == [] then [] else InsertSorted(leq, Sort(leq, s[1..]), s[0])
  }

  lemma {:induction false} InsertSortedIsSorted(leq: (RequestEnv, RequestEnv) -> bool, s: seq<RequestEnv>,
                                                x: RequestEnv)
    requires TotalOrder(leq) && IsSorted(leq, s)
    ensures IsSorted(leq, InsertSorted(leq, s, x))
    ensures multiset(InsertSorted(leq, s, x)) == multiset(s) + multiset{x}
  {
    if s == [] {
    } else if leq(x, s[0]) {
      forall i | 0 <= i < |s| ensures leq(x, s[i]) {
        assert i > 0 ==> leq(s[0], s[i]);
      }
    } else {
      InsertSortedIsSorted(leq, s[1..], x);
      var rest := InsertSorted(leq, s[1..], x);
      assert s == [s[0]] + s[1..];
      forall i | 0 <= i < |rest| ensures leq(s[0], rest[i]) {
        assert rest[i] in multiset(rest);
        assert rest[i] == x || rest[i] in s[1..];
      }
    }
  }

  lemma {:induction false} SortIsSorted(leq: (RequestEnv, RequestEnv) -> bool, s: seq<RequestEnv>)
    requires TotalOrder(leq)
    ensures IsSorted(leq, Sort(leq, s)) && multiset(Sort(leq, s)) == multiset(s)
  {
    if s == [] {
    } else {
      SortIsSorted(leq, s[1..]);
      InsertSortedIsSorted(leq, Sort(leq, s[1..]), s[0]);
      assert s == [s[0]] + s[1..];
    }
  }

  lemma SameMembers(a: seq<RequestEnv>, b: seq<RequestEnv>)
    requires multiset(a) == multiset(b)
    ensures forall e :: e in a <==> e in b
  {
    forall e ensures e in a <==> e in b {
      assert e in a <==> e in multiset(a);
      assert e in b <==> e in multiset(b);
    }
  }

  // ---------- Collecting them ----------

  method CollectResources(open_: OpenRequestEnv, a: ActionUid, p: EntityTypeName, rs: seq<EntityTypeName>,
                          envs: seq<RequestEnv>)
    returns (out: seq<RequestEnv>)
    requires (open_.actionId.Some? ==> a.id == open_.actionId.value.id)
      && (open_.principalType.Some? ==> p == open_.principalType.value)
    ensures out == envs + Agreeing(open_, EnvsOfResources(a, p, rs))
  {
    out := envs;
    for k := 0 to |rs|
      invariant out == envs + Agreeing(open_, EnvsOfResources(a, p, rs[..k]))
    {
      var all := EnvsOfResources(a, p, rs[..k + 1]);
      assert all[..k] == EnvsOfResources(a, p, rs[..k]) && all[k] == RequestEnv(p, a, rs[k]);
      if open_.resourceType.Some? && open_.resourceType.value != rs[k] {
        continue;
      }
      out := out + [RequestEnv(p, a, rs[k])];
    }
    assert rs[..|rs|] == rs;
  }

  /** Some environments, and after them those of the first `n` principal types of an action that agree. */
  ghost predicate PrincipalsCollected(open_: OpenRequestEnv, a: Action, ps: seq<EntityTypeName>, n: nat,
                                      envs: seq<RequestEnv>, out: seq<RequestEnv>)
    requires n <= |ps|
  {
    out == envs + Agreeing(open_, EnvsOfPrincipals(a, ps[..n]))
  }

  /** The environments of one more principal type. */
  lemma OneMorePrincipal(open_: OpenRequestEnv, a: Action, ps: seq<EntityTypeName>, n: nat,
                         envs: seq<RequestEnv>, out: seq<RequestEnv>)
    requires n < |ps| && PrincipalsCollected(open_, a, ps, n, envs, out)
    ensures PrincipalsCollected(open_, a, ps, n + 1, envs,
              if a.resources.None? || (open_.principalType.Some? && open_.principalType.value != ps[n]) then out
              else out + Agreeing(open_, EnvsOfResources(a.uid, ps[n], a.resources.value)))
  {
    assert ps[..n + 1][..n] == ps[..n];
    if a.resources.Some? {
      var more := EnvsOfResources(a.uid, ps[n], a.resources.value);
      AgreeingOfConcat(open_, EnvsOfPrincipals(a, ps[..n]), more);
      if open_.principalType.Some? && open_.principalType.value != ps[n] {
        NoneAgree(open_, more);
      }
    }
  }

  method CollectPrincipals(open_: OpenRequestEnv, a: Action, ps: seq<EntityTypeName>, envs: seq<RequestEnv>)
    returns (out: seq<RequestEnv>)
    requires open_.actionId.Some? ==> a.uid.id == open_.actionId.value.id
    ensures out == envs + Agreeing(open_, EnvsOfPrincipals(a, ps))
  {
    out := envs;
    for j := 0 to |ps|
      invariant PrincipalsCollected(open_, a, ps, j, envs, out)
    {
      var p := ps[j];
      OneMorePrincipal(open_, a, ps, j, envs, out);
      if open_.principalType.Some? && open_.principalType.value != p {
        continue;
      }
      if a.resources.Some? {
        out := CollectResources(open_, a.uid, p, a.resources.value, out);
      }
    }
    assert ps[..|ps|] == ps;
  }

  method CollectActions(open_: OpenRequestEnv, actions: seq<Action>) returns (out: seq<RequestEnv>)
    ensures out == Agreeing(open_, EnvsOf(actions))
  {
    out := [];
    for i := 0 to |actions|
      invariant out == Agreeing(open_, EnvsOf(actions[..i]))
    {
      var a := actions[i];
      assert actions[..i + 1][..i] == actions[..i];
      AgreeingOfConcat(open_, EnvsOf(actions[..i]), EnvsOfAction(a));
      if open_.actionId.Some? && open_.actionId.value.id != a.uid.id {
        forall e | e in EnvsOfAction(a) ensures !Agrees(open_, e) {
          EnvsOfActionMembers(a, e);
        }
        NoneAgree(open_, EnvsOfAction(a));
        continue;
      }
      if a.principals.Some? {
        out := CollectPrincipals(open_, a, a.principals.value, out);
      }
    }
    assert actions[..|actions|] == actions;
  }

  /** Sorted, and exactly the schema's environments that agree; an error if something was asked for and none does. */
  method ToRequestEnvs(open_: OpenRequestEnv, actions: seq<Action>, leq: (RequestEnv, RequestEnv) -> bool)
    returns (r: Result<seq<RequestEnv>, Error>)
    requires TotalOrder(leq)
    ensures r.Ok? ==> IsSorted(leq, r.value) && multiset(r.value) == multiset(Agreeing(open_, EnvsOf(actions)))
    ensures r.Ok? ==> forall e :: e in r.value <==> IsEnvOf(actions, e) && Agrees(open_, e)
    ensures r.Err? <==> IsRestricted(open_) && forall e | e in EnvsOf(actions) :: !Agrees(open_, e)
  {
    var envs := CollectActions(open_, actions);
    forall e ensures e in envs <==> IsEnvOf(actions, e) && Agrees(open_, e) {
      AgreeingMembers(open_, EnvsOf(actions), e);
      EnvsOfMembers(actions, e);
    }
    if envs == [] && (open_.actionId.Some? || open_.principalType.Some? || open_.resourceType.Some?) {
      forall e | e in EnvsOf(actions) ensures !Agrees(open_, e) {
        AgreeingMembers(open_, EnvsOf(actions), e);
      }
      return Err(RequestEnvArgsIncompatible);
    }
    if envs != [] {
      AgreeingMembers(open_, EnvsOf(actions), envs[0]);
    }
    SortIsSorted(leq, envs);
    SameMembers(Sort(leq, envs), envs);
    r := Ok(Sort(leq, envs));
  }
}
