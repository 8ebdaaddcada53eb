/** The life of a tenant's data key while many connections enroll at once: each SQL
    statement is one atomic step, and the steps of all actors interleave freely.
    The configuration is the server-wrapped one; wrapping is symbolic. */
module TenantKey {
  import opened Options

  type Key = nat

  /** Wrapping is randomised: the same key wraps to different values. */
  datatype Wrapped = Wrapped(key: Key, nonce: nat)

  function Unwrap(w: Wrapped): Key { w.key }

  datatype Enrollment = Active | Pending | Off

  datatype User = User(disabled: bool, enrollment: Enrollment, wrapped: Option<Wrapped>, quota: Option<nat>)

  /** The row of the one user this model is about, and this user's devices (true: revoked). */
  datatype Db = Db(user: Option<User>, devices: map<string, bool>)

  datatype Error = NotEnrolled | TenantDisabled | NotActive | DeviceRevoked

  /** Where one `_ensure_tenant` call stands; `fill` says that the row it read had no quota. */
  datatype Pc =
    | ReadUser
    | InsertUser(key: Key, wrapped: Wrapped)
    | RereadInserted(key: Key)
    | FillKey(key: Key, wrapped: Wrapped, fill: bool)
    | RereadFilled(key: Key, fill: bool)
    | FillQuota(key: Key)
    | ReadDevice(key: Key)
    | InsertDevice(key: Key)
    | Done(key: Key)
    | Failed(error: Error)

  /** A call runs in a process that may or may not enroll unknown tenants by itself, and that
      has its own default quota. */
  datatype Call = Call(device: string, autoEnroll: bool, defaultQuota: Option<nat>, pc: Pc)

  datatype State = State(db: Db, calls: map<nat, Call>)

  datatype Action =
    | Start(id: nat, device: string, autoEnroll: bool, defaultQuota: Option<nat>)
    | Step(id: nat, made: Wrapped)            // `made`: the key a call generates, if it does
    | Enroll(made: Wrapped, enrollQuota: Option<nat>)
    | Disable
    | RequestAccess
    | Revoke(revoked: string)

  function AfterKey(c: Call, key: Key, fill: bool): Pc {
    if fill && c.defaultQuota.Some? then FillQuota(key) else ReadDevice(key)
  }

  /** What the re-read of the key column makes of a generated key. */
  function Adopt(key: Key, db: Db): Key {
    if db.user.Some? && db.user.value.wrapped.Some? then Unwrap(db.user.value.wrapped.value) else key
  }

  /** One statement of `_ensure_tenant`. */
  function StepCall(db: Db, c: Call, made: Wrapped): (Db, Pc) {
    match c.pc
    case ReadUser =>
      (db, if db.user.None? then
             if !c.autoEnroll then Failed(NotEnrolled) else InsertUser(Unwrap(made), made)
           else
             var u := db.user.value;
             if u.disabled then Failed(TenantDisabled)
             else if u.enrollment != Active then Failed(NotActive)
             else if u.wrapped.Some? then AfterKey(c, Unwrap(u.wrapped.value), u.quota.None?)
             else FillKey(Unwrap(made), made, u.quota.None?))
    case InsertUser(key, wrapped) =>
      (if db.user.None? then db.(user := Some(User(false, Active, Some(wrapped), c.defaultQuota))) else db,
       RereadInserted(key))
    case RereadInserted(key) =>
      (db, ReadDevice(Adopt(key, db)))
    case FillKey(key, wrapped, fill) =>
      (if db.user.Some? && db.user.value.wrapped.None?
       then db.(user := Some(db.user.value.(wrapped := Some(wrapped)))) else db,
       RereadFilled(key, fill))
    case RereadFilled(key, fill) =>
      (db, AfterKey(c, Adopt(key, db), fill))
    case FillQuota(key) =>
      (if db.user.Some? && db.user.value.quota.None?
       then db.(user := Some(db.user.value.(quota := c.defaultQuota))) else db,
       ReadDevice(key))
    case ReadDevice(key) =>
      (db, if c.device in db.devices then if db.devices[c.device] then Failed(DeviceRevoked) else Done(key)
           else InsertDevice(key))
    case InsertDevice(key) =>
      (if c.device in db.devices then db else db.(devices := db.devices[c.device := false]), Done(key))
    case Done(_) => (db, c.pc)
    case Failed(_) => (db, c.pc)
  }

  function Apply(s: State, a: Action): State {
    match a
    case Start(id, device, autoEnroll, defaultQuota) =>
      if id in s.calls then s else s.(calls := s.calls[id := Call(device, autoEnroll, defaultQuota, ReadUser)])
    case Step(id, made) =>
      if id !in s.calls then s else
        var (db, pc) := StepCall(s.db, s.calls[id], made);
        State(db, s.calls[id := s.calls[id].(pc := pc)])
    case Enroll(made, quota) =>
      s.(db := s.db.(user := Some(
        if s.db.user.None? then User(false, Active, Some(made), quota)
        else User(false, Active,
                  if s.db.user.value.wrapped.Some? then s.db.user.value.wrapped else Some(made), quota))))
    case Disable =>
      if s.db.user.None? then s
      else s.(db := s.db.(user := Some(s.db.user.value.(disabled := true, enrollment := Off))))
    case RequestAccess =>
      s.(db := s.db.(user := Some(
        if s.db.user.None? then User(false, Pending, None, Some(0))
        else if s.db.user.value.enrollment == Active then s.db.user.value
        else s.db.user.value.(enrollment := Pending))))
    case Revoke(device) =>
      s.(db := s.db.(devices := s.db.devices[device := true]))
  }

  function Run(s: State, actions: seq<Action>): State {
    if actions == [] then s else Apply(Run(s, actions[..|actions| - 1]), actions[|actions| - 1])
  }

  // ----- Safety -----

  /** Does the deployment have a process that enrolls unknown tenants by itself, and one that
      records access requests instead? `_can_auto_enroll` decides which in each process. */
  datatype Deployment = Deployment(enrolls: bool, takesRequests: bool)

  ghost predicate Allowed(d: Deployment, actions: seq<Action>) {
    forall i :: 0 <= i < |actions| ==>
      && (actions[i].Start? && actions[i].autoEnroll ==> d.enrolls)
      && (actions[i].RequestAccess? ==> d.takesRequests)
  }

  ghost predicate Stores(db: Db, key: Key) {
    db.user.Some? && db.user.value.wrapped.Some? && Unwrap(db.user.value.wrapped.value) == key
  }

  /** Every call that succeeded returned the unwrapping of the stored key. */
  ghost predicate ResultsStored(s: State) {
    forall id :: id in s.calls && s.calls[id].pc.Done? ==> Stores(s.db, s.calls[id].pc.key)
  }

  /** A state in which no call has begun: any table contents, no calls. */
  ghost predicate Initial(s: State) {
    s.calls == map[]
  }

  ghost predicate Safe(d: Deployment) {
    forall s, actions :: Initial(s) && Allowed(d, actions) ==> ResultsStored(Run(s, actions))
  }

  /** What each program point may rely on. */
  ghost predicate PointOk(d: Deployment, db: Db, c: Call) {
    && (c.autoEnroll ==> d.enrolls)
    && match c.pc
       case ReadUser => true
       case InsertUser(_, _) => c.autoEnroll && (db.user.Some? ==> db.user.value.wrapped.Some?)
       case RereadInserted(_) => db.user.Some? && db.user.value.wrapped.Some?
       case FillKey(_, _, _) => db.user.Some?
       case RereadFilled(_, _) => db.user.Some? && db.user.value.wrapped.Some?
       case FillQuota(key) => Stores(db, key)
       case ReadDevice(key) => Stores(db, key)
       case InsertDevice(key) => Stores(db, key)
       case Done(key) => Stores(db, key)
       case Failed(_) => true
  }

  ghost predicate Inv(d: Deployment, s: State) {
    forall id :: id in s.calls ==> PointOk(d, s.db, s.calls[id])
  }

  /** Write once: whatever the action, a row never disappears, a stored key never changes, and
      where requests are not taken a new row has a key. */
  lemma KeyIsWriteOnce(s: State, a: Action)
    ensures s.db.user.Some? ==> Apply(s, a).db.user.Some?
    ensures s.db.user.Some? && s.db.user.value.wrapped.Some? ==>
              Apply(s, a).db.user.value.wrapped == s.db.user.value.wrapped
    ensures s.db.user.None? && Apply(s, a).db.user.Some? && !a.RequestAccess? ==>
              Apply(s, a).db.user.value.wrapped.Some?
  {
  }

  /** Over whole runs: a stored key is still the stored one after any further actions. */
  lemma {:induction false} StoredKeyNeverChanges(s: State, actions: seq<Action>, more: seq<Action>, key: Key)
    requires Stores(Run(s, actions).db, key)
    ensures Stores(Run(s, actions + more).db, key)
  {
    if more == [] {
      assert actions + more == actions;
    } else {
      var all, m := actions + more, |more| - 1;
      StoredKeyNeverChanges(s, actions, more[..m], key);
      assert all[..|all| - 1] == actions + more[..m];
      KeyIsWriteOnce(Run(s, actions + more[..m]), all[|all| - 1]);
    }
  }

  /** An action leaves the program point of every call that it does not move in order. */
  lemma PointStable(d: Deployment, s: State, a: Action, c: Call)
    requires !(d.enrolls && d.takesRequests) && (a.RequestAccess? ==> d.takesRequests)
    requires PointOk(d, s.db, c)
    ensures PointOk(d, Apply(s, a).db, c)
  {
    KeyIsWriteOnce(s, a);
  }

  /** One statement of a call keeps what its program point knows about the row. */
  lemma PointStep(d: Deployment, s: State, id: nat, made: Wrapped)
    requires id in s.calls && PointOk(d, s.db, s.calls[id])
    ensures var (db, pc) := StepCall(s.db, s.calls[id], made); PointOk(d, db, s.calls[id].(pc := pc))
  {
  }

  /** Every reachable state keeps every call's program point consistent with the row. */
  lemma {:induction false} InvHolds(d: Deployment, s: State, actions: seq<Action>)
    requires Initial(s) && Allowed(d, actions) && !(d.enrolls && d.takesRequests)
    ensures Inv(d, Run(s, actions))
  {
    if actions != [] {
      var n := |actions| - 1;
      InvHolds(d, s, actions[..n]);
      var t, a := Run(s, actions[..n]), actions[n];
      var t' := Apply(t, a);
      forall id | id in t'.calls ensures PointOk(d, t'.db, t'.calls[id]) {
        if a.Step? && a.id == id {
          PointStep(d, t, id, a.made);
        } else if id in t.calls {
          PointStable(d, t, a, t.calls[id]);
        }
      }
    }
  }

  /** All successful calls of a run return one and the same key, the stored one. */
  lemma OneKeyForAll(d: Deployment, s: State, actions: seq<Action>, i: nat, j: nat)
    requires Initial(s) && Allowed(d, actions) && !(d.enrolls && d.takesRequests)
    requires var t := Run(s, actions);
             i in t.calls && t.calls[i].pc.Done? && j in t.calls && t.calls[j].pc.Done?
    ensures var t := Run(s, actions);
            t.calls[i].pc.key == t.calls[j].pc.key && Stores(t.db, t.calls[i].pc.key)
  {
    InvHolds(d, s, actions);
    assert PointOk(d, Run(s, actions).db, Run(s, actions).calls[i]);
    assert PointOk(d, Run(s, actions).db, Run(s, actions).calls[j]);
  }

  /** The failing run of a mixed deployment: between a connection's read and its insert, another
      process records an access request, so the insert does nothing and the re-read finds no key. */
  function MixedRun(w: Wrapped): seq<Action> {
    [Start(0, "device", true, None), Step(0, w), RequestAccess, Step(0, w), Step(0, w), Step(0, w), Step(0, w)]
  }

  lemma RunNothing(s: State)
    ensures Run(s, []) == s
  {
  }

  lemma RunSnoc(s: State, actions: seq<Action>, a: Action)
    ensures Run(s, actions + [a]) == Apply(Run(s, actions), a)
  {
    assert (actions + [a])[..|actions|] == actions;
  }

  lemma MixedRunLosesKey(w: Wrapped)
    ensures var t := Run(State(Db(None, map[]), map[]), MixedRun(w));
            0 in t.calls && t.calls[0].pc == Done(Unwrap(w)) && t.db.user == Some(User(false, Pending, None, Some(0)))
  {
    hide Run, MixedRun;
    var s0, st := State(Db(None, map[]), map[]), Step(0, w);
    MixedRunSteps(s0, w);
    var s2 := Apply(Apply(s0, Start(0, "device", true, None)), st);
    assert s2.calls[0].pc == InsertUser(Unwrap(w), w);
    var s5 := Apply(Apply(Apply(s2, RequestAccess), st), st);
    assert s5.calls[0].pc == ReadDevice(Unwrap(w));
    assert Apply(s5, st).calls[0].pc == InsertDevice(Unwrap(w));
  }

  lemma MixedRunSteps(s: State, w: Wrapped)
    ensures var st := Step(0, w);
            Run(s, MixedRun(w))
            == Apply(Apply(Apply(Apply(Apply(Apply(Apply(s, Start(0, "device", true, None)), st), RequestAccess), st),
                                 st), st), st)
  {
    hide Run, Apply;
    var st, a0 := Step(0, w), Start(0, "device", true, None);
    RunNothing(s);
    RunSnoc(s, [], a0);
    RunSnoc(s, [a0], st);
    RunSnoc(s, [a0, st], RequestAccess);
    RunSnoc(s, [a0, st, RequestAccess], st);
    RunSnoc(s, [a0, st, RequestAccess, st], st);
    RunSnoc(s, [a0, st, RequestAccess, st, st], st);
    RunSnoc(s, [a0, st, RequestAccess, st, st, st], st);
    assert [] + [a0] == [a0] && [a0] + [st] == [a0, st] && [a0, st] + [RequestAccess] == [a0, st, RequestAccess];
    assert [a0, st, RequestAccess] + [st] == [a0, st, RequestAccess, st];
    assert [a0, st, RequestAccess, st] + [st] == [a0, st, RequestAccess, st, st];
    assert [a0, st, RequestAccess, st, st] + [st] == [a0, st, RequestAccess, st, st, st];
    assert [a0, st, RequestAccess, st, st, st] + [st] == MixedRun(w);
  }

  /** Main result, exact: the key protocol is safe in every run exactly when no process enrolls
      by itself while another takes access requests. */
  lemma SafeExactly(d: Deployment)
    ensures Safe(d) <==> !(d.enrolls && d.takesRequests)
  {
    if !(d.enrolls && d.takesRequests) {
      forall s, actions | Initial(s) && Allowed(d, actions) ensures ResultsStored(Run(s, actions)) {
        InvHolds(d, s, actions);
        var t := Run(s, actions);
        forall id | id in t.calls && t.calls[id].pc.Done? ensures Stores(t.db, t.calls[id].pc.key) {
          assert PointOk(d, t.db, t.calls[id]);
        }
      }
    } else {
      var w := Wrapped(7, 0);
      MixedRunLosesKey(w);
      assert Initial(State(Db(None, map[]), map[])) && Allowed(d, MixedRun(w));
      assert !ResultsStored(Run(State(Db(None, map[]), map[]), MixedRun(w)));
    }
  }
}
