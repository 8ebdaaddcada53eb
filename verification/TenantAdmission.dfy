/** Which calls for a tenant's data key succeed: over every interleaving with other calls, with the operator's
    commands and with revocations. */
module TenantAdmission {
  import opened Options
  import opened TenantKey

  // ----- Steps of a run -----

  /** Step `m` of the run is a statement of call `id`, which stands at its first read. */
  ghost predicate ReadsUser(s: State, actions: seq<Action>, m: nat, id: nat) {
    && m < |actions| && actions[m].Step? && actions[m].id == id
    && id in Run(s, actions[..m]).calls && Run(s, actions[..m]).calls[id].pc == ReadUser
  }

  /** Step `m` of the run is the call's look at its device. */
  ghost predicate ReadsDevice(s: State, actions: seq<Action>, m: nat, id: nat) {
    && m < |actions| && actions[m].Step? && actions[m].id == id
    && id in Run(s, actions[..m]).calls && Run(s, actions[..m]).calls[id].pc.ReadDevice?
  }

  lemma StepOf(s: State, actions: seq<Action>, m: nat)
    requires m < |actions|
    ensures Run(s, actions[..m + 1]) == Apply(Run(s, actions[..m]), actions[m])
  {
    assert actions[..m + 1][..m] == actions[..m];
  }

  predicate Finished(pc: Pc) { pc.Done? || pc.Failed? }

  /** A call keeps what it was started with, and its outcome. */
  lemma StepKeepsCall(s: State, a: Action, id: nat)
    requires id in s.calls
    ensures var t := Apply(s, a);
            && id in t.calls && t.calls[id].device == s.calls[id].device
            && t.calls[id].autoEnroll == s.calls[id].autoEnroll
            && t.calls[id].defaultQuota == s.calls[id].defaultQuota
            && (Finished(s.calls[id].pc) ==> t.calls[id].pc == s.calls[id].pc)
  {
  }

  lemma {:induction false} RunKeepsCall(s: State, actions: seq<Action>, m: nat, l: nat, id: nat)
    requires m <= l <= |actions| && id in Run(s, actions[..m]).calls
    ensures var c, t := Run(s, actions[..m]).calls[id], Run(s, actions[..l]);
            && id in t.calls && t.calls[id].device == c.device && t.calls[id].autoEnroll == c.autoEnroll
            && (Finished(c.pc) ==> t.calls[id].pc == c.pc)
    decreases l
  {
    if m < l {
      hide Run, Apply, Finished;
      RunKeepsCall(s, actions, m, l - 1, id);
      StepOf(s, actions, l - 1);
      StepKeepsCall(Run(s, actions[..l - 1]), actions[l - 1], id);
    }
  }

  // ----- The first read decides admission -----

  /** The call has passed its first read. */
  predicate Admitted(pc: Pc) {
    pc != ReadUser && (pc.Failed? ==> pc.error == DeviceRevoked)
  }

  lemma StepAdmitted(s: State, a: Action, id: nat)
    requires id in s.calls && Admitted(s.calls[id].pc)
    ensures Admitted(Apply(s, a).calls[id].pc)
  {
  }

  lemma {:induction false} RunAdmitted(s: State, actions: seq<Action>, m: nat, l: nat, id: nat)
    requires m <= l <= |actions| && id in Run(s, actions[..m]).calls && Admitted(Run(s, actions[..m]).calls[id].pc)
    ensures id in Run(s, actions[..l]).calls && Admitted(Run(s, actions[..l]).calls[id].pc)
    decreases l
  {
    if m < l {
      RunAdmitted(s, actions, m, l - 1, id);
      RunKeepsCall(s, actions, m, l - 1, id);
      StepOf(s, actions, l - 1);
      hide Run, Apply;
      StepAdmitted(Run(s, actions[..l - 1]), actions[l - 1], id);
      StepKeepsCall(Run(s, actions[..l - 1]), actions[l - 1], id);
    }
  }

  /** Main result, exact: what a call's first read meets decides, for the whole rest of every run, whether it is
      refused, and with which error. A call that is not refused there can only still fail on its device. */
  lemma AdmissionExactly(s: State, actions: seq<Action>, m: nat, id: nat)
    requires ReadsUser(s, actions, m, id)
    ensures var user, c := Run(s, actions[..m]).db.user, Run(s, actions[..m]).calls[id];
            var t := Run(s, actions);
            && id in t.calls && t.calls[id].pc != ReadUser
            && (t.calls[id].pc == Failed(NotEnrolled) <==> user.None? && !c.autoEnroll)
            && (t.calls[id].pc == Failed(TenantDisabled) <==> user.Some? && user.value.disabled)
            && (t.calls[id].pc == Failed(NotActive) <==>
                  user.Some? && !user.value.disabled && user.value.enrollment != Active)
  {
    StepOf(s, actions, m);
    FirstRead(Run(s, actions[..m]), actions[m], id);
    assert actions[..|actions|] == actions;
    var after := Run(s, actions[..m + 1]).calls[id].pc;
    hide Run, Apply;
    RunKeepsCall(s, actions, m + 1, |actions|, id);
    if Admitted(after) {
      RunAdmitted(s, actions, m + 1, |actions|, id);
    }
  }

  lemma FirstRead(s: State, a: Action, id: nat)
    requires a.Step? && a.id == id && id in s.calls && s.calls[id].pc == ReadUser
    ensures var user, c, pc := s.db.user, s.calls[id], Apply(s, a).calls[id].pc;
            && (pc == Failed(NotEnrolled) <==> user.None? && !c.autoEnroll)
            && (pc == Failed(TenantDisabled) <==> user.Some? && user.value.disabled)
            && (pc == Failed(NotActive) <==> user.Some? && !user.value.disabled && user.value.enrollment != Active)
            && (Admitted(pc) || pc.Failed?) && pc != Failed(DeviceRevoked)
  {
  }

  // ----- The look at the device -----

  /** No action takes a revocation back. */
  lemma RevokedStays(s: State, a: Action, device: string)
    requires device in s.db.devices && s.db.devices[device]
    ensures device in Apply(s, a).db.devices && Apply(s, a).db.devices[device]
  {
  }

  lemma {:induction false} RevokedForGood(s: State, actions: seq<Action>, m: nat, l: nat, device: string)
    requires m <= l <= |actions|
    requires device in Run(s, actions[..m]).db.devices && Run(s, actions[..m]).db.devices[device]
    ensures device in Run(s, actions[..l]).db.devices && Run(s, actions[..l]).db.devices[device]
    decreases l
  {
    if m < l {
      RevokedForGood(s, actions, m, l - 1, device);
      StepOf(s, actions, l - 1);
      hide Run, Apply;
      RevokedStays(Run(s, actions[..l - 1]), actions[l - 1], device);
    }
  }

  /** Main result, exact: a call is refused for its device if and only if the device is stored as revoked when the
      call looks; otherwise nothing can refuse it any more. */
  lemma DeviceExactly(s: State, actions: seq<Action>, m: nat, id: nat)
    requires ReadsDevice(s, actions, m, id)
    ensures var devices, c, t := Run(s, actions[..m]).db.devices, Run(s, actions[..m]).calls[id], Run(s, actions);
            && id in t.calls
            && (t.calls[id].pc == Failed(DeviceRevoked) <==> c.device in devices && devices[c.device])
            && (t.calls[id].pc != Failed(DeviceRevoked) ==>
                  t.calls[id].pc == InsertDevice(c.pc.key) || t.calls[id].pc == Done(c.pc.key))
  {
    StepOf(s, actions, m);
    var before, after := Run(s, actions[..m]), Run(s, actions[..m + 1]);
    assert after.calls[id].pc == Failed(DeviceRevoked)
           <==> before.calls[id].device in before.db.devices && before.db.devices[before.calls[id].device];
    assert Passed(after.calls[id].pc, before.calls[id].pc.key) || after.calls[id].pc == Failed(DeviceRevoked);
    assert actions[..|actions|] == actions;
    hide Run, Apply;
    RunKeepsCall(s, actions, m + 1, |actions|, id);
    if Passed(after.calls[id].pc, before.calls[id].pc.key) {
      RunPassed(s, actions, m + 1, |actions|, id, before.calls[id].pc.key);
    }
  }

  predicate Passed(pc: Pc, key: Key) {
    pc == InsertDevice(key) || pc == Done(key)
  }

  lemma {:induction false} RunPassed(s: State, actions: seq<Action>, m: nat, l: nat, id: nat, key: Key)
    requires m <= l <= |actions| && id in Run(s, actions[..m]).calls && Passed(Run(s, actions[..m]).calls[id].pc, key)
    ensures id in Run(s, actions[..l]).calls && Passed(Run(s, actions[..l]).calls[id].pc, key)
    decreases l
  {
    if m < l {
      RunPassed(s, actions, m, l - 1, id, key);
      StepOf(s, actions, l - 1);
      hide Run, Apply;
      StepPassed(Run(s, actions[..l - 1]), actions[l - 1], id, key);
    }
  }

  lemma StepPassed(s: State, a: Action, id: nat, key: Key)
    requires id in s.calls && Passed(s.calls[id].pc, key)
    ensures id in Apply(s, a).calls && Passed(Apply(s, a).calls[id].pc, key)
  {
  }

  /** The call has not been handed the key, nor passed the look at its device. */
  predicate NotPassed(pc: Pc) {
    !pc.Done? && !pc.InsertDevice?
  }

  lemma StepNotPassed(s: State, a: Action, id: nat)
    requires id in s.calls && NotPassed(s.calls[id].pc)
    requires s.calls[id].device in s.db.devices && s.db.devices[s.calls[id].device]
    ensures NotPassed(Apply(s, a).calls[id].pc)
  {
  }

  lemma {:induction false} RevokedNotPassed(s: State, actions: seq<Action>, m: nat, l: nat, id: nat)
    requires m <= l <= |actions| && id in Run(s, actions[..m]).calls && NotPassed(Run(s, actions[..m]).calls[id].pc)
    requires var t := Run(s, actions[..m]); t.calls[id].device in t.db.devices && t.db.devices[t.calls[id].device]
    ensures id in Run(s, actions[..l]).calls && NotPassed(Run(s, actions[..l]).calls[id].pc)
    decreases l
  {
    if m < l {
      var device := Run(s, actions[..m]).calls[id].device;
      RevokedNotPassed(s, actions, m, l - 1, id);
      RevokedForGood(s, actions, m, l - 1, device);
      RunKeepsCall(s, actions, m, l - 1, id);
      StepOf(s, actions, l - 1);
      hide Run, Apply;
      StepNotPassed(Run(s, actions[..l - 1]), actions[l - 1], id);
      StepKeepsCall(Run(s, actions[..l - 1]), actions[l - 1], id);
    }
  }

  /** A call started while its device is stored as revoked is never handed a key, in any continuation. */
  lemma RevokedNeverServed(s: State, actions: seq<Action>, m: nat, id: nat)
    requires m < |actions| && actions[m].Start? && actions[m].id == id && id !in Run(s, actions[..m]).calls
    requires var devices := Run(s, actions[..m]).db.devices;
             actions[m].device in devices && devices[actions[m].device]
    ensures id in Run(s, actions).calls && !Run(s, actions).calls[id].pc.Done?
  {
    StepOf(s, actions, m);
    assert actions[..|actions|] == actions;
    RevokedNotPassed(s, actions, m + 1, |actions|, id);
  }

  // ----- Every call ends -----

  function StepsLeft(pc: Pc): nat {
    match pc
    case ReadUser => 6
    case InsertUser(_, _) => 5
    case FillKey(_, _, _) => 5
    case RereadInserted(_) => 4
    case RereadFilled(_, _) => 4
    case FillQuota(_) => 3
    case ReadDevice(_) => 2
    case InsertDevice(_) => 1
    case _ => 0
  }

  function StepsOf(actions: seq<Action>, id: nat): nat {
    if actions == [] then 0
    else
      var a := actions[|actions| - 1];
      StepsOf(actions[..|actions| - 1], id) + if a.Step? && a.id == id then 1 else 0
  }

  /** Each own statement brings a call nearer to its end, whatever the others do in between. */
  lemma NearerEnd(s: State, a: Action, id: nat)
    requires id in s.calls
    ensures var left := StepsLeft(Apply(s, a).calls[id].pc);
            left <= StepsLeft(s.calls[id].pc)
            && (a.Step? && a.id == id && StepsLeft(s.calls[id].pc) > 0 ==> left < StepsLeft(s.calls[id].pc))
  {
  }

  lemma {:induction false} StepsTaken(s: State, actions: seq<Action>, id: nat)
    requires id in s.calls
    ensures id in Run(s, actions).calls
    ensures var left := StepsLeft(Run(s, actions).calls[id].pc);
            left <= StepsLeft(s.calls[id].pc)
            && (left > 0 ==> left + StepsOf(actions, id) <= StepsLeft(s.calls[id].pc))
  {
    if actions != [] {
      var n := |actions| - 1;
      StepsTaken(s, actions[..n], id);
      hide Apply;
      NearerEnd(Run(s, actions[..n]), actions[n], id);
      StepKeepsCall(Run(s, actions[..n]), actions[n], id);
    }
  }

  /** A call that got six turns has succeeded or failed. */
  lemma EveryCallEnds(s: State, actions: seq<Action>, id: nat)
    requires id in s.calls && StepsOf(actions, id) >= 6
    ensures id in Run(s, actions).calls && Finished(Run(s, actions).calls[id].pc)
  {
    StepsTaken(s, actions, id);
  }

  // ----- The operator's commands -----

  /** The row of an enrolled tenant. */
  predicate Enrolled(db: Db) {
    db.user.Some? && !db.user.value.disabled && db.user.value.enrollment == Active
  }

  predicate Disabled(db: Db) {
    db.user.Some? && db.user.value.disabled
  }

  /** A row that asks for access and has none. */
  predicate Waiting(db: Db) {
    db.user.Some? && !db.user.value.disabled && db.user.value.enrollment != Active
  }

  lemma RowStays(s: State, a: Action)
    ensures Enrolled(s.db) && !a.Disable? ==> Enrolled(Apply(s, a).db)
    ensures Disabled(s.db) && !a.Enroll? ==> Disabled(Apply(s, a).db)
    ensures Waiting(s.db) && !a.Enroll? && !a.Disable? ==> Waiting(Apply(s, a).db)
  {
  }

  predicate NoneDisables(actions: seq<Action>, m: nat, l: nat)
    requires l <= |actions|
  {
    forall i :: m <= i < l ==> !actions[i].Disable?
  }

  predicate NoneEnrolls(actions: seq<Action>, m: nat, l: nat)
    requires l <= |actions|
  {
    forall i :: m <= i < l ==> !actions[i].Enroll?
  }

  lemma NoneBefore(actions: seq<Action>, m: nat, l: nat)
    requires m < l <= |actions|
    ensures NoneDisables(actions, m, l) ==> NoneDisables(actions, m, l - 1) && !actions[l - 1].Disable?
    ensures NoneEnrolls(actions, m, l) ==> NoneEnrolls(actions, m, l - 1) && !actions[l - 1].Enroll?
  {
  }

  lemma {:induction false} RowStaysInRun(s: State, actions: seq<Action>, m: nat, l: nat)
    requires m <= l <= |actions|
    ensures var before, after := Run(s, actions[..m]).db, Run(s, actions[..l]).db;
            && (NoneDisables(actions, m, l) && Enrolled(before) ==> Enrolled(after))
            && (NoneEnrolls(actions, m, l) && Disabled(before) ==> Disabled(after))
            && (NoneEnrolls(actions, m, l) && NoneDisables(actions, m, l) && Waiting(before) ==> Waiting(after))
    decreases l
  {
    hide Run, Apply, Enrolled, Disabled, Waiting, NoneDisables, NoneEnrolls;
    if m < l {
      RowStaysInRun(s, actions, m, l - 1);
      StepOf(s, actions, l - 1);
      NoneBefore(actions, m, l);
      RowStays(Run(s, actions[..l - 1]), actions[l - 1]);
    }
  }

  /** After an enrollment that was not taken back, no call is refused by its first read. */
  lemma EnrolledIsAdmitted(s: State, actions: seq<Action>, m: nat, k: nat, id: nat)
    requires m < k && ReadsUser(s, actions, k, id)
    requires actions[m].Enroll? && forall i :: m < i < k ==> !actions[i].Disable?
    ensures id in Run(s, actions).calls && Admitted(Run(s, actions).calls[id].pc)
  {
    StepOf(s, actions, m);
    assert Enrolled(Run(s, actions[..m + 1]).db);
    RowStaysInRun(s, actions, m + 1, k);
    hide Run, Apply;
    AdmissionExactly(s, actions, k, id);
  }

  /** After a disabling that was not taken back, every call is refused as disabled. */
  lemma DisabledIsRefused(s: State, actions: seq<Action>, m: nat, k: nat, id: nat)
    requires m < k && ReadsUser(s, actions, k, id)
    requires actions[m].Disable? && Run(s, actions[..m]).db.user.Some?
    requires forall i :: m < i < k ==> !actions[i].Enroll?
    ensures id in Run(s, actions).calls && Run(s, actions).calls[id].pc == Failed(TenantDisabled)
  {
    StepOf(s, actions, m);
    assert Disabled(Run(s, actions[..m + 1]).db);
    RowStaysInRun(s, actions, m + 1, k);
    hide Run, Apply;
    AdmissionExactly(s, actions, k, id);
  }

  /** A request for access by an unknown tenant, or one not yet active, leaves it waiting until it is enrolled. */
  lemma RequestedWaits(s: State, actions: seq<Action>, m: nat, k: nat, id: nat)
    requires m < k && ReadsUser(s, actions, k, id) && actions[m].RequestAccess?
    requires var user := Run(s, actions[..m]).db.user;
             user.Some? ==> !user.value.disabled && user.value.enrollment != Active
    requires forall i :: m < i < k ==> !actions[i].Enroll? && !actions[i].Disable?
    ensures id in Run(s, actions).calls && Run(s, actions).calls[id].pc == Failed(NotActive)
  {
    StepOf(s, actions, m);
    assert Waiting(Run(s, actions[..m + 1]).db);
    RowStaysInRun(s, actions, m + 1, k);
    hide Run, Apply;
    AdmissionExactly(s, actions, k, id);
  }

  /** A request for access takes nothing from an active tenant. */
  lemma RequestKeepsActive(s: State)
    requires Enrolled(s.db)
    ensures Apply(s, RequestAccess) == s
  {
  }

  /** A device revoked before a call starts never gets the key, whatever else happens. */
  lemma RevokedIsRefused(s: State, actions: seq<Action>, m: nat, k: nat, id: nat)
    requires m < k < |actions| && actions[k].Start? && actions[k].id == id && id !in Run(s, actions[..k]).calls
    requires actions[m] == Revoke(actions[k].device)
    ensures id in Run(s, actions).calls && !Run(s, actions).calls[id].pc.Done?
  {
    StepOf(s, actions, m);
    RevokedForGood(s, actions, m + 1, k, actions[k].device);
    hide Run;
    RevokedNeverServed(s, actions, k, id);
  }

  /** What the commands leave of the row: an enrollment makes it active with the quota given, and keeps a stored key;
      a disabling and a request keep key and quota, and a request by an unknown tenant makes a waiting row. */
  lemma CommandsExactly(s: State, made: Wrapped, quota: Option<nat>)
    ensures var was := s.db.user;
            var enrolled, off := Apply(s, Enroll(made, quota)).db.user, Apply(s, Disable).db.user;
            var asked := Apply(s, RequestAccess).db.user;
            && enrolled.Some? && !enrolled.value.disabled && enrolled.value.enrollment == Active
            && enrolled.value.quota == quota
            && enrolled.value.wrapped
               == (if was.Some? && was.value.wrapped.Some? then was.value.wrapped else Some(made))
            && (was.None? ==> off.None? && asked == Some(User(false, Pending, None, Some(0))))
            && (was.Some? ==>
                  && off.Some? && off.value.disabled && off.value.enrollment != Active
                  && off.value.wrapped == was.value.wrapped && off.value.quota == was.value.quota
                  && asked.Some? && asked.value.disabled == was.value.disabled
                  && (asked.value.enrollment == if was.value.enrollment == Active then Active else Pending)
                  && asked.value.wrapped == was.value.wrapped && asked.value.quota == was.value.quota)
  {
  }

  /** A quota once set is changed only by an enrollment; calls never change what an operator decides. */
  lemma OthersKeep(s: State, a: Action)
    requires s.db.user.Some? && !a.Enroll?
    ensures var u, v := s.db.user.value, Apply(s, a).db.user;
            && v.Some?
            && (u.quota.Some? ==> v.value.quota == u.quota)
            && (!a.Disable? ==> v.value.disabled == u.disabled)
            && (a.Step? || a.Start? || a.Revoke? ==> v.value.enrollment == u.enrollment)
  {
  }

  // ----- A call on its own -----

  /** A call that takes `n` turns with nothing in between. */
  function Turns(db: Db, c: Call, made: Wrapped, n: nat): (Db, Pc)
    decreases n
  {
    if n == 0 then (db, c.pc)
    else
      var (after, pc) := StepCall(db, c, made);
      Turns(after, c.(pc := pc), made, n - 1)
  }

  lemma TurnsStop(db: Db, c: Call, made: Wrapped, n: nat)
    requires Finished(c.pc)
    ensures Turns(db, c, made, n) == (db, c.pc)
    decreases n
  {
    if n > 0 {
      TurnsStop(db, c, made, n - 1);
    }
  }

  lemma TurnOnce(db: Db, c: Call, made: Wrapped, n: nat)
    requires n > 0
    ensures Turns(db, c, made, n)
            == Turns(StepCall(db, c, made).0, c.(pc := StepCall(db, c, made).1), made, n - 1)
  {
  }

  lemma AloneRefused(db: Db, c: Call, made: Wrapped)
    requires c.pc == ReadUser && !Enrolled(db) && !(db.user.None? && c.autoEnroll)
    ensures Turns(db, c, made, 6)
            == (db, Failed(if db.user.None? then NotEnrolled else if db.user.value.disabled then TenantDisabled
                           else NotActive))
  {
    TurnOnce(db, c, made, 6);
    hide Turns;
    TurnsStop(db, c.(pc := StepCall(db, c, made).1), made, 5);
  }

  /** The row that serves a call: an existing one with what it lacks filled in, or a new one. */
  function Served(db: Db, c: Call, made: Wrapped): User
    requires db.user.None? || db.user.value.enrollment == Active
  {
    if db.user.None? then User(false, Active, Some(made), c.defaultQuota)
    else
      var u := db.user.value;
      u.(wrapped := if u.wrapped.Some? then u.wrapped else Some(made),
         quota := if u.quota.Some? then u.quota else c.defaultQuota)
  }

  /** The last turns: the device is refused if revoked, known, or registered. */
  lemma AloneDevice(db: Db, c: Call, made: Wrapped, key: Key, n: nat)
    requires c.pc == ReadDevice(key) && n >= 2
    ensures Turns(db, c, made, n)
            == if c.device !in db.devices then (db.(devices := db.devices[c.device := false]), Done(key))
               else if db.devices[c.device] then (db, Failed(DeviceRevoked))
               else (db, Done(key))
  {
    TurnOnce(db, c, made, n);
    var d := c.(pc := StepCall(db, c, made).1);
    if c.device !in db.devices {
      TurnOnce(db, d, made, n - 1);
      TurnsStop(db.(devices := db.devices[c.device := false]), d.(pc := Done(key)), made, n - 2);
    } else {
      TurnsStop(db, d, made, n - 1);
    }
  }

  /** Main result: a call that runs without interruption for a tenant it may serve. The row keeps its key and
      quota and gets the missing ones, and nothing else changes but that an unknown device is registered. The key
      returned is the row's. A revoked device gets none. */
  lemma AloneServes(db: Db, c: Call, made: Wrapped)
    requires c.pc == ReadUser && (Enrolled(db) || (db.user.None? && c.autoEnroll))
    ensures var u := Served(db, c, made);
            Turns(db, c, made, 6)
            == if c.device !in db.devices
               then (Db(Some(u), db.devices[c.device := false]), Done(Unwrap(u.wrapped.value)))
               else if db.devices[c.device] then (Db(Some(u), db.devices), Failed(DeviceRevoked))
               else (Db(Some(u), db.devices), Done(Unwrap(u.wrapped.value)))
  {
    var u := Served(db, c, made);
    hide Turns;
    var (d1, p1) := StepCall(db, c, made);
    TurnOnce(db, c, made, 6);
    if p1.ReadDevice? {
      AloneDevice(d1, c.(pc := p1), made, p1.key, 5);
    } else {
      var (d2, p2) := StepCall(d1, c.(pc := p1), made);
      TurnOnce(d1, c.(pc := p1), made, 5);
      if p2.ReadDevice? {
        AloneDevice(d2, c.(pc := p2), made, p2.key, 4);
      } else {
        var (d3, p3) := StepCall(d2, c.(pc := p2), made);
        TurnOnce(d2, c.(pc := p2), made, 4);
        if p3.ReadDevice? {
          AloneDevice(d3, c.(pc := p3), made, p3.key, 3);
        } else {
          TurnOnce(d3, c.(pc := p3), made, 3);
          AloneDevice(StepCall(d3, c.(pc := p3), made).0, c.(pc := StepCall(d3, c.(pc := p3), made).1), made,
                      Unwrap(u.wrapped.value), 2);
        }
      }
    }
  }
}
