/** Where the router's calls go: every call, and every request on the wire, reaches a socket that said hello for
    the call's own user, chosen among the endpoints that user had at that moment. */
module RpcRouting {
  import opened Options
  import opened RpcRouter

  // ----- Sockets and their users -----

  predicate HelloOf(a: Action, ws: nat) { a.Hello? && a.ws == ws }

  /** Step `i` is the hello that counts for this socket: its first. */
  ghost predicate FirstHello(actions: seq<Action>, i: int, ws: nat) {
    0 <= i < |actions| && HelloOf(actions[i], ws) && forall j :: 0 <= j < i ==> !HelloOf(actions[j], ws)
  }

  ghost predicate EndsInHello(actions: seq<Action>, ws: nat) {
    FirstHello(actions, |actions| - 1, ws)
  }

  lemma StepUsers(s: System, a: Action)
    ensures Apply(s, a).users == if a.Hello? && a.ws !in s.users then s.users[a.ws := a.user] else s.users
  {
    hide Registered, Unregistered, Pick, Touch;
  }

  lemma RunStep(actions: seq<Action>)
    requires actions != []
    ensures Run(actions) == Apply(Run(actions[..|actions| - 1]), actions[|actions| - 1])
  {
  }

  lemma RunMore(actions: seq<Action>, a: Action)
    ensures Run(actions + [a]) == Apply(Run(actions), a)
  {
    assert (actions + [a])[..|actions|] == actions;
  }

  /** A socket belongs to the user that its first hello named, for good. */
  lemma {:induction false} UsersSaidHello(actions: seq<Action>, ws: nat)
    ensures ws in Run(actions).users <==> exists i :: FirstHello(actions, i, ws)
    ensures forall i :: FirstHello(actions, i, ws) ==> Run(actions).users[ws] == actions[i].user
  {
    if actions != [] {
      var n := |actions| - 1;
      var front, a := actions[..n], actions[n];
      UsersSaidHello(front, ws);
      RunStep(actions);
      hide Run, Apply;
      StepUsers(Run(front), a);
      forall i: nat | i < n ensures FirstHello(actions, i, ws) <==> FirstHello(front, i, ws) {}
      if ws in Run(front).users {
        var i :| FirstHello(front, i, ws);
        assert FirstHello(actions, i, ws);
      } else if HelloOf(a, ws) {
        NoHello(front, ws, n);
        assert FirstHello(actions, n, ws);
      }
    }
  }

  lemma {:induction false} NoHello(actions: seq<Action>, ws: nat, n: nat)
    requires n <= |actions| && forall i :: !FirstHello(actions, i, ws)
    ensures forall j :: 0 <= j < n ==> !HelloOf(actions[j], ws)
  {
    if n > 0 {
      NoHello(actions, ws, n - 1);
      assert !FirstHello(actions, n - 1, ws);
    }
  }

  // ----- Calls go to their own user -----

  predicate GoesHome(s: System, c: Call) {
    c.ws in s.users && s.users[c.ws] == c.user
  }

  ghost predicate AllGoHome(s: System) {
    forall id :: id in s.calls ==> GoesHome(s, s.calls[id])
  }

  lemma StepGoesHome(s: System, a: Action)
    requires AllGoHome(s) && BucketsOk(s)
    ensures AllGoHome(Apply(s, a))
  {
    StepUsers(s, a);
    StepKeepsCalls(s, a);
    if a.StartCall? {
      PickPolicy(Bucket(s.buckets, a.user), a.pref);
    }
    hide Registered, Unregistered, Pick, Touch;
  }

  lemma {:induction false} RunGoesHome(actions: seq<Action>)
    ensures AllGoHome(Run(actions))
  {
    if actions != [] {
      hide AllGoHome, BucketsOk, Apply;
      var n := |actions| - 1;
      RunGoesHome(actions[..n]);
      BucketsAlwaysOk(actions[..n]);
      StepGoesHome(Run(actions[..n]), actions[n]);
    }
  }

  /** Main result: in every run a call is sent to a socket whose first hello named the call's own user. */
  lemma CallGoesToItsUser(actions: seq<Action>, id: nat)
    requires id in Run(actions).calls
    ensures var s := Run(actions);
            && s.calls[id].ws in s.users && s.users[s.calls[id].ws] == s.calls[id].user
            && exists i :: FirstHello(actions, i, s.calls[id].ws) && actions[i].user == s.calls[id].user
  {
    RunGoesHome(actions);
    UsersSaidHello(actions, Run(actions).calls[id].ws);
  }

  /** So do the messages: whatever is on the wire to a socket, or at work behind it, is the request of a call of that
      socket's user. */
  lemma RequestGoesToItsUser(actions: seq<Action>, r: Request)
    requires r in Run(actions).requests || r in Run(actions).tasks
    ensures var s := Run(actions);
            && r.ws in s.users
            && exists id :: id in s.calls && r == Request(s.calls[id].ws, s.calls[id].rpcId, s.calls[id].body)
                            && s.calls[id].user == s.users[r.ws]
  {
    SystemOk(actions);
    RunGoesHome(actions);
    var s := Run(actions);
    hide Run;
    assert Belongs(s, r.ws, r.rpcId, r.body);
  }

  // ----- Which endpoints a user has -----

  /** Step `t` is the return of the send of a call to this socket. */
  ghost predicate Sends(actions: seq<Action>, t: nat, ws: nat) {
    && t < |actions| && actions[t].SendReturns?
    && var s := Run(actions[..t]);
       actions[t].id in s.calls && s.calls[actions[t].id].pc == Sending && s.calls[actions[t].id].ws == ws
  }

  /** When the endpoint of the hello at step `i` was last seen: at the return of the latest send to its socket, or
      else at the hello. */
  ghost function LastSeen(actions: seq<Action>, i: nat): int
    requires i < |actions| && actions[i].Hello?
  {
    var n := |actions| - 1;
    if i == n then actions[i].now
    else if Sends(actions, n, actions[i].ws) then actions[n].now
    else LastSeen(actions[..n], i)
  }

  /** Step `j` ends the endpoint of the hello at step `i`: its socket disconnects, or another socket says hello for
      the same user with the same pubkey. */
  ghost predicate Ends(actions: seq<Action>, i: nat, j: nat)
    requires i < j < |actions| && actions[i].Hello?
  {
    || actions[j] == Disconnect(actions[i].ws)
    || (actions[j].Hello? && FirstHello(actions, j, actions[j].ws)
        && actions[j].user == actions[i].user && actions[j].pubkey == actions[i].pubkey)
  }

  ghost predicate Lasts(actions: seq<Action>, i: nat)
    requires i < |actions| && actions[i].Hello?
  {
    forall j :: i < j < |actions| ==> !Ends(actions, i, j)
  }

  /** The hello at step `i` is the one this endpoint comes from, and nothing has ended it. */
  ghost predicate LiveFrom(actions: seq<Action>, i: int, user: string, e: Endpoint) {
    && FirstHello(actions, i, e.ws) && actions[i].user == user && actions[i].kind == e.kind
    && actions[i].pubkey == e.pubkey && Lasts(actions, i) && e.lastSeen == LastSeen(actions, i)
  }

  ghost predicate Live(actions: seq<Action>, user: string, e: Endpoint) {
    exists i :: LiveFrom(actions, i, user, e)
  }

  lemma LastsStep(actions: seq<Action>, i: nat)
    requires 0 < |actions| && i < |actions| - 1 && actions[i].Hello?
    ensures var n := |actions| - 1;
            Lasts(actions, i) <==> Lasts(actions[..n], i) && !Ends(actions, i, n)
  {
    var n := |actions| - 1;
    var front := actions[..n];
    forall j | i < j < n ensures Ends(actions, i, j) <==> Ends(front, i, j) {
      if actions[j].Hello? {
        assert FirstHello(actions, j, actions[j].ws) <==> FirstHello(front, j, actions[j].ws);
      }
    }
    hide Ends;
    if Lasts(front, i) && !Ends(actions, i, n) {
      forall j | i < j < |actions| ensures !Ends(actions, i, j) {
        if j < n { assert !Ends(front, i, j); }
      }
    }
    if Lasts(actions, i) {
      forall j | i < j < n ensures !Ends(front, i, j) { assert !Ends(actions, i, j); }
    }
  }

  /** What one more step does to an endpoint: it may end it, or mark it as seen. */
  lemma LiveFromStep(actions: seq<Action>, i: nat, user: string, e: Endpoint)
    requires 0 < |actions| && i < |actions| - 1
    ensures var n := |actions| - 1;
            LiveFrom(actions, i, user, e) <==>
              && FirstHello(actions, i, e.ws) && !Ends(actions, i, n)
              && if Sends(actions, n, e.ws)
                 then e.lastSeen == actions[n].now
                      && LiveFrom(actions[..n], i, user, e.(lastSeen := LastSeen(actions[..n], i)))
                 else LiveFrom(actions[..n], i, user, e)
  {
    var n := |actions| - 1;
    assert FirstHello(actions, i, e.ws) <==> FirstHello(actions[..n], i, e.ws);
    if FirstHello(actions, i, e.ws) {
      LastsStep(actions, i);
      hide Sends, Ends, Lasts, FirstHello;
    }
  }

  lemma LiveFromLast(actions: seq<Action>, user: string, e: Endpoint)
    requires actions != []
    ensures var n := |actions| - 1;
            LiveFrom(actions, n, user, e) <==>
              FirstHello(actions, n, e.ws) && actions[n] == Hello(e.ws, user, e.kind, e.pubkey, e.lastSeen)
  {
  }

  // ----- What one step does to the buckets -----

  lemma HelloMembers(s: System, a: Action, user: string, e: Endpoint)
    requires BucketsOk(s) && a.Hello? && a.ws !in s.users
    ensures e in Bucket(Apply(s, a).buckets, user) <==>
              || (user == a.user && e == Endpoint(a.ws, a.kind, a.pubkey, a.now))
              || (e in Bucket(s.buckets, user) && !(user == a.user && e.pubkey == a.pubkey))
  {
    EnlistKeeps(Bucket(s.buckets, a.user), Endpoint(a.ws, a.kind, a.pubkey, a.now));
  }

  lemma {:induction false} TouchMembers(bucket: seq<Endpoint>, ws: nat, now: int, e: Endpoint)
    ensures e in Touch(bucket, ws, now) <==>
              if e.ws == ws then e.lastSeen == now && Touched(bucket, e) else e in bucket
  {
    if bucket != [] {
      TouchMembers(bucket[1..], ws, now, e);
      assert bucket == [bucket[0]] + bucket[1..];
      assert Touched(bucket, e) <==> bucket[0] == e.(lastSeen := bucket[0].lastSeen) || Touched(bucket[1..], e);
    }
  }

  /** This endpoint, with some time of its own, is in the bucket. */
  ghost predicate Touched(bucket: seq<Endpoint>, e: Endpoint) {
    exists x :: x in bucket && x == e.(lastSeen := x.lastSeen)
  }

  lemma SendMembers(s: System, a: Action, user: string, e: Endpoint)
    requires BucketsOk(s) && AllGoHome(s) && a.SendReturns? && a.id in s.calls && s.calls[a.id].pc == Sending
    ensures e in Bucket(Apply(s, a).buckets, user) <==>
              if e.ws == s.calls[a.id].ws then e.lastSeen == a.now && Touched(Bucket(s.buckets, user), e)
              else e in Bucket(s.buckets, user)
  {
    var c := s.calls[a.id];
    TouchMembers(Bucket(s.buckets, user), c.ws, a.now, e);
    assert GoesHome(s, c);
    NotElsewhere(s, c, user);
  }

  lemma NotElsewhere(s: System, c: Call, user: string)
    requires BucketsOk(s) && GoesHome(s, c)
    ensures user != c.user ==> forall x :: x in Bucket(s.buckets, user) ==> x.ws != c.ws
  {
  }

  lemma OtherMembers(s: System, a: Action)
    requires !a.Hello? && !a.Disconnect? && !a.SendReturns?
    ensures Apply(s, a).buckets == s.buckets
  {
  }

  // ----- The endpoints of every run -----

  lemma LiveHello(actions: seq<Action>, user: string, e: Endpoint)
    requires actions != [] && actions[|actions| - 1].Hello?
    requires FirstHello(actions, |actions| - 1, actions[|actions| - 1].ws)
    ensures var n := |actions| - 1;
            var a := actions[n];
            Live(actions, user, e) <==>
              || (user == a.user && e == Endpoint(a.ws, a.kind, a.pubkey, a.now))
              || (Live(actions[..n], user, e) && !(user == a.user && e.pubkey == a.pubkey))
  {
    var n := |actions| - 1;
    var front, a := actions[..n], actions[n];
    LiveFromLast(actions, user, e);
    forall i: nat | i < n
      ensures LiveFrom(actions, i, user, e) <==>
                LiveFrom(front, i, user, e) && !(user == a.user && e.pubkey == a.pubkey)
    {
      LiveFromStep(actions, i, user, e);
      LiveStarts(actions, i, user, e);
      LiveStarts(front, i, user, e);
      NotASend(actions, e.ws);
    }
    hide LiveFrom;
    if Live(actions, user, e) {
      var i :| LiveFrom(actions, i, user, e);
      LiveStarts(actions, i, user, e);
    }
    if Live(front, user, e) {
      var i :| LiveFrom(front, i, user, e);
      LiveStarts(front, i, user, e);
      assert LiveFrom(front, i, user, e);
    }
    if user == a.user && e == Endpoint(a.ws, a.kind, a.pubkey, a.now) {
      assert LiveFrom(actions, n, user, e);
    }
  }

  lemma LiveStarts(actions: seq<Action>, i: int, user: string, e: Endpoint)
    ensures LiveFrom(actions, i, user, e) ==>
              && FirstHello(actions, i, e.ws) && 0 <= i < |actions| && actions[i].Hello?
              && actions[i].user == user && actions[i].pubkey == e.pubkey
  {
  }

  lemma NotASend(actions: seq<Action>, ws: nat)
    requires actions != [] && !actions[|actions| - 1].SendReturns?
    ensures !Sends(actions, |actions| - 1, ws)
  {
  }

  /** Steps that are no first hello: an endpoint lives on unless its socket disconnects, seen anew if a send to it
      returns. */
  lemma LiveOther(actions: seq<Action>, user: string, e: Endpoint)
    requires actions != []
    requires forall ws :: !EndsInHello(actions, ws)
    ensures var n := |actions| - 1;
            var front := actions[..n];
            Live(actions, user, e) <==>
              && actions[n] != Disconnect(e.ws)
              && if Sends(actions, n, e.ws) then e.lastSeen == actions[n].now && WasLive(front, user, e)
                 else Live(front, user, e)
  {
    var n := |actions| - 1;
    var front := actions[..n];
    assert !EndsInHello(actions, e.ws);
    if Live(actions, user, e) {
      var i :| LiveFrom(actions, i, user, e);
      assert i < n;
      LiveFromStep(actions, i, user, e);
      if Sends(actions, n, e.ws) {
        assert Live(front, user, At(e, LastSeen(front, i)));
      } else {
        assert Live(front, user, e);
      }
    }
    if actions[n] != Disconnect(e.ws) {
      if Sends(actions, n, e.ws) && e.lastSeen == actions[n].now && WasLive(front, user, e) {
        var seen :| Live(front, user, At(e, seen));
        var i :| LiveFrom(front, i, user, At(e, seen));
        LiveKept(actions, i, user, e, At(e, seen));
      }
      if !Sends(actions, n, e.ws) && Live(front, user, e) {
        var i :| LiveFrom(front, i, user, e);
        LiveKept(actions, i, user, e, e);
      }
    }
  }

  lemma LiveKept(actions: seq<Action>, i: int, user: string, e: Endpoint, old': Endpoint)
    requires actions != [] && LiveFrom(actions[..|actions| - 1], i, user, old')
    requires forall ws :: !EndsInHello(actions, ws)
    requires actions[|actions| - 1] != Disconnect(e.ws) && old' == e.(lastSeen := old'.lastSeen)
    requires if Sends(actions, |actions| - 1, e.ws) then e.lastSeen == actions[|actions| - 1].now else old' == e
    ensures Live(actions, user, e)
  {
    var n := |actions| - 1;
    assert FirstHello(actions, i, e.ws);
    assert !Ends(actions, i, n) by {
      if actions[n].Hello? { assert !EndsInHello(actions, actions[n].ws); }
    }
    LiveFromStep(actions, i, user, e);
    assert LiveFrom(actions, i, user, e);
  }

  function At(e: Endpoint, seen: int): Endpoint { e.(lastSeen := seen) }

  ghost predicate WasLive(actions: seq<Action>, user: string, e: Endpoint) {
    exists seen :: Live(actions, user, At(e, seen))
  }

  /** Main result, exact: in every run a user's endpoints are those whose socket said hello for that user, with the
      kind and pubkey said, has not disconnected since and was not replaced by its pubkey since; and each was last
      seen when it said hello or when the latest send to it returned. */
  lemma {:induction false} EndpointsExactly(actions: seq<Action>, user: string, e: Endpoint)
    ensures e in Bucket(Run(actions).buckets, user) <==> Live(actions, user, e)
    decreases |actions|, 1
  {
    if actions != [] {
      var n := |actions| - 1;
      var front, a := actions[..n], actions[n];
      EndpointsExactly(front, user, e);
      BucketsAlwaysOk(front);
      RunGoesHome(front);
      RunStep(actions);
      hide Run, Apply, BucketsOk, AllGoHome, Live, FirstHello, Sends;
      if a.Hello? {
        HelloLast(actions);
        if a.ws !in Run(front).users {
          HelloMembers(Run(front), a, user, e);
          LiveHello(actions, user, e);
        } else {
          LiveOther(actions, user, e);
          NotASend(actions, e.ws);
          KnownHello(Run(front), a);
        }
      } else {
        NotAHello(actions);
        LiveOther(actions, user, e);
        if a.Disconnect? {
          NotASend(actions, e.ws);
          DisconnectIsPrecise(front, a.ws, user, e);
        } else if a.SendReturns? {
          EndpointsSeen(actions, user, e);
        } else {
          NotASend(actions, e.ws);
          OtherMembers(Run(front), a);
        }
      }
    } else {
      NothingLive(user, e);
    }
  }

  lemma NothingLive(user: string, e: Endpoint)
    ensures !Live([], user, e) && Run([]).buckets == map[]
  {
  }

  lemma KnownHello(s: System, a: Action)
    requires a.Hello? && a.ws in s.users
    ensures Apply(s, a) == s
  {
  }

  lemma NotAHello(actions: seq<Action>)
    requires actions != [] && !actions[|actions| - 1].Hello?
    ensures forall ws :: !EndsInHello(actions, ws)
  {
  }

  lemma HelloLast(actions: seq<Action>)
    requires actions != [] && actions[|actions| - 1].Hello?
    ensures var n := |actions| - 1;
            && (actions[n].ws !in Run(actions[..n]).users ==> FirstHello(actions, n, actions[n].ws))
            && (actions[n].ws in Run(actions[..n]).users ==> forall ws :: !EndsInHello(actions, ws))
  {
    var n := |actions| - 1;
    var ws := actions[n].ws;
    UsersSaidHello(actions[..n], ws);
    if ws in Run(actions[..n]).users {
      var i :| FirstHello(actions[..n], i, ws);
      assert HelloOf(actions[i], ws);
    } else {
      NoHello(actions[..n], ws, n);
    }
  }

  lemma EndpointsSeen(actions: seq<Action>, user: string, e: Endpoint)
    requires actions != [] && actions[|actions| - 1].SendReturns?
    requires var n := |actions| - 1;
             Live(actions, user, e) <==>
               if Sends(actions, n, e.ws) then e.lastSeen == actions[n].now && WasLive(actions[..n], user, e)
               else Live(actions[..n], user, e)
    ensures e in Bucket(Run(actions).buckets, user) <==> Live(actions, user, e)
    decreases |actions|, 0
  {
    var n := |actions| - 1;
    var front, a := actions[..n], actions[n];
    BucketsAlwaysOk(front);
    RunGoesHome(front);
    RunStep(actions);
    EndpointsExactly(front, user, e);
    forall seen ensures At(e, seen) in Bucket(Run(front).buckets, user) <==>
                          Live(front, user, At(e, seen))
    {
      EndpointsExactly(front, user, At(e, seen));
    }
    assert Touched(Bucket(Run(front).buckets, user), e) <==> WasLive(front, user, e) by {
      hide Live, Run;
      var b := Bucket(Run(front).buckets, user);
      if WasLive(front, user, e) {
        var seen :| Live(front, user, At(e, seen));
        assert At(e, seen) in b;
      }
      if Touched(b, e) {
        var x :| x in b && x == e.(lastSeen := x.lastSeen);
        assert Live(front, user, At(e, x.lastSeen));
      }
    }
    hide Live;
    if a.id in Run(front).calls && Run(front).calls[a.id].pc == Sending {
      SendMembers(Run(front), a, user, e);
    } else {
      assert Apply(Run(front), a) == Run(front);
    }
  }

  // ----- The life of a call -----

  /** An endpoint that the preference lets through: a primary under `PreferPrimary`, a secondary under
      `PreferSecondary`, and otherwise a primary while the bucket has one, and else any. */
  predicate Admissible(bucket: seq<Endpoint>, pref: Preference, e: Endpoint) {
    && e in bucket
    && (pref == PreferPrimary ==> e.kind == Primary)
    && (pref == PreferSecondary ==> e.kind == Secondary)
    && (pref == Auto && e.kind == Secondary ==> forall x :: x in bucket ==> x.kind == Secondary)
  }

  /** The first primary of the bucket, or else the first of the most recently seen endpoints. */
  ghost predicate Chosen(bucket: seq<Endpoint>, pref: Preference, k: int) {
    && 0 <= k < |bucket| && Admissible(bucket, pref, bucket[k])
    && (bucket[k].kind == Primary ==> forall j :: 0 <= j < k ==> bucket[j].kind == Secondary)
    && (bucket[k].kind == Secondary ==>
          && (forall j :: 0 <= j < k && Admissible(bucket, pref, bucket[j]) ==>
                bucket[j].lastSeen < bucket[k].lastSeen)
          && (forall j :: k < j < |bucket| && Admissible(bucket, pref, bucket[j]) ==>
                bucket[j].lastSeen <= bucket[k].lastSeen))
  }

  lemma {:induction false} FirstPrimary(bucket: seq<Endpoint>)
    ensures var p := FirstOfKind(bucket, Primary);
            && (p.None? ==> forall e :: e in bucket ==> e.kind == Secondary)
            && (p.Some? ==> exists k :: PrimaryAt(bucket, k) && bucket[k] == p.value)
  {
    if bucket != [] {
      FirstPrimary(bucket[1..]);
      assert bucket == [bucket[0]] + bucket[1..];
      if bucket[0].kind == Primary {
        assert PrimaryAt(bucket, 0);
      } else if FirstOfKind(bucket[1..], Primary).Some? {
        var k :| PrimaryAt(bucket[1..], k) && bucket[1..][k] == FirstOfKind(bucket[1..], Primary).value;
        forall j | 0 <= j < k + 1 ensures bucket[j].kind == Secondary {
          if j > 0 { assert bucket[j] == bucket[1..][j - 1]; }
        }
        assert PrimaryAt(bucket, k + 1);
      }
    }
  }

  ghost predicate PrimaryAt(bucket: seq<Endpoint>, k: int) {
    0 <= k < |bucket| && bucket[k].kind == Primary && forall j :: 0 <= j < k ==> bucket[j].kind == Secondary
  }

  predicate OfKind(e: Endpoint, kind: Option<Kind>) { kind.Some? ==> e.kind == kind.value }

  ghost predicate LatestAt(bucket: seq<Endpoint>, kind: Option<Kind>, k: int) {
    && 0 <= k < |bucket| && OfKind(bucket[k], kind)
    && (forall j :: 0 <= j < k && OfKind(bucket[j], kind) ==> bucket[j].lastSeen < bucket[k].lastSeen)
    && (forall j :: k < j < |bucket| && OfKind(bucket[j], kind) ==> bucket[j].lastSeen <= bucket[k].lastSeen)
  }

  lemma {:induction false} LatestFirst(bucket: seq<Endpoint>, kind: Option<Kind>)
    ensures var p := Latest(bucket, kind);
            && (p.None? ==> forall j :: 0 <= j < |bucket| ==> !OfKind(bucket[j], kind))
            && (p.Some? ==> exists k :: LatestAt(bucket, kind, k) && bucket[k] == p.value)
  {
    if bucket != [] {
      var n := |bucket| - 1;
      LatestFirst(bucket[..n], kind);
      var best := Latest(bucket[..n], kind);
      assert Latest(bucket, kind) == if OfKind(bucket[n], kind)
                                        && (best.None? || bucket[n].lastSeen > best.value.lastSeen)
                                     then Some(bucket[n]) else best;
      hide Latest, OfKind;
      if best.Some? {
        var k :| LatestAt(bucket[..n], kind, k) && bucket[..n][k] == best.value;
        LatestMore(bucket, kind, k);
      } else if OfKind(bucket[n], kind) {
        assert LatestAt(bucket, kind, n);
      }
    }
  }

  lemma LatestMore(bucket: seq<Endpoint>, kind: Option<Kind>, k: int)
    requires bucket != [] && LatestAt(bucket[..|bucket| - 1], kind, k)
    ensures var n := |bucket| - 1;
            if OfKind(bucket[n], kind) && bucket[n].lastSeen > bucket[k].lastSeen
            then LatestAt(bucket, kind, n) else LatestAt(bucket, kind, k)
  {
    var n := |bucket| - 1;
    hide OfKind;
    assert forall j :: 0 <= j < n ==> bucket[..n][j] == bucket[j];
  }

  /** The pick, exactly: none if nothing is admissible, and else the chosen one. */
  lemma PickExactly(bucket: seq<Endpoint>, pref: Preference)
    ensures Pick(bucket, pref).None? <==> forall k :: 0 <= k < |bucket| ==> !Admissible(bucket, pref, bucket[k])
    ensures Pick(bucket, pref).Some? <==> exists k :: Chosen(bucket, pref, k)
    ensures forall k :: Chosen(bucket, pref, k) ==> Pick(bucket, pref) == Some(bucket[k])
  {
    PickIsChosen(bucket, pref);
    hide Pick;
    forall k, l | Chosen(bucket, pref, k) && Chosen(bucket, pref, l) ensures k == l {
      ChosenOnce(bucket, pref, k, l);
    }
    hide Chosen;
    if Pick(bucket, pref).Some? {
      var k :| Chosen(bucket, pref, k) && bucket[k] == Pick(bucket, pref).value;
      ChosenFits(bucket, pref, k);
    } else {
      forall k ensures !Chosen(bucket, pref, k) {
        NotChosen(bucket, pref, k);
      }
    }
  }

  lemma ChosenFits(bucket: seq<Endpoint>, pref: Preference, k: int)
    requires Chosen(bucket, pref, k)
    ensures 0 <= k < |bucket| && Admissible(bucket, pref, bucket[k])
  {
  }

  lemma NotChosen(bucket: seq<Endpoint>, pref: Preference, k: int)
    requires forall j :: 0 <= j < |bucket| ==> !Admissible(bucket, pref, bucket[j])
    ensures !Chosen(bucket, pref, k)
  {
  }

  lemma ChosenOnce(bucket: seq<Endpoint>, pref: Preference, k: int, l: int)
    requires Chosen(bucket, pref, k) && Chosen(bucket, pref, l)
    ensures k == l
  {
    assert bucket[k] in bucket && bucket[l] in bucket;
  }

  lemma PickIsChosen(bucket: seq<Endpoint>, pref: Preference)
    ensures match Pick(bucket, pref)
            case None => forall j :: 0 <= j < |bucket| ==> !Admissible(bucket, pref, bucket[j])
            case Some(p) => exists k :: Chosen(bucket, pref, k) && bucket[k] == p
  {
    FirstPrimary(bucket);
    LatestFirst(bucket, Some(Secondary));
    LatestFirst(bucket, None);
    var first, any, second := FirstOfKind(bucket, Primary), Latest(bucket, None), Latest(bucket, Some(Secondary));
    hide FirstOfKind, Latest;
    if pref != PreferSecondary && first.Some? {
      var k :| PrimaryAt(bucket, k) && bucket[k] == first.value;
      assert Chosen(bucket, pref, k);
    } else if pref == PreferSecondary && second.Some? {
      var k :| LatestAt(bucket, Some(Secondary), k) && bucket[k] == second.value;
      assert Chosen(bucket, pref, k);
    } else if pref == Auto && any.Some? {
      var k :| LatestAt(bucket, None, k) && bucket[k] == any.value;
      assert Chosen(bucket, pref, k);
    }
  }

  /** Main result, exact: a call is started, and goes to the chosen one of its user's endpoints, or nothing at all
      changes, because no endpoint is admissible. */
  lemma CallStartsExactly(actions: seq<Action>, id: nat, rpcId: nat, user: string, body: string, pref: Preference)
    requires id !in Run(actions).calls && rpcId !in Run(actions).issued
    ensures var s, t := Run(actions), Run(actions + [StartCall(id, rpcId, user, body, pref)]);
            var bucket := Bucket(s.buckets, user);
            && ((exists k :: Chosen(bucket, pref, k)) <==> id in t.calls)
            && (id !in t.calls ==> t == s && forall k :: 0 <= k < |bucket| ==> !Admissible(bucket, pref, bucket[k]))
            && (forall k :: Chosen(bucket, pref, k) ==>
                  && t.calls == s.calls[id := Call(user, body, rpcId, bucket[k].ws, Open, Sending)]
                  && t.pending == s.pending[rpcId := id] && t.buckets == s.buckets)
  {
    RunMore(actions, StartCall(id, rpcId, user, body, pref));
    PickExactly(Bucket(Run(actions).buckets, user), pref);
    hide Run, Pick, Chosen, Admissible;
  }

  /** A call whose request is sent, received, handled and answered returns the answer. */
  lemma AnsweredCallReturns(actions: seq<Action>, id: nat, now: int, payload: string)
    requires id in Run(actions).calls && Run(actions).calls[id].pc == Sending
    requires Run(actions).calls[id].future == Open
    ensures var c := Run(actions).calls[id];
            var r := Request(c.ws, c.rpcId, c.body);
            var life := [Transmit(id), SendReturns(id, now), Receive(r), Handle(r, payload),
                         Deliver(Response(c.ws, c.rpcId, payload)), Wake(id)];
            var t := Run(actions + life);
            id in t.calls && t.calls[id].pc == Returned(payload) && c.rpcId !in t.pending
  {
    var s0 := Run(actions);
    var c := s0.calls[id];
    var r := Request(c.ws, c.rpcId, c.body);
    var answer := Response(c.ws, c.rpcId, payload);
    RunPending(actions);
    assert s0.pending[c.rpcId] == id;
    SixMore(actions, Transmit(id), SendReturns(id, now), Receive(r), Handle(r, payload), Deliver(answer), Wake(id));
    hide Run, Apply, OpenPending;
    var s2 := Apply(Apply(s0, Transmit(id)), SendReturns(id, now));
    SentCall(s0, id, now);
    var s4 := Apply(Apply(s2, Receive(r)), Handle(r, payload));
    HandledRequest(s2, r, payload);
    AnswerArrives(s4, id, answer);
  }

  lemma SentCall(s: System, id: nat, now: int)
    requires id in s.calls && s.calls[id].pc == Sending
    ensures var c, t := s.calls[id], Apply(Apply(s, Transmit(id)), SendReturns(id, now));
            && Request(c.ws, c.rpcId, c.body) in t.requests
            && t.calls == s.calls[id := c.(pc := Waiting)] && t.pending == s.pending
  {
    hide Touch;
  }

  lemma HandledRequest(s: System, r: Request, payload: string)
    requires r in s.requests
    ensures var t := Apply(Apply(s, Receive(r)), Handle(r, payload));
            Response(r.ws, r.rpcId, payload) in t.responses && t.calls == s.calls && t.pending == s.pending
  {
    var t := Apply(s, Receive(r));
    assert r in t.tasks && t.calls == s.calls && t.pending == s.pending;
  }

  lemma AnswerArrives(s: System, id: nat, answer: Response)
    requires id in s.calls && s.calls[id].pc == Waiting && s.calls[id].future == Open
    requires answer in s.responses && s.calls[id].rpcId == answer.rpcId
    requires answer.rpcId in s.pending && s.pending[answer.rpcId] == id
    ensures var t := Apply(Apply(s, Deliver(answer)), Wake(id));
            && id in t.calls && t.calls[id] == s.calls[id].(future := Resolved(answer.payload),
                                                            pc := Returned(answer.payload))
            && t.pending == s.pending - {answer.rpcId}
  {
    var t := Apply(s, Deliver(answer));
    assert t.calls[id] == s.calls[id].(future := Resolved(answer.payload));
    assert t.pending == s.pending - {answer.rpcId};
  }

  lemma SixMore(actions: seq<Action>, a: Action, b: Action, c: Action, d: Action, e: Action, f: Action)
    ensures Run(actions + [a, b, c, d, e, f])
            == Apply(Apply(Apply(Apply(Apply(Apply(Run(actions), a), b), c), d), e), f)
  {
    hide Run, Apply;
    RunMore(actions, a);
    RunMore(actions + [a], b);
    RunMore(actions + [a] + [b], c);
    RunMore(actions + [a] + [b] + [c], d);
    RunMore(actions + [a] + [b] + [c] + [d], e);
    RunMore(actions + [a] + [b] + [c] + [d] + [e], f);
    assert actions + [a, b, c, d, e, f] == actions + [a] + [b] + [c] + [d] + [e] + [f];
  }

  /** A call whose time is up before an answer ends timed out, waits for nothing any more, and a late answer changes
      no call. */
  lemma SilentCallTimesOut(actions: seq<Action>, id: nat, late: Response)
    requires id in Run(actions).calls && Run(actions).calls[id].pc == Waiting
    requires Run(actions).calls[id].future == Open
    ensures var c, t := Run(actions).calls[id], Run(actions + [Expire(id), GiveUp(id)]);
            && t.calls == Run(actions).calls[id := c.(future := Cancelled, pc := TimedOut)]
            && t.pending == Run(actions).pending - {c.rpcId}
            && (late.rpcId == c.rpcId ==> Apply(t, Deliver(late)).calls == t.calls)
  {
    RunMore(actions, Expire(id));
    RunMore(actions + [Expire(id)], GiveUp(id));
    assert actions + [Expire(id), GiveUp(id)] == actions + [Expire(id)] + [GiveUp(id)];
    hide Run, Apply;
    TimeIsUp(Run(actions), id);
    if late.rpcId == Run(actions).calls[id].rpcId {
      NobodyWaits(Run(actions + [Expire(id), GiveUp(id)]), late);
    }
  }

  lemma TimeIsUp(s: System, id: nat)
    requires id in s.calls && s.calls[id].pc == Waiting && s.calls[id].future == Open
    ensures var c, t := s.calls[id], Apply(Apply(s, Expire(id)), GiveUp(id));
            && t.calls == s.calls[id := c.(future := Cancelled, pc := TimedOut)]
            && t.pending == s.pending - {c.rpcId}
  {
    var c, t := s.calls[id], Apply(s, Expire(id));
    assert t.calls == s.calls[id := c.(future := Cancelled, pc := TimingOut)] && t.pending == s.pending;
  }

  lemma NobodyWaits(s: System, r: Response)
    requires r.rpcId !in s.pending
    ensures Apply(s, Deliver(r)).calls == s.calls
  {
  }

  /** A call whose send raises fails at once and waits for nothing. */
  lemma RaisingSendFails(actions: seq<Action>, id: nat)
    requires id in Run(actions).calls && Run(actions).calls[id].pc == Sending
    ensures var c, t := Run(actions).calls[id], Run(actions + [SendRaises(id)]);
            t.calls == Run(actions).calls[id := c.(pc := SendFailed)]
            && t.pending == Run(actions).pending - {c.rpcId}
  {
    RunMore(actions, SendRaises(id));
    hide Run;
  }

  // ----- Messages and empty buckets -----

  /** A message leaves where it was taken from: what is lost with a socket, and what is received, handled and
      delivered, each at most once per sending. */
  lemma WireExactly(s: System, ws: nat, r: Request, payload: string, response: Response)
    ensures ws in s.users ==>
              var t := Apply(s, Disconnect(ws));
              && (forall x :: x in t.requests <==> x in s.requests && x.ws != ws)
              && (forall x :: x in t.responses <==> x in s.responses && x.ws != ws)
    ensures r in s.requests ==>
              var t := Apply(s, Receive(r));
              && (forall x :: x in t.requests <==> x in s.requests && x != r)
              && (forall x :: x in t.tasks <==> x in s.tasks || x == r)
    ensures r in s.tasks ==>
              var t := Apply(s, Handle(r, payload));
              && (forall x :: x in t.tasks <==> x in s.tasks && x != r)
              && (forall x :: x in t.responses <==> x in s.responses || x == Response(r.ws, r.rpcId, payload))
    ensures response in s.responses ==>
              var t := Apply(s, Deliver(response));
              && (forall x :: x in t.responses <==> x in s.responses && x != response)
              && response.rpcId !in t.pending
  {
    hide Unregistered;
  }

  ghost predicate NoneEmpty(b: Buckets) {
    forall u :: u in b ==> b[u] != []
  }

  lemma {:induction false} EnlistSome(bucket: seq<Endpoint>, e: Endpoint)
    ensures Enlist(bucket, e) != []
  {
  }

  lemma StepNoneEmpty(s: System, a: Action)
    requires NoneEmpty(s.buckets)
    ensures NoneEmpty(Apply(s, a).buckets)
  {
    if a.Hello? {
      EnlistSome(Bucket(s.buckets, a.user), Endpoint(a.ws, a.kind, a.pubkey, a.now));
    } else if a.SendReturns? && a.id in s.calls {
      var c := s.calls[a.id];
      TouchKeeps(Bucket(s.buckets, c.user), c.ws, a.now);
    }
    hide Enlist, DropSocket, Touch, Pick;
  }

  /** A user who is listed has an endpoint, in every run: being listed is being online. */
  lemma {:induction false} ListedIsOnline(actions: seq<Action>)
    ensures NoneEmpty(Run(actions).buckets)
  {
    if actions != [] {
      hide Apply, NoneEmpty;
      var n := |actions| - 1;
      ListedIsOnline(actions[..n]);
      StepNoneEmpty(Run(actions[..n]), actions[n]);
    }
  }
}
