/** The relay's RPC router: sockets register as endpoints of a user, calls are sent to one
    endpoint, and responses are matched to callers by rpc id. */
module RpcRouter {
  import opened Options

  datatype Kind = Primary | Secondary

  datatype Preference = PreferPrimary | PreferSecondary | Auto

  /** `ws` names the socket object. */
  datatype Endpoint = Endpoint(ws: nat, kind: Kind, pubkey: string, lastSeen: int)

  type Buckets = map<string, seq<Endpoint>>

  function Bucket(b: Buckets, user: string): seq<Endpoint> {
    if user in b then b[user] else []
  }

  /** Replaces the first endpoint with the same pubkey in place, or appends. */
  function Enlist(bucket: seq<Endpoint>, e: Endpoint): seq<Endpoint> {
    if bucket == [] then [e]
    else if bucket[0].pubkey == e.pubkey then [e] + bucket[1..]
    else [bucket[0]] + Enlist(bucket[1..], e)
  }

  function DropSocket(bucket: seq<Endpoint>, ws: nat): seq<Endpoint> {
    if bucket == [] then []
    else if bucket[0].ws == ws then DropSocket(bucket[1..], ws)
    else [bucket[0]] + DropSocket(bucket[1..], ws)
  }

  function Registered(b: Buckets, user: string, e: Endpoint): Buckets {
    b[user := Enlist(Bucket(b, user), e)]
  }

  function Unregistered(b: Buckets, user: string, ws: nat): Buckets {
    if Bucket(b, user) == [] then b
    else if DropSocket(b[user], ws) == [] then b - {user}
    else b[user := DropSocket(b[user], ws)]
  }

  function FirstOfKind(bucket: seq<Endpoint>, kind: Kind): Option<Endpoint> {
    if bucket == [] then None else if bucket[0].kind == kind then Some(bucket[0]) else FirstOfKind(bucket[1..], kind)
  }

  /** The first of the most recently seen endpoints, of one kind or of any. */
  function Latest(bucket: seq<Endpoint>, kind: Option<Kind>): Option<Endpoint> {
    if bucket == [] then None else
      var n := |bucket| - 1;
      var best := Latest(bucket[..n], kind);
      if kind.Some? && bucket[n].kind != kind.value then best
      else if best.None? || bucket[n].lastSeen > best.value.lastSeen then Some(bucket[n])
      else best
  }

  function Pick(bucket: seq<Endpoint>, pref: Preference): Option<Endpoint> {
    match pref
    case PreferPrimary => FirstOfKind(bucket, Primary)
    case PreferSecondary => Latest(bucket, Some(Secondary))
    case Auto => if FirstOfKind(bucket, Primary).Some? then FirstOfKind(bucket, Primary) else Latest(bucket, None)
  }

  /** Routing policy: a pick is one of the user's endpoints of an admissible kind; there is one
      whenever an admissible endpoint exists; without a primary it is a most recently seen one. */
  lemma PickPolicy(bucket: seq<Endpoint>, pref: Preference)
    ensures var p := Pick(bucket, pref);
            && (p.None? <==> forall e :: e in bucket ==>
                  (pref == PreferPrimary && e.kind != Primary) || (pref == PreferSecondary && e.kind != Secondary))
            && (p.Some? ==>
                  && p.value in bucket
                  && (pref == PreferPrimary ==> p.value.kind == Primary)
                  && (pref == PreferSecondary ==> p.value.kind == Secondary)
                  && (pref == Auto && (exists e :: e in bucket && e.kind == Primary) ==> p.value.kind == Primary)
                  && (p.value.kind == Secondary ==>
                        forall e :: e in bucket && (pref == Auto || e.kind == Secondary) ==>
                                      e.lastSeen <= p.value.lastSeen))
  {
    FirstOfKindIs(bucket, Primary);
    LatestIs(bucket, Some(Secondary));
    LatestIs(bucket, None);
  }

  lemma {:induction false} FirstOfKindIs(bucket: seq<Endpoint>, kind: Kind)
    ensures var p := FirstOfKind(bucket, kind);
            && (p.None? ==> forall e :: e in bucket ==> e.kind != kind)
            && (p.Some? ==> p.value in bucket && p.value.kind == kind)
  {
    if bucket != [] {
      FirstOfKindIs(bucket[1..], kind);
      assert bucket == [bucket[0]] + bucket[1..];
    }
  }

  lemma {:induction false} LatestIs(bucket: seq<Endpoint>, kind: Option<Kind>)
    ensures var p := Latest(bucket, kind);
            && (p.None? ==> forall e :: e in bucket ==> kind.Some? && e.kind != kind.value)
            && (p.Some? ==> p.value in bucket && (kind.Some? ==> p.value.kind == kind.value)
                            && forall e :: e in bucket && (kind.Some? ==> e.kind == kind.value) ==>
                                             e.lastSeen <= p.value.lastSeen)
  {
    if bucket != [] {
      var n := |bucket| - 1;
      LatestIs(bucket[..n], kind);
      assert bucket == bucket[..n] + [bucket[n]];
    }
  }

  lemma {:induction false} EnlistInPlace(bucket: seq<Endpoint>, e: Endpoint, i: nat)
    requires i < |bucket| && bucket[i].pubkey == e.pubkey && forall j :: 0 <= j < i ==> bucket[j].pubkey != e.pubkey
    ensures Enlist(bucket, e) == bucket[i := e]
  {
    if i > 0 {
      EnlistInPlace(bucket[1..], e, i - 1);
    }
  }

  lemma {:induction false} EnlistAtEnd(bucket: seq<Endpoint>, e: Endpoint)
    requires forall j :: 0 <= j < |bucket| ==> bucket[j].pubkey != e.pubkey
    ensures Enlist(bucket, e) == bucket + [e]
  {
    if bucket != [] {
      EnlistAtEnd(bucket[1..], e);
    }
  }

  class Router {
    var endpoints: Buckets
    var pending: map<nat, nat>    // rpc id -> call waiting for it

    constructor ()
      ensures endpoints == map[] && pending == map[]
    {
      endpoints, pending := map[], map[];
    }

    /** Returns the socket that the new endpoint replaced, which is then closed. */
    method Register(user: string, e: Endpoint) returns (replaced: Option<nat>)
      modifies this`endpoints
      ensures endpoints == Registered(old(endpoints), user, e)
      ensures match replaced
              case Some(ws) => exists x :: x in Bucket(old(endpoints), user) && x.pubkey == e.pubkey && x.ws == ws
              case None => forall x :: x in Bucket(old(endpoints), user) ==> x.pubkey != e.pubkey
    {
      hide Enlist;
      var bucket := if user in endpoints then endpoints[user] else [];
      for i := 0 to |bucket|
        invariant endpoints == old(endpoints)
        invariant forall j :: 0 <= j < i ==> bucket[j].pubkey != e.pubkey
      {
        if bucket[i].pubkey == e.pubkey {
          EnlistInPlace(bucket, e, i);
          endpoints := endpoints[user := bucket[i := e]];
          return Some(bucket[i].ws);
        }
      }
      EnlistAtEnd(bucket, e);
      endpoints := endpoints[user := bucket + [e]];
      return None;
    }

    method Unregister(user: string, ws: nat)
      modifies this`endpoints
      ensures endpoints == Unregistered(old(endpoints), user, ws)
    {
      if user !in endpoints || endpoints[user] == [] {
        return;
      }
      var bucket := endpoints[user];
      var kept := [];
      for i := 0 to |bucket|
        invariant kept + DropSocket(bucket[i..], ws) == DropSocket(bucket, ws)
      {
        assert bucket[i..][1..] == bucket[i + 1..];
        if bucket[i].ws != ws {
          kept := kept + [bucket[i]];
        }
      }
      assert DropSocket(bucket[|bucket|..], ws) == [];
      assert kept + [] == kept;
      if kept == [] {
        endpoints := endpoints - {user};
      } else {
        endpoints := endpoints[user := kept];
      }
    }
  }

  // ----- The whole system -----

  datatype Future = Open | Resolved(payload: string) | Cancelled

  datatype Pc = Sending | Waiting | TimingOut | Returned(payload: string) | TimedOut | SendFailed

  /** A call that found an endpoint. */
  datatype Call = Call(user: string, body: string, rpcId: nat, ws: nat, future: Future, pc: Pc)

  datatype Request = Request(ws: nat, rpcId: nat, body: string)

  datatype Response = Response(ws: nat, rpcId: nat, payload: string)

  datatype Handled = Handled(ws: nat, rpcId: nat, body: string, payload: string)

  /** Messages on the wire are sets: they may be taken in any order, or be lost with their socket. */
  datatype System = System(
    buckets: Buckets,
    users: map<nat, string>,        // user of every socket that said hello
    pending: map<nat, nat>,
    calls: map<nat, Call>,
    issued: set<nat>,               // rpc ids handed out so far
    requests: set<Request>,         // relay -> daemon
    tasks: set<Request>,            // dispatch tasks running the handler
    responses: set<Response>,       // daemon -> relay
    handled: set<Handled>)          // what the handlers returned

  datatype Action =
    | Hello(ws: nat, user: string, kind: Kind, pubkey: string, now: int)
    | Disconnect(ws: nat)
    | StartCall(id: nat, rpcId: nat, user: string, body: string, pref: Preference)
    | Transmit(id: nat)
    | SendReturns(id: nat, now: int)
    | SendRaises(id: nat)
    | Receive(request: Request)
    | Handle(task: Request, payload: string)
    | Deliver(response: Response)
    | Wake(id: nat)
    | Expire(id: nat)
    | GiveUp(id: nat)

  function SetCall(s: System, id: nat, c: Call): System {
    s.(calls := s.calls[id := c])
  }

  function Touch(bucket: seq<Endpoint>, ws: nat, now: int): seq<Endpoint> {
    if bucket == [] then []
    else if bucket[0].ws == ws then [bucket[0].(lastSeen := now)] + Touch(bucket[1..], ws, now)
    else [bucket[0]] + Touch(bucket[1..], ws, now)
  }

  /** One step of the relay, the daemons or the network; a step that is not possible does nothing. */
  function Apply(s: System, a: Action): System {
    match a
    case Hello(ws, user, kind, pubkey, now) =>
      if ws in s.users then s
      else s.(users := s.users[ws := user], buckets := Registered(s.buckets, user, Endpoint(ws, kind, pubkey, now)))
    case Disconnect(ws) =>
      if ws !in s.users then s
      else s.(buckets := Unregistered(s.buckets, s.users[ws], ws),
              requests := (set r | r in s.requests && r.ws != ws),
              responses := (set r | r in s.responses && r.ws != ws))
    case StartCall(id, rpcId, user, body, pref) =>
      var e := Pick(Bucket(s.buckets, user), pref);
      if id in s.calls || rpcId in s.issued || e.None? then s
      else s.(calls := s.calls[id := Call(user, body, rpcId, e.value.ws, Open, Sending)],
              pending := s.pending[rpcId := id], issued := s.issued + {rpcId})
    case Transmit(id) =>
      if id !in s.calls || s.calls[id].pc != Sending then s
      else s.(requests := s.requests + {Request(s.calls[id].ws, s.calls[id].rpcId, s.calls[id].body)})
    case SendReturns(id, now) =>
      if id !in s.calls || s.calls[id].pc != Sending then s
      else var c := s.calls[id];
           SetCall(s, id, c.(pc := Waiting)).(
             buckets := if c.user in s.buckets then s.buckets[c.user := Touch(s.buckets[c.user], c.ws, now)]
                 else s.buckets)
    case SendRaises(id) =>
      if id !in s.calls || s.calls[id].pc != Sending then s
      else SetCall(s, id, s.calls[id].(pc := SendFailed)).(pending := s.pending - {s.calls[id].rpcId})
    case Receive(request) =>
      if request !in s.requests then s
      else s.(requests := s.requests - {request}, tasks := s.tasks + {request})
    case Handle(task, payload) =>
      if task !in s.tasks then s
      else s.(tasks := s.tasks - {task},
              responses := s.responses + {Response(task.ws, task.rpcId, payload)},
              handled := s.handled + {Handled(task.ws, task.rpcId, task.body, payload)})
    case Deliver(response) =>
      if response !in s.responses then s else
        var t := s.(responses := s.responses - {response}, pending := s.pending - {response.rpcId});
        if response.rpcId !in s.pending || s.pending[response.rpcId] !in s.calls
           || s.calls[s.pending[response.rpcId]].future != Open then t
        else var id := s.pending[response.rpcId];
             SetCall(t, id, s.calls[id].(future := Resolved(response.payload)))
    case Wake(id) =>
      if id !in s.calls || s.calls[id].pc != Waiting || !s.calls[id].future.Resolved? then s
      else SetCall(s, id, s.calls[id].(pc := Returned(s.calls[id].future.payload)))
    case Expire(id) =>
      if id !in s.calls || s.calls[id].pc != Waiting || s.calls[id].future != Open then s
      else SetCall(s, id, s.calls[id].(future := Cancelled, pc := TimingOut))
    case GiveUp(id) =>
      if id !in s.calls || s.calls[id].pc != TimingOut then s
      else SetCall(s, id, s.calls[id].(pc := TimedOut)).(pending := s.pending - {s.calls[id].rpcId})
  }

  function Run(actions: seq<Action>): System {
    if actions == [] then System(map[], map[], map[], map[], {}, {}, {}, {}, {})
    else Apply(Run(actions[..|actions| - 1]), actions[|actions| - 1])
  }

  predicate Final(pc: Pc) { pc.Returned? || pc.TimedOut? || pc.SendFailed? }

  // ----- Invariants -----

  /** Within one user's bucket, pubkeys and sockets are distinct. */
  ghost predicate Distinct(bucket: seq<Endpoint>) {
    forall i, j :: 0 <= i < j < |bucket| ==> bucket[i].pubkey != bucket[j].pubkey && bucket[i].ws != bucket[j].ws
  }

  ghost predicate BucketsOk(s: System) {
    forall u :: u in s.buckets ==>
      && Distinct(s.buckets[u])
      && forall e :: e in s.buckets[u] ==> e.ws in s.users && s.users[e.ws] == u
  }

  /** The handler returned `payload` for this rpc id and this body on this socket. */
  ghost predicate Answered(s: System, c: Call, payload: string) {
    Handled(c.ws, c.rpcId, c.body, payload) in s.handled
  }

  ghost predicate CallsOk(s: System) {
    && (forall id :: id in s.calls ==>
          && s.calls[id].rpcId in s.issued
          && (s.calls[id].future.Resolved? ==> Answered(s, s.calls[id], s.calls[id].future.payload))
          && (s.calls[id].pc.Returned? ==> s.calls[id].future == Resolved(s.calls[id].pc.payload)))
    && (forall i, j :: i in s.calls && j in s.calls && i != j ==> s.calls[i].rpcId != s.calls[j].rpcId)
    && (forall r :: r in s.pending ==> s.pending[r] in s.calls && s.calls[s.pending[r]].rpcId == r)
  }

  /** Every message belongs to the call whose rpc id it carries. */
  ghost predicate Belongs(s: System, ws: nat, rpcId: nat, body: string) {
    exists id :: id in s.calls && s.calls[id].ws == ws && s.calls[id].rpcId == rpcId && s.calls[id].body == body
  }

  ghost predicate MessagesOk(s: System) {
    && (forall r :: r in s.requests || r in s.tasks ==> Belongs(s, r.ws, r.rpcId, r.body))
    && (forall h :: h in s.handled ==> Belongs(s, h.ws, h.rpcId, h.body))
    && (forall r :: r in s.responses ==>
          exists body :: Handled(r.ws, r.rpcId, body, r.payload) in s.handled)
  }

  // ----- Endpoints -----

  /** Registering an endpoint replaces exactly the one with its pubkey. */
  lemma {:induction false} EnlistKeeps(bucket: seq<Endpoint>, e: Endpoint)
    requires Distinct(bucket) && forall x :: x in bucket ==> x.ws != e.ws
    ensures Distinct(Enlist(bucket, e))
    ensures forall x :: x in Enlist(bucket, e) <==> x == e || (x in bucket && x.pubkey != e.pubkey)
  {
    if bucket == [] {
    } else if bucket[0].pubkey == e.pubkey {
      assert bucket == [bucket[0]] + bucket[1..];
      forall i | 0 < i < |bucket| ensures bucket[i].pubkey != e.pubkey {}
    } else {
      EnlistKeeps(bucket[1..], e);
      assert bucket == [bucket[0]] + bucket[1..];
      var r := Enlist(bucket[1..], e);
      forall j | 0 <= j < |r| ensures r[j].pubkey != bucket[0].pubkey && r[j].ws != bucket[0].ws {
        assert r[j] in r;
        if r[j] in bucket[1..] {
          var i :| 0 <= i < |bucket[1..]| && bucket[1..][i] == r[j];
          assert bucket[i + 1] == r[j];
        }
      }
    }
  }

  /** Dropping a socket removes exactly its endpoints. */
  lemma {:induction false} DropKeeps(bucket: seq<Endpoint>, ws: nat)
    requires Distinct(bucket)
    ensures Distinct(DropSocket(bucket, ws))
    ensures forall x :: x in DropSocket(bucket, ws) <==> x in bucket && x.ws != ws
  {
    if bucket != [] {
      DropKeeps(bucket[1..], ws);
      assert bucket == [bucket[0]] + bucket[1..];
      var r := DropSocket(bucket[1..], ws);
      forall j | 0 <= j < |r| ensures r[j].pubkey != bucket[0].pubkey && r[j].ws != bucket[0].ws {
        assert r[j] in r;
        var i :| 0 <= i < |bucket[1..]| && bucket[1..][i] == r[j];
        assert bucket[i + 1] == r[j];
      }
    }
  }

  lemma {:induction false} TouchKeeps(bucket: seq<Endpoint>, ws: nat, now: int)
    ensures |Touch(bucket, ws, now)| == |bucket|
    ensures forall i :: 0 <= i < |bucket| ==>
              && Touch(bucket, ws, now)[i].ws == bucket[i].ws && Touch(bucket, ws, now)[i].pubkey == bucket[i].pubkey
              && Touch(bucket, ws, now)[i].kind == bucket[i].kind
  {
    if bucket != [] { TouchKeeps(bucket[1..], ws, now); }
  }

  lemma HelloBuckets(s: System, a: Action)
    requires BucketsOk(s) && a.Hello?
    ensures BucketsOk(Apply(s, a))
  {
    if a.ws !in s.users {
      var e := Endpoint(a.ws, a.kind, a.pubkey, a.now);
      EnlistKeeps(Bucket(s.buckets, a.user), e);
    }
  }

  lemma DisconnectBuckets(s: System, a: Action)
    requires BucketsOk(s) && a.Disconnect?
    ensures BucketsOk(Apply(s, a))
  {
    if a.ws in s.users {
      DropKeeps(Bucket(s.buckets, s.users[a.ws]), a.ws);
    }
  }

  lemma TouchBuckets(s: System, a: Action)
    requires BucketsOk(s) && a.SendReturns?
    ensures BucketsOk(Apply(s, a))
  {
    if a.id in s.calls && s.calls[a.id].pc == Sending {
      var c := s.calls[a.id];
      if c.user in s.buckets {
        var b, b' := s.buckets[c.user], Touch(s.buckets[c.user], c.ws, a.now);
        TouchKeeps(b, c.ws, a.now);
        forall e | e in b' ensures e.ws in s.users && s.users[e.ws] == c.user {
          var i :| 0 <= i < |b'| && b'[i] == e;
          assert b[i] in b;
        }
      }
    }
  }

  /** Buckets stay free of repeated pubkeys and sockets in every run. */
  lemma {:induction false} BucketsAlwaysOk(actions: seq<Action>)
    ensures BucketsOk(Run(actions))
  {
    if actions != [] {
      hide BucketsOk;
      var n := |actions| - 1;
      BucketsAlwaysOk(actions[..n]);
      var s, a := Run(actions[..n]), actions[n];
      match a
      case Hello(_, _, _, _, _) => HelloBuckets(s, a);
      case Disconnect(_) => DisconnectBuckets(s, a);
      case SendReturns(_, _) => TouchBuckets(s, a);
      case _ => OtherBuckets(s, a);
    } else {
      EmptyBuckets();
    }
  }

  lemma EmptyBuckets()
    ensures BucketsOk(Run([]))
  {
  }

  lemma OtherBuckets(s: System, a: Action)
    requires BucketsOk(s) && !a.Hello? && !a.Disconnect? && !a.SendReturns?
    ensures BucketsOk(Apply(s, a))
  {
  }

  /** Main result on endpoints: in every run a user never has two endpoints with one pubkey, nor
      one socket twice. */
  lemma OneEndpointPerPubkey(actions: seq<Action>, user: string, i: nat, j: nat)
    requires i < |Bucket(Run(actions).buckets, user)| && j < |Bucket(Run(actions).buckets, user)| && i != j
    ensures var b := Bucket(Run(actions).buckets, user); b[i].pubkey != b[j].pubkey && b[i].ws != b[j].ws
  {
    BucketsAlwaysOk(actions);
    if i < j {
      assert Distinct(Run(actions).buckets[user]);
    }
  }

  /** A socket's disconnect removes that socket's endpoint and no other: the endpoint that replaced
      a socket survives the late disconnect of the replaced one. */
  lemma DisconnectIsPrecise(actions: seq<Action>, ws: nat, user: string, e: Endpoint)
    ensures var s := Run(actions);
            e in Bucket(Apply(s, Disconnect(ws)).buckets, user) <==> e in Bucket(s.buckets, user) && e.ws != ws
  {
    BucketsAlwaysOk(actions);
    var s := Run(actions);
    if ws in s.users {
      DropKeeps(Bucket(s.buckets, s.users[ws]), ws);
      if e in Bucket(s.buckets, user) { assert user in s.buckets; }
    } else {
      if e in Bucket(s.buckets, user) { assert user in s.buckets; }
    }
  }

  // ----- Calls -----

  lemma BelongsKept(s: System, t: System, ws: nat, rpcId: nat, body: string)
    requires Belongs(s, ws, rpcId, body)
    requires forall id :: id in s.calls ==>
               id in t.calls && t.calls[id].ws == s.calls[id].ws
               && t.calls[id].rpcId == s.calls[id].rpcId && t.calls[id].body == s.calls[id].body
    ensures Belongs(t, ws, rpcId, body)
  {
    var id :| id in s.calls && s.calls[id].ws == ws && s.calls[id].rpcId == rpcId && s.calls[id].body == body;
    assert id in t.calls;
  }

  /** A call keeps its identity; a future that is done and a final outcome stay as they are. */
  predicate KeepsCall(c: Call, d: Call) {
    && d.ws == c.ws && d.rpcId == c.rpcId && d.body == c.body && d.user == c.user
    && (c.future != Open ==> d.future == c.future)
    && (Final(c.pc) ==> d.pc == c.pc)
  }

  /** Calls never change their identity, completed calls never change at all, and a future that
      is done stays as it is. */
  lemma StepKeepsCalls(s: System, a: Action)
    ensures forall id :: id in s.calls ==> id in Apply(s, a).calls && KeepsCall(s.calls[id], Apply(s, a).calls[id])
    ensures s.handled <= Apply(s, a).handled && s.issued <= Apply(s, a).issued
  {
    hide Registered, Unregistered, Pick, Touch;
  }

  lemma StepMessages(s: System, a: Action)
    requires MessagesOk(s)
    ensures MessagesOk(Apply(s, a))
  {
    StepKeepsCalls(s, a);
    StepRequests(s, a);
    var t := Apply(s, a);
    hide Registered, Unregistered, Pick, Touch, KeepsCall, Belongs;
    forall r | r in t.responses ensures exists body :: Handled(r.ws, r.rpcId, body, r.payload) in t.handled {
      if r in s.responses {
        var body :| Handled(r.ws, r.rpcId, body, r.payload) in s.handled;
        assert Handled(r.ws, r.rpcId, body, r.payload) in t.handled;
      } else {
        assert Handled(a.task.ws, a.task.rpcId, a.task.body, a.payload) in t.handled;
      }
    }
  }

  lemma StepRequests(s: System, a: Action)
    requires MessagesOk(s)
    ensures var t := Apply(s, a);
            && (forall r :: r in t.requests || r in t.tasks ==> Belongs(t, r.ws, r.rpcId, r.body))
            && (forall h :: h in t.handled ==> Belongs(t, h.ws, h.rpcId, h.body))
  {
    var t := Apply(s, a);
    forall r | r in t.requests || r in t.tasks ensures Belongs(t, r.ws, r.rpcId, r.body) {
      RequestBelongs(s, a, r);
    }
    forall h | h in t.handled ensures Belongs(t, h.ws, h.rpcId, h.body) {
      HandledBelongs(s, a, h);
    }
  }

  lemma RequestBelongs(s: System, a: Action, r: Request)
    requires MessagesOk(s) && (r in Apply(s, a).requests || r in Apply(s, a).tasks)
    ensures Belongs(Apply(s, a), r.ws, r.rpcId, r.body)
  {
    StepKeepsCalls(s, a);
    hide Registered, Unregistered, Pick, Touch, Belongs;
    if r !in s.requests && r !in s.tasks {
      NewBelongs(s, a.id);
    }
    BelongsKept(s, Apply(s, a), r.ws, r.rpcId, r.body);
  }

  lemma HandledBelongs(s: System, a: Action, h: Handled)
    requires MessagesOk(s) && h in Apply(s, a).handled
    ensures Belongs(Apply(s, a), h.ws, h.rpcId, h.body)
  {
    StepKeepsCalls(s, a);
    hide Registered, Unregistered, Pick, Touch, Belongs;
    BelongsKept(s, Apply(s, a), h.ws, h.rpcId, h.body);
  }

  lemma NewBelongs(s: System, id: nat)
    requires id in s.calls
    ensures Belongs(s, s.calls[id].ws, s.calls[id].rpcId, s.calls[id].body)
  {
  }

  /** A response in flight answers the very call it is pending for. */
  lemma ResponseIsOwn(s: System, r: Response)
    requires CallsOk(s) && MessagesOk(s) && r in s.responses && r.rpcId in s.pending
    ensures s.pending[r.rpcId] in s.calls && Answered(s, s.calls[s.pending[r.rpcId]], r.payload)
  {
    var id := s.pending[r.rpcId];
    var body :| Handled(r.ws, r.rpcId, body, r.payload) in s.handled;
    assert Belongs(s, r.ws, r.rpcId, body);
    hide MessagesOk;
    var other :| other in s.calls && s.calls[other].ws == r.ws && s.calls[other].rpcId == r.rpcId
                 && s.calls[other].body == body;
    assert other == id;
  }

  lemma DeliverCalls(s: System, a: Action)
    requires CallsOk(s) && MessagesOk(s) && a.Deliver?
    ensures CallsOk(Apply(s, a))
  {
    var r := a.response;
    if r in s.responses {
      if r.rpcId in s.pending {
        ResponseIsOwn(s, r);
        CallOk(s, s.pending[r.rpcId]);
        hide CallsOk, MessagesOk;
        EditCall(s, Apply(s, a), s.pending[r.rpcId]);
      } else {
        hide CallsOk, MessagesOk;
        SameCalls(s, Apply(s, a));
      }
    }
  }

  /** Changing one call, apart from its identity, and forgetting pending entries. */
  lemma EditCall(s: System, t: System, id: nat)
    requires CallsOk(s) && id in s.calls && id in t.calls && t.calls == s.calls[id := t.calls[id]]
    requires t.calls[id].rpcId == s.calls[id].rpcId && t.handled == s.handled && t.issued == s.issued
    requires forall r :: r in t.pending ==> r in s.pending && t.pending[r] == s.pending[r]
    requires var c := t.calls[id];
             && (c.future.Resolved? ==> Answered(t, c, c.future.payload))
             && (c.pc.Returned? ==> c.future == Resolved(c.pc.payload))
    ensures CallsOk(t)
  {
  }

  /** Steps that leave the calls alone. */
  lemma SameCalls(s: System, t: System)
    requires CallsOk(s) && t.calls == s.calls && t.issued == s.issued && s.handled <= t.handled
    requires forall r :: r in t.pending ==> r in s.pending && t.pending[r] == s.pending[r]
    ensures CallsOk(t)
  {
  }

  lemma StepCalls(s: System, a: Action)
    requires CallsOk(s) && MessagesOk(s)
    ensures CallsOk(Apply(s, a))
  {
    hide CallsOk, MessagesOk, Apply;
    match a
    case Deliver(_) => DeliverCalls(s, a);
    case StartCall(_, _, _, _, _) => StartCalls(s, a);
    case SendReturns(_, _) => SendCalls(s, a);
    case SendRaises(_) => SendCalls(s, a);
    case Wake(_) => WaitCalls(s, a);
    case Expire(_) => WaitCalls(s, a);
    case GiveUp(_) => WaitCalls(s, a);
    case _ => OtherCalls(s, a);
  }

  lemma StartCalls(s: System, a: Action)
    requires CallsOk(s) && a.StartCall?
    ensures CallsOk(Apply(s, a))
  {
    hide Pick;
  }

  lemma SendCalls(s: System, a: Action)
    requires CallsOk(s) && (a.SendReturns? || a.SendRaises?)
    ensures CallsOk(Apply(s, a))
  {
    if a.id in s.calls {
      CallOk(s, a.id);
      hide CallsOk, Touch;
      EditCall(s, Apply(s, a), a.id);
    }
  }

  lemma WaitCalls(s: System, a: Action)
    requires CallsOk(s) && (a.Wake? || a.Expire? || a.GiveUp?)
    ensures CallsOk(Apply(s, a))
  {
    if a.id in s.calls {
      CallOk(s, a.id);
      hide CallsOk;
      EditCall(s, Apply(s, a), a.id);
    }
  }

  lemma OtherCalls(s: System, a: Action)
    requires CallsOk(s) && (a.Hello? || a.Disconnect? || a.Transmit? || a.Receive? || a.Handle?)
    ensures CallsOk(Apply(s, a))
  {
    hide CallsOk, Registered, Unregistered;
    SameCalls(s, Apply(s, a));
  }

  lemma CallOk(s: System, id: nat)
    requires CallsOk(s) && id in s.calls
    ensures var c := s.calls[id];
            && (c.future.Resolved? ==> Answered(s, c, c.future.payload))
            && (c.pc.Returned? ==> c.future == Resolved(c.pc.payload))
  {
  }

  /** Calls and messages stay consistent in every run. */
  lemma {:induction false} SystemOk(actions: seq<Action>)
    ensures CallsOk(Run(actions)) && MessagesOk(Run(actions))
  {
    if actions != [] {
      hide CallsOk, MessagesOk, Apply;
      var n := |actions| - 1;
      SystemOk(actions[..n]);
      StepCalls(Run(actions[..n]), actions[n]);
      StepMessages(Run(actions[..n]), actions[n]);
    }
  }

  /** Main result on calls: whatever the interleaving and the order of responses, a call that
      returns does so with what the handler returned, on the endpoint the call was routed to, for
      this rpc id and this call's own body. */
  lemma ReturnsOwnResponse(actions: seq<Action>, id: nat)
    requires id in Run(actions).calls && Run(actions).calls[id].pc.Returned?
    ensures var c := Run(actions).calls[id];
            Handled(c.ws, c.rpcId, c.body, c.pc.payload) in Run(actions).handled
  {
    SystemOk(actions);
  }

  /** A call completes at most once: its outcome never changes afterwards. */
  lemma {:induction false} CompletesOnce(actions: seq<Action>, more: seq<Action>, id: nat)
    requires id in Run(actions).calls && Final(Run(actions).calls[id].pc)
    ensures id in Run(actions + more).calls && Run(actions + more).calls[id].pc == Run(actions).calls[id].pc
  {
    if more == [] {
      assert actions + more == actions;
    } else {
      hide Apply;
      var m := |more| - 1;
      assert (actions + more)[..|actions| + m] == actions + more[..m];
      CompletesOnce(actions, more[..m], id);
      StepKeepsCalls(Run(actions + more[..m]), more[m]);
    }
  }

  /** An open call is pending under its id, unless its send failed; then it is not. */
  ghost predicate OpenPending(s: System) {
    && (forall id :: id in s.calls && s.calls[id].future == Open && !s.calls[id].pc.SendFailed? ==>
          s.calls[id].rpcId in s.pending && s.pending[s.calls[id].rpcId] == id)
    && (forall id :: id in s.calls && s.calls[id].future == Open ==>
          s.calls[id].pc.Sending? || s.calls[id].pc.Waiting? || s.calls[id].pc.SendFailed?)
    && (forall r :: r in s.pending ==> s.pending[r] in s.calls && !s.calls[s.pending[r]].pc.SendFailed?)
  }

  lemma StepPending(s: System, a: Action)
    requires CallsOk(s) && OpenPending(s)
    ensures OpenPending(Apply(s, a))
  {
    hide CallsOk, OpenPending, Apply;
    match a
    case StartCall(_, _, _, _, _) => StartPending(s, a);
    case Deliver(r) => DeliverPending(s, r);
    case SendReturns(_, _) => SendPending(s, a);
    case SendRaises(_) => SendPending(s, a);
    case Wake(_) => WaitPending(s, a);
    case Expire(_) => WaitPending(s, a);
    case GiveUp(_) => GiveUpPending(s, a);
    case _ => OtherPending(s, a);
  }

  lemma SendPending(s: System, a: Action)
    requires CallsOk(s) && OpenPending(s) && (a.SendReturns? || a.SendRaises?)
    ensures OpenPending(Apply(s, a))
  {
    hide Touch;
  }

  lemma WaitPending(s: System, a: Action)
    requires OpenPending(s) && (a.Wake? || a.Expire?)
    ensures OpenPending(Apply(s, a))
  {
  }

  lemma GiveUpPending(s: System, a: Action)
    requires CallsOk(s) && OpenPending(s) && a.GiveUp?
    ensures OpenPending(Apply(s, a))
  {
  }

  lemma OtherPending(s: System, a: Action)
    requires OpenPending(s) && (a.Hello? || a.Disconnect? || a.Transmit? || a.Receive? || a.Handle?)
    ensures OpenPending(Apply(s, a))
  {
    hide Registered, Unregistered;
  }

  lemma StartPending(s: System, a: Action)
    requires CallsOk(s) && OpenPending(s) && a.StartCall?
    ensures OpenPending(Apply(s, a))
  {
    hide Pick;
  }

  lemma DeliverPending(s: System, r: Response)
    requires CallsOk(s) && OpenPending(s)
    ensures OpenPending(Apply(s, Deliver(r)))
  {
  }

  lemma {:induction false} RunPending(actions: seq<Action>)
    ensures OpenPending(Run(actions))
  {
    if actions != [] {
      hide CallsOk, MessagesOk, Apply, OpenPending;
      var n := |actions| - 1;
      RunPending(actions[..n]);
      SystemOk(actions[..n]);
      StepPending(Run(actions[..n]), actions[n]);
    } else {
      NothingPending();
    }
  }

  lemma NothingPending()
    ensures OpenPending(Run([]))
  {
  }

  /** In every run the delivery of a response resolves exactly the call that carries its id, if that is open and
      its send did not fail, with the response's payload, and changes no other call. */
  lemma DeliverCompletesItsCall(actions: seq<Action>, r: Response, id: nat)
    requires r in Run(actions).responses && id in Run(actions).calls
    ensures var c, after := Run(actions).calls[id], Run(actions + [Deliver(r)]).calls;
            && id in after
            && after[id] == if c.rpcId == r.rpcId && c.future == Open && !c.pc.SendFailed?
                            then c.(future := Resolved(r.payload)) else c
  {
    var s := Run(actions);
    assert (actions + [Deliver(r)])[..|actions|] == actions;
    SystemOk(actions);
    RunPending(actions);
    hide Run, MessagesOk;
  }
}
