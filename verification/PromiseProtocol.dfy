/** The client and the worker together, with the two channels between them. */
module PromiseProtocol {
  import opened Basics
  import opened HpkeResult
  import opened WorkerMessages
  import Client = WorkerClient
  import Worker = StrongBoxWorker

  /** The requests that have not arrived and the replies that have not been delivered are in order. */
  datatype State = State(client: Client.State, requests: seq<Sent>, worker: Worker.State, replies: seq<Message>)

  /** `Resume` lets the worker go on with any request that waits; `Fail` is an error event of the worker. */
  datatype Event =
    | Issue(request: Request)
    | Arrive
    | Resume(position: nat, random: Bytes, now: int, later: int)
    | Deliver
    | Fail(reason: string)

  /** The worker's services and the parameters of its cache. */
  datatype Setting = Setting(services: Worker.Services, max: nat, ttl: int)

  const START := State(Client.State(0, [], [], []), [], Worker.State([], [], []), [])

  ghost function Step(w: Setting, s: State, event: Event): State {
    match event
    case Issue(request) =>
      s.(client := Client.Step(s.client, Client.Issue(request)),
         requests := s.requests + [Sent(s.client.nextId, request)])
    case Arrive =>
      if s.requests == [] then s
      else
        s.(worker := Worker.Step(w.services, w.max, w.ttl, s.worker, Worker.Arrive(s.requests[0])),
           requests := s.requests[1..])
    case Resume(k, random, now, later) =>
      if k >= |s.worker.waiting| then s
      else
        var worker := Worker.Step(w.services, w.max, w.ttl, s.worker, Worker.Resume(k, random, now, later));
        s.(worker := worker, replies := s.replies + [ReplyTo(worker.answered[|worker.answered| - 1])])
    case Deliver =>
      if s.replies == [] then s
      else s.(client := Client.Step(s.client, Client.Receive(s.replies[0])), replies := s.replies[1..])
    case Fail(reason) => s.(client := Client.Step(s.client, Client.Broken(reason)))
  }

  function ReplyTo(a: Worker.Answered): Message {
    Response(a.sent.id, Worker.BodyOf(a.reply))
  }

  ghost function Run(w: Setting, events: seq<Event>): State {
    if events == [] then START else Step(w, Run(w, events[..|events| - 1]), events[|events| - 1])
  }

  /** The requests issued, in order. */
  function Issued(events: seq<Event>): seq<Request> {
    if events == [] then []
    else
      var last := events[|events| - 1];
      Issued(events[..|events| - 1]) + if last.Issue? then [last.request] else []
  }

  // ---------- what a promise may be told ----------

  /** The value is what the request gives without cache, channels or other requests, for some randomness. */
  ghost predicate IsResult(s: Worker.Services, r: Request, v: Client.Value) {
    match r
    case Encrypt(key, context, plaintext) =>
      exists random :: s.encrypt(key, context, plaintext, random).Ok?
                       && v == Client.Plain(s.encrypt(key, context, plaintext, random).value)
    case Decrypt(d) => s.Decrypted(d).Ok? && v == Client.Plain(s.Decrypted(d).value)
    case HpkeEncap(key, info, aad, plaintext) =>
      exists random :: s.encap(key, info, aad, plaintext, random).Ok?
                       && v == Client.Parts(s.encap(key, info, aad, plaintext, random).value)
    case HpkeDecap(key, info, aad, enc, ciphertext) =>
      s.decap(key, info, aad, enc, ciphertext).Ok?
      && v == Client.Plain(s.decap(key, info, aad, enc, ciphertext).value.payload)
  }

  /** The request fails with this error, for some randomness. */
  ghost predicate IsFailure(s: Worker.Services, r: Request, message: string) {
    exists random :: s.Performed(r, random) == Err(message)
  }

  ghost predicate Explained(s: Worker.Services, r: Request, events: seq<Event>, outcome: Client.Outcome) {
    match outcome
    case Resolved(v) => IsResult(s, r, v)
    case Rejected(message) => IsFailure(s, r, message) || Fail(message) in events
  }

  /** What the WASM library packs has lengths of 32 bits, as its memory has. */
  ghost predicate AllSmall(s: Worker.Services) {
    && (forall a, b, c, d, e :: s.encap(a, b, c, d, e).Ok? ==> Small(s.encap(a, b, c, d, e).value))
    && (forall a, b, c, d, e :: s.decap(a, b, c, d, e).Ok? ==> Small(s.decap(a, b, c, d, e).value))
  }

  /** A body that answers the request. */
  ghost predicate Answers(s: Worker.Services, r: Request, body: Body) {
    exists random :: body == Worker.BodyOf(s.Performed(r, random))
  }

  lemma {:induction false} SettledRight(s: Worker.Services, r: Request, body: Body, id: nat, events: seq<Event>)
    requires AllSmall(s) && Answers(s, r, body)
    ensures exists outcome ::
              && Client.CallsOf(Client.KindOf(r), id, body) == [Client.Call(id, outcome)]
              && Explained(s, r, events, outcome)
  {
    var random :| body == Worker.BodyOf(s.Performed(r, random));
    match body {
      case Failure(message) =>
        assert Explained(s, r, events, Client.Rejected(message));
      case Success(result) =>
        ResultIs(s, r, random, result);
        var v := Client.Transform(Client.KindOf(r), result).value;
        assert Explained(s, r, events, Client.Resolved(v));
    }
  }

  lemma {:induction false} ResultIs(s: Worker.Services, r: Request, random: Bytes, result: Bytes)
    requires AllSmall(s) && s.Performed(r, random) == Ok(result)
    ensures Client.Transform(Client.KindOf(r), result).Some?
    ensures IsResult(s, r, Client.Transform(Client.KindOf(r), result).value)
  {
    if r.HpkeEncap? || r.HpkeDecap? {
      PackDecode(s.Hpke(r, random).value);
    }
  }

  // ---------- the invariant ----------

  /** Whatever is under way belongs to a request that was posted under its id. */
  ghost predicate InPlace(s: State, id: nat, request: Request) {
    id < |s.client.posted| && s.client.posted[id] == Sent(id, request)
  }

  ghost predicate ClientOk(w: Setting, s: State, events: seq<Event>) {
    && |s.client.posted| == s.client.nextId == |Issued(events)|
    && (forall i :: 0 <= i < |s.client.posted| ==> s.client.posted[i] == Sent(i, Issued(events)[i]))
    && (forall p :: p in s.client.pending ==>
          p.id < |s.client.posted| && p.kind == Client.KindOf(s.client.posted[p.id].request))
    && (forall c :: c in s.client.calls ==>
          c.id < |s.client.posted| && Explained(w.services, s.client.posted[c.id].request, events, c.outcome))
    && (forall id: nat :: id < s.client.nextId ==> Client.Find(s.client.pending, id).Some? || Told(s.client.calls, id))
  }

  ghost predicate Told(calls: seq<Client.Call>, id: nat) {
    exists c :: c in calls && c.id == id
  }

  ghost predicate WayOk(w: Setting, s: State) {
    && (forall r :: r in s.requests ==> InPlace(s, r.id, r.request))
    && (forall r :: r in s.worker.waiting ==> InPlace(s, r.id, r.request))
    && (forall m :: m in s.replies ==> ReplyOk(w, s, m))
  }

  ghost predicate ReplyOk(w: Setting, s: State, m: Message) {
    m.Response? && m.id < |s.client.posted| && Answers(w.services, s.client.posted[m.id].request, m.body)
  }

  /** Every promise that waits is on its way: its request, or its reply. */
  ghost predicate UnderWay(s: State, id: nat) {
    || (exists r :: r in s.requests && r.id == id)
    || (exists r :: r in s.worker.waiting && r.id == id)
    || (exists m :: m in s.replies && m.Response? && m.id == id)
  }

  ghost predicate AllUnderWay(s: State) {
    forall p :: p in s.client.pending ==> UnderWay(s, p.id)
  }

  ghost predicate Issuable(requests: set<Decryption>, events: seq<Event>) {
    forall r :: r in Issued(events) && r.Decrypt? ==> r.decryption in requests
  }

  ghost predicate Invariant(w: Setting, requests: set<Decryption>, s: State, events: seq<Event>) {
    && ClientOk(w, s, events) && WayOk(w, s) && AllUnderWay(s)
    && Worker.Invariant(w.services, requests, s.worker)
  }

  lemma {:induction false} IssuedSnoc(events: seq<Event>, event: Event)
    ensures Issued(events + [event]) == Issued(events) + if event.Issue? then [event.request] else []
  {
    assert (events + [event])[..|events|] == events;
  }

  lemma {:induction false} ExplainedStays(
    s: Worker.Services, r: Request, events: seq<Event>, event: Event, outcome: Client.Outcome)
    requires Explained(s, r, events, outcome)
    ensures Explained(s, r, events + [event], outcome)
  {
    if outcome.Rejected? && Fail(outcome.message) in events {
      assert Fail(outcome.message) in events + [event];
    }
  }

  /** The client's part holds on after an event that leaves the client alone. */
  lemma {:induction false} ClientStays(w: Setting, s: State, t: State, events: seq<Event>, event: Event)
    requires ClientOk(w, s, events) && t.client == s.client && !event.Issue?
    ensures ClientOk(w, t, events + [event])
  {
    IssuedSnoc(events, event);
    forall c | c in t.client.calls
      ensures c.id < |t.client.posted|
              && Explained(w.services, t.client.posted[c.id].request, events + [event], c.outcome)
    {
      ExplainedStays(w.services, t.client.posted[c.id].request, events, event, c.outcome);
    }
  }

  lemma {:induction false} IssueClient(w: Setting, s: State, events: seq<Event>, request: Request)
    requires ClientOk(w, s, events)
    ensures ClientOk(w, Step(w, s, Issue(request)), events + [Issue(request)])
  {
    var t := Step(w, s, Issue(request));
    IssuedSnoc(events, Issue(request));
    forall c | c in t.client.calls
      ensures c.id < |t.client.posted|
              && Explained(w.services, t.client.posted[c.id].request, events + [Issue(request)], c.outcome)
    {
      ExplainedStays(w.services, s.client.posted[c.id].request, events, Issue(request), c.outcome);
    }
    forall id: nat | id < t.client.nextId
      ensures Client.Find(t.client.pending, id).Some? || Told(t.client.calls, id)
    {
      Client.FindAppend(s.client.pending, Client.Waiter(s.client.nextId, Client.KindOf(request)), id);
    }
  }

  lemma {:induction false} IssueKeeps(
    w: Setting, requests: set<Decryption>, s: State, events: seq<Event>, request: Request)
    requires Invariant(w, requests, s, events)
    ensures Invariant(w, requests, Step(w, s, Issue(request)), events + [Issue(request)])
  {
    var t := Step(w, s, Issue(request));
    IssueClient(w, s, events, request);
    assert t.client.posted[|s.client.posted|] == Sent(s.client.nextId, request);
    forall m | m in t.replies ensures ReplyOk(w, t, m) {
      assert ReplyOk(w, s, m);
    }
    forall p | p in t.client.pending ensures UnderWay(t, p.id) {
      if p in s.client.pending {
        assert UnderWay(s, p.id);
        assert forall r :: r in s.requests ==> r in t.requests;
      } else {
        assert Sent(p.id, request) in t.requests;
      }
    }
  }

  lemma {:induction false} ArriveKeeps(w: Setting, requests: set<Decryption>, s: State, events: seq<Event>)
    requires w.services.CollisionFree(requests) && Issuable(requests, events)
    requires Invariant(w, requests, s, events) && s.requests != []
    ensures Invariant(w, requests, Step(w, s, Arrive), events + [Arrive])
  {
    var t, first := Step(w, s, Arrive), s.requests[0];
    ClientStays(w, s, t, events, Arrive);
    assert InPlace(s, first.id, first.request);
    assert first.request == Issued(events)[first.id];
    Worker.StepInvariant(w.services, requests, w.max, w.ttl, s.worker, Worker.Arrive(first));
    forall m | m in t.replies ensures ReplyOk(w, t, m) {
      assert ReplyOk(w, s, m);
    }
    forall p | p in t.client.pending ensures UnderWay(t, p.id) {
      assert UnderWay(s, p.id);
      assert first in t.worker.waiting;
      assert forall r :: r in s.requests ==> r == first || r in t.requests;
      assert forall r :: r in s.worker.waiting ==> r in t.worker.waiting;
    }
  }

  lemma {:induction false} ResumeKeeps(
    w: Setting, requests: set<Decryption>, s: State, events: seq<Event>, k: nat, random: Bytes, now: int, later: int)
    requires w.services.CollisionFree(requests)
    requires Invariant(w, requests, s, events) && k < |s.worker.waiting|
    ensures Invariant(w, requests, Step(w, s, Resume(k, random, now, later)), events + [Resume(k, random, now, later)])
  {
    var event := Resume(k, random, now, later);
    var t, sent := Step(w, s, event), s.worker.waiting[k];
    ClientStays(w, s, t, events, event);
    Worker.StepInvariant(w.services, requests, w.max, w.ttl, s.worker, Worker.Resume(k, random, now, later));
    var a := t.worker.answered[|t.worker.answered| - 1];
    assert InPlace(s, sent.id, sent.request);
    assert a in t.worker.answered && a.sent == sent;
    assert ReplyTo(a).body == Worker.BodyOf(w.services.Performed(sent.request, a.random));
    forall m | m in t.replies ensures ReplyOk(w, t, m) {
      if m in s.replies {
        assert ReplyOk(w, s, m);
      }
    }
    forall p | p in t.client.pending ensures UnderWay(t, p.id) {
      ResumeUnderWay(s, t, k, sent, ReplyTo(a), p.id);
    }
  }

  lemma {:induction false} ResumeUnderWay(s: State, t: State, k: nat, sent: Sent, m: Message, id: nat)
    requires k < |s.worker.waiting| && sent == s.worker.waiting[k] && m.Response? && m.id == sent.id
    requires t.requests == s.requests && t.worker.waiting == s.worker.waiting[..k] + s.worker.waiting[k + 1..]
    requires t.replies == s.replies + [m]
    requires UnderWay(s, id)
    ensures UnderWay(t, id)
  {
    assert m in t.replies;
    assert forall n :: n in s.replies ==> n in t.replies;
    forall r | r in s.worker.waiting ensures r == sent || r in t.worker.waiting {
      var i :| 0 <= i < |s.worker.waiting| && s.worker.waiting[i] == r;
      assert i < k ==> t.worker.waiting[i] == r;
      assert i > k ==> t.worker.waiting[i - 1] == r;
    }
  }

  lemma {:induction false} DeliverClient(w: Setting, s: State, events: seq<Event>, m: Message)
    requires AllSmall(w.services) && ClientOk(w, s, events) && ReplyOk(w, s, m)
    ensures ClientOk(w, s.(client := Client.Step(s.client, Client.Receive(m))), events + [Deliver])
  {
    var t := s.(client := Client.Step(s.client, Client.Receive(m)));
    if Client.Find(s.client.pending, m.id).None? {
      ClientStays(w, s, t, events, Deliver);
      return;
    }
    IssuedSnoc(events, Deliver);
    var r := s.client.posted[m.id].request;
    SettledRight(w.services, r, m.body, m.id, events + [Deliver]);
    var outcome :| Client.CallsOf(Client.KindOf(r), m.id, m.body) == [Client.Call(m.id, outcome)]
                   && Explained(w.services, r, events + [Deliver], outcome);
    var call := Client.Call(m.id, outcome);
    assert t.client.calls == s.client.calls + [call];
    forall c | c in t.client.calls
      ensures c.id < |t.client.posted|
              && Explained(w.services, t.client.posted[c.id].request, events + [Deliver], c.outcome)
    {
      if c != call {
        ExplainedStays(w.services, s.client.posted[c.id].request, events, Deliver, c.outcome);
      }
    }
    forall id: nat | id < t.client.nextId
      ensures Client.Find(t.client.pending, id).Some? || Told(t.client.calls, id)
    {
      Client.FindWithout(s.client.pending, m.id, id);
      assert call in t.client.calls;
      assert Told(s.client.calls, id) ==> Told(t.client.calls, id);
    }
  }

  lemma {:induction false} DeliverUnderWay(s: State, t: State, first: Message)
    requires s.replies != [] && first == s.replies[0] && t.replies == s.replies[1..]
    requires t.requests == s.requests && t.worker == s.worker && AllUnderWay(s)
    requires forall p :: p in t.client.pending ==> p in s.client.pending && (first.Response? ==> p.id != first.id)
    ensures AllUnderWay(t)
  {
    forall p | p in t.client.pending ensures UnderWay(t, p.id) {
      assert UnderWay(s, p.id);
      assert forall m :: m in s.replies ==> m == first || m in t.replies;
    }
  }

  lemma {:induction false} DeliverKeeps(w: Setting, requests: set<Decryption>, s: State, events: seq<Event>)
    requires AllSmall(w.services) && Invariant(w, requests, s, events) && s.replies != []
    ensures Invariant(w, requests, Step(w, s, Deliver), events + [Deliver])
  {
    var t, first := Step(w, s, Deliver), s.replies[0];
    assert ReplyOk(w, s, first);
    DeliverClient(w, s, events, first);
    forall m | m in t.replies ensures ReplyOk(w, t, m) {
      assert ReplyOk(w, s, m);
    }
    DeliverUnderWay(s, t, first);
  }

  lemma {:induction false} FailExplained(w: Setting, s: State, events: seq<Event>, reason: string, c: Client.Call)
    requires ClientOk(w, s, events) && c in s.client.calls + Client.RejectAll(s.client.pending, reason)
    ensures c.id < |s.client.posted|
    ensures Explained(w.services, s.client.posted[c.id].request, events + [Fail(reason)], c.outcome)
  {
    var calls := Client.RejectAll(s.client.pending, reason);
    if c in s.client.calls {
      ExplainedStays(w.services, s.client.posted[c.id].request, events, Fail(reason), c.outcome);
    } else {
      var k :| 0 <= k < |calls| && calls[k] == c;
      assert s.client.pending[k] in s.client.pending;
      assert Fail(reason) in events + [Fail(reason)];
    }
  }

  lemma {:induction false} FailTold(s: Client.State, reason: string, id: nat)
    requires Client.Find(s.pending, id).Some? || Told(s.calls, id)
    ensures Told(s.calls + Client.RejectAll(s.pending, reason), id)
  {
    var calls := Client.RejectAll(s.pending, reason);
    if Client.Find(s.pending, id).Some? {
      var k :| 0 <= k < |s.pending| && s.pending[k] == Client.Find(s.pending, id).value;
      assert calls[k] in s.calls + calls;
    } else {
      var c :| c in s.calls && c.id == id;
      assert c in s.calls + calls;
    }
  }

  lemma {:induction false} FailKeeps(
    w: Setting, requests: set<Decryption>, s: State, events: seq<Event>, reason: string)
    requires Invariant(w, requests, s, events)
    ensures Invariant(w, requests, Step(w, s, Fail(reason)), events + [Fail(reason)])
  {
    var t := Step(w, s, Fail(reason));
    IssuedSnoc(events, Fail(reason));
    forall c | c in t.client.calls
      ensures c.id < |t.client.posted|
              && Explained(w.services, t.client.posted[c.id].request, events + [Fail(reason)], c.outcome)
    {
      FailExplained(w, s, events, reason, c);
    }
    forall id: nat | id < t.client.nextId ensures Told(t.client.calls, id) {
      FailTold(s.client, reason, id);
    }
    forall m | m in t.replies ensures ReplyOk(w, t, m) {
      assert ReplyOk(w, s, m);
    }
  }

  lemma {:induction false} StepKeeps(w: Setting, requests: set<Decryption>, s: State, events: seq<Event>, event: Event)
    requires w.services.CollisionFree(requests) && AllSmall(w.services) && Issuable(requests, events)
    requires Invariant(w, requests, s, events)
    ensures Invariant(w, requests, Step(w, s, event), events + [event])
  {
    match event {
      case Issue(request) => IssueKeeps(w, requests, s, events, request);
      case Arrive =>
        if s.requests == [] {
          ClientStays(w, s, s, events, event);
        } else {
          ArriveKeeps(w, requests, s, events);
        }
      case Resume(k, random, now, later) =>
        if k >= |s.worker.waiting| {
          ClientStays(w, s, s, events, event);
        } else {
          ResumeKeeps(w, requests, s, events, k, random, now, later);
        }
      case Deliver =>
        if s.replies == [] {
          ClientStays(w, s, s, events, event);
        } else {
          DeliverKeeps(w, requests, s, events);
        }
      case Fail(reason) => FailKeeps(w, requests, s, events, reason);
    }
  }

  lemma {:induction false} RunKeeps(w: Setting, requests: set<Decryption>, events: seq<Event>)
    requires w.services.CollisionFree(requests) && AllSmall(w.services) && Issuable(requests, events)
    ensures Invariant(w, requests, Run(w, events), events)
  {
    if events != [] {
      var rest, event := events[..|events| - 1], events[|events| - 1];
      assert events == rest + [event];
      IssuedSnoc(rest, event);
      assert forall r :: r in Issued(rest) ==> r in Issued(events);
      RunKeeps(w, requests, rest);
      StepKeeps(w, requests, Run(w, rest), rest, event);
    }
  }

  // ---------- the client in the protocol ----------

  /** What the client gets to see of an event. */
  function ClientPart(s: State, event: Event): (r: seq<Client.Event>)
    ensures |r| <= 1
  {
    match event
    case Issue(request) => [Client.Issue(request)]
    case Deliver => if s.replies == [] then [] else [Client.Receive(s.replies[0])]
    case Fail(reason) => [Client.Broken(reason)]
    case _ => []
  }

  ghost function ClientEvents(w: Setting, events: seq<Event>): seq<Client.Event> {
    if events == [] then []
    else
      var rest := events[..|events| - 1];
      ClientEvents(w, rest) + ClientPart(Run(w, rest), events[|events| - 1])
  }

  lemma {:induction false} ClientRuns(w: Setting, events: seq<Event>)
    ensures Run(w, events).client == Client.Run(ClientEvents(w, events))
  {
    if events != [] {
      var rest, event := events[..|events| - 1], events[|events| - 1];
      ClientRuns(w, rest);
      ClientSnoc(ClientEvents(w, rest), ClientPart(Run(w, rest), event));
      ClientStep(w, Run(w, rest), event);
    }
  }

  lemma {:induction false} ClientStep(w: Setting, s: State, event: Event)
    ensures var part := ClientPart(s, event);
            Step(w, s, event).client == if part == [] then s.client else Client.Step(s.client, part[0])
  {
  }

  lemma {:induction false} ClientSnoc(events: seq<Client.Event>, more: seq<Client.Event>)
    requires |more| <= 1
    ensures Client.Run(events + more)
            == if more == [] then Client.Run(events) else Client.Step(Client.Run(events), more[0])
    ensures Received(events + more) == Received(events) + Received(more)
  {
    if more == [] {
      assert events + more == events;
    } else {
      assert (events + more)[..|events|] == events && more[..0] == [];
    }
  }

  /** What the worker gets to do of an event. */
  ghost function WorkerPart(s: State, event: Event): (r: seq<Worker.Event>)
    ensures |r| <= 1
  {
    match event
    case Arrive => if s.requests == [] then [] else [Worker.Arrive(s.requests[0])]
    case Resume(k, random, now, later) => [Worker.Resume(k, random, now, later)]
    case _ => []
  }

  ghost function WorkerEvents(w: Setting, events: seq<Event>): seq<Worker.Event> {
    if events == [] then []
    else
      var rest := events[..|events| - 1];
      WorkerEvents(w, rest) + WorkerPart(Run(w, rest), events[|events| - 1])
  }

  lemma {:induction false} WorkerRuns(w: Setting, events: seq<Event>)
    ensures Run(w, events).worker == Worker.RunEvents(w.services, w.max, w.ttl, WorkerEvents(w, events))
  {
    if events != [] {
      var rest, event := events[..|events| - 1], events[|events| - 1];
      WorkerRuns(w, rest);
      WorkerSnoc(w, WorkerEvents(w, rest), WorkerPart(Run(w, rest), event));
      WorkerStep(w, Run(w, rest), event);
    }
  }

  lemma {:induction false} WorkerSnoc(w: Setting, events: seq<Worker.Event>, more: seq<Worker.Event>)
    requires |more| <= 1
    ensures var s := Worker.RunEvents(w.services, w.max, w.ttl, events);
            Worker.RunEvents(w.services, w.max, w.ttl, events + more)
            == if more == [] then s else Worker.Step(w.services, w.max, w.ttl, s, more[0])
  {
    if more == [] {
      assert events + more == events;
    } else {
      assert (events + more)[..|events|] == events;
    }
  }

  lemma {:induction false} WorkerStep(w: Setting, s: State, event: Event)
    ensures var part := WorkerPart(s, event);
            Step(w, s, event).worker
            == if part == [] then s.worker else Worker.Step(w.services, w.max, w.ttl, s.worker, part[0])
  {
  }

  /** The messages among the client's events. */
  function Received(events: seq<Client.Event>): seq<Message> {
    if events == [] then []
    else
      var last := events[|events| - 1];
      Received(events[..|events| - 1]) + if last.Receive? then [last.message] else []
  }

  /** What the worker posts is what the client receives and then what is on the way, in order. */
  lemma {:induction false} RepliesInOrder(w: Setting, events: seq<Event>)
    ensures Worker.Posted(Run(w, events).worker.answered) == Received(ClientEvents(w, events)) + Run(w, events).replies
  {
    if events != [] {
      var rest, event := events[..|events| - 1], events[|events| - 1];
      RepliesInOrder(w, rest);
      ClientSnoc(ClientEvents(w, rest), ClientPart(Run(w, rest), event));
      RepliesStep(w, Run(w, rest), event, Received(ClientEvents(w, rest)));
    }
  }

  lemma {:induction false} RepliesStep(w: Setting, s: State, event: Event, got: seq<Message>)
    requires Worker.Posted(s.worker.answered) == got + s.replies
    ensures var t := Step(w, s, event);
            Worker.Posted(t.worker.answered) == got + Received(ClientPart(s, event)) + t.replies
  {
    ReceivedPart(s, event);
    if event.Resume? && event.position < |s.worker.waiting| {
      ResumeReplies(w, s, event, got);
    } else if event.Deliver? && s.replies != [] {
      assert s.replies == [s.replies[0]] + s.replies[1..];
    }
  }

  lemma {:induction false} ReceivedPart(s: State, event: Event)
    ensures Received(ClientPart(s, event)) == if event.Deliver? && s.replies != [] then [s.replies[0]] else []
  {
    var part := ClientPart(s, event);
    assert part != [] ==> part[..|part| - 1] == [];
  }

  lemma {:induction false} ResumeReplies(w: Setting, s: State, event: Event, got: seq<Message>)
    requires Worker.Posted(s.worker.answered) == got + s.replies
    requires event.Resume? && event.position < |s.worker.waiting|
    ensures var t := Step(w, s, event); Worker.Posted(t.worker.answered) == got + t.replies
  {
    var t := Step(w, s, event);
    var a := t.worker.answered[|t.worker.answered| - 1];
    Worker.PostedSnoc(s.worker.answered, a);
    Regroup(got, s.replies, [ReplyTo(a)]);
  }

  lemma {:induction false} Regroup(a: seq<Message>, b: seq<Message>, c: seq<Message>)
    ensures (a + b) + c == a + (b + c)
  {
  }

  /**
   The promises over every interleaving of calls, channels, worker and worker errors.  Each call of
   the client gets the next id; a promise is told at most one outcome, and that outcome is the result or
   the failure of its own request, as a worker without a cache would give it, or a worker error.
   A promise is in the table exactly until it is told, and it is told once nothing is under way.
   */
  lemma {:induction false} PromisesKept(w: Setting, requests: set<Decryption>, events: seq<Event>, id: nat)
    requires w.services.CollisionFree(requests) && AllSmall(w.services) && Issuable(requests, events)
    requires id < |Issued(events)|
    ensures var s := Run(w, events);
            var told := Client.CallsFor(s.client.calls, id);
            && id < |s.client.posted| && s.client.posted[id] == Sent(id, Issued(events)[id])
            && |told| <= 1
            && (told != [] ==> Explained(w.services, Issued(events)[id], events, told[0]))
            && (Client.Find(s.client.pending, id).Some? <==> told == [])
            && (told == [] ==> UnderWay(s, id))
  {
    var s := Run(w, events);
    RunKeeps(w, requests, events);
    TableExact(w, requests, events, id);
    ToldRight(w, s, events, id);
    if Client.Find(s.client.pending, id).Some? {
      assert UnderWay(s, Client.Find(s.client.pending, id).value.id);
    }
  }

  /** Once nothing is under way, every promise has been told its one outcome. */
  lemma {:induction false} AllTold(w: Setting, requests: set<Decryption>, events: seq<Event>, id: nat)
    requires w.services.CollisionFree(requests) && AllSmall(w.services) && Issuable(requests, events)
    requires var s := Run(w, events); s.requests == [] && s.worker.waiting == [] && s.replies == []
    requires id < |Issued(events)|
    ensures |Client.CallsFor(Run(w, events).client.calls, id)| == 1
    ensures Run(w, events).client.pending == []
  {
    PromisesKept(w, requests, events, id);
    RunKeeps(w, requests, events);
    WaitsSomewhere(Run(w, events));
  }

  lemma {:induction false} WaitsSomewhere(s: State)
    requires AllUnderWay(s)
    ensures s.client.pending != [] ==> s.requests != [] || s.worker.waiting != [] || s.replies != []
  {
    if s.client.pending != [] {
      assert UnderWay(s, s.client.pending[0].id);
    }
  }

  lemma {:induction false} TableExact(w: Setting, requests: set<Decryption>, events: seq<Event>, id: nat)
    requires Invariant(w, requests, Run(w, events), events) && id < |Issued(events)|
    ensures var s := Run(w, events);
            && |Client.CallsFor(s.client.calls, id)| <= 1
            && (Client.Find(s.client.pending, id).Some? <==> Client.CallsFor(s.client.calls, id) == [])
  {
    ClientRuns(w, events);
    Client.PendingIff(ClientEvents(w, events), id);
    ToldIff(Run(w, events).client.calls, id);
  }

  lemma {:induction false} ToldRight(w: Setting, s: State, events: seq<Event>, id: nat)
    requires ClientOk(w, s, events) && id < |Issued(events)|
    ensures s.client.posted[id] == Sent(id, Issued(events)[id])
    ensures forall o :: o in Client.CallsFor(s.client.calls, id) ==>
              Explained(w.services, Issued(events)[id], events, o)
  {
    ToldIff(s.client.calls, id);
    forall o | o in Client.CallsFor(s.client.calls, id)
      ensures Explained(w.services, Issued(events)[id], events, o)
    {
      assert Client.Call(id, o) in s.client.calls;
    }
  }

  lemma {:induction false} ToldIff(calls: seq<Client.Call>, id: nat)
    ensures Told(calls, id) <==> Client.CallsFor(calls, id) != []
    ensures forall o :: o in Client.CallsFor(calls, id) ==> Client.Call(id, o) in calls
  {
    if calls != [] {
      var rest, last := calls[..|calls| - 1], calls[|calls| - 1];
      ToldIff(rest, id);
      assert calls == rest + [last];
      if Told(calls, id) && last.id != id {
        var c :| c in calls && c.id == id;
        assert c in rest;
      }
    }
  }
}
