/** The client of the worker: a table of promises that wait for a reply, in whatever order replies come. */
module WorkerClient {
  import opened Basics
  import opened HpkeResult
  import opened WorkerMessages

  /** How the result of a request is turned into a value. */
  datatype Kind = Box | Encap | Decap

  function KindOf(request: Request): Kind {
    match request
    case Encrypt(_, _, _) => Box
    case Decrypt(_) => Box
    case HpkeEncap(_, _, _, _) => Encap
    case HpkeDecap(_, _, _, _, _) => Decap
  }

  datatype Value = Plain(bytes: Bytes) | Parts(parts: HpkeResult)

  /** What a call of `resolve` or `reject` says. */
  datatype Outcome = Resolved(value: Value) | Rejected(message: string)

  datatype Waiter = Waiter(id: nat, kind: Kind)

  datatype Call = Call(id: nat, outcome: Outcome)

  /** None if decoding throws. */
  function Transform(kind: Kind, result: Bytes): Option<Value> {
    match kind
    case Box => Some(Plain(result))
    case Encap =>
      (match Decode(result)
       case None => None
       case Some(parts) => Some(Parts(parts)))
    case Decap =>
      match Decode(result)
      case None => None
      case Some(parts) => Some(Plain(parts.payload))
  }

  // ---------- the client ----------

  /** The table, and what was done so far: the requests posted to the worker and the calls made. */
  datatype State = State(nextId: nat, pending: seq<Waiter>, posted: seq<Sent>, calls: seq<Call>)

  datatype Event = Issue(request: Request) | Receive(message: Message) | Broken(reason: string)

  function Find(pending: seq<Waiter>, id: nat): (r: Option<Waiter>)
    ensures r.Some? ==> r.value in pending && r.value.id == id
    ensures r.None? ==> forall w :: w in pending ==> w.id != id
  {
    if pending == [] then None else if pending[0].id == id then Some(pending[0]) else Find(pending[1..], id)
  }

  function Without(pending: seq<Waiter>, id: nat): (r: seq<Waiter>)
    ensures forall w :: w in r <==> w in pending && w.id != id
  {
    if pending == [] then []
    else if pending[0].id == id then Without(pending[1..], id)
    else [pending[0]] + Without(pending[1..], id)
  }

  /** The calls a reply causes; none if decoding it throws. */
  function CallsOf(kind: Kind, id: nat, body: Body): seq<Call> {
    match body
    case Failure(message) => [Call(id, Rejected(message))]
    case Success(result) =>
      match Transform(kind, result)
      case None => []
      case Some(value) => [Call(id, Resolved(value))]
  }

  function RejectAll(pending: seq<Waiter>, message: string): (r: seq<Call>)
    ensures |r| == |pending|
    ensures forall k :: 0 <= k < |r| ==> r[k] == Call(pending[k].id, Rejected(message))
  {
    if pending == [] then []
    else RejectAll(pending[..|pending| - 1], message) + [Call(pending[|pending| - 1].id, Rejected(message))]
  }

  function Step(s: State, event: Event): State {
    match event
    case Issue(request) =>
      s.(nextId := s.nextId + 1,
         pending := s.pending + [Waiter(s.nextId, KindOf(request))],
         posted := s.posted + [Sent(s.nextId, request)])
    case Broken(message) => s.(pending := [], calls := s.calls + RejectAll(s.pending, message))
    case Receive(Response(id, body)) =>
      (match Find(s.pending, id)
       case None => s
       case Some(w) => s.(pending := Without(s.pending, id), calls := s.calls + CallsOf(w.kind, id, body)))
    case Receive(_) => s
  }

  function Run(events: seq<Event>): State {
    if events == [] then State(0, [], [], []) else Step(Run(events[..|events| - 1]), events[|events| - 1])
  }

  class StrongBoxWorkerClient {
    var nextId: nat
    var pending: seq<Waiter>
    var posted: seq<Sent>
    var calls: seq<Call>

    constructor ()
      ensures Abstract() == State(0, [], [], [])
    {
      nextId := 0;
      pending := [];
      posted := [];
      calls := [];
    }

    function Abstract(): State
      reads this
    {
      State(nextId, pending, posted, calls)
    }

    /** Posts the request under a new id, and then enters the promise in the table. */
    method Invoke(request: Request) returns (id: nat)
      modifies this
      ensures Abstract() == Step(old(Abstract()), Issue(request)) && id == old(nextId)
    {
      id := nextId;
      nextId := nextId + 1;
      posted := posted + [Sent(id, request)];
      pending := pending + [Waiter(id, KindOf(request))];
    }

    /** The waiter leaves the table before its reply is decoded. */
    method OnMessage(message: Message) returns (threw: bool)
      modifies this
      ensures Abstract() == Step(old(Abstract()), Receive(message))
      ensures threw <==> message.Response? && message.body.Success? && Find(old(pending), message.id).Some?
                         && Transform(Find(old(pending), message.id).value.kind, message.body.result).None?
    {
      threw := false;
      if !message.Response? {
        return;
      }
      var waiter := Find(pending, message.id);
      if waiter.None? {
        return;
      }
      pending := Without(pending, message.id);
      match message.body {
        case Failure(text) => calls := calls + [Call(message.id, Rejected(text))];
        case Success(result) =>
          var value := Transform(waiter.value.kind, result);
          if value.None? {
            return true;
          }
          calls := calls + [Call(message.id, Resolved(value.value))];
      }
    }

    method OnError(message: string)
      modifies this
      ensures Abstract() == Step(old(Abstract()), Broken(message))
    {
      for k := 0 to |pending|
        invariant pending == old(pending) && nextId == old(nextId) && posted == old(posted)
        invariant calls == old(calls) + RejectAll(pending[..k], message)
      {
        assert pending[..k + 1][..k] == pending[..k];
        calls := calls + [Call(pending[k].id, Rejected(message))];
      }
      assert pending[..|pending|] == pending;
      pending := [];
    }
  }

  // ---------- one promise at a time ----------

  /** The life of one promise; a lost one is never settled. */
  datatype Status = Unissued | Waiting(kind: Kind) | Settled(outcome: Outcome) | Lost

  function Issued(events: seq<Event>): nat {
    if events == [] then 0
    else Issued(events[..|events| - 1]) + if events[|events| - 1].Issue? then 1 else 0
  }

  function Settle(kind: Kind, body: Body): Status {
    match body
    case Failure(message) => Settled(Rejected(message))
    case Success(result) =>
      match Transform(kind, result)
      case None => Lost
      case Some(value) => Settled(Resolved(value))
  }

  /** What one event, after `issued` issues, does to the promise `id`. */
  function Next(status: Status, id: nat, issued: nat, event: Event): Status {
    match event
    case Issue(request) => if issued == id then Waiting(KindOf(request)) else status
    case Broken(message) => if status.Waiting? then Settled(Rejected(message)) else status
    case Receive(Response(i, body)) => if i == id && status.Waiting? then Settle(status.kind, body) else status
    case Receive(_) => status
  }

  /** The promise with a given id, as if it were the only one. */
  function StatusOf(events: seq<Event>, id: nat): Status {
    if events == [] then Unissued
    else
      var rest := events[..|events| - 1];
      Next(StatusOf(rest, id), id, Issued(rest), events[|events| - 1])
  }

  function CallsFor(calls: seq<Call>, id: nat): seq<Outcome> {
    if calls == [] then []
    else
      var last := calls[|calls| - 1];
      CallsFor(calls[..|calls| - 1], id) + if last.id == id then [last.outcome] else []
  }

  lemma {:induction false} CallsForAppend(a: seq<Call>, b: seq<Call>, id: nat)
    ensures CallsFor(a + b, id) == CallsFor(a, id) + CallsFor(b, id)
  {
    if b == [] {
      assert a + b == a;
    } else {
      CallsForAppend(a, b[..|b| - 1], id);
      assert (a + b)[..|a + b| - 1] == a + b[..|b| - 1];
    }
  }

  ghost predicate DistinctIds(pending: seq<Waiter>) {
    forall i, j :: 0 <= i < j < |pending| ==> pending[i].id != pending[j].id
  }

  lemma {:induction false} LastIsNew(rest: seq<Waiter>, last: Waiter)
    requires DistinctIds(rest + [last])
    ensures DistinctIds(rest) && Find(rest, last.id).None?
  {
    var pending := rest + [last];
    assert forall i :: 0 <= i < |rest| ==> pending[i] == rest[i];
    assert pending[|rest|] == last;
  }

  lemma {:induction false} RejectAllSnoc(rest: seq<Waiter>, last: Waiter, message: string, id: nat)
    ensures CallsFor(RejectAll(rest + [last], message), id)
         == CallsFor(RejectAll(rest, message), id) + if last.id == id then [Rejected(message)] else []
  {
    var calls, call := RejectAll(rest, message), Call(last.id, Rejected(message));
    assert (rest + [last])[..|rest|] == rest;
    assert (calls + [call])[..|calls|] == calls;
  }

  lemma {:induction false} RejectedOnce(pending: seq<Waiter>, message: string, id: nat)
    requires DistinctIds(pending)
    ensures CallsFor(RejectAll(pending, message), id)
         == if Find(pending, id).Some? then [Rejected(message)] else []
  {
    if pending != [] {
      var rest, last := pending[..|pending| - 1], pending[|pending| - 1];
      assert pending == rest + [last];
      LastIsNew(rest, last);
      RejectedOnce(rest, message, id);
      RejectAllSnoc(rest, last, message, id);
      FindAppend(rest, last, id);
    }
  }

  /** The table and the calls, as seen from one promise. */
  ghost predicate Agrees(s: State, id: nat, status: Status) {
    match status
    case Waiting(kind) => Find(s.pending, id) == Some(Waiter(id, kind)) && CallsFor(s.calls, id) == []
    case Settled(outcome) => Find(s.pending, id).None? && CallsFor(s.calls, id) == [outcome]
    case _ => Find(s.pending, id).None? && CallsFor(s.calls, id) == []
  }

  /** The waiting ids are distinct and were all given out. */
  ghost predicate TableOk(s: State) {
    DistinctIds(s.pending) && forall w :: w in s.pending ==> w.id < s.nextId
  }

  lemma {:induction false} WithoutDistinct(pending: seq<Waiter>, id: nat)
    requires DistinctIds(pending)
    ensures DistinctIds(Without(pending, id))
  {
    if pending != [] {
      WithoutDistinct(pending[1..], id);
    }
  }

  lemma {:induction false} TableHolds(events: seq<Event>)
    ensures TableOk(Run(events)) && Run(events).nextId == Issued(events)
  {
    if events != [] {
      var rest, event := events[..|events| - 1], events[|events| - 1];
      TableHolds(rest);
      if event.Receive? && event.message.Response? {
        WithoutDistinct(Run(rest).pending, event.message.id);
      }
    }
  }

  lemma {:induction false} FindAppend(pending: seq<Waiter>, w: Waiter, id: nat)
    ensures Find(pending + [w], id)
         == if Find(pending, id).Some? then Find(pending, id) else if w.id == id then Some(w) else None
  {
    if pending == [] {
      assert pending + [w] == [w];
    } else {
      FindAppend(pending[1..], w, id);
      assert (pending + [w])[1..] == pending[1..] + [w];
    }
  }

  lemma {:induction false} FindWithout(pending: seq<Waiter>, gone: nat, id: nat)
    ensures Find(Without(pending, gone), id) == if id == gone then None else Find(pending, id)
  {
    if pending != [] {
      FindWithout(pending[1..], gone, id);
    }
  }

  lemma {:induction false} UnissuedIff(events: seq<Event>, id: nat)
    ensures StatusOf(events, id) == Unissued <==> id >= Issued(events)
  {
    if events != [] {
      UnissuedIff(events[..|events| - 1], id);
    }
  }

  lemma {:induction false} StepIssue(s: State, id: nat, status: Status, request: Request)
    requires TableOk(s) && Agrees(s, id, status) && (status == Unissued <==> id >= s.nextId)
    ensures Agrees(Step(s, Issue(request)), id, Next(status, id, s.nextId, Issue(request)))
  {
    FindAppend(s.pending, Waiter(s.nextId, KindOf(request)), id);
  }

  lemma {:induction false} StepBroken(s: State, id: nat, status: Status, reason: string)
    requires TableOk(s) && Agrees(s, id, status)
    ensures Agrees(Step(s, Broken(reason)), id, Next(status, id, s.nextId, Broken(reason)))
  {
    RejectedOnce(s.pending, reason, id);
    CallsForAppend(s.calls, RejectAll(s.pending, reason), id);
  }

  lemma {:induction false} StepReceive(s: State, id: nat, status: Status, message: Message)
    requires TableOk(s) && Agrees(s, id, status)
    ensures Agrees(Step(s, Receive(message)), id, Next(status, id, s.nextId, Receive(message)))
  {
    if message.Response? && Find(s.pending, message.id).Some? {
      var w := Find(s.pending, message.id).value;
      FindWithout(s.pending, message.id, id);
      CallsForAppend(s.calls, CallsOf(w.kind, message.id, message.body), id);
      CallsForOne(w.kind, message.id, message.body, id);
    }
  }

  lemma {:induction false} CallsForOne(kind: Kind, id: nat, body: Body, other: nat)
    ensures CallsFor(CallsOf(kind, id, body), other)
         == if id != other then []
            else match Settle(kind, body)
                 case Settled(outcome) => [outcome]
                 case _ => []
  {
    var calls := CallsOf(kind, id, body);
    if calls != [] {
      assert calls[..|calls| - 1] == [];
    }
  }

  /**
   The client against its promises taken one by one: after any events the table holds exactly the
   waiting promises, and exactly the settled ones were resolved or rejected, each once.
   */
  lemma {:induction false} ClientAgrees(events: seq<Event>, id: nat)
    ensures Agrees(Run(events), id, StatusOf(events, id))
  {
    if events != [] {
      var rest, event := events[..|events| - 1], events[|events| - 1];
      ClientAgrees(rest, id);
      TableHolds(rest);
      UnissuedIff(rest, id);
      match event {
        case Issue(request) => StepIssue(Run(rest), id, StatusOf(rest, id), request);
        case Broken(reason) => StepBroken(Run(rest), id, StatusOf(rest, id), reason);
        case Receive(message) => StepReceive(Run(rest), id, StatusOf(rest, id), message);
      }
    }
  }

  /** Event `j` settles or loses the promise. */
  ghost predicate Decides(events: seq<Event>, j: nat, id: nat, status: Status) {
    && j < |events|
    && StatusOf(events[..j], id).Waiting?
    && match events[j]
       case Issue(_) => false
       case Broken(reason) => status == Settled(Rejected(reason))
       case Receive(Response(i, body)) => i == id && status == Settle(StatusOf(events[..j], id).kind, body)
       case Receive(_) => false
  }

  /** Only a reply with its own id or a worker error settles or loses a promise, and the first of them decides. */
  lemma {:induction false} DecidedIff(events: seq<Event>, id: nat, status: Status)
    requires status.Settled? || status.Lost?
    ensures StatusOf(events, id) == status <==> exists j: nat :: Decides(events, j, id, status)
  {
    if events != [] {
      var n := |events| - 1;
      var rest := events[..n];
      DecidedIff(rest, id, status);
      UnissuedIff(rest, id);
      if StatusOf(rest, id) == status {
        var j: nat :| Decides(rest, j, id, status);
        assert events[..j] == rest[..j] && Decides(events, j, id, status);
      } else if StatusOf(events, id) == status {
        assert Decides(events, n, id, status);
      }
      if j: nat :| Decides(events, j, id, status) {
        if j < n {
          assert events[..j] == rest[..j] && Decides(rest, j, id, status);
        }
      }
    }
  }

  /** The ids in the table are those given out less those settled and those lost. */
  lemma {:induction false} PendingIff(events: seq<Event>, id: nat)
    ensures Find(Run(events).pending, id).Some?
       <==> id < Issued(events) && CallsFor(Run(events).calls, id) == [] && StatusOf(events, id) != Lost
    ensures |CallsFor(Run(events).calls, id)| <= 1
  {
    ClientAgrees(events, id);
    UnissuedIff(events, id);
  }

  /** A reply is lost exactly if it is a success of under twelve bytes for an HPKE request: decoding it throws. */
  lemma {:induction false} LosesIff(kind: Kind, body: Body)
    ensures Settle(kind, body) == Lost <==> !kind.Box? && body.Success? && |body.result| < 12
  {
  }

  /**
   Such a reply is conceivable, though the worker sends none: the promise leaves the table
   unsettled, and nothing that happens later settles it.
   */
  lemma {:induction false} LostRun(request: Request, later: seq<Event>)
    requires !KindOf(request).Box?
    ensures StatusOf([Issue(request), Receive(Response(0, Success([])))] + later, 0) == Lost
    ensures CallsFor(Run([Issue(request), Receive(Response(0, Success([])))] + later).calls, 0) == []
  {
    var events := [Issue(request), Receive(Response(0, Success([])))];
    assert events[..1] == [Issue(request)] && events[..1][..0] == [];
    assert Issued([]) == 0 && StatusOf([], 0) == Unissued;
    assert StatusOf(events[..1], 0) == Waiting(KindOf(request));
    LostStays(events, later, 0);
    ClientAgrees(events + later, 0);
  }

  lemma {:induction false} LostStays(events: seq<Event>, later: seq<Event>, id: nat)
    requires StatusOf(events, id) == Lost
    ensures StatusOf(events + later, id) == Lost
  {
    if later == [] {
      assert events + later == events;
    } else {
      var n := |later| - 1;
      LostStays(events, later[..n], id);
      assert (events + later)[..|events| + n] == events + later[..n];
      UnissuedIff(events + later[..n], id);
    }
  }

  /** Every success that settles an HPKE promise is a packed result. */
  ghost predicate Packed(events: seq<Event>) {
    forall j :: 0 <= j < |events| ==> PackedAt(events, j)
  }

  ghost predicate PackedAt(events: seq<Event>, j: nat)
    requires j < |events|
  {
    match events[j]
    case Receive(Response(id, Success(result))) =>
      StatusOf(events[..j], id) in {Waiting(Encap), Waiting(Decap)} ==> exists r :: Small(r) && result == Pack(r)
    case _ => true
  }

  /** If the worker packs what it sends no promise is lost: the table is what was issued less what was settled. */
  lemma {:induction false} NothingLost(events: seq<Event>, id: nat)
    requires Packed(events)
    ensures StatusOf(events, id) != Lost
    ensures Find(Run(events).pending, id).Some? <==> id < Issued(events) && CallsFor(Run(events).calls, id) == []
  {
    if StatusOf(events, id) == Lost {
      DecidedIff(events, id, Lost);
      var j: nat :| Decides(events, j, id, Lost);
      assert PackedAt(events, j);
      var body := events[j].message.body;
      LosesIff(StatusOf(events[..j], id).kind, body);
    }
    PendingIff(events, id);
  }

  /** A worker error empties the table and rejects every promise that was waiting. */
  lemma {:induction false} BrokenRejects(events: seq<Event>, reason: string, id: nat)
    ensures Run(events + [Broken(reason)]).pending == []
    ensures StatusOf(events, id).Waiting? ==>
              CallsFor(Run(events + [Broken(reason)]).calls, id) == [Rejected(reason)]
  {
    assert (events + [Broken(reason)])[..|events|] == events;
    ClientAgrees(events + [Broken(reason)], id);
  }
}
