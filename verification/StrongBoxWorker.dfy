/** The worker: requests that wait, decryptions for a digest, and then use a shared cache, in any order. */
module StrongBoxWorker {
  import opened Basics
  import opened Buffers
  import opened CacheTrace
  import opened CacheAnswers
  import PlaintextCache
  import opened DecryptCacheKey
  import opened HpkeResult
  import opened WorkerMessages

  /**
   The digest and the operations of the WASM library, of which only the hypotheses below are used.
   The last argument of `encrypt` and `encap` is the randomness they draw.
   */
  datatype Services = Services(
    digest: Bytes -> CacheKey,
    encrypt: (Bytes, Bytes, Bytes, Bytes) -> Result<Bytes, string>,
    decrypt: (Bytes, Bytes, Bytes) -> Result<Bytes, string>,
    encap: (Bytes, Bytes, Bytes, Bytes, Bytes) -> Result<HpkeResult, string>,
    decap: (Bytes, Bytes, Bytes, Bytes, Bytes) -> Result<HpkeResult, string>)
  {
    function FieldsOf(r: Decryption): seq<Bytes> {
      [CACHE_KEY_DOMAIN, r.key, r.context, r.payload]
    }

    function KeyOf(r: Decryption): CacheKey {
      digest(Frame(FieldsOf(r)))
    }

    function Decrypted(r: Decryption): Result<Bytes, string> {
      decrypt(r.key, r.context, r.payload)
    }

    /** What a worker without a cache would answer: only the fields' lengths could stop it earlier. */
    ghost function Uncached(r: Decryption): Result<Bytes, string> {
      if !Framable(FieldsOf(r)) then Err(FIELD_TOO_LARGE) else Decrypted(r)
    }

    function Hpke(r: Request, random: Bytes): Result<HpkeResult, string>
      requires r.HpkeEncap? || r.HpkeDecap?
    {
      match r
      case HpkeEncap(publicKey, info, aad, plaintext) => encap(publicKey, info, aad, plaintext, random)
      case HpkeDecap(privateKey, info, aad, enc, ciphertext) => decap(privateKey, info, aad, enc, ciphertext)
    }

    /** The result of a request that does not go through the cache. */
    function Direct(r: Request, random: Bytes): Result<Bytes, string>
      requires !r.Decrypt?
    {
      if r.Encrypt? then encrypt(r.key, r.context, r.plaintext, random)
      else
        match Hpke(r, random)
        case Ok(parts) => Ok(Pack(parts))
        case Err(e) => Err(e)
    }

    /** What a worker without a cache would answer to any request. */
    ghost function Performed(r: Request, random: Bytes): Result<Bytes, string> {
      if r.Decrypt? then Uncached(r.decryption) else Direct(r, random)
    }

    /** The digest tells the framed inputs of these requests apart. */
    ghost predicate CollisionFree(requests: set<Decryption>) {
      forall a, b :: a in requests && b in requests ==>
        digest(Frame(FieldsOf(a))) == digest(Frame(FieldsOf(b))) ==> Frame(FieldsOf(a)) == Frame(FieldsOf(b))
    }

    /** A cached value is the plaintext of every request that has its key. */
    ghost predicate Sound(requests: set<Decryption>, e: Entry) {
      forall r :: r in requests && Framable(FieldsOf(r)) && KeyOf(r) == e.key ==> Decrypted(r) == Ok(e.value)
    }

    ghost predicate AllSound(requests: set<Decryption>, es: seq<Entry>) {
      forall e :: e in es ==> Sound(requests, e)
    }

    /** Equal cache keys mean equal requests. */
    lemma {:induction false} SameRequest(requests: set<Decryption>, a: Decryption, b: Decryption)
      requires CollisionFree(requests) && a in requests && b in requests
      requires Framable(FieldsOf(a)) && Framable(FieldsOf(b)) && KeyOf(a) == KeyOf(b)
      ensures a == b
    {
      FrameInjective(FieldsOf(a), FieldsOf(b));
      assert FieldsOf(a)[1] == a.key && FieldsOf(a)[2] == a.context && FieldsOf(a)[3] == a.payload;
      assert FieldsOf(b)[1] == b.key && FieldsOf(b)[2] == b.context && FieldsOf(b)[3] == b.payload;
    }

    lemma {:induction false} DecryptedSound(requests: set<Decryption>, r: Decryption, value: Bytes, expiresAt: int)
      requires CollisionFree(requests) && r in requests && Framable(FieldsOf(r)) && Decrypted(r) == Ok(value)
      ensures Sound(requests, Entry(KeyOf(r), value, expiresAt))
    {
      forall a | a in requests && Framable(FieldsOf(a)) && KeyOf(a) == KeyOf(r) ensures Decrypted(a) == Ok(value) {
        SameRequest(requests, a, r);
      }
    }
  }

  // ---------- one request ----------

  /** The answer to a request whose digest is known, and the cache after it. */
  ghost function Answer(s: Services, es: seq<Entry>, max: nat, ttl: int, r: Decryption, now: int, later: int)
    : (Result<Bytes, string>, seq<Entry>)
  {
    if !Framable(s.FieldsOf(r)) then (Err(FIELD_TOO_LARGE), es)
    else
      var rest := AfterGet(es, ttl, now, s.KeyOf(r));
      match Hit(es, now, s.KeyOf(r))
      case Some(value) => (Ok(value), rest)
      case None =>
        match s.Decrypted(r)
        case Ok(value) => (Ok(value), AfterSet(rest, max, ttl, later, s.KeyOf(r), value))
        case Err(e) => (Err(e), rest)
  }

  /** With a sound cache the answer is the uncached one, and the cache stays sound. */
  lemma {:induction false} AnswerSound(
    s: Services, requests: set<Decryption>, es: seq<Entry>, max: nat, ttl: int, r: Decryption, now: int, later: int)
    requires s.CollisionFree(requests) && s.AllSound(requests, es) && r in requests
    ensures Answer(s, es, max, ttl, r, now, later).0 == s.Uncached(r)
    ensures s.AllSound(requests, Answer(s, es, max, ttl, r, now, later).1)
  {
    if Framable(s.FieldsOf(r)) {
      var key := s.KeyOf(r);
      if Hit(es, now, key).Some? {
        HitSound(s, requests, es, ttl, r, now);
      } else if s.Decrypted(r).Ok? {
        s.DecryptedSound(requests, r, s.Decrypted(r).value, later + ttl);
      }
    }
  }

  lemma {:induction false} HitSound(
    s: Services, requests: set<Decryption>, es: seq<Entry>, ttl: int, r: Decryption, now: int)
    requires s.AllSound(requests, es) && r in requests && Framable(s.FieldsOf(r))
    requires Hit(es, now, s.KeyOf(r)).Some?
    ensures s.Decrypted(r) == Ok(Hit(es, now, s.KeyOf(r)).value)
    ensures s.AllSound(requests, AfterGet(es, ttl, now, s.KeyOf(r)))
  {
    var e := Lookup(es, s.KeyOf(r)).value;
    assert s.Sound(requests, e);
    assert s.Sound(requests, Entry(e.key, e.value, now + ttl));
  }

  /**
   A plaintext that was answered is remembered: for the time to live after it was looked up or stored the same
   request finds it, and an error is not remembered.
   */
  lemma {:induction false} AnswerRemembered(
    s: Services, es: seq<Entry>, max: nat, ttl: int, r: Decryption, now: int, later: int, next: int)
    requires Distinct(es) && |es| <= max && max >= 1 && Framable(s.FieldsOf(r))
    ensures var (reply, after) := Answer(s, es, max, ttl, r, now, later);
            var at := if Hit(es, now, s.KeyOf(r)).Some? then now else later;
            Hit(after, next, s.KeyOf(r)) == if reply.Ok? && next < at + ttl then Some(reply.value) else None
  {
    var key := s.KeyOf(r);
    GetBounded(es, max, ttl, now, key);
    if Hit(es, now, key).Some? {
      JustAnswered(es, ttl, now, next, key);
    } else if s.Decrypted(r).Ok? {
      JustSet(AfterGet(es, ttl, now, key), max, ttl, later, next, key, s.Decrypted(r).value);
    }
  }

  class Worker {
    const services: Services
    const cache: PlaintextCache.PlaintextCache

    constructor (services: Services)
      ensures this.services == services && fresh(cache) && cache.Contents() == []
      ensures cache.maxEntries == 64 && cache.ttlMs == 120_000
    {
      this.services := services;
      cache := new PlaintextCache.PlaintextCache(64, 120_000);
    }

    /** What runs before the digest is awaited: framing, which fails if a field is too long. */
    method ComputeCacheKey(r: Decryption) returns (cacheKey: Result<CacheKey, string>)
      ensures cacheKey == if Framable(services.FieldsOf(r)) then Ok(services.KeyOf(r)) else Err(FIELD_TOO_LARGE)
      ensures cache.Contents() == old(cache.Contents()) && cache.Buffers() == old(cache.Buffers())
    {
      assert forall b: object :: b in PlaintextCache.BuffersOf(cache.slots) ==> allocated(b);
      var framed := FrameCacheKeyFields(services.FieldsOf(r));
      if framed.Err? {
        return Err(framed.error);
      }
      cacheKey := Ok(services.digest(framed.value[..]));
      ClearBytes(framed.value);
    }

    /**
     What runs without interruption once the digest is known.  The buffer of the reply is the
     receiver's from then on, and none of the cache's values.
     */
    method FinishDecrypt(r: Decryption, cacheKey: CacheKey, now: int, later: int)
      returns (reply: Result<array<byte>, string>)
      requires Framable(services.FieldsOf(r)) && cacheKey == services.KeyOf(r)
      modifies cache
      ensures var answer := Answer(services, old(cache.Contents()), cache.maxEntries, cache.ttlMs, r, now, later);
              && cache.Contents() == answer.1
              && match answer.0
                 case Err(e) => reply == Err(e)
                 case Ok(value) => reply.Ok? && fresh(reply.value) && reply.value[..] == value
      ensures reply.Ok? ==> reply.value !in cache.Buffers()
      ensures forall b :: b in cache.Buffers() ==> b in old(cache.Buffers()) || fresh(b)
    {
      var cachedValue := cache.Get(cacheKey, now);
      if cachedValue.Some? {
        return Ok(cachedValue.value);
      }
      var plaintext := services.decrypt(r.key, r.context, r.payload);
      if plaintext.Err? {
        return Err(plaintext.error);
      }
      var buffer := NewBytes(plaintext.value);
      cache.Set(cacheKey, buffer, later);
      reply := Ok(buffer);
    }

    /** What a request is answered once its turn has come, as an array that the message hands over. */
    method HandleRequest(r: Request, random: Bytes, now: int, later: int) returns (reply: Result<array<byte>, string>)
      modifies cache
      ensures var answer :=
                Reply(services, old(cache.Contents()), cache.maxEntries, cache.ttlMs, r, random, now, later);
              && cache.Contents() == answer.1
              && match answer.0
                 case Err(e) => reply == Err(e)
                 case Ok(value) => reply.Ok? && fresh(reply.value) && reply.value[..] == value
      ensures reply.Ok? ==> reply.value !in cache.Buffers()
    {
      match r {
        case Decrypt(decryption) =>
          var cacheKey := ComputeCacheKey(decryption);
          if cacheKey.Err? {
            return Err(cacheKey.error);
          }
          reply := FinishDecrypt(decryption, cacheKey.value, now, later);
        case _ =>
          reply := Execute(r, random);
      }
    }

    /** A request that the cache plays no part in. */
    method Execute(r: Request, random: Bytes) returns (reply: Result<array<byte>, string>)
      requires !r.Decrypt?
      ensures match services.Direct(r, random)
              case Err(e) => reply == Err(e)
              case Ok(value) => reply.Ok? && fresh(reply.value) && reply.value[..] == value
      ensures cache.Contents() == old(cache.Contents()) && cache.Buffers() == old(cache.Buffers())
      ensures reply.Ok? ==> reply.value !in cache.Buffers()
    {
      assert forall b: object :: b in PlaintextCache.BuffersOf(cache.slots) ==> allocated(b);
      var result := services.Direct(r, random);
      if result.Err? {
        return Err(result.error);
      }
      var buffer := NewBytes(result.value);
      reply := Ok(buffer);
    }

    /**
     Answers a request and transfers the buffer of the reply: the receiver has the bytes, and the
     worker is left with a buffer of no use, here one that is cleared.  The cache does not notice.
     */
    method PostReply(sent: Sent, random: Bytes, now: int, later: int) returns (body: Body)
      modifies cache
      ensures var answer :=
                Reply(services, old(cache.Contents()), cache.maxEntries, cache.ttlMs, sent.request, random, now, later);
              cache.Contents() == answer.1 && body == BodyOf(answer.0)
    {
      var reply := HandleRequest(sent.request, random, now, later);
      match reply {
        case Err(e) =>
          body := Failure(e);
        case Ok(buffer) =>
          body := Success(buffer[..]);
          Transfer(buffer);
      }
    }

    method Transfer(buffer: array<byte>)
      requires buffer !in cache.Buffers()
      modifies buffer
      ensures cache.Contents() == old(cache.Contents()) && ZeroBytes(buffer)
    {
      assert forall b :: b in cache.Buffers() ==> b != buffer;
      ClearBytes(buffer);
    }
  }

  function BodyOf(reply: Result<Bytes, string>): Body {
    match reply
    case Ok(value) => Success(value)
    case Err(e) => Failure(e)
  }

  // ---------- every interleaving ----------

  /** The answer to any request, and the cache after it. */
  ghost function Reply(
    s: Services, es: seq<Entry>, max: nat, ttl: int, r: Request, random: Bytes, now: int, later: int)
    : (Result<Bytes, string>, seq<Entry>)
  {
    if r.Decrypt? then Answer(s, es, max, ttl, r.decryption, now, later) else (s.Direct(r, random), es)
  }

  /** A request arrives, or the one at a position among those waiting goes on. */
  datatype Event = Arrive(sent: Sent) | Resume(position: nat, random: Bytes, now: int, later: int)

  datatype Answered = Answered(sent: Sent, random: Bytes, reply: Result<Bytes, string>)

  datatype State = State(waiting: seq<Sent>, entries: seq<Entry>, answered: seq<Answered>)

  ghost function Step(s: Services, max: nat, ttl: int, state: State, event: Event): State {
    match event
    case Arrive(sent) => state.(waiting := state.waiting + [sent])
    case Resume(k, random, now, later) =>
      if k >= |state.waiting| then state
      else
        var sent := state.waiting[k];
        var (reply, entries) := Reply(s, state.entries, max, ttl, sent.request, random, now, later);
        State(state.waiting[..k] + state.waiting[k + 1..], entries, state.answered + [Answered(sent, random, reply)])
  }

  ghost function RunEvents(s: Services, max: nat, ttl: int, events: seq<Event>): State {
    if events == [] then State([], [], [])
    else Step(s, max, ttl, RunEvents(s, max, ttl, events[..|events| - 1]), events[|events| - 1])
  }

  /** The replies of the worker itself, each buffer being given away at once, are those of the interleaving model. */
  method Serve(worker: Worker, events: seq<Event>) returns (posted: seq<Message>)
    requires worker.cache.Contents() == []
    modifies worker.cache
    ensures var state := RunEvents(worker.services, worker.cache.maxEntries, worker.cache.ttlMs, events);
            posted == Posted(state.answered) && worker.cache.Contents() == state.entries
  {
    var waiting: seq<Sent> := [];
    posted := [];
    ghost var state := State([], [], []);
    for n := 0 to |events|
      invariant state == RunEvents(worker.services, worker.cache.maxEntries, worker.cache.ttlMs, events[..n])
      invariant waiting == state.waiting && posted == Posted(state.answered)
      invariant worker.cache.Contents() == state.entries
    {
      assert events[..n + 1][..n] == events[..n];
      match events[n] {
        case Arrive(sent) =>
          waiting := waiting + [sent];
        case Resume(k, random, now, later) =>
          if k < |waiting| {
            var body := worker.PostReply(waiting[k], random, now, later);
            PostedSnoc(state.answered, Answered(waiting[k], random,
              Reply(worker.services, state.entries, worker.cache.maxEntries, worker.cache.ttlMs,
                    waiting[k].request, random, now, later).0));
            posted := posted + [Response(waiting[k].id, body)];
            waiting := waiting[..k] + waiting[k + 1..];
          }
      }
      state := Step(worker.services, worker.cache.maxEntries, worker.cache.ttlMs, state, events[n]);
    }
    assert events[..|events|] == events;
  }

  /** The messages that carry the replies. */
  function Posted(answered: seq<Answered>): (r: seq<Message>)
    ensures |r| == |answered|
  {
    if answered == [] then []
    else
      var last := answered[|answered| - 1];
      Posted(answered[..|answered| - 1]) + [Response(last.sent.id, BodyOf(last.reply))]
  }

  lemma {:induction false} PostedSnoc(answered: seq<Answered>, a: Answered)
    ensures Posted(answered + [a]) == Posted(answered) + [Response(a.sent.id, BodyOf(a.reply))]
  {
    assert (answered + [a])[..|answered|] == answered;
  }

  ghost function Arrived(events: seq<Event>): seq<Sent> {
    if events == [] then []
    else
      var rest := Arrived(events[..|events| - 1]);
      if events[|events| - 1].Arrive? then rest + [events[|events| - 1].sent] else rest
  }

  ghost function SentOf(answered: seq<Answered>): seq<Sent> {
    if answered == [] then [] else SentOf(answered[..|answered| - 1]) + [answered[|answered| - 1].sent]
  }

  /** The request is no decryption, or one of these. */
  ghost predicate Among(sent: Sent, requests: set<Decryption>) {
    sent.request.Decrypt? ==> sent.request.decryption in requests
  }

  ghost predicate Invariant(s: Services, requests: set<Decryption>, state: State) {
    && s.AllSound(requests, state.entries)
    && (forall w :: w in state.waiting ==> Among(w, requests))
    && (forall a :: a in state.answered ==> a.reply == s.Performed(a.sent.request, a.random))
  }

  lemma {:induction false} StepInvariant(
    s: Services, requests: set<Decryption>, max: nat, ttl: int, state: State, event: Event)
    requires s.CollisionFree(requests) && Invariant(s, requests, state)
    requires event.Arrive? ==> Among(event.sent, requests)
    ensures Invariant(s, requests, Step(s, max, ttl, state, event))
  {
    if event.Resume? && event.position < |state.waiting| {
      var sent := state.waiting[event.position];
      assert Among(sent, requests);
      if sent.request.Decrypt? {
        AnswerSound(s, requests, state.entries, max, ttl, sent.request.decryption, event.now, event.later);
      }
    }
  }

  /**
   However the requests interleave, and whatever the clock reads, every reply is the one a worker
   without a cache would give.
   */
  lemma {:induction false} EveryReplyUncached(
    s: Services, requests: set<Decryption>, max: nat, ttl: int, events: seq<Event>)
    requires s.CollisionFree(requests) && forall w :: w in Arrived(events) ==> Among(w, requests)
    ensures Invariant(s, requests, RunEvents(s, max, ttl, events))
  {
    if events != [] {
      var rest, event := events[..|events| - 1], events[|events| - 1];
      assert forall w :: w in Arrived(rest) ==> w in Arrived(events);
      EveryReplyUncached(s, requests, max, ttl, rest);
      StepInvariant(s, requests, max, ttl, RunEvents(s, max, ttl, rest), event);
    }
  }

  /** Every request that arrived is either waiting or has been answered, once. */
  lemma {:induction false} AnsweredOnce(s: Services, max: nat, ttl: int, events: seq<Event>)
    ensures var state := RunEvents(s, max, ttl, events);
            multiset(Arrived(events)) == multiset(state.waiting) + multiset(SentOf(state.answered))
  {
    if events != [] {
      var rest, event := events[..|events| - 1], events[|events| - 1];
      AnsweredOnce(s, max, ttl, rest);
      AccountedStep(s, max, ttl, RunEvents(s, max, ttl, rest), event);
    }
  }

  ghost function Accounted(state: State): multiset<Sent> {
    multiset(state.waiting) + multiset(SentOf(state.answered))
  }

  lemma {:induction false} AccountedStep(s: Services, max: nat, ttl: int, state: State, event: Event)
    ensures Accounted(Step(s, max, ttl, state, event))
         == Accounted(state) + if event.Arrive? then multiset{event.sent} else multiset{}
  {
    match event {
      case Arrive(sent) => Arriving(state, sent);
      case Resume(k, _, _, _) =>
        if k < |state.waiting| {
          Answering(state, k, ResumeAnswers(s, max, ttl, state, event));
        }
    }
  }

  lemma {:induction false} Arriving(state: State, sent: Sent)
    ensures Accounted(state.(waiting := state.waiting + [sent])) == Accounted(state) + multiset{sent}
  {
  }

  /** A resumption moves one request from those waiting to those answered. */
  ghost function ResumeAnswers(s: Services, max: nat, ttl: int, state: State, event: Event): (a: Answered)
    requires event.Resume? && event.position < |state.waiting|
    ensures a.sent == state.waiting[event.position]
    ensures Step(s, max, ttl, state, event).waiting
         == state.waiting[..event.position] + state.waiting[event.position + 1..]
    ensures Step(s, max, ttl, state, event).answered == state.answered + [a]
  {
    Step(s, max, ttl, state, event).answered[|state.answered|]
  }

  lemma {:induction false} Answering(state: State, k: nat, a: Answered)
    requires k < |state.waiting| && a.sent == state.waiting[k]
    ensures multiset(state.waiting[..k] + state.waiting[k + 1..]) + multiset(SentOf(state.answered + [a]))
         == Accounted(state)
  {
    Taken(state.waiting, k);
    SentSnoc(state.answered, a);
  }

  lemma {:induction false} SentSnoc(answered: seq<Answered>, a: Answered)
    ensures multiset(SentOf(answered + [a])) == multiset(SentOf(answered)) + multiset{a.sent}
  {
    assert (answered + [a])[..|answered|] == answered;
  }

  lemma {:induction false} Taken<T>(waiting: seq<T>, k: nat)
    requires k < |waiting|
    ensures multiset(waiting) == multiset(waiting[..k] + waiting[k + 1..]) + multiset{waiting[k]}
  {
    assert waiting == waiting[..k] + [waiting[k]] + waiting[k + 1..];
  }
}
