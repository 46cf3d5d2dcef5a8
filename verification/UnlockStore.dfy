/** The daemon's store of unlocked sessions, pruned when it is asked. */
module UnlockStore {
  import opened Basics

  datatype SessionKey = SessionKey(apiUrl: string, userId: string, dataKeyFingerprint: string)

  datatype StoredSession = StoredSession(dataKey: string, expiresAt: u64)

  datatype UnlockStatus = UnlockStatus(unlocked: bool, sessionKey: Option<SessionKey>, expiresAt: Option<u64>)

  datatype Request =
    | Put(sessionKey: SessionKey, dataKey: string, expiresAt: u64)
    | Get(sessionKey: SessionKey)
    | Status(which: Option<SessionKey>)
    | Delete(sessionKey: SessionKey)
    | Shutdown

  datatype Response = Stored | Deleted | DataKey(dataKey: Option<string>) | StatusIs(status: UnlockStatus) | Bye

  type Sessions = map<SessionKey, StoredSession>

  /** The sessions that have not expired. */
  function Live(sessions: Sessions, now: int): (r: Sessions)
    ensures forall k :: k in r <==> k in sessions && sessions[k].expiresAt > now
    ensures forall k :: k in r ==> r[k] == sessions[k]
  {
    map k | k in sessions && sessions[k].expiresAt > now :: sessions[k]
  }

  function BuildStatus(sessionKey: Option<SessionKey>, expiresAt: Option<u64>): UnlockStatus {
    UnlockStatus(expiresAt.Some?, sessionKey, expiresAt)
  }

  /** The responses allowed when exactly these sessions are live; any one of them may be named if none is asked for. */
  ghost predicate Allowed(live: Sessions, request: Request, response: Response) {
    match request
    case Put(_, _, _) => response == Stored
    case Delete(_) => response == Deleted
    case Shutdown => response == Bye
    case Get(k) => response == DataKey(if k in live then Some(live[k].dataKey) else None)
    case Status(Some(k)) =>
      response == StatusIs(BuildStatus(Some(k), if k in live then Some(live[k].expiresAt) else None))
    case Status(None) =>
      if live == map[] then response == StatusIs(BuildStatus(None, None))
      else exists k :: k in live && response == StatusIs(BuildStatus(Some(k), Some(live[k].expiresAt)))
  }

  /** The store as written: everything but a write and a shutdown prunes first. */
  function Pruning(sessions: Sessions, request: Request, now: int): Sessions {
    match request
    case Put(k, dataKey, expiresAt) => sessions[k := StoredSession(dataKey, expiresAt)]
    case Get(_) => Live(sessions, now)
    case Status(_) => Live(sessions, now)
    case Delete(k) => Live(sessions, now) - {k}
    case Shutdown => sessions
  }

  class UnlockStore {
    var sessions: Sessions

    constructor ()
      ensures sessions == map[]
    {
      sessions := map[];
    }

    /** Looks at each session once, in any order, and drops the expired ones. */
    method PruneExpired(now: int)
      modifies this
      ensures forall k :: k in sessions <==> k in old(sessions) && old(sessions)[k].expiresAt > now
      ensures forall k :: k in sessions ==> sessions[k] == old(sessions)[k]
    {
      var unseen := sessions.Keys;
      while unseen != {}
        invariant unseen <= old(sessions).Keys
        invariant forall k :: k in sessions <==>
                                k in old(sessions) && (k in unseen || old(sessions)[k].expiresAt > now)
        invariant forall k :: k in sessions ==> sessions[k] == old(sessions)[k]
      {
        var k :| k in unseen;
        unseen := unseen - {k};
        if sessions[k].expiresAt <= now {
          sessions := sessions - {k};
        }
      }
    }

    method StatusOf(which: Option<SessionKey>, now: int) returns (status: UnlockStatus)
      modifies this
      ensures sessions == Live(old(sessions), now)
      ensures Allowed(Live(old(sessions), now), Status(which), StatusIs(status))
    {
      PruneExpired(now);
      match which {
        case Some(k) =>
          status := BuildStatus(Some(k), if k in sessions then Some(sessions[k].expiresAt) else None);
        case None =>
          if sessions == map[] {
            status := BuildStatus(None, None);
          } else {
            NotEmpty(sessions);
            var k :| k in sessions;
            status := BuildStatus(Some(k), Some(sessions[k].expiresAt));
          }
      }
    }

    method HandleRequest(request: Request, now: int) returns (response: Response)
      modifies this
      ensures sessions == Pruning(old(sessions), request, now)
      ensures Allowed(Live(old(sessions), now), request, response)
    {
      match request {
        case Put(k, dataKey, expiresAt) =>
          sessions := sessions[k := StoredSession(dataKey, expiresAt)];
          response := Stored;
        case Get(k) =>
          PruneExpired(now);
          response := DataKey(if k in sessions then Some(sessions[k].dataKey) else None);
        case Status(which) =>
          var status := StatusOf(which, now);
          response := StatusIs(status);
        case Delete(k) =>
          PruneExpired(now);
          sessions := sessions - {k};
          response := Deleted;
        case Shutdown =>
          response := Bye;
      }
    }
  }

  lemma {:induction false} NotEmpty(sessions: Sessions)
    requires sessions != map[]
    ensures exists k :: k in sessions
  {
  }

  // ---------- the store that never prunes ----------

  datatype Timed = Timed(at: int, request: Request)

  /** The reference: a map of everything written, in which only deletions remove. */
  function Written(run: seq<Timed>): Sessions {
    if run == [] then map[]
    else
      var before := Written(run[..|run| - 1]);
      match run[|run| - 1].request
      case Put(k, dataKey, expiresAt) => before[k := StoredSession(dataKey, expiresAt)]
      case Delete(k) => before - {k}
      case _ => before
  }

  function Pruned(run: seq<Timed>): Sessions {
    if run == [] then map[]
    else Pruning(Pruned(run[..|run| - 1]), run[|run| - 1].request, run[|run| - 1].at)
  }

  predicate Prunes(request: Request) {
    request.Get? || request.Status? || request.Delete?
  }

  /** The number of requests up to and including the last write of `k`. */
  function LastPut(run: seq<Timed>, k: SessionKey): (n: nat)
    ensures n <= |run|
  {
    if run == [] then 0
    else
      var last := run[|run| - 1].request;
      if last.Put? && last.sessionKey == k then |run| else LastPut(run[..|run| - 1], k)
  }

  /** Every prune since the last write of `k` read a clock before its expiry. */
  predicate Survives(run: seq<Timed>, k: SessionKey)
    requires k in Written(run)
  {
    forall i :: LastPut(run, k) <= i < |run| && Prunes(run[i].request) ==> run[i].at < Written(run)[k].expiresAt
  }

  /** What the store holds after any run, whatever its clock did: of all that was written, what survives. */
  lemma {:induction false} PrunedExact(run: seq<Timed>, k: SessionKey)
    ensures k in Pruned(run) <==> k in Written(run) && Survives(run, k)
    ensures k in Pruned(run) ==> Pruned(run)[k] == Written(run)[k]
  {
    if run != [] {
      PrunedExact(run[..|run| - 1], k);
      if k in Written(run) {
        SurvivesStep(run, k);
      }
    }
  }

  lemma {:induction false} SurvivesStep(run: seq<Timed>, k: SessionKey)
    requires run != [] && k in Written(run)
    ensures var front, last := run[..|run| - 1], run[|run| - 1];
            Survives(run, k) <==>
            || (last.request.Put? && last.request.sessionKey == k)
            || (&& k in Written(front) && Survives(front, k)
                && (Prunes(last.request) ==> last.at < Written(front)[k].expiresAt))
  {
    var n := |run| - 1;
    var front, last := run[..n], run[n];
    if !(last.request.Put? && last.request.sessionKey == k) {
      assert k in Written(front) && Written(front)[k] == Written(run)[k];
      assert LastPut(run, k) == LastPut(front, k) <= n;
      assert forall i :: 0 <= i < n ==> front[i] == run[i];
      if Survives(front, k) && (Prunes(last.request) ==> last.at < Written(front)[k].expiresAt) {
        forall i | LastPut(run, k) <= i < |run| && Prunes(run[i].request)
          ensures run[i].at < Written(run)[k].expiresAt
        {
          assert i < n ==> front[i] == run[i];
        }
      }
    }
  }

  /**
   Pruning is invisible exactly when every session that was written and has not expired by now
   survives: no request that prunes read a clock past its expiry after it was written.
   */
  lemma {:induction false} SameLiveIff(run: seq<Timed>, now: int)
    ensures Live(Pruned(run), now) == Live(Written(run), now) <==>
            forall k :: k in Written(run) && Written(run)[k].expiresAt > now ==> Survives(run, k)
  {
    if Live(Pruned(run), now) == Live(Written(run), now) {
      forall k | k in Written(run) && Written(run)[k].expiresAt > now ensures Survives(run, k) {
        assert k in Live(Pruned(run), now);
        PrunedExact(run, k);
      }
    }
    if forall k :: k in Written(run) && Written(run)[k].expiresAt > now ==> Survives(run, k) {
      AllSurvive(run, now);
    }
  }

  lemma {:induction false} AllSurvive(run: seq<Timed>, now: int)
    requires forall k :: k in Written(run) && Written(run)[k].expiresAt > now ==> Survives(run, k)
    ensures Live(Pruned(run), now) == Live(Written(run), now)
  {
    forall k
      ensures k in Live(Pruned(run), now) <==> k in Live(Written(run), now)
      ensures k in Live(Pruned(run), now) ==> Live(Pruned(run), now)[k] == Live(Written(run), now)[k]
    {
      PrunedExact(run, k);
    }
  }

  ghost predicate Monotone(run: seq<Timed>, now: int) {
    && (forall i, j :: 0 <= i < j < |run| ==> run[i].at <= run[j].at)
    && (forall i :: 0 <= i < |run| ==> run[i].at <= now)
  }

  /** With a clock that does not go back, pruning is invisible: both stores have the same live sessions. */
  lemma {:induction false} SameLive(run: seq<Timed>, now: int)
    requires Monotone(run, now)
    ensures Live(Pruned(run), now) == Live(Written(run), now)
  {
    SameLiveIff(run, now);
  }

  /** So every request is answered as by the store that never prunes and only looks at the expiry. */
  lemma {:induction false} SameAnswers(run: seq<Timed>, request: Request, now: int, response: Response)
    requires Monotone(run, now)
    ensures Allowed(Live(Pruned(run), now), request, response) <==> Allowed(Live(Written(run), now), request, response)
  {
    SameLive(run, now);
  }

  /** Asked for no session in particular, it reports unlocked exactly when something written is still live. */
  lemma {:induction false} UnlockedIff(run: seq<Timed>, now: int, status: UnlockStatus)
    requires Monotone(run, now) && Allowed(Live(Pruned(run), now), Status(None), StatusIs(status))
    ensures status.unlocked <==> exists k :: k in Written(run) && Written(run)[k].expiresAt > now
  {
    SameLive(run, now);
    if k :| k in Written(run) && Written(run)[k].expiresAt > now {
      assert k in Live(Written(run), now);
    }
    if status.unlocked {
      NotEmpty(Live(Written(run), now));
    }
  }

  /** A clock that goes back from past the expiry: the session dropped then does not come back. */
  lemma {:induction false} ClockBackDiffers(k: SessionKey)
    ensures var run := [Timed(0, Put(k, "", 1)), Timed(2, Get(k))];
            Live(Pruned(run), 0) == map[] && k in Live(Written(run), 0)
  {
    var run := [Timed(0, Put(k, "", 1)), Timed(2, Get(k))];
    assert run[..1] == [Timed(0, Put(k, "", 1))];
    assert run[..1][..0] == [];
    assert Written(run[..1]) == map[k := StoredSession("", 1)] == Pruned(run[..1]);
  }

  // ---------- what a request is told ----------

  /** Request `i` is the last that writes or deletes the session, and it writes this. */
  ghost predicate LastWrite(run: seq<Timed>, i: nat, k: SessionKey, dataKey: string, expiresAt: u64) {
    && i < |run| && run[i].request == Put(k, dataKey, expiresAt)
    && forall q :: i < q < |run| ==> Leaves(run[q].request, k)
  }

  predicate Leaves(request: Request, k: SessionKey) {
    match request
    case Put(other, _, _) => other != k
    case Delete(other) => other != k
    case _ => true
  }

  lemma {:induction false} LastWriteStep(
    run: seq<Timed>, last: Timed, i: nat, k: SessionKey, dataKey: string, expiresAt: u64)
    ensures LastWrite(run + [last], i, k, dataKey, expiresAt)
       <==> || (i == |run| && last.request == Put(k, dataKey, expiresAt))
            || (LastWrite(run, i, k, dataKey, expiresAt) && Leaves(last.request, k))
  {
    var g := run + [last];
    assert g[|run|] == last;
    assert forall q :: 0 <= q < |run| ==> g[q] == run[q];
    if LastWrite(g, i, k, dataKey, expiresAt) && i < |run| {
      assert g[i] == run[i];
    }
  }

  /** What the reference has of a session is what its last write says, unless it was deleted since. */
  lemma {:induction false} WrittenIff(run: seq<Timed>, k: SessionKey, dataKey: string, expiresAt: u64)
    ensures k in Written(run) && Written(run)[k] == StoredSession(dataKey, expiresAt)
       <==> exists i: nat :: LastWrite(run, i, k, dataKey, expiresAt)
  {
    if run != [] {
      var rest, last := run[..|run| - 1], run[|run| - 1];
      assert run == rest + [last];
      WrittenIff(rest, k, dataKey, expiresAt);
      forall i: nat
        ensures LastWrite(run, i, k, dataKey, expiresAt)
           <==> || (i == |rest| && last.request == Put(k, dataKey, expiresAt))
                || (LastWrite(rest, i, k, dataKey, expiresAt) && Leaves(last.request, k))
      {
        LastWriteStep(rest, last, i, k, dataKey, expiresAt);
      }
      if last.request == Put(k, dataKey, expiresAt) {
        assert LastWrite(run, |rest|, k, dataKey, expiresAt);
      }
    }
  }

  lemma {:induction false} LastPutIs(run: seq<Timed>, i: nat, k: SessionKey, dataKey: string, expiresAt: u64)
    requires LastWrite(run, i, k, dataKey, expiresAt)
    ensures LastPut(run, k) == i + 1
  {
    if i < |run| - 1 {
      var n := |run| - 1;
      assert run == run[..n] + [run[n]];
      assert Leaves(run[n].request, k);
      LastWriteStep(run[..n], run[n], i, k, dataKey, expiresAt);
      LastPutIs(run[..n], i, k, dataKey, expiresAt);
    }
  }

  /** The write has not expired, and no prune since then saw it expired. */
  ghost predicate Fresh(run: seq<Timed>, i: nat, expiresAt: u64, now: int) {
    now < expiresAt && forall q :: i < q < |run| && Prunes(run[q].request) ==> run[q].at < expiresAt
  }

  /**
   After any run, whatever its clock did, a session's key is handed out exactly if its last write, not deleted since,
   has not expired and did not look expired to any request that pruned since; and it is the key of that write.
   */
  lemma {:induction false} GetExact(run: seq<Timed>, now: int, k: SessionKey, dataKey: string)
    ensures Allowed(Live(Pruned(run), now), Get(k), DataKey(Some(dataKey)))
       <==> exists i: nat, e: u64 :: LastWrite(run, i, k, dataKey, e) && Fresh(run, i, e, now)
  {
    PrunedExact(run, k);
    if k in Live(Pruned(run), now) && Pruned(run)[k].dataKey == dataKey {
      var e := Pruned(run)[k].expiresAt;
      WrittenIff(run, k, dataKey, e);
      var i: nat :| LastWrite(run, i, k, dataKey, e);
      LastPutIs(run, i, k, dataKey, e);
      assert Fresh(run, i, e, now);
    }
    if i: nat, e: u64 :| LastWrite(run, i, k, dataKey, e) && Fresh(run, i, e, now) {
      WrittenIff(run, k, dataKey, e);
      LastPutIs(run, i, k, dataKey, e);
      assert Survives(run, k);
    }
  }
}
