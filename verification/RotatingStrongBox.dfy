/** The rotating StrongBox. */
module RotatingStrongBox {
  // Keys are derived per period of time, and a lazily refreshed cache holds the keys that may still
  // decrypt.  Times are whole seconds; the numeric types are those of the program, so every
  // operation is also shown not to overflow.

  import opened Basics
  import opened LittleEndian
  import opened RotationSchedule
  import opened StaticStrongBox

  type Timestamp = u64

  datatype Period = Period(firstValidAt: Timestamp, invalidAfter: Timestamp)

  lemma {:induction false} MulMonotone(a: nat, b: nat, c: nat)
    requires a <= b
    ensures a * c <= b * c
  {
  }

  /** The period before, unless that would lie before the epoch. */
  function BackBy(period: Period, n: u16): (r: Option<Period>)
    requires period.firstValidAt <= period.invalidAfter
    requires (period.invalidAfter - period.firstValidAt + 1) * n < 0x1_0000_0000_0000_0000
  {
    var length := period.invalidAfter - period.firstValidAt + 1;
    MulMonotone(0, length, n);
    var d: u64 := length * n;
    if period.firstValidAt < d then None
    else Some(Period(period.firstValidAt - d, period.invalidAfter - d))
  }

  /** A static box whose only key, for either direction, is `key`, and the last second it may be used in. */
  datatype CachedBox = CachedBox(invalidAfter: Timestamp, key: Key)
  {
    predicate IsExpired(now: Timestamp) { now > invalidAfter }

    function StrongBox(suite: Suite): StaticBox { Box(suite, key, [key]) }
  }

  /** The key a new box starts with; it expires at second 0. */
  const ZERO_KEY: Key := Zeros(32)

  /** The first second of period `p`. */
  function Start(lifespan: nat, p: nat): nat {
    if p == 0 then 0 else Start(lifespan, p - 1) + lifespan
  }

  /** The last second of period `p`. */
  function End(lifespan: nat, p: nat): int { Start(lifespan, p) + lifespan - 1 }

  lemma {:induction false} StartIs(lifespan: nat, p: nat)
    ensures Start(lifespan, p) == p * lifespan
  {
    if p > 0 {
      StartIs(lifespan, p - 1);
    }
  }

  lemma {:induction false} PeriodOf(lifespan: nat, t: nat)
    requires lifespan >= 1
    ensures t - t % lifespan == Start(lifespan, PeriodNo(lifespan, t))
    ensures Start(lifespan, PeriodNo(lifespan, t)) <= t <= End(lifespan, PeriodNo(lifespan, t))
  {
    PeriodNoIs(lifespan, t);
    StartIs(lifespan, t / lifespan);
  }

  lemma {:induction false} StartMonotone(lifespan: nat, p: nat, q: nat)
    requires p <= q
    ensures Start(lifespan, p) <= Start(lifespan, q)
  {
    if p < q {
      StartMonotone(lifespan, p, q - 1);
    }
  }

  /** Periods do not overlap: a second lies after the end of period `e` exactly when its own period does. */
  lemma {:induction false} AfterEnd(lifespan: nat, t: nat, e: nat)
    requires lifespan >= 1
    ensures t <= End(lifespan, e) <==> PeriodNo(lifespan, t) <= e
    ensures Start(lifespan, PeriodNo(lifespan, t)) <= End(lifespan, e) <==> PeriodNo(lifespan, t) <= e
  {
    var k := PeriodNo(lifespan, t);
    PeriodOf(lifespan, t);
    if k <= e {
      StartMonotone(lifespan, k, e);
    } else {
      StartMonotone(lifespan, e + 1, k);
    }
  }

  /** The keys, the primitives and the two durations a box is made with. */
  datatype Config = Config(
    suite: Suite,
    derive: (Key, nat, nat) -> Key, // root key, first and last second of the period
    lifespan: u64,
    backtrack: u16,
    rootEncryptionKey: Key,
    rootDecryptionKeys: seq<Key>)
  {
    function KeyAt(root: Key, p: nat): Key
      requires lifespan >= 1
    {
      derive(root, Start(lifespan, p), End(lifespan, p))
    }

    function IdAt(root: Key, p: nat): KeyId
      requires lifespan >= 1
    {
      suite.keyId(KeyAt(root, p))
    }

    /**
     What the program asks of its callers, a positive lifespan and some decryption key, and the one
     cryptographic hypothesis: keys of different root keys or of different periods that end within
     the range of the clock have different ids.
     */
    ghost predicate Sound() {
      && lifespan >= 1
      && rootDecryptionKeys != []
      && (forall r, p: nat, s, q: nat ::
            r in rootDecryptionKeys && s in rootDecryptionKeys && Timed(p) && Timed(q) ==> Distinct(r, p, s, q))
    }

    /** The period's last second is a clock reading. */
    predicate Timed(p: nat) {
      End(lifespan, p) < 0x1_0000_0000_0000_0000
    }

    /** The AEAD tells the associated data of two contexts apart. */
    ghost predicate Separates(id: KeyId, nonce: Nonce, context: Bytes, other: Bytes) {
      suite.Binding({Aad(context, id, nonce), Aad(other, id, nonce)})
    }

    predicate Distinct(r: Key, p: nat, s: Key, q: nat)
      requires lifespan >= 1
    {
      IdAt(r, p) == IdAt(s, q) ==> r == s && p == q
    }

    /** The clock readings for which no timestamp computed from them overflows. */
    predicate InRange(t: Timestamp) {
      t + Start(lifespan, backtrack + 1) < 0x1_0000_0000_0000_0000
    }

    /** The entry of a root key for period `p`, usable up to the end of period `e`. */
    predicate HasEntry(cache: map<KeyId, CachedBox>, r: Key, p: nat, e: nat)
      requires lifespan >= 1
    {
      && IdAt(r, p) in cache
      && cache[IdAt(r, p)].key == KeyAt(r, p)
      && cache[IdAt(r, p)].invalidAfter == End(lifespan, e)
    }

    ghost predicate Accounted(live: Cached, id: KeyId)
      requires lifespan >= 1
    {
      exists p, r :: p in live && r in rootDecryptionKeys && id == IdAt(r, p)
    }

    /** The cache holds exactly the keys of all roots for the periods of `live`, with their expiries. */
    ghost predicate Holds(cache: map<KeyId, CachedBox>, live: Cached)
      requires lifespan >= 1
    {
      && (forall p :: p in live ==> Timed(p))
      && (forall p, r :: p in live && r in rootDecryptionKeys ==> HasEntry(cache, r, p, live[p]))
      && (forall id {:trigger Accounted(live, id)} :: id in cache ==> Accounted(live, id))
    }

    /** By second `clock` the encryptor is the initial one or that of some period that has begun. */
    ghost predicate EncryptorFor(encryptor: CachedBox, clock: nat)
      requires lifespan >= 1
    {
      || encryptor == CachedBox(0, ZERO_KEY)
      || (clock >= 1 && exists q: nat :: Start(lifespan, q) <= clock && IsEncryptor(encryptor, q))
    }

    lemma {:induction false} EncryptorStays(encryptor: CachedBox, was: nat, now: nat)
      requires lifespan >= 1 && was <= now && EncryptorFor(encryptor, was)
      ensures EncryptorFor(encryptor, now)
    {
      if encryptor != CachedBox(0, ZERO_KEY) {
        var q: nat :| Start(lifespan, q) <= was && IsEncryptor(encryptor, q);
        assert Start(lifespan, q) <= now && IsEncryptor(encryptor, q);
      }
    }

    predicate IsEncryptor(encryptor: CachedBox, q: nat)
      requires lifespan >= 1
    {
      encryptor.invalidAfter == End(lifespan, q) && encryptor.key == KeyAt(rootEncryptionKey, q)
    }

    /** The cache with the keys of the given roots for period `p` added. */
    function WithKeys(
      cache: map<KeyId, CachedBox>, roots: seq<Key>, p: nat, invalidAfter: Timestamp): (r: map<KeyId, CachedBox>)
      requires lifespan >= 1
    {
      if roots == [] then cache
      else
        var last := roots[|roots| - 1];
        WithKeys(cache, roots[..|roots| - 1], p, invalidAfter)
          [IdAt(last, p) := CachedBox(invalidAfter, KeyAt(last, p))]
    }

    ghost predicate IsIdOf(id: KeyId, roots: seq<Key>, p: nat)
      requires lifespan >= 1
    {
      exists r :: r in roots && id == IdAt(r, p)
    }

    lemma {:induction false} PeriodOfId(r: Key, p: nat, s: Key, q: nat)
      requires Sound() && r in rootDecryptionKeys && s in rootDecryptionKeys && IdAt(r, p) == IdAt(s, q)
      requires Timed(p) && Timed(q)
      ensures r == s && p == q
    {
      assert Distinct(r, p, s, q);
    }

    lemma {:induction false} WithKeysExact(
      cache: map<KeyId, CachedBox>, roots: seq<Key>, p: nat, invalidAfter: Timestamp)
      requires Sound() && Timed(p) && forall r :: r in roots ==> r in rootDecryptionKeys
      ensures var c := WithKeys(cache, roots, p, invalidAfter);
              && (forall r :: r in roots ==> IdAt(r, p) in c && c[IdAt(r, p)] == CachedBox(invalidAfter, KeyAt(r, p)))
              && (forall id {:trigger IsIdOf(id, roots, p)} :: !IsIdOf(id, roots, p) ==>
                    (id in c <==> id in cache) && (id in cache ==> c[id] == cache[id]))
    {
      if roots != [] {
        var front, last := roots[..|roots| - 1], roots[|roots| - 1];
        WithKeysExact(cache, front, p, invalidAfter);
        assert forall r :: r in roots <==> r in front || r == last;
        var c := WithKeys(cache, roots, p, invalidAfter);
        forall r | r in roots
          ensures IdAt(r, p) in c && c[IdAt(r, p)] == CachedBox(invalidAfter, KeyAt(r, p))
        {
          if IdAt(r, p) == IdAt(last, p) {
            PeriodOfId(r, p, last, p);
          }
        }
        forall id | !IsIdOf(id, roots, p)
          ensures (id in c <==> id in cache) && (id in cache ==> c[id] == cache[id])
        {
          assert !IsIdOf(id, front, p);
          assert id != IdAt(last, p);
        }
      }
    }

    /** All root keys of a period enter the cache together, without touching the keys of other periods. */
    lemma {:induction false} WithKeysHolds(
      cache: map<KeyId, CachedBox>, live: Cached, p: nat, e: nat, invalidAfter: Timestamp)
      requires Sound() && Holds(cache, live) && p !in live && Timed(p)
      requires invalidAfter == End(lifespan, e)
      ensures Holds(WithKeys(cache, rootDecryptionKeys, p, invalidAfter), live[p := e])
    {
      var roots := rootDecryptionKeys;
      WithKeysExact(cache, roots, p, invalidAfter);
      var c, m := WithKeys(cache, roots, p, invalidAfter), live[p := e];
      forall q, r | q in m && r in roots
        ensures HasEntry(c, r, q, m[q])
      {
        if q != p {
          assert HasEntry(cache, r, q, live[q]);
          OtherPeriod(r, q, p);
        }
      }
      forall id | id in c
        ensures Accounted(m, id)
      {
        if IsIdOf(id, roots, p) {
          var r :| r in roots && id == IdAt(r, p);
          assert p in m;
        } else {
          assert Accounted(live, id);
          var q, r :| q in live && r in roots && id == IdAt(r, q);
          assert q in m;
        }
      }
    }

    lemma {:induction false} OtherPeriod(r: Key, q: nat, p: nat)
      requires Sound() && r in rootDecryptionKeys && q != p && Timed(q) && Timed(p)
      ensures !IsIdOf(IdAt(r, q), rootDecryptionKeys, p)
    {
      if s :| s in rootDecryptionKeys && IdAt(r, q) == IdAt(s, p) {
        PeriodOfId(r, q, s, p);
      }
    }

    /** The keys of a period are all cached or none is, so that probing for one of them suffices. */
    lemma {:induction false} CachedTogether(cache: map<KeyId, CachedBox>, live: Cached, p: nat)
      requires Sound() && Holds(cache, live) && Timed(p)
      ensures forall r :: r in rootDecryptionKeys ==> (IdAt(r, p) in cache <==> p in live)
    {
      forall r | r in rootDecryptionKeys
        ensures IdAt(r, p) in cache <==> p in live
      {
        assert p in live ==> HasEntry(cache, r, p, live[p]);
        if IdAt(r, p) in cache {
          assert Accounted(live, IdAt(r, p));
          var q, s :| q in live && s in rootDecryptionKeys && IdAt(r, p) == IdAt(s, q);
          PeriodOfId(r, p, s, q);
        }
      }
    }

    lemma {:induction false} PurgeEntry(cache: map<KeyId, CachedBox>, r: Key, p: nat, e: nat, t: nat)
      requires lifespan >= 1 && HasEntry(cache, r, p, e)
      ensures var rest := Unexpired(cache, Start(lifespan, PeriodNo(lifespan, t)));
              && (IdAt(r, p) in rest <==> PeriodNo(lifespan, t) <= e)
              && (PeriodNo(lifespan, t) <= e ==> HasEntry(rest, r, p, e))
    {
      AfterEnd(lifespan, t, e);
    }

    /** All root keys of a period leave the cache together, when the period's expiry has passed. */
    lemma {:induction false} PurgeHolds(cache: map<KeyId, CachedBox>, live: Cached, t: nat)
      requires lifespan >= 1 && Holds(cache, live)
      ensures Holds(Unexpired(cache, Start(lifespan, PeriodNo(lifespan, t))), Purge(live, PeriodNo(lifespan, t)))
    {
      var k := PeriodNo(lifespan, t);
      var start := Start(lifespan, k);
      forall p, r | p in live && r in rootDecryptionKeys
        ensures IdAt(r, p) in Unexpired(cache, start) <==> p in Purge(live, k)
        ensures p in Purge(live, k) ==> HasEntry(Unexpired(cache, start), r, p, live[p])
      {
        PurgeEntry(cache, r, p, live[p], t);
      }
      forall id | id in Unexpired(cache, start)
        ensures Accounted(Purge(live, k), id)
      {
        assert Accounted(live, id);
        var q, r :| q in live && r in rootDecryptionKeys && id == IdAt(r, q);
        assert q in Purge(live, k);
      }
    }
  }

  /** The entries that expire at `t` or later. */
  function Unexpired(cache: map<KeyId, CachedBox>, t: nat): map<KeyId, CachedBox> {
    map id | id in cache && cache[id].invalidAfter >= t :: cache[id]
  }

  /** The expiry index of a cache: one pair of expiry and key id for each entry. */
  function IndexOf(cache: map<KeyId, CachedBox>): set<(Timestamp, KeyId)> {
    set id | id in cache :: (cache[id].invalidAfter, id)
  }

  lemma {:induction false} FillStep(m: Cached, k: nat, b: nat, backtrack: nat)
    requires b <= backtrack && b <= k
    ensures Fill(m, k, b, backtrack)
            == if k - b in m then m else Fill(m[k - b := k - b + (backtrack - b)], k, b + 1, backtrack)
    ensures k == b && k - b !in m ==>
              Fill(m, k, b, backtrack) == m[k - b := k - b + (backtrack - b)]
  {
  }

  /** The periods of the refreshes up to second `now`, in order. */
  predicate RefreshedUntil(h: seq<nat>, lifespan: nat, now: nat)
    requires lifespan >= 1
  {
    Monotone(h) && forall i :: 0 <= i < |h| ==> h[i] <= PeriodNo(lifespan, now)
  }

  lemma {:induction false} StartSum(lifespan: nat, p: nat, n: nat)
    ensures Start(lifespan, p + n) == Start(lifespan, p) + Start(lifespan, n)
  {
    if n > 0 {
      StartSum(lifespan, p, n - 1);
    }
  }

  /** A period that has begun and not ended is the current one. */
  lemma {:induction false} CurrentPeriod(lifespan: nat, t: nat, q: nat)
    requires lifespan >= 1
    requires Start(lifespan, q) <= t <= End(lifespan, q)
    ensures q == PeriodNo(lifespan, t)
  {
    AfterEnd(lifespan, t, q);
    PeriodOf(lifespan, t);
    if PeriodNo(lifespan, t) < q {
      StartMonotone(lifespan, PeriodNo(lifespan, t) + 1, q);
    }
  }

  lemma {:induction false} IndexInsert(cache: map<KeyId, CachedBox>, id: KeyId, box: CachedBox)
    requires id in cache ==> cache[id].invalidAfter == box.invalidAfter
    ensures IndexOf(cache[id := box]) == IndexOf(cache) + {(box.invalidAfter, id)}
  {
    var c := cache[id := box];
    forall e | e in IndexOf(cache) + {(box.invalidAfter, id)} ensures e in IndexOf(c) {
      assert e.1 in c && c[e.1].invalidAfter == e.0;
    }
  }

  lemma {:induction false} IndexRemove(cache: map<KeyId, CachedBox>, id: KeyId, t: nat)
    requires id in cache && cache[id].invalidAfter < t
    ensures IndexOf(cache - {id}) == IndexOf(cache) - {(cache[id].invalidAfter, id)}
    ensures Unexpired(cache - {id}, t) == Unexpired(cache, t)
    ensures |cache - {id}| < |cache|
  {
    var c := cache - {id};
    assert cache.Keys == c.Keys + {id};
    forall e | e in IndexOf(cache) - {(cache[id].invalidAfter, id)} ensures e in IndexOf(c) {
      assert e.1 in c && c[e.1].invalidAfter == e.0;
    }
  }

  lemma {:induction false} AllUnexpired(cache: map<KeyId, CachedBox>, t: nat)
    requires forall e :: e in IndexOf(cache) ==> e.0 >= t
    ensures Unexpired(cache, t) == cache
  {
    forall id | id in cache ensures cache[id].invalidAfter >= t {
      assert (cache[id].invalidAfter, id) in IndexOf(cache);
    }
  }

  /** Byte strings in dictionary order. */
  predicate AtMost(a: Bytes, b: Bytes) {
    a == [] || (b != [] && (a[0] < b[0] || (a[0] == b[0] && AtMost(a[1..], b[1..]))))
  }

  lemma {:induction false} AtMostTotal(a: Bytes, b: Bytes)
    ensures AtMost(a, b) || AtMost(b, a)
  {
    if a != [] && b != [] && a[0] == b[0] {
      AtMostTotal(a[1..], b[1..]);
    }
  }

  lemma {:induction false} AtMostTransitive(a: Bytes, b: Bytes, c: Bytes)
    requires AtMost(a, b) && AtMost(b, c)
    ensures AtMost(a, c)
  {
    if a != [] && a[0] == b[0] && b[0] == c[0] {
      AtMostTransitive(a[1..], b[1..], c[1..]);
    }
  }

  /** The order of the expiry index: by expiry, then by key id. */
  predicate Before(e: (Timestamp, KeyId), f: (Timestamp, KeyId)) {
    e.0 < f.0 || (e.0 == f.0 && AtMost(e.1, f.1))
  }

  lemma {:induction false} BeforeOrder(e: (Timestamp, KeyId), f: (Timestamp, KeyId), g: (Timestamp, KeyId))
    ensures Before(e, f) || Before(f, e)
    ensures Before(e, f) && Before(f, g) ==> Before(e, g)
  {
    AtMostTotal(e.1, f.1);
    if AtMost(e.1, f.1) && AtMost(f.1, g.1) {
      AtMostTransitive(e.1, f.1, g.1);
    }
  }

  /** Some pair of a finite set comes first. */
  lemma {:induction false} Least(s: set<(Timestamp, KeyId)>) returns (e: (Timestamp, KeyId))
    requires s != {}
    ensures e in s && forall f :: f in s ==> Before(e, f)
  {
    var x :| x in s;
    var rest := s - {x};
    e := x;
    if rest != {} {
      var y := Least(rest);
      e := if Before(y, x) then y else x;
      BeforeOrder(x, y, y);
      forall f | f in rest ensures Before(e, f) {
        BeforeOrder(e, y, f);
      }
    }
    BeforeOrder(e, x, x);
    BeforeOrder(x, x, x);
    forall f | f in s ensures Before(e, f) {
      assert f == x || f in rest;
    }
  }

  /** The state shared by all clones of a rotating box, changed only under its write lock. */
  class KeyCache {
    const config: Config
    var currentEncryptor: CachedBox
    var decryptorCache: map<KeyId, CachedBox>
    var decryptorValidities: set<(Timestamp, KeyId)>

    /** The periods in which the cache was refreshed so far. */
    ghost var history: seq<nat>

    /** The latest clock reading so far. */
    ghost var clock: Timestamp

    ghost predicate Valid()
      reads this
    {
      && config.Sound()
      && RefreshedUntil(history, config.lifespan, clock)
      && config.Holds(decryptorCache, CacheAfter(history, config.backtrack))
      && decryptorValidities == IndexOf(decryptorCache)
      && config.EncryptorFor(currentEncryptor, clock)
    }

    constructor (config: Config)
      requires config.Sound()
      ensures Valid()
      ensures this.config == config && history == [] && clock == 0
    {
      this.config := config;
      currentEncryptor := CachedBox(0, ZERO_KEY);
      decryptorCache := map[];
      decryptorValidities := {};
      history := [];
      clock := 0;
    }

    /** The period of a clock reading. */
    method PeriodAt(at: Timestamp) returns (r: Period)
      requires config.lifespan >= 1 && config.InRange(at)
      ensures r.firstValidAt == Start(config.lifespan, PeriodNo(config.lifespan, at))
      ensures r.invalidAfter == End(config.lifespan, PeriodNo(config.lifespan, at))
    {
      PeriodOf(config.lifespan, at);
      var firstValidAt := at - at % config.lifespan;
      r := Period(firstValidAt, firstValidAt + config.lifespan - 1);
    }

    /**
     The box to encrypt with at second `t`: that of the current period.  Only at second 0 the
     initial all-zero key has not expired yet.
     */
    method CurrentEncryptor(t: Timestamp) returns (box: CachedBox)
      requires Valid() && clock <= t && config.InRange(t)
      modifies this`currentEncryptor, this`clock
      ensures Valid() && clock == t
      ensures box.key
              == if t == 0 then ZERO_KEY else config.KeyAt(config.rootEncryptionKey, PeriodNo(config.lifespan, t))
    {
      var k := PeriodNo(config.lifespan, t);
      PeriodNoMonotone(config.lifespan, clock, t);
      PeriodOf(config.lifespan, t);
      if !currentEncryptor.IsExpired(t) && currentEncryptor != CachedBox(0, ZERO_KEY) {
        ghost var q: nat :| Start(config.lifespan, q) <= clock && config.IsEncryptor(currentEncryptor, q);
        CurrentPeriod(config.lifespan, t, q);
      }
      clock := t;
      if currentEncryptor.IsExpired(t) {
        var currentPeriod := PeriodAt(t);
        var key := config.derive(config.rootEncryptionKey, currentPeriod.firstValidAt, currentPeriod.invalidAfter);
        currentEncryptor := CachedBox(currentPeriod.invalidAfter, key);
        assert config.IsEncryptor(currentEncryptor, k);
      }
      box := currentEncryptor;
    }

    /** The cached key that expires first, and of several the one with the least id. */
    method OldestCachedDecryptor() returns (r: Option<(Timestamp, KeyId)>)
      ensures r.None? <==> decryptorValidities == {}
      ensures r.Some? ==> r.value in decryptorValidities && forall f :: f in decryptorValidities ==> Before(r.value, f)
    {
      if decryptorValidities == {} {
        return None;
      }
      ghost var least := Least(decryptorValidities);
      var e :| e in decryptorValidities && forall f :: f in decryptorValidities ==> Before(e, f);
      r := Some(e);
    }

    /** Removes exactly the entries that expire before `t`, keeping map and index in step. */
    method PurgeEntriesBefore(t: Timestamp)
      requires decryptorValidities == IndexOf(decryptorCache)
      modifies this`decryptorCache, this`decryptorValidities
      ensures decryptorCache == Unexpired(old(decryptorCache), t)
      ensures decryptorValidities == IndexOf(decryptorCache)
    {
      while true
        invariant decryptorValidities == IndexOf(decryptorCache)
        invariant Unexpired(decryptorCache, t) == Unexpired(old(decryptorCache), t)
        decreases |decryptorCache|
      {
        var oldestEntry := OldestCachedDecryptor();
        match oldestEntry {
          case Some((expiry, keyId)) =>
            if expiry < t {
              IndexRemove(decryptorCache, keyId, t);
              decryptorValidities := decryptorValidities - {(expiry, keyId)};
              decryptorCache := decryptorCache - {keyId};
            } else {
              AllUnexpired(decryptorCache, t);
              return;
            }
          case None =>
            AllUnexpired(decryptorCache, t);
            return;
        }
      }
    }

    /** Adds the keys of all roots for one period, with one expiry. */
    method AddKeys(period: Period, invalidAfter: Timestamp, ghost p: nat)
      requires config.lifespan >= 1
      requires period.firstValidAt == Start(config.lifespan, p) && period.invalidAfter == End(config.lifespan, p)
      requires forall r :: r in config.rootDecryptionKeys ==> config.IdAt(r, p) !in decryptorCache
      requires decryptorValidities == IndexOf(decryptorCache)
      modifies this`decryptorCache, this`decryptorValidities
      ensures decryptorCache == config.WithKeys(old(decryptorCache), config.rootDecryptionKeys, p, invalidAfter)
      ensures decryptorValidities == IndexOf(decryptorCache)
    {
      var roots := config.rootDecryptionKeys;
      for i := 0 to |roots|
        invariant decryptorCache == config.WithKeys(old(decryptorCache), roots[..i], p, invalidAfter)
        invariant decryptorValidities == IndexOf(decryptorCache)
        invariant forall r :: r in roots && config.IdAt(r, p) in decryptorCache ==>
                                decryptorCache[config.IdAt(r, p)].invalidAfter == invalidAfter
      {
        var key := config.derive(roots[i], period.firstValidAt, period.invalidAfter);
        var keyId := config.suite.keyId(key);
        assert keyId == config.IdAt(roots[i], p);
        assert roots[..i + 1][..i] == roots[..i];
        IndexInsert(decryptorCache, keyId, CachedBox(invalidAfter, key));
        decryptorCache := decryptorCache[keyId := CachedBox(invalidAfter, key)];
        decryptorValidities := decryptorValidities + {(invalidAfter, keyId)};
      }
      assert roots[..|roots|] == roots;
    }

    /**
     Brings the cache up to date.  Keys are derived backwards from the current period, and the
     first cached one ends the work; the cache is nevertheless that of a full refresh history.
     */
    method RefreshCache(asAt: Timestamp)
      requires Valid() && clock <= asAt && config.InRange(asAt)
      modifies this`decryptorCache, this`decryptorValidities, this`history, this`clock
      ensures Valid() && clock == asAt
      ensures history == old(history) + [PeriodNo(config.lifespan, asAt)]
    {
      ghost var k: nat := PeriodNo(config.lifespan, asAt);
      var currentPeriod := PeriodAt(asAt);
      config.PurgeHolds(decryptorCache, CacheAfter(history, config.backtrack), asAt);
      PurgeEntriesBefore(currentPeriod.firstValidAt);
      CachePeriodsBackFrom(asAt, currentPeriod, Purge(CacheAfter(history, config.backtrack), k));
      config.EncryptorStays(currentEncryptor, clock, asAt);
      HistoryExtended(history, config.lifespan, config.backtrack, clock, asAt);
      clock := asAt;
      history := history + [k];
    }

    /** The loop of a refresh: from the current period back to the first cached one. */
    method CachePeriodsBackFrom(asAt: Timestamp, period: Period, ghost before: Cached)
      requires config.Sound() && config.InRange(asAt)
      requires period.firstValidAt == Start(config.lifespan, PeriodNo(config.lifespan, asAt))
      requires period.invalidAfter == End(config.lifespan, PeriodNo(config.lifespan, asAt))
      requires config.Holds(decryptorCache, before)
      requires decryptorValidities == IndexOf(decryptorCache)
      modifies this`decryptorCache, this`decryptorValidities
      ensures config.Holds(decryptorCache, Fill(before, PeriodNo(config.lifespan, asAt), 0, config.backtrack))
      ensures decryptorValidities == IndexOf(decryptorCache)
    {
      ghost var k: nat := PeriodNo(config.lifespan, asAt);
      ghost var p: nat := k;
      ghost var live: Cached := before;
      var currentPeriod := period;
      var b: nat := 0;
      while b <= config.backtrack
        invariant b <= config.backtrack + 1
        invariant b <= config.backtrack ==>
                    && p == k - b
                    && currentPeriod.firstValidAt == Start(config.lifespan, p)
                    && currentPeriod.invalidAfter == End(config.lifespan, p)
        invariant config.Holds(decryptorCache, live)
        invariant decryptorValidities == IndexOf(decryptorCache)
        invariant Fill(live, k, b, config.backtrack) == Fill(before, k, 0, config.backtrack)
      {
        FillStep(live, k, b, config.backtrack);
        var found := CachePeriod(asAt, currentPeriod, b, p, live);
        if found {
          return;
        }
        live := live[p := p + (config.backtrack - b)];
        PreviousPeriod(config.lifespan, p, currentPeriod);
        match BackBy(currentPeriod, 1) {
          case Some(previousPeriod) => currentPeriod := previousPeriod;
          case None => return;
        }
        b := b + 1;
        p := p - 1;
      }
    }

    /** One turn of that loop: unless the first root's key is cached, caches the keys of all roots. */
    method CachePeriod(asAt: Timestamp, period: Period, b: nat, ghost p: nat, ghost live: Cached) returns (found: bool)
      requires config.Sound() && config.InRange(asAt)
      requires b <= config.backtrack && p == PeriodNo(config.lifespan, asAt) - b
      requires period.firstValidAt == Start(config.lifespan, p)
      requires period.invalidAfter == End(config.lifespan, p)
      requires config.Holds(decryptorCache, live)
      requires decryptorValidities == IndexOf(decryptorCache)
      modifies this`decryptorCache, this`decryptorValidities
      ensures found <==> p in live
      ensures config.Holds(decryptorCache, if found then live else live[p := p + (config.backtrack - b)])
      ensures decryptorValidities == IndexOf(decryptorCache)
    {
      var trialKeyId := config.suite.keyId(
        config.derive(config.rootDecryptionKeys[0], period.firstValidAt, period.invalidAfter));
      assert trialKeyId == config.IdAt(config.rootDecryptionKeys[0], p);
      TimedBack(config, asAt, b);
      config.CachedTogether(decryptorCache, live, p);
      if trialKeyId in decryptorCache {
        return true;
      }
      ExpiryInRange(config, asAt, b);
      var invalidAfter: Timestamp := period.invalidAfter + (config.backtrack - b) * config.lifespan;
      config.WithKeysHolds(decryptorCache, live, p, p + (config.backtrack - b), invalidAfter);
      AddKeys(period, invalidAfter, p);
      found := false;
    }

    /** Looks a ciphertext's key up under the read lock. */
    method TryDecryptWith(c: Ciphertext, context: Bytes, now: Timestamp) returns (res: Result<Bytes, Error>)
      requires Valid() && clock <= now
      ensures forall r, p :: r in config.rootDecryptionKeys && config.Timed(p) && c.keyId == config.IdAt(r, p) ==>
                res == Attempt(config, history, r, p, now, c, context)
      ensures !Known(config, c.keyId) ==> res == Err(Decryption)
    {
      ghost var live := CacheAfter(history, config.backtrack);
      PeriodNoMonotone(config.lifespan, clock, now);
      forall r, p | r in config.rootDecryptionKeys && config.Timed(p) && c.keyId == config.IdAt(r, p)
        ensures && (c.keyId in decryptorCache <==> p in live)
                && (p in live ==> config.HasEntry(decryptorCache, r, p, live[p]))
                && (p in live ==> (now <= End(config.lifespan, live[p]) <==> PeriodNo(config.lifespan, now) <= live[p]))
                && (p in live && PeriodNo(config.lifespan, now) <= live[p]
                    <==> InWindow(history, p, PeriodNo(config.lifespan, now), config.backtrack))
      {
        config.CachedTogether(decryptorCache, live, p);
        LiveExact(history, p, PeriodNo(config.lifespan, now), config.backtrack);
        if p in live {
          AfterEnd(config.lifespan, now, live[p]);
        }
      }
      if c.keyId in decryptorCache {
        assert config.Accounted(live, c.keyId);
        var cached := decryptorCache[c.keyId];
        if cached.IsExpired(now) {
          res := Err(Decryption);
        } else {
          res := Decrypt(config.suite, cached.StrongBox(config.suite), c, context);
        }
      } else {
        res := Err(Decryption);
      }
    }
  }

  /** Whether an id is that of a key derived from one of the decryption roots for some period. */
  ghost predicate Known(config: Config, id: KeyId)
    requires config.lifespan >= 1
  {
    exists r, p: nat :: r in config.rootDecryptionKeys && config.Timed(p) && id == config.IdAt(r, p)
  }

  /** Decryption under the key of root `r` for period `p`. */
  function DecryptAt(config: Config, r: Key, p: nat, c: Ciphertext, context: Bytes): Result<Bytes, Error>
    requires config.lifespan >= 1
  {
    Decrypt(config.suite, CachedBox(0, config.KeyAt(r, p)).StrongBox(config.suite), c, context)
  }

  /** What a try at second `now` gives, after refreshes in the periods `h`, for a key of root `r` and period `p`. */
  function Attempt(
    config: Config, h: seq<nat>, r: Key, p: nat, now: nat, c: Ciphertext, context: Bytes): Result<Bytes, Error>
    requires config.lifespan >= 1
  {
    if InWindow(h, p, PeriodNo(config.lifespan, now), config.backtrack) then DecryptAt(config, r, p, c, context)
    else Err(Decryption)
  }

  /**
   What a try answers to any ciphertext that carries the id of a key, whoever made it: the message if the
   key is cached and unexpired and the AEAD opens the body to that message, and an error otherwise.
   */
  lemma {:induction false} AttemptExact(
    config: Config, h: seq<nat>, r: Key, p: nat, now: nat, c: Ciphertext, context: Bytes)
    requires config.lifespan >= 1 && c.keyId == config.IdAt(r, p)
    ensures var message := config.suite.open(config.KeyAt(r, p), c.nonce, context + c.keyId + c.nonce, c.body);
            Attempt(config, h, r, p, now, c, context)
            == if InWindow(h, p, PeriodNo(config.lifespan, now), config.backtrack) && message.Some?
               then Ok(message.value) else Err(Decryption)
  {
    KeyMapExact(config.suite, [config.KeyAt(r, p)]);
  }

  /** Under another context than it was sealed with a ciphertext is refused, in every period and after any refreshes. */
  lemma {:induction false} WrongContext(
    config: Config, h: seq<nat>, r: Key, p: nat, now: nat,
    nonce: Nonce, plaintext: Bytes, context: Bytes, other: Bytes)
    requires config.lifespan >= 1 && other != context
    requires config.Separates(config.IdAt(r, p), nonce, context, other)
    ensures var box := CachedBox(0, config.KeyAt(r, p)).StrongBox(config.suite);
            Attempt(config, h, r, p, now, Encrypt(config.suite, box, nonce, plaintext, context), other)
            == Err(Decryption)
  {
    var id := config.IdAt(r, p);
    var box := CachedBox(0, config.KeyAt(r, p)).StrongBox(config.suite);
    var c := Encrypt(config.suite, box, nonce, plaintext, context);
    if Aad(context, id, nonce) == Aad(other, id, nonce) {
      AadInjective(context, id, nonce, other, id, nonce);
    }
    AttemptExact(config, h, r, p, now, c, other);
  }

  lemma {:induction false} HistoryExtended(h: seq<nat>, lifespan: nat, backtrack: nat, was: nat, now: nat)
    requires lifespan >= 1 && was <= now && RefreshedUntil(h, lifespan, was)
    ensures RefreshedUntil(h, lifespan, now)
    ensures var g := h + [PeriodNo(lifespan, now)];
            && RefreshedUntil(g, lifespan, now)
            && CacheAfter(g, backtrack) == Refresh(CacheAfter(h, backtrack), PeriodNo(lifespan, now), backtrack)
  {
    PeriodNoMonotone(lifespan, was, now);
    assert (h + [PeriodNo(lifespan, now)])[..|h|] == h;
  }

  /** The expiry computed for the key `b` periods back, without overflow. */
  lemma {:induction false} ExpiryInRange(config: Config, t: Timestamp, b: nat)
    requires config.lifespan >= 1 && config.InRange(t)
    requires b <= config.backtrack && b <= PeriodNo(config.lifespan, t)
    ensures var p := PeriodNo(config.lifespan, t) - b;
            var n := config.backtrack - b;
            && 0 <= n * config.lifespan
            && End(config.lifespan, p) + n * config.lifespan == End(config.lifespan, p + n) < 0x1_0000_0000_0000_0000
  {
    var n := config.backtrack - b;
    StartIs(config.lifespan, n);
    ExpiryBound(config.lifespan, config.backtrack, t, b);
  }

  lemma {:induction false} ExpiryBound(lifespan: nat, backtrack: nat, t: nat, b: nat)
    requires lifespan >= 1 && b <= backtrack && b <= PeriodNo(lifespan, t)
    ensures var p := PeriodNo(lifespan, t) - b;
            End(lifespan, p) + Start(lifespan, backtrack - b) == End(lifespan, p + (backtrack - b))
              < t + Start(lifespan, backtrack + 1)
  {
    var k := PeriodNo(lifespan, t);
    PeriodOf(lifespan, t);
    StartSum(lifespan, k - b, backtrack - b);
    StartMonotone(lifespan, k - b + (backtrack - b), k + backtrack);
    StartSum(lifespan, k, backtrack);
  }

  /** The periods a refresh looks at end within the range of the clock. */
  lemma {:induction false} TimedBack(config: Config, t: Timestamp, b: nat)
    requires config.lifespan >= 1 && config.InRange(t) && b <= PeriodNo(config.lifespan, t)
    ensures config.Timed(PeriodNo(config.lifespan, t) - b)
  {
    var k := PeriodNo(config.lifespan, t);
    PeriodOf(config.lifespan, t);
    StartMonotone(config.lifespan, k - b, k);
    StartMonotone(config.lifespan, 1, config.backtrack + 1);
  }

  /** Stepping back one period from period `p` gives period `p - 1`, or nothing at the epoch. */
  lemma {:induction false} PreviousPeriod(lifespan: nat, p: nat, period: Period)
    requires lifespan >= 1
    requires period.firstValidAt == Start(lifespan, p) && period.invalidAfter == End(lifespan, p)
    requires lifespan < 0x1_0000_0000_0000_0000
    ensures period.firstValidAt <= period.invalidAfter
    ensures (period.invalidAfter - period.firstValidAt + 1) * 1 < 0x1_0000_0000_0000_0000
    ensures BackBy(period, 1).None? <==> p == 0
    ensures p > 0 ==> BackBy(period, 1).value.firstValidAt == Start(lifespan, p - 1)
                      && BackBy(period, 1).value.invalidAfter == End(lifespan, p - 1)
  {
    assert (period.invalidAfter - period.firstValidAt + 1) * 1 == lifespan;
  }

  class RotatingBox {
    const keyCache: KeyCache

    constructor (config: Config)
      requires config.Sound()
      ensures keyCache.Valid() && keyCache.config == config
      ensures keyCache.history == [] && keyCache.clock == 0 && fresh(keyCache)
    {
      keyCache := new KeyCache(config);
    }

    /** Encrypts under the key of the current period of the root encryption key. */
    method Encrypt(plaintext: Bytes, context: Bytes, nonce: Nonce, now: Timestamp) returns (c: Ciphertext)
      requires keyCache.Valid() && keyCache.clock <= now && keyCache.config.InRange(now)
      modifies keyCache
      ensures keyCache.Valid() && keyCache.clock == now && keyCache.history == old(keyCache.history)
      ensures c == EncryptAt(keyCache.config, now, nonce, plaintext, context)
    {
      var encryptor := keyCache.CurrentEncryptor(now);
      c := StaticStrongBox.Encrypt(
        keyCache.config.suite, encryptor.StrongBox(keyCache.config.suite), nonce, plaintext, context);
    }

    /** One thread's decryption: a try, and on failure a refresh and another try, each under its own lock. */
    method Decrypt(c: Ciphertext, context: Bytes, first: Timestamp, refresh: Timestamp, second: Timestamp)
      returns (res: Result<Bytes, Error>)
      requires keyCache.Valid() && keyCache.config.InRange(refresh)
      requires keyCache.clock <= first <= refresh <= second
      modifies keyCache
      ensures keyCache.Valid() && keyCache.clock <= second
      ensures forall r, p | r in keyCache.config.rootDecryptionKeys && keyCache.config.Timed(p)
                :: c.keyId == keyCache.config.IdAt(r, p) ==>
                var h := old(keyCache.history);
                var tried := Attempt(keyCache.config, h, r, p, first, c, context);
                var h' := h + [PeriodNo(keyCache.config.lifespan, refresh)];
                if tried.Ok? then res == tried && keyCache.history == h
                else res == Attempt(keyCache.config, h', r, p, second, c, context) && keyCache.history == h'
      ensures !Known(keyCache.config, c.keyId) ==> res == Err(Decryption)
    {
      res := keyCache.TryDecryptWith(c, context, first);
      if res.Ok? {
        return;
      }
      keyCache.RefreshCache(refresh);
      res := keyCache.TryDecryptWith(c, context, second);
    }
  }

  /** What encryption at second `now` gives: only at second 0 it uses the initial all-zero key. */
  function EncryptAt(config: Config, now: nat, nonce: Nonce, plaintext: Bytes, context: Bytes): Ciphertext
    requires config.lifespan >= 1
  {
    var key := if now == 0 then ZERO_KEY else config.KeyAt(config.rootEncryptionKey, PeriodNo(config.lifespan, now));
    Encrypt(config.suite, CachedBox(0, key).StrongBox(config.suite), nonce, plaintext, context)
  }

  /** What the section at position `n` of a run gives, as a try of a key of the encryption root and period `p`. */
  function AttemptIn(
    config: Config, run: seq<Section>, n: nat, p: nat, c: Ciphertext, context: Bytes): Result<Bytes, Error>
    requires config.lifespan >= 1 && n < |run|
  {
    Attempt(config, Refreshes(run[..n], config.lifespan), config.rootEncryptionKey, p, run[n].at, c, context)
  }

  /**
   Any threads' locked sections, one after another as the lock orders them: the cache they leave is
   the one that the schedule gives for the refreshes among them.
   */
  method RunSections(cache: KeyCache, run: seq<Section>)
    requires cache.Valid() && cache.history == [] && cache.clock == 0 && Ordered(run)
    requires forall i :: 0 <= i < |run| ==> run[i].at < 0x1_0000_0000_0000_0000 && cache.config.InRange(run[i].at)
    modifies cache
    ensures cache.Valid() && cache.history == Refreshes(run, cache.config.lifespan)
    ensures cache.clock == 0 || exists i :: 0 <= i < |run| && cache.clock == run[i].at
  {
    for n := 0 to |run|
      invariant cache.Valid() && cache.history == Refreshes(run[..n], cache.config.lifespan)
      invariant cache.clock == 0 || exists i :: 0 <= i < n && cache.clock == run[i].at
    {
      assert run[..n + 1][..n] == run[..n];
      match run[n] {
        case Encrypting(at) => var _ := cache.CurrentEncryptor(at);
        case Refreshing(at) => cache.RefreshCache(at);
        case Trying(_) =>
      }
    }
    assert run[..|run|] == run;
  }

  /** A try at position `n` of any run, on the cache that the sections before it left. */
  method TryInRun(cache: KeyCache, run: seq<Section>, n: nat, c: Ciphertext, context: Bytes)
    returns (res: Result<Bytes, Error>)
    requires cache.Valid() && cache.history == [] && cache.clock == 0 && Ordered(run) && n < |run|
    requires forall i :: 0 <= i < |run| ==> run[i].at < 0x1_0000_0000_0000_0000 && cache.config.InRange(run[i].at)
    requires cache.config.rootEncryptionKey in cache.config.rootDecryptionKeys
    modifies cache
    ensures forall p :: cache.config.Timed(p) && c.keyId == cache.config.IdAt(cache.config.rootEncryptionKey, p) ==>
              res == AttemptIn(cache.config, run, n, p, c, context)
  {
    RunSections(cache, run[..n]);
    res := cache.TryDecryptWith(c, context, run[n].at);
  }

  /**
   The promise of the rotating box over every run of locked sections: what was encrypted at
   position `e` is decrypted by the sections `a`, `r`, `c` of any later decryption while twice its
   age is within `backtrack`, and is refused by both tries once its age exceeds `backtrack`.
   */
  lemma {:induction false} RotationTheorem(
    config: Config, run: seq<Section>, e: nat, a: nat, r: nat, c: nat,
    nonce: Nonce, plaintext: Bytes, context: Bytes)
    requires config.lifespan >= 1 && config.suite.Correct()
    requires config.rootEncryptionKey in config.rootDecryptionKeys
    requires Ordered(run) && e < a < r < c < |run| && run[e].at >= 1
    requires run[e].Encrypting? && run[a].Trying? && run[r].Refreshing? && run[c].Trying?
    ensures var p := PeriodNo(config.lifespan, run[e].at);
            var sealed := EncryptAt(config, run[e].at, nonce, plaintext, context);
            && sealed.keyId == config.IdAt(config.rootEncryptionKey, p)
            && (2 * (PeriodNo(config.lifespan, run[c].at) - p) <= config.backtrack ==>
                  AttemptIn(config, run, c, p, sealed, context) == Ok(plaintext))
            && (PeriodNo(config.lifespan, run[a].at) - p > config.backtrack ==>
                  && AttemptIn(config, run, a, p, sealed, context) == Err(Decryption)
                  && AttemptIn(config, run, c, p, sealed, context) == Err(Decryption))
  {
    DecryptWindow(run, config.lifespan, config.backtrack, e, a, r, c);
    var p := PeriodNo(config.lifespan, run[e].at);
    FoundExact(run, config.lifespan, config.backtrack, a, p);
    FoundExact(run, config.lifespan, config.backtrack, c, p);
    SealedOpens(config, config.rootEncryptionKey, p, nonce, plaintext, context);
  }

  /**
   A run that breaks the documented window: with three periods of backtrack, both tries of a
   decryption refuse what was encrypted two periods before.
   */
  lemma {:induction false} DocumentedWindowFails(config: Config, nonce: Nonce, plaintext: Bytes, context: Bytes)
    requires config.lifespan == 1 && config.backtrack == 3
    ensures var run := [Encrypting(10), Trying(12), Refreshing(12), Trying(12)];
            var sealed := EncryptAt(config, 10, nonce, plaintext, context);
            && Ordered(run) && PeriodNo(1, 10) == 10 && PeriodNo(1, 12) == 12
            && sealed.keyId == config.IdAt(config.rootEncryptionKey, 10)
            && AttemptIn(config, run, 1, 10, sealed, context) == Err(Decryption)
            && AttemptIn(config, run, 3, 10, sealed, context) == Err(Decryption)
  {
    var run := [Encrypting(10), Trying(12), Refreshing(12), Trying(12)];
    PeriodNoIs(1, 10);
    PeriodNoIs(1, 12);
    assert run[..1] == [run[0]] && run[..2] == [run[0], run[1]] && run[..3] == [run[0], run[1], run[2]];
    assert Refreshes([], 1) == [];
    assert Refreshes(run[..1], 1) == [] by {
      assert run[..1][..0] == [];
    }
    assert Refreshes(run[..2], 1) == [] by {
      assert run[..2][..1] == run[..1];
    }
    assert Refreshes(run[..3], 1) == [12] by {
      assert run[..3][..2] == run[..2];
    }
    assert FirstAt([], 10) == 0 && FirstAt([12], 10) == 0;
  }

  /** Whatever the run, every try of what was sealed under one context is refused under another. */
  lemma {:induction false} WrongContextInRun(
    config: Config, run: seq<Section>, e: nat, n: nat, nonce: Nonce, plaintext: Bytes, context: Bytes, other: Bytes)
    requires config.lifespan >= 1 && e < |run| && n < |run| && run[e].at >= 1 && other != context
    requires var p := PeriodNo(config.lifespan, run[e].at);
             config.Separates(config.IdAt(config.rootEncryptionKey, p), nonce, context, other)
    ensures var p := PeriodNo(config.lifespan, run[e].at);
            var sealed := EncryptAt(config, run[e].at, nonce, plaintext, context);
            AttemptIn(config, run, n, p, sealed, other) == Err(Decryption)
  {
    var p := PeriodNo(config.lifespan, run[e].at);
    WrongContext(config, Refreshes(run[..n], config.lifespan), config.rootEncryptionKey, p, run[n].at,
                 nonce, plaintext, context, other);
  }

  /**
   The promise as a caller sees it, on a real cache: the last try of a decryption in a run, under the
   context of the encryption or another.
   */
  method DecryptInRun(
    cache: KeyCache, run: seq<Section>, e: nat, a: nat, r: nat, c: nat,
    nonce: Nonce, plaintext: Bytes, context: Bytes, other: Bytes) returns (res: Result<Bytes, Error>)
    requires cache.Valid() && cache.history == [] && cache.clock == 0 && Ordered(run)
    requires forall i :: 0 <= i < |run| ==> run[i].at < 0x1_0000_0000_0000_0000 && cache.config.InRange(run[i].at)
    requires cache.config.suite.Correct() && cache.config.rootEncryptionKey in cache.config.rootDecryptionKeys
    requires e < a < r < c < |run| && run[e].at >= 1
    requires run[e].Encrypting? && run[a].Trying? && run[r].Refreshing? && run[c].Trying?
    requires var p := PeriodNo(cache.config.lifespan, run[e].at);
             cache.config.Separates(cache.config.IdAt(cache.config.rootEncryptionKey, p), nonce, context, other)
    modifies cache
    ensures var p := PeriodNo(cache.config.lifespan, run[e].at);
            && (other == context && 2 * (PeriodNo(cache.config.lifespan, run[c].at) - p) <= cache.config.backtrack ==>
                  res == Ok(plaintext))
            && (PeriodNo(cache.config.lifespan, run[a].at) - p > cache.config.backtrack ==> res == Err(Decryption))
            && (other != context ==> res == Err(Decryption))
  {
    var sealed := EncryptAt(cache.config, run[e].at, nonce, plaintext, context);
    SealedInRun(cache.config, run, e, a, r, c, nonce, plaintext, context, other);
    res := TryInRun(cache, run, c, sealed, other);
  }

  /** What that decryption is given, and what the run answers to it. */
  lemma {:induction false} SealedInRun(
    config: Config, run: seq<Section>, e: nat, a: nat, r: nat, c: nat,
    nonce: Nonce, plaintext: Bytes, context: Bytes, other: Bytes)
    requires config.lifespan >= 1 && config.suite.Correct()
    requires config.rootEncryptionKey in config.rootDecryptionKeys
    requires Ordered(run) && e < a < r < c < |run| && run[e].at >= 1
    requires run[e].Encrypting? && run[a].Trying? && run[r].Refreshing? && run[c].Trying?
    requires run[e].at < 0x1_0000_0000_0000_0000 && config.InRange(run[e].at)
    requires var p := PeriodNo(config.lifespan, run[e].at);
             config.Separates(config.IdAt(config.rootEncryptionKey, p), nonce, context, other)
    ensures var p := PeriodNo(config.lifespan, run[e].at);
            var sealed := EncryptAt(config, run[e].at, nonce, plaintext, context);
            && config.Timed(p)
            && sealed.keyId == config.IdAt(config.rootEncryptionKey, p)
            && (other == context && 2 * (PeriodNo(config.lifespan, run[c].at) - p) <= config.backtrack ==>
                  AttemptIn(config, run, c, p, sealed, other) == Ok(plaintext))
            && (PeriodNo(config.lifespan, run[a].at) - p > config.backtrack || other != context ==>
                  AttemptIn(config, run, c, p, sealed, other) == Err(Decryption))
  {
    TimedBack(config, run[e].at, 0);
    RotationTheorem(config, run, e, a, r, c, nonce, plaintext, context);
    if other != context {
      WrongContextInRun(config, run, e, c, nonce, plaintext, context, other);
    }
  }

  /** The key of period `p` is derived from the root key and the first and the last second of the period. */
  lemma {:induction false} KeyAtIs(config: Config, root: Key, p: nat)
    requires config.lifespan >= 1
    ensures 0 <= p * config.lifespan <= (p + 1) * config.lifespan - 1
    ensures config.KeyAt(root, p) == config.derive(root, p * config.lifespan, (p + 1) * config.lifespan - 1)
  {
    StartIs(config.lifespan, p);
    StartIs(config.lifespan, p + 1);
    assert End(config.lifespan, p) == Start(config.lifespan, p + 1) - 1;
  }

  /** A ciphertext opens under the key it was made with and the same context. */
  lemma {:induction false} SealedOpens(
    config: Config, root: Key, p: nat, nonce: Nonce, plaintext: Bytes, context: Bytes)
    requires config.lifespan >= 1 && config.suite.Correct()
    ensures var box := CachedBox(0, config.KeyAt(root, p)).StrongBox(config.suite);
            DecryptAt(config, root, p, Encrypt(config.suite, box, nonce, plaintext, context), context) == Ok(plaintext)
  {
    KeyMapExact(config.suite, [config.KeyAt(root, p)]);
  }

  lemma {:induction false} SameLowBytes(v: nat, w: nat)
    requires v < Pow256(16) && w < Pow256(16) && ToBytes(v, 32)[..16] == ToBytes(w, 32)[..16]
    ensures v == w
  {
    LowBytes(v, 32, 16);
    LowBytes(w, 32, 16);
    ToBytesInjective(v, w, 16);
  }

  lemma {:induction false} WordFits(v: u64)
    ensures v < Pow256(16)
  {
    assert Pow256(4) == 0x1_0000_0000;
    assert Pow256(8) == 0x1_0000_0000 * Pow256(4);
    assert Pow256(12) == 0x1_0000_0000 * Pow256(8);
    assert Pow256(16) == 0x1_0000_0000 * Pow256(12);
  }

  lemma {:induction false} StartInjective(lifespan: nat, p: nat, q: nat)
    requires lifespan >= 1 && Start(lifespan, p) == Start(lifespan, q)
    ensures p == q
  {
    if p < q {
      StartMonotone(lifespan, p + 1, q);
    } else if q < p {
      StartMonotone(lifespan, q + 1, p);
    }
  }

  lemma {:induction false} DistinctByStart(config: Config, root: Key, p: nat, q: nat)
    requires config.lifespan >= 1 && config.Timed(p) && config.Timed(q)
    requires config.IdAt(root, p) == ToBytes(Start(config.lifespan, p), 32)[..16]
    requires config.IdAt(root, q) == ToBytes(Start(config.lifespan, q), 32)[..16]
    ensures config.Distinct(root, p, root, q)
  {
    if config.IdAt(root, p) == config.IdAt(root, q) {
      WordFits(Start(config.lifespan, p));
      WordFits(Start(config.lifespan, q));
      SameLowBytes(Start(config.lifespan, p), Start(config.lifespan, q));
      StartInjective(config.lifespan, p, q);
    }
  }

  /** The hypotheses of this module can be met together, with the sizes of key ids and tags that the program has. */
  lemma {:induction false} SoundPossible(lifespan: u64, backtrack: u16, root: Key) returns (config: Config)
    requires lifespan >= 1
    ensures config.Sound() && config.suite.Correct()
    ensures config.rootEncryptionKey == root && config.rootDecryptionKeys == [root]
    ensures config.lifespan == lifespan && config.backtrack == backtrack
    ensures forall k, n, a, m :: |config.suite.seal(k, n, a, m)| == |m| + 16
  {
    var suite := SuitePossible([], [], k => k[..16]);
    config := Config(suite, (r, first, last) => ToBytes(first, 32), lifespan, backtrack, root, [root]);
    forall p: nat, q: nat | config.Timed(p) && config.Timed(q) ensures config.Distinct(root, p, root, q) {
      DistinctByStart(config, root, p, q);
    }
  }
}
