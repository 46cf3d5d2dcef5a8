/** The rule by which the plaintext cache answers. */
module CacheAnswers {
  import opened Basics
  import opened CacheTrace
  import opened Buffers
  import PlaintextCache

  /**
   A get is answered exactly if the last operation on its key was a set or an answered get, less than
   `ttl` ago, and since then nothing was cleared and fewer than `max` other keys were set or answered.
   */
  ghost predicate Answered(max: nat, ttl: int, ops: seq<Op>, now: int, key: CacheKey)
    decreases |ops|, 1
  {
    exists j :: 0 <= j < |ops| && TouchedLast(max, ttl, ops, j, key) && !ops[j].Clear?
                && now < ops[j].now + ttl && |OthersSince(max, ttl, ops, j, key)| < max
  }

  /** Operation `j` sets the key or is an answered get of it. */
  ghost predicate Touches(max: nat, ttl: int, ops: seq<Op>, j: nat, key: CacheKey)
    requires j < |ops|
    decreases j, 2
  {
    match ops[j]
    case Set(_, k, _) => k == key
    case Get(now, k) => k == key && Answered(max, ttl, ops[..j], now, key)
    case Clear => false
  }

  ghost predicate TouchedLast(max: nat, ttl: int, ops: seq<Op>, j: nat, key: CacheKey)
    requires j < |ops|
    decreases j, 3
  {
    && Touches(max, ttl, ops, j, key)
    && forall q :: j < q < |ops| ==> !ops[q].Clear? && ops[q].key != key
  }

  /** The other keys set or answered after operation `j`. */
  ghost function OthersSince(max: nat, ttl: int, ops: seq<Op>, j: nat, key: CacheKey): set<CacheKey>
    requires j < |ops|
    decreases |ops|, 0
  {
    set q | j < q < |ops| && !ops[q].Clear? && ops[q].key != key && Touches(max, ttl, ops, q, ops[q].key) :: ops[q].key
  }

  // ---------- one more operation ----------

  lemma {:induction false} TouchesPrefix(max: nat, ttl: int, ops: seq<Op>, op: Op, j: nat, key: CacheKey)
    requires j < |ops|
    ensures Touches(max, ttl, ops + [op], j, key) <==> Touches(max, ttl, ops, j, key)
  {
    assert (ops + [op])[..j] == ops[..j];
  }

  lemma {:induction false} TouchesNew(max: nat, ttl: int, ops: seq<Op>, op: Op, key: CacheKey)
    ensures Touches(max, ttl, ops + [op], |ops|, key)
       <==> match op
            case Set(_, k, _) => k == key
            case Get(now, k) => k == key && Answered(max, ttl, ops, now, key)
            case Clear => false
  {
    assert (ops + [op])[..|ops|] == ops;
  }

  lemma {:induction false} LastStep(max: nat, ttl: int, ops: seq<Op>, op: Op, j: nat, key: CacheKey)
    requires j < |ops|
    ensures TouchedLast(max, ttl, ops + [op], j, key)
       <==> TouchedLast(max, ttl, ops, j, key) && !op.Clear? && op.key != key
  {
    TouchesPrefix(max, ttl, ops, op, j, key);
    var g := ops + [op];
    assert forall q :: 0 <= q < |ops| ==> g[q] == ops[q];
    assert g[|ops|] == op;
  }

  lemma {:induction false} OthersStep(max: nat, ttl: int, ops: seq<Op>, op: Op, j: nat, key: CacheKey)
    requires j < |ops|
    ensures OthersSince(max, ttl, ops + [op], j, key)
         == OthersSince(max, ttl, ops, j, key)
            + if !op.Clear? && op.key != key && Touches(max, ttl, ops + [op], |ops|, op.key) then {op.key} else {}
  {
    var g := ops + [op];
    forall q | j < q < |ops| && !ops[q].Clear?
      ensures Touches(max, ttl, g, q, ops[q].key) <==> Touches(max, ttl, ops, q, ops[q].key)
    {
      TouchesPrefix(max, ttl, ops, op, q, ops[q].key);
    }
    OthersInto(max, ttl, ops, op, j, key);
    OthersFrom(max, ttl, ops, op, j, key);
  }

  lemma {:induction false} OthersInto(max: nat, ttl: int, ops: seq<Op>, op: Op, j: nat, key: CacheKey)
    requires j < |ops|
    ensures OthersSince(max, ttl, ops, j, key) <= OthersSince(max, ttl, ops + [op], j, key)
    ensures !op.Clear? && op.key != key && Touches(max, ttl, ops + [op], |ops|, op.key) ==>
              op.key in OthersSince(max, ttl, ops + [op], j, key)
  {
    var g := ops + [op];
    forall k | k in OthersSince(max, ttl, ops, j, key) ensures k in OthersSince(max, ttl, g, j, key) {
      var q :| j < q < |ops| && !ops[q].Clear? && ops[q].key == k != key && Touches(max, ttl, ops, q, k);
      TouchesPrefix(max, ttl, ops, op, q, k);
      assert g[q] == ops[q];
    }
    assert g[|ops|] == op;
  }

  lemma {:induction false} OthersFrom(max: nat, ttl: int, ops: seq<Op>, op: Op, j: nat, key: CacheKey)
    requires j < |ops|
    ensures forall k :: k in OthersSince(max, ttl, ops + [op], j, key) ==>
              || k in OthersSince(max, ttl, ops, j, key)
              || (!op.Clear? && k == op.key != key && Touches(max, ttl, ops + [op], |ops|, op.key))
  {
    var g := ops + [op];
    forall k | k in OthersSince(max, ttl, g, j, key) && k !in OthersSince(max, ttl, ops, j, key)
      ensures !op.Clear? && k == op.key != key && Touches(max, ttl, g, |ops|, op.key)
    {
      var q :| j < q < |g| && !g[q].Clear? && g[q].key == k != key && Touches(max, ttl, g, q, k);
      if q < |ops| {
        TouchesPrefix(max, ttl, ops, op, q, k);
      }
    }
  }

  // ---------- entries ----------

  function KeysOf(es: seq<Entry>): set<CacheKey> {
    set e | e in es :: e.key
  }

  /** The keys of the entries that are newer than that of the key. */
  function KeysAfter(es: seq<Entry>, key: CacheKey): set<CacheKey> {
    if es == [] then {} else if es[0].key == key then KeysOf(es[1..]) else KeysAfter(es[1..], key)
  }

  lemma {:induction false} KeysOfSize(es: seq<Entry>)
    requires Distinct(es)
    ensures |KeysOf(es)| == |es|
  {
    if es != [] {
      TailDistinct(es);
      KeysOfSize(es[1..]);
      assert es == [es[0]] + es[1..];
      assert KeysOf(es) == KeysOf(es[1..]) + {es[0].key};
      assert es[0].key !in KeysOf(es[1..]);
    }
  }

  lemma {:induction false} KeysOfSnoc(es: seq<Entry>, e: Entry)
    ensures KeysOf(es + [e]) == KeysOf(es) + {e.key}
  {
    forall k | k in KeysOf(es) + {e.key} ensures k in KeysOf(es + [e]) {
      if k in KeysOf(es) {
        var f :| f in es && f.key == k;
        assert f in es + [e];
      } else {
        assert e in es + [e];
      }
    }
  }

  lemma {:induction false} KeysOfRemove(es: seq<Entry>, k: CacheKey)
    ensures KeysOf(Remove(es, k)) == KeysOf(es) - {k}
  {
    forall x | x in KeysOf(es) - {k} ensures x in KeysOf(Remove(es, k)) {
      var f :| f in es && f.key == x;
      assert f in Remove(es, k);
    }
  }

  /** An entry has at most as many newer ones as fit beside it. */
  lemma {:induction false} NewerFit(es: seq<Entry>, key: CacheKey)
    requires Distinct(es) && Lookup(es, key).Some?
    ensures |KeysAfter(es, key)| < |es|
    ensures es[0].key == key ==> |KeysAfter(es, key)| == |es| - 1
  {
    TailDistinct(es);
    if es[0].key == key {
      KeysOfSize(es[1..]);
    } else {
      NewerFit(es[1..], key);
    }
  }

  lemma {:induction false} RemoveOther(es: seq<Entry>, k: CacheKey, key: CacheKey)
    requires k != key
    ensures Lookup(Remove(es, k), key) == Lookup(es, key)
    ensures KeysAfter(Remove(es, k), key) == KeysAfter(es, key) - {k}
  {
    if es != [] {
      RemoveOther(es[1..], k, key);
      KeysOfRemove(es[1..], k);
      if es[0].key != k {
        assert Remove(es, k)[1..] == Remove(es[1..], k);
      }
    }
  }

  lemma {:induction false} AppendOther(es: seq<Entry>, e: Entry, key: CacheKey)
    requires e.key != key
    ensures Lookup(es + [e], key) == Lookup(es, key)
    ensures Lookup(es, key).Some? ==> KeysAfter(es + [e], key) == KeysAfter(es, key) + {e.key}
  {
    if es != [] {
      AppendOther(es[1..], e, key);
      KeysOfSnoc(es[1..], e);
      assert (es + [e])[1..] == es[1..] + [e];
    }
  }

  lemma {:induction false} AppendOwn(es: seq<Entry>, e: Entry)
    requires Lookup(es, e.key).None?
    ensures Lookup(es + [e], e.key) == Some(e) && KeysAfter(es + [e], e.key) == {}
  {
    if es == [] {
      assert (es + [e])[1..] == [];
    } else {
      AppendOwn(es[1..], e);
      assert (es + [e])[1..] == es[1..] + [e];
    }
  }

  // ---------- the cache against the rule ----------

  /** The cache as seen from one key at second `t`, as far as its entry has not expired. */
  ghost predicate Tracks(max: nat, ttl: int, ops: seq<Op>, es: seq<Entry>, t: int, key: CacheKey) {
    && (forall j :: 0 <= j < |ops| && TouchedLast(max, ttl, ops, j, key) && !ops[j].Clear? && t < ops[j].now + ttl ==>
          TracksAt(max, ttl, ops, es, j, key))
    && (Lookup(es, key).Some? && t < Lookup(es, key).value.expiresAt ==>
          exists j :: 0 <= j < |ops| && TouchedLast(max, ttl, ops, j, key) && !ops[j].Clear?
                      && ops[j].now + ttl == Lookup(es, key).value.expiresAt)
  }

  ghost predicate TracksAt(max: nat, ttl: int, ops: seq<Op>, es: seq<Entry>, j: nat, key: CacheKey)
    requires j < |ops| && !ops[j].Clear?
  {
    && (Lookup(es, key).Some? <==> |OthersSince(max, ttl, ops, j, key)| < max)
    && (Lookup(es, key).Some? ==>
          && Lookup(es, key).value.expiresAt == ops[j].now + ttl
          && KeysAfter(es, key) == OthersSince(max, ttl, ops, j, key))
  }

  lemma {:induction false} HitFromTracks(max: nat, ttl: int, ops: seq<Op>, es: seq<Entry>, t: int, key: CacheKey)
    requires Tracks(max, ttl, ops, es, t, key)
    ensures Hit(es, t, key).Some? <==> Answered(max, ttl, ops, t, key)
  {
    if Hit(es, t, key).Some? {
      var j :| 0 <= j < |ops| && TouchedLast(max, ttl, ops, j, key) && !ops[j].Clear?
               && ops[j].now + ttl == Lookup(es, key).value.expiresAt;
      assert TracksAt(max, ttl, ops, es, j, key);
    }
    if Answered(max, ttl, ops, t, key) {
      var j :| 0 <= j < |ops| && TouchedLast(max, ttl, ops, j, key) && !ops[j].Clear?
               && t < ops[j].now + ttl && |OthersSince(max, ttl, ops, j, key)| < max;
      assert TracksAt(max, ttl, ops, es, j, key);
    }
  }

  /** A set of another key: the key's entry goes exactly if it is then the oldest of one too many. */
  lemma {:induction false} SetOther(es: seq<Entry>, max: nat, e: Entry, key: CacheKey)
    requires Distinct(es) && |es| <= max && e.key != key
    ensures var after := Trim(Remove(es, e.key) + [e], max);
            && (Lookup(es, key).None? ==> Lookup(after, key).None?)
            && (Lookup(es, key).Some? ==>
                  var newer := KeysAfter(es, key) + {e.key};
                  && (Lookup(after, key).Some? <==> |newer| < max)
                  && (Lookup(after, key).Some? ==>
                        Lookup(after, key) == Lookup(es, key) && KeysAfter(after, key) == newer))
  {
    RemoveOther(es, e.key, key);
    AppendOther(Remove(es, e.key), e, key);
    RemoveDistinct(es, e.key);
    AppendDistinct(Remove(es, e.key), e);
    var all := Remove(es, e.key) + [e];
    if Lookup(es, key).Some? {
      assert KeysAfter(all, key) == KeysAfter(es, key) + {e.key};
      NewerFit(all, key);
      TrimOther(all, max, key);
    } else {
      TrimAbsent(all, max, key);
    }
  }

  lemma {:induction false} TrimOther(all: seq<Entry>, max: nat, key: CacheKey)
    requires Distinct(all) && |all| <= max + 1 && Lookup(all, key).Some?
    ensures Lookup(Trim(all, max), key).Some? <==> |KeysAfter(all, key)| < max
    ensures Lookup(Trim(all, max), key).Some? ==>
              Lookup(Trim(all, max), key) == Lookup(all, key) && KeysAfter(Trim(all, max), key) == KeysAfter(all, key)
  {
    NewerFit(all, key);
    TailDistinct(all);
    if |all| > max && all[0].key != key {
      NewerFit(all[1..], key);
    }
  }

  lemma {:induction false} TrimAbsent(all: seq<Entry>, max: nat, key: CacheKey)
    requires Lookup(all, key).None?
    ensures Lookup(Trim(all, max), key).None?
  {
    assert forall e :: e in Trim(all, max) ==> e in all;
  }

  /** An answered get of another key. */
  lemma {:induction false} HitOther(es: seq<Entry>, max: nat, e: Entry, key: CacheKey)
    requires Distinct(es) && |es| <= max && e.key != key && Lookup(es, e.key).Some?
    ensures var after := Remove(es, e.key) + [e];
            && Lookup(after, key) == Lookup(es, key)
            && (Lookup(es, key).Some? ==>
                  KeysAfter(after, key) == KeysAfter(es, key) + {e.key} && |KeysAfter(after, key)| < max)
  {
    RemoveOther(es, e.key, key);
    AppendOther(Remove(es, e.key), e, key);
    RemoveDistinct(es, e.key);
    AppendDistinct(Remove(es, e.key), e);
    if Lookup(es, key).Some? {
      NewerFit(Remove(es, e.key) + [e], key);
    }
  }

  /** A newer entry expires no earlier. */
  lemma {:induction false} NewerLater(es: seq<Entry>, key: CacheKey, k: CacheKey)
    requires OldestFirst(es) && Distinct(es) && Lookup(es, key).Some? && k in KeysAfter(es, key)
    ensures Lookup(es, k).Some? && Lookup(es, key).value.expiresAt <= Lookup(es, k).value.expiresAt
  {
    TailDistinct(es);
    if es[0].key == key {
      var f :| f in es[1..] && f.key == k;
      assert f in es;
      assert Lookup(es, k).value in es;
    } else {
      assert OldestFirst(es[1..]);
      NewerLater(es[1..], key, k);
      assert Lookup(es[1..], k).value in es[1..];
    }
  }

  /** An operation on another key keeps the view from a key. */
  lemma {:induction false} TracksOther(
    max: nat, ttl: int, ops: seq<Op>, es: seq<Entry>, op: Op, t: int, key: CacheKey)
    requires !op.Clear? && op.key != key && op.now <= t
    requires Distinct(es) && |es| <= max && OldestFirst(es)
    requires Tracks(max, ttl, ops, es, op.now, key) && Tracks(max, ttl, ops, es, op.now, op.key)
    ensures Tracks(max, ttl, ops + [op], After(es, max, ttl, op), t, key)
  {
    var g, after := ops + [op], After(es, max, ttl, op);
    AfterOther(max, ttl, es, op, key);
    forall j | 0 <= j < |g| && TouchedLast(max, ttl, g, j, key) && !g[j].Clear? && t < g[j].now + ttl
      ensures TracksAt(max, ttl, g, after, j, key)
    {
      TouchesNew(max, ttl, ops, op, key);
      assert j < |ops|;
      LastStep(max, ttl, ops, op, j, key);
      TracksAtOther(max, ttl, ops, es, op, j, key);
    }
    if Lookup(after, key).Some? && t < Lookup(after, key).value.expiresAt {
      var j :| 0 <= j < |ops| && TouchedLast(max, ttl, ops, j, key) && !ops[j].Clear?
               && ops[j].now + ttl == Lookup(es, key).value.expiresAt;
      LastStep(max, ttl, ops, op, j, key);
      assert g[j] == ops[j];
    }
  }

  lemma {:induction false} AfterOther(max: nat, ttl: int, es: seq<Entry>, op: Op, key: CacheKey)
    requires !op.Clear? && op.key != key && Distinct(es) && |es| <= max
    ensures Lookup(After(es, max, ttl, op), key).Some? ==> Lookup(After(es, max, ttl, op), key) == Lookup(es, key)
  {
    RemoveOther(es, op.key, key);
    if op.Set? {
      AfterSetIs(max, ttl, es, op);
      SetOther(es, max, Entry(op.key, op.value, op.now + ttl), key);
    } else if Hit(es, op.now, op.key).Some? {
      AfterHitIs(max, ttl, es, op);
      HitOther(es, max, Entry(op.key, Hit(es, op.now, op.key).value, op.now + ttl), key);
    }
  }

  lemma {:induction false} TracksAtOther(
    max: nat, ttl: int, ops: seq<Op>, es: seq<Entry>, op: Op, j: nat, key: CacheKey)
    requires !op.Clear? && op.key != key && j < |ops| && !ops[j].Clear? && op.now < ops[j].now + ttl
    requires Distinct(es) && |es| <= max && OldestFirst(es)
    requires TracksAt(max, ttl, ops, es, j, key) && Tracks(max, ttl, ops, es, op.now, op.key)
    ensures TracksAt(max, ttl, ops + [op], After(es, max, ttl, op), j, key)
  {
    OthersStep(max, ttl, ops, op, j, key);
    TouchesNew(max, ttl, ops, op, op.key);
    assert (ops + [op])[j] == ops[j];
    HitFromTracks(max, ttl, ops, es, op.now, op.key);
    if op.Set? || Hit(es, op.now, op.key).Some? {
      AddsNewer(max, ttl, es, op, OthersSince(max, ttl, ops, j, key), key);
    } else {
      MissKeeps(max, ttl, es, op, key);
    }
  }

  /** A set or an answered get of another key, whose key joins the newer ones. */
  lemma {:induction false} AddsNewer(
    max: nat, ttl: int, es: seq<Entry>, op: Op, others: set<CacheKey>, key: CacheKey)
    requires !op.Clear? && op.key != key && (op.Get? ==> Hit(es, op.now, op.key).Some?)
    requires Distinct(es) && |es| <= max
    requires Lookup(es, key).Some? <==> |others| < max
    requires Lookup(es, key).Some? ==> KeysAfter(es, key) == others
    ensures var after := After(es, max, ttl, op);
            && (Lookup(after, key).Some? <==> |others + {op.key}| < max)
            && (Lookup(after, key).Some? ==>
                  Lookup(after, key) == Lookup(es, key) && KeysAfter(after, key) == others + {op.key})
  {
    SizeGrows(others, op.key);
    if op.Set? {
      AfterSetIs(max, ttl, es, op);
      SetOther(es, max, Entry(op.key, op.value, op.now + ttl), key);
    } else {
      AfterHitIs(max, ttl, es, op);
      HitOther(es, max, Entry(op.key, Hit(es, op.now, op.key).value, op.now + ttl), key);
    }
  }

  lemma {:induction false} AfterSetIs(max: nat, ttl: int, es: seq<Entry>, op: Op)
    requires op.Set?
    ensures After(es, max, ttl, op) == Trim(Remove(es, op.key) + [Entry(op.key, op.value, op.now + ttl)], max)
  {
  }

  lemma {:induction false} AfterHitIs(max: nat, ttl: int, es: seq<Entry>, op: Op)
    requires op.Get? && Hit(es, op.now, op.key).Some?
    ensures After(es, max, ttl, op)
         == Remove(es, op.key) + [Entry(op.key, Hit(es, op.now, op.key).value, op.now + ttl)]
    ensures Lookup(es, op.key).Some?
  {
  }

  /** A get of another key that is not answered removes nothing newer than a live entry. */
  lemma {:induction false} MissKeeps(max: nat, ttl: int, es: seq<Entry>, op: Op, key: CacheKey)
    requires op.Get? && op.key != key && Hit(es, op.now, op.key).None?
    requires Distinct(es) && OldestFirst(es)
    requires Lookup(es, key).Some? ==> op.now < Lookup(es, key).value.expiresAt
    ensures var after := After(es, max, ttl, op);
            && Lookup(after, key) == Lookup(es, key)
            && (Lookup(es, key).Some? ==> KeysAfter(after, key) == KeysAfter(es, key))
  {
    RemoveOther(es, op.key, key);
    if Lookup(es, key).Some? && op.key in KeysAfter(es, key) {
      NewerLater(es, key, op.key);
    }
  }

  lemma {:induction false} SizeGrows(s: set<CacheKey>, k: CacheKey)
    ensures |s| <= |s + {k}|
  {
    if k in s {
      assert s + {k} == s;
    }
  }

  /** An operation on the key itself starts the view anew. */
  lemma {:induction false} TracksOwn(
    max: nat, ttl: int, ops: seq<Op>, es: seq<Entry>, op: Op, t: int)
    requires !op.Clear? && op.now <= t && Distinct(es) && |es| <= max
    requires Tracks(max, ttl, ops, es, op.now, op.key)
    ensures Tracks(max, ttl, ops + [op], After(es, max, ttl, op), t, op.key)
  {
    var g, after, n, key := ops + [op], After(es, max, ttl, op), |ops|, op.key;
    HitFromTracks(max, ttl, ops, es, op.now, key);
    TouchesNew(max, ttl, ops, op, key);
    assert g[n] == op;
    AfterOwn(max, ttl, es, op);
    assert OthersSince(max, ttl, g, n, key) == {};
    forall j | 0 <= j < n ensures !TouchedLast(max, ttl, g, j, key) {
      LastStep(max, ttl, ops, op, j, key);
    }
    assert TouchedLast(max, ttl, g, n, key) <==> Touches(max, ttl, g, n, key);
  }

  lemma {:induction false} AfterOwn(max: nat, ttl: int, es: seq<Entry>, op: Op)
    requires !op.Clear? && Distinct(es) && |es| <= max
    ensures var after := After(es, max, ttl, op);
            && ((op.Set? || Hit(es, op.now, op.key).Some?) && max > 0 <==> Lookup(after, op.key).Some?)
            && (Lookup(after, op.key).Some? ==>
                  Lookup(after, op.key).value.expiresAt == op.now + ttl && KeysAfter(after, op.key) == {})
  {
    if op.Set? {
      AfterSetIs(max, ttl, es, op);
      SetOwn(es, max, Entry(op.key, op.value, op.now + ttl));
    } else if Hit(es, op.now, op.key).Some? {
      AfterHitIs(max, ttl, es, op);
      AppendOwn(Remove(es, op.key), Entry(op.key, Hit(es, op.now, op.key).value, op.now + ttl));
    }
  }

  lemma {:induction false} SetOwn(es: seq<Entry>, max: nat, e: Entry)
    requires Distinct(es) && |es| <= max
    ensures var after := Trim(Remove(es, e.key) + [e], max);
            && Lookup(after, e.key) == (if max > 0 then Some(e) else None)
            && (max > 0 ==> KeysAfter(after, e.key) == {})
  {
    AppendOwn(Remove(es, e.key), e);
    RemoveDistinct(es, e.key);
    AppendDistinct(Remove(es, e.key), e);
    TrimOther(Remove(es, e.key) + [e], max, e.key);
  }

  lemma {:induction false} TracksClear(max: nat, ttl: int, ops: seq<Op>, t: int, key: CacheKey)
    ensures Tracks(max, ttl, ops + [Clear], [], t, key)
  {
    var g := ops + [Clear];
    assert g[|ops|] == Clear;
    forall j | 0 <= j < |ops| ensures !TouchedLast(max, ttl, g, j, key) {
      LastStep(max, ttl, ops, Clear, j, key);
    }
    TouchesNew(max, ttl, ops, Clear, key);
  }

  lemma {:induction false} RunTracks(max: nat, ttl: int, ops: seq<Op>, t: int, key: CacheKey)
    requires Monotone(ops) && NotAfter(ops, t)
    ensures Tracks(max, ttl, ops, Run(max, ttl, ops), t, key)
  {
    if ops != [] {
      var rest, op := ops[..|ops| - 1], ops[|ops| - 1];
      assert ops == rest + [op];
      if op.Clear? {
        TracksClear(max, ttl, rest, t, key);
      } else {
        RunBounded(max, ttl, rest);
        RunOrdered(max, ttl, rest, op.now);
        RunTracks(max, ttl, rest, op.now, key);
        RunTracks(max, ttl, rest, op.now, op.key);
        if op.key == key {
          TracksOwn(max, ttl, rest, Run(max, ttl, rest), op, t);
        } else {
          TracksOther(max, ttl, rest, Run(max, ttl, rest), op, t, key);
        }
      }
    }
  }

  /**
   Over every run whose clock does not go back, a get is answered exactly by the rule, and then with
   the value last written to the key.
   */
  lemma {:induction false} HitIff(max: nat, ttl: int, ops: seq<Op>, now: int, key: CacheKey)
    requires Monotone(ops) && NotAfter(ops, now)
    ensures Hit(Run(max, ttl, ops), now, key).Some? <==> Answered(max, ttl, ops, now, key)
    ensures Hit(Run(max, ttl, ops), now, key).Some? ==> Hit(Run(max, ttl, ops), now, key) == LastSet(ops, key)
  {
    RunTracks(max, ttl, ops, now, key);
    HitFromTracks(max, ttl, ops, Run(max, ttl, ops), now, key);
    RunCoherent(max, ttl, ops);
  }

  /** What was just set is answered for `ttl`, whatever the cache held and whatever the clock does. */
  lemma {:induction false} JustSet(es: seq<Entry>, max: nat, ttl: int, t: int, now: int, key: CacheKey, value: Bytes)
    requires Distinct(es) && |es| <= max && max >= 1
    ensures Hit(AfterSet(es, max, ttl, t, key, value), now, key) == if now < t + ttl then Some(value) else None
  {
    SetOwn(es, max, Entry(key, value, t + ttl));
  }

  /** What was just answered is answered again for another `ttl`. */
  lemma {:induction false} JustAnswered(es: seq<Entry>, ttl: int, t: int, now: int, key: CacheKey)
    requires Hit(es, t, key).Some?
    ensures Hit(AfterGet(es, ttl, t, key), now, key) == if now < t + ttl then Hit(es, t, key) else None
  {
    AppendOwn(Remove(es, key), Entry(key, Hit(es, t, key).value, t + ttl));
  }

  // ---------- the class ----------

  /** A get at the end of a run of the cache itself is answered by the rule. */
  method GetInRun(cache: PlaintextCache.PlaintextCache, ops: seq<Op>, now: int, key: CacheKey)
    returns (r: Option<array<byte>>)
    requires cache.Contents() == [] && Monotone(ops) && NotAfter(ops, now)
    modifies cache
    ensures r.Some? <==> Answered(cache.maxEntries, cache.ttlMs, ops, now, key)
    ensures r.Some? ==> LastSet(ops, key) == Some(r.value[..])
  {
    for n := 0 to |ops|
      invariant cache.Contents() == Run(cache.maxEntries, cache.ttlMs, ops[..n])
    {
      assert ops[..n + 1][..n] == ops[..n];
      Apply(cache, ops[n]);
    }
    assert ops[..|ops|] == ops;
    HitIff(cache.maxEntries, cache.ttlMs, ops, now, key);
    r := cache.Get(key, now);
  }

  method Apply(cache: PlaintextCache.PlaintextCache, op: Op)
    modifies cache
    ensures cache.Contents() == After(old(cache.Contents()), cache.maxEntries, cache.ttlMs, op)
  {
    match op {
      case Get(now, key) => var _ := cache.Get(key, now);
      case Set(now, key, value) => Store(cache, now, key, value);
      case Clear => cache.ClearEntries();
    }
  }

  method Store(cache: PlaintextCache.PlaintextCache, now: int, key: CacheKey, value: Bytes)
    modifies cache
    ensures cache.Contents()
         == AfterSet(old(cache.Contents()), cache.maxEntries, cache.ttlMs, now, key, value)
  {
    assert forall b: object :: b in PlaintextCache.BuffersOf(cache.slots) ==> allocated(b);
    var buffer := NewBytes(value);
    cache.Set(key, buffer, now);
  }
}
