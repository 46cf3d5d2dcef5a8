/** The contents of the plaintext cache over a run of operations, oldest entry first. */
module CacheTrace {
  import opened Basics

  type CacheKey = string

  datatype Entry = Entry(key: CacheKey, value: Bytes, expiresAt: int)

  /** One operation, with the clock's reading. */
  datatype Op = Get(now: int, key: CacheKey) | Set(now: int, key: CacheKey, value: Bytes) | Clear

  function Lookup(es: seq<Entry>, key: CacheKey): (r: Option<Entry>)
    ensures r.Some? ==> r.value in es && r.value.key == key
    ensures r.None? ==> forall e :: e in es ==> e.key != key
  {
    if es == [] then None else if es[0].key == key then Some(es[0]) else Lookup(es[1..], key)
  }

  function Remove(es: seq<Entry>, key: CacheKey): (r: seq<Entry>)
    ensures |r| <= |es|
    ensures forall e :: e in r <==> e in es && e.key != key
  {
    if es == [] then [] else if es[0].key == key then Remove(es[1..], key) else [es[0]] + Remove(es[1..], key)
  }

  function Hit(es: seq<Entry>, now: int, key: CacheKey): Option<Bytes> {
    match Lookup(es, key)
    case None => None
    case Some(e) => if e.expiresAt <= now then None else Some(e.value)
  }

  function AfterGet(es: seq<Entry>, ttl: int, now: int, key: CacheKey): seq<Entry> {
    match Hit(es, now, key)
    case None => Remove(es, key)
    case Some(value) => Remove(es, key) + [Entry(key, value, now + ttl)]
  }

  function Trim(es: seq<Entry>, max: nat): seq<Entry> {
    if |es| > max then es[1..] else es
  }

  function AfterSet(es: seq<Entry>, max: nat, ttl: int, now: int, key: CacheKey, value: Bytes): seq<Entry> {
    Trim(Remove(es, key) + [Entry(key, value, now + ttl)], max)
  }

  function After(es: seq<Entry>, max: nat, ttl: int, op: Op): seq<Entry> {
    match op
    case Get(now, key) => AfterGet(es, ttl, now, key)
    case Set(now, key, value) => AfterSet(es, max, ttl, now, key, value)
    case Clear => []
  }

  function Run(max: nat, ttl: int, ops: seq<Op>): seq<Entry> {
    if ops == [] then [] else After(Run(max, ttl, ops[..|ops| - 1]), max, ttl, ops[|ops| - 1])
  }

  // ---------- keys and size ----------

  ghost predicate Distinct(es: seq<Entry>) {
    forall i, j :: 0 <= i < j < |es| ==> es[i].key != es[j].key
  }

  lemma {:induction false} RemoveDistinct(es: seq<Entry>, key: CacheKey)
    requires Distinct(es)
    ensures Distinct(Remove(es, key))
    ensures |Remove(es, key)| == if Lookup(es, key).Some? then |es| - 1 else |es|
  {
    if es != [] {
      TailDistinct(es);
      RemoveDistinct(es[1..], key);
      if es[0].key != key {
        PrependDistinct(es[0], Remove(es[1..], key));
      }
    }
  }

  lemma {:induction false} TailDistinct(es: seq<Entry>)
    requires Distinct(es) && es != []
    ensures Distinct(es[1..]) && forall e :: e in es[1..] ==> e.key != es[0].key
  {
  }

  lemma {:induction false} PrependDistinct(e: Entry, es: seq<Entry>)
    requires Distinct(es) && forall f :: f in es ==> f.key != e.key
    ensures Distinct([e] + es)
  {
  }

  lemma {:induction false} TrimDistinct(es: seq<Entry>, max: nat)
    requires Distinct(es) && |es| <= max + 1
    ensures Distinct(Trim(es, max)) && |Trim(es, max)| <= max
  {
  }

  lemma {:induction false} AppendDistinct(es: seq<Entry>, e: Entry)
    requires Distinct(es) && forall f :: f in es ==> f.key != e.key
    ensures Distinct(es + [e])
  {
  }

  /** Never more entries than the capacity, and never two of one key. */
  lemma {:induction false} RunBounded(max: nat, ttl: int, ops: seq<Op>)
    ensures Distinct(Run(max, ttl, ops)) && |Run(max, ttl, ops)| <= max
  {
    if ops != [] {
      RunBounded(max, ttl, ops[..|ops| - 1]);
      StepBounded(Run(max, ttl, ops[..|ops| - 1]), max, ttl, ops[|ops| - 1]);
    }
  }

  lemma {:induction false} StepBounded(es: seq<Entry>, max: nat, ttl: int, op: Op)
    requires Distinct(es) && |es| <= max
    ensures Distinct(After(es, max, ttl, op)) && |After(es, max, ttl, op)| <= max
  {
    match op {
      case Get(now, key) => GetBounded(es, max, ttl, now, key);
      case Set(now, key, value) => SetBounded(es, max, ttl, now, key, value);
      case Clear =>
    }
  }

  lemma {:induction false} GetBounded(es: seq<Entry>, max: nat, ttl: int, now: int, key: CacheKey)
    requires Distinct(es) && |es| <= max
    ensures Distinct(AfterGet(es, ttl, now, key)) && |AfterGet(es, ttl, now, key)| <= max
  {
    RemoveDistinct(es, key);
    if Hit(es, now, key).Some? {
      AppendDistinct(Remove(es, key), Entry(key, Hit(es, now, key).value, now + ttl));
    }
  }

  lemma {:induction false} SetBounded(es: seq<Entry>, max: nat, ttl: int, now: int, key: CacheKey, value: Bytes)
    requires Distinct(es) && |es| <= max
    ensures Distinct(AfterSet(es, max, ttl, now, key, value)) && |AfterSet(es, max, ttl, now, key, value)| <= max
  {
    RemoveDistinct(es, key);
    AppendDistinct(Remove(es, key), Entry(key, value, now + ttl));
    TrimDistinct(Remove(es, key) + [Entry(key, value, now + ttl)], max);
  }

  // ---------- order of expiry ----------

  /** The clock does not go back, and no entry outlives the last reading by more than `ttl`. */
  ghost predicate Monotone(ops: seq<Op>) {
    forall i, j :: 0 <= i < j < |ops| && !ops[i].Clear? && !ops[j].Clear? ==> ops[i].now <= ops[j].now
  }

  ghost predicate OldestFirst(es: seq<Entry>) {
    forall i, j :: 0 <= i < j < |es| ==> es[i].expiresAt <= es[j].expiresAt
  }

  lemma {:induction false} RemoveOrdered(es: seq<Entry>, key: CacheKey)
    requires OldestFirst(es)
    ensures OldestFirst(Remove(es, key))
  {
    if es != [] {
      RemoveOrdered(es[1..], key);
      forall e | e in Remove(es[1..], key) ensures es[0].expiresAt <= e.expiresAt {
        assert e in es[1..];
      }
    }
  }

  ghost predicate NotAfter(ops: seq<Op>, now: int) {
    forall i :: 0 <= i < |ops| && !ops[i].Clear? ==> ops[i].now <= now
  }

  ghost predicate ExpireBy(es: seq<Entry>, t: int) {
    forall e :: e in es ==> e.expiresAt <= t
  }

  /** The entry that is evicted is one of the first to expire. */
  lemma {:induction false} RunOrdered(max: nat, ttl: int, ops: seq<Op>, now: int)
    requires Monotone(ops) && NotAfter(ops, now)
    ensures OldestFirst(Run(max, ttl, ops)) && ExpireBy(Run(max, ttl, ops), now + ttl)
  {
    if ops != [] {
      var rest, op := ops[..|ops| - 1], ops[|ops| - 1];
      var last := if op.Clear? then now else op.now;
      RunOrdered(max, ttl, rest, last);
      StepOrdered(Run(max, ttl, rest), max, ttl, op, last, now);
    }
  }

  lemma {:induction false} StepOrdered(es: seq<Entry>, max: nat, ttl: int, op: Op, last: int, now: int)
    requires OldestFirst(es) && ExpireBy(es, last + ttl)
    requires last <= now && (!op.Clear? ==> last == op.now)
    ensures OldestFirst(After(es, max, ttl, op)) && ExpireBy(After(es, max, ttl, op), now + ttl)
  {
    if !op.Clear? {
      RemoveOrdered(es, op.key);
      match op {
        case Get(_, key) =>
          if Hit(es, op.now, key).Some? {
            AppendOrdered(Remove(es, key), Entry(key, Hit(es, op.now, key).value, op.now + ttl));
          }
        case Set(_, key, value) =>
          AppendOrdered(Remove(es, key), Entry(key, value, op.now + ttl));
      }
    }
  }

  lemma {:induction false} AppendOrdered(es: seq<Entry>, e: Entry)
    requires OldestFirst(es) && ExpireBy(es, e.expiresAt)
    ensures OldestFirst(es + [e]) && ExpireBy(es + [e], e.expiresAt)
    ensures OldestFirst((es + [e])[1..]) && ExpireBy((es + [e])[1..], e.expiresAt)
  {
    forall i, j | 0 <= i < j < |es + [e]| ensures (es + [e])[i].expiresAt <= (es + [e])[j].expiresAt {
      assert es[i] in es;
    }
  }

  // ---------- what a hit returns ----------

  /** The value of the last write to a key, if nothing was cleared since. */
  function LastSet(ops: seq<Op>, key: CacheKey): Option<Bytes> {
    if ops == [] then None
    else
      match ops[|ops| - 1]
      case Clear => None
      case Set(_, k, value) => if k == key then Some(value) else LastSet(ops[..|ops| - 1], key)
      case Get(_, _) => LastSet(ops[..|ops| - 1], key)
  }

  /** Whatever was evicted or refreshed, an entry holds the last value written. */
  lemma {:induction false} RunCoherent(max: nat, ttl: int, ops: seq<Op>)
    ensures forall e :: e in Run(max, ttl, ops) ==> LastSet(ops, e.key) == Some(e.value)
  {
    if ops != [] {
      RunCoherent(max, ttl, ops[..|ops| - 1]);
    }
  }

  // ---------- a smaller cache holds a part of what a larger one holds ----------

  ghost predicate Within(a: seq<Entry>, b: seq<Entry>) {
    if a == [] then true
    else if b == [] then false
    else if a[0] == b[0] then Within(a[1..], b[1..])
    else Within(a, b[1..])
  }

  lemma {:induction false} WithinMember(a: seq<Entry>, b: seq<Entry>)
    requires Within(a, b)
    ensures |a| <= |b| && forall e :: e in a ==> e in b
  {
    if a != [] {
      if a[0] == b[0] {
        WithinMember(a[1..], b[1..]);
        assert a == [a[0]] + a[1..] && b == [b[0]] + b[1..];
      } else {
        WithinMember(a, b[1..]);
      }
    }
  }

  lemma {:induction false} WithinTail(a: seq<Entry>, b: seq<Entry>)
    requires Within(a, b) && a != []
    ensures Within(a[1..], b) && Within(a[1..], b[1..])
  {
    if a[0] == b[0] {
      WithinWider(a[1..], b);
    } else {
      WithinTail(a, b[1..]);
      WithinWider(a[1..], b);
    }
  }

  lemma {:induction false} WithinWider(a: seq<Entry>, b: seq<Entry>)
    requires b != [] && Within(a, b[1..])
    ensures Within(a, b)
  {
    if a != [] && a[0] == b[0] {
      WithinTail(a, b[1..]);
    }
  }

  lemma {:induction false} WithinRemove(a: seq<Entry>, b: seq<Entry>, key: CacheKey)
    requires Within(a, b)
    ensures Within(Remove(a, key), Remove(b, key))
  {
    if a != [] {
      if a[0] == b[0] {
        WithinRemove(a[1..], b[1..], key);
      } else {
        WithinRemove(a, b[1..], key);
        if b[0].key != key {
          assert Remove(b, key)[1..] == Remove(b[1..], key);
          WithinWider(Remove(a, key), Remove(b, key));
        }
      }
    }
  }

  lemma {:induction false} WithinAppend(a: seq<Entry>, b: seq<Entry>, e: Entry)
    requires Within(a, b)
    ensures Within(a + [e], b + [e]) && Within(a, b + [e])
  {
    if a == [] {
      WithinLast(b, e);
      assert a + [e] == [e];
    } else if a[0] == b[0] {
      WithinAppend(a[1..], b[1..], e);
      assert (a + [e])[1..] == a[1..] + [e] && (b + [e])[1..] == b[1..] + [e];
    } else {
      WithinAppend(a, b[1..], e);
      assert (b + [e])[1..] == b[1..] + [e];
    }
  }

  lemma {:induction false} WithinLast(b: seq<Entry>, e: Entry)
    ensures Within([e], b + [e])
  {
    if b == [] {
      assert (b + [e])[1..] == [] && [e][1..] == [];
    } else {
      WithinLast(b[1..], e);
      assert (b + [e])[1..] == b[1..] + [e];
      WithinWider([e], b + [e]);
    }
  }

  /** A smaller and a larger cache: the same entries as far as both have them, in the same order. */
  ghost predicate Pair(small: seq<Entry>, large: seq<Entry>, m: nat, n: nat) {
    && Within(small, large) && Distinct(small) && Distinct(large)
    && |small| <= m && |large| <= n && |large| - |small| <= n - m
  }

  lemma {:induction false} SameEntry(small: seq<Entry>, large: seq<Entry>, key: CacheKey)
    requires Within(small, large) && Distinct(large)
    ensures Lookup(small, key).Some? ==> Lookup(large, key) == Lookup(small, key)
  {
    WithinMember(small, large);
    if Lookup(small, key).Some? {
      assert Lookup(small, key).value in large;
    }
  }

  lemma {:induction false} PairGet(
    small: seq<Entry>, large: seq<Entry>, m: nat, n: nat, ttl: int, now: int, key: CacheKey)
    requires m <= n && Pair(small, large, m, n)
    ensures Pair(AfterGet(small, ttl, now, key), AfterGet(large, ttl, now, key), m, n)
    ensures Hit(small, now, key).Some? ==> Hit(large, now, key) == Hit(small, now, key)
  {
    SameEntry(small, large, key);
    PairRemove(small, large, m, n, key);
    if Hit(large, now, key).Some? {
      var e := Entry(key, Hit(large, now, key).value, now + ttl);
      AppendDistinct(Remove(small, key), e);
      AppendDistinct(Remove(large, key), e);
      WithinAppend(Remove(small, key), Remove(large, key), e);
    }
  }

  lemma {:induction false} PairRemove(small: seq<Entry>, large: seq<Entry>, m: nat, n: nat, key: CacheKey)
    requires m <= n && Pair(small, large, m, n)
    ensures Pair(Remove(small, key), Remove(large, key), m, n)
    ensures Lookup(small, key).Some? && Lookup(large, key).Some? ==>
              |Remove(small, key)| < m && |Remove(large, key)| < n
    ensures Lookup(small, key).None? && Lookup(large, key).Some? ==>
              |Remove(large, key)| < n && |Remove(large, key)| + 1 - |Remove(small, key)| <= n - m
  {
    SameEntry(small, large, key);
    WithinRemove(small, large, key);
    RemoveDistinct(small, key);
    RemoveDistinct(large, key);
  }

  lemma {:induction false} PairSet(
    small: seq<Entry>, large: seq<Entry>, m: nat, n: nat, ttl: int, now: int, key: CacheKey, value: Bytes)
    requires m <= n && Pair(small, large, m, n)
    ensures Pair(AfterSet(small, m, ttl, now, key, value), AfterSet(large, n, ttl, now, key, value), m, n)
  {
    PairRemove(small, large, m, n, key);
    var e := Entry(key, value, now + ttl);
    WithinAppend(Remove(small, key), Remove(large, key), e);
    AppendDistinct(Remove(small, key), e);
    AppendDistinct(Remove(large, key), e);
    PairTrim(Remove(small, key) + [e], Remove(large, key) + [e], m, n);
  }

  lemma {:induction false} PairTrim(a: seq<Entry>, b: seq<Entry>, m: nat, n: nat)
    requires Within(a, b) && Distinct(a) && Distinct(b) && a != []
    requires |a| <= m + 1 && |b| <= n + 1 && |b| - |a| <= n - m
    ensures Pair(Trim(a, m), Trim(b, n), m, n)
  {
    WithinTail(a, b);
  }

  /**
   On the same run a cache of smaller capacity is a part of one of larger capacity, in the same order
   and with equal values and expiries.
   */
  lemma {:induction false} Inclusion(m: nat, n: nat, ttl: int, ops: seq<Op>)
    requires m <= n
    ensures Pair(Run(m, ttl, ops), Run(n, ttl, ops), m, n)
  {
    if ops != [] {
      var rest, op := ops[..|ops| - 1], ops[|ops| - 1];
      Inclusion(m, n, ttl, rest);
      match op {
        case Get(now, key) => PairGet(Run(m, ttl, rest), Run(n, ttl, rest), m, n, ttl, now, key);
        case Set(now, key, value) => PairSet(Run(m, ttl, rest), Run(n, ttl, rest), m, n, ttl, now, key, value);
        case Clear =>
      }
    }
  }

  /** So the larger cache answers wherever the smaller one does, with the same value: the last written. */
  lemma {:induction false} LargerNeverMisses(m: nat, n: nat, ttl: int, ops: seq<Op>, now: int, key: CacheKey)
    requires m <= n && Hit(Run(m, ttl, ops), now, key).Some?
    ensures Hit(Run(n, ttl, ops), now, key) == Hit(Run(m, ttl, ops), now, key) == LastSet(ops, key)
  {
    Inclusion(m, n, ttl, ops);
    PairGet(Run(m, ttl, ops), Run(n, ttl, ops), m, n, ttl, now, key);
    RunCoherent(m, ttl, ops);
  }
}
