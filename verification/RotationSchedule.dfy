/** The refresh schedule of a rotating StrongBox. */
module RotationSchedule {
  // Time is cut into periods numbered from 0.  A refresh in period `k` drops the keys that have
  // expired and then derives keys for `k`, `k - 1`, ... until it meets a period that is cached
  // already.  What such a cache holds after any history of refreshes is the subject here.

  /** The cached periods, each mapped to the last period in which its keys may be used. */
  type Cached = map<nat, nat>

  /** Drops the periods whose keys expired before period `k`. */
  function Purge(m: Cached, k: nat): (r: Cached) {
    map p | p in m && k <= m[p] :: m[p]
  }

  /**
   Derives keys for the periods `k - b`, `k - b - 1`, ... down to the first one that is cached,
   at most `backtrack` periods before `k` and not past period 0.  The keys of period `k - b` get
   `backtrack - b` further periods of life.
   */
  function Fill(m: Cached, k: nat, b: nat, backtrack: nat): (r: Cached)
    decreases backtrack + 1 - b
  {
    if b > backtrack || b > k || k - b in m then m
    else Fill(m[k - b := k - b + (backtrack - b)], k, b + 1, backtrack)
  }

  function Refresh(m: Cached, k: nat, backtrack: nat): (r: Cached) {
    Fill(Purge(m, k), k, 0, backtrack)
  }

  /** The cache after refreshes in the periods `h`, starting from an empty cache. */
  function CacheAfter(h: seq<nat>, backtrack: nat): (r: Cached) {
    if h == [] then map[]
    else Refresh(CacheAfter(h[..|h| - 1], backtrack), h[|h| - 1], backtrack)
  }

  predicate Monotone(h: seq<nat>) {
    forall i, j :: 0 <= i < j < |h| ==> h[i] <= h[j]
  }

  /** The position of the first refresh in period `p` or later, `|h|` when there is none. */
  function FirstAt(h: seq<nat>, p: nat): (i: nat)
    ensures i <= |h|
    ensures i < |h| ==> p <= h[i]
    ensures forall j :: 0 <= j < i ==> h[j] < p
  {
    if h == [] then 0
    else
      var n := |h| - 1;
      var i := FirstAt(h[..n], p);
      if i < n then i else if p <= h[n] then n else n + 1
  }

  /**
   Whether keys of period `p` can be used in period `k`: the first refresh at or after `p` ran in
   a period `j` with `k + j <= 2 * p + backtrack`.
   */
  predicate InWindow(h: seq<nat>, p: nat, k: nat, backtrack: nat) {
    var i := FirstAt(h, p);
    i < |h| && k + h[i] <= 2 * p + backtrack
  }

  /** Filling stops at the first `s` that is out of range or cached, having added exactly `k - s + 1 .. k - b`. */
  lemma {:induction false} FillUpTo(m: Cached, k: nat, b: nat, s: nat, backtrack: nat)
    requires b <= s <= backtrack + 1 && s <= k + 1
    requires forall q :: q in m ==> q <= k - s || k - b < q
    requires s > backtrack || s > k || k - s in m
    ensures forall q :: q in Fill(m, k, b, backtrack) <==> q in m || k - s < q <= k - b
    ensures forall q :: q in Fill(m, k, b, backtrack) ==>
                          Fill(m, k, b, backtrack)[q] == if k - s < q <= k - b then 2 * q - k + backtrack else m[q]
    decreases s - b
  {
    if b < s {
      var m' := m[k - b := k - b + (backtrack - b)];
      FillUpTo(m', k, b + 1, s, backtrack);
      assert Fill(m, k, b, backtrack) == Fill(m', k, b + 1, backtrack);
    } else {
      assert Fill(m, k, b, backtrack) == m;
    }
  }

  /** No refresh of a history lies at or after `p` exactly when its last one lies before `p`. */
  lemma {:induction false} FirstAtEnd(h: seq<nat>, p: nat)
    requires Monotone(h)
    ensures FirstAt(h, p) == |h| <==> h == [] || h[|h| - 1] < p
    ensures FirstAt(h, p) < |h| ==> h[FirstAt(h, p)] <= h[|h| - 1]
  {
    var i := FirstAt(h, p);
    assert i < |h| - 1 ==> h[i] <= h[|h| - 1];
  }

  /**
   The closed form of the cache: period `p` is held exactly when the first refresh at or after it
   reached back to it and no later refresh found it expired, and its expiry is fixed by that
   first refresh alone.
   */
  ghost predicate Exact(h: seq<nat>, backtrack: nat, m: Cached) {
    forall p: nat :: ExactAt(h, backtrack, m, p)
  }

  predicate ExactAt(h: seq<nat>, backtrack: nat, m: Cached, p: nat) {
    var i := FirstAt(h, p);
    && (p in m <==> i < |h| && h[i] <= p + backtrack && (i == |h| - 1 || h[|h| - 1] + h[i] <= 2 * p + backtrack))
    && (p in m ==> m[p] == 2 * p - h[i] + backtrack)
  }

  lemma {:induction false} CacheExact(h: seq<nat>, backtrack: nat)
    requires Monotone(h)
    ensures Exact(h, backtrack, CacheAfter(h, backtrack))
  {
    if h != [] {
      var n := |h| - 1;
      CacheExact(h[..n], backtrack);
      RefreshExact(h[..n], h[n], CacheAfter(h[..n], backtrack), backtrack);
      assert h == h[..n] + [h[n]];
    }
  }

  /**
   The early exit is sound: a refresh in period `k` adds every period after the last refresh that
   lies within reach of `k`, and nothing else.
   */
  lemma {:induction false} RefreshFills(h: seq<nat>, k: nat, m: Cached, backtrack: nat)
    requires Monotone(h + [k])
    requires Exact(h, backtrack, m)
    ensures var from := if h == [] then 0 else h[|h| - 1] + 1;
            var r := Refresh(m, k, backtrack);
            && (forall q :: q in r <==> (q in m && k <= m[q]) || (from <= q <= k && k <= q + backtrack))
            && (forall q :: q in r ==> r[q] == if from <= q then 2 * q - k + backtrack else m[q])
  {
    var from: nat := if h == [] then 0 else h[|h| - 1] + 1;
    var kept := Purge(m, k);
    assert Monotone(h) by {
      forall i, j | 0 <= i < j < |h| ensures h[i] <= h[j] {
        assert (h + [k])[i] <= (h + [k])[j];
      }
    }
    assert h != [] ==> (h + [k])[|h| - 1] <= (h + [k])[|h|];
    forall q | q in kept ensures q < from {
      assert ExactAt(h, backtrack, m, q);
      FirstAtEnd(h, q);
    }
    var s: nat;
    if h != [] && k <= from - 1 + backtrack {
      s := k - (from - 1);
      FirstAtEnd(h, from - 1);
      assert ExactAt(h, backtrack, m, from - 1);
    } else {
      s := (if backtrack < k then backtrack else k) + 1;
    }
    FillUpTo(kept, k, 0, s, backtrack);
  }

  /** One refresh keeps the closed form, whatever the refreshes before it were. */
  lemma {:induction false} RefreshExact(h: seq<nat>, k: nat, m: Cached, backtrack: nat)
    requires Monotone(h + [k])
    requires Exact(h, backtrack, m)
    ensures Exact(h + [k], backtrack, Refresh(m, k, backtrack))
  {
    var g := h + [k];
    assert g[..|h|] == h;
    RefreshFills(h, k, m, backtrack);
    assert Monotone(h) by {
      forall i, j | 0 <= i < j < |h| ensures h[i] <= h[j] {
        assert g[i] <= g[j];
      }
    }
    var r := Refresh(m, k, backtrack);
    assert h != [] ==> g[|h| - 1] <= g[|h|];
    forall p: nat
      ensures ExactAt(g, backtrack, r, p)
    {
      assert ExactAt(h, backtrack, m, p);
      ExactStep(h, k, m, r, p, backtrack);
    }
  }

  lemma {:induction false} ExactStep(h: seq<nat>, k: nat, m: Cached, r: Cached, p: nat, backtrack: nat)
    requires Monotone(h) && (h != [] ==> h[|h| - 1] <= k)
    requires ExactAt(h, backtrack, m, p)
    requires var from := if h == [] then 0 else h[|h| - 1] + 1;
             && (p in r <==> (p in m && k <= m[p]) || (from <= p <= k && k <= p + backtrack))
             && (p in r ==> r[p] == if from <= p then 2 * p - k + backtrack else m[p])
    ensures ExactAt(h + [k], backtrack, r, p)
  {
    var g := h + [k];
    assert g[..|h|] == h;
    FirstAtEnd(h, p);
    var i := FirstAt(h, p);
    assert FirstAt(g, p) == if i < |h| then i else if p <= k then |h| else |h| + 1;
    if i < |h| {
      assert g[i] == h[i];
    }
  }

  /** A key of period `p` is cached and unexpired in period `k` exactly when `InWindow` says so. */
  lemma {:induction false} LiveExact(h: seq<nat>, p: nat, k: nat, backtrack: nat)
    requires Monotone(h) && forall i :: 0 <= i < |h| ==> h[i] <= k
    ensures var m := CacheAfter(h, backtrack);
            p in m && k <= m[p] <==> InWindow(h, p, k, backtrack)
  {
    CacheExact(h, backtrack);
    assert ExactAt(h, backtrack, CacheAfter(h, backtrack), p);
    FirstAtEnd(h, p);
  }

  /**
   The documentation promises every key `backtrack` further periods.  Once its first refresh has
   run, in period `j`, a key keeps that promise exactly when `j` is its own period.
   */
  lemma {:induction false} DocumentedWindowIff(h: seq<nat>, p: nat, backtrack: nat)
    requires FirstAt(h, p) < |h| && h[FirstAt(h, p)] <= p + backtrack
    ensures (forall k: nat :: h[FirstAt(h, p)] <= k <= p + backtrack ==> InWindow(h, p, k, backtrack))
            <==> h[FirstAt(h, p)] == p
  {
    if h[FirstAt(h, p)] != p {
      assert !InWindow(h, p, p + backtrack, backtrack);
    }
  }

  // ---------- runs ----------

  /**
   One locked section of an operation, with the clock reading taken under the lock.  `Encrypting` is
   an encryption; a decryption is a `Trying` and, if that fails, a `Refreshing` and a second `Trying`, with
   any sections of other threads in between.
   */
  datatype Section = Encrypting(at: nat) | Trying(at: nat) | Refreshing(at: nat)

  predicate Ordered(run: seq<Section>) {
    forall i, j :: 0 <= i < j < |run| ==> run[i].at <= run[j].at
  }

  /** The number of the period that second `t` lies in. */
  function PeriodNo(lifespan: nat, t: nat): (p: nat)
    requires lifespan >= 1
  {
    if t < lifespan then 0 else PeriodNo(lifespan, t - lifespan) + 1
  }

  lemma {:induction false} PeriodNoIs(lifespan: nat, t: nat)
    requires lifespan >= 1
    ensures PeriodNo(lifespan, t) == t / lifespan
  {
    if t >= lifespan {
      PeriodNoIs(lifespan, t - lifespan);
      assert t == lifespan * (t / lifespan) + t % lifespan;
      assert t - lifespan == lifespan * ((t - lifespan) / lifespan) + (t - lifespan) % lifespan;
      var q, q' := t / lifespan, (t - lifespan) / lifespan + 1;
      assert lifespan * q' == lifespan * (q' - 1) + lifespan;
      UniqueQuotient(lifespan, q, t % lifespan, q', (t - lifespan) % lifespan);
    }
  }

  lemma {:induction false} UniqueQuotient(d: nat, q: int, r: int, q': int, r': int)
    requires 0 <= r < d && 0 <= r' < d && d * q + r == d * q' + r'
    ensures q == q' && r == r'
  {
    MulCancel(d, q, q' + 1);
    MulCancel(d, q', q + 1);
  }

  lemma {:induction false} MulCancel(d: nat, x: int, y: int)
    requires d * x < d * y
    ensures x < y
  {
  }

  lemma {:induction false} PeriodNoMonotone(lifespan: nat, a: nat, b: nat)
    requires lifespan >= 1 && a <= b
    ensures PeriodNo(lifespan, a) <= PeriodNo(lifespan, b)
  {
    if a >= lifespan {
      PeriodNoMonotone(lifespan, a - lifespan, b - lifespan);
    }
  }

  /** The periods of the refreshes of a run, in order. */
  function Refreshes(run: seq<Section>, lifespan: nat): (h: seq<nat>)
    requires lifespan >= 1
  {
    if run == [] then []
    else
      var h := Refreshes(run[..|run| - 1], lifespan);
      var last := run[|run| - 1];
      if last.Refreshing? then h + [PeriodNo(lifespan, last.at)] else h
  }

  /** Whether the section at position `n` of the run finds the keys of period `p` cached and unexpired. */
  predicate Found(run: seq<Section>, lifespan: nat, backtrack: nat, n: nat, p: nat)
    requires lifespan >= 1 && n < |run|
  {
    var m := CacheAfter(Refreshes(run[..n], lifespan), backtrack);
    p in m && PeriodNo(lifespan, run[n].at) <= m[p]
  }

  lemma {:induction false} RefreshesBounded(run: seq<Section>, lifespan: nat, bound: nat)
    requires lifespan >= 1 && Ordered(run)
    requires forall i :: 0 <= i < |run| ==> run[i].at <= bound
    ensures Monotone(Refreshes(run, lifespan))
    ensures forall h :: h in Refreshes(run, lifespan) ==> h <= PeriodNo(lifespan, bound)
  {
    if run != [] {
      var last := run[|run| - 1];
      RefreshesBounded(run[..|run| - 1], lifespan, last.at);
      PeriodNoMonotone(lifespan, last.at, bound);
      var h := Refreshes(run[..|run| - 1], lifespan);
      forall i | 0 <= i < |h| ensures h[i] <= PeriodNo(lifespan, last.at) {
        assert h[i] in h;
      }
    }
  }

  lemma {:induction false} RefreshesContain(run: seq<Section>, lifespan: nat, i: nat)
    requires lifespan >= 1 && i < |run| && run[i].Refreshing?
    ensures PeriodNo(lifespan, run[i].at) in Refreshes(run, lifespan)
  {
    var h := Refreshes(run, lifespan);
    if i < |run| - 1 {
      RefreshesContain(run[..|run| - 1], lifespan, i);
    } else {
      assert h[|h| - 1] == PeriodNo(lifespan, run[i].at);
    }
  }

  /** In every run, what a section finds is settled by the first refresh at or after the key's period. */
  lemma {:induction false} FoundExact(run: seq<Section>, lifespan: nat, backtrack: nat, n: nat, p: nat)
    requires lifespan >= 1 && Ordered(run) && n < |run|
    ensures Found(run, lifespan, backtrack, n, p) <==>
            InWindow(Refreshes(run[..n], lifespan), p, PeriodNo(lifespan, run[n].at), backtrack)
    ensures forall h :: h in Refreshes(run[..n], lifespan) ==> h <= PeriodNo(lifespan, run[n].at)
    ensures Monotone(Refreshes(run[..n], lifespan))
  {
    RefreshesBounded(run[..n], lifespan, run[n].at);
    var h := Refreshes(run[..n], lifespan);
    forall i | 0 <= i < |h| ensures h[i] <= PeriodNo(lifespan, run[n].at) {
      assert h[i] in h;
    }
    LiveExact(h, p, PeriodNo(lifespan, run[n].at), backtrack);
  }

  /**
   A ciphertext made at position `e` of any run, decrypted by the sections `a`, `r`, `c`, with
   anything whatever in between: the second try finds its key exactly when the window of the first
   refresh at or after the key's period is still open.  That always holds while twice the age in
   periods is within `backtrack`, and never once the age exceeds `backtrack`.
   */
  lemma {:induction false} DecryptWindow(
    run: seq<Section>, lifespan: nat, backtrack: nat, e: nat, a: nat, r: nat, c: nat)
    requires lifespan >= 1 && Ordered(run)
    requires e < a < r < c < |run|
    requires run[e].Encrypting? && run[a].Trying? && run[r].Refreshing? && run[c].Trying?
    ensures var p := PeriodNo(lifespan, run[e].at);
            var k := PeriodNo(lifespan, run[c].at);
            var h := Refreshes(run[..c], lifespan);
            var i := FirstAt(h, p);
            && i < |h| && p <= h[i] <= PeriodNo(lifespan, run[r].at) <= k
            && (Found(run, lifespan, backtrack, c, p) <==> k + h[i] <= 2 * p + backtrack)
            && (2 * (k - p) <= backtrack ==> Found(run, lifespan, backtrack, c, p))
            && (k - p > backtrack ==> !Found(run, lifespan, backtrack, c, p))
            && (PeriodNo(lifespan, run[a].at) - p > backtrack ==>
                  !Found(run, lifespan, backtrack, a, p) && !Found(run, lifespan, backtrack, c, p))
  {
    var p := PeriodNo(lifespan, run[e].at);
    var h := Refreshes(run[..c], lifespan);
    FoundExact(run, lifespan, backtrack, c, p);
    FoundExact(run, lifespan, backtrack, a, p);
    assert run[..c][r] == run[r];
    RefreshesContain(run[..c], lifespan, r);
    PeriodNoMonotone(lifespan, run[e].at, run[r].at);
    PeriodNoMonotone(lifespan, run[r].at, run[c].at);
    PeriodNoMonotone(lifespan, run[a].at, run[c].at);
    var kr := PeriodNo(lifespan, run[r].at);
    var x :| 0 <= x < |h| && h[x] == kr;
    var i := FirstAt(h, p);
    assert i <= x;
    assert i == x || h[i] <= h[x];
  }

  /** With a cold cache, the decryption's own refresh decides: the key survives half of `backtrack`. */
  lemma {:induction false} ColdWindow(run: seq<Section>, lifespan: nat, backtrack: nat, e: nat, a: nat, r: nat, c: nat)
    requires lifespan >= 1 && Ordered(run)
    requires e < a < r < c < |run|
    requires run[e].Encrypting? && run[a].Trying? && run[r].Refreshing? && run[c].Trying?
    requires forall i :: 0 <= i < c && run[i].Refreshing? ==> i == r
    ensures var p := PeriodNo(lifespan, run[e].at);
            Found(run, lifespan, backtrack, c, p) <==>
            PeriodNo(lifespan, run[c].at) + PeriodNo(lifespan, run[r].at) <= 2 * p + backtrack
  {
    DecryptWindow(run, lifespan, backtrack, e, a, r, c);
    OnlyRefresh(run[..c], lifespan, r);
    var h := Refreshes(run[..c], lifespan);
    assert h[FirstAt(h, PeriodNo(lifespan, run[e].at))] in h;
    assert run[..c][r] == run[r];
  }

  lemma {:induction false} OnlyRefresh(run: seq<Section>, lifespan: nat, r: nat)
    requires lifespan >= 1
    requires forall i :: 0 <= i < |run| && run[i].Refreshing? ==> i == r
    ensures forall h :: h in Refreshes(run, lifespan) ==> r < |run| && h == PeriodNo(lifespan, run[r].at)
  {
    if run != [] {
      OnlyRefresh(run[..|run| - 1], lifespan, r);
    }
  }

  /** A key that some refresh cached in its own period lives through exactly `backtrack` more periods. */
  lemma {:induction false} OwnPeriodWindow(run: seq<Section>, lifespan: nat, backtrack: nat, r: nat, c: nat)
    requires lifespan >= 1 && Ordered(run) && r < c < |run| && run[r].Refreshing?
    ensures var p := PeriodNo(lifespan, run[r].at);
            Found(run, lifespan, backtrack, c, p) <==> PeriodNo(lifespan, run[c].at) <= p + backtrack
  {
    var p := PeriodNo(lifespan, run[r].at);
    var h := Refreshes(run[..c], lifespan);
    FoundExact(run, lifespan, backtrack, c, p);
    assert run[..c][r] == run[r];
    RefreshesContain(run[..c], lifespan, r);
    var x :| 0 <= x < |h| && h[x] == p;
    var i := FirstAt(h, p);
    assert i <= x;
    assert i == x || h[i] <= h[x];
  }
}
