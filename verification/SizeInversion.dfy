/** The plaintext size limit that belongs to a limit on the serialised StrongBox. */
module SizeInversion {

  const TAG_BYTES: nat := 16

  function CborBytesHeaderLength(len: nat): nat {
    if len <= 23 then 1
    else if len <= 0xff then 2
    else if len <= 0xffff then 3
    else if len <= 0xffff_ffff then 5
    else 9
  }

  /** Magic, array head, key id, nonce, the head of the sealed bytes, and the tag. */
  function StrongBoxOverhead(plaintextBytes: nat): nat {
    3 + 1 + CborBytesHeaderLength(16) + 16 + CborBytesHeaderLength(12) + 12
    + CborBytesHeaderLength(plaintextBytes + TAG_BYTES) + TAG_BYTES
  }

  function Next(limit: int, estimate: nat): nat {
    if limit < StrongBoxOverhead(estimate) then 0 else limit - StrongBoxOverhead(estimate)
  }

  /** The loop's estimate after `n` turns. */
  function Estimate(limit: int, n: nat): nat {
    if n == 0 then if limit < 0 then 0 else limit else Next(limit, Estimate(limit, n - 1))
  }

  /** The loop ends in the turn that leaves the estimate as it was. */
  ghost predicate Stops(limit: int) {
    exists n: nat :: SameAfter(limit, n)
  }

  predicate SameAfter(limit: int, n: nat) {
    Estimate(limit, n + 1) == Estimate(limit, n)
  }

  /** The limits that lie between two sizes because the length head grows there. */
  predicate Skipped(limit: int) {
    || limit == 59
    || limit == 292
    || limit == 65573 || limit == 65574
    || 4294967335 <= limit <= 4294967338
  }

  // ---------- what fits ----------

  ghost predicate Largest(limit: int, p: nat) {
    && p + StrongBoxOverhead(p) <= limit
    && forall q: nat :: q + StrongBoxOverhead(q) <= limit ==> q <= p
  }

  lemma {:induction false} SizeIncreases(p: nat, q: nat)
    requires p < q
    ensures p + StrongBoxOverhead(p) < q + StrongBoxOverhead(q)
  {
  }

  ghost predicate IsSize(size: int) {
    exists p: nat :: p + StrongBoxOverhead(p) == size
  }

  /** The sizes a StrongBox can have are all numbers from 51 on except the skipped ones. */
  lemma {:induction false} IsSizeIff(size: int)
    ensures IsSize(size) <==> size >= 51 && !Skipped(size)
  {
    if size >= 51 && !Skipped(size) {
      Settles(size);
      assert Estimate(size, 2) + StrongBoxOverhead(Estimate(size, 2)) == size;
    }
  }

  // ---------- the loop ----------

  /** After two turns the estimate stays. */
  lemma {:induction false} Settles(limit: int)
    requires !Skipped(limit)
    ensures SameAfter(limit, 2)
    ensures limit >= 51 ==> Estimate(limit, 2) + StrongBoxOverhead(Estimate(limit, 2)) == limit
    ensures limit < 51 ==> Estimate(limit, 2) == 0
  {
    Unfold(limit);
  }

  lemma {:induction false} Unfold(limit: int)
    ensures Estimate(limit, 1) == Next(limit, Estimate(limit, 0))
    ensures Estimate(limit, 2) == Next(limit, Estimate(limit, 1))
    ensures Estimate(limit, 3) == Next(limit, Estimate(limit, 2))
  {
  }

  /** For a skipped limit the estimate swaps between two values for ever. */
  lemma {:induction false} Alternates(limit: int, n: nat)
    requires Skipped(limit)
    ensures Estimate(limit, 2 * n + 1) == Estimate(limit, 1)
    ensures Estimate(limit, 2 * n + 2) == Estimate(limit, 2)
    ensures Estimate(limit, 0) != Estimate(limit, 1) && Estimate(limit, 1) < Estimate(limit, 2)
  {
    Unfold(limit);
    if n > 0 {
      Alternates(limit, n - 1);
    }
  }

  /** The loop ends exactly for the limits that are not skipped. */
  lemma {:induction false} StopsIff(limit: int)
    ensures Stops(limit) <==> !Skipped(limit)
  {
    if !Skipped(limit) {
      Settles(limit);
    } else {
      forall n: nat ensures !SameAfter(limit, n) {
        NeverSame(limit, n);
      }
    }
  }

  lemma {:induction false} NeverSame(limit: int, n: nat)
    requires Skipped(limit)
    ensures !SameAfter(limit, n)
  {
    Alternates(limit, n / 2);
    Alternates(limit, if n < 2 then 0 else n / 2 - 1);
  }

  /**
   Repeats until the estimate stays.  For the skipped limits it would not end; for every other one
   it gives the greatest plaintext size that fits, which fills the limit exactly, or 0 if none fits.
   */
  method MaxPlaintextBytes(limit: int) returns (p: nat)
    requires !Skipped(limit)
    ensures limit >= 51 ==> Largest(limit, p) && p + StrongBoxOverhead(p) == limit
    ensures limit < 51 ==> p == 0 && forall q: nat :: q + StrongBoxOverhead(q) > limit
  {
    Settles(limit);
    var estimate := if limit < 0 then 0 else limit;
    ghost var n := 0;
    while true
      invariant n <= 2 && estimate == Estimate(limit, n)
      decreases 2 - n
    {
      var overhead := StrongBoxOverhead(estimate);
      var next := if limit < overhead then 0 else limit - overhead;
      if next == estimate {
        FixedPoint(limit, next);
        return next;
      }
      estimate := next;
      n := n + 1;
    }
  }

  lemma {:induction false} FixedPoint(limit: int, p: nat)
    requires p == Next(limit, p)
    ensures limit >= 51 ==> Largest(limit, p) && p + StrongBoxOverhead(p) == limit
    ensures limit < 51 ==> p == 0 && forall q: nat :: q + StrongBoxOverhead(q) > limit
  {
    if limit >= 51 {
      forall q: nat | q + StrongBoxOverhead(q) <= limit ensures q <= p {
        if p < q {
          SizeIncreases(p, q);
        }
      }
    }
  }

  /** The limit of the attachments, 10 MiB. */
  lemma {:induction false} TenMebibytes(p: nat)
    ensures Largest(10 * 1024 * 1024, p) <==> p == 10485705
  {
    FixedPoint(10 * 1024 * 1024, 10485705);
  }
}
