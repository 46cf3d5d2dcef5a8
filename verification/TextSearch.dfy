/**
 Finding one text in another: an occurrence at a position, the first occurrence at or after a
 position, and the plain search that finds it.  A first occurrence is a specification here, and
 what the rewriting loops find is tied to it.  A few laws of cutting and joining texts follow, in
 the form in which those loops use them.
 */
module TextSearch {
  import opened Basics

  predicate At(text: string, pattern: string, k: nat) {
    k + |pattern| <= |text| && text[k..k + |pattern|] == pattern
  }

  ghost predicate FirstAt(text: string, pattern: string, from: nat, k: nat) {
    from <= k && At(text, pattern, k) && NoneIn(text, pattern, from, k)
  }

  ghost predicate NoneIn(text: string, pattern: string, from: nat, until: nat) {
    forall i :: from <= i < until ==> !At(text, pattern, i)
  }

  /** The first occurrence at or after a position. */
  ghost function Find(text: string, pattern: string, from: nat): (r: Option<nat>)
    ensures match r
            case Some(k) => FirstAt(text, pattern, from, k)
            case None => NoneIn(text, pattern, from, |text| + 1)
  {
    if k: nat :| FirstAt(text, pattern, from, k) then Some(k)
    else
      NoneFound(text, pattern, from, |text| + 1);
      None
  }

  lemma {:induction false} NoneFound(text: string, pattern: string, from: nat, until: nat)
    requires forall k: nat :: !FirstAt(text, pattern, from, k)
    ensures NoneIn(text, pattern, from, until)
    decreases until
  {
    if until > 0 {
      NoneFound(text, pattern, from, until - 1);
      if from <= until - 1 && At(text, pattern, until - 1) {
        assert FirstAt(text, pattern, from, until - 1);
      }
    }
  }

  lemma {:induction false} FindIs(text: string, pattern: string, from: nat, k: nat)
    requires FirstAt(text, pattern, from, k)
    ensures Find(text, pattern, from) == Some(k)
  {
  }

  method Search(text: string, pattern: string, from: nat) returns (r: Option<nat>)
    requires from <= |text|
    ensures r == Find(text, pattern, from)
  {
    for k := from to |text| + 1
      invariant NoneIn(text, pattern, from, k)
    {
      if At(text, pattern, k) {
        FindIs(text, pattern, from, k);
        return Some(k);
      }
    }
    return None;
  }

  lemma {:induction false} SliceOfSlice(text: string, from: nat, end: nat, i: nat, j: nat)
    requires i <= j && from + j <= end <= |text|
    ensures text[from..end][i..j] == text[from + i..from + j]
  {
    forall k | 0 <= k < j - i ensures text[from..end][i..j][k] == text[from + i..from + j][k] {
      assert text[from..end][i + k] == text[from + i + k];
    }
  }

  /** An occurrence inside a part of the text is one of the text. */
  lemma {:induction false} AtWithin(text: string, pattern: string, from: nat, end: nat, i: nat)
    requires from + i + |pattern| <= end <= |text|
    ensures At(text[from..end], pattern, i) <==> At(text, pattern, from + i)
  {
    SliceOfSlice(text, from, end, i, i + |pattern|);
  }

  lemma {:induction false} Assoc(a: string, b: string, c: string)
    ensures (a + b) + c == a + (b + c)
  {
  }

  /** What is done so far grows by two parts of what is left. */
  lemma {:induction false} Extend(done: string, a: string, b: string, rest: string, left: string, whole: string)
    requires done + left == whole && left == a + (b + rest)
    ensures done + a + b + rest == whole
  {
    Assoc(done, a, b + rest);
    Assoc(done + a, b, rest);
  }

  lemma {:induction false} CutInTwo(text: string, k: nat)
    requires k <= |text|
    ensures text == text[..k] + text[k..]
  {
  }

  lemma {:induction false} CutInThree(text: string, k: nat, e: nat)
    requires k <= e <= |text|
    ensures text == text[..k] + (text[k..e] + text[e..])
  {
  }
}
