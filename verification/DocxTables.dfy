/**
 HTML tables in the Markdown of a converted document: where the table that begins at some position
 ends, when tables are nested to any depth and any tag may be missing.
 */
module DocxTables {
  import opened Basics
  import opened TextSearch

  const OPEN: string := "<table"

  const CLOSE: string := "</table>"

  predicate OpenAt(text: string, k: nat) { At(text, OPEN, k) }

  predicate CloseAt(text: string, k: nat) { At(text, CLOSE, k) }

  lemma {:induction false} TagsStart(text: string, k: nat)
    ensures OpenAt(text, k) ==> text[k] == '<' && text[k + 1] == 't'
    ensures CloseAt(text, k) ==> text[k] == '<' && text[k + 1] == '/'
  {
    if OpenAt(text, k) {
      assert text[k..k + 6][0] == '<' && text[k..k + 6][1] == 't';
    }
    if CloseAt(text, k) {
      assert text[k..k + 8][0] == '<' && text[k..k + 8][1] == '/';
    }
  }

  /** What a position adds to the nesting depth. */
  function Weight(text: string, k: nat): int {
    if OpenAt(text, k) then 1 else if CloseAt(text, k) then -1 else 0
  }

  /** Opening less closing tags that start in `from..until`. */
  function Balance(text: string, from: nat, until: nat): int
    decreases until
  {
    if until <= from then 0 else Balance(text, from, until - 1) + Weight(text, until - 1)
  }

  /** The closing tag at `c` balances the opening ones, and none before it did. */
  ghost predicate ClosesAt(text: string, start: nat, c: nat) {
    start <= c && CloseAt(text, c) && Balance(text, start, c + 1) == 0 && StaysOpen(text, start, c)
  }

  ghost predicate StaysOpen(text: string, start: nat, until: nat) {
    forall p :: start <= p < until && CloseAt(text, p) ==> Balance(text, start, p + 1) > 0
  }

  lemma {:induction false} ClosesOnce(text: string, start: nat, c: nat, d: nat)
    requires ClosesAt(text, start, c) && ClosesAt(text, start, d)
    ensures c == d
  {
  }

  /** No tag starts in `from..until`. */
  ghost predicate Clean(text: string, from: nat, until: nat) {
    forall i :: from <= i < until ==> !OpenAt(text, i) && !CloseAt(text, i)
  }

  /** Positions where no tag starts change neither the balance nor what stays open. */
  lemma {:induction false} Quiet(text: string, start: nat, from: nat, until: nat)
    requires start <= from <= until && Clean(text, from, until)
    ensures Balance(text, start, until) == Balance(text, start, from)
    ensures StaysOpen(text, start, from) ==> StaysOpen(text, start, until)
    decreases until
  {
    if from < until {
      Quiet(text, start, from, until - 1);
    }
  }

  lemma {:induction false} InsideOpen(text: string, k: nat)
    requires OpenAt(text, k)
    ensures Clean(text, k + 1, k + 6)
  {
    forall i | k + 1 <= i < k + 6 ensures !OpenAt(text, i) && !CloseAt(text, i) {
      TagsStart(text, i);
      assert text[i] == text[k..k + 6][i - k] == OPEN[i - k];
    }
  }

  lemma {:induction false} InsideClose(text: string, k: nat)
    requires CloseAt(text, k)
    ensures Clean(text, k + 1, k + 8)
  {
    forall i | k + 1 <= i < k + 8 ensures !OpenAt(text, i) && !CloseAt(text, i) {
      TagsStart(text, i);
      assert text[i] == text[k..k + 8][i - k] == CLOSE[i - k];
    }
  }

  lemma {:induction false} NotBoth(text: string, k: nat)
    ensures !(OpenAt(text, k) && CloseAt(text, k))
  {
    TagsStart(text, k);
  }

  /** The scan has come to `from` at a nesting depth, and nothing has closed. */
  ghost predicate Reached(text: string, start: nat, from: nat, depth: int) {
    start <= from && depth == Balance(text, start, from) && StaysOpen(text, start, from)
  }

  /** From one search position to just after the next tag, an opening one. */
  lemma {:induction false} PassOpen(text: string, start: nat, from: nat, depth: int, k: nat)
    requires Reached(text, start, from, depth) && from <= k && Clean(text, from, k) && OpenAt(text, k)
    ensures Reached(text, start, k + |OPEN|, depth + 1)
  {
    Quiet(text, start, from, k);
    NotBoth(text, k);
    assert StaysOpen(text, start, k + 1);
    InsideOpen(text, k);
    Quiet(text, start, k + 1, k + 6);
  }

  /** From one search position to just after the next tag, a closing one. */
  lemma {:induction false} PassClose(text: string, start: nat, from: nat, depth: int, k: nat)
    requires Reached(text, start, from, depth) && from <= k && Clean(text, from, k) && CloseAt(text, k)
    ensures depth > 1 ==> Reached(text, start, k + |CLOSE|, depth - 1)
    ensures depth == 1 ==> ClosesAt(text, start, k)
    ensures depth < 1 ==> forall c :: !ClosesAt(text, start, c)
  {
    Quiet(text, start, from, k);
    NotBoth(text, k);
    InsideClose(text, k);
    Quiet(text, start, k + 1, k + 8);
    TooMany(text, start, k);
  }

  /** After a closing tag too many nothing balances any more. */
  lemma {:induction false} TooMany(text: string, start: nat, k: nat)
    requires start <= k && CloseAt(text, k) && StaysOpen(text, start, k)
    ensures Balance(text, start, k + 1) < 0 ==> forall c :: !ClosesAt(text, start, c)
  {
  }

  /** Between a position and the first tags after it there is no tag. */
  lemma {:induction false} FoundFirst(text: string, from: nat, open: Option<nat>, close: nat)
    requires Find(text, CLOSE, from) == Some(close) && Find(text, OPEN, from) == open
    ensures open.Some? && open.value < close ==> Clean(text, from, open.value)
    ensures open.None? || close <= open.value ==> Clean(text, from, close)
  {
  }

  lemma {:induction false} NeverCloses(text: string, start: nat, from: nat, depth: int)
    requires Reached(text, start, from, depth) && NoneIn(text, CLOSE, from, |text| + 1)
    ensures forall c :: !ClosesAt(text, start, c)
  {
  }

  /** The end of the shortest balanced run from a position. */
  ghost function TableEnd(text: string, start: nat): (r: Option<nat>)
    ensures match r
            case Some(e) => start + |CLOSE| <= e <= |text| && ClosesAt(text, start, e - |CLOSE|)
            case None => forall c :: !ClosesAt(text, start, c)
  {
    if c: nat :| ClosesAt(text, start, c) then Some(c + |CLOSE|) else None
  }

  lemma {:induction false} EndIs(text: string, start: nat, c: nat)
    requires ClosesAt(text, start, c)
    ensures TableEnd(text, start) == Some(c + |CLOSE|)
  {
    ClosesOnce(text, start, c, TableEnd(text, start).value - |CLOSE|);
  }

  /** The end of the table that opens at `tableStart`: just after the shortest balanced run; none if there is none. */
  method FindTableEnd(markdown: string, tableStart: nat) returns (end: Option<nat>)
    requires tableStart <= |markdown|
    ensures end == TableEnd(markdown, tableStart)
  {
    var depth := 0;
    var searchFrom := tableStart;
    while searchFrom < |markdown|
      invariant searchFrom <= |markdown| && depth >= 0
      invariant Reached(markdown, tableStart, searchFrom, depth)
      decreases |markdown| - searchFrom
    {
      var nextOpen := Search(markdown, OPEN, searchFrom);
      var nextClose := Search(markdown, CLOSE, searchFrom);
      if nextClose.None? {
        NeverCloses(markdown, tableStart, searchFrom, depth);
        return None;
      }
      var close := nextClose.value;
      FoundFirst(markdown, searchFrom, nextOpen, close);
      if nextOpen.Some? && nextOpen.value < close {
        PassOpen(markdown, tableStart, searchFrom, depth, nextOpen.value);
        depth := depth + 1;
        searchFrom := nextOpen.value + |OPEN|;
      } else {
        PassClose(markdown, tableStart, searchFrom, depth, close);
        if depth == 0 {
          return None;
        }
        depth := depth - 1;
        searchFrom := close + |CLOSE|;
        if depth == 0 {
          EndIs(markdown, tableStart, close);
          return Some(searchFrom);
        }
      }
    }
    NeverCloses(markdown, tableStart, searchFrom, depth);
    return None;
  }
}
