/** Pairs of an opening and a closing tag in a text, and the rewriting of what they enclose. */
module DocxPairs {
  import opened Basics
  import opened TextSearch

  /** The text between pairs, and the text that a pair encloses. */
  datatype Chunk = Around(text: string) | Pair(inner: string)

  /** In order: around, pair, around, pair and so on; after an opening tag that is not closed all is around. */
  ghost function Chunks(text: string, open: string, close: string): seq<Chunk>
    requires open != ""
    decreases |text|
  {
    match Find(text, open, 0)
    case None => [Around(text)]
    case Some(k) =>
      match Find(text, close, k + |open|)
      case None => [Around(text)]
      case Some(c) => [Around(text[..k]), Pair(text[k + |open|..c])] + Chunks(text[c + |close|..], open, close)
  }

  /** The text that was cut up. */
  function Source(chunks: seq<Chunk>, open: string, close: string): string {
    if chunks == [] then ""
    else
      (match chunks[0]
       case Around(text) => text
       case Pair(inner) => open + (inner + close)) + Source(chunks[1..], open, close)
  }

  /** Each pair, with its tags, gives way to the rewriting of what it encloses. */
  function Replaced(chunks: seq<Chunk>, body: string -> string): string {
    if chunks == [] then ""
    else
      (match chunks[0]
       case Around(text) => text
       case Pair(inner) => body(inner)) + Replaced(chunks[1..], body)
  }

  /**
   What it means to be cut at the pairs: each opening tag is the first since the pair before, each
   closing tag the first after it, and what comes last has no opening tag or one that is never closed.
   */
  ghost predicate WellCut(chunks: seq<Chunk>, open: string, close: string) {
    chunks != [] && chunks[0].Around?
    && if |chunks| == 1 then NoPair(chunks[0].text, open, close)
       else
         && chunks[1].Pair?
         && FirstAt(chunks[0].text + open, open, 0, |chunks[0].text|)
         && FirstAt(chunks[1].inner + close, close, 0, |chunks[1].inner|)
         && WellCut(chunks[2..], open, close)
  }

  ghost predicate NoPair(text: string, open: string, close: string) {
    || NoneIn(text, open, 0, |text| + 1)
    || exists k: nat :: FirstAt(text, open, 0, k) && NoneIn(text, close, k + |open|, |text| + 1)
  }

  lemma {:induction false} TwoChunks(a: string, b: string, rest: seq<Chunk>, open: string, close: string)
    ensures Source([Around(a), Pair(b)] + rest, open, close) == a + ((open + (b + close)) + Source(rest, open, close))
  {
    assert ([Around(a), Pair(b)] + rest)[1..] == [Pair(b)] + rest;
    assert ([Pair(b)] + rest)[1..] == rest;
  }

  lemma {:induction false} TwoReplaced(a: string, b: string, rest: seq<Chunk>, body: string -> string)
    ensures Replaced([Around(a), Pair(b)] + rest, body) == a + (body(b) + Replaced(rest, body))
  {
    assert ([Around(a), Pair(b)] + rest)[1..] == [Pair(b)] + rest;
    assert ([Pair(b)] + rest)[1..] == rest;
  }

  lemma {:induction false} OneChunk(text: string, open: string, close: string, body: string -> string)
    ensures Source([Around(text)], open, close) == text && Replaced([Around(text)], body) == text
  {
    assert [Around(text)][1..] == [];
  }

  lemma {:induction false} AtIs(text: string, pattern: string, k: nat)
    requires At(text, pattern, k)
    ensures text[k..] == pattern + text[k + |pattern|..]
  {
  }

  lemma {:induction false} ChunksAt(text: string, open: string, close: string, k: nat, c: nat)
    requires open != "" && Find(text, open, 0) == Some(k) && Find(text, close, k + |open|) == Some(c)
    ensures c + |close| <= |text|
    ensures Chunks(text, open, close)
         == [Around(text[..k]), Pair(text[k + |open|..c])] + Chunks(text[c + |close|..], open, close)
  {
  }

  lemma {:induction false} NoPairAt(text: string, open: string, close: string)
    requires open != "" && (Find(text, open, 0).Some? ==> Find(text, close, Find(text, open, 0).value + |open|).None?)
    ensures Chunks(text, open, close) == [Around(text)] && NoPair(text, open, close)
  {
    if Find(text, open, 0).Some? {
      assert FirstAt(text, open, 0, Find(text, open, 0).value);
    }
  }

  /** Nothing is lost or moved by cutting the text up, and it is cut at the pairs. */
  lemma {:induction false} ChunksCut(text: string, open: string, close: string)
    requires open != ""
    ensures Source(Chunks(text, open, close), open, close) == text
    ensures WellCut(Chunks(text, open, close), open, close)
    decreases |text|, 1
  {
    var start := Find(text, open, 0);
    if start.Some? && Find(text, close, start.value + |open|).Some? {
      CutAt(text, open, close, start.value, Find(text, close, start.value + |open|).value);
    } else {
      NoPairAt(text, open, close);
      OneChunk(text, open, close, t => t);
    }
  }

  lemma {:induction false} CutAt(text: string, open: string, close: string, k: nat, c: nat)
    requires open != "" && Find(text, open, 0) == Some(k) && Find(text, close, k + |open|) == Some(c)
    ensures Source(Chunks(text, open, close), open, close) == text
    ensures WellCut(Chunks(text, open, close), open, close)
    decreases |text|, 0
  {
    ChunksAt(text, open, close, k, c);
    var rest := text[c + |close|..];
    ChunksCut(rest, open, close);
    TwoChunks(text[..k], text[k + |open|..c], Chunks(rest, open, close), open, close);
    PairCut(text, open, close, k, c);
    CutFirst(text, open, close, k, c, Chunks(rest, open, close));
  }

  lemma {:induction false} CutFirst(text: string, open: string, close: string, k: nat, c: nat, rest: seq<Chunk>)
    requires FirstAt(text, open, 0, k) && FirstAt(text, close, k + |open|, c) && WellCut(rest, open, close)
    ensures WellCut([Around(text[..k]), Pair(text[k + |open|..c])] + rest, open, close)
  {
    FirstWithin(text, open, 0, k);
    FirstWithin(text, close, k + |open|, c);
    assert ([Around(text[..k]), Pair(text[k + |open|..c])] + rest)[2..] == rest;
  }

  lemma {:induction false} PairCut(text: string, open: string, close: string, k: nat, c: nat)
    requires At(text, open, k) && k + |open| <= c && At(text, close, c)
    ensures text == text[..k] + ((open + (text[k + |open|..c] + close)) + text[c + |close|..])
  {
    AtIs(text, open, k);
    AtIs(text, close, c);
  }

  /** A first occurrence is one in the text up to its own end. */
  lemma {:induction false} FirstWithin(text: string, pattern: string, from: nat, k: nat)
    requires FirstAt(text, pattern, from, k)
    ensures FirstAt(text[from..k] + pattern, pattern, 0, k - from)
  {
    var part := text[from..k + |pattern|];
    assert text[from..k] + pattern == part;
    AtWithin(text, pattern, from, k + |pattern|, k - from);
    forall i | 0 <= i < k - from ensures !At(part, pattern, i) {
      AtWithin(text, pattern, from, k + |pattern|, i);
    }
  }

  lemma {:induction false} FirstPrefix(text: string, pattern: string, k: nat)
    requires FirstAt(text, pattern, 0, k)
    ensures FirstAt(text[..k] + pattern, pattern, 0, k)
  {
    FirstWithin(text, pattern, 0, k);
    assert text[0..k] == text[..k];
  }

  /** And the other way round, with anything before and after it. */
  lemma {:induction false} FirstBeyond(before: string, text: string, pattern: string, after: string)
    requires FirstAt(text + pattern, pattern, 0, |text|)
    ensures FirstAt(before + ((text + pattern) + after), pattern, |before|, |before| + |text|)
  {
    var whole := before + ((text + pattern) + after);
    var end := |before| + |text| + |pattern|;
    assert whole[|before|..end] == text + pattern;
    AtWithin(whole, pattern, |before|, end, |text|);
    forall i | |before| <= i < |before| + |text| ensures !At(whole, pattern, i) {
      AtWithin(whole, pattern, |before|, end, i - |before|);
    }
  }

  /** There is only one such cutting of a text. */
  lemma {:induction false} CutUnique(chunks: seq<Chunk>, open: string, close: string)
    requires open != "" && WellCut(chunks, open, close)
    ensures Chunks(Source(chunks, open, close), open, close) == chunks
    decreases |chunks|
  {
    var a := chunks[0].text;
    if |chunks| == 1 {
      assert chunks == [Around(a)];
      OneChunk(a, open, close, t => t);
      NoPairFound(a, open, close);
    } else {
      var b, rest := chunks[1].inner, Source(chunks[2..], open, close);
      assert chunks == [Around(a), Pair(b)] + chunks[2..];
      CutUnique(chunks[2..], open, close);
      TwoChunks(a, b, chunks[2..], open, close);
      PairFound(a, b, rest, open, close);
    }
  }

  lemma {:induction false} NoPairFound(text: string, open: string, close: string)
    requires open != "" && NoPair(text, open, close)
    ensures Chunks(text, open, close) == [Around(text)]
  {
    if k: nat :| FirstAt(text, open, 0, k) && NoneIn(text, close, k + |open|, |text| + 1) {
      FindIs(text, open, 0, k);
    }
  }

  lemma {:induction false} PairFound(a: string, b: string, rest: string, open: string, close: string)
    requires open != "" && FirstAt(a + open, open, 0, |a|) && FirstAt(b + close, close, 0, |b|)
    ensures var text := a + ((open + (b + close)) + rest);
            Chunks(text, open, close) == [Around(a), Pair(b)] + Chunks(rest, open, close)
  {
    var text := a + ((open + (b + close)) + rest);
    FoundOpen(a, b, rest, open, close);
    FoundClose(a, b, rest, open, close);
    Parts(a, open, b, close, rest);
  }

  lemma {:induction false} FoundOpen(a: string, b: string, rest: string, open: string, close: string)
    requires FirstAt(a + open, open, 0, |a|)
    ensures Find(a + ((open + (b + close)) + rest), open, 0) == Some(|a|)
  {
    FirstBeyond("", a, open, (b + close) + rest);
    assert "" + ((a + open) + ((b + close) + rest)) == a + ((open + (b + close)) + rest);
    FindIs(a + ((open + (b + close)) + rest), open, 0, |a|);
  }

  lemma {:induction false} FoundClose(a: string, b: string, rest: string, open: string, close: string)
    requires FirstAt(b + close, close, 0, |b|)
    ensures Find(a + ((open + (b + close)) + rest), close, |a| + |open|) == Some(|a| + |open| + |b|)
  {
    FirstBeyond(a + open, b, close, rest);
    assert (a + open) + ((b + close) + rest) == a + ((open + (b + close)) + rest);
    FindIs(a + ((open + (b + close)) + rest), close, |a| + |open|, |a| + |open| + |b|);
  }

  lemma {:induction false} Parts(a: string, open: string, b: string, close: string, rest: string)
    ensures var text := a + ((open + (b + close)) + rest);
            var c := |a| + |open| + |b|;
            && |text| == c + |close| + |rest|
            && text[..|a|] == a && text[|a| + |open|..c] == b && text[c + |close|..] == rest
  {
  }

  /** A text without the opening tag does not change. */
  lemma {:induction false} NoTagNoChange(text: string, open: string, close: string, body: string -> string)
    requires open != "" && forall i: nat :: !At(text, open, i)
    ensures Replaced(Chunks(text, open, close), body) == text
  {
    assert Find(text, open, 0) == None;
    OneChunk(text, open, close, body);
  }

  /** If each pair gives way to itself, nothing changes. */
  lemma {:induction false} RestoredWhole(text: string, open: string, close: string, body: string -> string)
    requires open != "" && forall inner :: body(inner) == open + (inner + close)
    ensures Replaced(Chunks(text, open, close), body) == text
  {
    ChunksCut(text, open, close);
    SourceReplaced(Chunks(text, open, close), open, close, body);
  }

  lemma {:induction false} SourceReplaced(chunks: seq<Chunk>, open: string, close: string, body: string -> string)
    requires forall inner :: body(inner) == open + (inner + close)
    ensures Replaced(chunks, body) == Source(chunks, open, close)
  {
    if chunks != [] {
      SourceReplaced(chunks[1..], open, close, body);
    }
  }

  // ---------- the loop ----------

  method NormalizePairs(markdown: string, openTag: string, closeTag: string, body: string -> string)
    returns (normalized: string)
    requires openTag != ""
    ensures normalized == Replaced(Chunks(markdown, openTag, closeTag), body)
  {
    normalized := "";
    var remaining := markdown;
    ghost var whole := Replaced(Chunks(markdown, openTag, closeTag), body);
    assert normalized + whole == whole;
    while true
      invariant normalized + Replaced(Chunks(remaining, openTag, closeTag), body) == whole
      decreases |remaining|
    {
      var tagStart := Search(remaining, openTag, 0);
      if tagStart.None? {
        OneChunk(remaining, openTag, closeTag, body);
        return normalized + remaining;
      }
      var start := tagStart.value;
      var innerStart := start + |openTag|;
      var innerEnd := Search(remaining, closeTag, innerStart);
      if innerEnd.None? {
        OneChunk(remaining, openTag, closeTag, body);
        CutInTwo(remaining, start);
        Assoc(normalized, remaining[..start], remaining[start..]);
        return normalized + remaining[..start] + remaining[start..];
      }
      var inner := remaining[innerStart..innerEnd.value];
      var rewritten := body(inner);
      var after := remaining[innerEnd.value + |closeTag|..];
      TwoReplaced(remaining[..start], inner, Chunks(after, openTag, closeTag), body);
      Extend(normalized, remaining[..start], rewritten, Replaced(Chunks(after, openTag, closeTag), body),
             Replaced(Chunks(remaining, openTag, closeTag), body), whole);
      normalized := normalized + remaining[..start] + rewritten;
      remaining := after;
    }
  }
}
