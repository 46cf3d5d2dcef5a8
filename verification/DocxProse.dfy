/** Rewriting of tables and inline tags in the Markdown of a converted document. */
module DocxProse {
  import opened Basics
  import opened TextSearch
  import opened DocxTables
  import opened DocxPairs

  /** What the libraries provide: which characters are white space, and HTML as Markdown. */
  datatype Library = Library(space: char -> bool, html: string -> string)

  // ---------- tables ----------

  datatype Segment = Outside(text: string) | Table(text: string)

  /** The text in order: outside, table, outside, table and so on; after a table that does not end, all is outside. */
  ghost function Segments(text: string): seq<Segment>
    decreases |text|
  {
    match Find(text, OPEN, 0)
    case None => [Outside(text)]
    case Some(k) =>
      match TableEnd(text, k)
      case None => [Outside(text)]
      case Some(e) => [Outside(text[..k]), Table(text[k..e])] + Segments(text[e..])
  }

  function Flatten(segments: seq<Segment>): string {
    if segments == [] then [] else segments[0].text + Flatten(segments[1..])
  }

  /** Only the tables change. */
  function Rendered(segments: seq<Segment>, table: string -> string): string {
    if segments == [] then []
    else
      (match segments[0]
       case Outside(text) => text
       case Table(text) => table(text)) + Rendered(segments[1..], table)
  }

  lemma {:induction false} FlattenTwo(a: string, b: string, rest: seq<Segment>)
    ensures Flatten([Outside(a), Table(b)] + rest) == a + (b + Flatten(rest))
  {
    assert ([Outside(a), Table(b)] + rest)[1..] == [Table(b)] + rest;
    assert ([Table(b)] + rest)[1..] == rest;
  }

  lemma {:induction false} RenderedTwo(a: string, b: string, rest: seq<Segment>, table: string -> string)
    ensures Rendered([Outside(a), Table(b)] + rest, table) == a + (table(b) + Rendered(rest, table))
  {
    assert ([Outside(a), Table(b)] + rest)[1..] == [Table(b)] + rest;
    assert ([Table(b)] + rest)[1..] == rest;
  }

  lemma {:induction false} Whole(text: string, table: string -> string)
    ensures Flatten([Outside(text)]) == text && Rendered([Outside(text)], table) == text
  {
    assert [Outside(text)][1..] == [];
  }

  /** Nothing is lost or moved by cutting the text up. */
  lemma {:induction false} SegmentsFlatten(text: string)
    ensures Flatten(Segments(text)) == text
    decreases |text|
  {
    var k := Find(text, OPEN, 0);
    if k.Some? && TableEnd(text, k.value).Some? {
      var e := TableEnd(text, k.value).value;
      SegmentsFlatten(text[e..]);
      FlattenTwo(text[..k.value], text[k.value..e], Segments(text[e..]));
      CutInThree(text, k.value, e);
    } else {
      Whole(text, t => t);
    }
  }

  /** A table by itself: it opens at its beginning and first balances at its end. */
  ghost predicate Balanced(t: string) {
    |t| >= |CLOSE| && OpenAt(t, 0) && ClosesAt(t, 0, |t| - |CLOSE|)
  }

  lemma {:induction false} TagsWithin(text: string, from: nat, end: nat, i: nat)
    requires from <= end <= |text| && from + i + |CLOSE| <= end
    ensures OpenAt(text[from..end], i) <==> OpenAt(text, from + i)
    ensures CloseAt(text[from..end], i) <==> CloseAt(text, from + i)
  {
    AtWithin(text, OPEN, from, end, i);
    AtWithin(text, CLOSE, from, end, i);
  }

  lemma {:induction false} BalanceWithin(text: string, from: nat, end: nat, i: nat)
    requires from <= end <= |text| && from + i + |CLOSE| <= end + 1
    ensures Balance(text[from..end], 0, i) == Balance(text, from, from + i)
  {
    if i > 0 {
      BalanceWithin(text, from, end, i - 1);
      TagsWithin(text, from, end, i - 1);
    }
  }

  lemma {:induction false} CutBalanced(text: string, k: nat, e: nat)
    requires k + |CLOSE| <= e <= |text| && OpenAt(text, k) && ClosesAt(text, k, e - |CLOSE|)
    ensures Balanced(text[k..e])
  {
    TagsWithin(text, k, e, 0);
    ClosesWithin(text, k, e, e - |CLOSE| - k);
  }

  lemma {:induction false} ClosesWithin(text: string, k: nat, e: nat, c: nat)
    requires k <= e <= |text| && k + c + |CLOSE| == e && ClosesAt(text, k, k + c)
    ensures ClosesAt(text[k..e], 0, c)
  {
    TagsWithin(text, k, e, c);
    BalanceWithin(text, k, e, c + 1);
    OpenWithin(text, k, e, c);
  }

  lemma {:induction false} OpenWithin(text: string, k: nat, e: nat, c: nat)
    requires k <= e <= |text| && k + c + |CLOSE| == e && StaysOpen(text, k, k + c)
    ensures StaysOpen(text[k..e], 0, c)
  {
    forall p | 0 <= p < c && CloseAt(text[k..e], p) ensures Balance(text[k..e], 0, p + 1) > 0 {
      TagsWithin(text, k, e, p);
      BalanceWithin(text, k, e, p + 1);
    }
  }

  /** Every table handed to the HTML library is one balanced run. */
  lemma {:induction false} TablesBalanced(text: string)
    ensures forall s :: s in Segments(text) && s.Table? ==> Balanced(s.text)
    decreases |text|
  {
    match Find(text, OPEN, 0) {
      case None =>
      case Some(k) =>
        match TableEnd(text, k) {
          case None =>
          case Some(e) =>
            CutBalanced(text, k, e);
            TablesBalanced(text[e..]);
        }
    }
  }

  /** If each table gives way to itself, nothing changes. */
  lemma {:induction false} TablesRestored(text: string, table: string -> string)
    requires forall t :: table(t) == t
    ensures Rendered(Segments(text), table) == text
  {
    SegmentsFlatten(text);
    FlattenRendered(Segments(text), table);
  }

  lemma {:induction false} FlattenRendered(segments: seq<Segment>, table: string -> string)
    requires forall t :: table(t) == t
    ensures Rendered(segments, table) == Flatten(segments)
  {
    if segments != [] {
      FlattenRendered(segments[1..], table);
    }
  }

  /**
   What it means to be cut at the tables: each table begins at the first opening tag since the table before, it
   is balanced, and what comes last has no opening tag or one that is never balanced.
   */
  ghost predicate CutAtTables(segments: seq<Segment>) {
    segments != [] && segments[0].Outside?
    && if |segments| == 1 then NoTable(segments[0].text)
       else
         && segments[1].Table?
         && FirstAt(segments[0].text + OPEN, OPEN, 0, |segments[0].text|)
         && Balanced(segments[1].text)
         && CutAtTables(segments[2..])
  }

  ghost predicate NoTable(text: string) {
    || NoneIn(text, OPEN, 0, |text| + 1)
    || exists k: nat :: FirstAt(text, OPEN, 0, k) && TableEnd(text, k).None?
  }

  lemma {:induction false} SegmentsAt(text: string, k: nat, e: nat)
    requires Find(text, OPEN, 0) == Some(k) && TableEnd(text, k) == Some(e)
    ensures Segments(text) == [Outside(text[..k]), Table(text[k..e])] + Segments(text[e..])
  {
  }

  lemma {:induction false} NoTableAt(text: string)
    requires Find(text, OPEN, 0).Some? ==> TableEnd(text, Find(text, OPEN, 0).value).None?
    ensures Segments(text) == [Outside(text)] && NoTable(text)
  {
    if Find(text, OPEN, 0).Some? {
      assert FirstAt(text, OPEN, 0, Find(text, OPEN, 0).value);
    }
  }

  /** Every table is found: the text is cut at its tables, ... */
  lemma {:induction false} SegmentsCut(text: string)
    ensures CutAtTables(Segments(text))
    decreases |text|
  {
    var start := Find(text, OPEN, 0);
    if start.Some? && TableEnd(text, start.value).Some? {
      var k := start.value;
      var e := TableEnd(text, k).value;
      SegmentsCut(text[e..]);
      SegmentsAt(text, k, e);
      CutFirstTable(text, k, e, Segments(text[e..]));
    } else {
      NoTableAt(text);
    }
  }

  lemma {:induction false} CutFirstTable(text: string, k: nat, e: nat, rest: seq<Segment>)
    requires Find(text, OPEN, 0) == Some(k) && TableEnd(text, k) == Some(e) && CutAtTables(rest)
    ensures CutAtTables([Outside(text[..k]), Table(text[k..e])] + rest)
  {
    TableBalanced(text, k, e);
    FirstPrefix(text, OPEN, k);
    CutTwo(text[..k], text[k..e], rest);
  }

  lemma {:induction false} TableBalanced(text: string, k: nat, e: nat)
    requires Find(text, OPEN, 0) == Some(k) && TableEnd(text, k) == Some(e)
    ensures k <= e <= |text| && Balanced(text[k..e])
  {
    CutBalanced(text, k, e);
  }

  lemma {:induction false} CutTwo(a: string, b: string, rest: seq<Segment>)
    requires FirstAt(a + OPEN, OPEN, 0, |a|) && Balanced(b) && CutAtTables(rest)
    ensures CutAtTables([Outside(a), Table(b)] + rest)
  {
    assert ([Outside(a), Table(b)] + rest)[2..] == rest;
  }

  /** ... and there is only one way to do that. */
  lemma {:induction false} SegmentsUnique(segments: seq<Segment>)
    requires CutAtTables(segments)
    ensures Segments(Flatten(segments)) == segments
    decreases |segments|
  {
    var a := segments[0].text;
    if |segments| == 1 {
      assert segments == [Outside(a)];
      Whole(a, t => t);
      if k: nat :| FirstAt(a, OPEN, 0, k) && TableEnd(a, k).None? {
        FindIs(a, OPEN, 0, k);
      }
      NoTableAt(a);
    } else {
      var b := segments[1].text;
      assert segments == [Outside(a), Table(b)] + segments[2..];
      SegmentsUnique(segments[2..]);
      FlattenTwo(a, b, segments[2..]);
      TableFound(a, b, Flatten(segments[2..]));
    }
  }

  lemma {:induction false} TableFound(a: string, b: string, rest: string)
    requires FirstAt(a + OPEN, OPEN, 0, |a|) && Balanced(b)
    ensures Segments(a + (b + rest)) == [Outside(a), Table(b)] + Segments(rest)
  {
    var text := a + (b + rest);
    var e := |a| + |b|;
    assert text[|a|..e] == b && text[..|a|] == a && text[e..] == rest;
    BalancedEnds(text, |a|, e);
    TableOpens(a, b, rest);
    SegmentsAt(text, |a|, e);
  }

  lemma {:induction false} TableOpens(a: string, b: string, rest: string)
    requires FirstAt(a + OPEN, OPEN, 0, |a|) && OpenAt(b, 0)
    ensures Find(a + (b + rest), OPEN, 0) == Some(|a|)
  {
    var tail := b[|OPEN|..] + rest;
    assert b == OPEN + b[|OPEN|..];
    assert "" + ((a + OPEN) + tail) == a + (b + rest);
    FirstBeyond("", a, OPEN, tail);
    FindIs(a + (b + rest), OPEN, 0, |a|);
  }

  lemma {:induction false} BalancedEnds(text: string, k: nat, e: nat)
    requires k <= e <= |text| && Balanced(text[k..e])
    ensures TableEnd(text, k) == Some(e)
  {
    BalancedCloses(text[k..e]);
    ClosesBeyond(text, k, e, e - k - |CLOSE|);
    EndIs(text, k, e - |CLOSE|);
  }

  lemma {:induction false} BalancedCloses(t: string)
    requires Balanced(t)
    ensures |t| >= |CLOSE| && ClosesAt(t, 0, |t| - |CLOSE|)
  {
  }

  lemma {:induction false} ClosesBeyond(text: string, k: nat, e: nat, c: nat)
    requires k <= e <= |text| && k + c + |CLOSE| == e && ClosesAt(text[k..e], 0, c)
    ensures ClosesAt(text, k, k + c)
  {
    ClosingBeyond(text, k, e, c);
    OpenBeyond(text, k, e, c);
  }

  lemma {:induction false} ClosingBeyond(text: string, k: nat, e: nat, c: nat)
    requires k <= e <= |text| && k + c + |CLOSE| == e
    ensures CloseAt(text[k..e], c) <==> CloseAt(text, k + c)
    ensures Balance(text[k..e], 0, c + 1) == Balance(text, k, k + c + 1)
  {
    TagsWithin(text, k, e, c);
    BalanceWithin(text, k, e, c + 1);
  }

  lemma {:induction false} OpenBeyond(text: string, k: nat, e: nat, c: nat)
    requires k <= e <= |text| && k + c + |CLOSE| == e && StaysOpen(text[k..e], 0, c)
    ensures StaysOpen(text, k, k + c)
  {
    forall p | k <= p < k + c && CloseAt(text, p) ensures Balance(text, k, p + 1) > 0 {
      TagsWithin(text, k, e, p - k);
      BalanceWithin(text, k, e, p - k + 1);
    }
  }

  method NormalizeTables(markdown: string, table: string -> string) returns (normalized: string)
    ensures normalized == Rendered(Segments(markdown), table)
  {
    normalized := "";
    var remaining := markdown;
    ghost var whole := Rendered(Segments(markdown), table);
    assert normalized + whole == whole;
    while true
      invariant normalized + Rendered(Segments(remaining), table) == whole
      decreases |remaining|
    {
      var tableStart := Search(remaining, OPEN, 0);
      if tableStart.None? {
        Whole(remaining, table);
        return normalized + remaining;
      }
      var start := tableStart.value;
      var tableEnd := FindTableEnd(remaining, start);
      if tableEnd.None? {
        NoEnd(remaining, start, table);
        Assoc(normalized, remaining[..start], remaining[start..]);
        return normalized + remaining[..start] + remaining[start..];
      }
      var end := tableEnd.value;
      var rewritten := table(remaining[start..end]);
      CutTable(remaining, start, end, table);
      Extend(normalized, remaining[..start], rewritten, Rendered(Segments(remaining[end..]), table),
             Rendered(Segments(remaining), table), whole);
      normalized := normalized + remaining[..start] + rewritten;
      remaining := remaining[end..];
    }
  }

  lemma {:induction false} NoEnd(text: string, start: nat, table: string -> string)
    requires Find(text, OPEN, 0) == Some(start) && TableEnd(text, start) == None
    ensures Rendered(Segments(text), table) == text == text[..start] + text[start..]
  {
    Whole(text, table);
  }

  lemma {:induction false} CutTable(text: string, start: nat, end: nat, table: string -> string)
    requires Find(text, OPEN, 0) == Some(start) && TableEnd(text, start) == Some(end)
    ensures Rendered(Segments(text), table)
         == text[..start] + (table(text[start..end]) + Rendered(Segments(text[end..]), table))
  {
    RenderedTwo(text[..start], text[start..end], Segments(text[end..]), table);
  }

  // ---------- inline tags ----------

  function LeadingSpace(s: string, lib: Library): (n: nat)
    ensures n <= |s| && (forall i :: 0 <= i < n ==> lib.space(s[i])) && (n < |s| ==> !lib.space(s[n]))
  {
    if s != [] && lib.space(s[0]) then 1 + LeadingSpace(s[1..], lib) else 0
  }

  function TrailingSpace(s: string, lib: Library): (n: nat)
    ensures n <= |s| && (forall i :: |s| - n <= i < |s| ==> lib.space(s[i])) && (n < |s| ==> !lib.space(s[|s| - 1 - n]))
  {
    if s != [] && lib.space(s[|s| - 1]) then 1 + TrailingSpace(s[..|s| - 1], lib) else 0
  }

  function Trimmed(s: string, lib: Library): string {
    if LeadingSpace(s, lib) + TrailingSpace(s, lib) >= |s| then ""
    else s[LeadingSpace(s, lib)..|s| - TrailingSpace(s, lib)]
  }

  /** The body of a tag pair, with its outer white space outside the markers. */
  function Body(inner: string, marker: string, lib: Library): string {
    inner[..LeadingSpace(inner, lib)]
    + (if Trimmed(inner, lib) == "" then "" else marker + Trimmed(inner, lib) + marker)
    + inner[|inner| - TrailingSpace(inner, lib)..]
  }

  ghost predicate Blank(s: string, lib: Library) {
    forall i :: 0 <= i < |s| ==> lib.space(s[i])
  }

  /** A body of white space alone comes out twice. */
  lemma {:induction false} BlankTwice(inner: string, marker: string, lib: Library)
    requires Blank(inner, lib)
    ensures Body(inner, marker, lib) == inner + inner
  {
    assert LeadingSpace(inner, lib) == |inner| && TrailingSpace(inner, lib) == |inner|;
  }

  /** Around a body that has something else white space stays where it was, outside the markers. */
  lemma {:induction false} BodyKept(inner: string, marker: string, lib: Library) returns (l: nat, r: nat)
    requires !Blank(inner, lib)
    ensures l == LeadingSpace(inner, lib) < r == |inner| - TrailingSpace(inner, lib)
    ensures Body(inner, marker, lib) == inner[..l] + (marker + inner[l..r] + marker) + inner[r..]
  {
    l, r := LeadingSpace(inner, lib), |inner| - TrailingSpace(inner, lib);
    NotBlank(inner, lib);
    BodyParts(inner, marker, lib, l, r);
  }

  lemma {:induction false} NotBlank(inner: string, lib: Library)
    requires !Blank(inner, lib)
    ensures LeadingSpace(inner, lib) < |inner| - TrailingSpace(inner, lib)
  {
    var i :| 0 <= i < |inner| && !lib.space(inner[i]);
    assert LeadingSpace(inner, lib) <= i < |inner| - TrailingSpace(inner, lib);
  }

  lemma {:induction false} BodyParts(inner: string, marker: string, lib: Library, l: nat, r: nat)
    requires l == LeadingSpace(inner, lib) < r == |inner| - TrailingSpace(inner, lib)
    ensures Body(inner, marker, lib) == inner[..l] + (marker + inner[l..r] + marker) + inner[r..]
  {
    assert |Trimmed(inner, lib)| == r - l;
  }

  // ---------- all of it ----------

  function TrimNewlines(s: string): string {
    if s != [] && s[0] == '\n' then TrimNewlines(s[1..])
    else if s != [] && s[|s| - 1] == '\n' then TrimNewlines(s[..|s| - 1])
    else s
  }

  /** Newlines are cut off at both ends, and only these. */
  lemma {:induction false} TrimNewlinesExact(s: string) returns (l: nat, r: nat)
    ensures l <= r <= |s| && TrimNewlines(s) == s[l..r]
    ensures (forall i :: 0 <= i < l ==> s[i] == '\n') && (forall i :: r <= i < |s| ==> s[i] == '\n')
    ensures l < r ==> s[l] != '\n' && s[r - 1] != '\n'
  {
    if s != [] && s[0] == '\n' {
      var l', r' := TrimNewlinesExact(s[1..]);
      l, r := l' + 1, r' + 1;
      assert s[1..][l'..r'] == s[l..r];
      assert forall i :: 1 <= i < |s| ==> s[i] == s[1..][i - 1];
    } else if s != [] && s[|s| - 1] == '\n' {
      l, r := TrimNewlinesExact(s[..|s| - 1]);
    } else {
      l, r := 0, |s|;
    }
  }

  function TableText(lib: Library): string -> string {
    html => TrimNewlines(lib.html(html))
  }

  ghost function Marked(tag: string, marker: string, text: string, lib: Library): string {
    var open, close := "<" + tag + ">", "</" + tag + ">";
    Replaced(Chunks(text, open, close), inner => Body(inner, marker, lib))
  }

  method NormalizeInlineTagPair(markdown: string, tag: string, marker: string, lib: Library)
    returns (normalized: string)
    ensures normalized == Marked(tag, marker, markdown, lib)
  {
    normalized := NormalizePairs(markdown, "<" + tag + ">", "</" + tag + ">", inner => Body(inner, marker, lib));
  }

  /** The rewriting of everything that is not code. */
  ghost function ProseSpec(text: string, lib: Library): string {
    var tables := Rendered(Segments(text), TableText(lib));
    var strong := Marked("strong", "**", tables, lib);
    var em := Marked("em", "*", strong, lib);
    var s := Marked("s", "~~", em, lib);
    Marked("del", "~~", s, lib)
  }

  method NormalizeProse(markdown: string, lib: Library) returns (normalized: string)
    ensures normalized == ProseSpec(markdown, lib)
  {
    normalized := NormalizeTables(markdown, TableText(lib));
    normalized := NormalizeInlineTagPair(normalized, "strong", "**", lib);
    normalized := NormalizeInlineTagPair(normalized, "em", "*", lib);
    normalized := NormalizeInlineTagPair(normalized, "s", "~~", lib);
    normalized := NormalizeInlineTagPair(normalized, "del", "~~", lib);
  }
}
