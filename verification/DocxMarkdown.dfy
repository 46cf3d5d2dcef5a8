/**
 The Markdown normaliser: a document is cut into lines, runs of prose are rewritten as a whole, and
 code fences and what they enclose stay as they are.
 */
module DocxMarkdown {
  import opened TextSearch
  import opened DocxProse

  // ---------- lines ----------

  function FirstNewline(text: string): (n: nat)
    ensures n <= |text| && (n < |text| ==> text[n] == '\n') && forall i :: 0 <= i < n ==> text[i] != '\n'
  {
    if text == "" || text[0] == '\n' then 0 else 1 + FirstNewline(text[1..])
  }

  /** The lines with their newlines; the last may have none. */
  function Lines(text: string): (r: seq<string>)
    ensures forall k :: 0 <= k < |r| ==> r[k] != ""
    decreases |text|
  {
    if text == "" then []
    else
      var n := FirstNewline(text);
      if n == |text| then [text] else [text[..n + 1]] + Lines(text[n + 1..])
  }

  function Join(parts: seq<string>): string {
    if parts == [] then "" else parts[0] + Join(parts[1..])
  }

  lemma {:induction false} LinesJoin(text: string)
    ensures Join(Lines(text)) == text
    decreases |text|
  {
    if text != "" {
      var n := FirstNewline(text);
      if n == |text| {
        assert Lines(text)[1..] == [];
      } else {
        LinesJoin(text[n + 1..]);
        assert Lines(text)[1..] == Lines(text[n + 1..]);
        CutInTwo(text, n + 1);
      }
    }
  }

  /** A line ends at its first newline, and every line but the last has one. */
  lemma {:induction false} LinesCut(text: string, k: nat)
    requires k < |Lines(text)|
    ensures forall i :: 0 <= i < |Lines(text)[k]| - 1 ==> Lines(text)[k][i] != '\n'
    ensures k < |Lines(text)| - 1 ==> Lines(text)[k] != "" && Lines(text)[k][|Lines(text)[k]| - 1] == '\n'
    decreases |text|
  {
    var n := FirstNewline(text);
    if n < |text| && k > 0 {
      LinesCut(text[n + 1..], k - 1);
    }
  }

  lemma {:induction false} JoinSnoc(parts: seq<string>, last: string)
    ensures Join(parts + [last]) == Join(parts) + last
  {
    if parts == [] {
      assert ([] + [last])[1..] == [];
    } else {
      JoinSnoc(parts[1..], last);
      assert (parts + [last])[1..] == parts[1..] + [last];
      Assoc(parts[0], Join(parts[1..]), last);
    }
  }

  // ---------- pieces ----------

  function TrimStart(line: string, lib: Library): string {
    if line != "" && lib.space(line[0]) then TrimStart(line[1..], lib) else line
  }

  predicate IsFence(line: string, lib: Library) {
    At(TrimStart(line, lib), "```", 0)
  }

  /** Which lines are fences. */
  function FencesOf(lines: seq<string>, lib: Library): (r: seq<bool>)
    ensures |r| == |lines| && forall i :: 0 <= i < |lines| ==> r[i] == IsFence(lines[i], lib)
  {
    seq(|lines|, i requires 0 <= i < |lines| => IsFence(lines[i], lib))
  }

  /** Whether an odd number of fences comes before line `i`. */
  predicate InCode(fences: seq<bool>, i: nat)
    requires i <= |fences|
  {
    i > 0 && InCode(fences, i - 1) != fences[i - 1]
  }

  /** Fences, and lines between an opening and a closing one. */
  predicate Kept(fences: seq<bool>, i: nat)
    requires i < |fences|
  {
    fences[i] || InCode(fences, i)
  }

  /** A line is inside a fence exactly if an odd number of fences come before it. */
  lemma {:induction false} InCodeIff(fences: seq<bool>, i: nat)
    requires i <= |fences|
    ensures InCode(fences, i) <==> |FencesBefore(fences, i)| % 2 == 1
  {
    if i > 0 {
      InCodeIff(fences, i - 1);
      assert FencesBefore(fences, i) == FencesBefore(fences, i - 1) + if fences[i - 1] then {i - 1} else {};
    }
  }

  function FencesBefore(fences: seq<bool>, i: nat): set<nat>
    requires i <= |fences|
  {
    set k: nat | k < i && fences[k]
  }

  /** A fence is a line whose first three characters after any white space are backquotes. */
  lemma {:induction false} IsFenceIff(line: string, lib: Library)
    ensures IsFence(line, lib) <==> exists n: nat :: StartsAt(line, n, lib) && At(line, "```", n)
  {
    var n := |line| - |TrimStart(line, lib)|;
    Trims(line, lib);
    AtSuffix(line, "```", n);
    if m: nat :| StartsAt(line, m, lib) && At(line, "```", m) {
      assert m <= n;
      assert n <= m;
    }
  }

  /** The text begins at `n`, after white space only. */
  ghost predicate StartsAt(line: string, n: nat, lib: Library) {
    n <= |line| && (forall i :: 0 <= i < n ==> lib.space(line[i])) && (n < |line| ==> !lib.space(line[n]))
  }

  lemma {:induction false} Trims(line: string, lib: Library)
    ensures var t := TrimStart(line, lib);
            |t| <= |line| && line[|line| - |t|..] == t && StartsAt(line, |line| - |t|, lib)
  {
    if line != "" && lib.space(line[0]) {
      Trims(line[1..], lib);
      TrimsNext(line, TrimStart(line, lib), lib);
    }
  }

  lemma {:induction false} TrimsNext(line: string, t: string, lib: Library)
    requires line != "" && lib.space(line[0]) && |t| <= |line| - 1
    requires line[1..][|line| - 1 - |t|..] == t && StartsAt(line[1..], |line| - 1 - |t|, lib)
    ensures line[|line| - |t|..] == t && StartsAt(line, |line| - |t|, lib)
  {
    var n := |line| - 1 - |t|;
    forall i | 0 <= i < n + 1 ensures lib.space(line[i]) {
      assert i > 0 ==> line[1..][i - 1] == line[i];
    }
    assert n < |line| - 1 ==> line[1..][n] == line[n + 1];
  }

  lemma {:induction false} AtSuffix(text: string, pattern: string, n: nat)
    requires n <= |text|
    ensures At(text[n..], pattern, 0) <==> At(text, pattern, n)
  {
    if n + |pattern| <= |text| {
      assert text[n..][0..|pattern|] == text[n..n + |pattern|];
    }
  }

  function RunEnd(fences: seq<bool>, i: nat): (e: nat)
    requires i <= |fences|
    ensures i <= e <= |fences|
    ensures forall k :: i <= k < e ==> !Kept(fences, k)
    ensures e < |fences| ==> Kept(fences, e)
    decreases |fences| - i
  {
    if i == |fences| || Kept(fences, i) then i else RunEnd(fences, i + 1)
  }

  datatype Piece = Verbatim(text: string) | Prose(text: string)

  /** The kept lines one by one, and the prose between them in runs as long as possible. */
  function Pieces(lines: seq<string>, fences: seq<bool>, i: nat): seq<Piece>
    requires i <= |lines| == |fences|
    decreases |lines| - i
  {
    if i == |lines| then []
    else if Kept(fences, i) then [Verbatim(lines[i])] + Pieces(lines, fences, i + 1)
    else
      var e := RunEnd(fences, i + 1);
      [Prose(Join(lines[i..e]))] + Pieces(lines, fences, e)
  }

  function TextOf(pieces: seq<Piece>): string {
    if pieces == [] then "" else pieces[0].text + TextOf(pieces[1..])
  }

  ghost predicate Maximal(pieces: seq<Piece>) {
    forall k :: 0 <= k < |pieces| - 1 ==> pieces[k].Verbatim? || pieces[k + 1].Verbatim?
  }

  function Verbatims(pieces: seq<Piece>): seq<string> {
    if pieces == [] then []
    else (if pieces[0].Verbatim? then [pieces[0].text] else []) + Verbatims(pieces[1..])
  }

  function KeptLines(lines: seq<string>, fences: seq<bool>, i: nat): seq<string>
    requires i <= |lines| == |fences|
    decreases |lines| - i
  {
    if i == |lines| then []
    else (if Kept(fences, i) then [lines[i]] else []) + KeptLines(lines, fences, i + 1)
  }

  lemma {:induction false} JoinSplit(lines: seq<string>, i: nat, e: nat)
    requires i <= e <= |lines|
    ensures Join(lines[i..]) == Join(lines[i..e]) + Join(lines[e..])
    decreases e - i
  {
    if i == e {
      assert lines[i..e] == [];
    } else {
      JoinSplit(lines, i + 1, e);
      assert lines[i..][1..] == lines[i + 1..] && lines[i..e][1..] == lines[i + 1..e];
      Assoc(lines[i], Join(lines[i + 1..e]), Join(lines[e..]));
    }
  }

  lemma {:induction false} TextOfFirst(p: Piece, rest: seq<Piece>)
    ensures TextOf([p] + rest) == p.text + TextOf(rest)
  {
    assert ([p] + rest)[1..] == rest;
  }

  lemma {:induction false} JoinFirst(lines: seq<string>, i: nat)
    requires i < |lines|
    ensures Join(lines[i..]) == lines[i] + Join(lines[i + 1..])
  {
    assert lines[i..][1..] == lines[i + 1..];
  }

  /** No text is lost or moved by cutting it into pieces. */
  lemma {:induction false} PiecesText(lines: seq<string>, fences: seq<bool>, i: nat)
    requires i <= |lines| == |fences|
    ensures TextOf(Pieces(lines, fences, i)) == Join(lines[i..])
    decreases |lines| - i
  {
    if i == |lines| {
      assert lines[i..] == [];
    } else if Kept(fences, i) {
      PiecesText(lines, fences, i + 1);
      TextOfFirst(Verbatim(lines[i]), Pieces(lines, fences, i + 1));
      JoinFirst(lines, i);
    } else {
      var e := RunEnd(fences, i + 1);
      PiecesText(lines, fences, e);
      TextOfFirst(Prose(Join(lines[i..e])), Pieces(lines, fences, e));
      JoinSplit(lines, i, e);
    }
  }

  /** Runs of prose are as long as they can be: no two of them touch. */
  lemma {:induction false} PiecesMaximal(lines: seq<string>, fences: seq<bool>, i: nat)
    requires i <= |lines| == |fences|
    ensures Maximal(Pieces(lines, fences, i))
    ensures i < |lines| ==>
              Pieces(lines, fences, i) != [] && (Pieces(lines, fences, i)[0].Verbatim? <==> Kept(fences, i))
    decreases |lines| - i
  {
    if i < |lines| {
      PiecesMaximal(lines, fences, if Kept(fences, i) then i + 1 else RunEnd(fences, i + 1));
    }
  }

  /** Fences and fenced lines, and only these, are pieces of their own, in their order. */
  lemma {:induction false} PiecesVerbatim(lines: seq<string>, fences: seq<bool>, i: nat)
    requires i <= |lines| == |fences|
    ensures Verbatims(Pieces(lines, fences, i)) == KeptLines(lines, fences, i)
    decreases |lines| - i
  {
    if i < |lines| {
      var e := if Kept(fences, i) then i + 1 else RunEnd(fences, i + 1);
      PiecesVerbatim(lines, fences, e);
      assert Pieces(lines, fences, i)[1..] == Pieces(lines, fences, e);
      if !Kept(fences, i) {
        NoneKept(lines, fences, i, e);
      }
    }
  }

  lemma {:induction false} NoneKept(lines: seq<string>, fences: seq<bool>, i: nat, e: nat)
    requires i <= e <= |lines| == |fences| && forall k :: i <= k < e ==> !Kept(fences, k)
    ensures KeptLines(lines, fences, i) == KeptLines(lines, fences, e)
    decreases e - i
  {
    if i < e {
      NoneKept(lines, fences, i + 1, e);
    }
  }

  // ---------- the normaliser ----------

  /** Each run of prose is rewritten as a whole; everything else stays. */
  ghost function Normalized(pieces: seq<Piece>, prose: string -> string): string {
    if pieces == [] then ""
    else
      (match pieces[0]
       case Verbatim(text) => text
       case Prose(text) => prose(text)) + Normalized(pieces[1..], prose)
  }

  type Rewriting = string -> string

  /** Rewriting that changes no run of prose gives the document back. */
  lemma {:induction false} NormalizedSame(pieces: seq<Piece>, prose: Rewriting)
    requires forall p :: p in pieces && p.Prose? ==> prose(p.text) == p.text
    ensures Normalized(pieces, prose) == TextOf(pieces)
  {
    if pieces != [] {
      NormalizedSame(pieces[1..], prose);
    }
  }

  ghost function From(lines: seq<string>, fences: seq<bool>, f: Rewriting, i: nat): string
    requires i <= |lines| == |fences|
  {
    Normalized(Pieces(lines, fences, i), f)
  }

  lemma {:induction false} KeptFirst(lines: seq<string>, fences: seq<bool>, f: Rewriting, i: nat)
    requires i < |lines| == |fences| && Kept(fences, i)
    ensures From(lines, fences, f, i) == lines[i] + From(lines, fences, f, i + 1)
  {
    assert Pieces(lines, fences, i)[1..] == Pieces(lines, fences, i + 1);
  }

  lemma {:induction false} RunEndIs(fences: seq<bool>, s: nat, e: nat)
    requires s <= e <= |fences| && (forall k :: s <= k < e ==> !Kept(fences, k))
    requires e < |fences| ==> Kept(fences, e)
    ensures RunEnd(fences, s) == e
    decreases e - s
  {
    if s < e {
      RunEndIs(fences, s + 1, e);
    }
  }

  lemma {:induction false} RunFirst(lines: seq<string>, fences: seq<bool>, f: Rewriting, s: nat, e: nat)
    requires s < e <= |lines| == |fences| && (forall k :: s <= k < e ==> !Kept(fences, k))
    requires e < |lines| ==> Kept(fences, e)
    ensures From(lines, fences, f, s) == f(Join(lines[s..e])) + From(lines, fences, f, e)
  {
    RunEndIs(fences, s + 1, e);
    assert Pieces(lines, fences, s)[1..] == Pieces(lines, fences, e);
  }

  /** Before line `i` the buffer holds the lines from `s`, all of them prose. */
  ghost predicate Buffered(lines: seq<string>, fences: seq<bool>, s: nat, i: nat, prose: string, inCode: bool) {
    && s <= i <= |lines| == |fences|
    && (forall k :: s <= k < i ==> !Kept(fences, k))
    && prose == Join(lines[s..i])
    && inCode == InCode(fences, i)
  }

  /** The output is finished up to line `s`. */
  ghost predicate Written(lines: seq<string>, fences: seq<bool>, f: Rewriting, s: nat, normalized: string) {
    s <= |lines| == |fences| && normalized + From(lines, fences, f, s) == From(lines, fences, f, 0)
  }

  lemma {:induction false} JoinEmpty(parts: seq<string>)
    requires forall k :: 0 <= k < |parts| ==> parts[k] != ""
    ensures Join(parts) == "" <==> parts == []
  {
  }

  /** Writing out what the buffer holds, before a kept line or at the end. */
  lemma {:induction false} Flushed(
    lines: seq<string>, fences: seq<bool>, f: Rewriting, s: nat, i: nat,
    normalized: string, prose: string, inCode: bool)
    requires Written(lines, fences, f, s, normalized) && Buffered(lines, fences, s, i, prose, inCode) && s < i
    requires i < |lines| ==> Kept(fences, i)
    ensures Written(lines, fences, f, i, normalized + f(prose))
  {
    RunFirst(lines, fences, f, s, i);
    Assoc(normalized, f(prose), From(lines, fences, f, i));
  }

  lemma {:induction false} LineKept(lines: seq<string>, fences: seq<bool>, f: Rewriting, i: nat, normalized: string)
    requires Written(lines, fences, f, i, normalized) && i < |lines| && Kept(fences, i)
    ensures Written(lines, fences, f, i + 1, normalized + lines[i])
  {
    KeptFirst(lines, fences, f, i);
    Assoc(normalized, lines[i], From(lines, fences, f, i + 1));
  }

  lemma {:induction false} BufferEmpty(lines: seq<string>, fences: seq<bool>, i: nat, inCode: bool)
    requires i <= |lines| == |fences| && inCode == InCode(fences, i)
    ensures Buffered(lines, fences, i, i, "", inCode)
  {
    assert lines[i..i] == [];
  }

  lemma {:induction false} AfterKept(
    lines: seq<string>, fences: seq<bool>, s: nat, i: nat, prose: string, inCode: bool, after: bool)
    requires Buffered(lines, fences, s, i, prose, inCode) && i < |lines|
    requires after == if fences[i] then !inCode else inCode
    ensures Buffered(lines, fences, i + 1, i + 1, "", after)
  {
    BufferEmpty(lines, fences, i + 1, after);
  }

  lemma {:induction false} LineBuffered(
    lines: seq<string>, fences: seq<bool>, s: nat, i: nat, prose: string, inCode: bool)
    requires Buffered(lines, fences, s, i, prose, inCode) && i < |lines| && !Kept(fences, i)
    ensures Buffered(lines, fences, s, i + 1, prose + lines[i], inCode)
  {
    JoinSnoc(lines[s..i], lines[i]);
    assert lines[s..i] + [lines[i]] == lines[s..i + 1];
  }

  /** The buffer is empty exactly if it holds no line, and it is empty inside a fence. */
  lemma {:induction false} BufferEmptyIff(
    lines: seq<string>, fences: seq<bool>, s: nat, i: nat, prose: string, inCode: bool)
    requires Buffered(lines, fences, s, i, prose, inCode) && forall k :: 0 <= k < |lines| ==> lines[k] != ""
    ensures prose == "" <==> s == i
    ensures inCode ==> s == i
  {
    JoinEmpty(lines[s..i]);
    if s < i {
      assert !Kept(fences, i - 1);
    }
  }

  /** Rewrites the buffer, unless it is empty, and writes it out. */
  method Flush(
    ghost lines: seq<string>, ghost fences: seq<bool>, ghost f: Rewriting,
    ghost s: nat, ghost i: nat, ghost inCode: bool,
    normalized: string, prose: string, lib: Library)
    returns (flushed: string)
    requires f(prose) == ProseSpec(prose, lib)
    requires Written(lines, fences, f, s, normalized) && Buffered(lines, fences, s, i, prose, inCode)
    requires (i < |lines| ==> Kept(fences, i)) && forall k :: 0 <= k < |lines| ==> lines[k] != ""
    ensures Written(lines, fences, f, i, flushed)
  {
    BufferEmptyIff(lines, fences, s, i, prose, inCode);
    flushed := normalized;
    if prose != "" {
      Flushed(lines, fences, f, s, i, normalized, prose, inCode);
      var rewritten := NormalizeProse(prose, lib);
      flushed := flushed + rewritten;
    }
  }

  /** A fence: the buffer and then the line are written. */
  method OnFence(
    ghost lines: seq<string>, ghost fences: seq<bool>, ghost f: Rewriting,
    ghost s: nat, ghost i: nat, ghost inCode: bool,
    normalized: string, prose: string, line: string, lib: Library)
    returns (pushed: string)
    requires f(prose) == ProseSpec(prose, lib)
    requires Written(lines, fences, f, s, normalized) && Buffered(lines, fences, s, i, prose, inCode)
    requires i < |lines| && fences[i] && line == lines[i] && forall k :: 0 <= k < |lines| ==> lines[k] != ""
    ensures Written(lines, fences, f, i + 1, pushed) && Buffered(lines, fences, i + 1, i + 1, "", !inCode)
  {
    AfterKept(lines, fences, s, i, prose, inCode, !inCode);
    var flushed := Flush(lines, fences, f, s, i, inCode, normalized, prose, lib);
    LineKept(lines, fences, f, i, flushed);
    pushed := flushed + line;
  }

  /** A line inside a fence: it is written, and the buffer is empty anyway. */
  method OnCode(
    ghost lines: seq<string>, ghost fences: seq<bool>, ghost f: Rewriting, ghost s: nat, ghost i: nat,
    normalized: string, ghost prose: string, line: string)
    returns (pushed: string)
    requires Written(lines, fences, f, s, normalized) && Buffered(lines, fences, s, i, prose, true)
    requires i < |lines| && !fences[i] && line == lines[i] && forall k :: 0 <= k < |lines| ==> lines[k] != ""
    ensures Written(lines, fences, f, i + 1, pushed) && Buffered(lines, fences, i + 1, i + 1, prose, true)
  {
    BufferEmptyIff(lines, fences, s, i, prose, true);
    AfterKept(lines, fences, s, i, prose, true, true);
    LineKept(lines, fences, f, i, normalized);
    pushed := normalized + line;
  }

  /** The specification of the prose rewriting as a function. */
  ghost function ProseOf(lib: Library): (f: Rewriting)
    ensures forall t {:trigger ProseSpec(t, lib)} :: f(t) == ProseSpec(t, lib)
  {
    t => ProseSpec(t, lib)
  }

  /** The loop over the lines with its buffer computes the pieces' rewriting. */
  method NormalizeDocxMarkdown(markdown: string, lib: Library) returns (normalized: string)
    ensures var lines := Lines(markdown);
            normalized == Normalized(Pieces(lines, FencesOf(lines, lib), 0), ProseOf(lib))
  {
    var lines := Lines(markdown);
    normalized := NormalizeLines(lines, lib, FencesOf(lines, lib), ProseOf(lib));
  }

  method NormalizeLines(lines: seq<string>, lib: Library, ghost fences: seq<bool>, ghost f: Rewriting)
    returns (normalized: string)
    requires |fences| == |lines|
    requires forall k :: 0 <= k < |lines| ==> lines[k] != "" && fences[k] == IsFence(lines[k], lib)
    requires forall t {:trigger ProseSpec(t, lib)} :: f(t) == ProseSpec(t, lib)
    ensures normalized == From(lines, fences, f, 0)
  {
    normalized := "";
    var proseBuffer := "";
    var inCodeFence := false;
    ghost var s := 0;
    AtStart(lines, fences, f);
    for i := 0 to |lines|
      invariant Written(lines, fences, f, s, normalized) && Buffered(lines, fences, s, i, proseBuffer, inCodeFence)
    {
      var line := lines[i];
      if IsFence(line, lib) {
        normalized := OnFence(lines, fences, f, s, i, inCodeFence, normalized, proseBuffer, line, lib);
        proseBuffer := "";
        inCodeFence := !inCodeFence;
        s := i + 1;
      } else if inCodeFence {
        normalized := OnCode(lines, fences, f, s, i, normalized, proseBuffer, line);
        s := i + 1;
      } else {
        LineBuffered(lines, fences, s, i, proseBuffer, inCodeFence);
        proseBuffer := proseBuffer + line;
      }
    }
    normalized := Flush(lines, fences, f, s, |lines|, inCodeFence, normalized, proseBuffer, lib);
    AtEnd(lines, fences, f, normalized);
  }

  lemma {:induction false} AtStart(lines: seq<string>, fences: seq<bool>, f: Rewriting)
    requires |lines| == |fences|
    ensures Written(lines, fences, f, 0, "") && Buffered(lines, fences, 0, 0, "", false)
  {
    BufferEmpty(lines, fences, 0, false);
    assert "" + From(lines, fences, f, 0) == From(lines, fences, f, 0);
  }

  lemma {:induction false} AtEnd(lines: seq<string>, fences: seq<bool>, f: Rewriting, normalized: string)
    requires Written(lines, fences, f, |lines|, normalized)
    ensures normalized == From(lines, fences, f, 0)
  {
    assert normalized + "" == normalized;
  }
}
