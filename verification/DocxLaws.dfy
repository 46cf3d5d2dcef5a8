/** What the rewriting of prose does to a text with one pair of tags. */
module DocxLaws {
  import opened Basics
  import opened TextSearch
  import opened DocxTables
  import opened DocxPairs
  import opened DocxProse
  import opened DocxMarkdown

  predicate IsTag(tag: string) {
    tag == "strong" || tag == "em" || tag == "s" || tag == "del"
  }

  /** The Markdown that a tag becomes. */
  function MarkerOf(tag: string): string {
    if tag == "strong" then "**" else if tag == "em" then "*" else "~~"
  }

  ghost predicate NoAngle(s: string) {
    forall i :: 0 <= i < |s| ==> s[i] != '<'
  }

  function OpenTag(tag: string): string { "<" + tag + ">" }

  function CloseTag(tag: string): string { "</" + tag + ">" }

  /** A text with one pair of tags and no other angle bracket. */
  function WithPair(a: string, tag: string, b: string, c: string): string {
    a + ((OpenTag(tag) + (b + CloseTag(tag))) + c)
  }

  lemma {:induction false} AtHas(text: string, pattern: string, k: nat, d: nat)
    requires d < |pattern|
    ensures At(text, pattern, k) ==> text[k + d] == pattern[d]
  {
    if At(text, pattern, k) {
      assert text[k..k + |pattern|][d] == pattern[d];
    }
  }

  lemma {:induction false} NoneWithout(text: string, pattern: string)
    requires NoAngle(text) && |pattern| >= 2 && pattern[0] == '<'
    ensures forall i: nat :: !At(text, pattern, i)
  {
    forall i: nat ensures !At(text, pattern, i) {
      AtHas(text, pattern, i, 0);
    }
  }

  lemma {:induction false} NoAngleSame(text: string, tag: string, marker: string, lib: Library)
    requires NoAngle(text)
    ensures Marked(tag, marker, text, lib) == text
  {
    NoneWithout(text, "<" + tag + ">");
    NoTagNoChange(text, "<" + tag + ">", "</" + tag + ">", inner => Body(inner, marker, lib));
  }

  /** In such a text angle brackets stand only where the two tags begin. */
  lemma {:induction false} Brackets(a: string, tag: string, b: string, c: string, i: nat)
    requires NoAngle(a) && NoAngle(b) && NoAngle(c) && NoAngle(tag)
    requires i < |WithPair(a, tag, b, c)| && WithPair(a, tag, b, c)[i] == '<'
    ensures i == |a| || i == |a| + |OpenTag(tag)| + |b|
  {
  }

  lemma {:induction false} TagNoAngle(tag: string)
    requires IsTag(tag)
    ensures NoAngle(tag) && tag != "" && tag[0] != '/'
  {
  }

  /** Where a pattern could begin, it does not, unless it is the opening tag. */
  lemma {:induction false} NoOther(a: string, tag: string, b: string, c: string, pattern: string)
    requires NoAngle(a) && NoAngle(b) && NoAngle(c) && IsTag(tag)
    requires |pattern| >= 2 && pattern[0] == '<' && pattern[1] != '/'
    requires !At(WithPair(a, tag, b, c), pattern, |a|)
    ensures forall i: nat :: !At(WithPair(a, tag, b, c), pattern, i)
  {
    var text := WithPair(a, tag, b, c);
    forall i: nat ensures !At(text, pattern, i) {
      TagNoAngle(tag);
      AtHas(text, pattern, i, 0);
      AtHas(text, pattern, i, 1);
      SlashHere(a, tag, b, c);
      if i < |text| && text[i] == '<' {
        Brackets(a, tag, b, c, i);
      }
    }
  }

  /** At the opening tag there is no other opening tag and no table. */
  lemma {:induction false} NotHere(a: string, tag: string, b: string, c: string, other: string)
    requires IsTag(tag) && IsTag(other) && tag != other
    ensures !At(WithPair(a, tag, b, c), OpenTag(other), |a|)
    ensures !At(WithPair(a, tag, b, c), OPEN, |a|)
  {
    var text := WithPair(a, tag, b, c);
    TagHere(a, tag, b, c);
    var d := if tag[0] == other[0] then 2 else 1;
    assert OpenTag(tag)[d] != OpenTag(other)[d];
    AtHas(text, OpenTag(other), |a|, d);
    AtHas(text, OPEN, |a|, 1);
  }

  lemma {:induction false} TagHere(a: string, tag: string, b: string, c: string)
    ensures forall d :: 0 <= d < |OpenTag(tag)| ==> WithPair(a, tag, b, c)[|a| + d] == OpenTag(tag)[d]
  {
  }

  lemma {:induction false} SlashHere(a: string, tag: string, b: string, c: string)
    ensures var k := |a| + |OpenTag(tag)| + |b|;
            k + 1 < |WithPair(a, tag, b, c)| && WithPair(a, tag, b, c)[k + 1] == '/'
  {
  }

  lemma {:induction false} OtherSame(a: string, tag: string, b: string, c: string, other: string, lib: Library)
    requires NoAngle(a) && NoAngle(b) && NoAngle(c) && IsTag(tag) && IsTag(other) && tag != other
    ensures Marked(other, MarkerOf(other), WithPair(a, tag, b, c), lib) == WithPair(a, tag, b, c)
  {
    NotHere(a, tag, b, c, other);
    TagNoAngle(other);
    NoOther(a, tag, b, c, OpenTag(other));
    NoTagNoChange(WithPair(a, tag, b, c), "<" + other + ">", "</" + other + ">",
                  inner => Body(inner, MarkerOf(other), lib));
  }

  lemma {:induction false} TablesSame(a: string, tag: string, b: string, c: string, table: string -> string)
    requires NoAngle(a) && NoAngle(b) && NoAngle(c) && IsTag(tag)
    ensures Rendered(Segments(WithPair(a, tag, b, c)), table) == WithPair(a, tag, b, c)
  {
    NotHere(a, tag, b, c, if tag == "em" then "s" else "em");
    NoOther(a, tag, b, c, OPEN);
    Whole(WithPair(a, tag, b, c), table);
  }

  lemma {:induction false} FirstTag(a: string, pattern: string)
    requires NoAngle(a) && |pattern| >= 2 && pattern[0] == '<'
    ensures FirstAt(a + pattern, pattern, 0, |a|)
  {
    assert (a + pattern)[|a|..|a| + |pattern|] == pattern;
    forall i | 0 <= i < |a| ensures !At(a + pattern, pattern, i) {
      AtHas(a + pattern, pattern, i, 0);
    }
  }

  /** The tags become markers, and white space stays outside them. */
  lemma {:induction false} OwnMarked(a: string, tag: string, b: string, c: string, marker: string, lib: Library)
    requires NoAngle(a) && NoAngle(b) && NoAngle(c)
    ensures Marked(tag, marker, WithPair(a, tag, b, c), lib) == a + (Body(b, marker, lib) + c)
  {
    var open, close := OpenTag(tag), CloseTag(tag);
    var body := inner => Body(inner, marker, lib);
    FirstTag(a, open);
    FirstTag(b, close);
    PairFound(a, b, c, open, close);
    NoneWithout(c, open);
    assert Chunks(c, open, close) == [Around(c)];
    TwoReplaced(a, b, [Around(c)], body);
    OneChunk(c, open, close, body);
  }

  /** A body without white space at its ends, between its markers. */
  lemma {:induction false} Tight(b: string, marker: string, lib: Library)
    requires b != "" && !lib.space(b[0]) && !lib.space(b[|b| - 1])
    ensures Body(b, marker, lib) == marker + b + marker
  {
  }

  /**
   A text with one pair of tags: `<strong>` becomes `**`, `<em>` becomes `*`, and `<s>` and `<del>` become `~~`;
   everything else stays as it is.
   */
  lemma {:induction false} OnePair(a: string, tag: string, b: string, c: string, lib: Library)
    requires IsTag(tag) && NoAngle(a) && NoAngle(b) && NoAngle(c)
    requires b != "" && !lib.space(b[0]) && !lib.space(b[|b| - 1])
    ensures ProseSpec(WithPair(a, tag, b, c), lib) == a + ((MarkerOf(tag) + b + MarkerOf(tag)) + c)
  {
    var text, done := WithPair(a, tag, b, c), a + ((MarkerOf(tag) + b + MarkerOf(tag)) + c);
    TablesSame(a, tag, b, c, TableText(lib));
    OwnMarked(a, tag, b, c, MarkerOf(tag), lib);
    Tight(b, MarkerOf(tag), lib);
    assert NoAngle(MarkerOf(tag)) && NoAngle(done);
    Pass(a, tag, b, c, "strong", lib);
    Pass(a, tag, b, c, "em", lib);
    Pass(a, tag, b, c, "s", lib);
    Pass(a, tag, b, c, "del", lib);
    NoAngleSame(done, "em", "*", lib);
    NoAngleSame(done, "s", "~~", lib);
    NoAngleSame(done, "del", "~~", lib);
  }

  /** One pass changes the text exactly if the tag is its own. */
  lemma {:induction false} Pass(a: string, tag: string, b: string, c: string, pass: string, lib: Library)
    requires IsTag(tag) && IsTag(pass) && NoAngle(a) && NoAngle(b) && NoAngle(c)
    ensures pass != tag ==> Marked(pass, MarkerOf(pass), WithPair(a, tag, b, c), lib) == WithPair(a, tag, b, c)
  {
    if pass != tag {
      OtherSame(a, tag, b, c, pass, lib);
    }
  }

  lemma {:induction false} PlainProse(text: string, lib: Library)
    requires NoAngle(text)
    ensures ProseSpec(text, lib) == text
  {
    NoneWithout(text, OPEN);
    Whole(text, TableText(lib));
    assert Find(text, OPEN, 0) == None;
    NoAngleSame(text, "strong", "**", lib);
    NoAngleSame(text, "em", "*", lib);
    NoAngleSame(text, "s", "~~", lib);
    NoAngleSame(text, "del", "~~", lib);
  }

  lemma {:induction false} PieceNoAngle(pieces: seq<Piece>, p: Piece)
    requires NoAngle(TextOf(pieces)) && p in pieces
    ensures NoAngle(p.text)
  {
    if p == pieces[0] {
      assert TextOf(pieces)[..|p.text|] == p.text;
    } else {
      assert TextOf(pieces)[|pieces[0].text|..] == TextOf(pieces[1..]);
      PieceNoAngle(pieces[1..], p);
    }
  }

  /** A document without any angle bracket is not changed. */
  lemma {:induction false} PlainDocument(markdown: string, lib: Library)
    requires NoAngle(markdown)
    ensures var lines := Lines(markdown);
            Normalized(Pieces(lines, FencesOf(lines, lib), 0), ProseOf(lib)) == markdown
  {
    var lines := Lines(markdown);
    var pieces := Pieces(lines, FencesOf(lines, lib), 0);
    LinesJoin(markdown);
    PiecesText(lines, FencesOf(lines, lib), 0);
    assert lines[0..] == lines;
    forall p | p in pieces && p.Prose? ensures ProseOf(lib)(p.text) == p.text {
      PieceNoAngle(pieces, p);
      PlainProse(p.text, lib);
    }
    NormalizedSame(pieces, ProseOf(lib));
  }
}
