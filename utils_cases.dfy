/**
 * The cases the unit tests of src/utils.rs check, stated as lemmas over the
 * model: blank and untagged segments fail, a question with an answer is a
 * Basic card, an empty answer fails, and a cloze line's span is its first
 * bracket pair. The last lemma shows how a file whose trailing line carries
 * no marker is cut.
 */
module UtilsCases {
  import opened Wrappers
  import opened StrLib
  import opened Cards
  import opened CardLines
  import opened Extract

  /** A text without `'\n'` is a single line. */
  lemma OneLine(s: string)
    requires s != [] && '\n' !in s
    ensures Lines(s) == [s]
  {
  }

  /** Three lines, each followed by `'\n'`, split back into those lines. */
  lemma ThreeLines(a: string, b: string, c: string)
    requires '\n' !in a && '\n' !in b && '\n' !in c
    requires StripCR(a) == a && StripCR(b) == b && StripCR(c) == c
    ensures Lines(a + "\n" + b + "\n" + c + "\n") == [a, b, c]
  {
    var ls := [a, b, c];
    assert ls[..2] == [a, b] && ls[..2][..1] == [a] && [a][..0] == [];
    assert JoinLines([a]) == a + "\n";
    assert JoinLines([a, b]) == a + "\n" + b + "\n";
    assert JoinLines(ls) == a + "\n" + b + "\n" + c + "\n";
    LinesOfJoinLines(ls);
  }

  /** The parser reads three lines one after the other. */
  lemma FieldsOfThree(a: string, b: string, c: string)
    ensures FieldsOf([a, b, c]) == ApplyLine(ApplyLine(ApplyLine(NoFields, a), b), c)
  {
    var ls := [a, b, c];
    assert ls[..2] == [a, b] && ls[..2][..1] == [a] && [a][..0] == [];
    assert FieldsOf([a]) == ApplyLine(NoFields, a);
    assert FieldsOf([a, b]) == ApplyLine(FieldsOf([a]), b);
  }

  /** Text with no whitespace at either end is its own trim. */
  lemma TrimUnchanged(s: string)
    requires IsTrimmedText(s)
    ensures Trim(s) == s
  {
    assert TrimStart(s) == s;
  }

  /** Trimming drops one leading space. */
  lemma TrimSpace(s: string)
    requires IsTrimmedText(s)
    ensures Trim(" " + s) == s
  {
    assert (" " + s)[1..] == s;
    assert TrimStart(" " + s) == TrimStart(s);
    TrimUnchanged(s);
  }

  /** A line `"<marker> <v>"` with a trimmed `v` stores `v` under that marker. */
  lemma ApplyTagged(f: Fields, tag: Tag, v: string, line: string)
    requires IsTrimmedText(v)
    requires line == Prefix(tag) + " " + v
    ensures ApplyLine(f, line) ==
      match tag
      case Question => f.(question := Some(v))
      case Answer => f.(answer := Some(v))
      case ClozeText => f.(cloze := Some(v))
  {
    assert line[0] == Prefix(tag)[0] && line[|line| - 1] == v[|v| - 1];
    TrimUnchanged(line);
    assert line[2..] == " " + v;
    TrimSpace(v);
  }

  /** A line with nothing after its marker clears that field. */
  lemma ApplyBareTag(f: Fields, tag: Tag, line: string)
    requires line == Prefix(tag) + " "
    ensures ApplyLine(f, line) ==
      match tag
      case Question => f.(question := None)
      case Answer => f.(answer := None)
      case ClozeText => f.(cloze := None)
  {
    assert TrimEnd(line) == TrimEnd(Prefix(tag));
    assert Trim(line) == Prefix(tag);
    assert Prefix(tag)[2..] == [];
  }

  /** An empty segment is neither a question nor a cloze. */
  lemma EmptySegmentFails(path: string, digest: string -> string)
    ensures ContentToCard(path, "", 1, 1, digest) == Err(UnableToCreate(""))
  {
    assert Lines("") == [];
  }

  /** A value as the parser keeps it: non-empty, trimmed, on one line. */
  predicate PlainValue(v: string) {
    IsTrimmedText(v) && '\n' !in v
  }

  /** A one-line segment that carries no marker fails. */
  lemma UntaggedLineFails(path: string, s: string, startIdx: nat, endIdx: nat, digest: string -> string)
    requires s != [] && '\n' !in s
    requires !Tagged(s, Question) && !Tagged(s, Answer) && !Tagged(s, ClozeText)
    ensures ContentToCard(path, s, startIdx, endIdx, digest) == Err(UnableToCreate(s))
  {
    OneLine(s);
    IgnoredLine(NoFields, s);
    assert FieldsOf([s]) == ApplyLine(FieldsOf([]), s);
  }

  /** A question line, an answer line and a blank line make the Basic card of the two values. */
  lemma QuestionAnswerSegment(path: string, q: string, a: string, startIdx: nat, endIdx: nat, digest: string -> string)
    requires PlainValue(q) && PlainValue(a)
    ensures var r := ContentToCard(path, ("Q: " + q) + "\n" + ("A: " + a) + "\n" + "" + "\n", startIdx, endIdx, digest);
      r.Ok? && r.value.content == Basic(q, a)
  {
    var contents := ("Q: " + q) + "\n" + ("A: " + a) + "\n" + "" + "\n";
    assert ("Q: " + q)[|"Q: " + q| - 1] == q[|q| - 1];
    assert ("A: " + a)[|"A: " + a| - 1] == a[|a| - 1];
    ThreeLines("Q: " + q, "A: " + a, "");
    FieldsOfThree("Q: " + q, "A: " + a, "");
    assert Prefix(Question) + " " == "Q: " && Prefix(Answer) + " " == "A: ";
    ApplyTagged(NoFields, Question, q, "Q: " + q);
    ApplyTagged(Fields(Some(q), None, None), Answer, a, "A: " + a);
    assert FieldsOf(Lines(contents)) == Fields(Some(q), Some(a), None);
    ContentToCardCases(path, contents, startIdx, endIdx, digest);
  }

  /** With nothing after `A:` the segment has no answer, and with no cloze line it fails. */
  lemma EmptyAnswerSegment(path: string, q: string, startIdx: nat, endIdx: nat, digest: string -> string)
    requires PlainValue(q)
    ensures var contents := ("Q: " + q) + "\n" + ("A: ") + "\n" + "" + "\n";
      ContentToCard(path, contents, startIdx, endIdx, digest) == Err(UnableToCreate(contents))
  {
    var contents := ("Q: " + q) + "\n" + ("A: ") + "\n" + "" + "\n";
    assert ("Q: " + q)[|"Q: " + q| - 1] == q[|q| - 1];
    ThreeLines("Q: " + q, "A: ", "");
    FieldsOfThree("Q: " + q, "A: ", "");
    assert Prefix(Question) + " " == "Q: " && Prefix(Answer) + " " == "A: ";
    ApplyTagged(NoFields, Question, q, "Q: " + q);
    ApplyBareTag(Fields(Some(q), None, None), Answer, "A: ");
    assert FieldsOf(Lines(contents)) == Fields(Some(q), None, None);
    ContentToCardCases(path, contents, startIdx, endIdx, digest);
  }

  /** A lone cloze line makes a Cloze card spanning its first bracket pair. */
  lemma ClozeLineSegment(path: string, text: string, a: nat, b: nat, startIdx: nat, endIdx: nat, digest: string -> string)
    requires PlainValue(text) && Cloze.IsFirstPair(text, a, b)
    ensures var r := ContentToCard(path, "C: " + text, startIdx, endIdx, digest);
      r.Ok? && r.value.content == Cloze(text, ByteOffset(text, a), ByteOffset(text, b))
  {
    var s := "C: " + text;
    assert '\n' !in s by {
      assert forall i :: 3 <= i < |s| ==> s[i] == text[i - 3];
    }
    OneLine(s);
    assert Prefix(ClozeText) + " " == "C: ";
    ApplyTagged(NoFields, ClozeText, text, s);
    assert FieldsOf([s]) == ApplyLine(FieldsOf([]), s);
    assert FieldsOf(Lines(s)) == Fields(None, None, Some(text));
    ContentToCardClozeSpan(path, s, startIdx, endIdx, digest, a, b);
  }

  /** The unit test: an untagged line is not a card. */
  lemma UntaggedSegmentFails(path: string, digest: string -> string)
    ensures ContentToCard(path, "what am i doing here", 1, 1, digest) == Err(UnableToCreate("what am i doing here"))
  {
    var s := "what am i doing here";
    TrimUnchanged(s);
    assert s[0] == 'w';
    UntaggedLineFails(path, s, 1, 1, digest);
  }

  /** The unit test: `"Q: what?\nA: yes\n\n"` gives the Basic card `what?` / `yes`. */
  lemma QuestionAnswerIsBasic(path: string, digest: string -> string)
    ensures var r := ContentToCard(path, "Q: what?" + "\n" + "A: yes" + "\n" + "" + "\n", 1, 1, digest);
      r.Ok? && r.value.content == Basic("what?", "yes")
  {
    assert "Q: what?" == "Q: " + "what?" && "A: yes" == "A: " + "yes";
    QuestionAnswerSegment(path, "what?", "yes", 1, 1, digest);
  }

  /** The unit test: `"Q: what?\nA: \n\n"` has an empty answer and fails. */
  lemma EmptyAnswerFails(path: string, digest: string -> string)
    ensures var contents := "Q: what?" + "\n" + "A: " + "\n" + "" + "\n";
      ContentToCard(path, contents, 1, 1, digest) == Err(UnableToCreate(contents))
  {
    assert "Q: what?" == "Q: " + "what?";
    EmptyAnswerSegment(path, "what?", 1, 1, digest);
  }

  /** The first bracket pair of `ping? [pong]` is at characters, and bytes, 6 and 11. */
  lemma PingPongPair()
    ensures Cloze.IsFirstPair("ping? [pong]", 6, 11)
    ensures ByteOffset("ping? [pong]", 6) == 6 && ByteOffset("ping? [pong]", 11) == 11
  {
    var text := "ping? [pong]";
    assert text[6] == '[' && text[11] == ']';
    assert forall i :: 0 <= i < 11 ==> (text[i] as int) < 0x80;
    AsciiByteOffset(text, 6);
    AsciiByteOffset(text, 11);
  }

  /** The unit test: `"C: ping? [pong]"` spans bytes 6 to 11 of `ping? [pong]`. */
  lemma ClozeLineSpan(path: string, digest: string -> string)
    ensures var r := ContentToCard(path, "C: " + "ping? [pong]", 1, 1, digest);
      r.Ok? && r.value.content == Cloze("ping? [pong]", 6, 11)
  {
    PingPongPair();
    ClozeLineSegment(path, "ping? [pong]", 6, 11, 1, 1, digest);
  }

  /**
   * A file of a question, its answer, a cloze line and a line of plain text
   * is cut into two segments: the plain text joins the cloze segment, since
   * only `Q:` and `C:` lines start a new one.
   */
  lemma TrailingTextJoinsLastSegment()
    ensures Segments(["Q: what?", "A: yes", "C: ping? [pong]", "just text"]) == [(0, 2), (2, 4)]
  {
    var ls := ["Q: what?", "A: yes", "C: ping? [pong]", "just text"];
    assert ls[..1] == ["Q: what?"];
    assert ls[..2] == ["Q: what?", "A: yes"] && ls[..2][..1] == ls[..1];
    assert ls[..3] == ["Q: what?", "A: yes", "C: ping? [pong]"] && ls[..3][..2] == ls[..2];
    assert ls[..4] == ls && ls[..3] == ls[..3];
    assert !IsMarker(ls[1]) by { assert ls[1][0] == 'A'; }
    assert IsMarker(ls[2]) by { assert ls[2][..2] == "C:"; }
    assert !IsMarker(ls[3]) by { assert ls[3][0] == 'j'; }
    assert Segments(ls[..1]) == [(0, 1)];
    assert Segments(ls[..2]) == [(0, 2)];
    assert Segments(ls[..3]) == [(0, 2), (2, 3)];
  }

  /** An untagged line on its own, followed by `'\n'`, makes no card. */
  lemma UntaggedSegmentLineFails(path: string, l: string, startIdx: nat, endIdx: nat, digest: string -> string)
    requires l != [] && '\n' !in l && StripCR(l) == l
    requires !Tagged(l, Question) && !Tagged(l, Answer) && !Tagged(l, ClozeText)
    ensures ContentToCard(path, l + "\n", startIdx, endIdx, digest) == Err(UnableToCreate(l + "\n"))
  {
    assert JoinLines([l]) == l + "\n" by { assert [l][..0] == []; }
    LinesOfJoinLines([l]);
    assert Lines(l + "\n") == [l];
    IgnoredLine(NoFields, l);
    assert FieldsOf([l]) == ApplyLine(FieldsOf([]), l);
    ContentToCardCases(path, l + "\n", startIdx, endIdx, digest);
  }

  /** A marker on the second line closes the first segment after one line. */
  lemma FirstSegmentAlone(lines: seq<string>)
    requires |lines| >= 2 && IsMarker(lines[1])
    ensures Segments(lines)[0] == (0, 1)
  {
    var two := lines[..2];
    assert two[..1] == lines[..1] && two[1] == lines[1];
    assert Segments(lines[..1]) == [(0, 1)];
    assert Segments(two) == [(0, 1), (1, 2)];
    SegmentsStable(lines, 2, |lines|);
    assert lines[..|lines|] == lines;
  }

  /**
   * The first line opens the first segment whatever it holds. An untagged
   * line followed by a marker line is a segment of its own, which makes no
   * card, so the whole file fails.
   */
  lemma LeadingUntaggedLineFailsFile(path: string, l: string, rest: seq<string>, digest: string -> string)
    requires l != [] && '\n' !in l && StripCR(l) == l
    requires !Tagged(l, Question) && !Tagged(l, Answer) && !Tagged(l, ClozeText)
    requires rest != [] && IsMarker(rest[0])
    ensures Segments([l] + rest)[0] == (0, 1)
    ensures CardsOf(path, [l] + rest, digest) == Err(UnableToCreate(l + "\n"))
  {
    var lines := [l] + rest;
    assert lines[1] == rest[0];
    FirstSegmentAlone(lines);
    var segs := Segments(lines);
    assert SegmentText(lines, 0, 1) == l + "\n" by {
      assert lines[0..1] == [l];
      assert [l][..0] == [];
      assert JoinLines([l]) == JoinLines([]) + l + "\n";
    }
    UntaggedSegmentLineFails(path, l, 0, 1, digest);
    var rs := SegmentCards(lines, segs, CardBuilder(path, digest));
    assert rs[0] == Err(UnableToCreate(l + "\n"));
    CollectOk(rs);
    var i := CardsOfErr(path, lines, digest);
    assert i == 0;
  }

  /** A file that opens with a `# Notes` heading before its first question fails as a whole. */
  lemma LeadingHeadingFailsFile(path: string, q: string, a: string, digest: string -> string)
    ensures CardsOf(path, ["# Notes", "Q: " + q, "A: " + a], digest).Err?
  {
    var h := "# Notes";
    TrimUnchanged(h);
    assert h[0] == '#';
    assert ["# Notes", "Q: " + q, "A: " + a] == [h] + ["Q: " + q, "A: " + a];
    assert HasPrefix("Q: " + q, "Q:");
    LeadingUntaggedLineFailsFile(path, h, ["Q: " + q, "A: " + a], digest);
  }
}
