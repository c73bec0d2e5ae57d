/**
 * `trim_line` and `parse_card_lines` (src/utils.rs): reading the last
 * `Q:`, `A:` and `C:` value of a segment.
 */
module CardLines {
  import opened Wrappers
  import opened StrLib
  import Cards

  /** `trim_line`: the trimmed line, or nothing when only whitespace remains. */
  function TrimLine(line: string): (r: Option<string>)
    ensures r.None? <==> AllWhitespace(line)
    ensures r.Some? ==> Cards.IsTrimmedText(r.value)
  {
    TrimIsTrimOf(line);
    var t := Trim(line);
    if t == [] then None else Some(t)
  }

  /**
   * `trim_line` gives nothing exactly for a blank line; otherwise the line
   * without its surrounding whitespace, non-empty and trimmed at both ends.
   */
  lemma TrimLineSpec(line: string)
    ensures TrimLine(line).None? <==> AllWhitespace(line)
    ensures TrimLine(line).Some? ==>
      Cards.IsTrimmedText(TrimLine(line).value) && IsTrimOf(line, TrimLine(line).value)
  {
    TrimIsTrimOf(line);
  }

  /** The three prefixes `parse_card_lines` recognises. */
  datatype Tag = Question | Answer | ClozeText

  function Prefix(tag: Tag): string {
    match tag
    case Question => "Q:"
    case Answer => "A:"
    case ClozeText => "C:"
  }

  /** The last value seen for each prefix. */
  datatype Fields = Fields(question: Option<string>, answer: Option<string>, cloze: Option<string>)

  function Field(f: Fields, tag: Tag): Option<string> {
    match tag
    case Question => f.question
    case Answer => f.answer
    case ClozeText => f.cloze
  }

  const NoFields := Fields(None, None, None)

  /** One pass of the loop of `parse_card_lines` over one raw line. */
  function ApplyLine(f: Fields, rawLine: string): Fields {
    match TrimLine(rawLine)
    case None => f
    case Some(line) =>
      match StripPrefix(line, "Q:")
      case Some(rest) => f.(question := TrimLine(rest))
      case None =>
        match StripPrefix(line, "A:")
        case Some(rest) => f.(answer := TrimLine(rest))
        case None =>
          match StripPrefix(line, "C:")
          case Some(rest) => f.(cloze := TrimLine(rest))
          case None => f
  }

  /** The fields after reading `lines` in order. */
  function FieldsOf(lines: seq<string>): Fields {
    if lines == [] then NoFields else ApplyLine(FieldsOf(lines[..|lines| - 1]), lines[|lines| - 1])
  }

  method ParseCardLines(contents: string) returns (question: Option<string>, answer: Option<string>, cloze: Option<string>)
    ensures Fields(question, answer, cloze) == FieldsOf(Lines(contents))
  {
    question, answer, cloze := None, None, None;
    var lines := Lines(contents);
    for n := 0 to |lines|
      invariant Fields(question, answer, cloze) == FieldsOf(lines[..n])
    {
      assert lines[..n + 1][..n] == lines[..n];
      assert FieldsOf(lines[..n + 1]) == ApplyLine(FieldsOf(lines[..n]), lines[n]);
      ghost var before := Fields(question, answer, cloze);
      var trimmed := TrimLine(lines[n]);
      if trimmed.None? {
        assert ApplyLine(before, lines[n]) == before;
        continue;
      }
      var line := trimmed.value;
      var q := StripPrefix(line, "Q:");
      if q.Some? {
        question := TrimLine(q.value);
      } else {
        var a := StripPrefix(line, "A:");
        if a.Some? {
          answer := TrimLine(a.value);
        } else {
          var c := StripPrefix(line, "C:");
          if c.Some? {
            cloze := TrimLine(c.value);
          }
        }
      }
      assert Fields(question, answer, cloze) == ApplyLine(before, lines[n]);
    }
    assert lines[..|lines|] == lines;
  }

  /** The line, once trimmed, carries `tag`. */
  predicate Tagged(rawLine: string, tag: Tag) {
    TrimLine(rawLine).Some? && HasPrefix(TrimLine(rawLine).value, Prefix(tag))
  }

  /** The value a line tagged `tag` sets its field to: its trimmed remainder, if any. */
  function TaggedValue(rawLine: string, tag: Tag): Option<string>
    requires Tagged(rawLine, tag)
  {
    TrimLine(TrimLine(rawLine).value[2..])
  }

  lemma ApplyLineField(f: Fields, rawLine: string, tag: Tag)
    ensures Field(ApplyLine(f, rawLine), tag) ==
      if Tagged(rawLine, tag) then TaggedValue(rawLine, tag) else Field(f, tag)
  {
  }

  /** Last write wins: the field holds the value of the last line tagged with its prefix. */
  lemma {:induction false} LastWriteWins(lines: seq<string>, tag: Tag, k: nat)
    requires k < |lines| && Tagged(lines[k], tag)
    requires forall j :: k < j < |lines| ==> !Tagged(lines[j], tag)
    ensures Field(FieldsOf(lines), tag) == TaggedValue(lines[k], tag)
    decreases |lines|
  {
    var init := lines[..|lines| - 1];
    ApplyLineField(FieldsOf(init), lines[|lines| - 1], tag);
    if k < |lines| - 1 {
      LastWriteWins(init, tag, k);
    }
  }

  /** A field no line is tagged for stays empty. */
  lemma {:induction false} UntaggedFieldIsNone(lines: seq<string>, tag: Tag)
    requires forall j :: 0 <= j < |lines| ==> !Tagged(lines[j], tag)
    ensures Field(FieldsOf(lines), tag) == None
    decreases |lines|
  {
    if lines != [] {
      var init := lines[..|lines| - 1];
      ApplyLineField(FieldsOf(init), lines[|lines| - 1], tag);
      UntaggedFieldIsNone(init, tag);
    }
  }

  /** Every value the parser keeps is trimmed and non-empty. */
  lemma {:induction false} FieldsAreTrimmed(lines: seq<string>, tag: Tag)
    ensures Field(FieldsOf(lines), tag).Some? ==> Cards.IsTrimmedText(Field(FieldsOf(lines), tag).value)
    decreases |lines|
  {
    if lines != [] {
      var last := lines[|lines| - 1];
      var init := lines[..|lines| - 1];
      ApplyLineField(FieldsOf(init), last, tag);
      if Tagged(last, tag) {
        TrimLineSpec(TrimLine(last).value[2..]);
      } else {
        FieldsAreTrimmed(init, tag);
      }
    }
  }

  /** Lines with only whitespace, and lines with none of the prefixes, change nothing. */
  lemma IgnoredLine(f: Fields, rawLine: string)
    requires !Tagged(rawLine, Question) && !Tagged(rawLine, Answer) && !Tagged(rawLine, ClozeText)
    ensures ApplyLine(f, rawLine) == f
  {
  }

  /** A `'\r'` at the end of a line is whitespace, so it never changes what the parser reads. */
  lemma ApplyLineStripCR(f: Fields, rawLine: string)
    ensures ApplyLine(f, StripCR(rawLine)) == ApplyLine(f, rawLine)
  {
    TrimStripCR(rawLine);
  }

  lemma {:induction false} FieldsOfStripCR(lines: seq<string>)
    ensures FieldsOf(seq(|lines|, i requires 0 <= i < |lines| => StripCR(lines[i]))) == FieldsOf(lines)
    decreases |lines|
  {
    var stripped := seq(|lines|, i requires 0 <= i < |lines| => StripCR(lines[i]));
    if lines != [] {
      var init := lines[..|lines| - 1];
      assert stripped[..|lines| - 1] == seq(|init|, i requires 0 <= i < |init| => StripCR(init[i]));
      FieldsOfStripCR(init);
      ApplyLineStripCR(FieldsOf(init), lines[|lines| - 1]);
    }
  }

  /** The parser reads a segment built by `cards_from_md` exactly as the lines it was built from. */
  lemma FieldsOfJoinedLines(lines: seq<string>)
    requires forall i :: 0 <= i < |lines| ==> '\n' !in lines[i]
    ensures FieldsOf(Lines(JoinLines(lines))) == FieldsOf(lines)
  {
    LinesOfJoinLines(lines);
    FieldsOfStripCR(lines);
  }
}
