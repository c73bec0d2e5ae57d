/**
 * `content_to_card`, `get_card_hash` and `cards_from_md` (src/utils.rs):
 * cutting a file's lines into segments and turning each segment into a card.
 */
module Extract {
  import opened Wrappers
  import opened StrLib
  import opened Cards
  import opened CardLines
  import Cloze

  /** The two ways `content_to_card` fails. */
  datatype CardError =
    | ClozeWithoutSpan               // a `C:` line without a `[`…`]` pair
    | UnableToCreate(contents: string) // neither a question and answer nor a cloze

  /** The text appended to a segment before hashing: `"<start>:<end>"`. */
  function RangeText(startIdx: nat, endIdx: nat): string {
    Decimal(startIdx) + ":" + Decimal(endIdx)
  }

  /**
   * The message `get_card_hash` feeds to the hasher: the segment, then its
   * range. The hash itself is `digest` of this message, with the digest
   * (blake3, rendered in hex) a parameter.
   */
  function HashMessage(content: string, startIdx: nat, endIdx: nat): (m: string)
    ensures content < m
    ensures ':' in m[|content|..]
  {
    var r := RangeText(startIdx, endIdx);
    assert (content + r)[|content|..] == r && r[|Decimal(startIdx)|] == ':';
    content + r
  }

  /** `content_to_card`: a Basic card when both a question and an answer are present, else a Cloze card. */
  function ContentToCard(path: string, contents: string, startIdx: nat, endIdx: nat, digest: string -> string)
    : (r: Result<Card, CardError>)
    ensures r.Ok? ==> r.value.filePath == path && r.value.fileCardRange == (startIdx, endIdx)
    ensures r.Ok? ==> r.value.cardHash == digest(HashMessage(contents, startIdx, endIdx))
    ensures r.Ok? ==> WellFormedContent(r.value.content)
  {
    var lines := Lines(contents);
    var fields := FieldsOf(lines);
    var cardHash := digest(HashMessage(contents, startIdx, endIdx));
    if fields.question.Some? && fields.answer.Some? then
      FieldsAreTrimmed(lines, Question);
      FieldsAreTrimmed(lines, Answer);
      Ok(Card(path, (startIdx, endIdx), Basic(fields.question.value, fields.answer.value), cardHash))
    else if fields.cloze.Some? then
      var text := fields.cloze.value;
      var ranges := Cloze.ClozeRanges(text);
      if ranges == [] then
        Err(ClozeWithoutSpan)
      else
        Cloze.ClozeRangesWellFormed(text);
        Ok(Card(path, (startIdx, endIdx), Cloze(text, ranges[0].0, ranges[0].1), cardHash))
    else
      Err(UnableToCreate(contents))
  }

  /**
   * `content_to_card` as the program runs it: the segment's fields come from
   * the line-by-line parse and the span from the bracket scan. The result is
   * `ContentToCard(path, contents, startIdx, endIdx, digest)`, stated through
   * `CardBuilder`, the form `cards_from_md` works with.
   */
  method BuildCard(path: string, contents: string, startIdx: nat, endIdx: nat, digest: string -> string)
    returns (r: Result<Card, CardError>)
    ensures r == CardBuilder(path, digest)(contents, startIdx, endIdx)
  {
    var question, answer, cloze := ParseCardLines(contents);
    var cardHash := digest(HashMessage(contents, startIdx, endIdx));
    if question.Some? && answer.Some? {
      r := Ok(Card(path, (startIdx, endIdx), Basic(question.value, answer.value), cardHash));
    } else if cloze.Some? {
      var ranges := Cloze.FindClozeRanges(cloze.value);
      if ranges == [] {
        r := Err(ClozeWithoutSpan);
      } else {
        r := Ok(Card(path, (startIdx, endIdx), Cloze(cloze.value, ranges[0].0, ranges[0].1), cardHash));
      }
    } else {
      r := Err(UnableToCreate(contents));
    }
  }

  /**
   * How `content_to_card` decides. A Basic card exactly when the segment has
   * both a question and an answer (so Basic wins over a cloze line); otherwise
   * a Cloze card whose span is the first `[` and the first `]` after it; an
   * error when the cloze text has no such pair or there is no cloze line.
   */
  lemma ContentToCardCases(path: string, contents: string, startIdx: nat, endIdx: nat, digest: string -> string)
    ensures var r := ContentToCard(path, contents, startIdx, endIdx, digest);
      var f := FieldsOf(Lines(contents));
      && (r.Ok? && r.value.content.Basic? <==> f.question.Some? && f.answer.Some?)
      && (r.Ok? && r.value.content.Basic? ==> r.value.content == Basic(f.question.value, f.answer.value))
      && (r.Ok? && r.value.content.Cloze? <==>
            !(f.question.Some? && f.answer.Some?) && f.cloze.Some? && Cloze.HasBracketPair(f.cloze.value))
      && (r.Err? <==>
            !(f.question.Some? && f.answer.Some?) && (f.cloze.None? || !Cloze.HasBracketPair(f.cloze.value)))
      && (r.Err? && f.cloze.Some? ==> r.error == ClozeWithoutSpan)
      && (r.Err? && f.cloze.None? ==> r.error == UnableToCreate(contents))
  {
    var f := FieldsOf(Lines(contents));
    if f.cloze.Some? {
      Cloze.ClozeRangesNonEmpty(f.cloze.value);
    }
  }

  /** A Cloze card's span is the first `[` of its text and the first `]` after that. */
  lemma ContentToCardClozeSpan(path: string, contents: string, startIdx: nat, endIdx: nat,
                               digest: string -> string, a: nat, b: nat)
    requires var f := FieldsOf(Lines(contents));
      !(f.question.Some? && f.answer.Some?) && f.cloze.Some? && Cloze.IsFirstPair(f.cloze.value, a, b)
    ensures var text := FieldsOf(Lines(contents)).cloze.value;
      ContentToCard(path, contents, startIdx, endIdx, digest).Ok? &&
      ContentToCard(path, contents, startIdx, endIdx, digest).value.content
        == Cloze(text, ByteOffset(text, a), ByteOffset(text, b))
  {
    Cloze.FirstClozeRange(FieldsOf(Lines(contents)).cloze.value, a, b);
  }

  /** The card, and its hash, do not depend on the file path; only `filePath` records it. */
  lemma ContentToCardIgnoresPath(p1: string, p2: string, contents: string, startIdx: nat, endIdx: nat,
                                 digest: string -> string)
    ensures var r1 := ContentToCard(p1, contents, startIdx, endIdx, digest);
      var r2 := ContentToCard(p2, contents, startIdx, endIdx, digest);
      && r1.Ok? == r2.Ok?
      && (r1.Ok? ==> r1.value.(filePath := p2) == r2.value && r1.value.cardHash == r2.value.cardHash)
  {
  }

  lemma DecimalHasNoColon(n: nat)
    ensures ':' !in Decimal(n) && '\n' !in Decimal(n)
  {
  }

  lemma ConcatAt(a: string, b: string, i: nat)
    ensures i < |a| ==> (a + b)[i] == a[i]
    ensures |a| <= i < |a| + |b| ==> (a + b)[i] == b[i - |a|]
  {
  }

  lemma SplitAtColon(x: string, y: string, x': string, y': string)
    requires ':' !in x && ':' !in x'
    requires x + ":" + y == x' + ":" + y'
    ensures x == x' && y == y'
  {
    var m := x + ":" + y;
    ConcatAt(x + ":", y, |x'|);
    ConcatAt(x' + ":", y', |x|);
    ConcatAt(x, ":", |x'|);
    ConcatAt(x', ":", |x|);
    assert x == m[..|x|] == x';
    assert y == m[|x| + 1..] == y';
  }

  lemma RangeTextInjective(s1: nat, e1: nat, s2: nat, e2: nat)
    requires RangeText(s1, e1) == RangeText(s2, e2)
    ensures s1 == s2 && e1 == e2
  {
    DecimalHasNoColon(s1);
    DecimalHasNoColon(s2);
    SplitAtColon(Decimal(s1), Decimal(e1), Decimal(s2), Decimal(e2));
    DecimalInjective(s1, s2);
    DecimalInjective(e1, e2);
  }

  /** The same text at two different ranges gives two different messages. */
  lemma HashMessageRangeInjective(content: string, s1: nat, e1: nat, s2: nat, e2: nat)
    requires (s1, e1) != (s2, e2)
    ensures HashMessage(content, s1, e1) != HashMessage(content, s2, e2)
  {
    if HashMessage(content, s1, e1) == HashMessage(content, s2, e2) {
      var m := HashMessage(content, s1, e1);
      assert RangeText(s1, e1) == m[|content|..] == RangeText(s2, e2);
      RangeTextInjective(s1, e1, s2, e2);
    }
  }

  /** Two different texts at the same range give two different messages. */
  lemma HashMessageContentInjective(c1: string, c2: string, startIdx: nat, endIdx: nat)
    requires c1 != c2
    ensures HashMessage(c1, startIdx, endIdx) != HashMessage(c2, startIdx, endIdx)
  {
    var r := RangeText(startIdx, endIdx);
    assert (c1 + r)[..|c1|] == c1 && (c2 + r)[..|c2|] == c2;
  }

  /** When text and range both vary, messages can coincide: `"x1"` at 2:3 and `"x"` at 12:3. */
  lemma HashMessageJointCollision()
    ensures HashMessage("x1", 2, 3) == HashMessage("x", 12, 3)
  {
    assert Decimal(12) == Decimal(1) + ['2'];
  }

  /**
   * Every segment `cards_from_md` hashes ends with `'\n'`, and a range text
   * never holds one, so for such segments the message determines both the
   * text and the range.
   */
  lemma SegmentHashMessageInjective(c1: string, s1: nat, e1: nat, c2: string, s2: nat, e2: nat)
    requires c1 != [] && c1[|c1| - 1] == '\n'
    requires c2 != [] && c2[|c2| - 1] == '\n'
    requires HashMessage(c1, s1, e1) == HashMessage(c2, s2, e2)
    ensures c1 == c2 && s1 == s2 && e1 == e2
  {
    var r1, r2 := RangeText(s1, e1), RangeText(s2, e2);
    DecimalHasNoColon(s1);
    DecimalHasNoColon(e1);
    DecimalHasNoColon(s2);
    DecimalHasNoColon(e2);
    assert '\n' !in r1 && '\n' !in r2;
    var m := c1 + r1;
    ConcatAt(c1, r1, |c2| - 1);
    ConcatAt(c2, r2, |c1| - 1);
    assert c1 == m[..|c1|] == c2;
    assert r1 == m[|c1|..] == r2;
    RangeTextInjective(s1, e1, s2, e2);
  }

  /** A raw line that starts a new segment: one that begins with `Q:` or `C:` before any trimming. */
  predicate IsMarker(line: string) {
    HasPrefix(line, "Q:") || HasPrefix(line, "C:")
  }

  /** The `[start, end)` line ranges `cards_from_md` cuts `lines` into. */
  function Segments(lines: seq<string>): (segs: seq<(nat, nat)>)
    ensures |segs| <= |lines|
    ensures lines != [] ==> segs != [] && segs[|segs| - 1].1 == |lines|
  {
    if lines == [] then []
    else
      var prev := Segments(lines[..|lines| - 1]);
      var idx := |lines| - 1;
      if prev == [] then [(0, 1)]
      else if IsMarker(lines[idx]) then prev + [(idx, idx + 1)]
      else prev[..|prev| - 1] + [(prev[|prev| - 1].0, idx + 1)]
  }

  /**
   * `segs` cuts `n` lines into contiguous, non-empty ranges, in order,
   * covering all of them.
   */
  ghost predicate Tiles(n: nat, segs: seq<(nat, nat)>) {
    && (segs == [] <==> n == 0)
    && (segs != [] ==> segs[0].0 == 0 && segs[|segs| - 1].1 == n)
    && (forall i :: 0 <= i < |segs| ==> segs[i].0 < segs[i].1 <= n)
    && (forall i :: 0 <= i < |segs| - 1 ==> segs[i].1 == segs[i + 1].0)
  }

  /** Every range but the first starts at a marker line, and no marker line lies inside a range. */
  ghost predicate CutAtMarkers(lines: seq<string>, segs: seq<(nat, nat)>) {
    && (forall i :: 0 < i < |segs| && segs[i].0 < |lines| ==> IsMarker(lines[segs[i].0]))
    && (forall i, k :: 0 <= i < |segs| && segs[i].0 < k < segs[i].1 && k < |lines| ==> !IsMarker(lines[k]))
  }

  /** `segs` is a way to cut `lines` into segments, each opened by a marker line or by the first line. */
  ghost predicate IsPartition(lines: seq<string>, segs: seq<(nat, nat)>) {
    Tiles(|lines|, segs) && CutAtMarkers(lines, segs)
  }

  lemma {:induction false} SegmentsPartition(lines: seq<string>)
    ensures IsPartition(lines, Segments(lines))
    decreases |lines|
  {
    var n := |lines|;
    if n == 1 {
      SegmentsFirstLine(lines);
      assert lines[..1] == lines;
    } else if n > 1 {
      var init := lines[..n - 1];
      SegmentsPartition(init);
      if IsMarker(lines[n - 1]) {
        SegmentsAtMarker(lines);
        TilesAdd(n, Segments(init));
        CutsAdd(lines, Segments(init));
      } else {
        SegmentsAtText(lines);
        TilesExtend(n, Segments(init));
        CutsExtend(lines, Segments(init));
      }
    }
  }

  /** The partition is unique: any partition with those properties is `Segments(lines)`. */
  lemma {:induction false} PartitionIsSegments(lines: seq<string>, segs: seq<(nat, nat)>)
    requires IsPartition(lines, segs)
    ensures segs == Segments(lines)
    decreases |lines|
  {
    var n := |lines|;
    if n == 1 {
      TilesSingle(segs);
      SegmentsFirstLine(lines);
      assert lines[..1] == lines;
    } else if n > 1 {
      var init := lines[..n - 1];
      if IsMarker(lines[n - 1]) {
        var segs' := PartitionDropLast(lines, segs);
        PartitionIsSegments(init, segs');
        SegmentsAtMarker(lines);
      } else {
        var segs' := PartitionShrinkLast(lines, segs);
        PartitionIsSegments(init, segs');
        SegmentsAtText(lines);
      }
    }
  }

  /** A partition whose last line is a marker ends with that line on its own. */
  lemma PartitionDropLast(lines: seq<string>, segs: seq<(nat, nat)>) returns (segs': seq<(nat, nat)>)
    requires IsPartition(lines, segs) && |lines| > 1 && IsMarker(lines[|lines| - 1])
    ensures segs == segs' + [(|lines| - 1, |lines|)] && IsPartition(lines[..|lines| - 1], segs')
  {
    var n, m := |lines|, |segs|;
    var last := segs[m - 1];
    TilesBeforeLast(n, segs);
    assert last.0 == n - 1;
    segs' := segs[..m - 1];
    TilesDrop(n, segs);
    CutsDrop(lines, segs);
    assert segs == segs' + [last];
  }

  /** A partition whose last line is not a marker, less that line, is a partition of the rest. */
  lemma PartitionShrinkLast(lines: seq<string>, segs: seq<(nat, nat)>) returns (segs': seq<(nat, nat)>)
    requires IsPartition(lines, segs) && |lines| > 1 && !IsMarker(lines[|lines| - 1])
    ensures segs' != [] && segs == segs'[..|segs'| - 1] + [(segs'[|segs'| - 1].0, |lines|)]
    ensures IsPartition(lines[..|lines| - 1], segs')
  {
    var n, m := |lines|, |segs|;
    var last := segs[m - 1];
    assert last.0 < n - 1 by {
      if m > 1 {
        assert IsMarker(lines[last.0]);
      }
    }
    segs' := segs[..m - 1] + [(last.0, n - 1)];
    TilesShrink(n, segs);
    CutsShrink(lines, segs);
    assert segs'[..m - 1] == segs[..m - 1];
    assert segs == segs[..m - 1] + [last];
  }

  /** A marker line opens a segment of its own. */
  lemma SegmentsAtMarker(lines: seq<string>)
    requires |lines| > 1 && IsMarker(lines[|lines| - 1])
    ensures Segments(lines) == Segments(lines[..|lines| - 1]) + [(|lines| - 1, |lines|)]
  {
  }

  /** Any other line extends the last segment. */
  lemma SegmentsAtText(lines: seq<string>)
    requires |lines| > 1 && !IsMarker(lines[|lines| - 1])
    ensures var prev := Segments(lines[..|lines| - 1]);
      prev != [] && Segments(lines) == prev[..|prev| - 1] + [(prev[|prev| - 1].0, |lines|)]
  {
  }

  lemma SegmentsFirstLine(lines: seq<string>)
    requires lines != []
    ensures Segments(lines[..1]) == [(0, 1)]
  {
    assert lines[..1][..0] == [];
  }

  /** Every range of a tiling ends before the last one starts. */
  lemma TilesBeforeLast(n: nat, segs: seq<(nat, nat)>)
    requires Tiles(n, segs)
    ensures forall i :: 0 <= i < |segs| - 1 ==> segs[i].1 <= segs[|segs| - 1].0
  {
    forall i | 0 <= i < |segs| - 1 ensures segs[i].1 <= segs[|segs| - 1].0 {
      TilesOrdered(n, segs, i, |segs| - 1);
    }
  }

  lemma {:induction false} TilesOrdered(n: nat, segs: seq<(nat, nat)>, i: nat, j: nat)
    requires Tiles(n, segs) && i < j < |segs|
    ensures segs[i].1 <= segs[j].0
    decreases j - i
  {
    if i + 1 < j {
      TilesOrdered(n, segs, i + 1, j);
    }
  }

  /** Range `i` of a tiling starts at `i` or later. */
  lemma {:induction false} TilesStartBound(n: nat, segs: seq<(nat, nat)>, i: nat)
    requires Tiles(n, segs) && i < |segs|
    ensures i <= segs[i].0
  {
    if i > 0 {
      TilesStartBound(n, segs, i - 1);
    }
  }

  /** One line is tiled by one range. */
  lemma TilesSingle(segs: seq<(nat, nat)>)
    requires Tiles(1, segs)
    ensures segs == [(0, 1)]
  {
    TilesStartBound(1, segs, |segs| - 1);
  }

  /** A tiling of `n - 1` lines plus the range of line `n - 1` tiles `n` lines. */
  lemma TilesAdd(n: nat, prev: seq<(nat, nat)>)
    requires n > 1 && Tiles(n - 1, prev)
    ensures Tiles(n, prev + [(n - 1, n)])
  {
    var segs := prev + [(n - 1, n)];
    forall i | 0 <= i < |segs| - 1 ensures segs[i].1 == segs[i + 1].0 {
      assert segs[i] == prev[i];
      if i + 1 < |prev| { assert segs[i + 1] == prev[i + 1]; }
    }
  }

  /** A tiling of `n - 1` lines whose last range grows by one line tiles `n` lines. */
  lemma TilesExtend(n: nat, prev: seq<(nat, nat)>)
    requires n > 1 && Tiles(n - 1, prev)
    ensures prev != [] && Tiles(n, prev[..|prev| - 1] + [(prev[|prev| - 1].0, n)])
  {
    var m := |prev|;
    var segs := prev[..m - 1] + [(prev[m - 1].0, n)];
    forall i | 0 <= i < m - 1 ensures segs[i] == prev[i] {
    }
    assert segs[m - 1] == (prev[m - 1].0, n);
  }

  /** A tiling of `n` lines whose last range is line `n - 1` alone, less that range. */
  lemma TilesDrop(n: nat, segs: seq<(nat, nat)>)
    requires n > 1 && Tiles(n, segs) && segs[|segs| - 1].0 == n - 1
    ensures |segs| > 1 && Tiles(n - 1, segs[..|segs| - 1])
  {
    var m := |segs|;
    TilesBeforeLast(n, segs);
    var segs' := segs[..m - 1];
    forall i | 0 <= i < m - 1 ensures segs'[i] == segs[i] && segs[i].1 <= n - 1 {
    }
  }

  /** A tiling of `n` lines whose last range is longer than one line, with that range cut short. */
  lemma TilesShrink(n: nat, segs: seq<(nat, nat)>)
    requires n > 1 && Tiles(n, segs) && segs[|segs| - 1].0 < n - 1
    ensures Tiles(n - 1, segs[..|segs| - 1] + [(segs[|segs| - 1].0, n - 1)])
  {
    var m := |segs|;
    TilesBeforeLast(n, segs);
    var segs' := segs[..m - 1] + [(segs[m - 1].0, n - 1)];
    forall i | 0 <= i < m - 1 ensures segs'[i] == segs[i] && segs[i].1 < n - 1 {
    }
  }

  /** Adding a marker line as a range of its own keeps the cuts at markers. */
  lemma CutsAdd(lines: seq<string>, prev: seq<(nat, nat)>)
    requires |lines| > 1 && IsMarker(lines[|lines| - 1])
    requires Tiles(|lines| - 1, prev) && CutAtMarkers(lines[..|lines| - 1], prev)
    ensures CutAtMarkers(lines, prev + [(|lines| - 1, |lines|)])
  {
    var n := |lines|;
    var init := lines[..n - 1];
    var segs := prev + [(n - 1, n)];
    forall i | 0 < i < |segs| && segs[i].0 < n ensures IsMarker(lines[segs[i].0]) {
      if i < |prev| { assert lines[segs[i].0] == init[prev[i].0]; }
    }
    forall i, k | 0 <= i < |segs| && segs[i].0 < k < segs[i].1 && k < n ensures !IsMarker(lines[k]) {
      assert segs[i] == prev[i];
      assert lines[k] == init[k];
    }
  }

  /** Adding an ordinary line to the last range keeps the cuts at markers. */
  lemma CutsExtend(lines: seq<string>, prev: seq<(nat, nat)>)
    requires |lines| > 1 && !IsMarker(lines[|lines| - 1])
    requires Tiles(|lines| - 1, prev) && CutAtMarkers(lines[..|lines| - 1], prev)
    ensures prev != [] && CutAtMarkers(lines, prev[..|prev| - 1] + [(prev[|prev| - 1].0, |lines|)])
  {
    var n := |lines|;
    var init := lines[..n - 1];
    var segs := prev[..|prev| - 1] + [(prev[|prev| - 1].0, n)];
    forall i | 0 < i < |segs| && segs[i].0 < n ensures IsMarker(lines[segs[i].0]) {
      assert segs[i].0 == prev[i].0;
      assert lines[segs[i].0] == init[prev[i].0];
    }
    forall i, k | 0 <= i < |segs| && segs[i].0 < k < segs[i].1 && k < n ensures !IsMarker(lines[k]) {
      if k < n - 1 {
        assert segs[i].0 == prev[i].0;
        assert lines[k] == init[k];
      }
    }
  }

  /** Removing the last line and its range keeps the cuts at markers. */
  lemma CutsDrop(lines: seq<string>, segs: seq<(nat, nat)>)
    requires |lines| > 0 && |segs| > 0 && CutAtMarkers(lines, segs)
    ensures CutAtMarkers(lines[..|lines| - 1], segs[..|segs| - 1])
  {
    var init := lines[..|lines| - 1];
    var segs' := segs[..|segs| - 1];
    forall i | 0 < i < |segs'| && segs'[i].0 < |init| ensures IsMarker(init[segs'[i].0]) {
      assert init[segs'[i].0] == lines[segs[i].0];
    }
    forall i, k | 0 <= i < |segs'| && segs'[i].0 < k < segs'[i].1 && k < |init| ensures !IsMarker(init[k]) {
      assert init[k] == lines[k];
    }
  }

  /** Removing the last line from the last range keeps the cuts at markers. */
  lemma CutsShrink(lines: seq<string>, segs: seq<(nat, nat)>)
    requires |lines| > 0 && |segs| > 0 && segs[|segs| - 1].1 == |lines| && CutAtMarkers(lines, segs)
    ensures CutAtMarkers(lines[..|lines| - 1], segs[..|segs| - 1] + [(segs[|segs| - 1].0, |lines| - 1)])
  {
    var init := lines[..|lines| - 1];
    var segs' := segs[..|segs| - 1] + [(segs[|segs| - 1].0, |lines| - 1)];
    forall i | 0 < i < |segs'| && segs'[i].0 < |init| ensures IsMarker(init[segs'[i].0]) {
      assert segs'[i].0 == segs[i].0;
      assert init[segs'[i].0] == lines[segs[i].0];
    }
    forall i, k | 0 <= i < |segs'| && segs'[i].0 < k < segs'[i].1 && k < |init| ensures !IsMarker(init[k]) {
      assert segs'[i].0 == segs[i].0 && segs'[i].1 <= segs[i].1;
      assert init[k] == lines[k];
    }
  }

  /** The text of segment `[a, b)`: each of its lines followed by `'\n'` (none for a range outside the file). */
  function SegmentText(lines: seq<string>, a: nat, b: nat): string {
    if a <= b <= |lines| then JoinLines(lines[a..b]) else []
  }

  /** A way to turn a segment's text and range into a card. */
  type Builder = (string, nat, nat) -> Result<Card, CardError>

  /** `content_to_card` for the file at `path`. */
  function CardBuilder(path: string, digest: string -> string): Builder {
    (contents: string, startIdx: nat, endIdx: nat) => ContentToCard(path, contents, startIdx, endIdx, digest)
  }

  /** The outcome of building each segment, in file order. */
  function SegmentCards(lines: seq<string>, segs: seq<(nat, nat)>, build: Builder): seq<Result<Card, CardError>> {
    seq(|segs|, i requires 0 <= i < |segs| => build(SegmentText(lines, segs[i].0, segs[i].1), segs[i].0, segs[i].1))
  }

  /** The values of `rs` in order, or the first error among them: how `?` stops a loop. */
  function Collect<T, E>(rs: seq<Result<T, E>>): Result<seq<T>, E> {
    if rs == [] then Ok([])
    else
      match Collect(rs[..|rs| - 1])
      case Err(e) => Err(e)
      case Ok(vs) =>
        match rs[|rs| - 1]
        case Err(e) => Err(e)
        case Ok(v) => Ok(vs + [v])
  }

  /** When every outcome is a value, the values come out one for one, in order. */
  lemma {:induction false} CollectOk<T, E>(rs: seq<Result<T, E>>)
    ensures Collect(rs).Ok? <==> forall i :: 0 <= i < |rs| ==> rs[i].Ok?
    ensures Collect(rs).Ok? ==> |Collect(rs).value| == |rs|
    ensures Collect(rs).Ok? ==> forall i :: 0 <= i < |rs| ==> rs[i] == Ok(Collect(rs).value[i])
    decreases |rs|
  {
    if rs != [] {
      CollectOk(rs[..|rs| - 1]);
    }
  }

  /** Otherwise the error is that of the first outcome that is an error. */
  lemma {:induction false} CollectFirstErr<T, E>(rs: seq<Result<T, E>>) returns (i: nat)
    requires Collect(rs).Err?
    ensures i < |rs| && rs[i] == Err(Collect(rs).error)
    ensures forall j :: 0 <= j < i ==> rs[j].Ok?
    decreases |rs|
  {
    var init := rs[..|rs| - 1];
    if Collect(init).Err? {
      i := CollectFirstErr(init);
      assert rs[i] == init[i];
      assert forall j :: 0 <= j < i ==> rs[j] == init[j];
    } else {
      CollectOk(init);
      i := |rs| - 1;
      assert forall j :: 0 <= j < i ==> rs[j] == init[j];
    }
  }

  /** Once a prefix fails, the rest is never looked at. */
  lemma {:induction false} CollectErrPrefix<T, E>(rs: seq<Result<T, E>>, m: nat)
    requires m <= |rs| && Collect(rs[..m]).Err?
    ensures Collect(rs) == Collect(rs[..m])
    decreases |rs| - m
  {
    if m < |rs| {
      assert rs[..m + 1][..m] == rs[..m];
      CollectErrPrefix(rs, m + 1);
    } else {
      assert rs[..m] == rs;
    }
  }

  /** What `cards_from_md` returns for `lines`: the cards of its segments, or the first error. */
  function CardsOf(path: string, lines: seq<string>, digest: string -> string): Result<seq<Card>, CardError> {
    Collect(SegmentCards(lines, Segments(lines), CardBuilder(path, digest)))
  }

  /**
   * `cards_from_md` over a file without error: one card per segment, in file
   * order, whose ranges are contiguous, non-empty and cover every line, each
   * built from its segment's text and well formed; an empty file gives no
   * cards.
   */
  lemma CardsOfOk(path: string, lines: seq<string>, digest: string -> string)
    ensures lines == [] ==> CardsOf(path, lines, digest) == Ok([])
    ensures var r := CardsOf(path, lines, digest);
      var segs := Segments(lines);
      r.Ok? ==>
        && |r.value| == |segs|
        && (lines != [] ==> r.value[0].fileCardRange.0 == 0 && r.value[|segs| - 1].fileCardRange.1 == |lines|)
        && (forall i :: 0 <= i < |segs| - 1 ==> r.value[i].fileCardRange.1 == r.value[i + 1].fileCardRange.0)
        && (forall i :: 0 <= i < |segs| ==>
              && r.value[i].fileCardRange == segs[i]
              && r.value[i].fileCardRange.0 < r.value[i].fileCardRange.1
              && r.value[i].filePath == path
              && WellFormedContent(r.value[i].content)
              && Ok(r.value[i]) == ContentToCard(path, SegmentText(lines, segs[i].0, segs[i].1), segs[i].0, segs[i].1, digest))
  {
    var segs := Segments(lines);
    SegmentsPartition(lines);
    var r := CardsOf(path, lines, digest);
    if r.Ok? {
      forall i | 0 <= i < |segs|
        ensures |r.value| == |segs|
        ensures Ok(r.value[i]) == ContentToCard(path, SegmentText(lines, segs[i].0, segs[i].1), segs[i].0, segs[i].1, digest)
      {
        CardsOfAt(path, lines, digest, i);
      }
      CollectOk(SegmentCards(lines, segs, CardBuilder(path, digest)));
    }
  }

  /** Card `i` of a file without error is the one built from segment `i`. */
  lemma CardsOfAt(path: string, lines: seq<string>, digest: string -> string, i: nat)
    requires CardsOf(path, lines, digest).Ok? && i < |Segments(lines)|
    ensures var segs := Segments(lines);
      && |CardsOf(path, lines, digest).value| == |segs|
      && Ok(CardsOf(path, lines, digest).value[i])
         == ContentToCard(path, SegmentText(lines, segs[i].0, segs[i].1), segs[i].0, segs[i].1, digest)
  {
    var segs := Segments(lines);
    var rs := SegmentCards(lines, segs, CardBuilder(path, digest));
    CollectOk(rs);
    assert rs[i] == CardBuilder(path, digest)(SegmentText(lines, segs[i].0, segs[i].1), segs[i].0, segs[i].1);
  }

  /** Otherwise `cards_from_md` fails with the error of the first segment that fails. */
  lemma CardsOfErr(path: string, lines: seq<string>, digest: string -> string) returns (i: nat)
    requires CardsOf(path, lines, digest).Err?
    ensures i < |Segments(lines)|
    ensures SegmentCards(lines, Segments(lines), CardBuilder(path, digest))[i] == Err(CardsOf(path, lines, digest).error)
    ensures forall j :: 0 <= j < i ==> SegmentCards(lines, Segments(lines), CardBuilder(path, digest))[j].Ok?
  {
    var rs := SegmentCards(lines, Segments(lines), CardBuilder(path, digest));
    i := CollectFirstErr(rs);
  }

  /** One more line either opens a new segment or extends the last one. */
  lemma SegmentsSnoc(lines: seq<string>, m: nat)
    requires 1 < m <= |lines|
    ensures |Segments(lines[..m - 1])| <= |Segments(lines[..m])|
    ensures forall i :: 0 <= i < |Segments(lines[..m - 1])| - 1 ==> Segments(lines[..m])[i] == Segments(lines[..m - 1])[i]
  {
    var l := lines[..m];
    assert l[..m - 1] == lines[..m - 1];
    var prev := Segments(lines[..m - 1]);
    if IsMarker(l[m - 1]) {
      SegmentsAtMarker(l);
      assert forall i :: 0 <= i < |prev| ==> Segments(l)[i] == prev[i];
    } else {
      SegmentsAtText(l);
      assert forall i :: 0 <= i < |prev| - 1 ==> Segments(l)[i] == prev[i];
    }
  }

  /** Extending the lines keeps every segment but the last one of the shorter file. */
  lemma {:induction false} SegmentsStable(lines: seq<string>, j: nat, m: nat)
    requires 0 < j <= m <= |lines|
    ensures |Segments(lines[..j])| <= |Segments(lines[..m])|
    ensures forall i :: 0 <= i < |Segments(lines[..j])| - 1 ==> Segments(lines[..m])[i] == Segments(lines[..j])[i]
    decreases m
  {
    if j < m {
      SegmentsStable(lines, j, m - 1);
      SegmentsSnoc(lines, m);
      AgreeTrans(Segments(lines[..j]), Segments(lines[..m - 1]), Segments(lines[..m]));
    }
  }

  /** `b` agrees with `a` on all but `a`'s last element, and `c` with `b`: so `c` with `a`. */
  lemma AgreeTrans<T>(a: seq<T>, b: seq<T>, c: seq<T>)
    requires |a| <= |b| && forall i :: 0 <= i < |a| - 1 ==> b[i] == a[i]
    requires |b| <= |c| && forall i :: 0 <= i < |b| - 1 ==> c[i] == b[i]
    ensures |a| <= |c| && forall i :: 0 <= i < |a| - 1 ==> c[i] == a[i]
  {
  }

  /**
   * What `cards_from_md` knows after reading `idx` lines: `buffer` holds the
   * open segment `[startIdx, idx)`, `done` the segments closed before it, and
   * `cards` their cards.
   */
  ghost predicate Scanned(lines: seq<string>, build: Builder, idx: nat, startIdx: nat,
                          buffer: string, done: seq<(nat, nat)>, cards: seq<Card>)
  {
    && startIdx <= idx <= |lines|
    && (idx == 0 ==> startIdx == 0 && buffer == [] && done == [])
    && (idx > 0 ==> startIdx < idx && buffer != [] && Segments(lines[..idx]) == done + [(startIdx, idx)])
    && buffer == SegmentText(lines, startIdx, idx)
    && (forall i :: 0 <= i < |done| ==> done[i].0 <= done[i].1 <= startIdx)
    && Collect(SegmentCards(lines, done, build)) == Ok(cards)
  }

  method CardsFromMd(path: string, lines: seq<string>, digest: string -> string)
    returns (r: Result<seq<Card>, CardError>)
    ensures r == CardsOf(path, lines, digest)
  {
    ghost var build := CardBuilder(path, digest);
    var cards: seq<Card> := [];
    var buffer: string := [];
    var startIdx: nat := 0;
    var lastIdx: nat := 0;
    ghost var done: seq<(nat, nat)> := [];
    for idx := 0 to |lines|
      invariant Scanned(lines, build, idx, startIdx, buffer, done, cards)
      invariant idx > 0 ==> lastIdx == idx - 1
    {
      var line := lines[idx];
      if (HasPrefix(line, "Q:") || HasPrefix(line, "C:")) && buffer != [] {
        var card := BuildCard(path, buffer, startIdx, idx, digest);
        assert card == build(buffer, startIdx, idx);
        if card.Err? {
          r := Err(card.error);
          FlushFails(lines, build, idx, startIdx, buffer, done, cards);
          return;
        }
        StepOpen(lines, build, idx, startIdx, buffer, done, cards);
        cards := cards + [card.value];
        done := done + [(startIdx, idx)];
        buffer := [];
        startIdx := idx;
      } else {
        StepExtend(lines, build, idx, startIdx, buffer, done, cards);
      }
      buffer := buffer + line + "\n";
      lastIdx := idx;
    }
    if buffer != [] {
      var card := BuildCard(path, buffer, startIdx, lastIdx + 1, digest);
      assert card == build(buffer, startIdx, |lines|);
      FlushLast(lines, build, startIdx, buffer, done, cards);
      if card.Err? {
        r := Err(card.error);
        return;
      }
      cards := cards + [card.value];
    } else {
      FlushNothing(lines, build, startIdx, buffer, done, cards);
    }
    r := Ok(cards);
  }

  /** An ordinary line, or the very first line, joins the open segment. */
  lemma StepExtend(lines: seq<string>, build: Builder, idx: nat, startIdx: nat,
                   buffer: string, done: seq<(nat, nat)>, cards: seq<Card>)
    requires Scanned(lines, build, idx, startIdx, buffer, done, cards) && idx < |lines|
    requires !IsMarker(lines[idx]) || buffer == []
    ensures Scanned(lines, build, idx + 1, startIdx, buffer + lines[idx] + "\n", done, cards)
  {
    if idx == 0 {
      SegmentsFirstLine(lines);
    } else {
      SegmentsAtTextPrefix(lines, idx, done, startIdx);
    }
    SegmentTextSnoc(lines, startIdx, idx);
  }

  /** A marker line closes the open segment, whose card is made, and opens its own. */
  lemma StepOpen(lines: seq<string>, build: Builder, idx: nat, startIdx: nat,
                 buffer: string, done: seq<(nat, nat)>, cards: seq<Card>)
    requires Scanned(lines, build, idx, startIdx, buffer, done, cards) && idx < |lines|
    requires IsMarker(lines[idx]) && buffer != []
    requires build(buffer, startIdx, idx).Ok?
    ensures Scanned(lines, build, idx + 1, idx, [] + lines[idx] + "\n", done + [(startIdx, idx)],
                    cards + [build(buffer, startIdx, idx).value])
  {
    FlushStep(lines, done, startIdx, idx, cards, build);
    SegmentsAtMarkerPrefix(lines, idx, done, startIdx);
    SegmentTextSnoc(lines, idx, idx);
    assert SegmentText(lines, idx, idx) == [];
  }

  /**
   * A segment closed by the marker at `idx` that makes no card is the
   * first failure of the whole file.
   */
  lemma FlushFails(lines: seq<string>, build: Builder, idx: nat, startIdx: nat,
                   buffer: string, done: seq<(nat, nat)>, cards: seq<Card>)
    requires Scanned(lines, build, idx, startIdx, buffer, done, cards) && idx < |lines|
    requires IsMarker(lines[idx]) && buffer != []
    requires build(buffer, startIdx, idx).Err?
    ensures Collect(SegmentCards(lines, Segments(lines), build)) == Err(build(buffer, startIdx, idx).error)
  {
    ClosedSegmentCards(lines, build, idx, startIdx, done);
    CollectErrAt(SegmentCards(lines, Segments(lines), build), SegmentCards(lines, done, build), build(buffer, startIdx, idx));
  }

  /** The segments closed by the marker at `idx` begin the file's outcomes. */
  lemma ClosedSegmentCards(lines: seq<string>, build: Builder, idx: nat, startIdx: nat, done: seq<(nat, nat)>)
    requires 0 < idx < |lines| && startIdx < idx && IsMarker(lines[idx])
    requires Segments(lines[..idx]) == done + [(startIdx, idx)]
    requires forall i :: 0 <= i < |done| ==> done[i].0 <= done[i].1 <= startIdx
    ensures |done| < |Segments(lines)|
    ensures SegmentCards(lines, Segments(lines), build)[..|done| + 1]
      == SegmentCards(lines, done, build) + [build(SegmentText(lines, startIdx, idx), startIdx, idx)]
  {
    var done' := done + [(startIdx, idx)];
    SegmentsAtMarkerPrefix(lines, idx, done, startIdx);
    SegmentsExtendPrefix(lines, idx + 1, done');
    SegmentCardsSnoc(lines, done, (startIdx, idx), build);
    SegmentCardsPrefix(lines, Segments(lines), done', build);
  }

  /** Segments closed within the first `j` lines stay closed in the whole file. */
  lemma SegmentsExtendPrefix(lines: seq<string>, j: nat, closed: seq<(nat, nat)>)
    requires 0 < j <= |lines|
    requires |closed| < |Segments(lines[..j])| && forall i :: 0 <= i < |closed| ==> Segments(lines[..j])[i] == closed[i]
    ensures |closed| <= |Segments(lines)| && forall i :: 0 <= i < |closed| ==> Segments(lines)[i] == closed[i]
  {
    SegmentsStable(lines, j, |lines|);
    assert lines[..|lines|] == lines;
  }

  /** A failure right after a run of successes is the overall failure. */
  lemma CollectErrAt<T, E>(rs: seq<Result<T, E>>, pre: seq<Result<T, E>>, x: Result<T, E>)
    requires |pre| < |rs| && rs[..|pre| + 1] == pre + [x]
    requires Collect(pre).Ok? && x.Err?
    ensures Collect(rs) == Err(x.error)
  {
    assert (pre + [x])[..|pre|] == pre;
    CollectErrPrefix(rs, |pre| + 1);
  }

  /** The segment still open at the end of the file is its last one. */
  lemma FlushLast(lines: seq<string>, build: Builder, startIdx: nat,
                  buffer: string, done: seq<(nat, nat)>, cards: seq<Card>)
    requires Scanned(lines, build, |lines|, startIdx, buffer, done, cards) && buffer != []
    ensures var card := build(buffer, startIdx, |lines|);
      Collect(SegmentCards(lines, Segments(lines), build)) == if card.Ok? then Ok(cards + [card.value]) else Err(card.error)
  {
    assert lines[..|lines|] == lines;
    var rs := SegmentCards(lines, done + [(startIdx, |lines|)], build);
    SegmentCardsSnoc(lines, done, (startIdx, |lines|), build);
    assert rs[..|rs| - 1] == SegmentCards(lines, done, build);
  }

  /** A file with no lines has no cards. */
  lemma FlushNothing(lines: seq<string>, build: Builder, startIdx: nat,
                     buffer: string, done: seq<(nat, nat)>, cards: seq<Card>)
    requires Scanned(lines, build, |lines|, startIdx, buffer, done, cards) && buffer == []
    ensures Collect(SegmentCards(lines, Segments(lines), build)) == Ok(cards)
  {
  }

  /** Appending a line to a segment appends it, and `'\n'`, to the segment's text. */
  lemma SegmentTextSnoc(lines: seq<string>, a: nat, b: nat)
    requires a <= b < |lines|
    ensures SegmentText(lines, a, b + 1) == SegmentText(lines, a, b) + lines[b] + "\n"
  {
    assert lines[a..b + 1][..b - a] == lines[a..b];
  }

  /** A marker after a segment closes it and opens one of its own. */
  lemma SegmentsAtMarkerPrefix(lines: seq<string>, idx: nat, done: seq<(nat, nat)>, startIdx: nat)
    requires 0 < idx < |lines| && IsMarker(lines[idx])
    requires Segments(lines[..idx]) == done + [(startIdx, idx)]
    ensures Segments(lines[..idx + 1]) == done + [(startIdx, idx)] + [(idx, idx + 1)]
  {
    assert lines[..idx + 1][..idx] == lines[..idx];
    SegmentsAtMarker(lines[..idx + 1]);
  }

  /** Any other line extends the open segment. */
  lemma SegmentsAtTextPrefix(lines: seq<string>, idx: nat, done: seq<(nat, nat)>, startIdx: nat)
    requires 0 < idx < |lines| && !IsMarker(lines[idx])
    requires Segments(lines[..idx]) == done + [(startIdx, idx)]
    ensures Segments(lines[..idx + 1]) == done + [(startIdx, idx + 1)]
  {
    assert lines[..idx + 1][..idx] == lines[..idx];
    SegmentsAtText(lines[..idx + 1]);
  }

  /** A segment that makes a card extends the cards collected so far. */
  lemma FlushStep(lines: seq<string>, done: seq<(nat, nat)>, startIdx: nat, idx: nat,
                  cards: seq<Card>, build: Builder)
    requires startIdx <= idx <= |lines|
    requires forall i :: 0 <= i < |done| ==> done[i].0 <= done[i].1 <= startIdx
    requires Collect(SegmentCards(lines, done, build)) == Ok(cards)
    requires build(SegmentText(lines, startIdx, idx), startIdx, idx).Ok?
    ensures Collect(SegmentCards(lines, done + [(startIdx, idx)], build))
      == Ok(cards + [build(SegmentText(lines, startIdx, idx), startIdx, idx).value])
  {
    var rs := SegmentCards(lines, done + [(startIdx, idx)], build);
    SegmentCardsSnoc(lines, done, (startIdx, idx), build);
    assert rs[..|rs| - 1] == SegmentCards(lines, done, build);
  }


  lemma SegmentCardsSnoc(lines: seq<string>, segs: seq<(nat, nat)>, seg: (nat, nat), build: Builder)
    ensures SegmentCards(lines, segs + [seg], build)
      == SegmentCards(lines, segs, build) + [build(SegmentText(lines, seg.0, seg.1), seg.0, seg.1)]
  {
  }

  lemma SegmentCardsPrefix(lines: seq<string>, segs: seq<(nat, nat)>, pre: seq<(nat, nat)>, build: Builder)
    requires |pre| <= |segs| && forall i :: 0 <= i < |pre| ==> pre[i] == segs[i]
    ensures SegmentCards(lines, segs, build)[..|pre|] == SegmentCards(lines, pre, build)
  {
  }
}
