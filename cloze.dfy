/**
 * `find_cloze_ranges` (src/utils.rs): a one-pass scanner over the characters
 * of a cloze text that remembers one pending `[` and closes it at the next
 * `]`. Offsets are UTF-8 byte offsets, as `str::char_indices` reports them.
 */
module Cloze {
  import opened Wrappers
  import opened StrLib

  /** What the scanner holds after a prefix: the pending `[`, and the ranges closed so far. */
  datatype ScanState = ScanState(start: Option<nat>, ranges: seq<(nat, nat)>)

  /** The scanner's state after reading all of `text`, one character at a time. */
  function Scan(text: string): ScanState
    decreases |text|
  {
    if text == [] then ScanState(None, [])
    else
      var prev := Scan(text[..|text| - 1]);
      var i := Utf8Size(text[..|text| - 1]);
      var ch := text[|text| - 1];
      if ch == '[' && prev.start.None? then ScanState(Some(i), prev.ranges)
      else if ch == ']' && prev.start.Some? then ScanState(None, prev.ranges + [(prev.start.value, i)])
      else prev
  }

  /** The `(start, end)` byte offsets of every bracket pair the scanner closes. */
  function ClozeRanges(text: string): seq<(nat, nat)> {
    Scan(text).ranges
  }

  method FindClozeRanges(text: string) returns (ranges: seq<(nat, nat)>)
    ensures ranges == ClozeRanges(text)
  {
    ranges := [];
    var start: Option<nat> := None;
    var i: nat := 0;
    for k := 0 to |text|
      invariant i == Utf8Size(text[..k])
      invariant ScanState(start, ranges) == Scan(text[..k])
    {
      assert text[..k + 1][..k] == text[..k];
      var ch := text[k];
      if ch == '[' && start.None? {
        start := Some(i);
      } else if ch == ']' && start.Some? {
        var s := start.value;
        start := None;
        ranges := ranges + [(s, i)];
      }
      i := i + Utf8Len(ch);
    }
    assert text[..|text|] == text;
  }

  /**
   * A closed range: `[` starts at byte `s`, `]` starts at byte `e`, `s < e`,
   * and no `]` starts strictly between them.
   */
  ghost predicate RangeOk(text: string, s: nat, e: nat) {
    && s < e
    && CharAtByte(text, s, '[')
    && CharAtByte(text, e, ']')
    && forall k :: 0 <= k < |text| && s < ByteOffset(text, k) < e ==> text[k] != ']'
  }

  /** Every closed range is well formed; the ranges are strictly increasing and disjoint. */
  ghost predicate RangesOk(text: string, rs: seq<(nat, nat)>) {
    && (forall j :: 0 <= j < |rs| ==> RangeOk(text, rs[j].0, rs[j].1) && rs[j].1 < Utf8Size(text))
    && (forall i, j :: 0 <= i < j < |rs| ==> rs[i].1 < rs[j].0)
  }

  /** A pending `[` lies after every closed range, and no `]` follows it. */
  ghost predicate PendingOk(text: string, st: ScanState) {
    st.start.Some? ==>
      var s := st.start.value;
      && CharAtByte(text, s, '[')
      && s < Utf8Size(text)
      && (forall j :: 0 <= j < |st.ranges| ==> st.ranges[j].1 < s)
      && (forall k :: 0 <= k < |text| && s < ByteOffset(text, k) ==> text[k] != ']')
  }

  lemma SnocFacts(p: string, ch: char)
    ensures (p + [ch])[..|p|] == p
    ensures Utf8Size(p + [ch]) == Utf8Size(p) + Utf8Len(ch)
    ensures ByteOffset(p + [ch], |p|) == Utf8Size(p)
  {
    assert (p + [ch])[..|p + [ch]| - 1] == p;
  }

  lemma CharAtByteExtend(p: string, ch: char, b: nat, c: char)
    requires CharAtByte(p, b, c)
    ensures CharAtByte(p + [ch], b, c)
  {
    var k :| 0 <= k < |p| && ByteOffset(p, k) == b && p[k] == c;
    ByteOffsetPrefix(p, [ch], k);
    assert (p + [ch])[k] == c;
  }

  lemma ScanStep(p: string, ch: char)
    requires RangesOk(p, Scan(p).ranges) && PendingOk(p, Scan(p))
    ensures RangesOk(p + [ch], Scan(p + [ch]).ranges) && PendingOk(p + [ch], Scan(p + [ch]))
  {
    var t := p + [ch];
    var prev := Scan(p);
    var i := Utf8Size(p);
    SnocFacts(p, ch);
    assert Scan(t) == (if ch == '[' && prev.start.None? then ScanState(Some(i), prev.ranges)
      else if ch == ']' && prev.start.Some? then ScanState(None, prev.ranges + [(prev.start.value, i)])
      else prev);
    RangesExtend(p, ch, prev.ranges);
    if ch == '[' && prev.start.None? {
      ScanOpens(p, ch, prev.ranges);
    } else if ch == ']' && prev.start.Some? {
      ScanCloses(p, ch, prev);
    } else if prev.start.Some? {
      PendingExtend(p, ch, prev);
    }
  }

  /** The new character lies beyond every byte offset of `p`. */
  lemma SnocOffsets(p: string, ch: char)
    ensures forall k :: 0 <= k < |p| ==> ByteOffset(p + [ch], k) == ByteOffset(p, k) < Utf8Size(p) && (p + [ch])[k] == p[k]
  {
    forall k | 0 <= k < |p| ensures ByteOffset(p + [ch], k) == ByteOffset(p, k) < Utf8Size(p) {
      ByteOffsetPrefix(p, [ch], k);
      ByteOffsetStrict(p, k, |p|);
      assert p[..|p|] == p;
    }
  }

  /** Closed ranges stay well formed when text is appended. */
  lemma RangesExtend(p: string, ch: char, rs: seq<(nat, nat)>)
    requires RangesOk(p, rs)
    ensures RangesOk(p + [ch], rs)
  {
    var t := p + [ch];
    SnocFacts(p, ch);
    SnocOffsets(p, ch);
    forall j | 0 <= j < |rs| ensures RangeOk(t, rs[j].0, rs[j].1) && rs[j].1 < Utf8Size(t) {
      CharAtByteExtend(p, ch, rs[j].0, '[');
      CharAtByteExtend(p, ch, rs[j].1, ']');
    }
  }

  /** A `[` with nothing pending becomes the pending bracket. */
  lemma ScanOpens(p: string, ch: char, rs: seq<(nat, nat)>)
    requires ch == '[' && RangesOk(p, rs)
    ensures PendingOk(p + [ch], ScanState(Some(Utf8Size(p)), rs))
  {
    var t := p + [ch];
    SnocFacts(p, ch);
    SnocOffsets(p, ch);
    assert CharAtByte(t, Utf8Size(p), '[') by { assert t[|p|] == '['; }
  }

  /** A `]` closes the pending bracket into a well-formed range after all the others. */
  lemma ScanCloses(p: string, ch: char, prev: ScanState)
    requires ch == ']' && prev.start.Some? && RangesOk(p, prev.ranges) && PendingOk(p, prev)
    ensures RangesOk(p + [ch], prev.ranges + [(prev.start.value, Utf8Size(p))])
  {
    SnocFacts(p, ch);
    RangesExtend(p, ch, prev.ranges);
    ClosedRange(p, ch, prev.start.value);
    RangesAppend(p + [ch], prev.ranges, (prev.start.value, Utf8Size(p)));
  }

  /** The `]` appended after a pending `[` at byte `s` closes a well-formed range. */
  lemma ClosedRange(p: string, ch: char, s: nat)
    requires ch == ']' && CharAtByte(p, s, '[') && s < Utf8Size(p)
    requires forall k :: 0 <= k < |p| && s < ByteOffset(p, k) ==> p[k] != ']'
    ensures RangeOk(p + [ch], s, Utf8Size(p))
  {
    var t := p + [ch];
    SnocFacts(p, ch);
    SnocOffsets(p, ch);
    CharAtByteExtend(p, ch, s, '[');
    assert CharAtByte(t, Utf8Size(p), ']') by { assert t[|p|] == ']'; }
  }

  /** A well-formed range after all the others extends them. */
  lemma RangesAppend(t: string, rs: seq<(nat, nat)>, r: (nat, nat))
    requires RangesOk(t, rs) && RangeOk(t, r.0, r.1) && r.1 < Utf8Size(t)
    requires forall j :: 0 <= j < |rs| ==> rs[j].1 < r.0
    ensures RangesOk(t, rs + [r])
  {
    var rs' := rs + [r];
    forall j | 0 <= j < |rs'| ensures RangeOk(t, rs'[j].0, rs'[j].1) && rs'[j].1 < Utf8Size(t) {
      if j < |rs| { assert rs'[j] == rs[j]; }
    }
    forall a, b | 0 <= a < b < |rs'| ensures rs'[a].1 < rs'[b].0 {
      assert rs'[a] == rs[a];
      if b < |rs| { assert rs'[b] == rs[b]; }
    }
  }

  /** Any character other than `]` keeps a pending bracket pending. */
  lemma PendingExtend(p: string, ch: char, prev: ScanState)
    requires ch != ']' && PendingOk(p, prev)
    ensures PendingOk(p + [ch], prev)
  {
    if prev.start.Some? {
      var t := p + [ch];
      SnocFacts(p, ch);
      SnocOffsets(p, ch);
      CharAtByteExtend(p, ch, prev.start.value, '[');
      assert t[|p|] == ch;
    }
  }

  /**
   * Every range the scanner returns is a well-formed bracket pair, with no
   * `]` inside it, and the ranges are strictly increasing and disjoint.
   */
  lemma {:induction false} ClozeRangesWellFormed(text: string)
    ensures RangesOk(text, ClozeRanges(text)) && PendingOk(text, Scan(text))
    decreases |text|
  {
    if text != [] {
      var p, ch := text[..|text| - 1], text[|text| - 1];
      assert text == p + [ch];
      ClozeRangesWellFormed(p);
      ScanStep(p, ch);
    }
  }

  /** `text` holds a `[` with a `]` somewhere after it. */
  predicate HasBracketPair(text: string) {
    exists a, b :: 0 <= a < b < |text| && text[a] == '[' && text[b] == ']'
  }

  /** `text[a]` is the first `[` of `text`, and `text[b]` the first `]` after it. */
  predicate IsFirstPair(text: string, a: nat, b: nat) {
    && a < b < |text| && text[a] == '[' && text[b] == ']'
    && (forall k :: 0 <= k < a ==> text[k] != '[')
    && (forall k :: a < k < b ==> text[k] != ']')
  }

  /** Scanning only ever appends ranges. */
  lemma {:induction false} ScanRangesGrow(text: string, m: nat)
    requires m <= |text|
    ensures |Scan(text[..m]).ranges| <= |ClozeRanges(text)|
    ensures ClozeRanges(text)[..|Scan(text[..m]).ranges|] == Scan(text[..m]).ranges
    decreases |text| - m
  {
    if m < |text| {
      assert text[..m + 1][..m] == text[..m];
      ScanRangesGrow(text, m + 1);
    } else {
      assert text[..m] == text;
    }
  }

  /** Before the first `[` the scanner has nothing. */
  lemma {:induction false} ScanBeforeOpen(text: string, m: nat)
    requires m <= |text| && forall k :: 0 <= k < m ==> text[k] != '['
    ensures Scan(text[..m]) == ScanState(None, [])
  {
    if m > 0 {
      assert text[..m][..m - 1] == text[..m - 1];
      ScanBeforeOpen(text, m - 1);
    }
  }

  /** Between the first `[` and the `]` after it, that `[` is pending. */
  lemma {:induction false} ScanWhileOpen(text: string, a: nat, b: nat, m: nat)
    requires IsFirstPair(text, a, b) && a < m <= b
    ensures Scan(text[..m]) == ScanState(Some(ByteOffset(text, a)), [])
  {
    assert text[..m][..m - 1] == text[..m - 1];
    if m == a + 1 {
      ScanBeforeOpen(text, a);
    } else {
      ScanWhileOpen(text, a, b, m - 1);
    }
  }

  /** A cloze card's range is the first `[` and the first `]` after it. */
  lemma FirstClozeRange(text: string, a: nat, b: nat)
    requires IsFirstPair(text, a, b)
    ensures ClozeRanges(text) != []
    ensures ClozeRanges(text)[0] == (ByteOffset(text, a), ByteOffset(text, b))
  {
    ScanWhileOpen(text, a, b, b);
    assert text[..b + 1][..b] == text[..b];
    assert Scan(text[..b + 1]).ranges == [(ByteOffset(text, a), ByteOffset(text, b))];
    ScanRangesGrow(text, b + 1);
  }

  /** Once a `[` has been seen, the scanner has a pending start or a closed range. */
  lemma {:induction false} ScanSawOpen(text: string, m: nat, a: nat)
    requires a < m <= |text| && text[a] == '['
    ensures Scan(text[..m]).start.Some? || Scan(text[..m]).ranges != []
  {
    assert text[..m][..m - 1] == text[..m - 1];
    if a < m - 1 {
      ScanSawOpen(text, m - 1, a);
    }
  }

  /** The scanner finds a range exactly when some `[` is followed by a `]`. */
  lemma ClozeRangesNonEmpty(text: string)
    ensures ClozeRanges(text) != [] <==> HasBracketPair(text)
  {
    if ClozeRanges(text) != [] {
      ClozeRangesWellFormed(text);
      var (s, e) := ClozeRanges(text)[0];
      var a :| 0 <= a < |text| && ByteOffset(text, a) == s && text[a] == '[';
      var b :| 0 <= b < |text| && ByteOffset(text, b) == e && text[b] == ']';
      if b <= a {
        if b < a { ByteOffsetStrict(text, b, a); }
        assert false;
      }
    }
    if HasBracketPair(text) {
      var a, b :| 0 <= a < b < |text| && text[a] == '[' && text[b] == ']';
      ScanSawOpen(text, b, a);
      assert text[..b + 1][..b] == text[..b];
      assert Scan(text[..b + 1]).ranges != [];
      ScanRangesGrow(text, b + 1);
    }
  }

  /** Text with no `]` closes nothing: an unclosed trailing `[` adds no range. */
  lemma {:induction false} NoCloseNoRange(p: string, q: string)
    requires ']' !in q
    ensures ClozeRanges(p + q) == ClozeRanges(p)
    decreases |q|
  {
    if q != [] {
      var q' := q[..|q| - 1];
      assert (p + q)[..|p + q| - 1] == p + q';
      assert (p + q)[|p + q| - 1] == q[|q| - 1];
      assert ']' !in q' by {
        forall k | 0 <= k < |q'| ensures q'[k] != ']' { assert q'[k] == q[k]; }
      }
      NoCloseNoRange(p, q');
      assert Scan(p + q).ranges == Scan(p + q').ranges;
    } else {
      assert p + q == p;
    }
  }

  /** A `]` while no `[` is pending is skipped. */
  lemma StrayCloseIgnored(p: string)
    requires Scan(p).start.None?
    ensures Scan(p + "]") == Scan(p)
  {
    assert (p + "]")[..|p|] == p;
  }
}
