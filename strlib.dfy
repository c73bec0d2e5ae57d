/**
 * The pieces of Rust's standard string library that the extractor relies on:
 * `char::is_whitespace` and `str::trim`, `str::strip_prefix`, `str::lines`,
 * the UTF-8 byte offsets that `str::char_indices` reports, and the decimal
 * rendering of a `usize` by `format!("{}")`.
 */
module StrLib {
  import opened Wrappers

  /** The characters outside U+2000..U+200A with the Unicode White_Space property. */
  const WhitespaceChars: set<char> :=
    {'\t', '\n', '\U{0B}', '\U{0C}', '\r', ' ', '\U{85}', '\U{A0}', '\U{1680}',
     '\U{2028}', '\U{2029}', '\U{202F}', '\U{205F}', '\U{3000}'}

  /** `char::is_whitespace`: the characters with the Unicode White_Space property. */
  predicate IsWhitespace(c: char) {
    c in WhitespaceChars || '\U{2000}' <= c <= '\U{200A}'
  }

  predicate AllWhitespace(s: string) {
    forall i :: 0 <= i < |s| ==> IsWhitespace(s[i])
  }

  /** `str::trim_start`. */
  function TrimStart(s: string): string {
    if s != [] && IsWhitespace(s[0]) then TrimStart(s[1..]) else s
  }

  /** `str::trim_end`. */
  function TrimEnd(s: string): string {
    if s != [] && IsWhitespace(s[|s| - 1]) then TrimEnd(s[..|s| - 1]) else s
  }

  /** `trim_start` drops the leading whitespace, and nothing else. */
  lemma {:induction false} TrimStartSpec(s: string)
    ensures |TrimStart(s)| <= |s| && TrimStart(s) == s[|s| - |TrimStart(s)|..]
    ensures AllWhitespace(s[..|s| - |TrimStart(s)|])
    ensures TrimStart(s) != [] ==> !IsWhitespace(TrimStart(s)[0])
  {
    if s != [] && IsWhitespace(s[0]) {
      TrimStartSpec(s[1..]);
      var n := |s| - |TrimStart(s)|;
      assert s[..n] == [s[0]] + s[1..][..n - 1];
    }
  }

  /** `trim_end` drops the trailing whitespace, and nothing else. */
  lemma {:induction false} TrimEndSpec(s: string)
    ensures |TrimEnd(s)| <= |s| && TrimEnd(s) == s[..|TrimEnd(s)|]
    ensures AllWhitespace(s[|TrimEnd(s)|..])
    ensures TrimEnd(s) != [] ==> !IsWhitespace(TrimEnd(s)[|TrimEnd(s)| - 1])
  {
    if s != [] && IsWhitespace(s[|s| - 1]) {
      var init := s[..|s| - 1];
      TrimEndSpec(init);
      var n := |TrimEnd(s)|;
      assert s[n..] == init[n..] + [s[|s| - 1]];
    }
  }

  /** `str::trim`. */
  function Trim(s: string): string {
    TrimEnd(TrimStart(s))
  }

  /**
   * `t` is what trimming `s` leaves: a slice of `s` with only whitespace
   * around it, which neither starts nor ends with whitespace.
   */
  ghost predicate IsTrimOf(s: string, t: string) {
    && (t != [] ==> !IsWhitespace(t[0]) && !IsWhitespace(t[|t| - 1]))
    && exists a, b :: 0 <= a <= b <= |s| && t == s[a..b] && AllWhitespace(s[..a]) && AllWhitespace(s[b..])
  }

  /** Where `Trim(s)` sits in `s`: the slice `s[a..b]` with only whitespace around it. */
  lemma TrimSlice(s: string) returns (a: nat, b: nat)
    ensures a <= b <= |s| && Trim(s) == s[a..b]
    ensures AllWhitespace(s[..a]) && AllWhitespace(s[b..])
    ensures a < b ==> !IsWhitespace(s[a]) && !IsWhitespace(s[b - 1])
  {
    var u := TrimStart(s);
    TrimStartSpec(s);
    a := |s| - |u|;
    var t := TrimEnd(u);
    TrimEndSpec(u);
    b := a + |t|;
    assert t == u[..|t|] == s[a..b];
    assert s[b..] == u[|t|..];
    if a < b {
      assert s[a] == u[0] && s[b - 1] == t[|t| - 1];
    }
  }

  lemma TrimIsTrimOf(s: string)
    ensures IsTrimOf(s, Trim(s))
    ensures Trim(s) == [] <==> AllWhitespace(s)
  {
    var a, b := TrimSlice(s);
    if Trim(s) == [] {
      forall i | 0 <= i < |s| ensures IsWhitespace(s[i]) {
        if i < a { assert s[i] == s[..a][i]; } else { assert s[i] == s[b..][i - b]; }
      }
    } else {
      var t := Trim(s);
      assert t[0] == s[a] && t[|t| - 1] == s[b - 1];
    }
  }

  lemma WhitespacePrefixBound(s: string, a: nat, k: nat)
    requires a <= |s| && AllWhitespace(s[..a])
    requires k < |s| && !IsWhitespace(s[k])
    ensures a <= k
  {
  }

  lemma WhitespaceSuffixBound(s: string, b: nat, k: nat)
    requires b <= |s| && AllWhitespace(s[b..])
    requires k < |s| && !IsWhitespace(s[k])
    ensures k < b
  {
  }

  /** Trimming has exactly one possible outcome. */
  lemma {:induction false} TrimOfUnique(s: string, t: string)
    requires IsTrimOf(s, t)
    ensures t == Trim(s)
  {
    var a, b :| 0 <= a <= b <= |s| && t == s[a..b] && AllWhitespace(s[..a]) && AllWhitespace(s[b..]);
    if t == [] {
      forall i | 0 <= i < |s| ensures IsWhitespace(s[i]) {
        if i < a { assert s[i] == s[..a][i]; } else { assert s[i] == s[b..][i - b]; }
      }
      TrimIsTrimOf(s);
    } else {
      TrimOfUniqueNonEmpty(s, t, a, b);
    }
  }

  lemma TrimOfUniqueNonEmpty(s: string, t: string, a: nat, b: nat)
    requires a < b <= |s| && t == s[a..b] && AllWhitespace(s[..a]) && AllWhitespace(s[b..])
    requires !IsWhitespace(t[0]) && !IsWhitespace(t[|t| - 1])
    ensures t == Trim(s)
  {
    var a', b' := TrimSlice(s);
    if Trim(s) != [] {
      assert !IsWhitespace(s[a]) && !IsWhitespace(s[b - 1]);
      SliceUnique(s, a, b, a', b');
    }
  }

  /** Two slices that are both trimmed and both surrounded by whitespace coincide. */
  lemma SliceUnique(s: string, a: nat, b: nat, a': nat, b': nat)
    requires a < b <= |s| && AllWhitespace(s[..a]) && AllWhitespace(s[b..])
    requires a' < b' <= |s| && AllWhitespace(s[..a']) && AllWhitespace(s[b'..])
    requires !IsWhitespace(s[a]) && !IsWhitespace(s[b - 1])
    requires !IsWhitespace(s[a']) && !IsWhitespace(s[b' - 1])
    ensures a == a' && b == b'
  {
    WhitespacePrefixBound(s, a', a);
    WhitespaceSuffixBound(s, b', b - 1);
    WhitespacePrefixBound(s, a, a');
    WhitespaceSuffixBound(s, b, b' - 1);
  }

  predicate HasPrefix(s: string, p: string) {
    |p| <= |s| && s[..|p|] == p
  }

  /** `str::strip_prefix`. */
  function StripPrefix(s: string, p: string): (r: Option<string>)
    ensures r.Some? <==> HasPrefix(s, p)
    ensures r.Some? ==> p + r.value == s
  {
    if HasPrefix(s, p) then Some(s[|p|..]) else None
  }

  /** The index of the first `c` in `s`, if any. */
  function IndexOf(s: string, c: char): (r: Option<nat>)
    ensures r.Some? ==> r.value < |s| && s[r.value] == c && c !in s[..r.value]
    ensures r.None? ==> c !in s
  {
    if s == [] then None
    else if s[0] == c then Some(0)
    else match IndexOf(s[1..], c)
      case None => None
      case Some(k) => assert s[..k + 1] == [s[0]] + s[1..][..k]; Some(k + 1)
  }

  /** Removes one `'\r'` at the end, as `str::lines` does before a `'\n'`. */
  function StripCR(s: string): string {
    if s != [] && s[|s| - 1] == '\r' then s[..|s| - 1] else s
  }

  /** A `'\r'` at the end is whitespace, so trimming removes it anyway. */
  lemma TrimStripCR(s: string)
    ensures Trim(StripCR(s)) == Trim(s)
  {
    if s != [] && s[|s| - 1] == '\r' {
      var u := StripCR(s);
      assert s == u + ['\r'];
      var a, b := TrimSlice(u);
      assert s[..a] == u[..a];
      assert s[b..] == u[b..] + ['\r'];
      assert s[a..b] == u[a..b];
      if Trim(u) == [] {
        TrimIsTrimOf(u);
        assert AllWhitespace(s) by {
          forall i | 0 <= i < |s| ensures IsWhitespace(s[i]) {
            if i < |u| { assert s[i] == u[i]; }
          }
        }
        TrimIsTrimOf(s);
      } else {
        assert IsTrimOf(s, Trim(u));
        TrimOfUnique(s, Trim(u));
      }
    }
  }

  /**
   * `str::lines`: splits at each `'\n'`, drops a `'\r'` just before it,
   * and yields no empty last line after a final `'\n'`.
   */
  function Lines(s: string): (ls: seq<string>)
    ensures ls == [] <==> s == []
    ensures |ls| <= |s|
    decreases |s|
  {
    if s == [] then []
    else match IndexOf(s, '\n')
      case None => [s]
      case Some(k) => [StripCR(s[..k])] + Lines(s[k + 1..])
  }

  /** Each line followed by `'\n'`: the text `cards_from_md` accumulates. */
  function JoinLines(ls: seq<string>): (r: string)
    ensures |r| >= |ls|
  {
    if ls == [] then [] else JoinLines(ls[..|ls| - 1]) + ls[|ls| - 1] + "\n"
  }

  lemma {:induction false} JoinLinesCons(l: string, ls: seq<string>)
    ensures JoinLines([l] + ls) == l + "\n" + JoinLines(ls)
    decreases |ls|
  {
    if ls == [] {
      assert ([l] + ls)[..0] == [];
    } else {
      var init := ls[..|ls| - 1];
      assert ([l] + ls)[..|ls|] == [l] + init;
      JoinLinesCons(l, init);
    }
  }

  /** Splitting joined lines that hold no `'\n'` gives the lines back, less a final `'\r'`. */
  lemma {:induction false} LinesOfJoinLines(ls: seq<string>)
    requires forall i :: 0 <= i < |ls| ==> '\n' !in ls[i]
    ensures Lines(JoinLines(ls)) == seq(|ls|, i requires 0 <= i < |ls| => StripCR(ls[i]))
    decreases |ls|
  {
    if ls != [] {
      var l, rest := ls[0], ls[1..];
      assert ls == [l] + rest;
      JoinLinesCons(l, rest);
      var s := l + "\n" + JoinLines(rest);
      assert s[|l|] == '\n';
      assert s[..|l|] == l;
      assert IndexOf(s, '\n') == Some(|l|);
      assert s[|l| + 1..] == JoinLines(rest);
      LinesOfJoinLines(rest);
    }
  }

  /** The number of bytes in the UTF-8 encoding of `c`. */
  function Utf8Len(c: char): (n: nat)
    ensures 1 <= n <= 4
    ensures n == 1 <==> (c as int) < 0x80
  {
    if (c as int) < 0x80 then 1
    else if (c as int) < 0x800 then 2
    else if (c as int) < 0x1_0000 then 3
    else 4
  }

  /** The number of bytes in the UTF-8 encoding of `s`. */
  function Utf8Size(s: string): nat {
    if s == [] then 0 else Utf8Size(s[..|s| - 1]) + Utf8Len(s[|s| - 1])
  }

  /** The byte offset of `s[k]`, as `str::char_indices` reports it. */
  function ByteOffset(s: string, k: nat): nat
    requires k <= |s|
  {
    Utf8Size(s[..k])
  }

  /** Byte offsets grow strictly with the character index. */
  lemma {:induction false} ByteOffsetStrict(s: string, j: nat, k: nat)
    requires j < k <= |s|
    ensures ByteOffset(s, j) < ByteOffset(s, k)
    decreases k
  {
    assert s[..k][..k - 1] == s[..k - 1];
    if j < k - 1 {
      ByteOffsetStrict(s, j, k - 1);
    }
  }

  /** Offsets into `s` are the same in any text that starts with `s`. */
  lemma ByteOffsetPrefix(s: string, t: string, k: nat)
    requires k <= |s|
    ensures ByteOffset(s + t, k) == ByteOffset(s, k)
  {
    assert (s + t)[..k] == s[..k];
  }

  /** Before the first non-ASCII character byte offsets are character indices. */
  lemma {:induction false} AsciiByteOffset(s: string, k: nat)
    requires k <= |s|
    requires forall i :: 0 <= i < k ==> (s[i] as int) < 0x80
    ensures ByteOffset(s, k) == k
    decreases k
  {
    if k > 0 {
      assert s[..k][..k - 1] == s[..k - 1];
      AsciiByteOffset(s, k - 1);
    }
  }

  /** The character that starts at byte offset `b` of `s` is `c`. */
  ghost predicate CharAtByte(s: string, b: nat, c: char) {
    exists k :: 0 <= k < |s| && ByteOffset(s, k) == b && s[k] == c
  }

  /** The decimal digits of `n`, as `format!("{}", n)` renders a `usize`. */
  function Decimal(n: nat): (r: string)
    ensures r != []
    ensures forall i :: 0 <= i < |r| ==> '0' <= r[i] <= '9'
  {
    if n < 10 then [(48 + n) as char] else Decimal(n / 10) + [(48 + n % 10) as char]
  }

  lemma {:induction false} DecimalInjective(m: nat, n: nat)
    requires Decimal(m) == Decimal(n)
    ensures m == n
    decreases n
  {
    if m >= 10 && n >= 10 {
      var dm, dn := Decimal(m), Decimal(n);
      assert dm[..|dm| - 1] == Decimal(m / 10);
      assert dn[..|dn| - 1] == Decimal(n / 10);
      DecimalInjective(m / 10, n / 10);
    }
  }
}
