/**
 * The JavaScript string operations the core relies on: `split` with a literal
 * separator, joining back, `trim`, `endsWith` and the decimal rendering of a
 * positive integer inside a template literal.
 */
module Strings {
  import opened Wrappers

  // ---------------------------------------------------------------------------
  // Searching and splitting
  // ---------------------------------------------------------------------------

  /** `sep` occurs in `s` starting at position `k`. */
  predicate OccursAt(s: string, sep: string, k: nat) {
    k + |sep| <= |s| && s[k..k + |sep|] == sep
  }

  /** The first occurrence of `sep` in `s` at or after `from`. */
  function IndexOfFrom(s: string, sep: string, from: nat): (r: Option<nat>)
    ensures r.Some? ==> from <= r.value && OccursAt(s, sep, r.value)
    ensures r.Some? ==> forall k :: from <= k < r.value ==> !OccursAt(s, sep, k)
    ensures r.None? ==> forall k :: from <= k ==> !OccursAt(s, sep, k)
    decreases |s| - from
  {
    if from + |sep| > |s| then None
    else if OccursAt(s, sep, from) then Some(from)
    else IndexOfFrom(s, sep, from + 1)
  }

  /** `s.indexOf(sep)`: the leftmost occurrence of `sep`, if any. */
  function IndexOf(s: string, sep: string): (r: Option<nat>)
    ensures r.Some? ==> OccursAt(s, sep, r.value) && forall k :: 0 <= k < r.value ==> !OccursAt(s, sep, k)
    ensures r.None? ==> forall k :: 0 <= k ==> !OccursAt(s, sep, k)
  {
    IndexOfFrom(s, sep, 0)
  }

  /**
   * `s.split(sep)` for a non-empty literal separator: the text between
   * successive leftmost occurrences. It always has at least one piece, and
   * a text without the separator is its own single piece.
   */
  function Split(s: string, sep: string): (pieces: seq<string>)
    requires sep != ""
    ensures |pieces| >= 1
    ensures |pieces| == 1 <==> IndexOf(s, sep).None?
    ensures |pieces| == 1 ==> pieces == [s]
    decreases |s|
  {
    match IndexOf(s, sep)
    case None => [s]
    case Some(k) => [s[..k]] + Split(s[k + |sep|..], sep)
  }

  /** `pieces.join(sep)`. */
  function Join(pieces: seq<string>, sep: string): string {
    if |pieces| == 0 then ""
    else if |pieces| == 1 then pieces[0]
    else pieces[0] + sep + Join(pieces[1..], sep)
  }

  /** Joining a non-empty tail after a first piece puts one separator between them. */
  lemma JoinCons(head: string, tail: seq<string>, sep: string)
    requires |tail| >= 1
    ensures Join([head] + tail, sep) == head + sep + Join(tail, sep)
  {
    assert ([head] + tail)[1..] == tail;
  }

  /** One step of a split: the text before the first occurrence, then the split of what follows it. */
  lemma SplitStep(s: string, sep: string)
    requires sep != "" && IndexOf(s, sep).Some?
    ensures var k := IndexOf(s, sep).value;
      && k + |sep| <= |s|
      && Split(s, sep) == [s[..k]] + Split(s[k + |sep|..], sep)
      && s == s[..k] + sep + s[k + |sep|..]
  {
    OccurrenceSplits(s, sep, IndexOf(s, sep).value);
  }

  /** A text is what precedes an occurrence of `sep`, then `sep`, then what follows it. */
  lemma OccurrenceSplits(s: string, sep: string, k: nat)
    requires OccursAt(s, sep, k)
    ensures s == s[..k] + sep + s[k + |sep|..]
  {
    assert s == s[..k] + s[k..k + |sep|] + s[k + |sep|..];
  }

  /** Splitting and joining back with the same separator gives the original text. */
  lemma {:induction false} SplitJoin(s: string, sep: string)
    requires sep != ""
    ensures Join(Split(s, sep), sep) == s
    decreases |s|
  {
    if IndexOf(s, sep).Some? {
      var k := IndexOf(s, sep).value;
      var rest := s[k + |sep|..];
      SplitStep(s, sep);
      SplitJoin(rest, sep);
      JoinCons(s[..k], Split(rest, sep), sep);
    }
  }

  /** The text before a first occurrence of `sep` does not contain `sep`. */
  lemma BeforeFirstIsFree(s: string, sep: string, n: nat)
    requires sep != "" && n <= |s|
    requires forall k :: 0 <= k < n ==> !OccursAt(s, sep, k)
    ensures forall k :: !OccursAt(s[..n], sep, k)
  {
    var head := s[..n];
    forall k: nat | k + |sep| <= |head|
      ensures !OccursAt(head, sep, k)
    {
      assert k < n && !OccursAt(s, sep, k);
      assert s[k..k + |sep|] == head[k..k + |sep|];
    }
  }

  /** No piece of a split contains the separator. */
  lemma {:induction false} SplitPiecesFree(s: string, sep: string)
    requires sep != ""
    ensures forall i, k :: 0 <= i < |Split(s, sep)| ==> !OccursAt(Split(s, sep)[i], sep, k)
    decreases |s|
  {
    if IndexOf(s, sep).None? {
      assert Split(s, sep) == [s];
    } else {
      var n := IndexOf(s, sep).value;
      var rest := s[n + |sep|..];
      SplitStep(s, sep);
      SplitPiecesFree(rest, sep);
      BeforeFirstIsFree(s, sep, n);
      var pieces, tail := Split(s, sep), Split(rest, sep);
      assert pieces == [s[..n]] + tail;
      forall i, k | 0 <= i < |pieces|
        ensures !OccursAt(pieces[i], sep, k)
      {
        if i > 0 {
          assert pieces[i] == tail[i - 1];
        }
      }
    }
  }

  /** Splitting at a first occurrence that lies right after `a`. */
  lemma SplitAtFirst(a: string, sep: string, rest: string)
    requires sep != ""
    requires forall k :: 0 <= k < |a| ==> !OccursAt(a + sep + rest, sep, k)
    ensures Split(a + sep + rest, sep) == [a] + Split(rest, sep)
  {
    var s := a + sep + rest;
    assert OccursAt(s, sep, |a|) by { assert s[|a|..|a| + |sep|] == sep; }
    assert IndexOf(s, sep) == Some(|a|);
    assert s[..|a|] == a;
    assert s[|a| + |sep|..] == rest;
  }

  /**
   * No proper suffix of `sep` is also a prefix of it, so an occurrence of
   * `sep` cannot start inside another one.
   */
  predicate SelfOverlapFree(sep: string) {
    forall t :: 0 < t < |sep| ==> sep[t..] != sep[..|sep| - t]
  }

  /**
   * For a separator that cannot overlap itself, a piece holding no
   * occurrence of it is split off whole, whatever follows.
   */
  lemma SplitAfterPiece(a: string, sep: string, rest: string)
    requires sep != "" && SelfOverlapFree(sep)
    requires IndexOf(a, sep).None?
    ensures Split(a + sep + rest, sep) == [a] + Split(rest, sep)
  {
    var s := a + sep + rest;
    forall k | 0 <= k < |a|
      ensures !OccursAt(s, sep, k)
    {
      if k + |sep| <= |a| {
        assert s[k..k + |sep|] == a[k..k + |sep|];
        assert !OccursAt(a, sep, k);
      } else if k + |sep| <= |s| {
        var t := |a| - k;
        assert s[k..k + |sep|][t..] == sep[..|sep| - t];
        assert sep[t..] != sep[..|sep| - t];
      }
    }
    SplitAtFirst(a, sep, rest);
  }

  // ---------------------------------------------------------------------------
  // Whitespace and trim
  // ---------------------------------------------------------------------------

  /**
   * The characters `String.prototype.trim` removes: ECMAScript WhiteSpace
   * (tab, vertical tab, form feed, space, no-break space, byte order mark and
   * the Unicode space separators) and LineTerminator (LF, CR, U+2028, U+2029).
   */
  predicate IsJsWhitespace(c: char) {
    || c == '\t' || c == '\n' || c == '\U{000B}' || c == '\U{000C}' || c == '\r' || c == ' '
    || c == '\U{00A0}' || c == '\U{1680}' || ('\U{2000}' <= c <= '\U{200A}')
    || c == '\U{2028}' || c == '\U{2029}' || c == '\U{202F}' || c == '\U{205F}'
    || c == '\U{3000}' || c == '\U{FEFF}'
  }

  /** Every character of `s` is whitespace (vacuously so for ""). */
  predicate IsBlank(s: string) {
    forall i :: 0 <= i < |s| ==> IsJsWhitespace(s[i])
  }

  /** How many whitespace characters `s` starts with. */
  function LeadingWhitespace(s: string): (n: nat)
    ensures n <= |s|
    ensures forall i :: 0 <= i < n ==> IsJsWhitespace(s[i])
    ensures n < |s| ==> !IsJsWhitespace(s[n])
    decreases |s|
  {
    if s != [] && IsJsWhitespace(s[0]) then LeadingWhitespace(s[1..]) + 1 else 0
  }

  /** How many whitespace characters `s` ends with. */
  function TrailingWhitespace(s: string): (n: nat)
    ensures n <= |s|
    ensures forall i :: |s| - n <= i < |s| ==> IsJsWhitespace(s[i])
    ensures n < |s| ==> !IsJsWhitespace(s[|s| - n - 1])
    decreases |s|
  {
    if s != [] && IsJsWhitespace(s[|s| - 1]) then TrailingWhitespace(s[..|s| - 1]) + 1 else 0
  }

  /** `s.trimStart()`. */
  function TrimStart(s: string): string {
    s[LeadingWhitespace(s)..]
  }

  /** `s.trimEnd()`. */
  function TrimEnd(s: string): string {
    s[..|s| - TrailingWhitespace(s)]
  }

  /** `s.trim()`. */
  function Trim(s: string): (t: string)
    ensures |t| <= |s|
    ensures t != "" ==> !IsJsWhitespace(t[0]) && !IsJsWhitespace(t[|t| - 1])
  {
    TrimEnd(TrimStart(s))
  }

  /** `s.trim()` is the empty (falsy) string exactly when `s` is blank. */
  lemma TrimEmptyIffBlank(s: string)
    ensures Trim(s) == "" <==> IsBlank(s)
  {
    var lead := LeadingWhitespace(s);
    var t := s[lead..];
    var trail := TrailingWhitespace(t);
    if Trim(s) == "" {
      assert trail == |t|;
      assert lead == |s|;
    }
  }

  /** The test `line.trim()` applies: some character is not whitespace. */
  predicate HasContent(line: string) {
    Trim(line) != ""
  }

  /** Every slice of a blank text is blank. */
  lemma SliceBlank(s: string, i: nat, j: nat)
    requires IsBlank(s) && i <= j <= |s|
    ensures IsBlank(s[i..j])
  {
    assert forall m :: 0 <= m < j - i ==> s[i..j][m] == s[i + m];
  }

  /** Every piece of a split of a blank text is blank. */
  lemma {:induction false} SplitBlank(s: string, sep: string)
    requires sep != ""
    requires IsBlank(s)
    ensures forall i :: 0 <= i < |Split(s, sep)| ==> IsBlank(Split(s, sep)[i])
    decreases |s|
  {
    if IndexOf(s, sep).None? {
      assert Split(s, sep) == [s];
    } else {
      var n := IndexOf(s, sep).value;
      SplitStep(s, sep);
      var rest := s[n + |sep|..];
      SliceBlank(s, 0, n);
      SliceBlank(s, n + |sep|, |s|);
      SplitBlank(rest, sep);
      var pieces, tail := Split(s, sep), Split(rest, sep);
      assert pieces == [s[..n]] + tail;
      assert s[..n] == s[0..n];
      forall i | 0 <= i < |pieces|
        ensures IsBlank(pieces[i])
      {
        if i > 0 {
          assert pieces[i] == tail[i - 1];
        }
      }
    }
  }

  // ---------------------------------------------------------------------------
  // endsWith
  // ---------------------------------------------------------------------------

  /** `s.endsWith(suffix)`. */
  predicate EndsWith(s: string, suffix: string) {
    |suffix| <= |s| && s[|s| - |suffix|..] == suffix
  }

  // ---------------------------------------------------------------------------
  // Decimal rendering of a natural number (`${n}` in a template literal)
  // ---------------------------------------------------------------------------

  function DigitChar(d: nat): char
    requires d < 10
  {
    (48 + d) as char
  }

  /** The decimal digits of `n`, most significant first, without leading zeros. */
  function DecimalString(n: nat): (s: string)
    ensures |s| >= 1
    ensures forall i :: 0 <= i < |s| ==> '0' <= s[i] <= '9'
    ensures s[0] == '0' ==> n == 0
    decreases n
  {
    if n < 10 then [DigitChar(n)] else DecimalString(n / 10) + [DigitChar(n % 10)]
  }

  /** The number a string of decimal digits denotes (the reading direction of `DecimalString`). */
  function DecimalValue(s: string): int
    decreases |s|
  {
    if s == [] then 0 else 10 * DecimalValue(s[..|s| - 1]) + (s[|s| - 1] as int - 48)
  }

  /** Reading back a rendered number gives the number. */
  lemma {:induction false} DecimalRoundTrip(n: nat)
    ensures DecimalValue(DecimalString(n)) == n
    decreases n
  {
    if n >= 10 {
      DecimalRoundTrip(n / 10);
      var s := DecimalString(n);
      assert s[..|s| - 1] == DecimalString(n / 10);
    }
  }

  /** Distinct numbers render as distinct strings. */
  lemma DecimalInjective(a: nat, b: nat)
    requires DecimalString(a) == DecimalString(b)
    ensures a == b
  {
    DecimalRoundTrip(a);
    DecimalRoundTrip(b);
  }
}
