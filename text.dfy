/**
 * String helpers with the semantics of the Python built-ins the manager leans on:
 * str.strip, str.startswith/endswith, the `in` operator on strings, str.split with a
 * one-character separator, str.isdigit and int() on ASCII digits, str.lower on ASCII
 * letters, and the code-point order that sorted() uses on strings.
 */
module Text {
  import opened Wrappers

  // ---------------------------------------------------------------------------
  // Whitespace and str.strip()
  // ---------------------------------------------------------------------------

  /** The characters for which Python's str.isspace() holds; str.strip() removes exactly these. */
  predicate IsSpace(c: char) {
    ('\t' <= c <= '\r') || ('\U{1c}' <= c <= '\U{1f}') || c == ' '
    || c == '\U{85}' || c == '\U{a0}' || c == '\U{1680}'
    || ('\U{2000}' <= c <= '\U{200a}') || c == '\U{2028}' || c == '\U{2029}'
    || c == '\U{202f}' || c == '\U{205f}' || c == '\U{3000}'
  }

  predicate AllSpace(s: string) {
    forall i :: 0 <= i < |s| ==> IsSpace(s[i])
  }

  /** Number of whitespace characters at the front of `s`. */
  function LeadingSpace(s: string): (k: nat)
    ensures k <= |s|
  {
    if s == [] || !IsSpace(s[0]) then 0 else 1 + LeadingSpace(s[1..])
  }

  /** The leading run is all whitespace and stops at a non-space character. */
  lemma {:induction false} LeadingSpaceShape(s: string)
    ensures forall i :: 0 <= i < LeadingSpace(s) ==> IsSpace(s[i])
    ensures LeadingSpace(s) < |s| ==> !IsSpace(s[LeadingSpace(s)])
  {
    if s != [] && IsSpace(s[0]) {
      LeadingSpaceShape(s[1..]);
    }
  }

  /** Length of `s` without its trailing whitespace. */
  function ContentEnd(s: string): (k: nat)
    ensures k <= |s|
  {
    if s == [] || !IsSpace(s[|s| - 1]) then |s| else ContentEnd(s[..|s| - 1])
  }

  /** Everything after the content is whitespace, and the content ends on a non-space character. */
  lemma {:induction false} ContentEndShape(s: string)
    ensures forall i :: ContentEnd(s) <= i < |s| ==> IsSpace(s[i])
    ensures ContentEnd(s) > 0 ==> !IsSpace(s[ContentEnd(s) - 1])
  {
    if s != [] && IsSpace(s[|s| - 1]) {
      ContentEndShape(s[..|s| - 1]);
    }
  }

  /** Python's `s.strip()`. */
  function Strip(s: string): string {
    var t := s[LeadingSpace(s)..];
    t[..ContentEnd(t)]
  }

  /**
   * What `s.strip()` is: the slice of `s` that starts at its first non-space character
   * and ends after its last one; every character outside the slice is whitespace.
   */
  lemma StripShape(s: string)
    ensures LeadingSpace(s) + |Strip(s)| <= |s|
    ensures Strip(s) == s[LeadingSpace(s)..LeadingSpace(s) + |Strip(s)|]
    ensures forall i :: 0 <= i < |s| && !(LeadingSpace(s) <= i < LeadingSpace(s) + |Strip(s)|) ==> IsSpace(s[i])
    ensures Strip(s) == [] || (!IsSpace(Strip(s)[0]) && !IsSpace(Strip(s)[|Strip(s)| - 1]))
  {
    LeadingSpaceShape(s);
    var t := s[LeadingSpace(s)..];
    ContentEndShape(t);
  }

  /** A string that neither starts nor ends with whitespace is its own strip. */
  lemma StripFixed(s: string)
    requires s == [] || (!IsSpace(s[0]) && !IsSpace(s[|s| - 1]))
    ensures Strip(s) == s
  {
    assert s[0..] == s;
  }

  lemma StripIdempotent(s: string)
    ensures Strip(Strip(s)) == Strip(s)
  {
    StripShape(s);
    StripFixed(Strip(s));
  }

  /** `s.strip() == ""` holds exactly for the all-whitespace strings (the empty one included). */
  lemma StripEmptyIff(s: string)
    ensures Strip(s) == [] <==> AllSpace(s)
  {
    StripShape(s);
    if Strip(s) != [] {
      assert !IsSpace(s[LeadingSpace(s)]);
    }
  }

  // ---------------------------------------------------------------------------
  // Prefixes, suffixes and substrings
  // ---------------------------------------------------------------------------

  /** Python's `s.startswith(p)`. */
  predicate StartsWith(s: string, p: string) {
    |p| <= |s| && s[..|p|] == p
  }

  /** Python's `s.endswith(p)`. */
  predicate EndsWith(s: string, p: string) {
    |p| <= |s| && s[|s| - |p|..] == p
  }

  /** Python's `p in s` on strings: `p` occurs somewhere in `s`. */
  predicate Contains(s: string, p: string)
    decreases |s|
  {
    StartsWith(s, p) || (s != [] && Contains(s[1..], p))
  }

  /** An occurrence at position `i` is an occurrence. */
  lemma {:induction false} ContainsAt(s: string, p: string, i: nat)
    requires i <= |s| && StartsWith(s[i..], p)
    ensures Contains(s, p)
    decreases i
  {
    if i > 0 {
      assert s[1..][i - 1..] == s[i..];
      ContainsAt(s[1..], p, i - 1);
    }
  }

  /** Every occurrence has a position. */
  lemma {:induction false} ContainsWitness(s: string, p: string) returns (i: nat)
    requires Contains(s, p)
    ensures i <= |s| && StartsWith(s[i..], p)
    decreases |s|
  {
    if StartsWith(s, p) {
      i := 0;
    } else {
      var j := ContainsWitness(s[1..], p);
      assert s[1..][j..] == s[j + 1..];
      i := j + 1;
    }
  }

  /** `p` in `s` holds exactly when some position of `s` starts with `p`. */
  lemma ContainsIff(s: string, p: string)
    ensures Contains(s, p) <==> exists i :: 0 <= i <= |s| && StartsWith(s[i..], p)
  {
    if Contains(s, p) {
      var i := ContainsWitness(s, p);
    }
    forall i | 0 <= i <= |s| && StartsWith(s[i..], p) ensures Contains(s, p) {
      ContainsAt(s, p, i);
    }
  }

  /** A window of a slice is the same window of the whole string. */
  lemma SliceWindow(s: string, a: nat, b: nat, i: nat, m: nat)
    requires a <= i && i + m <= b <= |s|
    ensures s[a..b][i - a..][..m] == s[i..][..m]
  {
    assert forall k :: 0 <= k < m ==> s[a..b][i - a..][..m][k] == s[i + k] == s[i..][..m][k];
  }

  /** An occurrence inside the stripped slice is an occurrence in the whole string. */
  lemma ContainsOfStrip(s: string, p: string)
    requires Contains(Strip(s), p)
    ensures Contains(s, p)
  {
    var a := LeadingSpace(s);
    var r := Strip(s);
    StripShape(s);
    var i := ContainsWitness(r, p);
    SliceWindow(s, a, a + |r|, a + i, |p|);
    ContainsAt(s, p, a + i);
  }

  /** A non-space character of `s` lies inside the stripped slice. */
  lemma StripCovers(s: string, i: nat)
    requires i < |s| && !IsSpace(s[i])
    ensures LeadingSpace(s) <= i < LeadingSpace(s) + |Strip(s)|
  {
    StripShape(s);
  }

  /** The characters of an occurrence of a whitespace-free token lie inside the stripped slice. */
  lemma TokenInsideStrip(s: string, p: string, i: nat)
    requires p != [] && forall k :: 0 <= k < |p| ==> !IsSpace(p[k])
    requires i <= |s| && StartsWith(s[i..], p)
    ensures LeadingSpace(s) <= i && i + |p| <= LeadingSpace(s) + |Strip(s)|
  {
    var last := i + |p| - 1;
    assert s[i] == p[0];
    assert s[last] == s[i..][..|p|][|p| - 1] == p[|p| - 1];
    StripCovers(s, i);
    StripCovers(s, last);
  }

  /** An occurrence of a whitespace-free token lies inside the stripped slice. */
  lemma ContainsInStrip(s: string, p: string)
    requires p != [] && forall k :: 0 <= k < |p| ==> !IsSpace(p[k])
    requires Contains(s, p)
    ensures Contains(Strip(s), p)
  {
    var i := ContainsWitness(s, p);
    TokenInsideStrip(s, p, i);
    var a := LeadingSpace(s);
    var r := Strip(s);
    assert r == s[a..a + |r|] by { StripShape(s); }
    SliceWindow(s, a, a + |r|, i, |p|);
    ContainsAt(r, p, i - a);
  }

  /**
   * Stripping does not change whether a token with no whitespace in it occurs:
   * such an occurrence can only sit inside the stripped slice.
   */
  lemma ContainsStrip(s: string, p: string)
    requires p != [] && forall k :: 0 <= k < |p| ==> !IsSpace(p[k])
    ensures Contains(Strip(s), p) <==> Contains(s, p)
  {
    if Contains(Strip(s), p) {
      ContainsOfStrip(s, p);
    }
    if Contains(s, p) {
      ContainsInStrip(s, p);
    }
  }

  // ---------------------------------------------------------------------------
  // str.split with a one-character separator, and its inverse
  // ---------------------------------------------------------------------------

  /**
   * Python's `s.split(sep)`: the pieces between separators, always at least one
   * (`"".split(",") == [""]`), none of them holding the separator, one more piece
   * than there are separators.
   */
  function Split(s: string, sep: char): (parts: seq<string>)
    ensures |parts| >= 1
    ensures forall k :: 0 <= k < |parts| ==> sep !in parts[k]
  {
    if s == [] then [[]]
    else
      var rest := Split(s[1..], sep);
      if s[0] == sep then [[]] + rest else [[s[0]] + rest[0]] + rest[1..]
  }

  /** Python's `sep.join(parts)`. */
  function Join(parts: seq<string>, sep: char): string
    requires |parts| >= 1
  {
    if |parts| == 1 then parts[0] else parts[0] + [sep] + Join(parts[1..], sep)
  }

  /** Splitting then joining gives back the original string. */
  lemma {:induction false} JoinSplit(s: string, sep: char)
    ensures Join(Split(s, sep), sep) == s
  {
    if s != [] {
      var rest := Split(s[1..], sep);
      JoinSplit(s[1..], sep);
      if s[0] == sep {
        assert Split(s, sep)[1..] == rest;
      } else {
        var parts := Split(s, sep);
        if |rest| == 1 {
          assert parts == [[s[0]] + rest[0]];
        } else {
          assert parts[1..] == rest[1..];
          assert Join(rest, sep) == rest[0] + [sep] + Join(rest[1..], sep);
        }
      }
    }
  }

  /** A separator-free prefix is glued onto the first piece. */
  lemma {:induction false} SplitPrefix(a: string, t: string, sep: char)
    requires sep !in a
    ensures Split(a + t, sep) == [a + Split(t, sep)[0]] + Split(t, sep)[1..]
  {
    if a != [] {
      assert (a + t)[1..] == a[1..] + t;
      SplitPrefix(a[1..], t, sep);
      assert [a[0]] + (a[1..] + Split(t, sep)[0]) == a + Split(t, sep)[0];
    } else {
      var parts := Split(t, sep);
      assert a + t == t;
      assert a + parts[0] == parts[0];
      assert parts == [parts[0]] + parts[1..];
    }
  }

  /** Joining separator-free pieces then splitting gives back the pieces. */
  lemma {:induction false} SplitJoin(parts: seq<string>, sep: char)
    requires |parts| >= 1
    requires forall k :: 0 <= k < |parts| ==> sep !in parts[k]
    ensures Split(Join(parts, sep), sep) == parts
  {
    if |parts| == 1 {
      SplitPrefix(parts[0], [], sep);
      assert parts[0] + [] == parts[0];
    } else {
      var tail := Join(parts[1..], sep);
      SplitJoin(parts[1..], sep);
      assert ([sep] + tail)[1..] == tail;
      assert Split([sep] + tail, sep) == [[]] + parts[1..];
      SplitPrefix(parts[0], [sep] + tail, sep);
      assert Join(parts, sep) == parts[0] + ([sep] + tail);
      assert parts[0] + [] == parts[0];
      assert parts == [parts[0]] + parts[1..];
    }
  }

  // ---------------------------------------------------------------------------
  // Decimal digits: str.isdigit() and int() on ASCII digits
  // ---------------------------------------------------------------------------

  predicate IsDigit(c: char) {
    '0' <= c <= '9'
  }

  /** Python's `s.isdigit()` on ASCII: non-empty and made of decimal digits only. */
  predicate IsDigits(s: string) {
    s != [] && forall i :: 0 <= i < |s| ==> IsDigit(s[i])
  }

  function DigitValue(c: char): (d: nat)
    requires IsDigit(c)
    ensures d < 10
  {
    (c as int - '0' as int) as nat
  }

  function DigitChar(d: nat): (c: char)
    requires d < 10
    ensures IsDigit(c) && DigitValue(c) == d
  {
    ('0' as int + d) as char
  }

  /** The number a string of decimal digits denotes (leading zeros allowed). */
  function DecimalValue(s: string): nat
    requires forall i :: 0 <= i < |s| ==> IsDigit(s[i])
  {
    if s == [] then 0 else 10 * DecimalValue(s[..|s| - 1]) + DigitValue(s[|s| - 1])
  }

  /** The shortest decimal rendering of `n`, as Python's str(n) writes it. */
  function Decimal(n: nat): (s: string)
    ensures IsDigits(s)
  {
    if n < 10 then [DigitChar(n)] else Decimal(n / 10) + [DigitChar(n % 10)]
  }

  /** Reading back a rendered number gives the number. */
  lemma {:induction false} DecimalRoundTrip(n: nat)
    ensures DecimalValue(Decimal(n)) == n
  {
    if n >= 10 {
      var s := Decimal(n);
      assert s[..|s| - 1] == Decimal(n / 10);
      DecimalRoundTrip(n / 10);
    }
  }

  /**
   * The body of a Python integer literal as int() accepts it: ASCII digits, where a
   * single underscore may stand between two digits ("1_000").
   */
  predicate IsDigitGroups(s: string) {
    && s != []
    && IsDigit(s[0])
    && IsDigit(s[|s| - 1])
    && (forall i :: 0 <= i < |s| ==> IsDigit(s[i]) || s[i] == '_')
    && NoDoubleUnderscore(s)
  }

  predicate NoDoubleUnderscore(s: string) {
    |s| < 2 || (!(s[0] == '_' && s[1] == '_') && NoDoubleUnderscore(s[1..]))
  }

  lemma {:induction false} DigitsHaveNoUnderscore(s: string)
    requires forall i :: 0 <= i < |s| ==> IsDigit(s[i])
    ensures NoDoubleUnderscore(s)
  {
    if |s| >= 2 {
      DigitsHaveNoUnderscore(s[1..]);
    }
  }

  function DropUnderscores(s: string): (r: string)
    requires forall i :: 0 <= i < |s| ==> IsDigit(s[i]) || s[i] == '_'
    ensures forall i :: 0 <= i < |r| ==> IsDigit(r[i])
  {
    if s == [] then []
    else (if s[0] == '_' then [] else [s[0]]) + DropUnderscores(s[1..])
  }

  lemma {:induction false} DropUnderscoresOfDigits(s: string)
    requires forall i :: 0 <= i < |s| ==> IsDigit(s[i])
    ensures DropUnderscores(s) == s
  {
    if s != [] {
      DropUnderscoresOfDigits(s[1..]);
    }
  }

  /**
   * Python's `int(s)` for base 10: surrounding whitespace is ignored, one optional
   * sign, then digit groups; anything else is the ValueError case, here None.
   */
  function ParseInt(s: string): (r: Option<int>)
    ensures r.Some? ==> exists i :: 0 <= i < |s| && IsDigit(s[i])
  {
    var t := Strip(s);
    var r := ParseLiteral(t);
    if r.Some? then
      StripShape(s);
      assert IsDigit(s[LeadingSpace(s) + |t| - 1]);
      r
    else r
  }

  /** int() on an already stripped string. */
  function ParseLiteral(t: string): (r: Option<int>)
    ensures r.Some? ==> t != [] && IsDigit(t[|t| - 1])
  {
    var signed := t != [] && (t[0] == '+' || t[0] == '-');
    var body := if signed then t[1..] else t;
    if IsDigitGroups(body) then
      var v: int := DecimalValue(DropUnderscores(body));
      Some(if signed && t[0] == '-' then -v else v)
    else None
  }

  lemma ParseLiteralDigits(d: string)
    requires IsDigits(d)
    ensures ParseLiteral(d) == Some(DecimalValue(d))
  {
    DropUnderscoresOfDigits(d);
    DigitsHaveNoUnderscore(d);
  }

  lemma ParseLiteralNegative(d: string)
    requires IsDigits(d)
    ensures ParseLiteral("-" + d) == Some(-(DecimalValue(d) as int))
  {
    var m := "-" + d;
    assert m[1..] == d;
    DropUnderscoresOfDigits(d);
    DigitsHaveNoUnderscore(d);
  }

  /** int() reads a plain run of digits as its decimal value. */
  lemma ParseIntDigits(d: string)
    requires IsDigits(d)
    ensures ParseInt(d) == Some(DecimalValue(d))
  {
    StripFixed(d);
    ParseLiteralDigits(d);
  }

  /** int() reads a minus sign and a run of digits as the negated decimal value. */
  lemma ParseIntNegativeDigits(d: string)
    requires IsDigits(d)
    ensures Strip("-" + d) == "-" + d
    ensures ParseInt("-" + d) == Some(-(DecimalValue(d) as int))
  {
    var m := "-" + d;
    assert m[|m| - 1] == d[|d| - 1];
    StripFixed(m);
    ParseLiteralNegative(d);
  }

  // ---------------------------------------------------------------------------
  // str.lower() on ASCII letters
  // ---------------------------------------------------------------------------

  function LowerChar(c: char): char {
    if 'A' <= c <= 'Z' then (c as int + 32) as char else c
  }

  /** Python's `s.lower()` restricted to the ASCII letters. */
  function Lower(s: string): (r: string)
    ensures |r| == |s|
    ensures forall i :: 0 <= i < |s| ==> r[i] == LowerChar(s[i])
  {
    if s == [] then [] else [LowerChar(s[0])] + Lower(s[1..])
  }

  // ---------------------------------------------------------------------------
  // The order sorted() uses on strings, and sorting
  // ---------------------------------------------------------------------------

  /** Python's `a <= b` on strings: lexicographic by code point, a prefix first. */
  predicate LexLe(a: string, b: string) {
    a == [] || (b != [] && (a[0] < b[0] || (a[0] == b[0] && LexLe(a[1..], b[1..]))))
  }

  lemma LexLeTotal(a: string, b: string)
    ensures LexLe(a, b) || LexLe(b, a)
  {
  }

  lemma LexLeTransitive(a: string, b: string, c: string)
    requires LexLe(a, b) && LexLe(b, c)
    ensures LexLe(a, c)
  {
  }

  lemma LexLeAntisymmetric(a: string, b: string)
    requires LexLe(a, b) && LexLe(b, a)
    ensures a == b
  {
  }

  predicate Sorted(s: seq<string>) {
    forall i, j :: 0 <= i < j < |s| ==> LexLe(s[i], s[j])
  }

  predicate StrictlySorted(s: seq<string>) {
    forall i, j :: 0 <= i < j < |s| ==> LexLe(s[i], s[j]) && s[i] != s[j]
  }

  /** Every element of `s` is at least `a`. */
  predicate AllAtLeast(a: string, s: seq<string>) {
    forall j :: 0 <= j < |s| ==> LexLe(a, s[j])
  }

  /** The head of a sorted sequence is a lower bound for all of it, and so is anything below the head. */
  lemma HeadIsLowerBound(x: string, s: seq<string>)
    requires Sorted(s) && s != [] && LexLe(x, s[0])
    ensures AllAtLeast(x, s)
  {
    forall j | 0 <= j < |s| ensures LexLe(x, s[j]) {
      if j > 0 { LexLeTransitive(x, s[0], s[j]); }
    }
  }

  /** A lower bound of `u` and of `x` bounds any rearrangement of `u` with `x` added. */
  lemma LowerBoundOfInsert(a: string, x: string, u: seq<string>, t: seq<string>)
    requires AllAtLeast(a, u) && LexLe(a, x)
    requires multiset(t) == multiset(u) + multiset{x}
    ensures AllAtLeast(a, t)
  {
    forall j | 0 <= j < |t| ensures LexLe(a, t[j]) {
      assert t[j] in multiset(t);
      if t[j] != x {
        assert t[j] in multiset(u);
        var k :| 0 <= k < |u| && u[k] == t[j];
      }
    }
  }

  /** `x` placed into sorted `s` before the first element it does not exceed. */
  function InsertSorted(x: string, s: seq<string>): (r: seq<string>)
    requires Sorted(s)
    ensures Sorted(r)
    ensures multiset(r) == multiset(s) + multiset{x}
  {
    if s == [] then [x]
    else if LexLe(x, s[0]) then
      HeadIsLowerBound(x, s);
      [x] + s
    else
      var rest := InsertSorted(x, s[1..]);
      LexLeTotal(x, s[0]);
      assert AllAtLeast(s[0], s[1..]);
      LowerBoundOfInsert(s[0], x, s[1..], rest);
      assert s == [s[0]] + s[1..];
      [s[0]] + rest
  }

  /** Python's `sorted(s)` on strings: ascending, and a rearrangement of `s`. */
  function SortStrings(s: seq<string>): (r: seq<string>)
    ensures Sorted(r)
    ensures multiset(r) == multiset(s)
  {
    if s == [] then []
    else
      assert s == s[..|s| - 1] + [s[|s| - 1]];
      InsertSorted(s[|s| - 1], SortStrings(s[..|s| - 1]))
  }

  function InsertUnique(x: string, s: seq<string>): (r: seq<string>)
    requires StrictlySorted(s)
    ensures StrictlySorted(r)
    ensures forall y :: y in r <==> y == x || y in s
  {
    if s == [] then [x]
    else if x == s[0] then s
    else if LexLe(x, s[0]) then
      assert forall j :: 0 <= j < |s| ==> LexLe(x, s[j]) && x != s[j] by {
        forall j | 0 <= j < |s| ensures LexLe(x, s[j]) && x != s[j] {
          if j > 0 {
            LexLeTransitive(x, s[0], s[j]);
            if x == s[j] { LexLeAntisymmetric(x, s[0]); }
          }
        }
      }
      [x] + s
    else
      var rest := InsertUnique(x, s[1..]);
      assert forall j :: 0 <= j < |rest| ==> LexLe(s[0], rest[j]) && s[0] != rest[j] by {
        forall j | 0 <= j < |rest| ensures LexLe(s[0], rest[j]) && s[0] != rest[j] {
          assert rest[j] in rest;
          if rest[j] == x {
            LexLeTotal(x, s[0]);
          } else {
            var k :| 0 <= k < |s[1..]| && s[1..][k] == rest[j];
          }
        }
      }
      [s[0]] + rest
  }

  /** Python's `sorted(set(s))` on strings: ascending, no repeats, the same elements as `s`. */
  function SortUnique(s: seq<string>): (r: seq<string>)
    ensures StrictlySorted(r)
    ensures forall y :: y in r <==> y in s
  {
    if s == [] then []
    else
      var r := InsertUnique(s[|s| - 1], SortUnique(s[..|s| - 1]));
      assert forall y :: y in s <==> y in s[..|s| - 1] || y == s[|s| - 1] by {
        assert s == s[..|s| - 1] + [s[|s| - 1]];
      }
      r
  }
}
