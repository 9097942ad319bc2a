/**
 * The string operations the route handlers apply to submitted text: Python's
 * `str.strip()`, `" ".join(s.split())`, `str.lower()`, the truthiness test
 * `x if x else None`, and `int(s)` on a decimal string.
 *
 * Characters are Unicode scalar values.  Whitespace is what `str.isspace()`
 * accepts; case mapping is restricted to ASCII letters (see README).
 */
module Text {
  import opened Wrappers

  /** `c.isspace()` in Python 3. */
  predicate IsSpace(c: char) {
    || c == ' '
    || ('\t' <= c <= '\r')
    || ('\U{1C}' <= c <= '\U{1F}')
    || c == '\U{85}' || c == '\U{A0}' || c == '\U{1680}'
    || ('\U{2000}' <= c <= '\U{200A}')
    || c == '\U{2028}' || c == '\U{2029}' || c == '\U{202F}'
    || c == '\U{205F}' || c == '\U{3000}'
  }

  predicate AllSpace(s: string) {
    forall i :: 0 <= i < |s| ==> IsSpace(s[i])
  }

  /** Neither the first nor the last character is whitespace. */
  predicate NoEdgeSpace(s: string) {
    s != [] ==> !IsSpace(s[0]) && !IsSpace(s[|s| - 1])
  }

  // ---------------------------------------------------------------------------
  // strip

  /** `s.lstrip()`: the suffix left after dropping leading whitespace. */
  function StripLeft(s: string): (r: string)
    ensures |r| <= |s| && r == s[|s| - |r|..]
    ensures forall i :: 0 <= i < |s| - |r| ==> IsSpace(s[i])
    ensures r != [] ==> !IsSpace(r[0])
    decreases |s|
  {
    if s != [] && IsSpace(s[0]) then StripLeft(s[1..]) else s
  }

  /** `s.rstrip()`: the prefix left after dropping trailing whitespace. */
  function StripRight(s: string): (r: string)
    ensures |r| <= |s| && r == s[..|r|]
    ensures forall i :: |r| <= i < |s| ==> IsSpace(s[i])
    ensures r != [] ==> !IsSpace(r[|r| - 1])
    decreases |s|
  {
    if s != [] && IsSpace(s[|s| - 1]) then StripRight(s[..|s| - 1]) else s
  }

  /**
   * `s.strip()`: the slice of `s` between leading and trailing whitespace; it is
   * empty exactly when `s` is blank.
   */
  function Strip(s: string): (r: string)
    ensures NoEdgeSpace(r)
    ensures r == [] <==> AllSpace(s)
  {
    StripRight(StripLeft(s))
  }

  lemma {:induction false} StripLeftPadded(p: string, x: string)
    requires AllSpace(p)
    ensures StripLeft(p + x) == StripLeft(x)
    decreases |p|
  {
    if p != [] {
      assert (p + x)[1..] == p[1..] + x;
      StripLeftPadded(p[1..], x);
    } else {
      assert p + x == x;
    }
  }

  lemma {:induction false} StripRightPadded(x: string, q: string)
    requires AllSpace(q)
    ensures StripRight(x + q) == StripRight(x)
    decreases |q|
  {
    if q != [] {
      assert (x + q)[..|x + q| - 1] == x + q[..|q| - 1];
      StripRightPadded(x, q[..|q| - 1]);
    } else {
      assert x + q == x;
    }
  }

  lemma StripLeftNoLead(x: string)
    requires x != [] ==> !IsSpace(x[0])
    ensures StripLeft(x) == x
  {
  }

  lemma StripRightNoTrail(x: string)
    requires x != [] ==> !IsSpace(x[|x| - 1])
    ensures StripRight(x) == x
  {
  }

  lemma {:induction false} StripLeftAppend(x: string, q: string)
    ensures StripLeft(x) != [] ==> StripLeft(x + q) == StripLeft(x) + q
    ensures StripLeft(x) == [] ==> StripLeft(x + q) == StripLeft(q)
    decreases |x|
  {
    if x == [] {
      assert x + q == q;
    } else if IsSpace(x[0]) {
      assert (x + q)[1..] == x[1..] + q;
      StripLeftAppend(x[1..], q);
    }
  }

  /** Surrounding whitespace is irrelevant to `strip()`. */
  lemma StripPadded(p: string, x: string, q: string)
    requires AllSpace(p) && AllSpace(q)
    ensures Strip(p + x + q) == Strip(x)
  {
    assert p + x + q == p + (x + q);
    StripLeftPadded(p, x + q);
    StripLeftAppend(x, q);
    var l := StripLeft(x);
    if l != [] {
      StripRightPadded(l, q);
    } else {
      assert StripLeft(q) == [];
    }
  }

  /** `strip()` is idempotent. */
  lemma StripIdempotent(s: string)
    ensures Strip(Strip(s)) == Strip(s)
  {
    var r := Strip(s);
    StripLeftNoLead(r);
    StripRightNoTrail(r);
  }

  // ---------------------------------------------------------------------------
  // lower

  /** `c.lower()` for ASCII letters; every other character is left as it is. */
  function LowerChar(c: char): char {
    if 'A' <= c <= 'Z' then (c as int + 32) as char else c
  }

  function Lower(s: string): (r: string) {
    seq(|s|, i requires 0 <= i < |s| => LowerChar(s[i]))
  }

  /** Two strings are the same up to letter case. */
  predicate SameIgnoringCase(a: string, b: string) {
    Lower(a) == Lower(b)
  }

  lemma LowerIdempotent(s: string)
    ensures Lower(Lower(s)) == Lower(s)
  {
  }

  lemma LowerKeepsSpace(c: char)
    ensures IsSpace(LowerChar(c)) == IsSpace(c)
  {
  }

  lemma {:induction false} StripLeftLower(s: string)
    ensures StripLeft(Lower(s)) == Lower(StripLeft(s))
    decreases |s|
  {
    if s != [] {
      LowerKeepsSpace(s[0]);
      assert Lower(s)[1..] == Lower(s[1..]);
      StripLeftLower(s[1..]);
    }
  }

  lemma {:induction false} StripRightLower(s: string)
    ensures StripRight(Lower(s)) == Lower(StripRight(s))
    decreases |s|
  {
    if s != [] {
      LowerKeepsSpace(s[|s| - 1]);
      assert Lower(s)[..|s| - 1] == Lower(s[..|s| - 1]);
      StripRightLower(s[..|s| - 1]);
    }
  }

  /** Lower-casing and stripping commute. */
  lemma StripLower(s: string)
    ensures Strip(Lower(s)) == Lower(Strip(s))
  {
    StripLeftLower(s);
    StripRightLower(StripLeft(s));
  }

  // ---------------------------------------------------------------------------
  // truthiness

  /** Python's `if x:` on an optional string: present and non-empty. */
  predicate Truthy(x: Option<string>) {
    x.Some? && x.value != []
  }

  /**
   * `x.strip() if x else None`.  Only a missing or empty value becomes None: a
   * whitespace-only value is truthy and becomes the empty string.
   */
  function StripOrNone(x: Option<string>): (r: Option<string>)
    ensures r.None? <==> x == None || x == Some([])
    ensures r.Some? ==> NoEdgeSpace(r.value) && r.value == Strip(x.value)
    ensures r == Some([]) <==> x.Some? && x.value != [] && AllSpace(x.value)
  {
    if Truthy(x) then Some(Strip(x.value)) else None
  }

  // ---------------------------------------------------------------------------
  // " ".join(s.split())

  /** A word of `str.split()`: non-empty and free of whitespace. */
  predicate IsWord(w: string) {
    w != [] && forall i :: 0 <= i < |w| ==> !IsSpace(w[i])
  }

  /** Length of the leading run of non-whitespace characters. */
  function WordLen(s: string): (n: nat)
    ensures n <= |s|
    ensures forall i :: 0 <= i < n ==> !IsSpace(s[i])
    ensures n < |s| ==> IsSpace(s[n])
  {
    if s == [] || IsSpace(s[0]) then 0 else 1 + WordLen(s[1..])
  }

  /** `s.split()`: the maximal runs of non-whitespace characters, in order. */
  function Words(s: string): (ws: seq<string>)
    ensures forall k :: 0 <= k < |ws| ==> IsWord(ws[k])
    decreases |s|
  {
    if s == [] then []
    else if IsSpace(s[0]) then Words(s[1..])
    else
      var n := WordLen(s);
      [s[..n]] + Words(s[n..])
  }

  /** `" ".join(ws)`. */
  function Join(ws: seq<string>): string {
    if ws == [] then []
    else if |ws| == 1 then ws[0]
    else ws[0] + " " + Join(ws[1..])
  }

  /** `" ".join(s.split())`: collapses every whitespace run into one space and trims the ends. */
  function NormalizeSpaces(s: string): (r: string)
    ensures Normalized(r)
  {
    JoinNormalized(Words(s));
    Join(Words(s))
  }

  /**
   * No leading or trailing whitespace, and every whitespace character is a single
   * space followed by a non-whitespace character.
   */
  predicate Normalized(t: string) {
    && NoEdgeSpace(t)
    && (forall i :: 0 <= i < |t| && IsSpace(t[i]) ==> t[i] == ' ')
    && (forall i, j :: 0 <= i < |t| && 0 <= j < |t| && j == i + 1 && IsSpace(t[i]) ==> !IsSpace(t[j]))
  }

  lemma {:induction false} JoinNormalized(ws: seq<string>)
    requires forall k :: 0 <= k < |ws| ==> IsWord(ws[k])
    ensures Normalized(Join(ws))
    ensures ws != [] ==> Join(ws) != [] && Join(ws)[0] == ws[0][0]
  {
    if |ws| > 1 {
      JoinNormalized(ws[1..]);
      var w, t := ws[0], Join(ws[1..]);
      var j := w + " " + t;
      assert j == Join(ws);
      forall i | 0 <= i < |j| && IsSpace(j[i])
        ensures j[i] == ' '
      {
        if i > |w| {
          assert j[i] == t[i - |w| - 1];
        }
      }
      forall i, k | 0 <= i < |j| && 0 <= k < |j| && k == i + 1 && IsSpace(j[i])
        ensures !IsSpace(j[k])
      {
        if i > |w| {
          assert j[i] == t[i - |w| - 1];
          assert j[k] == t[k - |w| - 1];
        }
      }
    }
  }

  lemma {:induction false} WordsSkipsSpace(c: char, t: string)
    requires IsSpace(c)
    ensures Words([c] + t) == Words(t)
  {
    assert ([c] + t)[1..] == t;
  }

  lemma {:induction false} WordsOfWordThenRest(w: string, rest: string)
    requires IsWord(w)
    requires rest == [] || IsSpace(rest[0])
    ensures Words(w + rest) == [w] + Words(rest)
    decreases |w|
  {
    var s := w + rest;
    var n := WordLen(s);
    WordLenOfWord(w, rest);
    assert s[..n] == w && s[n..] == rest;
  }

  lemma {:induction false} WordLenOfWord(w: string, rest: string)
    requires forall i :: 0 <= i < |w| ==> !IsSpace(w[i])
    requires rest == [] || IsSpace(rest[0])
    ensures WordLen(w + rest) == |w|
    decreases |w|
  {
    if w != [] {
      assert (w + rest)[1..] == w[1..] + rest;
      WordLenOfWord(w[1..], rest);
    } else {
      assert w + rest == rest;
    }
  }

  /** Splitting a joined list of words gives the words back. */
  lemma {:induction false} WordsOfJoin(ws: seq<string>)
    requires forall k :: 0 <= k < |ws| ==> IsWord(ws[k])
    ensures Words(Join(ws)) == ws
  {
    if ws == [] {
    } else if |ws| == 1 {
      WordsOfWordThenRest(ws[0], []);
      assert ws[0] + [] == ws[0];
    } else {
      var t := Join(ws[1..]);
      WordsOfJoin(ws[1..]);
      assert ws[0] + " " + t == ws[0] + ([' '] + t);
      WordsOfWordThenRest(ws[0], [' '] + t);
      WordsSkipsSpace(' ', t);
    }
  }

  /** Normalising keeps the words of the input, in order. */
  lemma NormalizeKeepsWords(s: string)
    ensures Words(NormalizeSpaces(s)) == Words(s)
  {
    WordsOfJoin(Words(s));
  }

  /** Normalising twice is normalising once. */
  lemma NormalizeIdempotent(s: string)
    ensures NormalizeSpaces(NormalizeSpaces(s)) == NormalizeSpaces(s)
  {
    NormalizeKeepsWords(s);
  }

  // ---------------------------------------------------------------------------
  // int(s) and str(n) for base-10 integers

  predicate IsDigit(c: char) {
    '0' <= c <= '9'
  }

  /**
   * The digit part `int()` accepts: digits, where single underscores may separate
   * two digits.
   */
  predicate DigitGroups(d: string) {
    && d != []
    && IsDigit(d[0]) && IsDigit(d[|d| - 1])
    && (forall i :: 0 <= i < |d| ==> IsDigit(d[i]) || d[i] == '_')
    && (forall i, j :: 0 <= i < |d| && 0 <= j < |d| && j == i + 1 && d[i] == '_' ==> IsDigit(d[j]))
  }

  /** The value of a digit string, underscores ignored. */
  function DigitsValue(d: string): nat {
    if d == [] then 0
    else if IsDigit(d[|d| - 1]) then 10 * DigitsValue(d[..|d| - 1]) + (d[|d| - 1] as int - '0' as int)
    else DigitsValue(d[..|d| - 1])
  }

  /**
   * `int(s)` on a string: surrounding whitespace is ignored, one optional sign,
   * then digit groups.  None stands for the ValueError Python raises.
   */
  function ParseInt(s: string): (r: Option<int>)
    ensures r.Some? ==> var t := Strip(s); t != [] && (IsDigit(t[0]) || t[0] == '+' || t[0] == '-')
    ensures AllSpace(s) ==> r.None?
    ensures var t := Strip(s);
      r.Some? <==> DigitGroups(t) || (t != [] && (t[0] == '+' || t[0] == '-') && DigitGroups(t[1..]))
    ensures var t := Strip(s); r.Some? && DigitGroups(t) ==> r.value == DigitsValue(t)
    ensures var t := Strip(s); r.Some? && t[0] == '+' ==> r.value == DigitsValue(t[1..])
    ensures var t := Strip(s); r.Some? && t[0] == '-' ==> r.value == 0 - DigitsValue(t[1..])
  {
    var t := Strip(s);
    if t != [] && (t[0] == '+' || t[0] == '-') then
      if DigitGroups(t[1..]) then
        Some(if t[0] == '-' then 0 - DigitsValue(t[1..]) else DigitsValue(t[1..]))
      else None
    else if DigitGroups(t) then Some(DigitsValue(t))
    else None
  }

  function DigitChar(d: nat): char
    requires d < 10
  {
    ('0' as int + d) as char
  }

  /** `str(n)` for a natural number. */
  function NatToString(n: nat): (r: string)
    ensures r != [] && forall i :: 0 <= i < |r| ==> IsDigit(r[i])
  {
    if n < 10 then [DigitChar(n)] else NatToString(n / 10) + [DigitChar(n % 10)]
  }

  /** `str(n)` for an integer. */
  function IntToString(n: int): string {
    if n < 0 then "-" + NatToString(-n) else NatToString(n)
  }

  lemma {:induction false} NatToStringValue(n: nat)
    ensures DigitsValue(NatToString(n)) == n
  {
    if n >= 10 {
      var r := NatToString(n);
      assert r[..|r| - 1] == NatToString(n / 10);
      NatToStringValue(n / 10);
    }
  }

  lemma DigitsAreGroups(d: string)
    requires d != [] && forall i :: 0 <= i < |d| ==> IsDigit(d[i])
    ensures DigitGroups(d)
  {
  }

  lemma DigitNotSpace(c: char)
    requires IsDigit(c) || c == '-'
    ensures !IsSpace(c)
  {
  }

  /** A string without whitespace at either end is its own `strip()`. */
  lemma StripUnpadded(s: string)
    requires NoEdgeSpace(s)
    ensures Strip(s) == s
  {
    StripLeftNoLead(s);
    StripRightNoTrail(s);
  }

  lemma ParseNatString(n: int)
    requires n >= 0
    ensures ParseInt(IntToString(n)) == Some(n)
  {
    var d := NatToString(n);
    assert IntToString(n) == d;
    NatToStringValue(n);
    DigitsAreGroups(d);
    DigitNotSpace(d[0]);
    DigitNotSpace(d[|d| - 1]);
    StripUnpadded(d);
  }

  lemma ParseNegativeString(n: int)
    requires n < 0
    ensures ParseInt(IntToString(n)) == Some(n)
  {
    var d := NatToString(-n);
    var s := "-" + d;
    assert IntToString(n) == s;
    NatToStringValue(-n);
    DigitsAreGroups(d);
    DigitNotSpace(s[0]);
    assert s[|s| - 1] == d[|d| - 1];
    DigitNotSpace(s[|s| - 1]);
    StripUnpadded(s);
    assert s[1..] == d;
  }

  /** Parsing what `str` prints gives the number back. */
  lemma ParseIntRoundTrip(n: int)
    ensures ParseInt(IntToString(n)) == Some(n)
  {
    if n < 0 {
      ParseNegativeString(n);
    } else {
      ParseNatString(n);
    }
  }
}
