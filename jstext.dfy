/**
 * The JavaScript string primitives the build script and the search module rely on,
 * stated over Dafny strings: the `\s` class and `String.prototype.trim`, the `\b`
 * word class, `includes`/`startsWith`/`indexOf`, ASCII `toLowerCase`,
 * `Array.prototype.join`, and decimal rendering and parsing of naturals.
 */
module JsText {

  datatype Option<+T> = None | Some(value: T)

  /** The characters of the ECMAScript `\s` class (WhiteSpace and LineTerminator);
      `trim` removes exactly the same set. */
  predicate IsSpace(c: char)
  {
    var n := c as int;
    n == 0x09 || n == 0x0A || n == 0x0B || n == 0x0C || n == 0x0D || n == 0x20 ||
    n == 0xA0 || n == 0x1680 || (0x2000 <= n <= 0x200A) || n == 0x2028 || n == 0x2029 ||
    n == 0x202F || n == 0x205F || n == 0x3000 || n == 0xFEFF
  }

  /** The characters the regex `.` does not match and before which a multiline `$` holds. */
  predicate IsLineTerminator(c: char)
  {
    c == '\n' || c == '\r' || c as int == 0x2028 || c as int == 0x2029
  }

  /** The `\w` class that `\b` is defined by (no `u` flag): `[A-Za-z0-9_]`. */
  predicate IsWordChar(c: char)
  {
    ('a' <= c <= 'z') || ('A' <= c <= 'Z') || ('0' <= c <= '9') || c == '_'
  }

  predicate IsDigit(c: char)
  {
    '0' <= c <= '9'
  }

  predicate AllSpace(s: string)
  {
    forall i :: 0 <= i < |s| ==> IsSpace(s[i])
  }

  /** No two adjacent characters are both white space. */
  predicate NoDoubleSpace(s: string)
  {
    forall i :: 0 <= i < |s| - 1 ==> !(IsSpace(s[i]) && IsSpace(s[i + 1]))
  }

  /** Neither end of the string is white space. */
  predicate Trimmed(s: string)
  {
    s == [] || (!IsSpace(s[0]) && !IsSpace(s[|s| - 1]))
  }

  // ---------------------------------------------------------------------------
  // trim
  // ---------------------------------------------------------------------------

  function TrimStart(s: string): (r: string)
    ensures |r| <= |s| && r == s[|s| - |r|..]
    ensures AllSpace(s[..|s| - |r|])
    ensures r == [] || !IsSpace(r[0])
  {
    if s == [] || !IsSpace(s[0]) then s
    else
      var r := TrimStart(s[1..]);
      AllSpaceCons(s, r);
      r
  }

  function TrimEnd(s: string): (r: string)
    ensures |r| <= |s| && r == s[..|r|]
    ensures AllSpace(s[|r|..])
    ensures r == [] || !IsSpace(r[|r| - 1])
  {
    if s == [] || !IsSpace(s[|s| - 1]) then s
    else
      var r := TrimEnd(s[..|s| - 1]);
      AllSpaceSnoc(s, r);
      r
  }

  /** A space before a space run and a suffix of the tail: a longer space run before the
      same suffix. */
  lemma AllSpaceCons(s: string, r: string)
    requires s != [] && IsSpace(s[0])
    requires var t := s[1..]; |r| <= |t| && r == t[|t| - |r|..] && AllSpace(t[..|t| - |r|])
    ensures r == s[|s| - |r|..] && AllSpace(s[..|s| - |r|])
  {
    var t := s[1..];
    var n := |s| - |r|;
    assert forall k :: 1 <= k < n ==> s[k] == t[..n - 1][k - 1];
    assert s[n..] == t[n - 1..];
  }

  /** The mirror image of `AllSpaceCons` at the end of the string. */
  lemma AllSpaceSnoc(s: string, r: string)
    requires s != [] && IsSpace(s[|s| - 1])
    requires var t := s[..|s| - 1]; |r| <= |t| && r == t[..|r|] && AllSpace(t[|r|..])
    ensures r == s[..|r|] && AllSpace(s[|r|..])
  {
    var t := s[..|s| - 1];
    var n := |r|;
    assert forall k :: n <= k < |s| - 1 ==> s[k] == t[n..][k - n];
    assert s[..n] == t[..n];
  }

  /** `String.prototype.trim`: the longest middle part with no white space at either end. */
  function Trim(s: string): (r: string)
    ensures Trimmed(r)
    ensures exists i, j :: 0 <= i <= j <= |s| && r == s[i..j] && AllSpace(s[..i]) && AllSpace(s[j..])
  {
    var t := TrimStart(s);
    var r := TrimEnd(t);
    SliceOfSuffix(s, t, r, |s| - |t|);
    r
  }

  /** A prefix of a suffix is a slice; white space after the prefix stays after it. */
  lemma SliceOfSuffix(s: string, t: string, r: string, i: nat)
    requires i <= |s| && t == s[i..] && |r| <= |t| && r == t[..|r|] && AllSpace(t[|r|..])
    ensures i + |r| <= |s| && r == s[i..i + |r|] && AllSpace(s[i + |r|..])
  {
    assert s[i + |r|..] == t[|r|..];
  }

  lemma {:induction false} TrimStartOfAllSpace(s: string)
    requires AllSpace(s)
    ensures TrimStart(s) == []
  {
    if s != [] {
      TrimStartOfAllSpace(s[1..]);
    }
  }

  /** A string that is all white space trims to the empty string, and only such a string does. */
  lemma TrimEmptyIff(s: string)
    ensures Trim(s) == [] <==> AllSpace(s)
  {
    if AllSpace(s) {
      TrimStartOfAllSpace(s);
    }
    if Trim(s) == [] {
      var i, j :| 0 <= i <= j <= |s| && Trim(s) == s[i..j] && AllSpace(s[..i]) && AllSpace(s[j..]);
      assert i == j;
      forall k | 0 <= k < |s| ensures IsSpace(s[k]) {
        if k < i { assert s[k] == s[..i][k]; } else { assert s[k] == s[j..][k - j]; }
      }
    }
  }

  /** Trimming a string with no double white space leaves none. */
  lemma TrimKeepsNoDoubleSpace(s: string)
    requires NoDoubleSpace(s)
    ensures NoDoubleSpace(Trim(s))
  {
    var i, j :| 0 <= i <= j <= |s| && Trim(s) == s[i..j];
    NoDoubleSpaceSlice(s, i, j);
  }

  lemma NoDoubleSpaceSlice(s: string, i: nat, j: nat)
    requires i <= j <= |s| && NoDoubleSpace(s)
    ensures NoDoubleSpace(s[i..j])
  {
    var r := s[i..j];
    forall k | 0 <= k < |r| - 1
      ensures !(IsSpace(r[k]) && IsSpace(r[k + 1]))
    {
      assert r[k] == s[i + k] && r[k + 1] == s[i + k + 1];
    }
  }

  /** Leading white space is all that `trimStart` removes. */
  lemma {:induction false} TrimStartOfSpacePrefix(w: string, t: string)
    requires AllSpace(w) && (t == [] || !IsSpace(t[0]))
    ensures TrimStart(w + t) == t
  {
    if w != [] {
      assert (w + t)[1..] == w[1..] + t;
      TrimStartOfSpacePrefix(w[1..], t);
    } else {
      assert w + t == t;
    }
  }

  /** Trimming white space followed by a trimmed text gives that text. */
  lemma TrimAfterSpace(w: string, u: string)
    requires AllSpace(w) && Trimmed(u)
    ensures Trim(w + u) == u
  {
    TrimStartOfSpacePrefix(w, u);
  }

  // ---------------------------------------------------------------------------
  // includes, startsWith, endsWith, indexOf
  // ---------------------------------------------------------------------------

  predicate StartsWith(s: string, p: string)
  {
    |p| <= |s| && s[..|p|] == p
  }

  predicate EndsWith(s: string, p: string)
  {
    |p| <= |s| && s[|s| - |p|..] == p
  }

  /** `p` occurs in `s` starting at index `i`. */
  predicate OccursAt(s: string, p: string, i: int)
  {
    0 <= i && i + |p| <= |s| && s[i..i + |p|] == p
  }

  /** `String.prototype.includes`. */
  predicate Contains(s: string, p: string)
  {
    exists i :: 0 <= i <= |s| && OccursAt(s, p, i)
  }

  /** `String.prototype.indexOf`, searching from index `from`: the first occurrence at or after it. */
  function IndexOfFrom(s: string, p: string, from: nat): (r: Option<nat>)
    requires from <= |s|
    ensures r.Some? ==> from <= r.value && OccursAt(s, p, r.value)
    ensures forall i :: from <= i && (r.None? || i < r.value) ==> !OccursAt(s, p, i)
    decreases |s| - from
  {
    if from + |p| > |s| then None
    else if s[from..from + |p|] == p then Some(from)
    else IndexOfFrom(s, p, from + 1)
  }

  /** `String.prototype.indexOf`: the first occurrence of `p` in `s`, if any. */
  function IndexOf(s: string, p: string): (r: Option<nat>)
    ensures r.Some? <==> Contains(s, p)
    ensures r.Some? ==> OccursAt(s, p, r.value)
    ensures r.Some? ==> forall i :: 0 <= i < r.value ==> !OccursAt(s, p, i)
  {
    IndexOfFrom(s, p, 0)
  }

  // ---------------------------------------------------------------------------
  // toLowerCase (ASCII letters only)
  // ---------------------------------------------------------------------------

  function LowerChar(c: char): char
  {
    if 'A' <= c <= 'Z' then (c as int + 32) as char else c
  }

  /** `String.prototype.toLowerCase`, restricted to the ASCII letters A-Z. */
  function ToLower(s: string): (r: string)
    ensures |r| == |s|
    ensures forall i :: 0 <= i < |s| ==> r[i] == LowerChar(s[i])
  {
    if s == [] then [] else [LowerChar(s[0])] + ToLower(s[1..])
  }

  // ---------------------------------------------------------------------------
  // Array.prototype.join
  // ---------------------------------------------------------------------------

  /** `parts.join(sep)`: the parts in order with `sep` between neighbours. */
  function JoinWith(parts: seq<string>, sep: string): string
  {
    if parts == [] then []
    else if |parts| == 1 then parts[0]
    else
      var init := parts[..|parts| - 1];
      assert init[..|init| - 1] == parts[..|parts| - 2] && init[|init| - 1] == parts[|parts| - 2];
      JoinWith(init, sep) + sep + parts[|parts| - 1]
  }

  /** Joining two nonempty lists is joining each and putting one separator between. */
  lemma {:induction false} JoinWithSplit(a: seq<string>, b: seq<string>, sep: string)
    requires |a| > 0 && |b| > 0
    ensures JoinWith(a + b, sep) == JoinWith(a, sep) + sep + JoinWith(b, sep)
    decreases |b|
  {
    var ab := a + b;
    assert ab[..|ab| - 1] == a + b[..|b| - 1];
    if |b| > 1 {
      JoinWithSplit(a, b[..|b| - 1], sep);
    } else {
      assert a + b[..|b| - 1] == a;
    }
  }

  /** The joined text is as long as the parts together and one separator between each
      two neighbours. */
  lemma {:induction false} JoinWithLength(parts: seq<string>, sep: string)
    requires |parts| > 0
    ensures |JoinWith(parts, sep)| == TotalLength(parts) + (|parts| - 1) * |sep|
  {
    if |parts| > 1 {
      var init := parts[..|parts| - 1];
      JoinWithLength(init, sep);
      TotalLengthSnoc(init, parts[|parts| - 1]);
      assert init + [parts[|parts| - 1]] == parts;
    }
  }

  function TotalLength(parts: seq<string>): nat
  {
    if parts == [] then 0 else |parts[0]| + TotalLength(parts[1..])
  }

  lemma {:induction false} TotalLengthSnoc(parts: seq<string>, p: string)
    ensures TotalLength(parts + [p]) == TotalLength(parts) + |p|
  {
    if parts != [] {
      assert (parts + [p])[1..] == parts[1..] + [p];
      TotalLengthSnoc(parts[1..], p);
    }
  }

  /** An occurrence stays where it is when text is appended. */
  lemma OccursInLonger(s: string, t: string, p: string, i: int)
    requires OccursAt(s, p, i)
    ensures OccursAt(s + t, p, i)
  {
    assert (s + t)[i..i + |p|] == s[i..i + |p|];
  }

  /** An occurrence moves along by the length of text put in front. */
  lemma OccursAfterPrefix(s: string, t: string, p: string, i: int)
    requires OccursAt(t, p, i)
    ensures OccursAt(s + t, p, |s| + i)
  {
    assert (s + t)[|s| + i..|s| + i + |p|] == t[i..i + |p|];
  }

  /** Every part occurs in the joined text. */
  lemma {:induction false} JoinWithContains(parts: seq<string>, sep: string, k: nat)
    requires k < |parts|
    ensures Contains(JoinWith(parts, sep), parts[k])
    decreases |parts|
  {
    var r := JoinWith(parts, sep);
    var last := parts[|parts| - 1];
    if k == |parts| - 1 {
      assert OccursAt(r, last, |r| - |last|);
    } else {
      var init := parts[..|parts| - 1];
      JoinWithContains(init, sep, k);
      var i :| 0 <= i <= |JoinWith(init, sep)| && OccursAt(JoinWith(init, sep), init[k], i);
      OccursInLonger(JoinWith(init, sep), sep + last, init[k], i);
      assert JoinWith(init, sep) + sep + last == JoinWith(init, sep) + (sep + last);
    }
  }

  // ---------------------------------------------------------------------------
  // Decimal digits
  // ---------------------------------------------------------------------------

  function DigitChar(d: nat): char
    requires d < 10
  {
    ('0' as int + d) as char
  }

  /** The decimal rendering of a natural, as `String(n)` gives it. */
  function NatToString(n: nat): (r: string)
    ensures |r| > 0
    ensures forall i :: 0 <= i < |r| ==> IsDigit(r[i])
    ensures n > 0 ==> r[0] != '0'
    decreases n
  {
    if n < 10 then [DigitChar(n)] else NatToString(n / 10) + [DigitChar(n % 10)]
  }

  /** The value of a run of decimal digits, as `parseInt(s, 10)` gives it. */
  function DigitsValue(s: string): nat
    requires forall i :: 0 <= i < |s| ==> IsDigit(s[i])
    decreases |s|
  {
    if s == [] then 0
    else
      assert IsDigit(s[|s| - 1]);
      DigitsValue(s[..|s| - 1]) * 10 + (s[|s| - 1] as int - '0' as int)
  }

  /** Parsing the decimal rendering gives the number back. */
  lemma {:induction false} DigitsValueOfNatToString(n: nat)
    ensures DigitsValue(NatToString(n)) == n
    decreases n
  {
    var r := NatToString(n);
    if n >= 10 {
      DigitsValueOfNatToString(n / 10);
      assert r[..|r| - 1] == NatToString(n / 10);
    }
  }

  /** `String(n)` for an integer: a minus sign before the digits of a negative number. */
  function IntToString(n: int): string
  {
    if n >= 0 then NatToString(n) else "-" + NatToString(-n)
  }

  /** The rendering of an integer reads back as it: the digits of a natural, or a minus
      sign before the digits of the magnitude. */
  lemma IntToStringReadsBack(n: int)
    ensures var r := IntToString(n);
            && (n >= 0 ==> (forall i :: 0 <= i < |r| ==> IsDigit(r[i])) && DigitsValue(r) == n)
            && (n < 0 ==> && |r| >= 2 && r[0] == '-'
                          && (forall i :: 1 <= i < |r| ==> IsDigit(r[i]))
                          && DigitsValue(r[1..]) == -n)
  {
    if n >= 0 {
      DigitsValueOfNatToString(n);
    } else {
      DigitsValueOfNatToString(-n);
      assert IntToString(n)[1..] == NatToString(-n);
    }
  }
}
