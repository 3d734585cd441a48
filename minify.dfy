/**
 * `minifyCSS` and `minifyJS` (build/build.js:168-211). Each regex pass of the two
 * `replace` chains is a left-to-right, non-overlapping scan: at each position the
 * pattern is tried; on a match the replacement is emitted and the scan resumes after
 * the match, otherwise one character is copied. Look-behinds see the character before
 * the position in the text being scanned, so the scans that need one carry it along.
 */
module Minify {
  import opened JsText

  // ---------------------------------------------------------------------------
  // White-space bookkeeping shared by the passes
  // ---------------------------------------------------------------------------

  /** The text starts with white space. */
  predicate LeadsWithSpace(s: string)
  {
    s != [] && IsSpace(s[0])
  }

  lemma NoDoubleSpaceSuffix(s: string, k: nat)
    requires NoDoubleSpace(s) && k <= |s|
    ensures NoDoubleSpace(s[k..])
  {
    assert forall i :: 0 <= i < |s| - k ==> s[k..][i] == s[k + i];
  }

  lemma NoDoubleSpaceTrimStart(s: string)
    requires NoDoubleSpace(s)
    ensures NoDoubleSpace(TrimStart(s))
  {
    NoDoubleSpaceSuffix(s, |s| - |TrimStart(s)|);
  }

  /** Putting a character in front keeps "no double white space" unless both it and the
      old first character are white space. */
  lemma ConsNoDoubleSpace(c: char, x: string)
    requires NoDoubleSpace(x)
    requires !IsSpace(c) || !LeadsWithSpace(x)
    ensures NoDoubleSpace([c] + x)
  {
    forall i | 0 <= i < |[c] + x| - 1 ensures !(IsSpace(([c] + x)[i]) && IsSpace(([c] + x)[i + 1])) {
      if i > 0 { assert ([c] + x)[i] == x[i - 1] && ([c] + x)[i + 1] == x[i]; }
    }
  }

  /** The head and tail of a non-empty string followed by more text. */
  lemma HeadTail(u: string, x: string)
    requires u != []
    ensures (u + x)[0] == u[0] && (u + x)[1..] == u[1..] + x && [u[0]] + (u[1..] + x) == u + x
  {
    assert u == [u[0]] + u[1..];
  }

  lemma Concat3(a: string, b: string, c: string)
    ensures a + b + c == a + (b + c)
  {
  }

  lemma Concat4(a: string, b: string, c: string, d: string)
    ensures a + b + c + d == a + (b + (c + d))
  {
  }

  // ---------------------------------------------------------------------------
  // /\/\*(?!!)[^*]*\*+(?:[^/*][^*]*\*+)*\//g  →  ''
  // ---------------------------------------------------------------------------

  /** The characters `a`, `b` stand at `i` and `i + 1`. */
  predicate PairAt(s: string, i: nat, a: char, b: char)
  {
    i + 1 < |s| && s[i] == a && s[i + 1] == b
  }

  /** `a` is never directly followed by `b`. */
  predicate NoPair(s: string, a: char, b: char)
  {
    forall i :: 0 <= i < |s| - 1 ==> !(s[i] == a && s[i + 1] == b)
  }

  // The first index at or after `from` where "*/" starts.
  function CloseFrom(s: string, from: nat): (r: Option<nat>)
    ensures r.Some? ==> from <= r.value && PairAt(s, r.value, '*', '/')
    ensures forall k :: from <= k && (r.None? || k < r.value) ==> !PairAt(s, k, '*', '/')
    decreases |s| - from
  {
    if from + 1 >= |s| then None
    else if s[from] == '*' && s[from + 1] == '/' then Some(from)
    else CloseFrom(s, from + 1)
  }

  // The length of the block comment the pattern matches at the start of `s`: a "/*"
  // not followed by "!", up to and including the first "*/" after it.
  function CommentAt(s: string): (r: Option<nat>)
    ensures r.Some? ==> 4 <= r.value <= |s| && PairAt(s, 0, '/', '*') && PairAt(s, r.value - 2, '*', '/')
  {
    if PairAt(s, 0, '/', '*') && !(|s| > 2 && s[2] == '!') then
      match CloseFrom(s, 2)
      case Some(k) => Some(k + 2)
      case None => None
    else None
  }

  /** The comment-removal pass, shared by both minifiers. */
  function StripBlockComments(s: string): (r: string)
    ensures |r| <= |s|
    decreases |s|
  {
    if s == [] then []
    else
      var m := CommentAt(s);
      if m.Some? then StripBlockComments(s[m.value..]) else [s[0]] + StripBlockComments(s[1..])
  }

  /** A closed block comment that does not start with `!` is removed with its delimiters. */
  lemma BlockCommentRemoved(body: string, rest: string)
    requires NoPair(body, '*', '/')
    requires body == [] || body[0] != '!'
    ensures StripBlockComments("/*" + body + "*/" + rest) == StripBlockComments(rest)
  {
    var s := "/*" + body + "*/" + rest;
    var e := 2 + |body|;
    assert PairAt(s, e, '*', '/');
    forall i | 2 <= i < e ensures !PairAt(s, i, '*', '/') {
      assert s[i] == body[i - 2];
      if i + 1 < e {
        assert s[i + 1] == body[i - 1];
      } else {
        assert s[i + 1] == '*';
      }
    }
    assert s[2] == (body + "*/")[0];
    assert CommentAt(s) == Some(e + 2);
    assert s[e + 2..] == rest;
  }

  /** Text in which no comment starts is copied unchanged in front of the rest. */
  lemma {:induction false} StripCopies(u: string, rest: string)
    requires forall j :: 0 <= j < |u| ==> !PairAt(u + rest, j, '/', '*')
    ensures StripBlockComments(u + rest) == u + StripBlockComments(rest)
    decreases |u|
  {
    if u != [] {
      var s := u + rest;
      var t := u[1..];
      assert s[1..] == t + rest;
      forall j | 0 <= j < |t| ensures !PairAt(t + rest, j, '/', '*') {
        assert !PairAt(s, j + 1, '/', '*');
      }
      StripCopies(t, rest);
      var x := StripBlockComments(rest);
      assert !PairAt(s, 0, '/', '*');
      assert StripBlockComments(s) == [u[0]] + (t + x);
      Concat3([u[0]], t, x);
      assert [u[0]] + t == u;
    } else {
      assert u + rest == rest;
    }
  }

  /** No opener starts inside `v` when none starts within it and its last character
      cannot pair with the first of `rest`. */
  lemma NoOpenerInPrefix(v: string, rest: string)
    requires NoPair(v, '/', '*')
    requires v == [] || v[|v| - 1] != '/' || rest == [] || rest[0] != '*'
    ensures forall j :: 0 <= j < |v| ==> !PairAt(v + rest, j, '/', '*')
  {
    forall j | 0 <= j < |v| ensures !PairAt(v + rest, j, '/', '*') {
      if j + 1 < |v| {
        assert (v + rest)[j] == v[j] && (v + rest)[j + 1] == v[j + 1];
      } else if rest != [] {
        assert (v + rest)[j] == v[j] && (v + rest)[j + 1] == rest[0];
      }
    }
  }

  // The text of a "/*!" comment after its leading "/" contains no opener.
  lemma BangTailNoOpener(body: string)
    requires NoPair(body, '/', '*')
    requires body == [] || body[|body| - 1] != '/'
    ensures NoPair("*!" + body + "*/", '/', '*')
  {
    var v := "*!" + body + "*/";
    var n := |body|;
    forall j | 0 <= j < |v| - 1 ensures !(v[j] == '/' && v[j + 1] == '*') {
      if j <= 1 {
      } else if j < 1 + n {
        assert v[j] == body[j - 2] && v[j + 1] == body[j - 1];
      } else if j == 1 + n {
        assert n > 0 ==> v[j] == body[n - 1];
      }
    }
  }

  // A "/*!" comment is kept verbatim when no other comment starts inside it or at its
  // closing "/".
  lemma BangCommentKept(body: string, rest: string)
    requires NoPair(body, '/', '*')
    requires body == [] || body[|body| - 1] != '/'
    requires rest == [] || rest[0] != '*'
    ensures StripBlockComments("/*!" + body + "*/" + rest) == "/*!" + body + "*/" + StripBlockComments(rest)
  {
    var v := "*!" + body + "*/";
    var s := "/" + (v + rest);
    BangOpen(body);
    Concat3("/", v, rest);
    assert s[1..] == v + rest;
    assert CommentAt(s).None? by {
      assert s[2] == v[1] == '!';
    }
    assert StripBlockComments(s) == "/" + StripBlockComments(v + rest);
    BangTailNoOpener(body);
    NoOpenerInPrefix(v, rest);
    StripCopies(v, rest);
    Concat3("/", v, StripBlockComments(rest));
  }

  lemma BangOpen(body: string)
    ensures "/" + ("*!" + body + "*/") == "/*!" + body + "*/"
  {
    assert "/" + "*!" == "/*!";
    Concat4("/", "*!", body, "*/");
  }

  /** Text without `/` has no comment to remove. */
  lemma {:induction false} NoSlashNoBlockComment(s: string)
    requires '/' !in s
    ensures StripBlockComments(s) == s
    decreases |s|
  {
    if s != [] {
      assert s[0] != '/';
      assert '/' !in s[1..] by {
        forall k | 0 <= k < |s[1..]| ensures s[1..][k] != '/' { assert s[1..][k] == s[k + 1]; }
      }
      NoSlashNoBlockComment(s[1..]);
      assert s == [s[0]] + s[1..];
    }
  }

  // ---------------------------------------------------------------------------
  // /\s+/g  →  ' '
  // ---------------------------------------------------------------------------

  /** The white-space collapse: every maximal run of white space becomes one space. */
  function CollapseSpace(s: string): (r: string)
    ensures |r| <= |s|
    ensures NoDoubleSpace(r)
    ensures r == [] <==> s == []
    ensures LeadsWithSpace(r) <==> LeadsWithSpace(s)
    ensures s != [] && !IsSpace(s[0]) ==> r[0] == s[0]
    decreases |s|
  {
    if s == [] then []
    else if IsSpace(s[0]) then
      var t := TrimStart(s);
      var r := " " + CollapseSpace(t);
      ConsNoDoubleSpace(' ', CollapseSpace(t));
      r
    else
      var r := [s[0]] + CollapseSpace(s[1..]);
      ConsNoDoubleSpace(s[0], CollapseSpace(s[1..]));
      r
  }

  /** No character is white space. */
  predicate NoSpace(s: string)
  {
    forall i :: 0 <= i < |s| ==> !IsSpace(s[i])
  }

  /** Text without white space is copied by the collapse. */
  lemma {:induction false} CollapseCopies(u: string, rest: string)
    requires NoSpace(u)
    ensures CollapseSpace(u + rest) == u + CollapseSpace(rest)
    decreases |u|
  {
    if u == [] {
      assert u + rest == rest;
    } else {
      var t := u[1..];
      assert (u + rest)[1..] == t + rest;
      assert NoSpace(t) by {
        forall i | 0 <= i < |t| ensures !IsSpace(t[i]) { assert t[i] == u[i + 1]; }
      }
      CollapseCopies(t, rest);
      assert (u + rest)[0] == u[0];
      Concat3([u[0]], t, CollapseSpace(rest));
      assert [u[0]] + t == u;
    }
  }

  /** A white-space run becomes one space. */
  lemma CollapseRun(w: string, rest: string)
    requires w != [] && AllSpace(w) && !LeadsWithSpace(rest)
    ensures CollapseSpace(w + rest) == " " + CollapseSpace(rest)
  {
    TrimStartOfSpacePrefix(w, rest);
    assert (w + rest)[0] == w[0];
  }

  /** The characters that are not white space, in order. */
  function Visible(s: string): string
  {
    if s == [] then [] else (if IsSpace(s[0]) then [] else [s[0]]) + Visible(s[1..])
  }

  lemma {:induction false} VisibleOfAllSpace(s: string)
    requires AllSpace(s)
    ensures Visible(s) == []
  {
    if s != [] {
      VisibleOfAllSpace(s[1..]);
    }
  }

  lemma {:induction false} VisibleAppend(a: string, b: string)
    ensures Visible(a + b) == Visible(a) + Visible(b)
  {
    if a == [] {
      assert a + b == b;
    } else {
      assert (a + b)[1..] == a[1..] + b;
      VisibleAppend(a[1..], b);
    }
  }

  /** The collapse changes white space only: the other characters come through in order. */
  lemma {:induction false} CollapseKeepsVisible(s: string)
    ensures Visible(CollapseSpace(s)) == Visible(s)
    decreases |s|
  {
    if s != [] {
      if IsSpace(s[0]) {
        CollapseKeepsVisible(TrimStart(s));
        CollapseStepSpace(s);
      } else {
        CollapseKeepsVisible(s[1..]);
        CollapseStepVisible(s);
      }
    }
  }

  // One step of the collapse at a white-space run: the run becomes one space.
  lemma CollapseStepSpace(s: string)
    requires s != [] && IsSpace(s[0])
    requires Visible(CollapseSpace(TrimStart(s))) == Visible(TrimStart(s))
    ensures Visible(CollapseSpace(s)) == Visible(s)
  {
    CollapseAtSpace(s);
    VisibleOfSpaceRun(s);
    VisibleOfSpaceCons(CollapseSpace(TrimStart(s)));
  }

  lemma CollapseAtSpace(s: string)
    requires s != [] && IsSpace(s[0])
    ensures CollapseSpace(s) == " " + CollapseSpace(TrimStart(s))
  {
  }

  lemma VisibleOfSpaceRun(s: string)
    ensures Visible(s) == Visible(TrimStart(s))
  {
    var t := TrimStart(s);
    SplitAt(s, |s| - |t|);
    VisibleAfterSpace(s[..|s| - |t|], t);
  }

  lemma VisibleOfSpaceCons(x: string)
    ensures Visible(" " + x) == Visible(x)
  {
    assert (" " + x)[1..] == x;
  }

  /** White space in front changes nothing visible. */
  lemma VisibleAfterSpace(w: string, t: string)
    requires AllSpace(w)
    ensures Visible(w + t) == Visible(t)
  {
    VisibleAppend(w, t);
    VisibleOfAllSpace(w);
  }

  lemma SplitAt(s: string, n: nat)
    requires n <= |s|
    ensures s == s[..n] + s[n..]
  {
  }

  // One step of the collapse at a visible character: it is copied.
  lemma CollapseStepVisible(s: string)
    requires s != [] && !IsSpace(s[0])
    requires Visible(CollapseSpace(s[1..])) == Visible(s[1..])
    ensures Visible(CollapseSpace(s)) == Visible(s)
  {
    var x := CollapseSpace(s[1..]);
    assert CollapseSpace(s) == [s[0]] + x;
    assert ([s[0]] + x)[1..] == x;
  }

  // ---------------------------------------------------------------------------
  // /\s*([...])\s*/g  →  '$1'
  // ---------------------------------------------------------------------------

  /** The two punctuation classes: `[{}:;,>+~]` for stylesheets and
      `[{};,=:?+\-*\/<>!&|()]` for scripts. */
  datatype PunctClass = CssPunct | JsPunct

  predicate IsPunct(cls: PunctClass, c: char)
  {
    match cls
    case CssPunct =>
      c == '{' || c == '}' || c == ':' || c == ';' || c == ',' || c == '>' || c == '+' || c == '~'
    case JsPunct =>
      c == '{' || c == '}' || c == ';' || c == ',' || c == '=' || c == ':' || c == '?' || c == '+' ||
      c == '-' || c == '*' || c == '/' || c == '<' || c == '>' || c == '!' || c == '&' || c == '|' ||
      c == '(' || c == ')'
  }

  /** The white space on both sides of a punctuation character is dropped. */
  function Tighten(s: string, cls: PunctClass): (r: string)
    ensures |r| <= |s|
    ensures LeadsWithSpace(r) ==> LeadsWithSpace(s)
    ensures s != [] ==> r != []
    ensures NoDoubleSpace(s) ==> NoDoubleSpace(r)
    decreases |s|
  {
    if s == [] then []
    else
      var t := TrimStart(s);
      if t != [] && IsPunct(cls, t[0]) then
        var u := TrimStart(t[1..]);
        var r := [t[0]] + Tighten(u, cls);
        assert NoDoubleSpace(s) ==> NoDoubleSpace(r) by {
          if NoDoubleSpace(s) {
            NoDoubleSpaceTrimStart(s);
            NoDoubleSpaceSuffix(t, 1);
            NoDoubleSpaceTrimStart(t[1..]);
            ConsNoDoubleSpace(t[0], Tighten(u, cls));
          }
        }
        r
      else
        var r := [s[0]] + Tighten(s[1..], cls);
        assert NoDoubleSpace(s) ==> NoDoubleSpace(r) by {
          if NoDoubleSpace(s) {
            NoDoubleSpaceSuffix(s, 1);
            ConsNoDoubleSpace(s[0], Tighten(s[1..], cls));
          }
        }
        r
  }

  /** Neither white space nor punctuation. */
  predicate Plain(cls: PunctClass, s: string)
  {
    forall i :: 0 <= i < |s| ==> !IsSpace(s[i]) && !IsPunct(cls, s[i])
  }

  /** Text with neither white space nor punctuation is copied. */
  lemma {:induction false} TightenCopies(u: string, rest: string, cls: PunctClass)
    requires Plain(cls, u)
    ensures Tighten(u + rest, cls) == u + Tighten(rest, cls)
    decreases |u|
  {
    if u == [] {
      assert u + rest == rest;
    } else {
      var t := u[1..];
      var s := u + rest;
      HeadTail(u, rest);
      HeadTail(u, Tighten(rest, cls));
      assert !IsSpace(u[0]) && !IsPunct(cls, u[0]);
      assert TrimStart(s) == s;
      TightenStepPlain(s, cls);
      assert Plain(cls, t) by {
        forall i | 0 <= i < |t| ensures !IsSpace(t[i]) && !IsPunct(cls, t[i]) { assert t[i] == u[i + 1]; }
      }
      TightenCopies(t, rest, cls);
    }
  }

  /** A single space before a plain character stays. */
  lemma TightenSpaceKept(rest: string, cls: PunctClass)
    requires rest != [] && !IsSpace(rest[0]) && !IsPunct(cls, rest[0])
    ensures Tighten(" " + rest, cls) == " " + Tighten(rest, cls)
  {
    TrimStartOfSpacePrefix(" ", rest);
    assert (" " + rest)[1..] == rest;
  }

  /** Without white space there is nothing to drop. */
  lemma {:induction false} TightenNoSpace(s: string, cls: PunctClass)
    requires NoSpace(s)
    ensures Tighten(s, cls) == s
    decreases |s|
  {
    if s != [] {
      var t := s[1..];
      HeadTail(s, []);
      assert s + [] == s && t + [] == t;
      assert NoSpace(t) by {
        forall i | 0 <= i < |t| ensures !IsSpace(t[i]) { assert t[i] == s[i + 1]; }
      }
      if IsPunct(cls, s[0]) {
        TightenAtPunct([], s[0], [], t, cls);
        assert [] + ([s[0]] + ([] + t)) == s;
      } else {
        assert TrimStart(s) == s;
        TightenStepPlain(s, cls);
      }
      TightenNoSpace(t, cls);
    }
  }

  lemma PunctNotSpace(c: char, cls: PunctClass)
    requires IsPunct(cls, c)
    ensures !IsSpace(c)
  {
  }

  /** White space on either side of a punctuation character is dropped. */
  lemma TightenAtPunct(w: string, c: char, v: string, rest: string, cls: PunctClass)
    requires AllSpace(w) && AllSpace(v) && IsPunct(cls, c) && (rest == [] || !IsSpace(rest[0]))
    ensures Tighten(w + ([c] + (v + rest)), cls) == [c] + Tighten(rest, cls)
  {
    var x := [c] + (v + rest);
    PunctNotSpace(c, cls);
    TrimStartOfSpacePrefix(w, x);
    TightenStepPunct(w + x, cls);
    assert x[0] == c && x[1..] == v + rest;
    TrimStartOfSpacePrefix(v, rest);
  }

  /** Around a punctuation character every white space run is dropped. */
  lemma TightenAroundPunct(before: string, c: char, after: string, rest: string, cls: PunctClass)
    requires AllSpace(before) && AllSpace(after) && IsPunct(cls, c)
    requires !LeadsWithSpace(rest)
    ensures Tighten(before + [c] + after + rest, cls) == [c] + Tighten(rest, cls)
  {
    var t := [c] + (after + rest);
    Concat4(before, [c], after, rest);
    assert t[1..] == after + rest;
    TrimStartOfSpacePrefix(before, t);
    TrimStartOfSpacePrefix(after, rest);
    TightenStepPunct(before + t, cls);
  }

  // One step of the pass at a punctuation character after optional white space.
  lemma TightenStepPunct(s: string, cls: PunctClass)
    requires s != [] && TrimStart(s) != [] && IsPunct(cls, TrimStart(s)[0])
    ensures Tighten(s, cls) == [TrimStart(s)[0]] + Tighten(TrimStart(TrimStart(s)[1..]), cls)
  {
  }

  lemma TightenStepPlain(s: string, cls: PunctClass)
    requires s != [] && !(TrimStart(s) != [] && IsPunct(cls, TrimStart(s)[0]))
    ensures Tighten(s, cls) == [s[0]] + Tighten(s[1..], cls)
  {
  }

  // ---------------------------------------------------------------------------
  // /;}/g  →  '}'
  // ---------------------------------------------------------------------------

  function DropSemicolonBeforeBrace(s: string): (r: string)
    ensures |r| <= |s|
    ensures LeadsWithSpace(r) ==> LeadsWithSpace(s)
    ensures s != [] ==> r != []
    ensures NoDoubleSpace(s) ==> NoDoubleSpace(r)
    decreases |s|
  {
    if s == [] then []
    else if PairAt(s, 0, ';', '}') then
      var r := "}" + DropSemicolonBeforeBrace(s[2..]);
      assert NoDoubleSpace(s) ==> NoDoubleSpace(r) by {
        if NoDoubleSpace(s) {
          NoDoubleSpaceSuffix(s, 2);
          ConsNoDoubleSpace('}', DropSemicolonBeforeBrace(s[2..]));
        }
      }
      r
    else
      var r := [s[0]] + DropSemicolonBeforeBrace(s[1..]);
      assert NoDoubleSpace(s) ==> NoDoubleSpace(r) by {
        if NoDoubleSpace(s) {
          NoDoubleSpaceSuffix(s, 1);
          ConsNoDoubleSpace(s[0], DropSemicolonBeforeBrace(s[1..]));
        }
      }
      r
  }

  /** Text without `;` is copied. */
  lemma {:induction false} DropCopies(u: string, rest: string)
    requires ';' !in u
    ensures DropSemicolonBeforeBrace(u + rest) == u + DropSemicolonBeforeBrace(rest)
    decreases |u|
  {
    if u == [] {
      assert u + rest == rest;
    } else {
      var t := u[1..];
      var s := u + rest;
      assert s[1..] == t + rest;
      assert s[0] == u[0];
      assert ';' !in t by {
        forall i | 0 <= i < |t| ensures t[i] != ';' { assert t[i] == u[i + 1]; }
      }
      DropCopies(t, rest);
      Concat3([u[0]], t, DropSemicolonBeforeBrace(rest));
      assert [u[0]] + t == u;
    }
  }

  lemma DropPair(rest: string)
    ensures DropSemicolonBeforeBrace(";}" + rest) == "}" + DropSemicolonBeforeBrace(rest)
  {
    assert (";}" + rest)[2..] == rest;
  }

  lemma DropKept(c: char, rest: string)
    requires c != ';' || rest == [] || rest[0] != '}'
    ensures DropSemicolonBeforeBrace([c] + rest) == [c] + DropSemicolonBeforeBrace(rest)
  {
    assert ([c] + rest)[1..] == rest;
  }

  /** Every `;}` becomes `}`. */
  lemma SemicolonBeforeBraceDropped(rest: string)
    ensures DropSemicolonBeforeBrace(";}" + rest) == "}" + DropSemicolonBeforeBrace(rest)
  {
    assert (";}" + rest)[2..] == rest;
  }

  // ---------------------------------------------------------------------------
  // /(:|\s)0(px|em|rem|%)/g  →  '$10'
  // ---------------------------------------------------------------------------

  /** The length of the unit `px`, `em`, `rem` or `%` that starts `t`, 0 if none does. */
  function UnitLen(t: string): (n: nat)
    ensures n <= |t|
  {
    if PairAt(t, 0, 'p', 'x') || PairAt(t, 0, 'e', 'm') then 2
    else if PairAt(t, 0, 'r', 'e') && |t| > 2 && t[2] == 'm' then 3
    else if t != [] && t[0] == '%' then 1
    else 0
  }

  /** A `0` after `:` or white space loses its unit. The pattern has two groups, so the
      replacement `$10` is group 1 followed by the digit `0`. */
  function ZeroUnits(s: string): (r: string)
    ensures |r| <= |s|
    ensures s != [] ==> r != [] && r[0] == s[0]
    ensures NoDoubleSpace(s) ==> NoDoubleSpace(r)
    decreases |s|
  {
    if |s| >= 2 && (s[0] == ':' || IsSpace(s[0])) && s[1] == '0' && UnitLen(s[2..]) > 0 then
      var rest := s[2 + UnitLen(s[2..])..];
      var r := [s[0], '0'] + ZeroUnits(rest);
      assert NoDoubleSpace(s) ==> NoDoubleSpace(r) by {
        if NoDoubleSpace(s) {
          NoDoubleSpaceSuffix(s, 2 + UnitLen(s[2..]));
          ConsNoDoubleSpace('0', ZeroUnits(rest));
          ConsNoDoubleSpace(s[0], ['0'] + ZeroUnits(rest));
          assert [s[0], '0'] + ZeroUnits(rest) == [s[0]] + (['0'] + ZeroUnits(rest));
        }
      }
      r
    else if s == [] then []
    else
      var r := [s[0]] + ZeroUnits(s[1..]);
      assert NoDoubleSpace(s) ==> NoDoubleSpace(r) by {
        if NoDoubleSpace(s) {
          NoDoubleSpaceSuffix(s, 1);
          ConsNoDoubleSpace(s[0], ZeroUnits(s[1..]));
        }
      }
      r
  }

  /** A zero with a unit, after `:` or white space, keeps its lead character and the digit. */
  lemma ZeroUnitDropped(lead: char, unit: string, rest: string)
    requires lead == ':' || IsSpace(lead)
    requires unit in ["px", "em", "rem", "%"]
    ensures ZeroUnits([lead, '0'] + unit + rest) == [lead, '0'] + ZeroUnits(rest)
  {
    var s := [lead, '0'] + unit + rest;
    var t := s[2..];
    assert t == unit + rest;
    assert forall i :: 0 <= i < |unit| ==> t[i] == unit[i];
    assert UnitLen(t) == |unit|;
    assert s[2 + |unit|..] == rest;
  }

  /** Without a `0` no unit is dropped. */
  lemma {:induction false} NoZeroUnchanged(s: string)
    requires '0' !in s
    ensures ZeroUnits(s) == s
    decreases |s|
  {
    if s != [] {
      var t := s[1..];
      assert |s| >= 2 ==> s[1] != '0';
      assert '0' !in t by {
        forall i | 0 <= i < |t| ensures t[i] != '0' { assert t[i] == s[i + 1]; }
      }
      NoZeroUnchanged(t);
      assert s == [s[0]] + t;
    }
  }

  // ---------------------------------------------------------------------------
  // /;+/g  →  ';'
  // ---------------------------------------------------------------------------

  function SkipSemicolons(s: string): (r: string)
    ensures |r| <= |s| && r == s[|s| - |r|..]
    ensures r == [] || r[0] != ';'
  {
    if s == [] || s[0] != ';' then s else SkipSemicolons(s[1..])
  }

  function CollapseSemicolons(s: string): (r: string)
    ensures |r| <= |s|
    ensures s != [] ==> r != [] && r[0] == s[0]
    ensures NoDoubleSpace(s) ==> NoDoubleSpace(r)
    ensures forall i :: 0 <= i < |r| - 1 ==> !(r[i] == ';' && r[i + 1] == ';')
    decreases |s|
  {
    if s == [] then []
    else if s[0] == ';' then
      var t := SkipSemicolons(s[1..]);
      var r := ";" + CollapseSemicolons(t);
      assert NoDoubleSpace(s) ==> NoDoubleSpace(r) by {
        if NoDoubleSpace(s) {
          NoDoubleSpaceSuffix(s, |s| - |t|);
          assert s[|s| - |t|..] == t;
          ConsNoDoubleSpace(';', CollapseSemicolons(t));
        }
      }
      r
    else
      var r := [s[0]] + CollapseSemicolons(s[1..]);
      assert NoDoubleSpace(s) ==> NoDoubleSpace(r) by {
        if NoDoubleSpace(s) {
          NoDoubleSpaceSuffix(s, 1);
          ConsNoDoubleSpace(s[0], CollapseSemicolons(s[1..]));
        }
      }
      r
  }

  /** Text without `;` is copied. */
  lemma {:induction false} SemicolonsCopy(u: string, rest: string)
    requires ';' !in u
    ensures CollapseSemicolons(u + rest) == u + CollapseSemicolons(rest)
    decreases |u|
  {
    if u == [] {
      assert u + rest == rest;
    } else {
      var t := u[1..];
      var s := u + rest;
      assert s[1..] == t + rest;
      assert s[0] == u[0];
      assert ';' !in t by {
        forall i | 0 <= i < |t| ensures t[i] != ';' { assert t[i] == u[i + 1]; }
      }
      SemicolonsCopy(t, rest);
      Concat3([u[0]], t, CollapseSemicolons(rest));
      assert [u[0]] + t == u;
    }
  }

  /** A lone `;` stays. */
  lemma SingleSemicolon(rest: string)
    requires rest == [] || rest[0] != ';'
    ensures CollapseSemicolons(";" + rest) == ";" + CollapseSemicolons(rest)
  {
    assert (";" + rest)[1..] == rest;
  }

  // ---------------------------------------------------------------------------
  // /(?<!:)\/\/(?![*\/]).*$/gm  →  ''
  // ---------------------------------------------------------------------------

  /** The index of the first line terminator, |s| if there is none. */
  function LineEnd(s: string): (k: nat)
    ensures k <= |s|
    ensures k < |s| ==> IsLineTerminator(s[k])
    ensures forall i :: 0 <= i < k ==> !IsLineTerminator(s[i])
  {
    if s == [] || IsLineTerminator(s[0]) then 0 else 1 + LineEnd(s[1..])
  }

  /** A line comment starts here: `//`, not right after `:`, and not followed by `*` or `/`. */
  predicate LineCommentAt(s: string, afterColon: bool)
  {
    PairAt(s, 0, '/', '/') && !afterColon && !(|s| > 2 && (s[2] == '*' || s[2] == '/'))
  }

  /** The line-comment pass: a comment runs to the end of its line; the line terminator stays. */
  function StripLineComments(s: string, afterColon: bool): (r: string)
    ensures |r| <= |s|
    decreases |s|
  {
    if s == [] then []
    else if LineCommentAt(s, afterColon) then
      var k := LineEnd(s);
      assert k >= 2 by { assert s[0] == '/' && s[1] == '/'; }
      StripLineComments(s[k..], s[k - 1] == ':')
    else [s[0]] + StripLineComments(s[1..], s[0] == ':')
  }

  /** A line comment is removed up to the line terminator, which is kept. */
  lemma LineCommentRemoved(comment: string, rest: string)
    requires forall i :: 0 <= i < |comment| ==> !IsLineTerminator(comment[i])
    requires comment == [] || (comment[0] != '*' && comment[0] != '/')
    requires rest == [] || IsLineTerminator(rest[0])
    ensures StripLineComments("//" + comment + rest, false) == StripLineComments(rest, false)
  {
    var s := "//" + (comment + rest);
    Concat3("//", comment, rest);
    CommentBounds(comment, rest);
    CommentSkip(s, 2 + |comment|, rest);
  }

  /** Where the comment starts and where its line ends. */
  lemma CommentBounds(comment: string, rest: string)
    requires forall i :: 0 <= i < |comment| ==> !IsLineTerminator(comment[i])
    requires comment == [] || (comment[0] != '*' && comment[0] != '/')
    requires rest == [] || IsLineTerminator(rest[0])
    ensures var s := "//" + (comment + rest);
      LineCommentAt(s, false) && LineEnd(s) == 2 + |comment| && s[2 + |comment|..] == rest
  {
    var x := comment + rest;
    var s := "//" + x;
    var n := 2 + |comment|;
    assert LineCommentAt(s, false) by {
      assert s[0] == '/' && s[1] == '/';
      assert |s| > 2 ==> s[2] == x[0];
      assert x != [] ==> x[0] == (if comment != [] then comment[0] else rest[0]);
    }
    assert n <= |s| && (n < |s| ==> IsLineTerminator(s[n])) by {
      assert n < |s| ==> s[n] == rest[0];
    }
    assert forall i :: 0 <= i < n ==> !IsLineTerminator(s[i]) by {
      assert forall i :: 2 <= i < n ==> s[i] == comment[i - 2];
    }
    LineEndHere(s, n);
    assert s[n..] == rest;
  }

  /** A comment running to position `n` is skipped. */
  lemma CommentSkip(s: string, n: nat, rest: string)
    requires LineCommentAt(s, false) && LineEnd(s) == n && s[n..] == rest
    requires rest == [] || rest[0] != '/'
    ensures StripLineComments(s, false) == StripLineComments(rest, false)
  {
    CommentStep(s);
    AfterColonIrrelevant(rest);
  }

  lemma CommentStep(s: string)
    requires LineCommentAt(s, false)
    ensures StripLineComments(s, false) == StripLineComments(s[LineEnd(s)..], s[LineEnd(s) - 1] == ':')
  {
  }

  /** The first line terminator is where the characters before are none and this one is. */
  lemma LineEndHere(s: string, n: nat)
    requires n <= |s| && (n < |s| ==> IsLineTerminator(s[n]))
    requires forall i :: 0 <= i < n ==> !IsLineTerminator(s[i])
    ensures LineEnd(s) == n
  {
  }

  /** Whether the previous character was `:` matters only before a `/`. */
  lemma AfterColonIrrelevant(s: string)
    requires s == [] || s[0] != '/'
    ensures StripLineComments(s, true) == StripLineComments(s, false)
  {
  }

  /** `//` right after `:` is not a comment, so `https://...` survives. */
  lemma UrlKept(t: string, afterColon: bool)
    requires t == [] || t[0] != '/'
    ensures StripLineComments("://" + t, afterColon) == "://" + StripLineComments(t, false)
  {
    var s := "://" + t;
    var s1, s2 := "//" + t, "/" + t;
    assert s[1..] == s1 && s1[1..] == s2 && s2[1..] == t;
    assert StripLineComments(s2, false) == "/" + StripLineComments(t, false);
    assert StripLineComments(s1, true) == "/" + StripLineComments(s2, false);
    assert StripLineComments(s, afterColon) == ":" + StripLineComments(s1, true);
  }

  /** Text without `/` or `:` is copied unchanged in front of the rest. */
  lemma {:induction false} LineCommentsCopy(u: string, rest: string, afterColon: bool)
    requires u != []
    requires forall i :: 0 <= i < |u| ==> u[i] != '/' && u[i] != ':'
    ensures StripLineComments(u + rest, afterColon) == u + StripLineComments(rest, false)
    decreases |u|
  {
    var s := u + rest;
    assert s[1..] == u[1..] + rest;
    if |u| > 1 {
      LineCommentsCopy(u[1..], rest, false);
    }
    assert u == [u[0]] + u[1..];
  }

  /** Text without `/` has no line comment. */
  lemma {:induction false} NoSlashNoLineComment(s: string, afterColon: bool)
    requires '/' !in s
    ensures StripLineComments(s, afterColon) == s
    decreases |s|
  {
    if s != [] {
      var t := s[1..];
      assert s[0] != '/';
      assert '/' !in t by {
        forall i | 0 <= i < |t| ensures t[i] != '/' { assert t[i] == s[i + 1]; }
      }
      NoSlashNoLineComment(t, s[0] == ':');
      assert s == [s[0]] + t;
    }
  }

  /** The pass works without regard to string literals: a `//` inside one cuts it short,
      as in `"Don't break this! // not a comment"`. */
  lemma LineCommentPassCutsStringLiteral(u: string, comment: string)
    requires u != [] && forall i :: 0 <= i < |u| ==> u[i] != '/' && u[i] != ':'
    requires forall i :: 0 <= i < |comment| ==> !IsLineTerminator(comment[i])
    requires comment == [] || (comment[0] != '*' && comment[0] != '/')
    ensures StripLineComments(u + "//" + comment, false) == u
  {
    var c := "//" + comment;
    assert c == "//" + comment + [];
    LineCommentRemoved(comment, []);
    assert StripLineComments([], false) == [];
    LineCommentsCopy(u, c, false);
    Concat3(u, "//", comment);
    assert u + [] == u;
  }

  // ---------------------------------------------------------------------------
  // /\b(return|typeof|instanceof|in|of|new|delete|void|throw|case)\b/g  →  ' $1 '
  // ---------------------------------------------------------------------------

  const Keywords: seq<string> :=
    ["return", "typeof", "instanceof", "in", "of", "new", "delete", "void", "throw", "case"]

  predicate AllWordChars(w: string)
  {
    forall i :: 0 <= i < |w| ==> IsWordChar(w[i])
  }

  /** `w` starts `s` and a word boundary follows it. */
  predicate WordAt(s: string, w: string)
  {
    StartsWith(s, w) && (|w| == |s| || !IsWordChar(s[|w|]))
  }

  /** The first alternative, in list order, that matches with a boundary after it. */
  function FirstKeyword(s: string, ks: seq<string>): (r: Option<string>)
    ensures r.Some? ==> r.value in ks && WordAt(s, r.value)
    ensures r.None? ==> forall k :: k in ks ==> !WordAt(s, k)
  {
    if ks == [] then None
    else if WordAt(s, ks[0]) then Some(ks[0])
    else
      var r := FirstKeyword(s, ks[1..]);
      assert forall k :: k in ks <==> k == ks[0] || k in ks[1..];
      r
  }

  lemma KeywordsAreWords()
    ensures forall k :: k in Keywords ==> AllWordChars(k) && |k| >= 2
  {
  }

  /** Two words that both start `s` with a boundary after them are the same word. */
  lemma WordAtUnique(s: string, a: string, b: string)
    requires AllWordChars(a) && AllWordChars(b)
    requires WordAt(s, a) && WordAt(s, b)
    ensures a == b
  {
    assert |a| == |b|;
  }

  /** The keyword pass: a keyword starting after a non-word character (or at the start)
      and ending before one (or at the end) gets a space on each side. */
  function SpaceKeywords(s: string, afterWord: bool): (r: string)
    ensures |r| >= |s|
    decreases |s|
  {
    if s == [] then []
    else
      var m := FirstKeyword(s, Keywords);
      if !afterWord && m.Some? then
        KeywordsAreWords();
        " " + m.value + " " + SpaceKeywords(s[|m.value|..], true)
      else [s[0]] + SpaceKeywords(s[1..], IsWordChar(s[0]))
  }

  /** A whole-word keyword is set off by one space on each side. */
  lemma KeywordSpaced(k: string, rest: string)
    requires k in Keywords
    requires rest == [] || !IsWordChar(rest[0])
    ensures SpaceKeywords(k + rest, false) == " " + k + " " + SpaceKeywords(rest, true)
  {
    var s := k + rest;
    KeywordsAreWords();
    assert WordAt(s, k);
    var m := FirstKeyword(s, Keywords);
    WordAtUnique(s, m.value, k);
    assert s[|k|..] == rest;
  }

  /** Word characters after a word character are copied: a keyword inside a longer
      identifier is not touched. */
  lemma {:induction false} WordCharsCopied(u: string, rest: string)
    requires AllWordChars(u)
    ensures SpaceKeywords(u + rest, true) == u + SpaceKeywords(rest, true)
    decreases |u|
  {
    if u == [] {
      assert u + rest == rest;
    } else {
      assert (u + rest)[1..] == u[1..] + rest;
      WordCharsCopied(u[1..], rest);
      assert u == [u[0]] + u[1..];
    }
  }

  /** A character that is not a word character starts no keyword and is copied; the
      next character then follows a non-word character. */
  lemma NonWordCopied(c: char, rest: string, afterWord: bool)
    requires !IsWordChar(c)
    ensures SpaceKeywords([c] + rest, afterWord) == [c] + SpaceKeywords(rest, false)
  {
    var s := [c] + rest;
    KeywordsAreWords();
    NoKeywordAfterNonWord(s, Keywords);
    assert s[1..] == rest;
  }

  lemma {:induction false} NoKeywordAfterNonWord(s: string, ks: seq<string>)
    requires s != [] && !IsWordChar(s[0])
    requires forall k :: k in ks ==> AllWordChars(k) && |k| >= 2
    ensures FirstKeyword(s, ks).None?
    decreases |ks|
  {
    if ks != [] {
      var k := ks[0];
      assert IsWordChar(k[0]);
      assert !WordAt(s, k) by {
        if |k| <= |s| { assert s[..|k|][0] == s[0]; }
      }
      assert forall j :: j in ks[1..] ==> j in ks;
      NoKeywordAfterNonWord(s, ks[1..]);
    }
  }

  /** An identifier that is not itself a keyword passes unchanged, `newValue` included. */
  lemma IdentifierUntouched(w: string, rest: string)
    requires w != [] && AllWordChars(w) && w !in Keywords
    requires rest == [] || !IsWordChar(rest[0])
    ensures SpaceKeywords(w + rest, false) == w + SpaceKeywords(rest, true)
  {
    var s := w + rest;
    NoKeywordAtIdentifier(w, rest);
    SpaceKeywordsCopyStep(s, false);
    assert s[0] == w[0] && s[1..] == w[1..] + rest;
    WordCharsCopied(w[1..], rest);
    Concat3([w[0]], w[1..], SpaceKeywords(rest, true));
    assert [w[0]] + w[1..] == w;
  }

  lemma NoKeywordAtIdentifier(w: string, rest: string)
    requires w != [] && AllWordChars(w) && w !in Keywords
    requires rest == [] || !IsWordChar(rest[0])
    ensures FirstKeyword(w + rest, Keywords).None?
  {
    var s := w + rest;
    assert WordAt(s, w) by {
      assert s[..|w|] == w;
    }
    var m := FirstKeyword(s, Keywords);
    if m.Some? {
      KeywordsAreWords();
      WordAtUnique(s, m.value, w);
    }
  }

  /** Where no keyword is spaced, the first character is copied. */
  lemma SpaceKeywordsCopyStep(s: string, afterWord: bool)
    requires s != [] && (afterWord || FirstKeyword(s, Keywords).None?)
    ensures SpaceKeywords(s, afterWord) == [s[0]] + SpaceKeywords(s[1..], IsWordChar(s[0]))
  {
  }

  // ---------------------------------------------------------------------------
  // The two pipelines
  // ---------------------------------------------------------------------------

  /** `minifyCSS(css)` with the minify flag given: comments, white space, space around
      punctuation, `;}`, zero units, repeated semicolons, then `trim`. */
  function MinifyCss(minify: bool, css: string): (r: string)
    ensures !minify ==> r == css
    ensures minify ==> Trimmed(r) && NoDoubleSpace(r) && |r| <= |css|
    ensures css == [] ==> r == []
  {
    if !minify then css
    else
      var f := CollapseSemicolons(ZeroUnits(DropSemicolonBeforeBrace(Tighten(CollapseSpace(StripBlockComments(css)), CssPunct))));
      TrimKeepsNoDoubleSpace(f);
      Trim(f)
  }

  /** `minifyJS(js)` with the minify flag given: line comments, block comments, white
      space, space around operators, keyword spacing, white space again, then `trim`. */
  function MinifyJs(minify: bool, js: string): (r: string)
    ensures !minify ==> r == js
    ensures minify ==> Trimmed(r) && NoDoubleSpace(r)
    ensures js == [] ==> r == []
  {
    if !minify then js
    else
      var f := CollapseSpace(SpaceKeywords(Tighten(CollapseSpace(StripBlockComments(StripLineComments(js, false))), JsPunct), false));
      TrimKeepsNoDoubleSpace(f);
      Trim(f)
  }
}
