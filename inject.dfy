/**
 * The injection step of `build()` and the check that follows it (build/build.js:292-302).
 * Each placeholder is replaced with `String.prototype.replace` called with a string
 * pattern and a string replacement: only the first occurrence is replaced, and the
 * replacement text is read as a template in which `$$`, `$&`, `` $` `` and `$'` are
 * expanded (a string pattern has no capture groups, so every other `$` is literal).
 */
module Inject {
  import opened JsText

  const CssPlaceholder: string := "/* {{CSS_PLACEHOLDER}} */"
  const JsPlaceholder: string := "/* {{JS_PLACEHOLDER}} */"
  const ContentPlaceholder: string := "<!-- {{CONTENT_PLACEHOLDER}} -->"

  /** `Object.entries(config.placeholders)`, in declaration order. */
  const Placeholders: seq<(string, string)> :=
    [("css", CssPlaceholder), ("js", JsPlaceholder), ("content", ContentPlaceholder)]

  /** The replacement template expanded for a match of `matched` between `before` and
      `after`; a replacement without `$` is inserted as it is. */
  function Expand(repl: string, matched: string, before: string, after: string): (r: string)
    ensures '$' !in repl ==> r == repl
    decreases |repl|
  {
    if repl == [] then []
    else if |repl| >= 2 && repl[0] == '$' && repl[1] == '$' then "$" + Expand(repl[2..], matched, before, after)
    else if |repl| >= 2 && repl[0] == '$' && repl[1] == '&' then matched + Expand(repl[2..], matched, before, after)
    else if |repl| >= 2 && repl[0] == '$' && repl[1] == '`' then before + Expand(repl[2..], matched, before, after)
    else if |repl| >= 2 && repl[0] == '$' && repl[1] == '\'' then after + Expand(repl[2..], matched, before, after)
    else
      var r := [repl[0]] + Expand(repl[1..], matched, before, after);
      assert '$' !in repl ==> '$' !in repl[1..] by {
        if '$' !in repl {
          forall k | 0 <= k < |repl[1..]| ensures repl[1..][k] != '$' { assert repl[1..][k] == repl[k + 1]; }
        }
      }
      assert repl == [repl[0]] + repl[1..];
      r
  }

  /** `s.replace(pattern, repl)` for a string pattern: the first occurrence, if any, is
      replaced by the expanded template. */
  function ReplaceFirst(s: string, pattern: string, repl: string): (r: string)
    ensures !Contains(s, pattern) ==> r == s
  {
    match IndexOf(s, pattern)
    case None => s
    case Some(i) =>
      var after := s[i + |pattern|..];
      s[..i] + Expand(repl, pattern, s[..i], after) + after
  }

  /** `s.replace(pattern, () => text)`: the first occurrence, if any, replaced by `text`
      as it is. */
  function ReplaceFirstLiteral(s: string, pattern: string, text: string): (r: string)
    ensures !Contains(s, pattern) ==> r == s
    ensures Contains(s, pattern) ==>
              var i := IndexOf(s, pattern).value;
              && |r| == |s| - |pattern| + |text|
              && r[..i] == s[..i]
              && OccursAt(r, text, i)
              && r[i + |text|..] == s[i + |pattern|..]
  {
    match IndexOf(s, pattern)
    case None => s
    case Some(i) =>
      var r := s[..i] + text + s[i + |pattern|..];
      assert r[..i] == s[..i];
      assert r[i..i + |text|] == text;
      assert r[i + |text|..] == s[i + |pattern|..];
      r
  }

  /** When the text has no `$`, the pattern-template replacement is the literal one: the
      part before the first occurrence, the text, and the part after it. */
  lemma ReplaceWithoutDollar(s: string, pattern: string, text: string, i: nat)
    requires '$' !in text
    requires OccursAt(s, pattern, i) && forall j :: 0 <= j < i ==> !OccursAt(s, pattern, j)
    ensures ReplaceFirst(s, pattern, text) == s[..i] + text + s[i + |pattern|..]
    ensures ReplaceFirst(s, pattern, text) == ReplaceFirstLiteral(s, pattern, text)
  {
    var m := IndexOf(s, pattern);
    assert Contains(s, pattern);
    assert m == Some(i);
  }

  /** The three replacements of `build()`, in their order. A template holding none of
      the placeholders comes back unchanged. */
  function Inject(html: string, css: string, js: string, content: string): (r: string)
    ensures (!Contains(html, CssPlaceholder) && !Contains(html, JsPlaceholder) &&
             !Contains(html, ContentPlaceholder)) ==> r == html
  {
    ReplaceFirst(ReplaceFirst(ReplaceFirst(html, CssPlaceholder, css), JsPlaceholder, js), ContentPlaceholder, content)
  }

  /** The same three replacements inserting each block literally. */
  function InjectLiteral(html: string, css: string, js: string, content: string): string
  {
    ReplaceFirstLiteral(ReplaceFirstLiteral(ReplaceFirstLiteral(html, CssPlaceholder, css), JsPlaceholder, js), ContentPlaceholder, content)
  }

  /** Blocks without `$` are inserted literally by the pattern-template replacement too. */
  lemma {:induction false} InjectWithoutDollar(html: string, css: string, js: string, content: string)
    requires '$' !in css && '$' !in js && '$' !in content
    ensures Inject(html, css, js, content) == InjectLiteral(html, css, js, content)
  {
    var h1 := ReplaceFirst(html, CssPlaceholder, css);
    ReplaceFirstAgrees(html, CssPlaceholder, css);
    ReplaceFirstAgrees(h1, JsPlaceholder, js);
    var h2 := ReplaceFirst(h1, JsPlaceholder, js);
    ReplaceFirstAgrees(h2, ContentPlaceholder, content);
  }

  lemma ReplaceFirstAgrees(s: string, pattern: string, text: string)
    requires '$' !in text
    ensures ReplaceFirst(s, pattern, text) == ReplaceFirstLiteral(s, pattern, text)
  {
    match IndexOf(s, pattern)
    case None =>
    case Some(i) => ReplaceWithoutDollar(s, pattern, text, i);
  }

  /** A block `$&` is expanded to the matched placeholder, so the placeholder comes back
      and the block is lost. */
  lemma DollarAmpersandRestores(p: string)
    ensures ReplaceFirst(p, p, "$&") == p
  {
    assert OccursAt(p, p, 0);
    assert IndexOf(p, p) == Some(0);
    var e := Expand("$&", p, [], []);
    assert e == p + Expand([], p, [], []);
    assert p[..0] == [] && p[|p|..] == [];
  }

  /** The same for the content placeholder of the page. */
  lemma DollarAmpersandRestoresPlaceholder()
    ensures ReplaceFirst(ContentPlaceholder, ContentPlaceholder, "$&") == ContentPlaceholder
  {
    DollarAmpersandRestores(ContentPlaceholder);
  }

  /** Inserted literally, the same block lands as written. */
  lemma DollarAmpersandLiteral(p: string)
    ensures ReplaceFirstLiteral(p, p, "$&") == "$&"
  {
    assert OccursAt(p, p, 0);
    assert IndexOf(p, p) == Some(0);
    assert p[..0] == [] && p[|p|..] == [];
  }

  // ---------------------------------------------------------------------------
  // The check for placeholders left in the page
  // ---------------------------------------------------------------------------

  function Warning(name: string): string
  {
    "Placeholder not replaced: " + name
  }

  /** One warning per entry whose placeholder is still in the page, in entry order. */
  function Warnings(html: string, entries: seq<(string, string)>): (ws: seq<string>)
    ensures |ws| <= |entries|
  {
    if entries == [] then []
    else
      var init := entries[..|entries| - 1];
      var last := entries[|entries| - 1];
      Warnings(html, init) + (if Contains(html, last.1) then [Warning(last.0)] else [])
  }

  /** An entry is warned about exactly when its placeholder is still present (the names
      being distinct). */
  lemma {:induction false} WarningsExactly(html: string, entries: seq<(string, string)>, k: nat)
    requires k < |entries|
    requires forall a, b :: 0 <= a < b < |entries| ==> entries[a].0 != entries[b].0
    ensures Warning(entries[k].0) in Warnings(html, entries) <==> Contains(html, entries[k].1)
    decreases |entries|
  {
    var init := entries[..|entries| - 1];
    var last := entries[|entries| - 1];
    var tail := if Contains(html, last.1) then [Warning(last.0)] else [];
    assert Warnings(html, entries) == Warnings(html, init) + tail;
    if k < |entries| - 1 {
      WarningsExactly(html, init, k);
      assert Warning(entries[k].0) !in tail by {
        if tail != [] { WarningInjective(entries[k].0, last.0); }
      }
    } else {
      WarningsNotFor(html, init, last.0);
    }
  }

  lemma WarningInjective(a: string, b: string)
    requires a != b
    ensures Warning(a) != Warning(b)
  {
    var p := "Placeholder not replaced: ";
    assert Warning(a)[|p|..] == a && Warning(b)[|p|..] == b;
  }

  /** No warning names an entry missing from the list. */
  lemma {:induction false} WarningsNotFor(html: string, entries: seq<(string, string)>, name: string)
    requires forall a :: 0 <= a < |entries| ==> entries[a].0 != name
    ensures Warning(name) !in Warnings(html, entries)
    decreases |entries|
  {
    if entries != [] {
      var init := entries[..|entries| - 1];
      WarningsNotFor(html, init, name);
      WarningInjective(name, entries[|entries| - 1].0);
    }
  }

  /** The loop over `Object.entries(config.placeholders)`. */
  method CheckPlaceholders(html: string) returns (errors: seq<string>)
    ensures errors == Warnings(html, Placeholders)
    ensures |errors| <= 3
    ensures forall k :: 0 <= k < 3 ==>
              (Warning(Placeholders[k].0) in errors <==> Contains(html, Placeholders[k].1))
  {
    errors := [];
    for i := 0 to |Placeholders|
      invariant errors == Warnings(html, Placeholders[..i])
    {
      var (name, placeholder) := Placeholders[i];
      assert Placeholders[..i + 1][..i] == Placeholders[..i];
      if IndexOf(html, placeholder).Some? {
        errors := errors + [Warning(name)];
      }
    }
    assert Placeholders[..3] == Placeholders;
    forall k | 0 <= k < 3
      ensures Warning(Placeholders[k].0) in errors <==> Contains(html, Placeholders[k].1)
    {
      WarningsExactly(html, Placeholders, k);
    }
  }
}
