/**
 * `wrapInIIFE` (build/build.js:217-230). Despite the name the scripts are not wrapped in
 * a function: they stay at the top level, behind a strict-mode directive and, in a
 * development build, a comment naming the sources and the build time. The clock is a
 * parameter: `timestamp` stands for `new Date().toISOString()`.
 */
module Wrap {
  import opened JsText

  const Directive: string := "'use strict';"

  const HeaderOpen: string := "\n    /**\n     * RESTful API Design - 7-Day Learning Module\n     * Auto-generated from: "
  const HeaderBuilt: string := "\n     * Built: "
  const HeaderClose: string := "\n     */\n"

  /** The comment a development build puts between the directive and the scripts. */
  function Header(sourceFiles: seq<string>, timestamp: string): (r: string)
    ensures StartsWith(r, HeaderOpen) && EndsWith(r, HeaderClose)
  {
    var names := JoinWith(sourceFiles, ", ");
    FramedFive(HeaderOpen, names, HeaderBuilt, timestamp, HeaderClose);
    HeaderOpen + names + HeaderBuilt + timestamp + HeaderClose
  }

  lemma FramedFive(a: string, b: string, c: string, d: string, e: string)
    ensures StartsWith(a + b + c + d + e, a) && EndsWith(a + b + c + d + e, e)
  {
    var r := a + b + c + d + e;
    assert r[..|a|] == a;
    assert r[|r| - |e|..] == e;
  }

  lemma Framed(a: string, b: string, c: string)
    ensures StartsWith(a + b + c, a) && EndsWith(a + b + c, c)
  {
    var r := a + b + c;
    assert r[..|a|] == a;
    assert r[|r| - |c|..] == c;
  }

  /** Blank scripts give nothing; otherwise the directive, the header unless minifying,
      then the scripts themselves, unchanged and at the top level. */
  function WrapInIife(js: string, sourceFiles: seq<string>, minify: bool, timestamp: string): (r: string)
    ensures AllSpace(js) ==> r == []
    ensures !AllSpace(js) ==> StartsWith(r, Directive) && EndsWith(r, js)
    ensures !AllSpace(js) && minify ==> r == Directive + js
  {
    TrimEmptyIff(js);
    if Trim(js) == [] then []
    else
      var header := if minify then [] else Header(sourceFiles, timestamp);
      Framed(Directive, header, js);
      assert minify ==> Directive + header + js == Directive + js;
      Directive + header + js
  }

  /** What follows the directive and the header is the scripts as given. */
  lemma ScriptsFollowHeader(js: string, sourceFiles: seq<string>, timestamp: string)
    requires !AllSpace(js)
    ensures var r := WrapInIife(js, sourceFiles, false, timestamp);
      r == Directive + Header(sourceFiles, timestamp) + js
  {
    TrimEmptyIff(js);
  }

  /** The header names every source file and the build time. */
  lemma HeaderNamesSources(sourceFiles: seq<string>, timestamp: string, k: nat)
    requires k < |sourceFiles|
    ensures Contains(Header(sourceFiles, timestamp), sourceFiles[k])
    ensures Contains(Header(sourceFiles, timestamp), timestamp)
  {
    var names := JoinWith(sourceFiles, ", ");
    JoinWithContains(sourceFiles, ", ", k);
    var i :| 0 <= i <= |names| && OccursAt(names, sourceFiles[k], i);
    FiveParts(HeaderOpen, names, HeaderBuilt, timestamp, HeaderClose, sourceFiles[k], i);
  }

  /** Both variable parts of a text made of five occur in it. */
  lemma FiveParts(a: string, names: string, b: string, t: string, c: string, p: string, i: int)
    requires OccursAt(names, p, i)
    ensures Contains(a + names + b + t + c, p) && Contains(a + names + b + t + c, t)
  {
    var v := a + names;
    var w := v + b;
    var x := w + t;
    OccursAfterPrefix(a, names, p, i);
    OccursInLonger(v, b, p, |a| + i);
    OccursInLonger(w, t, p, |a| + i);
    OccursInLonger(x, c, p, |a| + i);
    assert OccursAt(t, t, 0);
    OccursAfterPrefix(w, t, t, 0);
    OccursInLonger(x, c, t, |w|);
  }
}
