/**
 * Inputs of the shapes the two minifiers of build/build.js are written for, derived
 * pass by pass from the general lemmas of module Minify.
 */
module MinifyExamples {
  import opened JsText
  import opened Minify

  /** Text the CSS passes copy unchanged: no white space, comment opener, `;` or zero. */
  predicate Bare(u: string)
  {
    NoSpace(u) && '/' !in u && ';' !in u && '0' !in u
  }

  /** On CSS without white space, `/` or a zero, only the `;}` and `;+` passes act. */
  lemma CssWithoutSpace(s: string)
    requires NoSpace(s) && '/' !in s && '0' !in DropSemicolonBeforeBrace(s)
    ensures MinifyCss(true, s) == Trim(CollapseSemicolons(DropSemicolonBeforeBrace(s)))
  {
    NoSlashNoBlockComment(s);
    CollapseCopies(s, []);
    assert s + [] == s;
    TightenNoSpace(s, CssPunct);
    NoZeroUnchanged(DropSemicolonBeforeBrace(s));
  }

  lemma BareAppend(u: string, t: string)
    requires Bare(u) && NoSpace(t) && '/' !in t
    ensures NoSpace(u + t) && '/' !in u + t
  {
    assert forall i :: 0 <= i < |u| ==> (u + t)[i] == u[i];
    assert forall i :: |u| <= i < |u + t| ==> (u + t)[i] == t[i - |u|];
  }

  lemma DropDoubled(u: string)
    requires ';' !in u
    ensures DropSemicolonBeforeBrace(u + ";;}") == u + ";}"
  {
    assert u + ";;}" == u + (";" + (";}" + []));
    DropCopies(u, ";" + (";}" + []));
    DropKept(';', ";}" + []);
    DropPair([]);
    assert u + (";" + ("}" + [])) == u + ";}";
  }

  lemma DropSingle(u: string)
    requires ';' !in u
    ensures DropSemicolonBeforeBrace(u + ";}") == u + "}"
  {
    assert u + ";}" == u + (";}" + []);
    DropCopies(u, ";}" + []);
    DropPair([]);
    assert u + ("}" + []) == u + "}";
  }

  lemma BraceKept()
    ensures CollapseSemicolons("}") == "}"
  {
  }

  lemma SemicolonBraceKept(u: string)
    requires ';' !in u
    ensures CollapseSemicolons(u + ";}") == u + ";}"
  {
    SemicolonsCopy(u, ";}");
    SemicolonBrace();
  }

  lemma SemicolonBrace()
    ensures CollapseSemicolons(";}") == ";}"
  {
    var b := "}";
    SingleSemicolon(b);
    BraceKept();
    assert ";" + b == ";}";
  }

  lemma BraceOnlyKept(u: string)
    requires ';' !in u
    ensures CollapseSemicolons(u + "}") == u + "}"
  {
    SemicolonsCopy(u, "}");
    BraceKept();
  }

  /** White space does not start or end `u` followed by a closing brace. */
  lemma BraceEndTrimmed(u: string, t: string)
    requires u != [] && NoSpace(u) && t != [] && t[|t| - 1] == '}'
    ensures Trim(u + t) == u + t
  {
    var d := u + t;
    assert d[0] == u[0] && d[|d| - 1] == '}';
    TrimAfterSpace([], d);
    assert [] + d == d;
  }

  lemma ZeroFreeAppend(u: string, t: string)
    requires '0' !in u && '0' !in t
    ensures '0' !in u + t
  {
    assert forall i :: 0 <= i < |u| ==> (u + t)[i] == u[i];
    assert forall i :: |u| <= i < |u + t| ==> (u + t)[i] == t[i - |u|];
  }

  /** A doubled semicolon before `}`: the `;}` pass runs before the `;+` pass, so one
      semicolon is left behind. */
  lemma DoubledSemicolonLeftBehind(u: string)
    requires u != [] && Bare(u)
    ensures MinifyCss(true, u + ";;}") == u + ";}"
  {
    BareAppend(u, ";;}");
    DropDoubled(u);
    ZeroFreeAppend(u, ";}");
    CssWithoutSpace(u + ";;}");
    SemicolonBraceKept(u);
    BraceEndTrimmed(u, ";}");
  }

  /** A single semicolon before `}` is dropped. */
  lemma SingleSemicolonDropped(u: string)
    requires u != [] && Bare(u)
    ensures MinifyCss(true, u + ";}") == u + "}"
  {
    BareAppend(u, ";}");
    DropSingle(u);
    ZeroFreeAppend(u, "}");
    CssWithoutSpace(u + ";}");
    BraceOnlyKept(u);
    BraceEndTrimmed(u, "}");
  }

  /** Minifying the result once more removes the semicolon the first run left: the CSS
      minifier is not idempotent. */
  lemma CssSecondRunDiffers(u: string)
    requires u != [] && Bare(u)
    ensures MinifyCss(true, MinifyCss(true, u + ";;}")) == u + "}"
    ensures MinifyCss(true, MinifyCss(true, u + ";;}")) != MinifyCss(true, u + ";;}")
  {
    DoubledSemicolonLeftBehind(u);
    SingleSemicolonDropped(u);
    assert |u + "}"| < |u + ";}"|;
  }

  // ---------------------------------------------------------------------------
  // A one-declaration rule: `sel { prop: val; }`
  // ---------------------------------------------------------------------------

  /** A selector, property or value word: no white space, CSS punctuation, `/` or zero. */
  predicate CssWord(u: string)
  {
    u != [] && Plain(CssPunct, u) && '/' !in u && '0' !in u
  }

  /** The rule with its spaces, nested to the right. */
  function SpacedRule(sel: string, prop: string, val: string): string
  {
    sel + (" " + ("{" + (" " + (prop + (":" + (" " + (val + (";" + (" " + "}")))))))))
  }

  /** The rule as the minifier should leave it, nested to the right. */
  function TightRule(sel: string, prop: string, val: string): string
  {
    sel + ("{" + (prop + (":" + (val + "}"))))
  }

  lemma SpacedRuleShape(sel: string, prop: string, val: string)
    ensures sel + " { " + prop + ": " + val + "; }" == SpacedRule(sel, prop, val)
  {
    var tail := val + "; }";
    assert sel + " { " + prop + ": " + val + "; }" == sel + " { " + prop + ": " + tail;
    assert ": " + tail == ":" + (" " + tail);
    assert "; }" == ";" + (" " + "}");
    assert " { " + prop == " " + ("{" + (" " + prop));
  }

  lemma TightRuleShape(sel: string, prop: string, val: string)
    ensures sel + "{" + prop + ":" + val + "}" == TightRule(sel, prop, val)
  {
  }

  lemma WordNoSpace(u: string)
    requires Plain(CssPunct, u)
    ensures NoSpace(u)
  {
  }

  /** One space between a space-free piece and a non-space character is kept. */
  lemma CollapseSingleSpace(u: string, rest: string)
    requires NoSpace(u) && rest != [] && !IsSpace(rest[0])
    ensures CollapseSpace(u + (" " + rest)) == u + (" " + CollapseSpace(rest))
  {
    CollapseCopies(u, " " + rest);
    CollapseRun(" ", rest);
  }

  lemma RuleCollapseTail(val: string)
    requires CssWord(val)
    ensures CollapseSpace(val + (";" + (" " + "}"))) == val + (";" + (" " + "}"))
  {
    WordNoSpace(val);
    CollapseCopies(val, ";" + (" " + "}"));
    CollapseSingleSpace(";", "}");
    CollapseCopies("}", []);
    assert "}" + [] == "}";
  }

  lemma RuleCollapseMiddle(prop: string, val: string)
    requires CssWord(prop) && CssWord(val)
    ensures var x := val + (";" + (" " + "}"));
      CollapseSpace(prop + (":" + (" " + x))) == prop + (":" + (" " + x))
  {
    var x := val + (";" + (" " + "}"));
    WordNoSpace(prop);
    CollapseCopies(prop, ":" + (" " + x));
    assert x[0] == val[0];
    CollapseSingleSpace(":", x);
    RuleCollapseTail(val);
  }

  /** The rule has single spaces only, so the white-space pass leaves it alone. */
  lemma RuleCollapse(sel: string, prop: string, val: string)
    requires CssWord(sel) && CssWord(prop) && CssWord(val)
    ensures CollapseSpace(SpacedRule(sel, prop, val)) == SpacedRule(sel, prop, val)
  {
    var x := val + (";" + (" " + "}"));
    var y := prop + (":" + (" " + x));
    WordNoSpace(sel);
    assert y[0] == prop[0];
    CollapseSingleSpace(sel, "{" + (" " + y));
    CollapseSingleSpace("{", y);
    RuleCollapseMiddle(prop, val);
  }

  /** A punctuation character between two spaces loses both. */
  lemma TightenSpacedPunct(c: char, rest: string, cls: PunctClass)
    requires IsPunct(cls, c) && rest != [] && !IsSpace(rest[0])
    ensures Tighten(" " + ([c] + (" " + rest)), cls) == [c] + Tighten(rest, cls)
  {
    OneSpace();
    TightenAtPunct(" ", c, " ", rest, cls);
  }

  /** A punctuation character loses the space after it. */
  lemma TightenPunctSpace(c: char, rest: string, cls: PunctClass)
    requires IsPunct(cls, c) && rest != [] && !IsSpace(rest[0])
    ensures Tighten([c] + (" " + rest), cls) == [c] + Tighten(rest, cls)
  {
    OneSpace();
    TightenAtPunct([], c, " ", rest, cls);
    assert [] + ([c] + (" " + rest)) == [c] + (" " + rest);
  }

  lemma TightenPunctAlone(c: char, cls: PunctClass)
    requires IsPunct(cls, c)
    ensures Tighten([c], cls) == [c]
  {
    TightenAtPunct([], c, [], [], cls);
    assert [] + ([c] + ([] + [])) == [c];
    assert Tighten([], cls) == [];
  }

  /** A punctuation character loses the space before it. */
  lemma TightenSpaceBeforePunct(c: char, cls: PunctClass)
    requires IsPunct(cls, c)
    ensures Tighten(" " + [c], cls) == [c]
  {
    OneSpace();
    TightenSpacesBeforePunct(" ", c, cls);
  }

  lemma TightenSpacesBeforePunct(w: string, c: char, cls: PunctClass)
    requires AllSpace(w) && IsPunct(cls, c)
    ensures Tighten(w + [c], cls) == [c]
  {
    TightenAtPunct(w, c, [], [], cls);
    assert w + ([c] + ([] + [])) == w + [c];
    assert Tighten([], cls) == [];
  }

  /** Two punctuation characters with a space between them lose it. */
  lemma TightenClose(c: char, d: char, cls: PunctClass)
    requires IsPunct(cls, c) && IsPunct(cls, d)
    ensures Tighten([c] + (" " + [d]), cls) == [c] + [d]
  {
    OneSpace();
    PunctNotSpace(d, cls);
    TightenAtPunct([], c, " ", [d], cls);
    assert [] + ([c] + (" " + [d])) == [c] + (" " + [d]);
    TightenPunctAlone(d, cls);
  }

  lemma RuleTightenTail(val: string)
    requires CssWord(val)
    ensures Tighten(val + (";" + (" " + "}")), CssPunct) == val + (";" + "}")
  {
    TightenCopies(val, ";" + (" " + "}"), CssPunct);
    TightenClose(';', '}', CssPunct);
  }


  lemma RuleTightenMiddle(prop: string, val: string)
    requires CssWord(prop) && CssWord(val)
    ensures var x := val + (";" + (" " + "}"));
      Tighten(prop + (":" + (" " + x)), CssPunct) == prop + (":" + (val + (";" + "}")))
  {
    var x := val + (";" + (" " + "}"));
    TightenCopies(prop, ":" + (" " + x), CssPunct);
    assert x[0] == val[0];
    assert ":" == [':'];
    TightenPunctSpace(':', x, CssPunct);
    RuleTightenTail(val);
  }

  /** Space around the punctuation of the rule is dropped. */
  lemma RuleTighten(sel: string, prop: string, val: string)
    requires CssWord(sel) && CssWord(prop) && CssWord(val)
    ensures Tighten(SpacedRule(sel, prop, val), CssPunct) == sel + ("{" + (prop + (":" + (val + (";" + "}")))))
  {
    var x := val + (";" + (" " + "}"));
    var y := prop + (":" + (" " + x));
    TightenCopies(sel, " " + ("{" + (" " + y)), CssPunct);
    assert y[0] == prop[0];
    assert "{" == ['{'];
    TightenSpacedPunct('{', y, CssPunct);
    RuleTightenMiddle(prop, val);
  }

  /** The `;}` pass drops the semicolon; nothing else of the rule is a `;`. */
  lemma RuleDrop(sel: string, prop: string, val: string)
    requires CssWord(sel) && CssWord(prop) && CssWord(val)
    ensures DropSemicolonBeforeBrace(sel + ("{" + (prop + (":" + (val + (";" + "}")))))) == TightRule(sel, prop, val)
  {
    var w := sel + ("{" + (prop + (":" + val)));
    assert ';' !in w;
    assert sel + ("{" + (prop + (":" + (val + (";" + "}"))))) == w + (";}" + []);
    DropCopies(w, ";}" + []);
    DropPair([]);
    assert w + ("}" + []) == TightRule(sel, prop, val);
  }

  /** `.class { color: red; }` becomes `.class{color:red}`: every space goes and so does
      the last semicolon. */
  lemma OneDeclarationRule(sel: string, prop: string, val: string)
    requires CssWord(sel) && CssWord(prop) && CssWord(val)
    ensures MinifyCss(true, sel + " { " + prop + ": " + val + "; }") == sel + "{" + prop + ":" + val + "}"
  {
    var s := SpacedRule(sel, prop, val);
    var r := TightRule(sel, prop, val);
    SpacedRuleShape(sel, prop, val);
    TightRuleShape(sel, prop, val);
    RuleFree(sel, prop, val);
    NoSlashNoBlockComment(s);
    RuleCollapse(sel, prop, val);
    RuleTighten(sel, prop, val);
    RuleDrop(sel, prop, val);
    NoZeroUnchanged(r);
    SemicolonsCopy(r, []);
    assert r + [] == r;
    TightRuleTrimmed(sel, prop, val);
  }

  lemma RuleFree(sel: string, prop: string, val: string)
    requires CssWord(sel) && CssWord(prop) && CssWord(val)
    ensures '/' !in SpacedRule(sel, prop, val)
    ensures '0' !in TightRule(sel, prop, val) && ';' !in TightRule(sel, prop, val)
  {
  }

  lemma TightRuleTrimmed(sel: string, prop: string, val: string)
    requires CssWord(sel)
    ensures Trim(TightRule(sel, prop, val)) == TightRule(sel, prop, val)
  {
    var r := TightRule(sel, prop, val);
    assert r[0] == sel[0];
    assert r[|r| - 1] == '}';
    TrimAfterSpace([], r);
    assert [] + r == r;
  }

  /** The words of `.class { color: red; }`. */
  lemma ClassColorRedWords()
    ensures CssWord(".class") && CssWord("color") && CssWord("red")
  {
  }

  /** The rule of the CSS minifier's test: `.class { color: red; }` gives `.class{color:red}`. */
  lemma ClassColorRed(css: string)
    requires css == ".class" + " { " + "color" + ": " + "red" + "; }"
    ensures MinifyCss(true, css) == ".class" + "{" + "color" + ":" + "red" + "}"
  {
    ClassColorRedWords();
    OneDeclarationRule(".class", "color", "red");
  }

  // ---------------------------------------------------------------------------
  // A keyword statement: `return w;`, `typeof w;`, `new w;` ...
  // ---------------------------------------------------------------------------

  /** An identifier that is not a keyword. */
  predicate JsWord(w: string)
  {
    w != [] && AllWordChars(w) && w !in Keywords
  }

  lemma WordIsPlain(w: string)
    requires AllWordChars(w)
    ensures Plain(JsPunct, w) && NoSpace(w) && '/' !in w
  {
    assert forall i :: 0 <= i < |w| ==> IsWordChar(w[i]);
  }

  lemma KeywordIsPlain(k: string)
    requires k in Keywords
    ensures k != [] && AllWordChars(k) && Plain(JsPunct, k) && NoSpace(k) && '/' !in k
  {
    KeywordsAreWords();
    WordIsPlain(k);
  }

  lemma StatementTail(w: string)
    requires JsWord(w)
    ensures CollapseSpace(w + ";") == w + ";"
    ensures Tighten(w + ";", JsPunct) == w + ";"
    ensures SpaceKeywords(w + ";", false) == w + ";"
  {
    TailCollapse(w);
    TailTighten(w);
    TailKeywords(w);
  }

  lemma TailCollapse(w: string)
    requires JsWord(w)
    ensures CollapseSpace(w + ";") == w + ";"
  {
    WordIsPlain(w);
    CollapseCopies(w, ";");
    CollapseCopies(";", []);
    assert ";" + [] == ";";
  }

  lemma TailTighten(w: string)
    requires JsWord(w)
    ensures Tighten(w + ";", JsPunct) == w + ";"
  {
    WordIsPlain(w);
    TightenCopies(w, ";", JsPunct);
    TightenPunctAlone(';', JsPunct);
  }

  lemma TailKeywords(w: string)
    requires JsWord(w)
    ensures SpaceKeywords(w + ";", false) == w + ";"
  {
    IdentifierUntouched(w, ";");
    NonWordCopied(';', [], true);
    assert [';'] + [] == ";";
  }

  /** `k w;` has one space, so the first white-space pass keeps it. */
  lemma StatementCollapse(k: string, w: string)
    requires k in Keywords && JsWord(w)
    ensures CollapseSpace(k + (" " + (w + ";"))) == k + (" " + (w + ";"))
  {
    KeywordIsPlain(k);
    assert (w + ";")[0] == w[0];
    CollapseSingleSpace(k, w + ";");
    StatementTail(w);
  }

  /** The one space of `k w;` is between two plain characters and stays. */
  lemma StatementTighten(k: string, w: string)
    requires k in Keywords && JsWord(w)
    ensures Tighten(k + (" " + (w + ";")), JsPunct) == k + (" " + (w + ";"))
  {
    KeywordIsPlain(k);
    WordIsPlain(w);
    TightenCopies(k, " " + (w + ";"), JsPunct);
    assert (w + ";")[0] == w[0];
    TightenSpaceKept(w + ";", JsPunct);
    StatementTail(w);
  }

  /** The keyword is set off by a space on each side, which doubles the space after it. */
  lemma StatementKeywordSpaced(k: string, w: string)
    requires k in Keywords && JsWord(w)
    ensures SpaceKeywords(k + (" " + (w + ";")), false) == " " + (k + ("  " + (w + ";")))
  {
    KeywordSpaced(k, " " + (w + ";"));
    NonWordCopied(' ', w + ";", true);
    StatementTail(w);
    SpacesRegrouped(k, w + ";");
  }

  lemma SpacesRegrouped(k: string, x: string)
    ensures " " + k + " " + (" " + x) == " " + (k + ("  " + x))
  {
    assert " " + (" " + x) == "  " + x;
  }

  lemma TwoSpaces()
    ensures AllSpace("  ")
  {
  }

  /** The second white-space pass joins the two spaces. */
  lemma StatementCollapseAgain(k: string, w: string)
    requires k in Keywords && JsWord(w)
    ensures CollapseSpace(" " + (k + ("  " + (w + ";")))) == " " + (k + (" " + (w + ";")))
  {
    var x := w + ";";
    KeywordIsPlain(k);
    CollapseRun(" ", k + ("  " + x));
    assert x[0] == w[0];
    CollapseDoubleSpace(k, x);
    StatementTail(w);
  }

  /** Two spaces between a space-free piece and a non-space character become one. */
  lemma CollapseDoubleSpace(u: string, rest: string)
    requires NoSpace(u) && rest != [] && !IsSpace(rest[0])
    ensures CollapseSpace(u + ("  " + rest)) == u + (" " + CollapseSpace(rest))
  {
    CollapseCopies(u, "  " + rest);
    TwoSpaces();
    CollapseRun("  ", rest);
  }

  /** `return true;` keeps the space after `return`: a keyword followed by an identifier
      comes out as it went in. */
  lemma KeywordStatementKept(k: string, w: string)
    requires k in Keywords && JsWord(w)
    ensures MinifyJs(true, k + (" " + (w + ";"))) == k + (" " + (w + ";"))
  {
    var js := k + (" " + (w + ";"));
    KeywordIsPlain(k);
    WordIsPlain(w);
    assert '/' !in js;
    NoSlashNoLineComment(js, false);
    NoSlashNoBlockComment(js);
    StatementCollapse(k, w);
    StatementTighten(k, w);
    StatementKeywordSpaced(k, w);
    StatementCollapseAgain(k, w);
    StatementTrimmed(k, w);
  }

  lemma StatementTrimmed(k: string, w: string)
    requires k in Keywords && JsWord(w)
    ensures Trim(" " + (k + (" " + (w + ";")))) == k + (" " + (w + ";"))
  {
    var js := k + (" " + (w + ";"));
    KeywordIsPlain(k);
    assert Trimmed(js) by {
      assert js[0] == k[0] && js[|js| - 1] == ';';
    }
    OneSpace();
    TrimAfterSpace(" ", js);
  }

  lemma OneSpace()
    ensures AllSpace(" ")
  {
  }

  /** `return true;` keeps the space after `return`. */
  lemma ReturnTrue()
    ensures MinifyJs(true, "return true;") == "return true;"
  {
    var k, w := "return", "true";
    assert "return true;" == k + (" " + (w + ";"));
    assert k in Keywords && JsWord(w);
    KeywordStatementKept(k, w);
  }
}
