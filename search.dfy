/**
 * The ranking core of the page's search box (src/scripts/search.js): the relevance
 * score of one entry, the escaping of a query for use inside a regular expression,
 * the filter, de-duplication, sort and cap of `performSearch`, and the module-level
 * result list with its cyclic cursor. The index itself is read from the page; here it
 * is a sequence of entries given to the state object.
 */
module Search {
  import opened JsText
  import opened Sorting

  /** One indexed element of a day: its day number, the heading it sits under, its text
      and its tag name. */
  datatype SearchEntry = SearchEntry(dayNum: int, section: string, text: string, tagName: string)

  /** An entry with its relevance score (`{...entry, score}`). */
  datatype Hit = Hit(entry: SearchEntry, score: int)

  // ---------------------------------------------------------------------------
  // escapeRegex (src/scripts/search.js:366-368)
  // ---------------------------------------------------------------------------

  /** The class `[.*+?^${}()|[\]\\]`. */
  predicate IsRegexSpecial(c: char)
  {
    c == '.' || c == '*' || c == '+' || c == '?' || c == '^' || c == '$' || c == '{' ||
    c == '}' || c == '(' || c == ')' || c == '|' || c == '[' || c == ']' || c == '\\'
  }

  function CountSpecials(s: string): nat
  {
    if s == [] then 0 else (if IsRegexSpecial(s[0]) then 1 else 0) + CountSpecials(s[1..])
  }

  /** Every special character gets a backslash in front of it (`'\\$&'`). */
  function EscapeRegex(s: string): (r: string)
    ensures |r| == |s| + CountSpecials(s)
  {
    if s == [] then []
    else (if IsRegexSpecial(s[0]) then ['\\', s[0]] else [s[0]]) + EscapeRegex(s[1..])
  }

  /** How a regular expression reads an escaped text: a backslash stands for the
      character after it. */
  function Unescape(r: string): string
  {
    if r == [] then []
    else if r[0] == '\\' && |r| >= 2 then [r[1]] + Unescape(r[2..])
    else [r[0]] + Unescape(r[1..])
  }

  /** Escaping loses nothing: the escaped text reads back as the query. */
  lemma {:induction false} UnescapeEscape(s: string)
    ensures Unescape(EscapeRegex(s)) == s
  {
    if s != [] {
      UnescapeEscape(s[1..]);
      var e := EscapeRegex(s[1..]);
      if IsRegexSpecial(s[0]) {
        assert (['\\', s[0]] + e)[2..] == e;
      } else {
        assert ([s[0]] + e)[1..] == e;
      }
      assert s == [s[0]] + s[1..];
    }
  }

  /** Escaping works character by character. */
  lemma {:induction false} EscapeAppend(a: string, b: string)
    ensures EscapeRegex(a + b) == EscapeRegex(a) + EscapeRegex(b)
  {
    if a == [] {
      assert a + b == b;
    } else {
      assert (a + b)[1..] == a[1..] + b;
      EscapeAppend(a[1..], b);
    }
  }

  /** A text with no special character is left as it is. */
  lemma {:induction false} EscapePlain(s: string)
    requires forall i :: 0 <= i < |s| ==> !IsRegexSpecial(s[i])
    ensures EscapeRegex(s) == s
  {
    if s != [] {
      EscapePlain(s[1..]);
      assert s == [s[0]] + s[1..];
    }
  }

  // ---------------------------------------------------------------------------
  // calculateRelevance (src/scripts/search.js:167-195)
  // ---------------------------------------------------------------------------

  /** `\b` at position `p`: a word character on exactly one side. */
  predicate Boundary(t: string, p: int)
    requires 0 <= p <= |t|
  {
    (p > 0 && IsWordChar(t[p - 1])) != (p < |t| && IsWordChar(t[p]))
  }

  /** `q` occurs at `i` with a word boundary on both sides. */
  predicate WordMatchAt(t: string, q: string, i: int)
  {
    OccursAt(t, q, i) && Boundary(t, i) && Boundary(t, i + |q|)
  }

  /** `new RegExp('\\b' + escapeRegex(q) + '\\b').test(t)`. */
  predicate WordMatch(t: string, q: string)
  {
    exists i :: 0 <= i <= |t| && WordMatchAt(t, q, i)
  }

  /** At most one heading bonus: `h2`, else `h3`, else `h4`. */
  function HeadingBonus(tagName: string): (b: int)
    ensures b == 0 || b == 10 || b == 20 || b == 30
    ensures b == 30 <==> tagName == "h2"
  {
    if tagName == "h2" then 30 else if tagName == "h3" then 20 else if tagName == "h4" then 10 else 0
  }

  function ExactBonus(lowerText: string, lowerQuery: string): int
  {
    if lowerText == lowerQuery then 100 else 0
  }

  function PrefixBonus(lowerText: string, lowerQuery: string): int
  {
    if StartsWith(lowerText, lowerQuery) then 50 else 0
  }

  function WordBonus(lowerText: string, lowerQuery: string): int
  {
    if WordMatch(lowerText, lowerQuery) then 25 else 0
  }

  function CaseBonus(text: string, query: string): int
  {
    if Contains(text, query) then 15 else 0
  }

  function LengthBonus(text: string): int
  {
    if |text| < 100 then 5 else 0
  }

  /** The score `calculateRelevance` adds up. It lies in 0..225; an exact
      case-insensitive match scores at least 150, and no score reaches 150 without the
      query starting the text. */
  function Relevance(text: string, query: string, tagName: string): (r: int)
    ensures 0 <= r <= 225
    ensures ToLower(text) == ToLower(query) ==> r >= 150
    ensures r >= 150 ==> StartsWith(ToLower(text), ToLower(query))
  {
    var t, q := ToLower(text), ToLower(query);
    var e, p, h, w, c, l := ExactBonus(t, q), PrefixBonus(t, q), HeadingBonus(tagName),
      WordBonus(t, q), CaseBonus(text, query), LengthBonus(text);
    assert t == q ==> StartsWith(t, q) by {
      if t == q { assert t[..|q|] == q; }
    }
    assert e == 0 || e == 100;
    assert p == 0 || p == 50;
    assert e == 100 ==> p == 50;
    assert w == 0 || w == 25;
    assert c == 0 || c == 15;
    assert l == 0 || l == 5;
    e + p + h + w + c + l
  }

  /** The same sum, accumulated as the source does it. */
  method CalculateRelevance(text: string, query: string, tagName: string) returns (score: int)
    ensures score == Relevance(text, query, tagName)
    ensures 0 <= score <= 225
  {
    var lowerText := ToLower(text);
    var lowerQuery := ToLower(query);
    score := 0;
    if lowerText == lowerQuery {
      score := score + 100;
    }
    if StartsWith(lowerText, lowerQuery) {
      score := score + 50;
    }
    if tagName == "h2" {
      score := score + 30;
    } else if tagName == "h3" {
      score := score + 20;
    } else if tagName == "h4" {
      score := score + 10;
    }
    if WordMatch(lowerText, lowerQuery) {
      score := score + 25;
    }
    if Contains(text, query) {
      score := score + 15;
    }
    if |text| < 100 {
      score := score + 5;
    }
  }

  // ---------------------------------------------------------------------------
  // performSearch (src/scripts/search.js:128-158)
  // ---------------------------------------------------------------------------

  /** The de-duplication key `${entry.dayNum}-${entry.section}`. */
  function Key(e: SearchEntry): string
  {
    IntToString(e.dayNum) + "-" + e.section
  }

  predicate Matches(e: SearchEntry, lowerQuery: string)
  {
    Contains(ToLower(e.text), lowerQuery)
  }

  /** The hits pushed by the `forEach`, and the set of keys seen after it: a matching
      entry is kept when its key is new or fewer than 50 keys have been seen. */
  function Collect(entries: seq<SearchEntry>, query: string): (hs: (seq<Hit>, set<string>))
    ensures |hs.1| <= |hs.0| <= |entries|
  {
    if entries == [] then ([], {}) else Keep(Collect(entries[..|entries| - 1], query), entries[|entries| - 1], query)
  }

  /** The hits after one more entry are one more turn of the `forEach`. */
  lemma CollectStep(entries: seq<SearchEntry>, i: nat, query: string)
    requires i < |entries|
    ensures Collect(entries[..i + 1], query) == Keep(Collect(entries[..i], query), entries[i], query)
  {
    assert entries[..i + 1][..i] == entries[..i];
  }

  /** One turn of the `forEach`. */
  function Keep(prev: (seq<Hit>, set<string>), e: SearchEntry, query: string): (seq<Hit>, set<string>)
  {
    if Matches(e, ToLower(query)) && (Key(e) !in prev.1 || |prev.1| < 50) then
      (prev.0 + [Hit(e, Relevance(e.text, query, e.tagName))], prev.1 + {Key(e)})
    else prev
  }

  /** The keys of the matching entries. */
  function MatchKeys(entries: seq<SearchEntry>, lowerQuery: string): set<string>
  {
    if entries == [] then {}
    else
      var e := entries[|entries| - 1];
      MatchKeys(entries[..|entries| - 1], lowerQuery) + (if Matches(e, lowerQuery) then {Key(e)} else {})
  }

  /** A key is a match key exactly when some matching entry has it. */
  lemma {:induction false} MatchKeysMeaning(entries: seq<SearchEntry>, lowerQuery: string, k: string)
    ensures k in MatchKeys(entries, lowerQuery) <==>
              exists e :: e in entries && Matches(e, lowerQuery) && Key(e) == k
    decreases |entries|
  {
    if entries != [] {
      var init := entries[..|entries| - 1];
      var last := entries[|entries| - 1];
      MatchKeysMeaning(init, lowerQuery, k);
      assert entries == init + [last];
      assert forall e :: e in entries <==> e in init || e == last;
    }
  }

  /** The keys of a list of hits. */
  function HitKeys(hits: seq<Hit>): set<string>
  {
    if hits == [] then {} else HitKeys(hits[..|hits| - 1]) + {Key(hits[|hits| - 1].entry)}
  }

  /** Every matching entry, scored, in index order. */
  function AllMatches(entries: seq<SearchEntry>, query: string): (hits: seq<Hit>)
  {
    if entries == [] then []
    else
      var e := entries[|entries| - 1];
      AllMatches(entries[..|entries| - 1], query)
        + (if Matches(e, ToLower(query)) then [Hit(e, Relevance(e.text, query, e.tagName))] else [])
  }

  /** Every kept hit is a matching entry of the index with its own score. */
  lemma {:induction false} CollectSound(entries: seq<SearchEntry>, query: string, h: Hit)
    requires h in Collect(entries, query).0
    ensures h.entry in entries && Matches(h.entry, ToLower(query))
    ensures h.score == Relevance(h.entry.text, query, h.entry.tagName)
    decreases |entries|
  {
    var init := entries[..|entries| - 1];
    if h in Collect(init, query).0 {
      CollectSound(init, query, h);
    }
  }

  /** The keys seen are exactly the keys of the matching entries, and every one of them
      has a kept hit: no section of the index goes unrepresented. */
  lemma {:induction false} CollectKeys(entries: seq<SearchEntry>, query: string)
    ensures Collect(entries, query).1 == MatchKeys(entries, ToLower(query))
    ensures HitKeys(Collect(entries, query).0) == Collect(entries, query).1
    decreases |entries|
  {
    if entries != [] {
      var init := entries[..|entries| - 1];
      CollectKeys(init, query);
      KeepKeys(Collect(init, query), entries[|entries| - 1], query);
    }
  }

  /** The inductive step of `CollectKeys`: one more entry at the end. */
  lemma HitKeysSnoc(hits: seq<Hit>, h: Hit)
    ensures HitKeys(hits + [h]) == HitKeys(hits) + {Key(h.entry)}
  {
    assert (hits + [h])[..|hits|] == hits;
  }

  /** One turn of the `forEach` adds the entry's key when it matches, and keeps the hits'
      keys equal to the keys seen. */
  lemma KeepKeys(prev: (seq<Hit>, set<string>), e: SearchEntry, query: string)
    requires HitKeys(prev.0) == prev.1
    ensures Keep(prev, e, query).1 == prev.1 + (if Matches(e, ToLower(query)) then {Key(e)} else {})
    ensures HitKeys(Keep(prev, e, query).0) == Keep(prev, e, query).1
  {
    if Matches(e, ToLower(query)) && (Key(e) !in prev.1 || |prev.1| < 50) {
      HitKeysSnoc(prev.0, Hit(e, Relevance(e.text, query, e.tagName)));
    } else if Matches(e, ToLower(query)) {
      assert prev.1 + {Key(e)} == prev.1;
    }
  }

  lemma SubsetSize(a: set<string>, b: set<string>)
    requires a <= b
    ensures |a| <= |b|
  {
    var d := b - a;
    assert a * d == {};
    assert b == a + d;
  }

  /** While fewer than 50 distinct keys match, nothing is dropped. */
  lemma {:induction false} AllKeptBelowFifty(entries: seq<SearchEntry>, query: string)
    requires |MatchKeys(entries, ToLower(query))| < 50
    ensures Collect(entries, query).0 == AllMatches(entries, query)
    decreases |entries|
  {
    if entries != [] {
      var init := entries[..|entries| - 1];
      var lq := ToLower(query);
      SubsetSize(MatchKeys(init, lq), MatchKeys(entries, lq));
      AllKeptBelowFifty(init, query);
      CollectKeys(init, query);
    }
  }

  /** The comparator of src/scripts/search.js:152-155: by score, highest first, and then
      by day number. */
  function HitCompare(a: Hit, b: Hit): int
  {
    if b.score != a.score then b.score - a.score else a.entry.dayNum - b.entry.dayNum
  }

  /** "Sorts before or with": the comparator gives no positive value. */
  predicate HitLe(a: Hit, b: Hit)
    ensures HitLe(a, b) <==> HitCompare(a, b) <= 0
  {
    a.score > b.score || (a.score == b.score && a.entry.dayNum <= b.entry.dayNum)
  }

  lemma HitLeIsTotalPreorder()
    ensures TotalPreorder(HitLe)
  {
  }

  const MaxResults: nat := 30

  /** `performSearch(query)`: the kept hits, sorted, at most 30 of them. */
  function SearchResults(entries: seq<SearchEntry>, query: string): (r: seq<Hit>)
    ensures |r| <= MaxResults
  {
    var sorted := SortBy(Collect(entries, query).0, HitLe);
    if |sorted| <= MaxResults then sorted else sorted[..MaxResults]
  }

  /** Every result is a matching entry of the index, scored by `calculateRelevance`. */
  lemma SearchResultsSound(entries: seq<SearchEntry>, query: string, h: Hit)
    requires h in SearchResults(entries, query)
    ensures h.entry in entries && Contains(ToLower(h.entry.text), ToLower(query))
    ensures h.score == Relevance(h.entry.text, query, h.entry.tagName)
  {
    var hits := Collect(entries, query).0;
    var sorted := SortBy(hits, HitLe);
    assert h in sorted;
    assert h in multiset(sorted);
    CollectSound(entries, query, h);
  }

  /** The results run by score, highest first, and by day between equal scores. */
  lemma SearchResultsOrdered(entries: seq<SearchEntry>, query: string, i: nat, j: nat)
    requires i < j < |SearchResults(entries, query)|
    ensures SearchResults(entries, query)[i].score >= SearchResults(entries, query)[j].score
    ensures SearchResults(entries, query)[i].score == SearchResults(entries, query)[j].score ==>
              SearchResults(entries, query)[i].entry.dayNum <= SearchResults(entries, query)[j].entry.dayNum
  {
    var sorted := SortBy(Collect(entries, query).0, HitLe);
    HitLeIsTotalPreorder();
    SortBySorted(Collect(entries, query).0, HitLe);
    assert HitLe(sorted[i], sorted[j]);
  }

  /** The results are the best 30 of the kept hits: as many as there are, up to 30,
      drawn from the kept hits, and every kept hit left out sorts after every result. */
  lemma SearchResultsBest(entries: seq<SearchEntry>, query: string)
    ensures var kept, r := Collect(entries, query).0, SearchResults(entries, query);
            && |r| == (if |kept| <= MaxResults then |kept| else MaxResults)
            && multiset(r) <= multiset(kept)
            && forall h, i :: h in multiset(kept) - multiset(r) && 0 <= i < |r| ==> HitLe(r[i], h)
  {
    var kept := Collect(entries, query).0;
    var sorted := SortBy(kept, HitLe);
    var r := SearchResults(entries, query);
    if |sorted| > MaxResults {
      var rest := sorted[MaxResults..];
      assert sorted == r + rest;
      assert multiset(kept) == multiset(r) + multiset(rest);
      HitLeIsTotalPreorder();
      SortBySorted(kept, HitLe);
      forall h, i | h in multiset(kept) - multiset(r) && 0 <= i < |r| ensures HitLe(r[i], h) {
        assert h in multiset(rest);
        var j :| 0 <= j < |rest| && rest[j] == h;
        assert sorted[MaxResults + j] == h && sorted[i] == r[i];
      }
    }
  }

  /** With fewer than 50 matching sections and at most 30 matches, every match is a
      result. */
  lemma EveryMatchFound(entries: seq<SearchEntry>, query: string)
    requires |MatchKeys(entries, ToLower(query))| < 50
    requires |AllMatches(entries, query)| <= MaxResults
    ensures multiset(SearchResults(entries, query)) == multiset(AllMatches(entries, query))
  {
    AllKeptBelowFifty(entries, query);
  }

  // ---------------------------------------------------------------------------
  // The module-level state
  // ---------------------------------------------------------------------------

  /** The `%` of JavaScript: the remainder takes the sign of the dividend. */
  function JsRem(a: int, n: int): (r: int)
    requires n > 0
    ensures a >= 0 ==> 0 <= r < n
    ensures a < 0 ==> -n < r <= 0
    ensures (a - r) % n == 0
  {
    if a >= 0 then
      var q := a / n;
      assert a - a % n == n * q;
      ModOfMultiple(n, q);
      a % n
    else
      var q := (-a) / n;
      assert a - -((-a) % n) == n * -q;
      ModOfMultiple(n, -q);
      -((-a) % n)
  }

  /** A multiple of `n` leaves no remainder. */
  lemma ModOfMultiple(n: int, q: int)
    requires n > 0
    ensures (n * q) % n == 0
  {
    ModUnique(n * q, n, q, 0);
  }

  /** `navigateToNextResult` on the cursor, for `n` results. */
  function NextIndex(index: int, n: nat): (r: int)
    ensures n == 0 ==> r == index
    ensures n > 0 && -1 <= index < n ==> 0 <= r < n && (r == index + 1 || (index == n - 1 && r == 0))
  {
    if n == 0 then index
    else
      if -1 <= index < n - 1 then
        ModSmall(index + 1, n);
        JsRem(index + 1, n)
      else if index == n - 1 then
        ModDown(n, n);
        ModSmall(0, n);
        JsRem(index + 1, n)
      else JsRem(index + 1, n)
  }

  function Advance(index: int, n: nat, k: nat): int
  {
    if k == 0 then index else NextIndex(Advance(index, n, k - 1), n)
  }

  /** From the start, or from any valid position, `k` steps move the cursor `k`
      places round the list; after `n` steps it is back where it was. */
  lemma AdvanceCycles(index: int, n: nat, k: nat)
    requires n > 0 && -1 <= index < n
    ensures k > 0 || index >= 0 ==> Advance(index, n, k) == (index + k) % n
    ensures index >= 0 ==> Advance(index, n, n) == index
  {
    AdvanceSteps(index, n, k);
    if index >= 0 {
      ModSmall(index, n);
      AdvanceSteps(index, n, n);
      ModDown(index + n, n);
    }
  }

  lemma {:induction false} AdvanceSteps(index: int, n: nat, k: nat)
    requires n > 0 && -1 <= index < n
    ensures k > 0 ==> Advance(index, n, k) == (index + k) % n
    ensures k == 0 ==> Advance(index, n, k) == index
  {
    if k > 1 {
      AdvanceSteps(index, n, k - 1);
      ModSucc(index + k - 1, n);
    }
  }

  lemma MulAtLeast(n: int, d: int)
    requires n > 0 && d >= 1
    ensures n * d >= n
  {
  }

  /** The remainder is unique. */
  lemma ModUnique(x: int, n: int, q: int, r: int)
    requires n > 0 && 0 <= r < n && x == n * q + r
    ensures x % n == r
  {
    var q', r' := x / n, x % n;
    assert x == n * q' + r';
    assert n * (q - q') == r' - r;
    if q > q' { MulAtLeast(n, q - q'); }
    if q < q' { MulAtLeast(n, q' - q); }
  }

  lemma ModSmall(m: int, n: int)
    requires n > 0 && 0 <= m < n
    ensures m % n == m
  {
    ModUnique(m, n, 0, m);
  }

  lemma ModDown(m: int, n: int)
    requires n > 0 && m >= n
    ensures m % n == (m - n) % n
  {
    var q, r := (m - n) / n, (m - n) % n;
    assert m - n == n * q + r;
    assert m == n * (q + 1) + r;
    ModUnique(m, n, q + 1, r);
  }

  lemma {:induction false} ModSucc(m: nat, n: nat)
    requires n > 0
    ensures (m % n + 1) % n == (m + 1) % n
    decreases m
  {
    if m >= n {
      ModSucc(m - n, n);
      ModDown(m, n);
      ModDown(m + 1, n);
    } else if m + 1 < n {
      ModSmall(m, n);
      ModSmall(m + 1, n);
    } else {
      ModSmall(m, n);
      ModDown(m + 1, n);
      ModSmall(0, n);
    }
  }

  /** `searchIndex`, `currentResults` and `currentResultIndex`. */
  class SearchState {
    var searchIndex: seq<SearchEntry>
    var currentResults: seq<Hit>
    var currentResultIndex: int

    /** The cursor is either unset or on a result. */
    predicate Valid()
      reads this
    {
      currentResultIndex == -1 || 0 <= currentResultIndex < |currentResults|
    }

    constructor (index: seq<SearchEntry>)
      ensures searchIndex == index && currentResults == [] && currentResultIndex == -1
      ensures Valid()
    {
      searchIndex := index;
      currentResults := [];
      currentResultIndex := -1;
    }

    /** `performSearch(query)` over the index. */
    method PerformSearch(query: string) returns (results: seq<Hit>)
      ensures results == SearchResults(searchIndex, query)
    {
      var lowerQuery := ToLower(query);
      var hits: seq<Hit> := [];
      var seen: set<string> := {};
      var index := searchIndex;
      for i := 0 to |index|
        invariant (hits, seen) == Collect(index[..i], query)
      {
        var entry := index[i];
        ghost var before := (hits, seen);
        CollectStep(index, i, query);
        var found := IndexOf(ToLower(entry.text), lowerQuery).Some?;
        assert found == Matches(entry, ToLower(query));
        if found {
          var key := IntToString(entry.dayNum) + "-" + entry.section;
          assert key == Key(entry);
          if key !in seen || |seen| < 50 {
            var score := CalculateRelevance(entry.text, query, entry.tagName);
            hits := hits + [Hit(entry, score)];
            seen := seen + {key};
          }
        }
        assert (hits, seen) == Keep(before, entry, query);
      }
      assert index[..|index|] == index;
      var sorted := SortBy(hits, HitLe);
      results := if |sorted| <= MaxResults then sorted else sorted[..MaxResults];
    }

    /** `handleSearch` once the input's value is read: the old results and cursor are
        cleared, and only a trimmed query of two characters or more is searched. */
    method HandleSearch(value: string)
      modifies this
      ensures searchIndex == old(searchIndex)
      ensures currentResultIndex == -1
      ensures |Trim(value)| < 2 ==> currentResults == []
      ensures |Trim(value)| >= 2 ==> currentResults == SearchResults(searchIndex, Trim(value))
      ensures Valid()
    {
      var query := Trim(value);
      var results: seq<Hit> := [];
      if |query| >= 2 {
        results := PerformSearch(query);
      }
      currentResults, currentResultIndex := results, -1;
    }

    /** `navigateToNextResult`: nothing without results, otherwise the cursor moves one
        place round the list (the scrolling to it is left to the page). */
    method NavigateToNextResult()
      requires Valid()
      modifies this
      ensures searchIndex == old(searchIndex) && currentResults == old(currentResults)
      ensures currentResultIndex == NextIndex(old(currentResultIndex), |currentResults|)
      ensures currentResults != [] ==> 0 <= currentResultIndex < |currentResults|
      ensures old(currentResultIndex) == -1 && currentResults != [] ==> currentResultIndex == 0
      ensures Valid()
    {
      if |currentResults| == 0 {
        return;
      }
      currentResultIndex := JsRem(currentResultIndex + 1, |currentResults|);
    }
  }
}
