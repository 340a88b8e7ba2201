/** String operations that the transcript analyser of the training app applies to
    a transcript and to a catalog text, with the semantics JavaScript gives them:
    `trim`, `split(/\s+/)`, `split(' ')`, one-character regular-expression classes,
    and the global match of `/"([^"]+)"/g` followed by `replace(/"/g, '')`.
    The scans walk a position through one string, as the JavaScript engine does. */
module TextOps {

  /** `\s` in a JavaScript regular expression, and what `trim` removes:
      the WhiteSpace and LineTerminator code points of ECMAScript. */
  predicate IsSpace(c: char)
  {
    c == '\t' || c == '\n' || c == '\U{000B}' || c == '\U{000C}' || c == '\r' || c == ' ' ||
    c == '\U{00A0}' || c == '\U{1680}' || ('\U{2000}' <= c <= '\U{200A}') ||
    c == '\U{2028}' || c == '\U{2029}' || c == '\U{202F}' || c == '\U{205F}' ||
    c == '\U{3000}' || c == '\U{FEFF}'
  }

  predicate NoSpace(s: string)
  {
    forall i :: 0 <= i < |s| ==> !IsSpace(s[i])
  }

  predicate AllSpace(s: string)
  {
    forall i :: 0 <= i < |s| ==> IsSpace(s[i])
  }

  /** Index of the first character of `s` that satisfies `p`, or |s| when none does. */
  function Find(s: string, p: char -> bool): (i: nat)
    ensures i <= |s|
    ensures forall k :: 0 <= k < i ==> !p(s[k])
    ensures i < |s| ==> p(s[i])
    decreases |s|
  {
    if s == [] then 0
    else if p(s[0]) then 0
    else 1 + Find(s[1..], p)
  }

  /** `/[...]/.test(s)` for a regular expression made of one character class `p`. */
  function Occurs(s: string, p: char -> bool): (r: bool)
    ensures r <==> exists k :: 0 <= k < |s| && p(s[k])
  {
    Find(s, p) < |s|
  }

  // ---------------------------------------------------------------------------
  // scanning from a position
  // ---------------------------------------------------------------------------

  /** The first white-space position at or after `from`, or |s|. */
  function FindSpaceFrom(s: string, from: nat): (i: nat)
    requires from <= |s|
    ensures from <= i <= |s|
    ensures forall k :: from <= k < i ==> !IsSpace(s[k])
    ensures i < |s| ==> IsSpace(s[i])
    decreases |s| - from
  {
    if from == |s| || IsSpace(s[from]) then from else FindSpaceFrom(s, from + 1)
  }

  /** The first position at or after `from` that is not white space, or |s|. */
  function SkipSpaces(s: string, from: nat): (i: nat)
    requires from <= |s|
    ensures from <= i <= |s|
    ensures forall k :: from <= k < i ==> IsSpace(s[k])
    ensures i < |s| ==> !IsSpace(s[i])
    decreases |s| - from
  {
    if from == |s| || !IsSpace(s[from]) then from else SkipSpaces(s, from + 1)
  }

  /** Going back from `hi`, no further than `lo`: the start of the white-space run
      that ends at `hi`. */
  function SkipSpacesBack(s: string, lo: nat, hi: nat): (e: nat)
    requires lo <= hi <= |s|
    ensures lo <= e <= hi
    ensures forall k :: e <= k < hi ==> IsSpace(s[k])
    ensures lo < e ==> !IsSpace(s[e - 1])
    decreases hi
  {
    if hi == lo || !IsSpace(s[hi - 1]) then hi else SkipSpacesBack(s, lo, hi - 1)
  }

  /** The first position at or after `from` that holds `c`, or |s|. */
  function FindCharFrom(s: string, c: char, from: nat): (i: nat)
    requires from <= |s|
    ensures from <= i <= |s|
    ensures forall k :: from <= k < i ==> s[k] != c
    ensures i < |s| ==> s[i] == c
    decreases |s| - from
  {
    if from == |s| || s[from] == c then from else FindCharFrom(s, c, from + 1)
  }

  /** Where the text from `from` on is `g`, then `c`, then `rest`, and `g` holds no
      `c`, the scan for `c` stops right after `g`. */
  lemma FindCharPast(s: string, c: char, from: nat, g: string, rest: string)
    requires from <= |s| && s[from..] == g + ([c] + rest) && c !in g
    ensures from + |g| < |s|
    ensures FindCharFrom(s, c, from) == from + |g|
    ensures s[from..from + |g|] == g
    ensures s[from + |g| + 1..] == rest
  {
    var t := s[from..];
    assert forall k :: from <= k < from + |g| ==> s[k] == t[k - from] == g[k - from];
    assert s[from + |g|] == t[|g|] == c;
    assert s[from..from + |g|] == t[..|g|];
    assert s[from + |g| + 1..] == t[|g| + 1..];
  }

  /** Where the text from `from` on holds no `c`, the scan for `c` reaches the end. */
  lemma FindCharNone(s: string, c: char, from: nat)
    requires from <= |s| && c !in s[from..]
    ensures FindCharFrom(s, c, from) == |s|
  {
  }

  /** The text from `a` on, around position `i`. */
  lemma SliceAround(s: string, a: nat, i: nat)
    requires a <= i < |s|
    ensures s[a..] == s[a..i] + ([s[i]] + s[i + 1..])
  {
    assert s[a..] == s[a..i] + s[i..];
    assert s[i..] == [s[i]] + s[i + 1..];
  }

  /** The slice from `i` to `j`, both ends included. */
  lemma SliceEnclosed(s: string, i: nat, j: nat)
    requires i < j < |s|
    ensures s[i..j + 1] == [s[i]] + s[i + 1..j] + [s[j]]
  {
    assert s[i..j + 1] == s[i..j] + [s[j]];
    assert s[i..j] == [s[i]] + s[i + 1..j];
  }

  /** Two adjacent slices make one. */
  lemma SliceAppend<T>(s: seq<T>, a: nat, b: nat, c: nat)
    requires a <= b <= c <= |s|
    ensures s[a..b] + s[b..c] == s[a..c]
  {
  }

  // ---------------------------------------------------------------------------
  // trim
  // ---------------------------------------------------------------------------

  /** Where `s.trim()` starts in `s`. */
  function TrimStart(s: string): (a: nat)
    ensures a <= |s|
  {
    SkipSpaces(s, 0)
  }

  /** Where `s.trim()` ends in `s`. */
  function TrimEnd(s: string): (e: nat)
    ensures TrimStart(s) <= e <= |s|
  {
    SkipSpacesBack(s, TrimStart(s), |s|)
  }

  /** `s.trim()`. */
  function Trim(s: string): string
  {
    s[TrimStart(s)..TrimEnd(s)]
  }

  /** `s` is white space, then the trimmed text, then white space. */
  lemma TrimShape(s: string)
    ensures s == s[..TrimStart(s)] + Trim(s) + s[TrimEnd(s)..]
    ensures AllSpace(s[..TrimStart(s)]) && AllSpace(s[TrimEnd(s)..])
  {
    var a, e := TrimStart(s), TrimEnd(s);
    assert forall k :: 0 <= k < a ==> s[..a][k] == s[k];
    assert forall k :: 0 <= k < |s| - e ==> s[e..][k] == s[e + k];
    SliceAppend(s, 0, a, e);
    SliceAppend(s, 0, e, |s|);
  }

  /** The trimmed text neither starts nor ends with white space. */
  lemma TrimEnds(s: string)
    ensures Trim(s) != [] ==> !IsSpace(Trim(s)[0]) && !IsSpace(Trim(s)[|Trim(s)| - 1])
  {
    var a, e := TrimStart(s), TrimEnd(s);
    if a < e {
      assert Trim(s)[0] == s[a];
      assert Trim(s)[|Trim(s)| - 1] == s[e - 1];
    }
  }

  /** Trimming leaves nothing exactly when the text is all white space. */
  lemma TrimEmpty(s: string)
    ensures Trim(s) == [] <==> AllSpace(s)
  {
    var a, e := TrimStart(s), TrimEnd(s);
    if Trim(s) == [] {
      assert a == e;
      assert forall k :: 0 <= k < |s| ==> (k < a && IsSpace(s[k])) || (e <= k && IsSpace(s[k]));
    }
    if AllSpace(s) {
      assert a == |s|;
    }
  }

  // ---------------------------------------------------------------------------
  // split(/\s+/) and the words of a text
  // ---------------------------------------------------------------------------

  /** The pieces of `s.split(/\s+/)` from position `from` on. */
  function SplitRunsFrom(s: string, from: nat): (r: seq<string>)
    requires from <= |s|
    ensures |r| >= 1
    decreases |s| - from
  {
    var i := FindSpaceFrom(s, from);
    if i == |s| then [s[from..]]
    else [s[from..i]] + SplitRunsFrom(s, SkipSpaces(s, i))
  }

  /** `s.split(/\s+/)`: the pieces between maximal runs of white space. A leading
      or trailing run yields an empty first or last piece, and "" yields [""]. */
  function SplitOnSpaceRuns(s: string): seq<string>
  {
    SplitRunsFrom(s, 0)
  }

  /** The pieces of `s.split(/\s+/)` from `from` on hold no white space. */
  lemma {:induction false} SplitRunsNoSpace(s: string, from: nat)
    requires from <= |s|
    ensures forall k :: 0 <= k < |SplitRunsFrom(s, from)| ==> NoSpace(SplitRunsFrom(s, from)[k])
    decreases |s| - from
  {
    var i := FindSpaceFrom(s, from);
    assert forall k :: 0 <= k < i - from ==> s[from..i][k] == s[from + k];
    if i < |s| {
      SplitRunsNoSpace(s, SkipSpaces(s, i));
    }
  }

  /** No piece of `s.split(/\s+/)` holds white space. */
  lemma SplitOnSpaceRunsNoSpace(s: string)
    ensures forall k :: 0 <= k < |SplitOnSpaceRuns(s)| ==> NoSpace(SplitOnSpaceRuns(s)[k])
  {
    SplitRunsNoSpace(s, 0);
  }

  /** `calculateWordsPerMinute`: `text.trim().split(/\s+/).length` words over a
      fixed span of one minute. */
  function WordsPerMinute(text: string): (wpm: nat)
    ensures wpm >= 1
  {
    var words := |SplitOnSpaceRuns(Trim(text))|;
    var minutes := 1;
    words / minutes
  }

  /** Reference definition of a word: position `k` of `s` starts one when it holds
      a non-space character that is first in `s` or follows white space. */
  predicate IsWordStart(s: string, k: nat)
    requires k < |s|
  {
    !IsSpace(s[k]) && (k == 0 || IsSpace(s[k - 1]))
  }

  /** The number of word starts of `s` in [lo, hi). */
  function WordStartsIn(s: string, lo: nat, hi: nat): nat
    requires lo <= hi <= |s|
    decreases hi - lo
  {
    if hi == lo then 0
    else WordStartsIn(s, lo, hi - 1) + (if IsWordStart(s, hi - 1) then 1 else 0)
  }

  /** The number of words of `s`. */
  function WordCount(s: string): nat
  {
    WordStartsIn(s, 0, |s|)
  }

  lemma {:induction false} WordStartsSplit(s: string, lo: nat, m: nat, hi: nat)
    requires lo <= m <= hi <= |s|
    ensures WordStartsIn(s, lo, hi) == WordStartsIn(s, lo, m) + WordStartsIn(s, m, hi)
    decreases hi - m
  {
    if hi > m {
      WordStartsSplit(s, lo, m, hi - 1);
    }
  }

  /** White space starts no word. */
  lemma {:induction false} WordStartsOfSpaces(s: string, lo: nat, hi: nat)
    requires lo <= hi <= |s|
    requires forall k :: lo <= k < hi ==> IsSpace(s[k])
    ensures WordStartsIn(s, lo, hi) == 0
    decreases hi - lo
  {
    if hi > lo {
      WordStartsOfSpaces(s, lo, hi - 1);
    }
  }

  /** Inside a run of non-space characters only its first position can start a word. */
  lemma {:induction false} WordStartsOfWord(s: string, lo: nat, hi: nat)
    requires lo < hi <= |s|
    requires forall k :: lo <= k < hi ==> !IsSpace(s[k])
    ensures WordStartsIn(s, lo, hi) == if IsWordStart(s, lo) then 1 else 0
    decreases hi - lo
  {
    if hi > lo + 1 {
      WordStartsOfWord(s, lo, hi - 1);
    }
  }

  /** The word starts of the slice `s[a..e]` up to `m` are those of `s` from `a`,
      when the slice starts where `s` starts or after white space. */
  lemma {:induction false} WordStartsOfSlice(s: string, a: nat, e: nat, m: nat)
    requires a <= e <= |s| && m <= e - a
    requires a == 0 || IsSpace(s[a - 1])
    ensures WordStartsIn(s[a..e], 0, m) == WordStartsIn(s, a, a + m)
    decreases m
  {
    if m > 0 {
      WordStartsOfSlice(s, a, e, m - 1);
      var t := s[a..e];
      assert t[m - 1] == s[a + m - 1];
      assert m > 1 ==> t[m - 2] == s[a + m - 2];
    }
  }

  /** Splitting a text whose last character is not white space, from a word start
      on, yields one piece per word start. */
  lemma {:induction false} PiecesAreWords(t: string, from: nat)
    requires from < |t| && IsWordStart(t, from)
    requires !IsSpace(t[|t| - 1])
    ensures |SplitRunsFrom(t, from)| == WordStartsIn(t, from, |t|)
    decreases |t| - from
  {
    var i := FindSpaceFrom(t, from);
    if i == |t| {
      WordStartsOfWord(t, from, |t|);
    } else {
      var j := SkipSpaces(t, i);
      assert j < |t|;
      assert IsWordStart(t, j);
      PiecesAreWords(t, j);
      WordStartsOfWord(t, from, i);
      WordStartsOfSpaces(t, i, j);
      WordStartsSplit(t, from, i, |t|);
      WordStartsSplit(t, i, j, |t|);
    }
  }

  /** The word count of `calculateWordsPerMinute` is the number of words of the
      text, except that a text without any word still counts as one. */
  lemma WordsPerMinuteCountsWords(text: string)
    ensures WordsPerMinute(text) == if WordCount(text) == 0 then 1 else WordCount(text)
  {
    var a, e := TrimStart(text), TrimEnd(text);
    var t := Trim(text);
    WordStartsSplit(text, 0, a, |text|);
    WordStartsSplit(text, a, e, |text|);
    WordStartsOfSpaces(text, 0, a);
    WordStartsOfSpaces(text, e, |text|);
    if a == e {
      assert t == [];
      assert SplitOnSpaceRuns(t) == [[]];
    } else {
      assert t[0] == text[a] && t[|t| - 1] == text[e - 1];
      PiecesAreWords(t, 0);
      WordStartsOfSlice(text, a, e, e - a);
      assert IsWordStart(t, 0);
      WordStartsSplit(t, 0, 1, |t|);
    }
  }

  // ---------------------------------------------------------------------------
  // split(' ') and its inverse
  // ---------------------------------------------------------------------------

  /** The pieces of `s.split(sep)` from position `from` on. */
  function SplitOnFrom(s: string, sep: char, from: nat): (r: seq<string>)
    requires from <= |s|
    ensures |r| >= 1
    decreases |s| - from
  {
    var i := FindCharFrom(s, sep, from);
    if i == |s| then [s[from..]]
    else [s[from..i]] + SplitOnFrom(s, sep, i + 1)
  }

  /** `s.split(sep)` for a one-character separator: every piece between two
      separators, empty ones included; "" yields [""]. */
  function SplitOn(s: string, sep: char): seq<string>
  {
    SplitOnFrom(s, sep, 0)
  }

  /** `pieces.join(sep)`. */
  function Join(pieces: seq<string>, sep: char): string
  {
    if pieces == [] then []
    else if |pieces| == 1 then pieces[0]
    else pieces[0] + ([sep] + Join(pieces[1..], sep))
  }

  /** Joining a first piece to at least one more puts a separator between them. */
  lemma JoinCons(p: string, ps: seq<string>, sep: char)
    requires ps != []
    ensures Join([p] + ps, sep) == p + ([sep] + Join(ps, sep))
  {
    assert ([p] + ps)[1..] == ps;
  }

  /** No piece of `s.split(sep)` from `from` on holds the separator. */
  lemma {:induction false} SplitOnFromFree(s: string, sep: char, from: nat)
    requires from <= |s|
    ensures forall k :: 0 <= k < |SplitOnFrom(s, sep, from)| ==> sep !in SplitOnFrom(s, sep, from)[k]
    decreases |s| - from
  {
    var i := FindCharFrom(s, sep, from);
    assert forall k :: 0 <= k < i - from ==> s[from..i][k] == s[from + k];
    if i < |s| {
      SplitOnFromFree(s, sep, i + 1);
    }
  }

  /** No piece of `s.split(sep)` holds the separator. */
  lemma SplitOnPiecesFree(s: string, sep: char)
    ensures forall k :: 0 <= k < |SplitOn(s, sep)| ==> sep !in SplitOn(s, sep)[k]
  {
    SplitOnFromFree(s, sep, 0);
  }

  lemma {:induction false} JoinSplitOnFrom(s: string, sep: char, from: nat)
    requires from <= |s|
    ensures Join(SplitOnFrom(s, sep, from), sep) == s[from..]
    decreases |s| - from
  {
    var i := FindCharFrom(s, sep, from);
    if i < |s| {
      JoinSplitOnFrom(s, sep, i + 1);
      JoinCons(s[from..i], SplitOnFrom(s, sep, i + 1), sep);
      SliceAround(s, from, i);
    }
  }

  /** Joining the pieces of a split restores the text. */
  lemma JoinSplitOn(s: string, sep: char)
    ensures Join(SplitOn(s, sep), sep) == s
  {
    JoinSplitOnFrom(s, sep, 0);
  }

  lemma {:induction false} SplitOnFromJoin(s: string, sep: char, from: nat, pieces: seq<string>)
    requires from <= |s| && |pieces| >= 1
    requires forall k :: 0 <= k < |pieces| ==> sep !in pieces[k]
    requires s[from..] == Join(pieces, sep)
    ensures SplitOnFrom(s, sep, from) == pieces
    decreases |pieces|
  {
    if |pieces| == 1 {
      FindCharNone(s, sep, from);
    } else {
      var p := pieces[0];
      FindCharPast(s, sep, from, p, Join(pieces[1..], sep));
      SplitOnFromJoin(s, sep, from + |p| + 1, pieces[1..]);
    }
  }

  /** Splitting a join of separator-free pieces gives the pieces back. */
  lemma SplitOnJoin(pieces: seq<string>, sep: char)
    requires |pieces| >= 1
    requires forall k :: 0 <= k < |pieces| ==> sep !in pieces[k]
    ensures SplitOn(Join(pieces, sep), sep) == pieces
  {
    var s := Join(pieces, sep);
    assert s[0..] == s;
    SplitOnFromJoin(s, sep, 0, pieces);
  }

  // ---------------------------------------------------------------------------
  // quoted emphasis words
  // ---------------------------------------------------------------------------

  /** A match of `/"([^"]+)"/`: a quote, at least one other character, a quote. */
  predicate IsQuotedMatch(m: string)
  {
    |m| >= 3 && m[0] == '"' && m[|m| - 1] == '"' && forall k :: 0 < k < |m| - 1 ==> m[k] != '"'
  }

  /** Where the global expression `/"([^"]+)"/g` matches in `s` from position
      `from` on: the start and end of each match, quotes included, in order. An
      empty pair `""` is no match, and its second quote may open the next one; a
      quote that no later quote closes ends the search. */
  function QuotedSpansFrom(s: string, from: nat): (r: seq<(nat, nat)>)
    requires from <= |s|
    ensures forall k :: 0 <= k < |r| ==> from <= r[k].0 && r[k].0 + 3 <= r[k].1 <= |s|
    decreases |s| - from
  {
    var i := FindCharFrom(s, '"', from);
    if i == |s| then []
    else
      var j := FindCharFrom(s, '"', i + 1);
      if j == |s| then []
      else if j == i + 1 then QuotedSpansFrom(s, j)
      else [(i, j + 1)] + QuotedSpansFrom(s, j + 1)
  }

  /** `s.match(/"([^"]+)"/g) || []`: the text of each match. */
  function QuotedMatches(s: string): (r: seq<string>)
    ensures |r| == |QuotedSpansFrom(s, 0)|
  {
    var spans := QuotedSpansFrom(s, 0);
    seq(|spans|, k requires 0 <= k < |spans| => s[spans[k].0..spans[k].1])
  }

  /** The span from `a` to `b` is a quote, at least one other character and a
      quote, with no quote in between. */
  predicate IsQuotedSpan(s: string, span: (nat, nat))
  {
    var (a, b) := span;
    a + 3 <= b <= |s| && s[a] == '"' && s[b - 1] == '"' && forall m :: a < m < b - 1 ==> s[m] != '"'
  }

  predicate AllQuotedSpans(s: string, spans: seq<(nat, nat)>)
  {
    forall k :: 0 <= k < |spans| ==> IsQuotedSpan(s, spans[k])
  }

  lemma AllQuotedSpansCons(s: string, first: (nat, nat), rest: seq<(nat, nat)>)
    requires IsQuotedSpan(s, first) && AllQuotedSpans(s, rest)
    ensures AllQuotedSpans(s, [first] + rest)
  {
    var spans := [first] + rest;
    forall k | 1 <= k < |spans| ensures IsQuotedSpan(s, spans[k]) {
      assert spans[k] == rest[k - 1];
    }
  }

  lemma {:induction false} QuotedSpansFromShape(s: string, from: nat)
    requires from <= |s|
    ensures AllQuotedSpans(s, QuotedSpansFrom(s, from))
    decreases |s| - from
  {
    var i := FindCharFrom(s, '"', from);
    if i < |s| {
      var j := FindCharFrom(s, '"', i + 1);
      if j == i + 1 {
        QuotedSpansFromShape(s, j);
      } else if j < |s| {
        QuotedSpansFromShape(s, j + 1);
        AllQuotedSpansCons(s, (i, j + 1), QuotedSpansFrom(s, j + 1));
      }
    }
  }

  /** Every match is a quote, at least one other character, and a quote. */
  lemma QuotedMatchesShape(s: string)
    ensures forall k :: 0 <= k < |QuotedMatches(s)| ==> IsQuotedMatch(QuotedMatches(s)[k])
  {
    var spans := QuotedSpansFrom(s, 0);
    QuotedSpansFromShape(s, 0);
    forall k | 0 <= k < |spans| ensures IsQuotedMatch(s[spans[k].0..spans[k].1]) {
      assert IsQuotedSpan(s, spans[k]);
      var (a, b) := spans[k];
      var m := s[a..b];
      assert forall n :: 0 <= n < |m| ==> m[n] == s[a + n];
    }
  }

  /** `s.replace(/"/g, '')`. */
  function RemoveQuotes(s: string): (r: string)
    ensures '"' !in r
    ensures forall c :: c != '"' ==> (c in r <==> c in s)
  {
    if s == [] then []
    else (if s[0] == '"' then [] else [s[0]]) + RemoveQuotes(s[1..])
  }

  /** The emphasis words of a catalog text: its quoted substrings, quotes removed
      (`match(/"([^"]+)"/g)?.map(word => word.replace(/"/g, '')) || []`). */
  function EmphasisWords(content: string): seq<string>
  {
    var m := QuotedMatches(content);
    seq(|m|, k requires 0 <= k < |m| => RemoveQuotes(m[k]))
  }

  /** The emphasis words are not empty and hold no quote. */
  lemma EmphasisWordsShape(content: string)
    ensures forall k :: 0 <= k < |EmphasisWords(content)| ==>
      EmphasisWords(content)[k] != [] && '"' !in EmphasisWords(content)[k]
  {
    var m := QuotedMatches(content);
    QuotedMatchesShape(content);
    forall k | 0 <= k < |m| ensures RemoveQuotes(m[k]) != [] {
      assert m[k][1] in m[k];
    }
  }

  /** The markup convention of the catalog: each word wrapped in quotes, with the
      gaps around and between them. */
  function Markup(gaps: seq<string>, words: seq<string>): string
    requires |gaps| == |words| + 1
    decreases |words|
  {
    if words == [] then gaps[0]
    else gaps[0] + ("\"" + (words[0] + ("\"" + Markup(gaps[1..], words[1..]))))
  }

  /** Each word wrapped in quotes. */
  function Quoted(words: seq<string>): (r: seq<string>)
    ensures |r| == |words|
    ensures forall k :: 0 <= k < |words| ==> r[k] == "\"" + words[k] + "\""
  {
    if words == [] then [] else ["\"" + words[0] + "\""] + Quoted(words[1..])
  }

  lemma {:induction false} RemoveQuotesOfQuoteFree(w: string)
    requires '"' !in w
    ensures RemoveQuotes(w) == w
  {
    if w != [] {
      RemoveQuotesOfQuoteFree(w[1..]);
      assert w == [w[0]] + w[1..];
    }
  }

  lemma RemoveQuotesOfQuoted(w: string)
    requires '"' !in w
    ensures RemoveQuotes("\"" + w + "\"") == w
  {
    var q := "\"" + w + "\"";
    assert q[1..] == w + "\"";
    RemoveQuotesAppend(w, "\"");
    RemoveQuotesOfQuoteFree(w);
  }

  lemma {:induction false} RemoveQuotesAppend(a: string, b: string)
    ensures RemoveQuotes(a + b) == RemoveQuotes(a) + RemoveQuotes(b)
  {
    if a != [] {
      assert (a + b)[0] == a[0];
      assert (a + b)[1..] == a[1..] + b;
      RemoveQuotesAppend(a[1..], b);
    } else {
      assert a + b == b;
    }
  }

  /** A pair of quotes at `i` and `j` with at least one character between them,
      found from `from` on, is the next match, and the search goes on right after
      the closing quote. */
  lemma QuotedSpansAt(s: string, from: nat, i: nat, j: nat, next: nat)
    requires from <= i && i + 1 < j < |s| && next == j + 1
    requires FindCharFrom(s, '"', from) == i && FindCharFrom(s, '"', i + 1) == j
    ensures QuotedSpansFrom(s, from) == [(i, next)] + QuotedSpansFrom(s, next)
  {
  }

  /** Where the text from `from` on is a quote-free gap, a quote, a quote-free word,
      a quote and a tail, the scans find the two quotes around the word. */
  lemma QuotesAround(s: string, from: nat, g: string, w: string, tail: string)
    requires from <= |s| && s[from..] == g + ("\"" + (w + ("\"" + tail)))
    requires '"' !in g && '"' !in w
    ensures from + |g| + |w| + 2 <= |s|
    ensures FindCharFrom(s, '"', from) == from + |g|
    ensures FindCharFrom(s, '"', from + |g| + 1) == from + |g| + |w| + 1
    ensures s[from + |g|..from + |g| + |w| + 2] == "\"" + w + "\""
    ensures s[from + |g| + |w| + 2..] == tail
  {
    FindCharPast(s, '"', from, g, w + ("\"" + tail));
    var i := from + |g|;
    FindCharPast(s, '"', i + 1, w, tail);
    SliceEnclosed(s, i, i + 1 + |w|);
  }

  /** The spans cut from `s` exactly the given words, each in quotes. */
  predicate SpansSpell(s: string, spans: seq<(nat, nat)>, words: seq<string>)
  {
    |spans| == |words| &&
    forall k :: 0 <= k < |spans| ==>
      spans[k].0 <= spans[k].1 <= |s| && s[spans[k].0..spans[k].1] == "\"" + words[k] + "\""
  }

  lemma SpansSpellCons(s: string, first: (nat, nat), rest: seq<(nat, nat)>, words: seq<string>)
    requires |words| >= 1 && first.0 <= first.1 <= |s|
    requires s[first.0..first.1] == "\"" + words[0] + "\""
    requires SpansSpell(s, rest, words[1..])
    ensures SpansSpell(s, [first] + rest, words)
  {
    var spans := [first] + rest;
    forall k | 1 <= k < |spans|
      ensures spans[k].0 <= spans[k].1 <= |s| && s[spans[k].0..spans[k].1] == "\"" + words[k] + "\""
    {
      assert spans[k] == rest[k - 1] && words[k] == words[1..][k - 1];
    }
  }

  lemma {:induction false} QuotedSpansFromMarkup(s: string, from: nat, gaps: seq<string>, words: seq<string>)
    requires from <= |s| && |gaps| == |words| + 1 && s[from..] == Markup(gaps, words)
    requires forall k :: 0 <= k < |gaps| ==> '"' !in gaps[k]
    requires forall k :: 0 <= k < |words| ==> words[k] != [] && '"' !in words[k]
    ensures SpansSpell(s, QuotedSpansFrom(s, from), words)
    decreases |words|
  {
    if words == [] {
      FindCharNone(s, '"', from);
    } else {
      var g, w := gaps[0], words[0];
      var tail := Markup(gaps[1..], words[1..]);
      QuotesAround(s, from, g, w, tail);
      var i, next := from + |g|, from + |g| + |w| + 2;
      QuotedSpansAt(s, from, i, next - 1, next);
      QuotedSpansFromMarkup(s, next, gaps[1..], words[1..]);
      SpansSpellCons(s, (i, next), QuotedSpansFrom(s, next), words);
    }
  }

  /** The matches in a marked-up text are its words, each in quotes. */
  lemma QuotedMatchesOfMarkup(gaps: seq<string>, words: seq<string>)
    requires |gaps| == |words| + 1
    requires forall k :: 0 <= k < |gaps| ==> '"' !in gaps[k]
    requires forall k :: 0 <= k < |words| ==> words[k] != [] && '"' !in words[k]
    ensures QuotedMatches(Markup(gaps, words)) == Quoted(words)
  {
    var s := Markup(gaps, words);
    assert s[0..] == s;
    QuotedSpansFromMarkup(s, 0, gaps, words);
  }

  /** Extracting the emphasis words inverts the markup convention, as long as the
      words are not empty and neither they nor the gaps hold a quote. */
  lemma EmphasisWordsOfMarkup(gaps: seq<string>, words: seq<string>)
    requires |gaps| == |words| + 1
    requires forall k :: 0 <= k < |gaps| ==> '"' !in gaps[k]
    requires forall k :: 0 <= k < |words| ==> words[k] != [] && '"' !in words[k]
    ensures EmphasisWords(Markup(gaps, words)) == words
  {
    QuotedMatchesOfMarkup(gaps, words);
    var e := EmphasisWords(Markup(gaps, words));
    forall k | 0 <= k < |words| ensures e[k] == words[k] {
      RemoveQuotesOfQuoted(words[k]);
    }
  }
}
