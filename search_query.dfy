/**
 * The search-box parser `parseSearchQuery` (app.js:428-460): quoted phrases
 * become exact terms, the rest of the query is split into keywords.
 *
 * The phrase pattern `/"([^"]+)"/g` matches, at a double quote, the text up
 * to the next double quote, provided that text is non-empty. `exec` in a loop
 * and the global `replace` both visit the leftmost matches in turn, each
 * search resuming just after the previous match.
 */
module SearchQuery {
  import opened Common
  import opened Text

  /** A phrase match: the opening and the closing double quote. */
  datatype Span = Span(open: nat, close: nat)

  /** First index at or after `from` holding a double quote. */
  function NextQuoteChar(s: string, from: nat): (r: Option<nat>)
    requires from <= |s|
    ensures r.Some? ==> from <= r.value < |s| && s[r.value] == '"'
    decreases |s| - from
  {
    if from == |s| then None
    else if s[from] == '"' then Some(from)
    else NextQuoteChar(s, from + 1)
  }

  /** `NextQuoteChar` skips no double quote. */
  lemma {:induction false} NextQuoteCharFirst(s: string, from: nat)
    requires from <= |s|
    ensures NextQuoteChar(s, from).Some? ==> forall k :: from <= k < NextQuoteChar(s, from).value ==> s[k] != '"'
    ensures NextQuoteChar(s, from).None? ==> forall k :: from <= k < |s| ==> s[k] != '"'
    decreases |s| - from
  {
    if from < |s| && s[from] != '"' {
      NextQuoteCharFirst(s, from + 1);
    }
  }

  /** The phrase pattern tried at index `p` exactly. */
  function QuoteAt(s: string, p: nat): (r: Option<Span>)
    requires p <= |s|
    ensures r.Some? <==>
      p < |s| && s[p] == '"' && NextQuoteChar(s, p + 1).Some? && NextQuoteChar(s, p + 1).value > p + 1
    ensures r.Some? ==> r.value.open == p && p + 1 < r.value.close < |s|
    ensures r.Some? ==> s[p] == '"' && s[r.value.close] == '"'
  {
    if p < |s| && s[p] == '"' then
      match NextQuoteChar(s, p + 1)
      case Some(q) => if q > p + 1 then Some(Span(p, q)) else None
      case None => None
    else None
  }

  /** The text a phrase match encloses holds no double quote (`[^"]+`). */
  lemma QuoteAtNoInnerQuote(s: string, p: nat)
    requires p <= |s| && QuoteAt(s, p).Some?
    ensures forall k :: p < k < QuoteAt(s, p).value.close ==> s[k] != '"'
  {
    NextQuoteCharFirst(s, p + 1);
  }

  /** `quoteRegex.exec` with `lastIndex == from`: the leftmost phrase match at or after `from`. */
  function NextQuote(s: string, from: nat): (r: Option<Span>)
    requires from <= |s|
    ensures r.Some? ==> from <= r.value.open <= |s| && QuoteAt(s, r.value.open) == r
    decreases |s| - from
  {
    if QuoteAt(s, from).Some? then QuoteAt(s, from)
    else if from < |s| then NextQuote(s, from + 1)
    else None
  }

  /** `NextQuote` finds the leftmost match: there is none before it, and none at all when it finds nothing. */
  lemma {:induction false} NextQuoteLeftmost(s: string, from: nat)
    requires from <= |s|
    ensures NextQuote(s, from).Some? ==> forall p :: from <= p < NextQuote(s, from).value.open ==> QuoteAt(s, p).None?
    ensures NextQuote(s, from).None? ==> forall p :: from <= p <= |s| ==> QuoteAt(s, p).None?
    decreases |s| - from
  {
    if QuoteAt(s, from).None? && from < |s| {
      NextQuoteLeftmost(s, from + 1);
    }
  }

  /** The spans lie inside `s` and each encloses at least one character. */
  predicate SpansIn(s: string, spans: seq<Span>) {
    forall i :: 0 <= i < |spans| ==> spans[i].open < spans[i].close <= |s|
  }

  /** Every phrase match at or after `from`, in the order the global search finds them. */
  function QuotedSpans(s: string, from: nat): (r: seq<Span>)
    requires from <= |s|
    ensures forall i :: 0 <= i < |r| ==> from <= r[i].open && r[i].open + 1 < r[i].close < |s|
    ensures forall i, j :: 0 <= i < j < |r| ==> r[i].close < r[j].open
    decreases |s| - from
  {
    match NextQuote(s, from)
    case None => []
    case Some(sp) => [sp] + QuotedSpans(s, sp.close + 1)
  }

  /** The first phrase match from `from`, followed by the matches after it. */
  lemma QuotedSpansStep(s: string, from: nat) returns (sp: Span, rest: seq<Span>)
    requires from <= |s| && NextQuote(s, from).Some?
    ensures sp == NextQuote(s, from).value && sp.close + 1 <= |s|
    ensures rest == QuotedSpans(s, sp.close + 1)
    ensures QuotedSpans(s, from) == [sp] + rest
  {
    sp := NextQuote(s, from).value;
    rest := QuotedSpans(s, sp.close + 1);
  }

  /** A position inside the first match is covered by the first span. */
  lemma CoveredByFirst(s: string, from: nat, p: nat)
    requires from <= |s| && NextQuote(s, from).Some?
    requires NextQuote(s, from).value.open <= p <= NextQuote(s, from).value.close
    ensures 0 < |QuotedSpans(s, from)|
    ensures QuotedSpans(s, from)[0].open <= p <= QuotedSpans(s, from)[0].close
  {
    var sp, rest := QuotedSpansStep(s, from);
  }

  /** A position covered by the `k`-th span after the first match is covered by the `k + 1`-th span. */
  lemma CoveredByLater(s: string, from: nat, p: nat, k: nat)
    requires from <= |s| && NextQuote(s, from).Some?
    requires NextQuote(s, from).value.close + 1 <= |s|
    requires k < |QuotedSpans(s, NextQuote(s, from).value.close + 1)|
    requires QuotedSpans(s, NextQuote(s, from).value.close + 1)[k].open <= p
    requires p <= QuotedSpans(s, NextQuote(s, from).value.close + 1)[k].close
    ensures k + 1 < |QuotedSpans(s, from)|
    ensures QuotedSpans(s, from)[k + 1].open <= p <= QuotedSpans(s, from)[k + 1].close
  {
    var sp, rest := QuotedSpansStep(s, from);
    assert QuotedSpans(s, from)[k + 1] == rest[k];
  }

  /** Whether the chain of leftmost matches from `from` reaches a match around `p`. */
  ghost predicate Reached(s: string, from: nat, p: nat)
    requires from <= |s|
    decreases |s| - from
  {
    match NextQuote(s, from)
    case None => false
    case Some(sp) => (sp.open <= p <= sp.close) || (sp.close + 1 <= |s| && Reached(s, sp.close + 1, p))
  }

  /** The leftmost match from `from` starts no later than any match start `p` at or after `from`. */
  lemma NextQuoteNoLater(s: string, from: nat, p: nat)
    requires from <= p < |s| && QuoteAt(s, p).Some?
    ensures NextQuote(s, from).Some? && NextQuote(s, from).value.open <= p
  {
    NextQuoteLeftmost(s, from);
  }

  /** `Reached` unfolded one step, for a chain that has a first match. */
  lemma ReachedUnfold(s: string, from: nat, p: nat)
    requires from <= |s| && NextQuote(s, from).Some?
    ensures NextQuote(s, from).value.close + 1 <= |s|
    ensures Reached(s, from, p) <==>
      (NextQuote(s, from).value.open <= p <= NextQuote(s, from).value.close) ||
      Reached(s, NextQuote(s, from).value.close + 1, p)
  {
  }

  /** The chain reaches every position of its first match. */
  lemma ReachedFirst(s: string, from: nat, p: nat)
    requires from <= |s| && NextQuote(s, from).Some?
    requires NextQuote(s, from).value.open <= p <= NextQuote(s, from).value.close
    ensures Reached(s, from, p)
  {
  }

  /** The chain reaches whatever the chain after its first match reaches. */
  lemma ReachedLater(s: string, from: nat, p: nat)
    requires from <= |s| && NextQuote(s, from).Some?
    requires NextQuote(s, from).value.close + 1 <= |s|
    requires Reached(s, NextQuote(s, from).value.close + 1, p)
    ensures Reached(s, from, p)
  {
  }

  /** The chain of leftmost matches from `from` reaches every match start at or after `from`. */
  lemma {:induction false} MatchReached(s: string, from: nat, p: nat)
    requires from <= p < |s| && QuoteAt(s, p).Some?
    ensures Reached(s, from, p)
    decreases |s| - from
  {
    NextQuoteNoLater(s, from, p);
    if NextQuote(s, from).value.close < p {
      MatchReached(s, NextQuote(s, from).value.close + 1, p);
      ReachedLater(s, from, p);
    } else {
      ReachedFirst(s, from, p);
    }
  }

  /** A position the chain reaches is covered by one of the spans found, the `i`-th. */
  lemma {:induction false} ReachedCovered(s: string, from: nat, p: nat) returns (i: nat)
    requires from <= |s| && Reached(s, from, p)
    ensures i < |QuotedSpans(s, from)|
    ensures QuotedSpans(s, from)[i].open <= p <= QuotedSpans(s, from)[i].close
    decreases |s| - from
  {
    assert NextQuote(s, from).Some?;
    ReachedUnfold(s, from, p);
    if NextQuote(s, from).value.open <= p <= NextQuote(s, from).value.close {
      CoveredByFirst(s, from, p);
      i := 0;
    } else {
      var k := ReachedCovered(s, NextQuote(s, from).value.close + 1, p);
      CoveredByLater(s, from, p, k);
      i := k + 1;
    }
  }

  /** Every phrase match at or after `from` lies within one of the spans found, the `i`-th. */
  lemma QuotedSpansComplete(s: string, from: nat, p: nat) returns (i: nat)
    requires from <= p < |s| && QuoteAt(s, p).Some?
    ensures i < |QuotedSpans(s, from)|
    ensures QuotedSpans(s, from)[i].open <= p <= QuotedSpans(s, from)[i].close
  {
    MatchReached(s, from, p);
    i := ReachedCovered(s, from, p);
  }

  /** Spans in order, each after `from` and inside `s`, none overlapping the next. */
  ghost predicate SpansAfter(s: string, from: nat, spans: seq<Span>) {
    && (forall i :: 0 <= i < |spans| ==> from <= spans[i].open < spans[i].close < |s|)
    && (forall i, j :: 0 <= i < j < |spans| ==> spans[i].close < spans[j].open)
  }

  /**
   * `s[from..]` with each span, quotes included, replaced by one space. A
   * span that does not lie after the previous one ends the replacement;
   * `QuotedSpansAfter` shows the phrase matches never do.
   */
  function ReplaceSpans(s: string, from: nat, spans: seq<Span>): string
    requires from <= |s|
    decreases |spans|
  {
    if spans == [] || !(from <= spans[0].open < spans[0].close < |s|) then s[from..]
    else s[from..spans[0].open] + " " + ReplaceSpans(s, spans[0].close + 1, spans[1..])
  }

  /** `processedQuery.replace(quoteRegex, ' ')` on the part of `s` from `from`. */
  function RemoveQuoted(s: string, from: nat): (r: string)
    requires from <= |s|
    ensures |r| <= |s| - from
    ensures NextQuote(s, from).None? ==> r == s[from..]
    decreases |s| - from
  {
    match NextQuote(s, from)
    case None => s[from..]
    case Some(sp) => s[from..sp.open] + " " + RemoveQuoted(s, sp.close + 1)
  }

  /** The phrase matches from `from` are spans after `from`, in order, none overlapping the next. */
  lemma QuotedSpansAfter(s: string, from: nat)
    requires from <= |s|
    ensures SpansAfter(s, from, QuotedSpans(s, from))
  {
  }

  /** `ReplaceSpans` over the phrase matches, unfolded at the leftmost match. */
  lemma ReplaceQuotedCons(s: string, from: nat)
    requires from <= |s| && NextQuote(s, from).Some?
    ensures from <= NextQuote(s, from).value.open < NextQuote(s, from).value.close < |s|
    ensures ReplaceSpans(s, from, QuotedSpans(s, from)) ==
      s[from..NextQuote(s, from).value.open] + " " +
      ReplaceSpans(s, NextQuote(s, from).value.close + 1, QuotedSpans(s, NextQuote(s, from).value.close + 1))
  {
    var sp, rest := QuotedSpansStep(s, from);
    ReplaceSpansCons(s, from, QuotedSpans(s, from), sp, rest);
  }

  /** `ReplaceSpans` unfolded at a first span that lies after `from`. */
  lemma ReplaceSpansCons(s: string, from: nat, spans: seq<Span>, first: Span, rest: seq<Span>)
    requires from <= first.open < first.close < |s| && spans == [first] + rest
    ensures ReplaceSpans(s, from, spans) == s[from..first.open] + " " + ReplaceSpans(s, first.close + 1, rest)
  {
    assert spans[0] == first && spans[1..] == rest;
  }

  /** `RemoveQuoted` unfolded at the leftmost match. */
  lemma RemoveQuotedCons(s: string, from: nat)
    requires from <= |s| && NextQuote(s, from).Some?
    ensures from <= NextQuote(s, from).value.open < NextQuote(s, from).value.close < |s|
    ensures RemoveQuoted(s, from) ==
      s[from..NextQuote(s, from).value.open] + " " + RemoveQuoted(s, NextQuote(s, from).value.close + 1)
  {
  }

  /** The replacement agrees with the spans from `from` once it agrees after the leftmost match. */
  lemma ReplacesSpansStep(s: string, from: nat)
    requires from <= |s| && NextQuote(s, from).Some? && NextQuote(s, from).value.close < |s|
    requires RemoveQuoted(s, NextQuote(s, from).value.close + 1) ==
      ReplaceSpans(s, NextQuote(s, from).value.close + 1, QuotedSpans(s, NextQuote(s, from).value.close + 1))
    ensures RemoveQuoted(s, from) == ReplaceSpans(s, from, QuotedSpans(s, from))
  {
    RemoveQuotedCons(s, from);
    ReplaceQuotedCons(s, from);
  }

  /** With no match left, there are no spans and nothing is replaced. */
  lemma NoMatchNoSpans(s: string, from: nat)
    requires from <= |s| && NextQuote(s, from).None?
    ensures QuotedSpans(s, from) == []
    ensures RemoveQuoted(s, from) == s[from..] == ReplaceSpans(s, from, [])
  {
  }

  /**
   * The replacement visits the same matches as the `exec` loop: it turns
   * each span of `QuotedSpans` into one space and keeps the text between them.
   */
  lemma {:induction false} RemoveQuotedReplacesSpans(s: string, from: nat)
    requires from <= |s|
    ensures RemoveQuoted(s, from) == ReplaceSpans(s, from, QuotedSpans(s, from))
    decreases |s| - from
  {
    if NextQuote(s, from).Some? {
      ReplaceQuotedCons(s, from);
      RemoveQuotedReplacesSpans(s, NextQuote(s, from).value.close + 1);
      ReplacesSpansStep(s, from);
    } else {
      NoMatchNoSpans(s, from);
    }
  }

  /** The trimmed text between the quotes of a phrase match (`match[1].trim()`). */
  function Phrase(s: string, sp: Span): string
    requires sp.open < sp.close <= |s|
  {
    Trim(s[sp.open + 1..sp.close])
  }

  /** Text with no whitespace at either end (what `trim` leaves), and not empty. */
  predicate IsTrimmedNonEmpty(t: string) {
    |t| > 0 && !IsSpace(t[0]) && !IsSpace(t[|t| - 1])
  }

  /** The exact term one phrase match gives, if its trimmed phrase is not empty. */
  function PhraseTerms(s: string, sp: Span): (r: seq<SearchTerm>)
    requires sp.open < sp.close <= |s|
    ensures |r| <= 1
    ensures forall i :: 0 <= i < |r| ==> r[i].isExact && IsTrimmedNonEmpty(r[i].term)
  {
    var p := Phrase(s, sp);
    if p != [] then [SearchTerm(p, true)] else []
  }

  /**
   * A phrase match gives no term exactly when only whitespace lies between
   * its quotes, and otherwise the one exact term holding its trimmed phrase.
   */
  lemma PhraseTermsExact(s: string, sp: Span)
    requires sp.open < sp.close <= |s|
    ensures PhraseTerms(s, sp) == [] <==> AllSpace(s[sp.open + 1..sp.close])
    ensures PhraseTerms(s, sp) != [] ==> PhraseTerms(s, sp) == [SearchTerm(Phrase(s, sp), true)]
  {
  }

  /** The exact terms the phrase matches give: each non-empty trimmed phrase, in order. */
  function ExactTerms(s: string, spans: seq<Span>): (r: seq<SearchTerm>)
    requires SpansIn(s, spans)
    ensures |r| <= |spans|
    ensures forall i :: 0 <= i < |r| ==> r[i].isExact && IsTrimmedNonEmpty(r[i].term)
  {
    if spans == [] then []
    else
      PhraseTerms(s, spans[0]) + ExactTerms(s, spans[1..])
  }

  /**
   * Each span contributes its own phrase's terms, in span order: the `k`-th
   * span's terms come right after those of the spans before it.
   */
  lemma ExactTermsAt(s: string, spans: seq<Span>, k: nat)
    requires SpansIn(s, spans) && k < |spans|
    ensures SpansIn(s, spans[..k]) && SpansIn(s, spans[k + 1..])
    ensures ExactTerms(s, spans) == ExactTerms(s, spans[..k]) + PhraseTerms(s, spans[k]) + ExactTerms(s, spans[k + 1..])
  {
    SpansInSlices(s, spans, k);
    ExactTermsAppend(s, spans[..k], spans[k..]);
    ExactTermsCons(s, spans[k..]);
    assert spans[k..][1..] == spans[k + 1..];
    AppendAssociative(ExactTerms(s, spans[..k]), PhraseTerms(s, spans[k]), ExactTerms(s, spans[k + 1..]));
  }

  /** The spans before and from an index lie inside `s` as all the spans do. */
  lemma SpansInSlices(s: string, spans: seq<Span>, k: nat)
    requires SpansIn(s, spans) && k < |spans|
    ensures SpansIn(s, spans[..k]) && SpansIn(s, spans[k..]) && SpansIn(s, spans[k + 1..])
    ensures spans[..k] + spans[k..] == spans && spans[k..][0] == spans[k]
  {
  }

  /** `ExactTerms` unfolded at its first span. */
  lemma ExactTermsCons(s: string, spans: seq<Span>)
    requires SpansIn(s, spans) && spans != []
    ensures SpansIn(s, spans[1..])
    ensures ExactTerms(s, spans) == PhraseTerms(s, spans[0]) + ExactTerms(s, spans[1..])
  {
  }

  /** The keyword terms: one per word, in order. */
  function KeywordTerms(words: seq<string>): (r: seq<SearchTerm>)
    ensures |r| == |words|
    ensures forall i :: 0 <= i < |r| ==> r[i] == SearchTerm(words[i], false)
  {
    seq(|words|, i requires 0 <= i < |words| => SearchTerm(words[i], false))
  }

  /**
   * What `parseSearchQuery` returns: nothing for a blank query; otherwise
   * the exact terms of the trimmed query followed by the words of what is
   * left once the phrases are replaced by spaces.
   */
  function ParsedQuery(query: string): (r: seq<SearchTerm>)
    ensures Trim(query) == [] ==> r == []
    ensures forall i, j :: 0 <= i < j < |r| && !r[i].isExact ==> !r[j].isExact
    ensures forall i :: 0 <= i < |r| ==> IsTrimmedNonEmpty(r[i].term)
    ensures forall i :: 0 <= i < |r| && !r[i].isExact ==> NoSpace(r[i].term)
  {
    var n := Trim(query);
    if n == [] then []
    else
      var exact := ExactTerms(n, QuotedSpans(n, 0));
      var words := Words(Trim(RemoveQuoted(n, 0)));
      var keywords := KeywordTerms(words);
      KeywordsShape(words);
      ExactThenKeywords(exact, keywords);
      exact + keywords
  }

  /** A word is a trimmed, non-empty keyword without inner whitespace. */
  lemma KeywordsShape(words: seq<string>)
    requires forall k :: 0 <= k < |words| ==> |words[k]| > 0
    requires forall k, i :: 0 <= k < |words| && 0 <= i < |words[k]| ==> !IsSpace(words[k][i])
    ensures forall i :: 0 <= i < |KeywordTerms(words)| ==>
      var t := KeywordTerms(words)[i]; !t.isExact && IsTrimmedNonEmpty(t.term) && NoSpace(t.term)
  {
    forall i | 0 <= i < |words|
      ensures IsTrimmedNonEmpty(words[i]) && NoSpace(words[i])
    {
      var w := words[i];
      assert !IsSpace(w[0]) && !IsSpace(w[|w| - 1]);
    }
  }

  /** Exact terms followed by keyword terms keep every exact term ahead of every keyword. */
  lemma ExactThenKeywords(exact: seq<SearchTerm>, keywords: seq<SearchTerm>)
    requires forall i :: 0 <= i < |exact| ==> exact[i].isExact && IsTrimmedNonEmpty(exact[i].term)
    requires forall i :: 0 <= i < |keywords| ==>
      !keywords[i].isExact && IsTrimmedNonEmpty(keywords[i].term) && NoSpace(keywords[i].term)
    ensures var r := exact + keywords;
      && (forall i, j :: 0 <= i < j < |r| && !r[i].isExact ==> !r[j].isExact)
      && (forall i :: 0 <= i < |r| ==> IsTrimmedNonEmpty(r[i].term))
      && (forall i :: 0 <= i < |r| && !r[i].isExact ==> NoSpace(r[i].term))
  {
  }

  lemma SpansInAppend(s: string, a: seq<Span>, b: seq<Span>)
    requires SpansIn(s, a) && SpansIn(s, b)
    ensures SpansIn(s, a + b)
  {
  }

  /** Exact terms of consecutive runs of matches are the concatenation of each run's exact terms. */
  lemma {:induction false} ExactTermsAppend(s: string, a: seq<Span>, b: seq<Span>)
    requires SpansIn(s, a) && SpansIn(s, b)
    ensures SpansIn(s, a + b)
    ensures ExactTerms(s, a + b) == ExactTerms(s, a) + ExactTerms(s, b)
    decreases |a|
  {
    SpansInAppend(s, a, b);
    if a == [] {
      assert a + b == b;
    } else {
      var ab := a + b;
      assert ab[0] == a[0] && ab[1..] == a[1..] + b;
      assert SpansIn(s, a[1..]);
      ExactTermsAppend(s, a[1..], b);
      var head, tail, rest := PhraseTerms(s, a[0]), ExactTerms(s, a[1..]), ExactTerms(s, b);
      assert ExactTerms(s, ab) == head + ExactTerms(s, a[1..] + b);
      assert ExactTerms(s, a) == head + tail;
      AppendAssociative(head, tail, rest);
    }
  }

  /** Text without double quotes has no phrase match, so removing phrases leaves it as it is. */
  lemma NoQuotesNoMatches(s: string)
    requires forall i :: 0 <= i < |s| ==> s[i] != '"'
    ensures QuotedSpans(s, 0) == [] && RemoveQuoted(s, 0) == s
  {
    assert forall p :: 0 <= p <= |s| ==> QuoteAt(s, p).None?;
    assert NextQuote(s, 0).None?;
  }

  /** A query without double quotes yields exactly its whitespace-separated words as keywords. */
  lemma NoQuotesGivesKeywords(query: string)
    requires forall i :: 0 <= i < |query| ==> query[i] != '"'
    ensures ParsedQuery(query) == KeywordTerms(Words(Trim(query)))
  {
    var n := Trim(query);
    if n != [] {
      assert forall i :: 0 <= i < |n| ==> n[i] == query[LeadingSpaces(query) + i];
      NoQuotesNoMatches(n);
      TrimUnchanged(n);
      ParsedQueryParts(query);
      AppendEmpty(KeywordTerms(Words(n)));
    } else {
      assert Words(n) == [];
    }
  }

  /**
   * Every query, blank or not, parses to the exact terms of all phrase
   * matches of the trimmed query, in order, followed by one keyword per word
   * of what is left when each match is replaced by a single space.
   */
  lemma ParsedQueryParts(query: string)
    ensures ParsedQuery(query) ==
      ExactTerms(Trim(query), QuotedSpans(Trim(query), 0))
      + KeywordTerms(Words(Trim(ReplaceSpans(Trim(query), 0, QuotedSpans(Trim(query), 0)))))
  {
    var n := Trim(query);
    RemoveQuotedReplacesSpans(n, 0);
    if n == [] {
      assert QuotedSpans(n, 0) == [];
      assert Words(Trim(ReplaceSpans(n, 0, []))) == [];
    }
  }

  /** One step of the `exec` loop: the first match's exact term, then those of the matches after it. */
  lemma ExactTermsStep(s: string, from: nat, sp: Span, next: nat)
    requires from <= |s| && NextQuote(s, from) == Some(sp) && next == sp.close + 1
    ensures next <= |s|
    ensures ExactTerms(s, QuotedSpans(s, from)) == PhraseTerms(s, sp) + ExactTerms(s, QuotedSpans(s, next))
  {
    var rest := QuotedSpans(s, next);
    assert QuotedSpans(s, from) == [sp] + rest;
    assert ([sp] + rest)[1..] == rest;
  }

  /** The `exec` loop of `parseSearchQuery`: each non-empty trimmed phrase, in order of appearance. */
  method CollectExactTerms(normalized: string) returns (terms: seq<SearchTerm>)
    ensures terms == ExactTerms(normalized, QuotedSpans(normalized, 0))
  {
    terms := [];
    var last: nat := 0;
    var found := NextQuote(normalized, last);
    ghost var whole := ExactTerms(normalized, QuotedSpans(normalized, 0));
    AppendEmpty(whole);
    while found.Some?
      invariant last <= |normalized|
      invariant found == NextQuote(normalized, last)
      invariant terms + ExactTerms(normalized, QuotedSpans(normalized, last)) == whole
      decreases |normalized| - last
    {
      var sp := found.value;
      ghost var prev := last;
      ghost var before := terms;
      var phrase := Phrase(normalized, sp);
      if phrase != [] {
        terms := terms + [SearchTerm(phrase, true)];
      } else {
        AppendEmpty(terms);
      }
      assert terms == before + PhraseTerms(normalized, sp);
      last := sp.close + 1;
      found := NextQuote(normalized, last);
      ExactTermsStep(normalized, prev, sp, last);
      AppendAssociative(before, PhraseTerms(normalized, sp), ExactTerms(normalized, QuotedSpans(normalized, last)));
    }
    assert QuotedSpans(normalized, last) == [];
    AppendEmpty(terms);
  }

  /** The `forEach` of `parseSearchQuery` that pushes one keyword term per word. */
  method AppendKeywords(terms: seq<SearchTerm>, keywords: seq<string>) returns (r: seq<SearchTerm>)
    ensures r == terms + KeywordTerms(keywords)
  {
    r := terms;
    for i := 0 to |keywords|
      invariant r == terms + KeywordTerms(keywords)[..i]
    {
      assert KeywordTerms(keywords)[..i + 1] == KeywordTerms(keywords)[..i] + [SearchTerm(keywords[i], false)];
      r := r + [SearchTerm(keywords[i], false)];
    }
    assert KeywordTerms(keywords)[..|keywords|] == KeywordTerms(keywords);
  }

  /**
   * `parseSearchQuery`: nothing for a blank query; otherwise the exact terms
   * found by the `exec` loop, then the keywords of the query with its phrases
   * replaced by spaces.
   */
  method ParseSearchQuery(query: string) returns (terms: seq<SearchTerm>)
    ensures terms == ParsedQuery(query)
  {
    var normalized := Trim(query);
    if normalized == [] {
      return [];
    }
    terms := CollectExactTerms(normalized);
    var processed := Trim(RemoveQuoted(normalized, 0));
    if processed != [] {
      terms := AppendKeywords(terms, Words(processed));
    } else {
      assert Words(processed) == [];
    }
  }
}
