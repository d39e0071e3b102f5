/**
 * The excerpt shown under a search hit, `getSearchContext` (app.js:557-632):
 * the content is cut into alternating word and whitespace tokens, the token
 * holding the earliest match of any term is located, and the excerpt keeps
 * up to `wordsAround` words on each side of it, with "..." marking a cut.
 */
module SearchContext {
  import opened Common
  import opened Text

  /**
   * `s.split(/(\s+)/)`: the non-whitespace runs (the first and the last may be
   * empty) interleaved with the maximal whitespace runs the capture keeps.
   */
  function SplitKeepingSpaces(s: string): (r: seq<string>)
    ensures |r| > 0
    decreases |s|
  {
    var n := LeadingNonSpaces(s);
    if n == |s| then [s]
    else
      var m := LeadingSpaces(s[n..]);
      [s[..n], s[n..n + m]] + SplitKeepingSpaces(s[n + m..])
  }

  /**
   * Tokens that alternate: a whitespace-free token, then (if more follow) a
   * non-empty whitespace run and again alternating tokens, so the count is odd.
   */
  predicate Alternating(tokens: seq<string>)
    decreases |tokens|
  {
    && |tokens| % 2 == 1
    && NoSpace(tokens[0])
    && (|tokens| > 1 ==> |tokens[1]| > 0 && AllSpace(tokens[1]) && Alternating(tokens[2..]))
  }

  /** The split alternates between word runs and whitespace runs. */
  lemma {:induction false} SplitKeepingSpacesAlternates(s: string)
    ensures Alternating(SplitKeepingSpaces(s))
    decreases |s|
  {
    var n := LeadingNonSpaces(s);
    if n < |s| {
      var m := LeadingSpaces(s[n..]);
      var rest := SplitKeepingSpaces(s[n + m..]);
      SplitKeepingSpacesAlternates(s[n + m..]);
      var r := [s[..n], s[n..n + m]] + rest;
      assert r == SplitKeepingSpaces(s);
      assert r[2..] == rest;
      assert NoSpace(r[0]);
      assert |r[1]| > 0 && AllSpace(r[1]);
      assert |r| % 2 == 1;
    } else {
      assert NoSpace(s);
    }
  }

  /** `tokens.join('')`. */
  function Concat(tokens: seq<string>): string
    decreases |tokens|
  {
    if tokens == [] then "" else tokens[0] + Concat(tokens[1..])
  }

  /** Concatenating the tokens gives back the text they were split from. */
  lemma {:induction false} SplitKeepingSpacesConcat(s: string)
    ensures Concat(SplitKeepingSpaces(s)) == s
    decreases |s|
  {
    var n := LeadingNonSpaces(s);
    if n < |s| {
      var m := LeadingSpaces(s[n..]);
      var rest := SplitKeepingSpaces(s[n + m..]);
      SplitKeepingSpacesConcat(s[n + m..]);
      ConcatPair(s[..n], s[n..n + m], rest);
      SplitAt(s, n, n + m);
    }
  }

  /** The concatenation of two leading tokens and the rest. */
  lemma ConcatPair(a: string, b: string, rest: seq<string>)
    ensures Concat([a, b] + rest) == a + (b + Concat(rest))
  {
    var r := [a, b] + rest;
    assert r[1..][1..] == rest;
    assert Concat(r[1..]) == b + Concat(rest);
  }

  /** A text is the concatenation of its three pieces around two cut points. */
  lemma SplitAt(s: string, i: nat, j: nat)
    requires i <= j <= |s|
    ensures s[..i] + (s[i..j] + s[j..]) == s
  {
    assert s[i..j] + s[j..] == s[i..];
  }

  /** Total length of the tokens. */
  function TotalLength(tokens: seq<string>): nat {
    if tokens == [] then 0 else |tokens[0]| + TotalLength(tokens[1..])
  }

  lemma {:induction false} ConcatLength(tokens: seq<string>)
    ensures |Concat(tokens)| == TotalLength(tokens)
  {
    if tokens != [] {
      ConcatLength(tokens[1..]);
    }
  }

  lemma {:induction false} TotalLengthAppend(a: seq<string>, b: seq<string>)
    ensures TotalLength(a + b) == TotalLength(a) + TotalLength(b)
  {
    if a == [] {
      assert a + b == b;
    } else {
      assert (a + b)[1..] == a[1..] + b;
      TotalLengthAppend(a[1..], b);
    }
  }

  /**
   * The index of the token that holds character `offset` of the
   * concatenation: the token whose span [chars before it, chars before it
   * plus its length) contains `offset`.
   */
  function LocateToken(tokens: seq<string>, offset: nat): (r: Option<nat>)
    ensures r.Some? ==> r.value < |tokens|
    ensures r.Some? ==>
      TotalLength(tokens[..r.value]) <= offset < TotalLength(tokens[..r.value]) + |tokens[r.value]|
    ensures r.None? <==> offset >= TotalLength(tokens)
  {
    if tokens == [] then None
    else if offset < |tokens[0]| then
      assert tokens[..0] == [];
      Some(0)
    else
      match LocateToken(tokens[1..], offset - |tokens[0]|)
      case None => None
      case Some(i) =>
        assert tokens[..i + 1] == [tokens[0]] + tokens[1..][..i];
        assert ([tokens[0]] + tokens[1..][..i])[1..] == tokens[1..][..i];
        Some(i + 1)
  }

  /** `isWord`: a token with a non-whitespace character. */
  predicate IsWord(token: string) {
    token != [] && (!IsSpace(token[0]) || IsWord(token[1..]))
  }

  /** `isWord` is `w.trim().length > 0`: trimming leaves something exactly when a character is not whitespace. */
  lemma {:induction false} IsWordIsTrimNonEmpty(token: string)
    ensures IsWord(token) <==> Trim(token) != []
  {
    if token != [] && IsSpace(token[0]) {
      IsWordIsTrimNonEmpty(token[1..]);
      assert Trim(token[1..]) == [] <==> AllSpace(token[1..]);
    }
  }

  /** Number of word tokens. */
  function WordCount(tokens: seq<string>): nat
    ensures WordCount(tokens) <= |tokens|
  {
    if tokens == [] then 0 else (if IsWord(tokens[0]) then 1 else 0) + WordCount(tokens[1..])
  }

  lemma {:induction false} WordCountAppend(a: seq<string>, b: seq<string>)
    ensures WordCount(a + b) == WordCount(a) + WordCount(b)
  {
    if a == [] {
      assert a + b == b;
    } else {
      assert (a + b)[1..] == a[1..] + b;
      WordCountAppend(a[1..], b);
    }
  }

  /** `found` unless it is the "nothing found" value `none`, in which case `fallback`. */
  function Resolve(found: int, fallback: int, none: int): int {
    if found == none then fallback else found
  }

  /**
   * Where the excerpt starts: walking back from token `m`, the earliest of
   * the first `budget` words met, or `m` itself when there is none to take.
   */
  function StartIndex(tokens: seq<string>, m: nat, budget: int): (s: nat)
    requires m <= |tokens|
    ensures s <= m
  {
    if m == 0 || budget <= 0 then m
    else if IsWord(tokens[m - 1]) then StartIndex(tokens, m - 1, budget - 1)
    else Resolve(StartIndex(tokens, m - 1, budget), m, m - 1)
  }

  /** The words of `tokens[s..m]` are those of `tokens[s..m - 1]` and the last token's. */
  lemma WordCountSnoc(tokens: seq<string>, s: nat, m: nat)
    requires s < m <= |tokens|
    ensures WordCount(tokens[s..m]) == WordCount(tokens[s..m - 1]) + (if IsWord(tokens[m - 1]) then 1 else 0)
  {
    assert tokens[s..m] == tokens[s..m - 1] + [tokens[m - 1]];
    WordCountAppend(tokens[s..m - 1], [tokens[m - 1]]);
    assert WordCount([tokens[m - 1]]) == (if IsWord(tokens[m - 1]) then 1 else 0) + WordCount([tokens[m - 1]][1..]);
  }

  /** The words of `tokens[..m]` are those of `tokens[..m - 1]` and the last token's. */
  lemma WordCountPrefix(tokens: seq<string>, m: nat)
    requires 0 < m <= |tokens|
    ensures WordCount(tokens[..m]) == WordCount(tokens[..m - 1]) + (if IsWord(tokens[m - 1]) then 1 else 0)
  {
    WordCountSnoc(tokens, 0, m);
    assert tokens[0..m] == tokens[..m] && tokens[0..m - 1] == tokens[..m - 1];
  }

  /** The words of `tokens[k..e]` are the first token's and those of `tokens[k + 1..e]`. */
  lemma WordCountCons(tokens: seq<string>, k: nat, e: nat)
    requires k < e <= |tokens|
    ensures WordCount(tokens[k..e]) == (if IsWord(tokens[k]) then 1 else 0) + WordCount(tokens[k + 1..e])
  {
    assert tokens[k..e][1..] == tokens[k + 1..e];
  }

  /** How many of `available` words a walk allowed `budget` of them takes. */
  function Taken(budget: int, available: nat): nat {
    if budget <= 0 then 0 else if budget <= available then budget else available
  }

  /** Taking a word uses one unit of the budget. */
  lemma TakenStep(budget: int, available: nat)
    requires budget > 0
    ensures Taken(budget, available + 1) == 1 + Taken(budget - 1, available)
  {
  }

  /** The words of `tokens[k..]` are the first token's and those of `tokens[k + 1..]`. */
  lemma WordCountSuffix(tokens: seq<string>, k: nat)
    requires k < |tokens|
    ensures WordCount(tokens[k..]) == (if IsWord(tokens[k]) then 1 else 0) + WordCount(tokens[k + 1..])
  {
    assert tokens[k..][1..] == tokens[k + 1..];
  }

  /**
   * The start of the window is a word (or the match token itself) and the
   * window takes all the words before the match, up to `budget` of them.
   */
  lemma StartIndexWindow(tokens: seq<string>, m: nat, budget: int)
    requires m <= |tokens|
    ensures var s := StartIndex(tokens, m, budget);
      && (s < m ==> IsWord(tokens[s]))
      && (budget <= 0 ==> s == m)
      && WordCount(tokens[s..m]) == Taken(budget, WordCount(tokens[..m]))
  {
    StartIndexOnWord(tokens, m, budget);
    StartIndexCount(tokens, m, budget);
  }

  /** A walk back that moves stops on a word. */
  lemma {:induction false} StartIndexOnWord(tokens: seq<string>, m: nat, budget: int)
    requires m <= |tokens|
    ensures var s := StartIndex(tokens, m, budget); s < m ==> IsWord(tokens[s])
  {
    if m > 0 && budget > 0 {
      if IsWord(tokens[m - 1]) {
        StartIndexOnWord(tokens, m - 1, budget - 1);
      } else {
        StartIndexOnWord(tokens, m - 1, budget);
      }
    }
  }

  /** The walk back takes `budget` of the words before `m`, or all of them when there are fewer. */
  lemma {:induction false} StartIndexCount(tokens: seq<string>, m: nat, budget: int)
    requires m <= |tokens|
    ensures WordCount(tokens[StartIndex(tokens, m, budget)..m]) == Taken(budget, WordCount(tokens[..m]))
    decreases m, 1
  {
    if m > 0 && budget > 0 {
      if IsWord(tokens[m - 1]) {
        StartIndexCountWord(tokens, m, budget);
      } else {
        StartIndexCountSpace(tokens, m, budget);
      }
    } else {
      assert tokens[m..m] == [];
      assert m == 0 ==> tokens[..m] == [];
    }
  }

  /** Behind a word token the walk takes it and `budget - 1` words before it. */
  lemma {:induction false} StartIndexCountWord(tokens: seq<string>, m: nat, budget: int)
    requires 0 < m <= |tokens| && budget > 0 && IsWord(tokens[m - 1])
    ensures WordCount(tokens[StartIndex(tokens, m, budget)..m]) == Taken(budget, WordCount(tokens[..m]))
    decreases m, 0
  {
    var s := StartIndex(tokens, m - 1, budget - 1);
    assert StartIndex(tokens, m, budget) == s;
    WordCountPrefix(tokens, m);
    StartIndexCount(tokens, m - 1, budget - 1);
    WordCountSnoc(tokens, s, m);
    TakenStep(budget, WordCount(tokens[..m - 1]));
  }

  /** Behind a whitespace token the walk is the walk behind the previous token, or takes nothing. */
  lemma {:induction false} StartIndexCountSpace(tokens: seq<string>, m: nat, budget: int)
    requires 0 < m <= |tokens| && budget > 0 && !IsWord(tokens[m - 1])
    ensures WordCount(tokens[StartIndex(tokens, m, budget)..m]) == Taken(budget, WordCount(tokens[..m]))
    decreases m, 0
  {
    var s := StartIndex(tokens, m, budget);
    var s1 := StartIndex(tokens, m - 1, budget);
    assert s == Resolve(s1, m, m - 1);
    WordCountPrefix(tokens, m);
    StartIndexCount(tokens, m - 1, budget);
    if s1 == m - 1 {
      assert tokens[m..m] == [] && tokens[m - 1..m - 1] == [];
    } else {
      WordCountSnoc(tokens, s, m);
    }
  }

  /**
   * Where the excerpt ends: walking forward from token `k`, the last of the
   * first `budget` words met, or `k - 1` when there is none to take.
   */
  function EndIndex(tokens: seq<string>, k: nat, budget: int): (e: int)
    requires 1 <= k <= |tokens|
    ensures k - 1 <= e < |tokens|
    decreases |tokens| - k
  {
    if k == |tokens| || budget <= 0 then k - 1
    else if IsWord(tokens[k]) then EndIndex(tokens, k + 1, budget - 1)
    else Resolve(EndIndex(tokens, k + 1, budget), k - 1, k)
  }

  /**
   * The end of the window is a word (or the match token itself) and the
   * window takes all the words after the match, up to `budget` of them.
   */
  lemma EndIndexWindow(tokens: seq<string>, k: nat, budget: int)
    requires 1 <= k <= |tokens|
    ensures var e := EndIndex(tokens, k, budget);
      && (e >= k ==> IsWord(tokens[e]))
      && (budget <= 0 ==> e == k - 1)
      && WordCount(tokens[k..e + 1]) == Taken(budget, WordCount(tokens[k..]))
  {
    EndIndexOnWord(tokens, k, budget);
    EndIndexCount(tokens, k, budget);
  }

  /** A walk forward that moves stops on a word. */
  lemma {:induction false} EndIndexOnWord(tokens: seq<string>, k: nat, budget: int)
    requires 1 <= k <= |tokens|
    ensures var e := EndIndex(tokens, k, budget); e >= k ==> IsWord(tokens[e])
    decreases |tokens| - k
  {
    if k < |tokens| && budget > 0 {
      if IsWord(tokens[k]) {
        EndIndexOnWord(tokens, k + 1, budget - 1);
      } else {
        EndIndexOnWord(tokens, k + 1, budget);
      }
    }
  }

  /** The walk forward takes `budget` of the words from `k` on, or all of them when there are fewer. */
  lemma {:induction false} EndIndexCount(tokens: seq<string>, k: nat, budget: int)
    requires 1 <= k <= |tokens|
    ensures WordCount(tokens[k..EndIndex(tokens, k, budget) + 1]) == Taken(budget, WordCount(tokens[k..]))
    decreases |tokens| - k, 1
  {
    if k < |tokens| && budget > 0 {
      if IsWord(tokens[k]) {
        EndIndexCountWord(tokens, k, budget);
      } else {
        EndIndexCountSpace(tokens, k, budget);
      }
    } else {
      assert tokens[k..k] == [];
      assert k == |tokens| ==> tokens[k..] == [];
    }
  }

  /** From a word token the walk takes it and `budget - 1` words after it. */
  lemma {:induction false} EndIndexCountWord(tokens: seq<string>, k: nat, budget: int)
    requires 1 <= k < |tokens| && budget > 0 && IsWord(tokens[k])
    ensures WordCount(tokens[k..EndIndex(tokens, k, budget) + 1]) == Taken(budget, WordCount(tokens[k..]))
    decreases |tokens| - k, 0
  {
    var e := EndIndex(tokens, k + 1, budget - 1);
    assert EndIndex(tokens, k, budget) == e;
    WordCountSuffix(tokens, k);
    EndIndexCount(tokens, k + 1, budget - 1);
    WordCountCons(tokens, k, e + 1);
    TakenStep(budget, WordCount(tokens[k + 1..]));
  }

  /** From a whitespace token the walk is the walk from the next token, or takes nothing. */
  lemma {:induction false} EndIndexCountSpace(tokens: seq<string>, k: nat, budget: int)
    requires 1 <= k < |tokens| && budget > 0 && !IsWord(tokens[k])
    ensures WordCount(tokens[k..EndIndex(tokens, k, budget) + 1]) == Taken(budget, WordCount(tokens[k..]))
    decreases |tokens| - k, 0
  {
    var e := EndIndex(tokens, k, budget);
    var e1 := EndIndex(tokens, k + 1, budget);
    assert e == Resolve(e1, k - 1, k);
    WordCountSuffix(tokens, k);
    EndIndexCount(tokens, k + 1, budget);
    if e1 != k {
      WordCountCons(tokens, k, e + 1);
    } else {
      assert tokens[k..k] == [] && tokens[k + 1..k + 1] == [];
    }
  }

  /**
   * The earliest offset in `lowered` at which the lowercased text of one of
   * the terms occurs, folding over the terms in order as the `forEach` does.
   */
  function EarliestMatch(lowered: string, terms: seq<SearchTerm>): (r: Option<nat>)
    ensures r.Some? ==> exists k :: 0 <= k < |terms| && OccursAt(lowered, Lower(terms[k].term), r.value)
    ensures r.Some? ==> forall k, j :: 0 <= k < |terms| && 0 <= j < r.value ==> !OccursAt(lowered, Lower(terms[k].term), j)
    ensures r.None? ==> forall k, j :: 0 <= k < |terms| ==> !OccursAt(lowered, Lower(terms[k].term), j)
  {
    if terms == [] then None
    else
      var init, last := terms[..|terms| - 1], terms[|terms| - 1];
      var best := EarliestMatch(lowered, init);
      var index := IndexOf(lowered, Lower(last.term));
      assert forall k :: 0 <= k < |init| ==> init[k] == terms[k];
      if index.Some? && (best.None? || index.value < best.value) then index else best
  }

  /** The mark of a cut. */
  const Ellipsis: string := "..."

  /** The excerpt text for the window of tokens `s..e` out of `tokens`. */
  function Window(tokens: seq<string>, s: nat, e: int): string
    requires s <= e + 1 <= |tokens|
  {
    (if s > 0 then Ellipsis else "") + Trim(Concat(tokens[s..e + 1])) + (if e < |tokens| - 1 then Ellipsis else "")
  }

  /**
   * `getSearchContext(content, searchTerms, wordsAround)`: None when the
   * content or the terms are empty or no term occurs in the lowercased
   * content; otherwise the window of tokens around the earliest match.
   */
  function Excerpt(content: string, terms: seq<SearchTerm>, wordsAround: int): Option<string> {
    if content == [] || terms == [] then None
    else
      match EarliestMatch(Lower(content), terms)
      case None => None
      case Some(offset) =>
        var tokens := SplitKeepingSpaces(content);
        match LocateToken(tokens, offset)
        case None => None
        case Some(m) =>
          var s := StartIndex(tokens, m, wordsAround);
          var e := EndIndex(tokens, m + 1, wordsAround);
          Some(Window(tokens, s, e))
  }

  /** A match offset always lies inside the content, so the token holding it exists. */
  lemma MatchIsInsideContent(content: string, terms: seq<SearchTerm>, offset: nat)
    requires content != []
    requires EarliestMatch(Lower(content), terms) == Some(offset)
    ensures LocateToken(SplitKeepingSpaces(content), offset).Some?
  {
    var tokens := SplitKeepingSpaces(content);
    SplitKeepingSpacesConcat(content);
    ConcatLength(tokens);
    var k :| 0 <= k < |terms| && OccursAt(Lower(content), Lower(terms[k].term), offset);
    if |Lower(terms[k].term)| == 0 {
      assert OccursAt(Lower(content), Lower(terms[k].term), 0);
    }
  }

  /**
   * `getSearchContext` gives no excerpt exactly when the content or the terms
   * are empty or no lowercased term occurs in the lowercased content.
   */
  lemma ExcerptNoneIff(content: string, terms: seq<SearchTerm>, wordsAround: int)
    ensures Excerpt(content, terms, wordsAround).None? <==>
      content == [] || terms == [] ||
      forall k :: 0 <= k < |terms| ==> !Contains(Lower(content), Lower(terms[k].term))
  {
    if content != [] && terms != [] {
      var lc := Lower(content);
      match EarliestMatch(lc, terms)
      case None =>
      case Some(offset) =>
        MatchIsInsideContent(content, terms, offset);
        var k :| 0 <= k < |terms| && OccursAt(lc, Lower(terms[k].term), offset);
        assert Contains(lc, Lower(terms[k].term));
    }
  }

  /** `-1` for no index, as the source's sentinels use it. */
  function IndexOrMinusOne(r: Option<nat>): int {
    match r
    case None => -1
    case Some(i) => i
  }

  /** The `forEach` over the terms that records the earliest match offset, or -1. */
  method FindFirstMatch(lowerContent: string, terms: seq<SearchTerm>) returns (firstMatchIndex: int)
    ensures firstMatchIndex == IndexOrMinusOne(EarliestMatch(lowerContent, terms))
  {
    firstMatchIndex := -1;
    for i := 0 to |terms|
      invariant firstMatchIndex == IndexOrMinusOne(EarliestMatch(lowerContent, terms[..i]))
    {
      assert terms[..i + 1][..i] == terms[..i];
      var lowerTerm := Lower(terms[i].term);
      var index := IndexOrMinusOne(IndexOf(lowerContent, lowerTerm));
      if index != -1 && (firstMatchIndex == -1 || index < firstMatchIndex) {
        firstMatchIndex := index;
      }
    }
    assert terms[..|terms|] == terms;
  }

  /** The loop that finds the index of the token holding the match, or -1. */
  method FindMatchToken(words: seq<string>, firstMatchIndex: nat) returns (matchWordIndex: int)
    ensures matchWordIndex == IndexOrMinusOne(LocateToken(words, firstMatchIndex))
  {
    var charCount := 0;
    matchWordIndex := -1;
    var i := 0;
    while i < |words|
      invariant 0 <= i <= |words| && 0 <= charCount <= firstMatchIndex
      invariant LocateToken(words, firstMatchIndex)
        == Shift(LocateToken(words[i..], firstMatchIndex - charCount), i)
    {
      var wordLen := |words[i]|;
      assert words[i..][0] == words[i] && words[i..][1..] == words[i + 1..];
      if charCount <= firstMatchIndex && firstMatchIndex < charCount + wordLen {
        matchWordIndex := i;
        return;
      }
      charCount := charCount + wordLen;
      i := i + 1;
    }
  }

  /** Adds `offset` to a found index. */
  function Shift(r: Option<nat>, offset: nat): Option<nat> {
    match r
    case None => None
    case Some(i) => Some(i + offset)
  }

  /** One step of the backward walk over token `top - 1`. */
  lemma StartIndexStep(words: seq<string>, top: nat, budget: int)
    requires 0 < top <= |words| && budget > 0
    ensures IsWord(words[top - 1]) ==> StartIndex(words, top, budget) == StartIndex(words, top - 1, budget - 1)
    ensures !IsWord(words[top - 1]) ==>
      StartIndex(words, top, budget) == Resolve(StartIndex(words, top - 1, budget), top, top - 1)
  {
  }

  /** One step of the forward walk over token `k`. */
  lemma EndIndexStep(words: seq<string>, k: nat, budget: int, next: nat, nextBudget: int)
    requires 1 <= k < |words| && budget > 0 && next == k + 1
    requires nextBudget == if IsWord(words[k]) then budget - 1 else budget
    ensures IsWord(words[k]) ==> EndIndex(words, k, budget) == EndIndex(words, next, nextBudget)
    ensures !IsWord(words[k]) ==>
      EndIndex(words, k, budget) == Resolve(EndIndex(words, next, nextBudget), k - 1, k)
  {
  }

  /** The backward loop that picks `startIndex`. */
  method WalkBack(words: seq<string>, matchWordIndex: nat, wordsAround: int) returns (startIndex: nat)
    requires matchWordIndex < |words|
    ensures startIndex == StartIndex(words, matchWordIndex, wordsAround)
  {
    startIndex := matchWordIndex;
    var wordsBefore := 0;
    var i := matchWordIndex - 1;
    while i >= 0 && wordsBefore < wordsAround
      invariant -1 <= i < matchWordIndex && 0 <= wordsBefore
      invariant startIndex <= matchWordIndex
      invariant Resolve(StartIndex(words, i + 1, wordsAround - wordsBefore), startIndex, i + 1)
             == StartIndex(words, matchWordIndex, wordsAround)
    {
      StartIndexStep(words, i + 1, wordsAround - wordsBefore);
      if IsWord(words[i]) {
        wordsBefore := wordsBefore + 1;
        startIndex := i;
      }
      i := i - 1;
    }
  }

  /** The forward loop that picks `endIndex`. */
  method WalkForward(words: seq<string>, matchWordIndex: nat, wordsAround: int) returns (endIndex: nat)
    requires matchWordIndex < |words|
    ensures endIndex == EndIndex(words, matchWordIndex + 1, wordsAround)
  {
    endIndex := matchWordIndex;
    var wordsAfter := 0;
    var i := matchWordIndex + 1;
    while i < |words| && wordsAfter < wordsAround
      invariant matchWordIndex < i <= |words| && 0 <= wordsAfter
      invariant matchWordIndex <= endIndex < |words|
      invariant Resolve(EndIndex(words, i, wordsAround - wordsAfter), endIndex, i - 1)
             == EndIndex(words, matchWordIndex + 1, wordsAround)
    {
      ghost var k, budget := i, wordsAround - wordsAfter;
      if IsWord(words[i]) {
        wordsAfter := wordsAfter + 1;
        endIndex := i;
      }
      i := i + 1;
      EndIndexStep(words, k, budget, i, wordsAround - wordsAfter);
    }
  }

  /** The excerpt assembled from its parts, as `getSearchContext` computes them one by one. */
  lemma ExcerptAssembled(content: string, terms: seq<SearchTerm>, wordsAround: int,
                         offset: nat, m: nat, s: nat, e: int)
    requires content != [] && terms != []
    requires EarliestMatch(Lower(content), terms) == Some(offset)
    requires LocateToken(SplitKeepingSpaces(content), offset) == Some(m)
    requires s == StartIndex(SplitKeepingSpaces(content), m, wordsAround)
    requires e == EndIndex(SplitKeepingSpaces(content), m + 1, wordsAround)
    ensures s <= e + 1 <= |SplitKeepingSpaces(content)|
    ensures Excerpt(content, terms, wordsAround) == Some(Window(SplitKeepingSpaces(content), s, e))
  {
  }

  /** The excerpt text around token `matchWordIndex` (app.js:596-631). */
  method BuildWindow(words: seq<string>, matchWordIndex: nat, wordsAround: int) returns (text: string)
    requires matchWordIndex < |words|
    ensures text == Window(words, StartIndex(words, matchWordIndex, wordsAround),
                           EndIndex(words, matchWordIndex + 1, wordsAround))
  {
    var startIndex := WalkBack(words, matchWordIndex, wordsAround);
    var endIndex := WalkForward(words, matchWordIndex, wordsAround);
    var excerpt := Concat(words[startIndex..endIndex + 1]);
    var prefix := if startIndex > 0 then Ellipsis else "";
    var suffix := if endIndex < |words| - 1 then Ellipsis else "";
    text := prefix + Trim(excerpt) + suffix;
  }

  /**
   * `getSearchContext`: the earliest match, the token holding it, the two
   * walks that widen the window, then the joined and trimmed window with its
   * ellipses; None where the source returns null.
   */
  method GetSearchContext(content: string, terms: seq<SearchTerm>, wordsAround: int) returns (r: Option<string>)
    ensures r == Excerpt(content, terms, wordsAround)
  {
    if content == [] || terms == [] {
      return None;
    }
    var lowerContent := Lower(content);
    var firstMatchIndex := FindFirstMatch(lowerContent, terms);
    if firstMatchIndex == -1 {
      assert EarliestMatch(lowerContent, terms).None?;
      return None;
    }
    var offset: nat := firstMatchIndex;
    assert EarliestMatch(lowerContent, terms) == Some(offset);
    var words := SplitKeepingSpaces(content);
    var matchWordIndex := FindMatchToken(words, offset);
    if matchWordIndex == -1 {
      assert LocateToken(words, offset).None?;
      return None;
    }
    var m: nat := matchWordIndex;
    assert LocateToken(words, offset) == Some(m);
    ExcerptAssembled(content, terms, wordsAround, offset, m,
                     StartIndex(words, m, wordsAround), EndIndex(words, m + 1, wordsAround));
    var text := BuildWindow(words, m, wordsAround);
    r := Some(text);
  }
}
