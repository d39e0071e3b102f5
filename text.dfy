/**
 * The JavaScript string operations the application relies on, stated over
 * `seq<char>`: the `\s` character class, `trim`, `toLowerCase` (ASCII
 * letters only), `indexOf`, `split` with a string separator, `join`, and the
 * global regular-expression replacements the application performs.
 */
module Text {
  import opened Common

  /**
   * The characters matched by `\s` in a JavaScript regular expression; they
   * are also exactly the characters `String.prototype.trim` removes.
   */
  predicate IsSpace(c: char) {
    || c == ' ' || c == '\t' || c == '\n' || c == '\r' || c == '\U{000B}' || c == '\U{000C}'
    || c == '\U{00A0}' || c == '\U{1680}' || ('\U{2000}' <= c <= '\U{200A}')
    || c == '\U{2028}' || c == '\U{2029}' || c == '\U{202F}' || c == '\U{205F}'
    || c == '\U{3000}' || c == '\U{FEFF}'
  }

  /** Text made of whitespace only. */
  predicate AllSpace(t: string) {
    forall k :: 0 <= k < |t| ==> IsSpace(t[k])
  }

  /** Text without any whitespace. */
  predicate NoSpace(t: string) {
    forall k :: 0 <= k < |t| ==> !IsSpace(t[k])
  }

  predicate IsDigit(c: char) { '0' <= c <= '9' }

  /** `toLowerCase` on one character, restricted to the ASCII letters. */
  function LowerChar(c: char): char {
    if 'A' <= c <= 'Z' then (c as int + 32) as char else c
  }

  /** `toLowerCase`, restricted to the ASCII letters; it keeps the length. */
  function Lower(s: string): string {
    seq(|s|, i requires 0 <= i < |s| => LowerChar(s[i]))
  }

  /** Number of whitespace characters at the start of `s`. */
  function LeadingSpaces(s: string): (n: nat)
    ensures n <= |s|
    ensures forall i :: 0 <= i < n ==> IsSpace(s[i])
    ensures n < |s| ==> !IsSpace(s[n])
  {
    if |s| > 0 && IsSpace(s[0]) then 1 + LeadingSpaces(s[1..]) else 0
  }

  /** Number of whitespace characters at the end of `s`. */
  function TrailingSpaces(s: string): (n: nat)
    ensures n <= |s|
    ensures forall i :: |s| - n <= i < |s| ==> IsSpace(s[i])
    ensures n < |s| ==> !IsSpace(s[|s| - 1 - n])
  {
    if |s| > 0 && IsSpace(s[|s| - 1]) then 1 + TrailingSpaces(s[..|s| - 1]) else 0
  }

  /** Number of non-whitespace characters at the start of `s`. */
  function LeadingNonSpaces(s: string): (n: nat)
    ensures n <= |s|
    ensures forall i :: 0 <= i < n ==> !IsSpace(s[i])
    ensures n < |s| ==> IsSpace(s[n])
  {
    if |s| > 0 && !IsSpace(s[0]) then 1 + LeadingNonSpaces(s[1..]) else 0
  }

  /**
   * `String.prototype.trim`: the infix of `s` that starts at its first
   * non-whitespace character and ends at its last one.
   */
  function Trim(s: string): (r: string)
    ensures LeadingSpaces(s) + |r| <= |s|
    ensures forall i :: 0 <= i < |r| ==> r[i] == s[LeadingSpaces(s) + i]
    ensures forall i :: LeadingSpaces(s) + |r| <= i < |s| ==> IsSpace(s[i])
    ensures |r| > 0 ==> !IsSpace(r[0]) && !IsSpace(r[|r| - 1])
    ensures r == [] <==> forall i :: 0 <= i < |s| ==> IsSpace(s[i])
  {
    var t := s[LeadingSpaces(s)..];
    t[..|t| - TrailingSpaces(t)]
  }

  /** A string with no whitespace at either end is its own trim. */
  lemma TrimUnchanged(s: string)
    requires |s| > 0 ==> !IsSpace(s[0]) && !IsSpace(s[|s| - 1])
    ensures Trim(s) == s
  {
    if |s| > 0 {
      assert LeadingSpaces(s) == 0;
      assert TrailingSpaces(s) == 0;
    }
  }

  /**
   * `s.replace(/\s+/g, " ")`: every maximal whitespace run becomes one space,
   * so no whitespace but a single space survives and no two spaces touch.
   */
  function CollapseSpaces(s: string): (r: string)
    ensures |r| <= |s|
    ensures forall i :: 0 <= i < |r| && IsSpace(r[i]) ==> r[i] == ' '
    ensures forall i, j :: 0 <= i < j < |r| && j == i + 1 ==> !(r[i] == ' ' && r[j] == ' ')
    ensures |r| > 0 ==> (r[0] == ' ' <==> IsSpace(s[0]))
    decreases |s|
  {
    if s == [] then []
    else if IsSpace(s[0]) then " " + CollapseSpaces(s[LeadingSpaces(s)..])
    else [s[0]] + CollapseSpaces(s[1..])
  }

  /**
   * The shape `normalizeWhitespace` produces: the only whitespace is single
   * spaces, each between two non-whitespace characters.
   */
  ghost predicate IsNormalized(s: string) {
    && (forall i :: 0 <= i < |s| && IsSpace(s[i]) ==> s[i] == ' ')
    && (|s| > 0 ==> !IsSpace(s[0]) && !IsSpace(s[|s| - 1]))
    && (forall i, j :: 0 <= i < j < |s| && j == i + 1 ==> !IsSpace(s[i]) || !IsSpace(s[j]))
  }

  /** `normalizeWhitespace` (app.js:419-420): collapse whitespace runs, then trim. */
  function NormalizeWhitespace(s: string): (r: string)
    ensures IsNormalized(r)
    ensures |r| <= |s|
  {
    TrimCollapsed(CollapseSpaces(s));
    Trim(CollapseSpaces(s))
  }

  /** Trimming text whose whitespace is isolated single spaces leaves it normalised. */
  lemma TrimCollapsed(c: string)
    requires forall i :: 0 <= i < |c| && IsSpace(c[i]) ==> c[i] == ' '
    requires forall i, j :: 0 <= i < j < |c| && j == i + 1 ==> !(c[i] == ' ' && c[j] == ' ')
    ensures IsNormalized(Trim(c))
  {
    var r := Trim(c);
    var lead := LeadingSpaces(c);
    forall i | 0 <= i < |r| && IsSpace(r[i]) ensures r[i] == ' ' {
      assert r[i] == c[lead + i];
    }
    forall i, j | 0 <= i < j < |r| && j == i + 1 ensures !IsSpace(r[i]) || !IsSpace(r[j]) {
      assert r[i] == c[lead + i] && r[j] == c[lead + j];
    }
  }

  /** Collapsing a string whose whitespace is already single spaces changes nothing. */
  lemma {:induction false} CollapseUnchanged(s: string)
    requires forall i :: 0 <= i < |s| && IsSpace(s[i]) ==> s[i] == ' '
    requires forall i, j :: 0 <= i < j < |s| && j == i + 1 ==> !(s[i] == ' ' && s[j] == ' ')
    ensures CollapseSpaces(s) == s
    decreases |s|
  {
    if s != [] {
      if IsSpace(s[0]) {
        assert LeadingSpaces(s) == 1 by {
          assert |s| > 1 ==> !IsSpace(s[1]);
          if |s| > 1 {
            assert LeadingSpaces(s[1..]) == 0;
          }
        }
        CollapseUnchanged(s[1..]);
        assert s == " " + s[1..];
      } else {
        CollapseUnchanged(s[1..]);
        assert s == [s[0]] + s[1..];
      }
    }
  }

  /** `normalizeWhitespace` is idempotent: normalized text is a fixed point. */
  lemma NormalizeIdempotent(s: string)
    ensures NormalizeWhitespace(NormalizeWhitespace(s)) == NormalizeWhitespace(s)
  {
    var n := NormalizeWhitespace(s);
    CollapseUnchanged(n);
    TrimUnchanged(n);
  }

  /** `text` holds `pat` starting at index `i`. */
  predicate OccursAt(text: string, pat: string, i: nat) {
    i + |pat| <= |text| && text[i..i + |pat|] == pat
  }

  /** `text.indexOf(pat, from)`: the first occurrence at or after `from`, if any. */
  function IndexOfFrom(text: string, pat: string, from: nat): (r: Option<nat>)
    ensures r.Some? ==> from <= r.value && OccursAt(text, pat, r.value)
    ensures r.Some? ==> forall j :: from <= j < r.value ==> !OccursAt(text, pat, j)
    ensures r.None? ==> forall j :: from <= j ==> !OccursAt(text, pat, j)
    decreases |text| - from
  {
    if from + |pat| > |text| then None
    else if OccursAt(text, pat, from) then Some(from)
    else IndexOfFrom(text, pat, from + 1)
  }

  /** `text.indexOf(pat)`. */
  function IndexOf(text: string, pat: string): Option<nat> {
    IndexOfFrom(text, pat, 0)
  }

  /** `text.includes(pat)`. */
  predicate Contains(text: string, pat: string) {
    IndexOf(text, pat).Some?
  }

  /** `text.replace(pat, rep)` with a string pattern: only the first occurrence is replaced. */
  function ReplaceFirst(text: string, pat: string, rep: string): string {
    match IndexOf(text, pat)
    case None => text
    case Some(i) => text[..i] + rep + text[i + |pat|..]
  }

  /** `parts.join(sep)`. */
  function Join(parts: seq<string>, sep: string): string
    decreases |parts|
  {
    if |parts| == 0 then ""
    else if |parts| == 1 then parts[0]
    else parts[0] + sep + Join(parts[1..], sep)
  }

  /** `s.split(sep)` with a non-empty string separator. */
  function Split(s: string, sep: string): (r: seq<string>)
    requires |sep| > 0
    ensures |r| > 0
    decreases |s|
  {
    match IndexOf(s, sep)
    case None => [s]
    case Some(i) => [s[..i]] + Split(s[i + |sep|..], sep)
  }

  /** Splitting and re-joining with the same separator gives back the text. */
  lemma {:induction false} JoinSplit(s: string, sep: string)
    requires |sep| > 0
    ensures Join(Split(s, sep), sep) == s
    decreases |s|
  {
    match IndexOf(s, sep)
    case None =>
    case Some(i) =>
      var rest := s[i + |sep|..];
      JoinSplit(rest, sep);
      assert Split(s, sep) == [s[..i]] + Split(rest, sep);
      assert s == s[..i] + sep + rest;
  }

  /** An occurrence at a known index means `includes` holds. */
  lemma OccurrenceFound(text: string, pat: string, i: nat)
    requires OccursAt(text, pat, i)
    ensures Contains(text, pat)
  {
  }

  /** `includes` holds exactly when the pattern occurs at some index. */
  lemma ContainsIff(text: string, pat: string)
    ensures Contains(text, pat) <==> exists i: nat :: OccursAt(text, pat, i)
  {
    if exists i: nat :: OccursAt(text, pat, i) {
      var i: nat :| OccursAt(text, pat, i);
      OccurrenceFound(text, pat, i);
    }
  }

  /** A pattern found in either part is found in the concatenation. */
  lemma ContainsInAppend(a: string, b: string, pat: string)
    requires Contains(a, pat) || Contains(b, pat)
    ensures Contains(a + b, pat)
  {
    if Contains(a, pat) {
      var i := IndexOf(a, pat).value;
      assert (a + b)[i..i + |pat|] == a[i..i + |pat|];
      OccurrenceFound(a + b, pat, i);
    } else {
      var i := IndexOf(b, pat).value;
      assert (a + b)[|a| + i..|a| + i + |pat|] == b[i..i + |pat|];
      OccurrenceFound(a + b, pat, |a| + i);
    }
  }

  /** `toLowerCase` works character by character, so it distributes over concatenation. */
  lemma LowerAppend(a: string, b: string)
    ensures Lower(a + b) == Lower(a) + Lower(b)
  {
    assert forall i :: 0 <= i < |a + b| ==> Lower(a + b)[i] == (Lower(a) + Lower(b))[i];
  }

  /** Lowercasing lowercased text changes nothing. */
  lemma LowerIdempotent(s: string)
    ensures Lower(Lower(s)) == Lower(s)
  {
  }

  /** The text before the first occurrence of a non-empty pattern holds none. */
  lemma PrefixBeforeFirst(s: string, pat: string, i: nat)
    requires |pat| > 0 && IndexOf(s, pat) == Some(i)
    ensures !Contains(s[..i], pat)
  {
    assert IndexOfFrom(s, pat, 0) == Some(i);
    forall j: nat
      ensures !OccursAt(s[..i], pat, j)
    {
      if j + |pat| <= i {
        assert !OccursAt(s, pat, j);
        assert s[..i][j..j + |pat|] == s[j..j + |pat|];
      }
    }
  }

  /**
   * `replace(pat, rep)` with a string pattern: without an occurrence the
   * text is unchanged; otherwise the text before the first occurrence is
   * kept, `rep` follows it, and putting `pat` back in place of `rep` gives
   * the text again.
   */
  lemma ReplaceFirstInverse(text: string, pat: string, rep: string)
    ensures !Contains(text, pat) ==> ReplaceFirst(text, pat, rep) == text
    ensures Contains(text, pat) ==>
      var i := IndexOf(text, pat).value;
      var r := ReplaceFirst(text, pat, rep);
      && |r| == |text| - |pat| + |rep|
      && r[..i] == text[..i]
      && r[i..i + |rep|] == rep
      && r[..i] + pat + r[i + |rep|..] == text
  {
    if Contains(text, pat) {
      var i := IndexOf(text, pat).value;
      var r := ReplaceFirst(text, pat, rep);
      assert r == text[..i] + rep + text[i + |pat|..];
      assert r[i + |rep|..] == text[i + |pat|..];
      assert text == text[..i] + pat + text[i + |pat|..];
    }
  }

  /** No part of `split(sep)` holds the separator. */
  lemma {:induction false} SplitPartsFree(s: string, sep: string)
    requires |sep| > 0
    ensures forall k :: 0 <= k < |Split(s, sep)| ==> !Contains(Split(s, sep)[k], sep)
    decreases |s|
  {
    match IndexOf(s, sep)
    case None =>
    case Some(i) =>
      var rest := s[i + |sep|..];
      SplitPartsFree(rest, sep);
      PrefixBeforeFirst(s, sep, i);
      assert Split(s, sep) == [s[..i]] + Split(rest, sep);
  }

  /**
   * The global replacement `s.replace(/O[^C]*C/g, "")` for an opening
   * character O and a different closing character C: each O that has a C
   * somewhere after it is removed together with everything up to and
   * including the first such C. With '<' and '>' this strips HTML tags; with
   * '(' and ')' it strips parenthetical remarks.
   */
  function StripDelimited(s: string, open: char, close: char): (r: string)
    requires open != close
    ensures |r| <= |s|
    ensures forall c :: c in r ==> c in s
    ensures forall i, j :: 0 <= i < j < |r| && r[i] == open ==> r[j] != close
    decreases |s|
  {
    if s == [] then []
    else if s[0] == open then
      match IndexOfFrom(s, [close], 1)
      case Some(q) => StripDelimited(s[q + 1..], open, close)
      case None =>
        var rest := StripDelimited(s[1..], open, close);
        assert forall c :: c in s[1..] ==> c != close by {
          forall c | c in s[1..] ensures c != close {
            var k :| 0 <= k < |s[1..]| && s[1..][k] == c;
            assert !OccursAt(s, [close], k + 1);
          }
        }
        assert forall j :: 0 <= j < |rest| ==> rest[j] != close by {
          forall j | 0 <= j < |rest| ensures rest[j] != close {
            assert rest[j] in rest;
          }
        }
        [s[0]] + rest
    else [s[0]] + StripDelimited(s[1..], open, close)
  }

  /**
   * `s.split(/\s+/)` with the empty strings filtered out: the maximal runs of
   * non-whitespace characters, in order.
   */
  function Words(s: string): (r: seq<string>)
    ensures forall k :: 0 <= k < |r| ==> |r[k]| > 0
    ensures forall k, i :: 0 <= k < |r| && 0 <= i < |r[k]| ==> !IsSpace(r[k][i])
    decreases |s|
  {
    var t := s[LeadingSpaces(s)..];
    if t == [] then []
    else
      var n := LeadingNonSpaces(t);
      assert t[0] == s[LeadingSpaces(s)];
      [t[..n]] + Words(t[n..])
  }

  // ---------------------------------------------------------------------
  // Words and the whitespace between them
  // ---------------------------------------------------------------------

  /** `gaps[0] + words[0] + gaps[1] + … + words[n - 1] + gaps[n]`. */
  function Interleave(gaps: seq<string>, words: seq<string>): string
    requires |gaps| == |words| + 1
    decreases |words|
  {
    if words == [] then gaps[0] else gaps[0] + words[0] + Interleave(gaps[1..], words[1..])
  }

  /**
   * Words set apart by whitespace: every gap is whitespace, the gaps between
   * two words are not empty, and every word is a non-empty run without
   * whitespace.
   */
  ghost predicate Separates(gaps: seq<string>, words: seq<string>) {
    && |gaps| == |words| + 1
    && (forall k :: 0 <= k < |gaps| ==> AllSpace(gaps[k]))
    && (forall k :: 0 < k < |words| ==> gaps[k] != [])
    && (forall k :: 0 <= k < |words| ==> words[k] != [] && NoSpace(words[k]))
  }

  /** The whitespace runs around the words of `s`: before the first word, between words, after the last. */
  function Gaps(s: string): (r: seq<string>)
    ensures |r| == |Words(s)| + 1
    ensures r[0] == s[..LeadingSpaces(s)]
    decreases |s|
  {
    var lead := LeadingSpaces(s);
    var t := s[lead..];
    if t == [] then
      assert s[..lead] == s;
      [s]
    else
      var n := LeadingNonSpaces(t);
      [s[..lead]] + Gaps(t[n..])
  }

  /** Whitespace in front of `x` adds to the whitespace `x` starts with. */
  lemma LeadingSpacesAfterGap(g: string, x: string)
    requires AllSpace(g)
    ensures LeadingSpaces(g + x) == |g| + LeadingSpaces(x)
  {
    var m := |g| + LeadingSpaces(x);
    assert forall i :: 0 <= i < m ==> IsSpace((g + x)[i]);
    assert m < |g + x| ==> (g + x)[m] == x[LeadingSpaces(x)];
  }

  /** A word in front of `x` adds to the non-whitespace `x` starts with. */
  lemma LeadingNonSpacesAfterWord(w: string, x: string)
    requires NoSpace(w)
    ensures LeadingNonSpaces(w + x) == |w| + LeadingNonSpaces(x)
  {
    var m := |w| + LeadingNonSpaces(x);
    assert forall i :: 0 <= i < m ==> !IsSpace((w + x)[i]);
    assert m < |w + x| ==> (w + x)[m] == x[LeadingNonSpaces(x)];
  }

  /** A gap and a word in front of separated words. */
  lemma SeparatesCons(g: string, w: string, gaps: seq<string>, words: seq<string>)
    requires AllSpace(g) && w != [] && NoSpace(w)
    requires Separates(gaps, words)
    requires words != [] ==> gaps[0] != []
    ensures Separates([g] + gaps, [w] + words)
    ensures Interleave([g] + gaps, [w] + words) == g + w + Interleave(gaps, words)
  {
    var gs, ws := [g] + gaps, [w] + words;
    assert gs[1..] == gaps && ws[1..] == words;
    assert forall k :: 0 < k < |gs| ==> gs[k] == gaps[k - 1];
    assert forall k :: 0 < k < |ws| ==> ws[k] == words[k - 1];
  }

  /** Separated words without their first gap and word are still separated. */
  lemma SeparatesDropFirst(gaps: seq<string>, words: seq<string>)
    requires Separates(gaps, words) && words != []
    ensures Separates(gaps[1..], words[1..])
  {
    var gs, ws := gaps[1..], words[1..];
    assert forall k :: 0 <= k < |gs| ==> gs[k] == gaps[k + 1];
    assert forall k :: 0 <= k < |ws| ==> ws[k] == words[k + 1];
  }

  /** `Interleave` unfolded at its first gap and word. */
  lemma InterleaveCons(gaps: seq<string>, words: seq<string>)
    requires |gaps| == |words| + 1 && words != []
    ensures Interleave(gaps, words) == gaps[0] + (words[0] + Interleave(gaps[1..], words[1..]))
  {
    AppendAssociative(gaps[0], words[0], Interleave(gaps[1..], words[1..]));
  }

  /** An interleaving whose first gap is whitespace, and not empty unless no word follows, starts with whitespace. */
  lemma InterleaveStartsWithGap(gaps: seq<string>, words: seq<string>)
    requires |gaps| == |words| + 1 && AllSpace(gaps[0])
    requires words != [] ==> gaps[0] != []
    ensures Interleave(gaps, words) == [] || IsSpace(Interleave(gaps, words)[0])
  {
    if words != [] {
      InterleaveCons(gaps, words);
      assert Interleave(gaps, words)[0] == gaps[0][0];
    }
  }

  /** Separated words without their first gap and word. */
  lemma SeparatesTail(gaps: seq<string>, words: seq<string>)
    requires Separates(gaps, words) && words != []
    ensures Separates(gaps[1..], words[1..])
    ensures Interleave(gaps, words) == gaps[0] + (words[0] + Interleave(gaps[1..], words[1..]))
    ensures var rest := Interleave(gaps[1..], words[1..]); rest == [] || IsSpace(rest[0])
  {
    SeparatesDropFirst(gaps, words);
    InterleaveCons(gaps, words);
    InterleaveStartsWithGap(gaps[1..], words[1..]);
  }

  /** `Words` and `Gaps` unfolded at the first word, `t[..n]`, of a text that has one. */
  lemma WordsUnfold(s: string, lead: nat, t: string, n: nat)
    requires lead == LeadingSpaces(s) && t == s[lead..] && t != [] && n == LeadingNonSpaces(t)
    ensures Words(s) == [t[..n]] + Words(t[n..])
    ensures Gaps(s) == [s[..lead]] + Gaps(t[n..])
  {
  }

  /** The leading whitespace, the first word and the rest of a text that has a word. */
  lemma FirstWordSplit(s: string, lead: nat, t: string, n: nat)
    requires lead == LeadingSpaces(s) && t == s[lead..] && t != [] && n == LeadingNonSpaces(t)
    ensures s == s[..lead] + t[..n] + t[n..]
    ensures AllSpace(s[..lead]) && t[..n] != [] && NoSpace(t[..n])
    ensures t[n..] == [] || IsSpace(t[n..][0])
  {
    assert t[0] == s[lead];
    SplitThree(s, lead, lead + n);
    assert s[lead..lead + n] == t[..n] && s[lead + n..] == t[n..];
  }

  /** A sequence is its three pieces cut at `i` and `j`. */
  lemma SplitThree<T>(s: seq<T>, i: nat, j: nat)
    requires i <= j <= |s|
    ensures s == s[..i] + s[i..j] + s[j..]
  {
    assert s == s[..i] + s[i..];
    assert s[i..] == s[i..j] + s[j..];
    AppendAssociative(s[..i], s[i..j], s[j..]);
  }

  /** One step of `Words` and `Gaps`: the leading gap, the first word, and the rest. */
  lemma WordsStep(s: string) returns (g: string, w: string, rest: string)
    requires Words(s) != []
    ensures s == g + w + rest && |rest| < |s|
    ensures AllSpace(g) && w != [] && NoSpace(w)
    ensures Gaps(s) == [g] + Gaps(rest) && Words(s) == [w] + Words(rest)
    ensures rest == [] || IsSpace(rest[0])
  {
    var lead := LeadingSpaces(s);
    var t := s[lead..];
    var n := LeadingNonSpaces(t);
    g, w, rest := s[..lead], t[..n], t[n..];
    WordsUnfold(s, lead, t, n);
    FirstWordSplit(s, lead, t, n);
  }

  /** The gaps and words of a text separate it. */
  lemma {:induction false} WordsSeparated(s: string)
    ensures Separates(Gaps(s), Words(s))
    decreases |s|
  {
    if Words(s) == [] {
      var lead := LeadingSpaces(s);
      assert s[lead..] == [];
      assert AllSpace(s);
    } else {
      var g, w, rest := WordsStep(s);
      WordsSeparated(rest);
      assert Words(rest) != [] ==> Gaps(rest)[0] != [] by {
        if rest != [] {
          assert IsSpace(rest[0]);
        }
      }
      SeparatesCons(g, w, Gaps(rest), Words(rest));
    }
  }

  /** Every text is its words with the whitespace runs between them. */
  lemma {:induction false} WordsSplitText(s: string)
    ensures Separates(Gaps(s), Words(s))
    ensures Interleave(Gaps(s), Words(s)) == s
    decreases |s|
  {
    WordsSeparated(s);
    if Words(s) == [] {
      var lead := LeadingSpaces(s);
      assert s[lead..] == [];
      assert Gaps(s) == [s];
    } else {
      var g, w, rest := WordsStep(s);
      WordsSplitText(rest);
      SeparatesCons(g, w, Gaps(rest), Words(rest));
    }
  }

  /** Whitespace alone has no words. */
  lemma WordsOfSpace(g: string)
    requires AllSpace(g)
    ensures Words(g) == []
  {
    assert g[LeadingSpaces(g)..] == [];
  }

  /** A gap, a word and a rest that starts with whitespace: the word comes first, then the words of the rest. */
  lemma WordsOfGapWord(g: string, w: string, rest: string)
    requires AllSpace(g) && w != [] && NoSpace(w)
    requires rest == [] || IsSpace(rest[0])
    ensures Words(g + (w + rest)) == [w] + Words(rest)
  {
    var x := w + rest;
    var s := g + x;
    assert x[0] == w[0];
    LeadingSpacesAfterGap(g, x);
    assert LeadingSpaces(s) == |g|;
    var t := s[|g|..];
    assert t == x;
    LeadingNonSpacesAfterWord(w, rest);
    assert LeadingNonSpaces(t) == |w|;
    WordsUnfold(s, |g|, t, |w|);
    assert t[..|w|] == w && t[|w|..] == rest;
  }

  /** Words separated by whitespace are exactly what `Words` finds. */
  lemma {:induction false} WordsOfInterleave(gaps: seq<string>, words: seq<string>)
    requires Separates(gaps, words)
    ensures Words(Interleave(gaps, words)) == words
    decreases |words|
  {
    if words == [] {
      WordsOfSpace(gaps[0]);
    } else {
      SeparatesTail(gaps, words);
      WordsOfInterleave(gaps[1..], words[1..]);
      WordsOfGapWord(gaps[0], words[0], Interleave(gaps[1..], words[1..]));
      assert words == [words[0]] + words[1..];
    }
  }

  /** Each non-empty gap shrunk to a single space. */
  function Squash(gaps: seq<string>): (r: seq<string>)
    ensures |r| == |gaps|
    ensures forall k :: 0 <= k < |r| ==> r[k] == (if gaps[k] == [] then [] else " ")
  {
    seq(|gaps|, k requires 0 <= k < |gaps| => if gaps[k] == [] then [] else " ")
  }

  /** A whitespace run in front of a non-whitespace character collapses to one space. */
  lemma CollapseGap(g: string, x: string)
    requires AllSpace(g)
    requires x == [] || !IsSpace(x[0])
    ensures CollapseSpaces(g + x) == (if g == [] then [] else " ") + CollapseSpaces(x)
  {
    if g == [] {
      assert g + x == x;
    } else {
      LeadingSpacesAfterGap(g, x);
      assert LeadingSpaces(x) == 0;
      assert (g + x)[|g|..] == x;
    }
  }

  /** A word is copied as it is. */
  lemma {:induction false} CollapseWord(w: string, x: string)
    requires NoSpace(w)
    ensures CollapseSpaces(w + x) == w + CollapseSpaces(x)
    decreases |w|
  {
    if w == [] {
      assert w + x == x;
    } else {
      assert (w + x)[0] == w[0] && (w + x)[1..] == w[1..] + x;
      CollapseWord(w[1..], x);
      assert w == [w[0]] + w[1..];
    }
  }

  /** A gap and a word collapse to at most one space and the word itself. */
  lemma CollapseGapWord(g: string, w: string, rest: string)
    requires AllSpace(g) && w != [] && NoSpace(w)
    ensures CollapseSpaces(g + (w + rest)) == (if g == [] then [] else " ") + (w + CollapseSpaces(rest))
  {
    assert (w + rest)[0] == w[0];
    CollapseGap(g, w + rest);
    CollapseWord(w, rest);
  }

  /** `Squash` works gap by gap. */
  lemma SquashCons(gaps: seq<string>)
    requires gaps != []
    ensures Squash(gaps)[0] == (if gaps[0] == [] then [] else " ")
    ensures Squash(gaps)[1..] == Squash(gaps[1..])
  {
  }

  /** Collapsing keeps the words and turns each whitespace run into one space. */
  lemma {:induction false} CollapseInterleave(gaps: seq<string>, words: seq<string>)
    requires Separates(gaps, words)
    ensures CollapseSpaces(Interleave(gaps, words)) == Interleave(Squash(gaps), words)
    decreases |words|
  {
    SquashCons(gaps);
    if words == [] {
      CollapseGap(gaps[0], []);
      assert gaps[0] + [] == gaps[0];
    } else {
      SeparatesTail(gaps, words);
      CollapseInterleave(gaps[1..], words[1..]);
      CollapseGapWord(gaps[0], words[0], Interleave(gaps[1..], words[1..]));
      InterleaveCons(Squash(gaps), words);
    }
  }

  /** `CollapseSpaces`, stated on the words of its input. */
  lemma CollapseKeepsWords(s: string)
    ensures CollapseSpaces(s) == Interleave(Squash(Gaps(s)), Words(s))
  {
    WordsSplitText(s);
    CollapseInterleave(Gaps(s), Words(s));
  }

  /** Joined words begin with the first word's first character and end with the last word's last one. */
  lemma {:induction false} JoinedWordsEnds(words: seq<string>)
    requires forall k :: 0 <= k < |words| ==> words[k] != [] && NoSpace(words[k])
    ensures words == [] <==> Join(words, " ") == []
    ensures words != [] ==> !IsSpace(Join(words, " ")[0]) && !IsSpace(Join(words, " ")[|Join(words, " ")| - 1])
    decreases |words|
  {
    if |words| > 1 {
      JoinedWordsEnds(words[1..]);
      var j := Join(words[1..], " ");
      assert Join(words, " ") == words[0] + " " + j;
      assert Join(words, " ")[|Join(words, " ")| - 1] == j[|j| - 1];
    }
  }

  /** Regrouping five pieces of text. */
  lemma Regroup(a: string, w: string, b: string, j: string, e: string)
    ensures a + (w + (b + j + e)) == a + (w + b + j) + e
  {
  }

  /** `Join` unfolded at its first part, when there are at least two. */
  lemma JoinCons(parts: seq<string>, sep: string)
    requires |parts| > 1
    ensures Join(parts, sep) == parts[0] + sep + Join(parts[1..], sep)
  {
  }

  /** With squashed gaps, the interleaving is the joined words with at most a space at each end. */
  lemma {:induction false} SquashedIsJoined(gaps: seq<string>, words: seq<string>)
    requires Separates(gaps, words) && words != []
    ensures Interleave(Squash(gaps), words) == Squash(gaps)[0] + Join(words, " ") + Squash(gaps)[|words|]
    decreases |words|
  {
    SquashCons(gaps);
    InterleaveCons(Squash(gaps), words);
    if |words| == 1 {
      assert Interleave(Squash(gaps)[1..], words[1..]) == Squash(gaps)[1];
      AppendAssociative(Squash(gaps)[0], words[0], Squash(gaps)[1]);
    } else {
      SeparatesDropFirst(gaps, words);
      SquashedIsJoined(gaps[1..], words[1..]);
      assert Squash(gaps[1..])[0] == " " && Squash(gaps[1..])[|words| - 1] == Squash(gaps)[|words|];
      JoinCons(words, " ");
      Regroup(Squash(gaps)[0], words[0], " ", Join(words[1..], " "), Squash(gaps)[|words|]);
    }
  }

  /** Whitespace after a text that ends in non-whitespace is exactly its trailing whitespace. */
  lemma TrailingSpacesAfterEnd(x: string, b: string)
    requires AllSpace(b) && x != [] && !IsSpace(x[|x| - 1])
    ensures TrailingSpaces(x + b) == |b|
  {
    var s := x + b;
    assert forall i :: |x| <= i < |s| ==> IsSpace(s[i]);
    assert s[|x| - 1] == x[|x| - 1];
  }

  /** Text whose first character is not whitespace has no leading whitespace. */
  lemma NoLeadingSpaces(x: string)
    requires x != [] && !IsSpace(x[0])
    ensures LeadingSpaces(x) == 0
  {
  }

  /** Trimming whitespace-only padding from text with non-whitespace ends gives the text. */
  lemma TrimPaddedWord(a: string, j: string, b: string)
    requires AllSpace(a) && AllSpace(b)
    requires j != [] && !IsSpace(j[0]) && !IsSpace(j[|j| - 1])
    ensures Trim(a + (j + b)) == j
  {
    var x := j + b;
    assert x[0] == j[0];
    NoLeadingSpaces(x);
    LeadingSpacesAfterGap(a, x);
    assert (a + x)[|a|..] == x;
    TrailingSpacesAfterEnd(j, b);
    assert x[..|j|] == j;
  }

  /** Trimming whitespace-only padding gives back text with non-whitespace ends. */
  lemma TrimPadded(a: string, j: string, b: string)
    requires AllSpace(a) && AllSpace(b)
    requires j == [] || (!IsSpace(j[0]) && !IsSpace(j[|j| - 1]))
    ensures Trim(a + j + b) == j
  {
    AppendAssociative(a, j, b);
    if j == [] {
      var s := a + j + b;
      assert forall i :: 0 <= i < |s| ==> IsSpace(s[i]) by {
        assert s == a + b;
      }
    } else {
      TrimPaddedWord(a, j, b);
    }
  }

  /** Separated words with squashed gaps, trimmed, are the words joined by single spaces. */
  lemma TrimSquashed(gaps: seq<string>, words: seq<string>)
    requires Separates(gaps, words)
    ensures Trim(Interleave(Squash(gaps), words)) == Join(words, " ")
  {
    var sq := Squash(gaps);
    assert AllSpace(sq[0]) && AllSpace(sq[|words|]);
    if words == [] {
      assert Interleave(sq, words) == sq[0] + [] + [];
      TrimPadded(sq[0], [], []);
    } else {
      var j := Join(words, " ");
      SquashedIsJoined(gaps, words);
      JoinedWordsEnds(words);
      TrimPadded(sq[0], j, sq[|words|]);
    }
  }

  /** `normalizeWhitespace` gives the words of the text separated by single spaces. */
  lemma NormalizeIsJoinedWords(s: string)
    ensures NormalizeWhitespace(s) == Join(Words(s), " ")
  {
    CollapseKeepsWords(s);
    WordsSeparated(s);
    TrimSquashed(Gaps(s), Words(s));
  }

  // ---------------------------------------------------------------------
  // StripDelimited on the groups it removes
  // ---------------------------------------------------------------------

  /** Text in which no opening character has a closing one after it is left as it is. */
  lemma {:induction false} StripDelimitedNoGroup(s: string, open: char, close: char)
    requires open != close
    requires forall i, j :: 0 <= i < j < |s| && s[i] == open ==> s[j] != close
    ensures StripDelimited(s, open, close) == s
    decreases |s|
  {
    if s != [] {
      StripDelimitedNoGroup(s[1..], open, close);
      if s[0] == open {
        forall j | 1 <= j ensures !OccursAt(s, [close], j) {
          if j < |s| {
            assert s[j..j + 1][0] == s[j];
          }
        }
      }
      assert s == [s[0]] + s[1..];
    }
  }

  /** `indexOf` finds an occurrence that no earlier one precedes. */
  lemma IndexOfFromIs(text: string, pat: string, from: nat, q: nat)
    requires from <= q && OccursAt(text, pat, q)
    requires forall j :: from <= j < q ==> !OccursAt(text, pat, j)
    ensures IndexOfFrom(text, pat, from) == Some(q)
  {
    var r := IndexOfFrom(text, pat, from);
    assert r.Some?;
    assert !(r.value < q);
    assert !(q < r.value);
  }

  /** In an opening character, a group body without a closing one, and the closing one, the first closing character found is that one. */
  lemma GroupClose(g: string, b: string, open: char, close: char)
    requires forall i :: 0 <= i < |g| ==> g[i] != close
    ensures IndexOfFrom([open] + g + [close] + b, [close], 1) == Some(|g| + 1)
  {
    var s := [open] + g + [close] + b;
    var q := |g| + 1;
    assert s[q..q + 1] == [close];
    forall j | 1 <= j < q ensures !OccursAt(s, [close], j) {
      assert s[j] == g[j - 1];
      assert s[j..j + 1][0] == s[j];
    }
    IndexOfFromIs(s, [close], 1, q);
  }

  /** A group at the start of the text goes, with everything up to its closing character. */
  lemma StripDelimitedAtGroup(g: string, b: string, open: char, close: char)
    requires open != close
    requires forall i :: 0 <= i < |g| ==> g[i] != close
    ensures StripDelimited([open] + g + [close] + b, open, close) == StripDelimited(b, open, close)
  {
    var s := [open] + g + [close] + b;
    GroupClose(g, b, open, close);
    assert s[0] == open;
    assert s[|g| + 2..] == b;
  }

  /** A character other than the opening one is kept. */
  lemma StripDelimitedKeep(s: string, open: char, close: char)
    requires open != close && s != [] && s[0] != open
    ensures StripDelimited(s, open, close) == [s[0]] + StripDelimited(s[1..], open, close)
  {
  }

  /**
   * One group: text `a` without an opening character, then an opening
   * character, text `g` without a closing one, and the closing character.
   * The group goes; `a` stays and the rest is stripped in turn.
   */
  lemma {:induction false} StripDelimitedGroup(a: string, g: string, b: string, open: char, close: char)
    requires open != close
    requires forall i :: 0 <= i < |a| ==> a[i] != open
    requires forall i :: 0 <= i < |g| ==> g[i] != close
    ensures StripDelimited(a + [open] + g + [close] + b, open, close) == a + StripDelimited(b, open, close)
    decreases |a|
  {
    if a == [] {
      assert a + [open] + g + [close] + b == [open] + g + [close] + b;
      StripDelimitedAtGroup(g, b, open, close);
    } else {
      var s := a + [open] + g + [close] + b;
      var s' := a[1..] + [open] + g + [close] + b;
      assert s[0] == a[0] && s[1..] == s';
      StripDelimitedKeep(s, open, close);
      StripDelimitedGroup(a[1..], g, b, open, close);
      assert a == [a[0]] + a[1..];
      AppendAssociative([a[0]], a[1..], StripDelimited(b, open, close));
    }
  }

  /** Decimal value of a string of ASCII digits (`Number("05") == 5`). */
  function DecimalValue(digits: string): (n: nat)
    requires forall i :: 0 <= i < |digits| ==> IsDigit(digits[i])
    decreases |digits|
  {
    if digits == [] then 0
    else
      var last := digits[|digits| - 1];
      assert IsDigit(last);
      assert last as int >= '0' as int;
      10 * DecimalValue(digits[..|digits| - 1]) + (last as int - '0' as int)
  }
}
