/**
 * The result assembly of the viewer: the search filter (`filterBySearch`),
 * the month-range filter (`isWithinRange`), the stable date sort and the
 * session state `getFilteredEntries` reads (app.js:469-490, 821-868,
 * 988-1019, 1246-1247).
 */
module QueryEngine {
  import opened Common
  import opened Text
  import opened Calendar

  /** `Array.prototype.filter`: the elements satisfying `p`, in their original order. */
  function Filter<T>(s: seq<T>, p: T -> bool): (r: seq<T>)
    ensures |r| <= |s|
    decreases |s|
  {
    if s == [] then [] else (if p(s[0]) then [s[0]] else []) + Filter(s[1..], p)
  }

  /** The filter keeps exactly the elements satisfying `p`, each as often as it occurs. */
  lemma {:induction false} FilterElements<T(!new)>(s: seq<T>, p: T -> bool)
    ensures forall x :: x in Filter(s, p) <==> x in s && p(x)
    ensures multiset(Filter(s, p)) <= multiset(s)
    decreases |s|
  {
    if s != [] {
      FilterElements(s[1..], p);
      assert s == [s[0]] + s[1..];
    }
  }

  /** Filtering distributes over concatenation, so it keeps the relative order of what it keeps. */
  lemma {:induction false} FilterAppend<T>(a: seq<T>, b: seq<T>, p: T -> bool)
    ensures Filter(a + b, p) == Filter(a, p) + Filter(b, p)
    decreases |a|
  {
    if a == [] {
      assert a + b == b;
    } else {
      var head := if p(a[0]) then [a[0]] else [];
      FilterAppend(a[1..], b, p);
      assert (a + b)[1..] == a[1..] + b;
      assert Filter(a + b, p) == head + (Filter(a[1..], p) + Filter(b, p));
      assert Filter(a, p) == head + Filter(a[1..], p);
    }
  }

  /** Filters with predicates that agree on every element give the same result. */
  lemma {:induction false} FilterCongruent<T>(s: seq<T>, p: T -> bool, q: T -> bool)
    requires forall x :: x in s ==> p(x) == q(x)
    ensures Filter(s, p) == Filter(s, q)
    decreases |s|
  {
    if s != [] {
      FilterCongruent(s[1..], p, q);
    }
  }

  // ---------------------------------------------------------------------
  // filterBySearch (app.js:469-490)
  // ---------------------------------------------------------------------

  /** The text a term is looked for in: content, a space, the date label, lowercased. */
  function SearchableText(entry: Entry): string {
    Lower(entry.content + " " + entry.dateText)
  }

  /**
   * The searchable text is the lowercased content and the lowercased date
   * label around one space, so a term found in either one is found in it.
   */
  lemma SearchableTextParts(entry: Entry, term: string)
    ensures SearchableText(entry) == Lower(entry.content) + " " + Lower(entry.dateText)
    ensures Contains(Lower(entry.content), Lower(term)) || Contains(Lower(entry.dateText), Lower(term)) ==>
      Contains(SearchableText(entry), Lower(term))
  {
    var content, date, t := Lower(entry.content), Lower(entry.dateText), Lower(term);
    SearchableTextIs(entry);
    if Contains(content, t) {
      ContainsInAppend(content, " " + date, t);
      assert content + (" " + date) == content + " " + date;
    } else if Contains(date, t) {
      ContainsInAppend(content + " ", date, t);
    }
  }

  /** Lowercasing the joined text is joining the lowercased parts. */
  lemma SearchableTextIs(entry: Entry)
    ensures SearchableText(entry) == Lower(entry.content) + " " + Lower(entry.dateText)
  {
    LowerAppend(entry.content + " ", entry.dateText);
    LowerAppend(entry.content, " ");
    assert Lower(" ") == " ";
  }

  /** `searchTerms.some(...)`: some lowercased term occurs in `text`. Both branches of `isExact` test the same. */
  function AnyTermOccurs(text: string, terms: seq<SearchTerm>): (b: bool)
    ensures b <==> exists k :: 0 <= k < |terms| && Contains(text, Lower(terms[k].term))
    decreases |terms|
  {
    if terms == [] then false
    else
      var lowerTerm := Lower(terms[0].term);
      // The exact-phrase and keyword branches are the same test on purpose, as at app.js:481-487.
      var found := if terms[0].isExact then Contains(text, lowerTerm) else Contains(text, lowerTerm);
      assert forall k :: 1 <= k < |terms| ==> terms[k] == terms[1..][k - 1];
      found || AnyTermOccurs(text, terms[1..])
  }

  /** The filter callback of `filterBySearch`. */
  function MatchesSearch(terms: seq<SearchTerm>): Entry -> bool {
    entry => AnyTermOccurs(SearchableText(entry), terms)
  }

  /** `filterBySearch(entries, searchTerms)`: with no terms the entries themselves, else the matching ones. */
  function FilterBySearch(entries: seq<Entry>, terms: seq<SearchTerm>): (r: seq<Entry>)
    ensures terms == [] ==> r == entries
    ensures |r| <= |entries|
    ensures forall e :: e in r <==>
      e in entries && (terms == [] || exists k :: 0 <= k < |terms| && Contains(SearchableText(e), Lower(terms[k].term)))
  {
    if terms == [] then entries
    else
      FilterElements(entries, MatchesSearch(terms));
      Filter(entries, MatchesSearch(terms))
  }

  /** The search filter works entry by entry: it keeps the relative order of the entries it keeps. */
  lemma FilterBySearchAppend(a: seq<Entry>, b: seq<Entry>, terms: seq<SearchTerm>)
    ensures FilterBySearch(a + b, terms) == FilterBySearch(a, terms) + FilterBySearch(b, terms)
  {
    if terms != [] {
      FilterAppend(a, b, MatchesSearch(terms));
    }
  }

  /** `isExact` never changes which entries the search keeps: only the term texts matter. */
  lemma ExactnessIrrelevant(entries: seq<Entry>, terms: seq<SearchTerm>, others: seq<SearchTerm>)
    requires |terms| == |others|
    requires forall k :: 0 <= k < |terms| ==> terms[k].term == others[k].term
    ensures FilterBySearch(entries, terms) == FilterBySearch(entries, others)
  {
    if terms != [] {
      forall e | e in entries
        ensures MatchesSearch(terms)(e) == MatchesSearch(others)(e)
      {
        var text := SearchableText(e);
        assert AnyTermOccurs(text, terms) ==> AnyTermOccurs(text, others) by {
          if AnyTermOccurs(text, terms) {
            var k :| 0 <= k < |terms| && Contains(text, Lower(terms[k].term));
            assert Contains(text, Lower(others[k].term));
          }
        }
        assert AnyTermOccurs(text, others) ==> AnyTermOccurs(text, terms) by {
          if AnyTermOccurs(text, others) {
            var k :| 0 <= k < |others| && Contains(text, Lower(others[k].term));
            assert Contains(text, Lower(terms[k].term));
          }
        }
      }
      FilterCongruent(entries, MatchesSearch(terms), MatchesSearch(others));
    }
  }

  // ---------------------------------------------------------------------
  // isWithinRange (app.js:821-868)
  // ---------------------------------------------------------------------

  /**
   * The value of a `<input type="month">` field: empty, malformed (a part
   * that `Number` turns into NaN), or a year and a month number 1..12 or
   * beyond.
   */
  datatype MonthInput = Blank | Malformed | YearMonth(year: int, month: int)

  /**
   * `new Date(y, m - 1 + carry, 1)` for the field's year and month: the first
   * day of that month (carry 0) or of the next one (carry 1); None where the
   * source's Date is invalid (a NaN part, or outside the time-value range).
   */
  function MonthBound(input: MonthInput, carry: int): Option<int> {
    match input
    case YearMonth(y, m) => MakeDate(y, m - 1 + carry, 1)
    case _ => None
  }

  /**
   * `isWithinRange(entry)`: an undated entry always passes; a dated one fails
   * when it is before the first day of the start month or on or after the
   * first day of the month after the end month. A comparison with an invalid
   * Date is false, so a bound that is not a valid Date excludes nothing.
   */
  function IsWithinRange(entry: Entry, start: MonthInput, end: MonthInput): (b: bool)
    ensures entry.date.None? ==> b
  {
    if entry.date.None? then true
    else
      var d := entry.date.value;
      var afterStart := match MonthBound(start, 0) case Some(t) => !(d < t) case None => true;
      var beforeEnd := match MonthBound(end, 1) case Some(t) => !(d >= t) case None => true;
      afterStart && beforeEnd
  }

  /** The filter callback `isWithinRange` for the current month fields. */
  function InRange(start: MonthInput, end: MonthInput): Entry -> bool {
    entry => IsWithinRange(entry, start, end)
  }

  /** The end bound of a December is the first of January of the next year. */
  lemma DecemberCarriesYear(y: int)
    requires y >= 100
    ensures MonthBound(YearMonth(y, 12), 1) == MakeDate(y + 1, 0, 1)
  {
    assert MakeDay(y, 12, 1) == MakeDay(y + 1, 0, 1);
  }

  /** Instant of the first day of month number `k` (month m of year y is `12 * y + m - 1`). */
  function MonthInstant(k: int): int {
    DayStartMs(MonthStart(k))
  }

  /** A valid month bound is the first instant of the month it names, counted in full years. */
  lemma MonthBoundIsMonthInstant(y: int, m: int, carry: int)
    requires MonthBound(YearMonth(y, m), carry).Some?
    ensures MonthBound(YearMonth(y, m), carry).value == MonthInstant(12 * FullYear(y) + m - 1 + carry)
  {
    MakeDayIsMonthStart(FullYear(y), m - 1 + carry, 1, 12 * FullYear(y) + m - 1 + carry);
  }

  /**
   * With two valid bounds, a dated entry passes exactly when it lies in
   * [first instant of the start month, first instant of the month after the end month).
   */
  lemma WithinRangeIff(entry: Entry, sy: int, sm: int, ey: int, em: int)
    requires entry.date.Some?
    requires MonthBound(YearMonth(sy, sm), 0).Some? && MonthBound(YearMonth(ey, em), 1).Some?
    ensures IsWithinRange(entry, YearMonth(sy, sm), YearMonth(ey, em)) <==>
      MonthInstant(12 * FullYear(sy) + sm - 1) <= entry.date.value < MonthInstant(12 * FullYear(ey) + em)
  {
    MonthBoundIsMonthInstant(sy, sm, 0);
    MonthBoundIsMonthInstant(ey, em, 1);
  }

  /** A start month after the end month excludes every dated entry. */
  lemma InvertedRangeExcludesDated(entry: Entry, sy: int, sm: int, ey: int, em: int)
    requires entry.date.Some?
    requires MonthBound(YearMonth(sy, sm), 0).Some? && MonthBound(YearMonth(ey, em), 1).Some?
    requires 12 * FullYear(sy) + sm > 12 * FullYear(ey) + em
    ensures !IsWithinRange(entry, YearMonth(sy, sm), YearMonth(ey, em))
  {
    var first, after := 12 * FullYear(sy) + sm - 1, 12 * FullYear(ey) + em;
    MonthBoundIsMonthInstant(sy, sm, 0);
    MonthBoundIsMonthInstant(ey, em, 1);
    MonthInstantMonotone(after, first);
    BoundsCrossed(entry, YearMonth(sy, sm), YearMonth(ey, em));
  }

  /** Bounds that cross leave no room for a dated entry. */
  lemma BoundsCrossed(entry: Entry, start: MonthInput, end: MonthInput)
    requires entry.date.Some?
    requires MonthBound(start, 0).Some? && MonthBound(end, 1).Some?
    requires MonthBound(end, 1).value <= MonthBound(start, 0).value
    ensures !IsWithinRange(entry, start, end)
  {
  }

  /** Later months start at later instants. */
  lemma MonthInstantMonotone(j: int, k: int)
    requires j <= k
    ensures MonthInstant(j) <= MonthInstant(k)
  {
    MonthStartMonotone(j, k);
    DayStartMonotone(MonthStart(j), MonthStart(k));
  }

  /** With only a valid start month, a dated entry passes exactly when it is not before that month's first instant. */
  lemma WithinRangeStartOnly(entry: Entry, sy: int, sm: int)
    requires entry.date.Some?
    requires MonthBound(YearMonth(sy, sm), 0).Some?
    ensures IsWithinRange(entry, YearMonth(sy, sm), Blank) <==>
      MonthInstant(12 * FullYear(sy) + sm - 1) <= entry.date.value
  {
    MonthBoundIsMonthInstant(sy, sm, 0);
  }

  /** With only a valid end month, a dated entry passes exactly when it is before the first instant of the month after it. */
  lemma WithinRangeEndOnly(entry: Entry, ey: int, em: int)
    requires entry.date.Some?
    requires MonthBound(YearMonth(ey, em), 1).Some?
    ensures IsWithinRange(entry, Blank, YearMonth(ey, em)) <==>
      entry.date.value < MonthInstant(12 * FullYear(ey) + em)
  {
    MonthBoundIsMonthInstant(ey, em, 1);
  }

  /** A bound that is not a valid Date (a month field out of the time-value range) is ignored like an empty field. */
  lemma InvalidBoundExcludesNothing(entry: Entry, start: MonthInput, end: MonthInput)
    ensures MonthBound(start, 0).None? ==> IsWithinRange(entry, start, end) == IsWithinRange(entry, Blank, end)
    ensures MonthBound(end, 1).None? ==> IsWithinRange(entry, start, end) == IsWithinRange(entry, start, Blank)
  {
  }

  /** A malformed month field is treated exactly like an empty one. */
  lemma MalformedExcludesNothing(entry: Entry, start: MonthInput, end: MonthInput)
    ensures IsWithinRange(entry, Malformed, end) == IsWithinRange(entry, Blank, end)
    ensures IsWithinRange(entry, start, Malformed) == IsWithinRange(entry, start, Blank)
    ensures IsWithinRange(entry, Malformed, Malformed)
  {
  }

  lemma SingleMonthRange(entry: Entry, y: int, m: int)
    requires entry.date.Some?
    requires MonthInstant(12 * FullYear(y) + m - 1) <= entry.date.value < MonthInstant(12 * FullYear(y) + m)
    requires MonthBound(YearMonth(y, m), 0).Some? && MonthBound(YearMonth(y, m), 1).Some?
    ensures IsWithinRange(entry, YearMonth(y, m), YearMonth(y, m))
  {
    WithinRangeIff(entry, y, m, y, m);
  }

  /** An entry dated on any real day of a month passes the range of that single month. */
  lemma DayOfMonthInRange(entry: Entry, y: int, m: int, d: int)
    requires 1 <= m <= 12 && 1 <= d <= DaysInMonth(FullYear(y), m)
    requires entry.date == Some(DayStartMs(MakeDay(FullYear(y), m - 1, d)))
    requires MonthBound(YearMonth(y, m), 0).Some? && MonthBound(YearMonth(y, m), 1).Some?
    ensures IsWithinRange(entry, YearMonth(y, m), YearMonth(y, m))
  {
    DayInstantWithinItsMonth(FullYear(y), m, d);
    SingleMonthRange(entry, y, m);
  }

  // ---------------------------------------------------------------------
  // The quick-range chips (app.js:124-160)
  // ---------------------------------------------------------------------

  /**
   * The month `back` months before month `month0` (0-based) of `year`, as
   * the `YYYY-MM` field value `new Date(year, month0 - back, 1)` gives; the
   * year comes from the clock, so it is past the two-digit years `Date`
   * maps into the 1900s.
   */
  function MonthsBack(year: int, month0: int, back: int): (r: MonthInput)
    requires year >= 100
    ensures r.YearMonth? && 1 <= r.month <= 12
    ensures 12 * r.year + r.month - 1 == 12 * year + month0 - back
  {
    YearMonth(year + (month0 - back) / 12, (month0 - back) % 12 + 1)
  }

  /**
   * The start field `handleQuickChip(range)` sets: two or five months back
   * for "3m" and "6m", December of the previous year for "ytd"; any other
   * range leaves the start year and month undefined, and the field value
   * "undefined-undefined" is malformed.
   */
  function QuickChipStart(range: string, year: int, month0: int): (r: MonthInput)
    requires year >= 100
    ensures r.Malformed? <==> range != "3m" && range != "6m" && range != "ytd"
  {
    if range == "3m" then MonthsBack(year, month0, 2)
    else if range == "6m" then MonthsBack(year, month0, 5)
    else if range == "ytd" then YearMonth(year - 1, 12)
    else Malformed
  }

  /** The end field every chip sets: the current month. */
  function QuickChipEnd(year: int, month0: int): MonthInput {
    YearMonth(year, month0 + 1)
  }

  /** Months from the start field through the end field, both included. */
  function MonthsSpanned(start: MonthInput, end: MonthInput): int
    requires start.YearMonth? && end.YearMonth?
  {
    (12 * end.year + end.month) - (12 * start.year + start.month) + 1
  }

  /**
   * "3m" and "6m" cover the last three and six months including the current
   * one; "ytd" runs from December of the previous year, so it covers the
   * current month number plus two (thirteen months in December).
   */
  lemma QuickChipSpans(range: string, year: int, month0: int)
    requires year >= 100 && 0 <= month0 < 12
    requires range == "3m" || range == "6m" || range == "ytd"
    ensures QuickChipStart(range, year, month0).YearMonth?
    ensures 1 <= QuickChipStart(range, year, month0).month <= 12
    ensures MonthsSpanned(QuickChipStart(range, year, month0), QuickChipEnd(year, month0)) ==
      if range == "3m" then 3 else if range == "6m" then 6 else month0 + 2
  {
  }

  // ---------------------------------------------------------------------
  // The date sort of getFilteredEntries (app.js:1003-1016)
  // ---------------------------------------------------------------------

  /**
   * The comparator passed to `sort`: undated entries after dated ones,
   * ascending by date for "oldest", descending otherwise.
   */
  function Compare(a: Entry, b: Entry, oldest: bool): int {
    if a.date.None? && b.date.None? then 0
    else if a.date.None? then 1
    else if b.date.None? then -1
    else if oldest then a.date.value - b.date.value
    else b.date.value - a.date.value
  }

  /** `a` must come strictly before `b`. */
  predicate Before(a: Entry, b: Entry, oldest: bool) {
    Compare(a, b, oldest) < 0
  }

  /** The comparator is antisymmetric, as `sort` requires of a consistent comparator. */
  lemma CompareAntisymmetric(a: Entry, b: Entry, oldest: bool)
    ensures Compare(a, b, oldest) == -Compare(b, a, oldest)
  {
  }

  /** `s` is in the comparator's order. */
  predicate Ordered(s: seq<Entry>, oldest: bool) {
    forall i, j :: 0 <= i < j < |s| ==> Compare(s[i], s[j], oldest) <= 0
  }

  /** The comparator is a total preorder: "not before" is transitive. */
  lemma NotBeforeTransitive(a: Entry, b: Entry, c: Entry, oldest: bool)
    requires !Before(a, b, oldest) && !Before(b, c, oldest)
    ensures !Before(a, c, oldest)
  {
  }

  /**
   * Insertion of `x` behind the elements of `sorted` that it does not have
   * to precede: the step of a stable insertion sort.
   */
  function Insert(sorted: seq<Entry>, x: Entry, oldest: bool): (r: seq<Entry>)
    ensures |r| == |sorted| + 1
    decreases |sorted|
  {
    if sorted == [] then [x]
    else
      var last := sorted[|sorted| - 1];
      if Before(x, last, oldest) then Insert(sorted[..|sorted| - 1], x, oldest) + [last]
      else sorted + [x]
  }

  /** Insertion adds `x` and loses nothing. */
  lemma {:induction false} InsertPermutes(sorted: seq<Entry>, x: Entry, oldest: bool)
    ensures multiset(Insert(sorted, x, oldest)) == multiset(sorted) + multiset{x}
    decreases |sorted|
  {
    if sorted != [] {
      var init := sorted[..|sorted| - 1];
      assert sorted == init + [sorted[|sorted| - 1]];
      InsertPermutes(init, x, oldest);
    }
  }

  /**
   * The stable sort of `visibleEntries` by the comparator: every element
   * inserted in turn, left to right.
   */
  function SortedByDate(s: seq<Entry>, oldest: bool): (r: seq<Entry>)
    ensures |r| == |s|
    decreases |s|
  {
    if s == [] then []
    else Insert(SortedByDate(s[..|s| - 1], oldest), s[|s| - 1], oldest)
  }

  /** The sort is a permutation of its input. */
  lemma {:induction false} SortedByDatePermutes(s: seq<Entry>, oldest: bool)
    ensures multiset(SortedByDate(s, oldest)) == multiset(s)
    decreases |s|
  {
    if s != [] {
      var init := s[..|s| - 1];
      assert s == init + [s[|s| - 1]];
      SortedByDatePermutes(init, oldest);
      InsertPermutes(SortedByDate(init, oldest), s[|s| - 1], oldest);
    }
  }

  /** Appending an element that no element has to follow keeps the order. */
  lemma AppendOrdered(s: seq<Entry>, y: Entry, oldest: bool)
    requires Ordered(s, oldest)
    requires forall i :: 0 <= i < |s| ==> Compare(s[i], y, oldest) <= 0
    ensures Ordered(s + [y], oldest)
  {
  }

  lemma {:induction false} InsertOrdered(sorted: seq<Entry>, x: Entry, oldest: bool)
    requires Ordered(sorted, oldest)
    ensures Ordered(Insert(sorted, x, oldest), oldest)
    decreases |sorted|
  {
    if sorted != [] {
      var last := sorted[|sorted| - 1];
      var init := sorted[..|sorted| - 1];
      if Before(x, last, oldest) {
        InsertOrdered(init, x, oldest);
        InsertedPrecede(init, x, last, oldest);
        AppendOrdered(Insert(init, x, oldest), last, oldest);
      } else {
        ExtendedPrecede(sorted, x, oldest);
        AppendOrdered(sorted, x, oldest);
      }
    }
  }

  /** Every element of `init` with `x` inserted may precede `last` when `x` must. */
  lemma InsertedPrecede(init: seq<Entry>, x: Entry, last: Entry, oldest: bool)
    requires Ordered(init + [last], oldest)
    requires Before(x, last, oldest)
    ensures forall i :: 0 <= i < |Insert(init, x, oldest)| ==> Compare(Insert(init, x, oldest)[i], last, oldest) <= 0
  {
    var r := Insert(init, x, oldest);
    InsertPermutes(init, x, oldest);
    forall i | 0 <= i < |r| ensures Compare(r[i], last, oldest) <= 0 {
      assert r[i] in multiset(init) + multiset{x};
      if r[i] != x {
        var j :| 0 <= j < |init| && init[j] == r[i];
        assert (init + [last])[j] == r[i] && (init + [last])[|init|] == last;
      }
    }
  }

  /** When `x` need not precede the last element, every element may precede `x`. */
  lemma ExtendedPrecede(sorted: seq<Entry>, x: Entry, oldest: bool)
    requires Ordered(sorted, oldest) && sorted != []
    requires !Before(x, sorted[|sorted| - 1], oldest)
    ensures forall i :: 0 <= i < |sorted| ==> Compare(sorted[i], x, oldest) <= 0
  {
    var last := sorted[|sorted| - 1];
    forall i | 0 <= i < |sorted| ensures Compare(sorted[i], x, oldest) <= 0 {
      if i < |sorted| - 1 {
        NotBeforeTransitive(x, last, sorted[i], oldest);
      }
      CompareAntisymmetric(sorted[i], x, oldest);
    }
  }

  /** The sort puts its input in the comparator's order. */
  lemma {:induction false} SortedByDateOrdered(s: seq<Entry>, oldest: bool)
    ensures Ordered(SortedByDate(s, oldest), oldest)
    decreases |s|
  {
    if s != [] {
      SortedByDateOrdered(s[..|s| - 1], oldest);
      InsertOrdered(SortedByDate(s[..|s| - 1], oldest), s[|s| - 1], oldest);
    }
  }

  /** The filter callback selecting the entries with date `d`. */
  function HasDate(d: Option<int>): Entry -> bool {
    (entry: Entry) => entry.date == d
  }

  /** Entries with different dates are never both kept, so their order among the kept ones does not matter. */
  lemma DistinctDatesCommute(x: Entry, y: Entry, d: Option<int>)
    requires x.date != y.date
    ensures Filter([x], HasDate(d)) + Filter([y], HasDate(d)) == Filter([y], HasDate(d)) + Filter([x], HasDate(d))
  {
    assert Filter([x], HasDate(d)) == if x.date == d then [x] else [];
    assert Filter([y], HasDate(d)) == if y.date == d then [y] else [];
  }

  /** Inserting `x` puts it behind every entry of its date already there. */
  lemma {:induction false} InsertStable(sorted: seq<Entry>, x: Entry, oldest: bool, d: Option<int>)
    ensures Filter(Insert(sorted, x, oldest), HasDate(d)) == Filter(sorted, HasDate(d)) + Filter([x], HasDate(d))
    decreases |sorted|
  {
    if sorted == [] {
      assert Filter(sorted, HasDate(d)) == [];
    } else {
      var last := sorted[|sorted| - 1];
      var init := sorted[..|sorted| - 1];
      assert sorted == init + [last];
      FilterAppend(init, [last], HasDate(d));
      if Before(x, last, oldest) {
        InsertStable(init, x, oldest, d);
        FilterAppend(Insert(init, x, oldest), [last], HasDate(d));
        var fi, fx, fl := Filter(init, HasDate(d)), Filter([x], HasDate(d)), Filter([last], HasDate(d));
        DistinctDatesCommute(x, last, d);
        AppendAssociative(fi, fx, fl);
        AppendAssociative(fi, fl, fx);
      } else {
        FilterAppend(sorted, [x], HasDate(d));
      }
    }
  }

  /** The sort is stable: entries with the same date keep their relative order. */
  lemma {:induction false} SortedByDateStable(s: seq<Entry>, oldest: bool, d: Option<int>)
    ensures Filter(SortedByDate(s, oldest), HasDate(d)) == Filter(s, HasDate(d))
    decreases |s|
  {
    if s != [] {
      var init := s[..|s| - 1];
      SortedByDateStable(init, oldest, d);
      InsertStable(SortedByDate(init, oldest), s[|s| - 1], oldest, d);
      assert s == init + [s[|s| - 1]];
      FilterAppend(init, [s[|s| - 1]], HasDate(d));
    }
  }

  /**
   * What the order means: undated entries come last, and dated entries
   * ascend for "oldest" and descend otherwise.
   */
  lemma OrderedMeaning(s: seq<Entry>, oldest: bool, i: int, j: int)
    requires Ordered(s, oldest)
    requires 0 <= i < j < |s|
    ensures s[i].date.None? ==> s[j].date.None?
    ensures s[i].date.Some? && s[j].date.Some? && oldest ==> s[i].date.value <= s[j].date.value
    ensures s[i].date.Some? && s[j].date.Some? && !oldest ==> s[i].date.value >= s[j].date.value
  {
    assert Compare(s[i], s[j], oldest) <= 0;
  }

  /**
   * Where the insertion puts `x`: after the last entry it need not precede,
   * when it must precede every entry from there on.
   */
  lemma {:induction false} InsertAt(prefix: seq<Entry>, j: nat, x: Entry, oldest: bool)
    requires j <= |prefix|
    requires j == 0 || !Before(x, prefix[j - 1], oldest)
    requires forall k :: j <= k < |prefix| ==> Before(x, prefix[k], oldest)
    ensures Insert(prefix, x, oldest) == prefix[..j] + [x] + prefix[j..]
    decreases |prefix|
  {
    if j == |prefix| {
      assert prefix[..j] == prefix && prefix[j..] == [];
    } else {
      var n := |prefix|;
      var init, last := prefix[..n - 1], prefix[n - 1];
      assert Insert(prefix, x, oldest) == Insert(init, x, oldest) + [last];
      assert init[..j] == prefix[..j];
      assert forall k :: j <= k < |init| ==> init[k] == prefix[k];
      InsertAt(init, j, x, oldest);
      assert init[j..] + [last] == prefix[j..];
      AppendAssociative(prefix[..j] + [x], init[j..], [last]);
    }
  }

  /**
   * Moves the entries of the sorted prefix `a[..i]` that `x` must precede
   * one place right; `j` is the gap left where `x` belongs.
   */
  method ShiftGreater(a: array<Entry>, i: nat, x: Entry, oldest: bool) returns (j: nat)
    requires i < a.Length
    modifies a
    ensures j <= i
    ensures forall k :: 0 <= k < j ==> a[k] == old(a[k])
    ensures forall k :: j < k <= i ==> a[k] == old(a[k - 1])
    ensures forall k :: i < k < a.Length ==> a[k] == old(a[k])
    ensures j == 0 || !Before(x, old(a[j - 1]), oldest)
    ensures forall k :: j <= k < i ==> Before(x, old(a[k]), oldest)
  {
    j := i;
    while j > 0 && Before(x, a[j - 1], oldest)
      invariant 0 <= j <= i
      invariant forall k :: 0 <= k < j ==> a[k] == old(a[k])
      invariant forall k :: j < k <= i ==> a[k] == old(a[k - 1])
      invariant forall k :: i < k < a.Length ==> a[k] == old(a[k])
      invariant forall k :: j <= k < i ==> Before(x, old(a[k]), oldest)
    {
      a[j] := a[j - 1];
      j := j - 1;
    }
  }

  /** Moves `a[i]` left past the entries of the sorted prefix it must precede. */
  method InsertInPlace(a: array<Entry>, i: nat, oldest: bool)
    requires i < a.Length
    modifies a
    ensures a[..i + 1] == Insert(old(a[..i]), old(a[i]), oldest)
    ensures a[i + 1..] == old(a[i + 1..])
  {
    ghost var prefix := a[..i];
    var x := a[i];
    var j := ShiftGreater(a, i, x, oldest);
    a[j] := x;
    InsertAt(prefix, j, x, oldest);
    assert a[..i + 1] == prefix[..j] + [x] + prefix[j..];
  }

  /** Sorting one more element inserts it into the sorted prefix. */
  lemma SortedByDateStep(s: seq<Entry>, i: nat, oldest: bool)
    requires i < |s|
    ensures SortedByDate(s[..i + 1], oldest) == Insert(SortedByDate(s[..i], oldest), s[i], oldest)
  {
    assert s[..i + 1][..i] == s[..i];
  }

  /** Equal suffixes from `i` agree at `i` and from `i + 1`. */
  lemma SuffixStep<T>(a: seq<T>, b: seq<T>, i: nat)
    requires i < |a| == |b| && a[i..] == b[i..]
    ensures a[i] == b[i] && a[i + 1..] == b[i + 1..]
  {
    assert a[i] == a[i..][0] && b[i] == b[i..][0];
    assert a[i + 1..] == a[i..][1..] && b[i + 1..] == b[i..][1..];
  }

  /** `visibleEntries.sort(comparator)`: the array ends up as the stable sort of its contents. */
  method SortByDate(a: array<Entry>, oldest: bool)
    modifies a
    ensures a[..] == SortedByDate(old(a[..]), oldest)
  {
    ghost var original := a[..];
    var i := 0;
    while i < a.Length
      invariant 0 <= i <= a.Length
      invariant a[..i] == SortedByDate(original[..i], oldest)
      invariant a[i..] == original[i..]
    {
      SortedByDateStep(original, i, oldest);
      SuffixStep(a[..], original, i);
      InsertInPlace(a, i, oldest);
      i := i + 1;
    }
    assert original[..a.Length] == original;
  }

  // ---------------------------------------------------------------------
  // getFilteredEntries (app.js:988-1019) and the status counts (app.js:1246-1247)
  // ---------------------------------------------------------------------

  /** Step 1: all entries when searching with scope "all", else those within the month range. */
  function BaseEntries(all: seq<Entry>, terms: seq<SearchTerm>, scope: string,
                       start: MonthInput, end: MonthInput): seq<Entry> {
    if |terms| > 0 && scope == "all" then all else Filter(all, InRange(start, end))
  }

  /** Steps 1-3 of `getFilteredEntries`: base set, search filter, stable date sort. */
  function FilteredEntries(all: seq<Entry>, terms: seq<SearchTerm>, scope: string, sortOrder: string,
                           start: MonthInput, end: MonthInput): seq<Entry> {
    SortedByDate(FilterBySearch(BaseEntries(all, terms, scope, start, end), terms), sortOrder == "oldest")
  }

  /**
   * What `getFilteredEntries` returns: exactly the entries that pass the
   * search (and the month range unless searching with scope "all"), each as
   * often as in `all`, in the comparator's order.
   */
  lemma FilteredEntriesContents(all: seq<Entry>, terms: seq<SearchTerm>, scope: string, sortOrder: string,
                                start: MonthInput, end: MonthInput)
    ensures multiset(FilteredEntries(all, terms, scope, sortOrder, start, end))
         == multiset(FilterBySearch(BaseEntries(all, terms, scope, start, end), terms))
    ensures forall e :: e in FilteredEntries(all, terms, scope, sortOrder, start, end) <==>
      e in all && ((|terms| > 0 && scope == "all") || IsWithinRange(e, start, end)) &&
      (terms == [] || exists k :: 0 <= k < |terms| && Contains(SearchableText(e), Lower(terms[k].term)))
    ensures Ordered(FilteredEntries(all, terms, scope, sortOrder, start, end), sortOrder == "oldest")
  {
    var base := BaseEntries(all, terms, scope, start, end);
    var r := FilteredEntries(all, terms, scope, sortOrder, start, end);
    SortedByDateOrdered(FilterBySearch(base, terms), sortOrder == "oldest");
    SortedByDatePermutes(FilterBySearch(base, terms), sortOrder == "oldest");
    BaseEntriesMembers(all, terms, scope, start, end);
    forall e ensures e in r <==> e in FilterBySearch(base, terms) {
      assert e in r <==> e in multiset(r);
    }
  }

  /** Step 1 keeps every entry when searching with scope "all", else exactly those within the range. */
  lemma BaseEntriesMembers(all: seq<Entry>, terms: seq<SearchTerm>, scope: string, start: MonthInput, end: MonthInput)
    ensures forall e :: e in BaseEntries(all, terms, scope, start, end) <==>
      e in all && ((|terms| > 0 && scope == "all") || IsWithinRange(e, start, end))
  {
    FilterElements(all, InRange(start, end));
  }

  /** The two counts of "N of M comments match your search": N is never above M. */
  lemma ShownAtMostTotal(all: seq<Entry>, terms: seq<SearchTerm>, scope: string, sortOrder: string,
                         start: MonthInput, end: MonthInput)
    ensures |FilteredEntries(all, terms, scope, sortOrder, start, end)|
         <= |if scope == "all" then all else Filter(all, InRange(start, end))|
         <= |all|
  {
  }

  /** The module-level state `getFilteredEntries` reads. */
  class Session {
    var allEntries: seq<Entry>
    var searchTerms: seq<SearchTerm>
    var searchScope: string
    var sortOrder: string
    var startMonth: MonthInput
    var endMonth: MonthInput

    /**
     * The state at start-up (app.js:224-227): no entries and no terms, the
     * "ytd" chip applied for the clock's year and 0-based month
     * (app.js:178-180, 1806), and the saved sort preference restored when one
     * is stored and non-empty (app.js:195-215), "newest" otherwise. A storage
     * read that throws is caught and leaves the default, so it arrives here as
     * None.
     */
    constructor(year: int, month0: int, savedSort: Option<string>)
      requires year >= 100
      ensures allEntries == [] && searchTerms == [] && searchScope == "filtered"
      ensures sortOrder == if savedSort.Some? && savedSort.value != "" then savedSort.value else "newest"
      ensures startMonth == YearMonth(year - 1, 12) && endMonth == YearMonth(year, month0 + 1)
    {
      allEntries := [];
      searchTerms := [];
      searchScope := "filtered";
      sortOrder := if savedSort.Some? && savedSort.value != "" then savedSort.value else "newest";
      startMonth := QuickChipStart("ytd", year, month0);
      endMonth := QuickChipEnd(year, month0);
    }

    /** `handleQuickChip(range)`: both month fields set from the clock; nothing else changes. */
    method ApplyQuickChip(range: string, year: int, month0: int)
      requires year >= 100
      modifies this
      ensures startMonth == QuickChipStart(range, year, month0) && endMonth == QuickChipEnd(year, month0)
      ensures allEntries == old(allEntries) && searchTerms == old(searchTerms)
      ensures searchScope == old(searchScope) && sortOrder == old(sortOrder)
    {
      startMonth := QuickChipStart(range, year, month0);
      endMonth := QuickChipEnd(year, month0);
    }

    /**
     * `getFilteredEntries()`: the sorted result of the current search. It
     * sorts a fresh array, so `allEntries` is never reordered (the method
     * modifies nothing).
     */
    method GetFilteredEntries() returns (visible: seq<Entry>)
      ensures visible == FilteredEntries(allEntries, searchTerms, searchScope, sortOrder, startMonth, endMonth)
    {
      var base := if |searchTerms| > 0 && searchScope == "all" then allEntries
                  else Filter(allEntries, InRange(startMonth, endMonth));
      var matches := FilterBySearch(base, searchTerms);
      var buffer := new Entry[|matches|](i requires 0 <= i < |matches| => matches[i]);
      assert buffer[..] == matches;
      SortByDate(buffer, sortOrder == "oldest");
      visible := buffer[..];
    }

    /** The counts of "N of M comments match your search" (app.js:1242-1247). */
    method StatusCounts() returns (shown: nat, total: nat)
      ensures shown == |FilteredEntries(allEntries, searchTerms, searchScope, sortOrder, startMonth, endMonth)|
      ensures total == |if searchScope == "all" then allEntries else Filter(allEntries, InRange(startMonth, endMonth))|
      ensures shown <= total
    {
      var visible := GetFilteredEntries();
      var base := if searchScope == "all" then allEntries else Filter(allEntries, InRange(startMonth, endMonth));
      shown := |visible|;
      total := |base|;
    }
  }
}
