/**
 * `getEntriesFromDocument` (app.js:701-762): the table rows of the fetched
 * page after the marker row become entries. The DOM is abstracted into a
 * sequence of rows, each with its `textContent`, its first `<strong>`
 * element (text and outer HTML) if any, and its `innerHTML`.
 */
module EntryExtractor {
  import opened Common
  import opened Text
  import opened DateResolver

  /** The text of the row after which the comments start (app.js:233); the functions below take the marker as a parameter. */
  const Marker: string := "Your CQ Line Pilot Comments will be placed here ..."

  /** The placeholder that stands for a line break while tags are stripped (app.js:734). */
  const Sentinel: string := "|||BREAK|||"

  datatype Strong = Strong(textContent: string, outerHtml: string)

  datatype Row = Row(textContent: string, strong: Option<Strong>, innerHtml: string)

  // ---------------------------------------------------------------------
  // The content pipeline (app.js:728-748)
  // ---------------------------------------------------------------------

  /**
   * A whole break tag as `/<br\s*\/?>/i` matches it: '<', 'b' or 'B', 'r' or
   * 'R', any whitespace, an optional '/', then '>'.
   */
  ghost predicate IsBreakTag(t: string) {
    && |t| >= 4 && t[0] == '<' && (t[1] == 'b' || t[1] == 'B') && (t[2] == 'r' || t[2] == 'R')
    && t[|t| - 1] == '>'
    && (AllSpace(t[3..|t| - 1]) || (|t| >= 5 && t[|t| - 2] == '/' && AllSpace(t[3..|t| - 2])))
  }

  /** Length of the break tag at the start of `s`, or 0 when `s` does not start with one. */
  function BreakTagLength(s: string): (n: nat)
    ensures n <= |s|
    ensures n > 0 ==> IsBreakTag(s[..n])
  {
    if |s| >= 3 && s[0] == '<' && (s[1] == 'b' || s[1] == 'B') && (s[2] == 'r' || s[2] == 'R') then
      var n := 3 + LeadingSpaces(s[3..]);
      assert forall i | 3 <= i < n :: IsSpace(s[i]) by {
        forall i | 3 <= i < n ensures IsSpace(s[i]) {
          assert s[i] == s[3..][i - 3];
        }
      }
      if n < |s| && s[n] == '>' then
        assert s[..n + 1][3..n] == s[3..n];
        n + 1
      else if n + 1 < |s| && s[n] == '/' && s[n + 1] == '>' then
        assert s[..n + 2][3..n] == s[3..n];
        n + 2
      else 0
    else 0
  }

  /** A break tag at the start of `s` is the one `BreakTagLength` measures. */
  lemma BreakTagFound(s: string, k: nat)
    requires k <= |s| && IsBreakTag(s[..k])
    ensures BreakTagLength(s) == k
  {
    var t := s[..k];
    assert forall i :: 0 <= i < k ==> t[i] == s[i];
    var m := LeadingSpaces(s[3..]);
    var e: nat;
    if AllSpace(t[3..k - 1]) {
      e := k - 1;
    } else {
      e := k - 2;
    }
    assert AllSpace(t[3..e]);
    forall i | 0 <= i < e - 3 ensures IsSpace(s[3..][i]) {
      assert t[3..e][i] == s[3..][i];
    }
    assert !IsSpace(s[3..][e - 3]);
    assert m == e - 3;
  }

  /** Attributes are not part of the pattern: `<br class=x>` is no break. */
  lemma BreakTagWithAttribute()
    ensures BreakTagLength("<br class=x>") == 0
  {
    var s := "<br class=x>";
    assert s[3..] == " class=x>" && " class=x>"[1..] == "class=x>";
    assert LeadingSpaces("class=x>") == 0;
    assert LeadingSpaces(s[3..]) == 1;
  }

  /** `<BR />` is a break tag of six characters. */
  lemma BreakTagSelfClosing()
    ensures BreakTagLength("<BR />") == 6
  {
    var s := "<BR />";
    assert s[3..] == " />" && " />"[1..] == "/>";
    assert LeadingSpaces("/>") == 0;
    assert LeadingSpaces(s[3..]) == 1;
  }

  /** `s.replace(/<br\s*\/?>/gi, "|||BREAK|||")`: every break tag, scanning left to right. */
  function ReplaceBreaks(s: string): (r: string)
    decreases |s|
  {
    if s == [] then []
    else
      var n := BreakTagLength(s);
      if n > 0 then Sentinel + ReplaceBreaks(s[n..])
      else [s[0]] + ReplaceBreaks(s[1..])
  }

  /** Text without '<' holds no break tag and passes through unchanged. */
  lemma {:induction false} ReplaceBreaksWithoutTags(s: string)
    requires forall i :: 0 <= i < |s| ==> s[i] != '<'
    ensures ReplaceBreaks(s) == s
    decreases |s|
  {
    if s != [] {
      ReplaceBreaksWithoutTags(s[1..]);
      assert s == [s[0]] + s[1..];
    }
  }

  /** `s.replace(/<[^>]*>/g, "")`: every remaining tag removed. */
  function StripTags(s: string): (r: string)
    ensures |r| <= |s|
    ensures forall i, j :: 0 <= i < j < |r| && r[i] == '<' ==> r[j] != '>'
  {
    StripDelimited(s, '<', '>')
  }

  /** Text in which no '<' has a '>' after it holds no tag and is kept as it is. */
  lemma StripTagsNoTag(s: string)
    requires forall i, j :: 0 <= i < j < |s| && s[i] == '<' ==> s[j] != '>'
    ensures StripTags(s) == s
  {
    StripDelimitedNoGroup(s, '<', '>');
  }

  /** The first tag goes, from its '<' to the first '>' after it; the text before it stays. */
  lemma StripTagsTag(a: string, tag: string, b: string)
    requires forall i :: 0 <= i < |a| ==> a[i] != '<'
    requires forall i :: 0 <= i < |tag| ==> tag[i] != '>'
    ensures StripTags(a + ['<'] + tag + ['>'] + b) == a + StripTags(b)
  {
    StripDelimitedGroup(a, tag, b, '<', '>');
  }

  /** `segments.map(normalizeWhitespace)`. */
  function NormalizeAll(segments: seq<string>): (r: seq<string>)
    ensures |r| == |segments|
    ensures forall i :: 0 <= i < |r| ==> IsNormalized(r[i])
    ensures forall i :: 0 <= i < |r| ==> r[i] == NormalizeWhitespace(segments[i])
  {
    seq(|segments|, i requires 0 <= i < |segments| => NormalizeWhitespace(segments[i]))
  }

  /** Line `i` of the normalised segments is segment `i`'s words joined by single spaces. */
  lemma NormalizeAllWords(segments: seq<string>, i: nat)
    requires i < |segments|
    ensures NormalizeAll(segments)[i] == Join(Words(segments[i]), " ")
  {
    NormalizeIsJoinedWords(segments[i]);
  }

  /**
   * The shape of the cleaned content: its only whitespace is line feeds and
   * single spaces, and no space touches other whitespace or an end, so no
   * line starts or ends with whitespace or holds a run of it.
   */
  ghost predicate LinesNormalized(s: string) {
    && (forall i :: 0 <= i < |s| && IsSpace(s[i]) ==> s[i] == ' ' || s[i] == '\n')
    && (|s| > 0 ==> s[0] != ' ' && s[|s| - 1] != ' ')
    && (forall i, j :: 0 <= i < j < |s| && j == i + 1 ==>
          !(s[i] == ' ' && IsSpace(s[j])) && !(IsSpace(s[i]) && s[j] == ' '))
  }

  /** Two such texts joined by a line feed keep the shape. */
  lemma JoinTwoLines(a: string, b: string)
    requires LinesNormalized(a) && LinesNormalized(b)
    ensures LinesNormalized(a + "\n" + b)
  {
    var s := a + "\n" + b;
    forall i, j | 0 <= i < j < |s| && j == i + 1
      ensures !(s[i] == ' ' && IsSpace(s[j])) && !(IsSpace(s[i]) && s[j] == ' ')
    {
      if j < |a| {
        assert s[i] == a[i] && s[j] == a[j];
      } else if j == |a| {
        assert s[i] == a[|a| - 1] && s[j] == '\n';
      } else if i == |a| {
        assert s[j] == b[0];
      } else {
        assert s[i] == b[i - |a| - 1] && s[j] == b[j - |a| - 1];
      }
    }
    forall i | 0 <= i < |s| && IsSpace(s[i]) ensures s[i] == ' ' || s[i] == '\n' {
      if i < |a| {
        assert s[i] == a[i];
      } else if i > |a| {
        assert s[i] == b[i - |a| - 1];
      }
    }
  }

  /** Normalised segments joined by line feeds have the shape. */
  lemma {:induction false} JoinLinesNormalized(segments: seq<string>)
    requires forall i :: 0 <= i < |segments| ==> IsNormalized(segments[i])
    ensures LinesNormalized(Join(segments, "\n"))
    decreases |segments|
  {
    if |segments| == 1 {
      assert Join(segments, "\n") == segments[0];
      assert IsNormalized(segments[0]);
    } else if |segments| > 1 {
      JoinLinesNormalized(segments[1..]);
      assert IsNormalized(segments[0]);
      JoinTwoLines(segments[0], Join(segments[1..], "\n"));
    }
  }

  /** Trimming keeps the shape. */
  lemma TrimLinesNormalized(s: string)
    requires LinesNormalized(s)
    ensures LinesNormalized(Trim(s))
  {
    var r := Trim(s);
    var lead := LeadingSpaces(s);
    forall i, j | 0 <= i < j < |r| && j == i + 1
      ensures !(r[i] == ' ' && IsSpace(r[j])) && !(IsSpace(r[i]) && r[j] == ' ')
    {
      assert r[i] == s[lead + i] && r[j] == s[lead + j];
    }
    forall i | 0 <= i < |r| && IsSpace(r[i]) ensures r[i] == ' ' || r[i] == '\n' {
      assert r[i] == s[lead + i];
    }
  }

  /**
   * The content of a row: the first occurrence of the strong element's HTML
   * removed and the rest trimmed, break tags turned into the placeholder,
   * other tags stripped, then each placeholder-separated segment normalised
   * and the segments joined by line feeds and trimmed.
   */
  function RowContent(innerHtml: string, strongHtml: string): string {
    var withoutStrong := Trim(ReplaceFirst(innerHtml, strongHtml, ""));
    var text := StripTags(ReplaceBreaks(withoutStrong));
    Trim(Join(NormalizeAll(Split(text, Sentinel)), "\n"))
  }

  /** The content has normalised lines and no whitespace at either end. */
  lemma RowContentShape(innerHtml: string, strongHtml: string)
    ensures LinesNormalized(RowContent(innerHtml, strongHtml))
    ensures var r := RowContent(innerHtml, strongHtml); r != [] ==> !IsSpace(r[0]) && !IsSpace(r[|r| - 1])
  {
    var withoutStrong := Trim(ReplaceFirst(innerHtml, strongHtml, ""));
    var text := StripTags(ReplaceBreaks(withoutStrong));
    var lines := NormalizeAll(Split(text, Sentinel));
    JoinLinesNormalized(lines);
    TrimLinesNormalized(Join(lines, "\n"));
  }

  // ---------------------------------------------------------------------
  // Rows to entries (app.js:701-762)
  // ---------------------------------------------------------------------

  /** The `findIndex` test: the row's normalised text contains the marker. */
  predicate IsMarkerRow(row: Row, marker: string) {
    Contains(NormalizeWhitespace(row.textContent), marker)
  }

  /** `findIndex` from index `from` on: the first index whose element passes `test`. */
  function FindIndexFrom<T>(s: seq<T>, test: T -> bool, from: nat): (r: Option<nat>)
    requires from <= |s|
    ensures r.Some? ==> from <= r.value < |s| && test(s[r.value])
    ensures r.Some? ==> forall k :: from <= k < r.value ==> !test(s[k])
    ensures r.None? ==> forall k :: from <= k < |s| ==> !test(s[k])
    decreases |s| - from
  {
    if from == |s| then None
    else if test(s[from]) then Some(from)
    else FindIndexFrom(s, test, from + 1)
  }

  /** The first index passing `test`, when every earlier one fails it, is what `FindIndexFrom` finds. */
  lemma {:induction false} FindIndexIs<T>(s: seq<T>, test: T -> bool, from: nat, i: nat)
    requires from <= i < |s| && test(s[i])
    requires forall k :: from <= k < i ==> !test(s[k])
    ensures FindIndexFrom(s, test, from) == Some(i)
    decreases i - from
  {
    if from < i {
      FindIndexIs(s, test, from + 1, i);
    }
  }

  /** The `findIndex` callback. */
  function MarkerTest(marker: string): Row -> bool {
    row => IsMarkerRow(row, marker)
  }

  /** `rows.findIndex(...)`: the first marker row. */
  function FirstMarker(rows: seq<Row>, marker: string): (r: Option<nat>)
    ensures r.Some? ==> r.value < |rows| && IsMarkerRow(rows[r.value], marker)
    ensures r.Some? ==> forall k :: 0 <= k < r.value ==> !IsMarkerRow(rows[k], marker)
    ensures r.None? ==> forall k :: 0 <= k < |rows| ==> !IsMarkerRow(rows[k], marker)
  {
    FindIndexFrom(rows, MarkerTest(marker), 0)
  }

  /**
   * The entry one data row yields: none without a `<strong>`, without a date
   * for its normalised text, or with empty content.
   */
  function RowEntry(row: Row, generalParse: string -> Option<int>): Option<Entry> {
    match row.strong
    case None => None
    case Some(strong) =>
      var dateText := NormalizeWhitespace(strong.textContent);
      var date := ParseDate(dateText, generalParse);
      if date.None? then None
      else
        var content := RowContent(row.innerHtml, strong.outerHtml);
        if content == [] then None else Some(Entry(dateText, date, content))
  }

  /** The well-formedness every extracted entry has. */
  ghost predicate WellFormed(e: Entry) {
    e.date.Some? && e.content != [] && IsNormalized(e.dateText) && LinesNormalized(e.content)
  }

  /** A row's entry, when it yields one, is well formed. */
  lemma RowEntryWellFormed(row: Row, generalParse: string -> Option<int>)
    ensures RowEntry(row, generalParse).Some? ==> WellFormed(RowEntry(row, generalParse).value)
  {
    if row.strong.Some? {
      var strong := row.strong.value;
      RowContentShape(row.innerHtml, strong.outerHtml);
      assert IsNormalized(NormalizeWhitespace(strong.textContent));
    }
  }

  /** The entries one row contributes: none or one. */
  function RowEntries(row: Row, generalParse: string -> Option<int>): seq<Entry> {
    match RowEntry(row, generalParse)
    case Some(e) => [e]
    case None => []
  }

  /** The entries a row contributes, given the row's entry. */
  lemma RowEntriesOfEntry(row: Row, generalParse: string -> Option<int>, entry: Option<Entry>)
    requires entry == RowEntry(row, generalParse)
    ensures RowEntries(row, generalParse) == if entry.Some? then [entry.value] else []
  {
  }

  /** `f` applied to every element, the results concatenated in order. */
  function Gather<T, U>(s: seq<T>, f: T -> seq<U>): (r: seq<U>)
    decreases |s|
  {
    if s == [] then [] else Gather(s[..|s| - 1], f) + f(s[|s| - 1])
  }

  /** One more element adds its own results behind those of the elements before it. */
  lemma GatherStep<T, U>(s: seq<T>, j: nat, f: T -> seq<U>)
    requires j < |s|
    ensures Gather(s[..j + 1], f) == Gather(s[..j], f) + f(s[j])
  {
    assert s[..j + 1][..j] == s[..j];
  }

  /** Gathering distributes over concatenation. */
  lemma {:induction false} GatherAppend<T, U>(a: seq<T>, b: seq<T>, f: T -> seq<U>)
    ensures Gather(a + b, f) == Gather(a, f) + Gather(b, f)
    decreases |b|
  {
    if b == [] {
      assert a + b == a;
    } else {
      var init := b[..|b| - 1];
      GatherAppend(a, init, f);
      assert (a + b)[..|a + b| - 1] == a + init;
      assert (a + b)[|a + b| - 1] == b[|b| - 1];
    }
  }

  /** The `forEach` callback as a function of the row. */
  function RowEntriesOf(generalParse: string -> Option<int>): Row -> seq<Entry> {
    row => RowEntries(row, generalParse)
  }

  /** The entries of the data rows, in document order. */
  function EntriesOf(rows: seq<Row>, generalParse: string -> Option<int>): seq<Entry> {
    Gather(rows, RowEntriesOf(generalParse))
  }

  /** One more row adds its own entries behind those of the rows before it. */
  lemma EntriesOfStep(rows: seq<Row>, j: nat, generalParse: string -> Option<int>)
    requires j < |rows|
    ensures EntriesOf(rows[..j + 1], generalParse) == EntriesOf(rows[..j], generalParse) + RowEntries(rows[j], generalParse)
  {
    GatherStep(rows, j, RowEntriesOf(generalParse));
  }

  /** What `getEntriesFromDocument` returns. */
  function DocumentEntries(rows: seq<Row>, marker: string, generalParse: string -> Option<int>): seq<Entry> {
    match FirstMarker(rows, marker)
    case None => []
    case Some(m) => EntriesOf(rows[m + 1..], generalParse)
  }

  /** Extraction works row by row: the entries of consecutive row runs concatenate. */
  lemma EntriesOfAppend(a: seq<Row>, b: seq<Row>, generalParse: string -> Option<int>)
    ensures EntriesOf(a + b, generalParse) == EntriesOf(a, generalParse) + EntriesOf(b, generalParse)
  {
    GatherAppend(a, b, RowEntriesOf(generalParse));
  }

  /** A page without a marker row yields no entries. */
  lemma NoMarkerNoEntries(rows: seq<Row>, marker: string, generalParse: string -> Option<int>)
    requires forall k :: 0 <= k < |rows| ==> !IsMarkerRow(rows[k], marker)
    ensures DocumentEntries(rows, marker, generalParse) == []
  {
  }

  /**
   * Only the rows after the first marker row count: whatever comes before it
   * (with no marker in it) and the marker row itself yield nothing.
   */
  lemma RowsAfterMarker(before: seq<Row>, markerRow: Row, after: seq<Row>, marker: string, generalParse: string -> Option<int>)
    requires forall k :: 0 <= k < |before| ==> !IsMarkerRow(before[k], marker)
    requires IsMarkerRow(markerRow, marker)
    ensures DocumentEntries(before + [markerRow] + after, marker, generalParse) == EntriesOf(after, generalParse)
  {
    var rows := before + [markerRow] + after;
    assert rows[|before|] == markerRow;
    assert forall k :: 0 <= k < |before| ==> rows[k] == before[k];
    FindIndexIs(rows, MarkerTest(marker), 0, |before|);
    assert rows[|before| + 1..] == after;
  }

  /** Every entry extracted from any rows is well formed. */
  lemma EntriesOfWellFormed(rows: seq<Row>, generalParse: string -> Option<int>)
    ensures forall i :: 0 <= i < |EntriesOf(rows, generalParse)| ==> WellFormed(EntriesOf(rows, generalParse)[i])
  {
    var f := RowEntriesOf(generalParse);
    forall i | 0 <= i < |rows|
      ensures forall j :: 0 <= j < |f(rows[i])| ==> WellFormed(f(rows[i])[j])
    {
      RowEntryWellFormed(rows[i], generalParse);
    }
    GatherKeeps(rows, f, e => WellFormed(e));
  }

  /** A property every element's results have holds of everything gathered. */
  lemma {:induction false} GatherKeeps<T, U>(s: seq<T>, f: T -> seq<U>, p: U -> bool)
    requires forall i :: 0 <= i < |s| ==> forall j :: 0 <= j < |f(s[i])| ==> p(f(s[i])[j])
    ensures forall i :: 0 <= i < |Gather(s, f)| ==> p(Gather(s, f)[i])
    decreases |s|
  {
    if s != [] {
      var n := |s| - 1;
      assert forall i :: 0 <= i < n ==> s[..n][i] == s[i];
      GatherKeeps(s[..n], f, p);
      var front, back := Gather(s[..n], f), f(s[n]);
      assert Gather(s, f) == front + back;
      forall i | 0 <= i < |Gather(s, f)|
        ensures p(Gather(s, f)[i])
      {
        if i >= |front| {
          assert Gather(s, f)[i] == back[i - |front|];
        }
      }
    }
  }

  /** Every extracted entry has a date, non-empty content and normalised lines. */
  lemma DocumentEntriesWellFormed(rows: seq<Row>, marker: string, generalParse: string -> Option<int>)
    ensures forall i :: 0 <= i < |DocumentEntries(rows, marker, generalParse)| ==> WellFormed(DocumentEntries(rows, marker, generalParse)[i])
  {
    var marked := FirstMarker(rows, marker);
    if marked.Some? {
      var entries := EntriesOf(rows[marked.value + 1..], generalParse);
      assert DocumentEntries(rows, marker, generalParse) == entries;
      EntriesOfWellFormed(rows[marked.value + 1..], generalParse);
    }
  }

  /** `getEntriesFromDocument(doc)`: find the marker row, then collect the entries of the rows after it. */
  method GetEntriesFromDocument(rows: seq<Row>, generalParse: string -> Option<int>) returns (entries: seq<Entry>)
    ensures entries == DocumentEntries(rows, Marker, generalParse)
  {
    var markerIndex := FindIndex(rows, MarkerTest(Marker));
    if markerIndex == -1 {
      return [];
    }
    entries := CollectEntries(rows[markerIndex + 1..], generalParse);
  }

  /** The `dataRows.forEach(...)` loop pushing each row's entry. */
  method CollectEntries(dataRows: seq<Row>, generalParse: string -> Option<int>) returns (entries: seq<Entry>)
    ensures entries == EntriesOf(dataRows, generalParse)
  {
    entries := [];
    var j := 0;
    while j < |dataRows|
      invariant 0 <= j <= |dataRows|
      invariant entries == EntriesOf(dataRows[..j], generalParse)
    {
      EntriesOfStep(dataRows, j, generalParse);
      var entry := ExtractRow(dataRows[j], generalParse);
      RowEntriesOfEntry(dataRows[j], generalParse, entry);
      if entry.Some? {
        entries := entries + [entry.value];
      } else {
        assert entries + [] == entries;
      }
      j := j + 1;
    }
    assert dataRows[..j] == dataRows;
  }

  /** The `forEach` callback for one data row; None where it returns early. */
  method ExtractRow(row: Row, generalParse: string -> Option<int>) returns (entry: Option<Entry>)
    ensures entry == RowEntry(row, generalParse)
  {
    if row.strong.None? {
      return None;
    }
    var strong := row.strong.value;
    var dateText := NormalizeWhitespace(strong.textContent);
    var date := ParseDate(dateText, generalParse);
    if date.None? {
      return None;
    }
    var content := RowContent(row.innerHtml, strong.outerHtml);
    if content == [] {
      return None;
    }
    entry := Some(Entry(dateText, date, content));
  }

  /** `Array.prototype.findIndex` as the loop it performs; -1 when no element passes `test`. */
  method FindIndex<T>(s: seq<T>, test: T -> bool) returns (index: int)
    ensures index == match FindIndexFrom(s, test, 0) case None => -1 case Some(m) => m
  {
    var i := 0;
    while i < |s|
      invariant 0 <= i <= |s|
      invariant forall k :: 0 <= k < i ==> !test(s[k])
    {
      if test(s[i]) {
        FindIndexIs(s, test, 0, i);
        return i;
      }
      i := i + 1;
    }
    return -1;
  }
}
