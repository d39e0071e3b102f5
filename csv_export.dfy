/**
 * The CSV text of the export (app.js:1095-1105): a header line, then one
 * line per entry holding the date label and the content, each quoted with
 * embedded quotes doubled as section 2 of RFC 4180 describes, except that
 * an empty field is written unquoted and lines end in LF alone.
 */
module CsvExport {
  import opened Common

  const Header: string := "Date,Content\n"

  /** `s.replace(/"/g, '""')`. */
  function EscapeQuotes(s: string): (r: string)
    ensures |r| >= |s|
  {
    if s == [] then []
    else (if s[0] == '"' then "\"\"" else [s[0]]) + EscapeQuotes(s[1..])
  }

  /** Reading a quoted field's inside back: each doubled quote stands for one quote. */
  function UnescapeQuotes(s: string): string
    decreases |s|
  {
    if s == [] then []
    else if |s| >= 2 && s[0] == '"' && s[1] == '"' then "\"" + UnescapeQuotes(s[2..])
    else [s[0]] + UnescapeQuotes(s[1..])
  }

  /** A field as the export writes it: empty, or quoted with quotes doubled. */
  function Field(s: string): string {
    if s == "" then "" else "\"" + EscapeQuotes(s) + "\""
  }

  /** Reading a field back: an empty field is the empty string, a quoted one its unescaped inside. */
  function ReadField(f: string): string {
    if |f| < 2 then "" else UnescapeQuotes(f[1..|f| - 1])
  }

  /** One line of the export. */
  function Row(e: Entry): string {
    Field(e.dateText) + "," + Field(e.content) + "\n"
  }

  /** The lines of all entries, in order. */
  function Rows(entries: seq<Entry>): string
    decreases |entries|
  {
    if entries == [] then "" else Rows(entries[..|entries| - 1]) + Row(entries[|entries| - 1])
  }

  /**
   * Read from the left, every quote of `t` is the first of a doubled pair:
   * the inside of a quoted field as section 2 of RFC 4180 requires it.
   */
  predicate QuotesPaired(t: string)
    decreases |t|
  {
    if t == [] then true
    else if t[0] == '"' then |t| >= 2 && t[1] == '"' && QuotesPaired(t[2..])
    else QuotesPaired(t[1..])
  }

  /** Every quote of an escaped text belongs to a doubled pair. */
  lemma {:induction false} EscapedQuotesPaired(s: string)
    ensures QuotesPaired(EscapeQuotes(s))
    decreases |s|
  {
    if s != [] {
      EscapedQuotesPaired(s[1..]);
      var rest := EscapeQuotes(s[1..]);
      if s[0] == '"' {
        assert EscapeQuotes(s) == "\"\"" + rest;
        assert EscapeQuotes(s)[2..] == rest;
      } else {
        assert EscapeQuotes(s) == [s[0]] + rest;
        assert EscapeQuotes(s)[1..] == rest;
      }
    }
  }

  /** Conversely, every text whose quotes are paired is the escaping of what it reads back as. */
  lemma {:induction false} PairedIsEscaped(t: string)
    requires QuotesPaired(t)
    ensures EscapeQuotes(UnescapeQuotes(t)) == t
    decreases |t|
  {
    if t != [] {
      if t[0] == '"' {
        PairedIsEscaped(t[2..]);
        assert UnescapeQuotes(t) == "\"" + UnescapeQuotes(t[2..]);
        assert EscapeQuotes(UnescapeQuotes(t)) == "\"\"" + EscapeQuotes(UnescapeQuotes(t[2..]));
      } else {
        PairedIsEscaped(t[1..]);
        assert UnescapeQuotes(t) == [t[0]] + UnescapeQuotes(t[1..]);
        assert EscapeQuotes(UnescapeQuotes(t)) == [t[0]] + EscapeQuotes(UnescapeQuotes(t[1..]));
      }
    }
  }

  /** Undoing the doubling of an escaped text gives the text back. */
  lemma {:induction false} EscapeRoundTrip(s: string)
    ensures UnescapeQuotes(EscapeQuotes(s)) == s
    decreases |s|
  {
    if s != [] {
      EscapeRoundTrip(s[1..]);
      var rest := EscapeQuotes(s[1..]);
      if s[0] == '"' {
        assert EscapeQuotes(s) == "\"\"" + rest;
        assert EscapeQuotes(s)[2..] == rest;
      } else {
        assert EscapeQuotes(s) == [s[0]] + rest;
        assert EscapeQuotes(s)[1..] == rest;
      }
    }
  }

  /** Every field the export writes reads back as the text it was written from. */
  lemma FieldRoundTrip(s: string)
    ensures ReadField(Field(s)) == s
  {
    if s != "" {
      var f := Field(s);
      assert f[1..|f| - 1] == EscapeQuotes(s);
      EscapeRoundTrip(s);
    }
  }

  /** An empty field is written without quotes, unlike RFC 4180's quoted empty string; a non-empty one is always quoted. */
  lemma EmptyFieldUnquoted(s: string)
    ensures Field(s) == "" <==> s == ""
    ensures s != "" ==> Field(s)[0] == '"' && Field(s)[|Field(s)| - 1] == '"'
  {
  }

  /** Each entry adds exactly its own line, terminated by a bare LF. */
  lemma RowsEndInLineFeed(entries: seq<Entry>)
    requires entries != []
    ensures Rows(entries)[|Rows(entries)| - 1] == '\n'
    ensures Rows(entries) == Rows(entries[..|entries| - 1]) + Row(entries[|entries| - 1])
  {
  }

  /** One more entry appends its line. */
  lemma RowsStep(entries: seq<Entry>, i: nat)
    requires i < |entries|
    ensures Rows(entries[..i + 1]) == Rows(entries[..i]) + Row(entries[i])
  {
    assert entries[..i + 1][..i] == entries[..i];
  }

  /** The export loop: the header, then one line per entry. */
  method BuildCsv(entries: seq<Entry>) returns (csv: string)
    ensures csv == Header + Rows(entries)
  {
    csv := Header;
    var i := 0;
    while i < |entries|
      invariant 0 <= i <= |entries|
      invariant csv == Header + Rows(entries[..i])
    {
      RowsStep(entries, i);
      var line := Row(entries[i]);
      AppendAssociative(Header, Rows(entries[..i]), line);
      csv := csv + line;
      i := i + 1;
    }
    assert entries[..i] == entries;
  }
}
