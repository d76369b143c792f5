/** The quoting both CSV writers share: `s.replace("\"", "\"\"")` wrapped in quotes, cells joined
    with commas, and a reader that undoes it, so that round trips can be stated. */
module CsvFormat {
  import opened Nullable

  /** `s.replace("\"", "\"\"")`: every double quote is doubled. */
  function Escape(s: string): (r: string)
    ensures |r| >= |s|
  {
    if s == [] then [] else (if s[0] == '"' then "\"\"" else [s[0]]) + Escape(s[1..])
  }

  /** Escaping doubles every double quote. */
  lemma {:induction false} EscapeDoublesQuotes(s: string)
    ensures multiset(Escape(s))['"'] == 2 * multiset(s)['"']
  {
    if s != [] {
      EscapeDoublesQuotes(s[1..]);
      var head: string := if s[0] == '"' then "\"\"" else [s[0]];
      assert Escape(s) == head + Escape(s[1..]);
      assert multiset(Escape(s)) == multiset(head) + multiset(Escape(s[1..]));
      assert s == [s[0]] + s[1..];
      assert multiset(s) == multiset{s[0]} + multiset(s[1..]);
    }
  }

  /** Escaping leaves a text without a double quote as it is. */
  lemma {:induction false} EscapeKeepsPlainText(s: string)
    requires forall i :: 0 <= i < |s| ==> s[i] != '"'
    ensures Escape(s) == s
  {
    if s != [] {
      EscapeKeepsPlainText(s[1..]);
      assert s == [s[0]] + s[1..];
    }
  }

  /** A cell: the escaped text between two double quotes. */
  function Quote(s: string): string {
    "\"" + Escape(s) + "\""
  }

  /** `String.join(",", parts)`. */
  function Join(parts: seq<string>): string {
    if parts == [] then ""
    else if |parts| == 1 then parts[0]
    else parts[0] + "," + Join(parts[1..])
  }

  /** A cell starts and ends with a double quote around at least the text's length. */
  lemma QuoteShape(s: string)
    ensures var cell := Quote(s); |cell| >= |s| + 2 && cell[0] == '"' && cell[|cell| - 1] == '"'
  {
  }

  /** A joined line starts with its first part, followed by a comma when more parts follow. */
  lemma JoinStartsWithFirst(parts: seq<string>)
    requires parts != []
    ensures |parts[0]| <= |Join(parts)| && Join(parts)[..|parts[0]|] == parts[0]
    ensures |parts| >= 2 ==> |parts[0]| < |Join(parts)| && Join(parts)[|parts[0]|] == ','
  {
    if |parts| >= 2 {
      assert Join(parts) == parts[0] + "," + Join(parts[1..]);
    }
  }

  /** Reads the inside of a quoted cell, just after its opening quote: a doubled quote stands for
      one quote and a single quote closes the cell. Gives the text and what follows the closing
      quote, or None when the closing quote is missing. */
  function ReadQuoted(t: string): (r: Option<(string, string)>)
    ensures r.Some? ==> |r.value.1| < |t|
  {
    if t == [] then None
    else if t[0] == '"' then
      if |t| >= 2 && t[1] == '"' then
        match ReadQuoted(t[2..])
        case None => None
        case Some(p) => Some(("\"" + p.0, p.1))
      else Some(([], t[1..]))
    else
      match ReadQuoted(t[1..])
      case None => None
      case Some(p) => Some(([t[0]] + p.0, p.1))
  }

  /** Reads a line made of quoted cells separated by commas. */
  function ParseLine(line: string): Option<seq<string>>
    decreases |line|
  {
    if line == [] || line[0] != '"' then None
    else
      match ReadQuoted(line[1..])
      case None => None
      case Some(p) =>
        if p.1 == [] then Some([p.0])
        else if p.1[0] != ',' then None
        else
          match ParseLine(p.1[1..])
          case None => None
          case Some(rest) => Some([p.0] + rest)
  }

  /** Reading an escaped text back stops exactly at the quote that closes it. */
  lemma {:induction false} ReadQuotedEscape(s: string, rest: string)
    requires rest == [] || rest[0] != '"'
    ensures ReadQuoted(Escape(s) + "\"" + rest) == Some((s, rest))
  {
    if s == [] {
      assert Escape(s) + "\"" + rest == "\"" + rest;
    } else {
      var tail := Escape(s[1..]) + "\"" + rest;
      ReadQuotedEscape(s[1..], rest);
      EscapeFirst(s, rest);
      assert [s[0]] + s[1..] == s;
      if s[0] == '"' {
        ReadQuotedDoubled(tail);
      } else {
        ReadQuotedPlain(s[0], tail);
      }
    }
  }

  /** An escaped text with what follows it is the escaped first character, then the rest. */
  lemma EscapeFirst(s: string, rest: string)
    requires s != []
    ensures Escape(s) + "\"" + rest ==
            (if s[0] == '"' then "\"\"" else [s[0]]) + (Escape(s[1..]) + "\"" + rest)
  {
  }

  /** A doubled quote reads as one quote and reading goes on after it. */
  lemma ReadQuotedDoubled(u: string)
    requires ReadQuoted(u).Some?
    ensures ReadQuoted("\"\"" + u) == Some(("\"" + ReadQuoted(u).value.0, ReadQuoted(u).value.1))
  {
    assert ("\"\"" + u)[2..] == u;
  }

  /** Any other character reads as itself and reading goes on after it. */
  lemma ReadQuotedPlain(c: char, u: string)
    requires c != '"' && ReadQuoted(u).Some?
    ensures ReadQuoted([c] + u) == Some(([c] + ReadQuoted(u).value.0, ReadQuoted(u).value.1))
  {
    assert ([c] + u)[1..] == u;
  }

  /** A quoted cell reads back as exactly the text it was made from. */
  lemma QuoteRoundTrip(s: string)
    ensures ParseLine(Quote(s)) == Some([s])
  {
    ReadQuotedEscape(s, []);
    assert Quote(s)[1..] == Escape(s) + "\"" + [];
  }

  /** A line of quoted cells joined by commas reads back as exactly those cells, in order. */
  lemma {:induction false} JoinQuotedRoundTrip(texts: seq<string>)
    requires texts != []
    ensures ParseLine(Join(seq(|texts|, i requires 0 <= i < |texts| => Quote(texts[i])))) == Some(texts)
  {
    var cells := seq(|texts|, i requires 0 <= i < |texts| => Quote(texts[i]));
    if |texts| == 1 {
      QuoteRoundTrip(texts[0]);
      assert Join(cells) == Quote(texts[0]);
      assert [texts[0]] == texts;
    } else {
      var tailCells := seq(|texts| - 1, i requires 0 <= i < |texts| - 1 => Quote(texts[1..][i]));
      assert cells[1..] == tailCells;
      var restLine := Join(tailCells);
      assert Join(cells) == Quote(texts[0]) + "," + restLine;
      JoinQuotedRoundTrip(texts[1..]);
      ParseFirstCell(texts[0], restLine, texts[1..]);
      assert [texts[0]] + texts[1..] == texts;
    }
  }

  /** A quoted cell, a comma and a line that reads back read back as that cell's text first. */
  lemma ParseFirstCell(t: string, restLine: string, cells: seq<string>)
    requires ParseLine(restLine) == Some(cells)
    ensures ParseLine(Quote(t) + "," + restLine) == Some([t] + cells)
  {
    var rest := "," + restLine;
    ReadQuotedEscape(t, rest);
    assert (Quote(t) + "," + restLine)[1..] == Escape(t) + "\"" + rest;
    assert rest[1..] == restLine;
  }

  /** Distinct texts give distinct cells. */
  lemma QuoteInjective(a: string, b: string)
    requires Quote(a) == Quote(b)
    ensures a == b
  {
    QuoteRoundTrip(a);
    QuoteRoundTrip(b);
  }
}
