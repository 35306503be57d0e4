/** Comma-separated values as the quiz export writes them: fields separated by `,`,
    records separated by a line feed, and a quoted field wrapped in `"` with every
    embedded `"` doubled (section 2, rules 5 to 7 of RFC 4180; the records are separated
    by LF rather than the CRLF of rule 1). A reader for the same format is given so that
    the encoding can be proved lossless. */
module Csv {
  import opened Types
  import Text

  /** A field as written: quoted, or bare (emitted as it is). */
  datatype Cell = Quoted(text: string) | Bare(text: string)

  /** Text that contains no separator and no quote. */
  predicate Plain(s: string) {
    ',' !in s && '\n' !in s && '"' !in s
  }

  /** A bare field must be plain. */
  predicate ValidCell(c: Cell) {
    c.Bare? ==> Plain(c.text)
  }

  /** `s.replace(/"/g, '""')`: every quote doubled. */
  function DoubleQuotes(s: string): string {
    if s == [] then []
    else (if s[0] == '"' then "\"\"" else [s[0]]) + DoubleQuotes(s[1..])
  }

  /** Escaping lengthens a text by one character per quote it contains. */
  lemma {:induction false} DoubleQuotesLength(s: string)
    ensures |DoubleQuotes(s)| == |s| + Text.Count('"', s)
  {
    if s != [] {
      DoubleQuotesLength(s[1..]);
    }
  }

  /** Text without quotes needs no escaping. */
  lemma {:induction false} DoubleQuotesPlain(s: string)
    requires '"' !in s
    ensures DoubleQuotes(s) == s
  {
    if s != [] {
      assert s[0] != '"' && '"' !in s[1..];
      DoubleQuotesPlain(s[1..]);
    }
  }

  /** A quoted field is wrapped in quotes; a bare field is written as it is. */
  function EncodeCell(c: Cell): (r: string)
    ensures c.Quoted? ==> |r| >= 2 && r[0] == '"' && r[|r| - 1] == '"'
    ensures c.Bare? ==> r == c.text
  {
    match c
    case Quoted(t) => ['"'] + DoubleQuotes(t) + ['"']
    case Bare(t) => t
  }

  function EncodeCells(cells: seq<Cell>): (r: seq<string>)
    ensures |r| == |cells|
  {
    if cells == [] then [] else [EncodeCell(cells[0])] + EncodeCells(cells[1..])
  }

  /** One record: its fields joined with commas. */
  function EncodeRecord(cells: seq<Cell>): (r: string)
    ensures |cells| == 1 ==> r == EncodeCell(cells[0])
  {
    Text.Join(EncodeCells(cells), ",")
  }

  function EncodeRecords(records: seq<seq<Cell>>): (r: seq<string>)
    ensures |r| == |records|
  {
    if records == [] then [] else [EncodeRecord(records[0])] + EncodeRecords(records[1..])
  }

  /** A document: its records joined with line feeds. */
  function EncodeDocument(records: seq<seq<Cell>>): (r: string)
    ensures |records| == 1 ==> r == EncodeRecord(records[0])
  {
    Text.Join(EncodeRecords(records), "\n")
  }

  /** The texts of a record's fields. */
  function Texts(cells: seq<Cell>): (r: seq<string>)
    ensures |r| == |cells|
    ensures forall i :: 0 <= i < |cells| ==> r[i] == cells[i].text
  {
    if cells == [] then [] else [cells[0].text] + Texts(cells[1..])
  }

  function TextsOf(records: seq<seq<Cell>>): (r: seq<seq<string>>)
    ensures |r| == |records|
  {
    if records == [] then [] else [Texts(records[0])] + TextsOf(records[1..])
  }

  /** Reads the rest of a quoted field (after its opening quote): the text with doubled
      quotes undone, and what follows the closing quote. None if the quote is never closed. */
  function ParseQuoted(s: string): (r: Option<(string, string)>)
    ensures r.Some? ==> |r.value.1| < |s|
  {
    if s == [] then None
    else if s[0] == '"' then
      if |s| > 1 && s[1] == '"' then
        var r := ParseQuoted(s[2..]);
        if r.None? then None else Some(([s[1]] + r.value.0, r.value.1))
      else Some(([], s[1..]))
    else
      var r := ParseQuoted(s[1..]);
      if r.None? then None else Some(([s[0]] + r.value.0, r.value.1))
  }

  /** Reads a bare field: everything up to the next comma or line feed. */
  function ParseBare(s: string): (r: (string, string))
    ensures r.0 + r.1 == s
    ensures r.1 == [] || r.1[0] == ',' || r.1[0] == '\n'
  {
    if s == [] || s[0] == ',' || s[0] == '\n' then ([], s)
    else
      var r := ParseBare(s[1..]);
      ([s[0]] + r.0, r.1)
  }

  function ParseField(s: string): (r: Option<(string, string)>)
    ensures r.Some? ==> |r.value.1| <= |s|
  {
    if s != [] && s[0] == '"' then ParseQuoted(s[1..]) else Some(ParseBare(s))
  }

  /** Reads a whole document into its records. Every record read has at least one field. */
  function ParseRecords(s: string): (r: Option<seq<seq<string>>>)
    ensures r.Some? ==> |r.value| > 0 && forall i :: 0 <= i < |r.value| ==> |r.value[i]| > 0
    decreases |s|
  {
    var f := ParseField(s);
    if f.None? then None
    else
      var (text, rest) := f.value;
      if rest == [] then Some([[text]])
      else if rest[0] == ',' then
        var more := ParseRecords(rest[1..]);
        if more.None? then None else Some([[text] + more.value[0]] + more.value[1..])
      else if rest[0] == '\n' then
        var more := ParseRecords(rest[1..]);
        if more.None? then None else Some([[text]] + more.value)
      else None
  }

  /** Undoing the doubled quotes recovers the text, and reading stops right after the
      closing quote. */
  lemma {:induction false} QuotedRoundTrip(t: string, rest: string)
    requires rest == [] || rest[0] != '"'
    ensures ParseQuoted(DoubleQuotes(t) + ['"'] + rest) == Some((t, rest))
  {
    var s := DoubleQuotes(t) + ['"'] + rest;
    if t == [] {
      assert s == ['"'] + rest;
    } else {
      var s' := DoubleQuotes(t[1..]) + ['"'] + rest;
      QuotedRoundTrip(t[1..], rest);
      if t[0] == '"' {
        assert s == ['"', '"'] + s';
        assert s[2..] == s';
        assert ['"'] + t[1..] == t;
      } else {
        assert s == [t[0]] + s';
        assert s[1..] == s';
        assert [t[0]] + t[1..] == t;
      }
    }
  }

  lemma {:induction false} BareRoundTrip(t: string, rest: string)
    requires ',' !in t && '\n' !in t
    requires rest == [] || rest[0] == ',' || rest[0] == '\n'
    ensures ParseBare(t + rest) == (t, rest)
  {
    if t != [] {
      assert t[0] in t && forall x :: x in t[1..] ==> x in t;
      BareRoundTrip(t[1..], rest);
      assert (t + rest)[1..] == t[1..] + rest;
      assert [t[0]] + t[1..] == t;
    } else {
      assert t + rest == rest;
    }
  }

  /** A field followed by a separator, or by nothing, is read back as its text. */
  lemma FieldRoundTrip(c: Cell, rest: string)
    requires ValidCell(c)
    requires rest == [] || rest[0] == ',' || rest[0] == '\n'
    ensures ParseField(EncodeCell(c) + rest) == Some((c.text, rest))
  {
    match c
    case Quoted(t) =>
      QuotedRoundTrip(t, rest);
      assert (EncodeCell(c) + rest)[1..] == DoubleQuotes(t) + ['"'] + rest;
    case Bare(t) =>
      BareRoundTrip(t, rest);
      if t != [] {
        assert (t + rest)[0] == t[0];
      }
  }

  /** Reading a last field. */
  lemma FieldThenEnd(c: Cell, tail: string, more: seq<seq<string>>)
    requires ValidCell(c)
    requires tail == [] || (tail[0] == '\n' && ParseRecords(tail[1..]) == Some(more))
    ensures ParseRecords(EncodeCell(c) + tail) == Some([[c.text]] + (if tail == [] then [] else more))
  {
    FieldRoundTrip(c, tail);
    if tail == [] {
      assert [[c.text]] + [] == [[c.text]];
    }
  }

  /** Reading a field followed by a comma. */
  lemma FieldThenComma(c: Cell, after: string, recs: seq<seq<string>>)
    requires ValidCell(c)
    requires ParseRecords(after) == Some(recs)
    ensures ParseRecords(EncodeCell(c) + [','] + after) == Some([[c.text] + recs[0]] + recs[1..])
  {
    FieldRoundTrip(c, [','] + after);
    assert EncodeCell(c) + [','] + after == EncodeCell(c) + ([','] + after);
    assert ([','] + after)[1..] == after;
  }

  /** A record followed by nothing, or by a line feed and a readable remainder. */
  lemma {:induction false} RecordRoundTrip(cells: seq<Cell>, tail: string, more: seq<seq<string>>)
    requires |cells| > 0 && forall i :: 0 <= i < |cells| ==> ValidCell(cells[i])
    requires tail == [] || (tail[0] == '\n' && ParseRecords(tail[1..]) == Some(more))
    ensures ParseRecords(EncodeRecord(cells) + tail) ==
      Some([Texts(cells)] + (if tail == [] then [] else more))
  {
    var c := cells[0];
    if |cells| == 1 {
      assert EncodeCells(cells) == [EncodeCell(c)];
      FieldThenEnd(c, tail, more);
      assert Texts(cells) == [c.text];
    } else {
      var after := EncodeRecord(cells[1..]) + tail;
      assert EncodeRecord(cells) + tail == EncodeCell(c) + [','] + after by {
        assert EncodeCells(cells)[1..] == EncodeCells(cells[1..]);
      }
      RecordRoundTrip(cells[1..], tail, more);
      FieldThenComma(c, after, [Texts(cells[1..])] + (if tail == [] then [] else more));
      assert Texts(cells) == [c.text] + Texts(cells[1..]);
    }
  }

  /** Every record has a field and every bare field is free of separators and quotes. */
  predicate Encodable(records: seq<seq<Cell>>) {
    forall i :: 0 <= i < |records| ==>
      |records[i]| > 0 && forall j :: 0 <= j < |records[i]| ==> ValidCell(records[i][j])
  }

  /** Reading an encoded document gives back the texts of its fields, record by record. */
  lemma {:induction false} DocumentRoundTrip(records: seq<seq<Cell>>)
    requires |records| > 0 && Encodable(records)
    ensures ParseRecords(EncodeDocument(records)) == Some(TextsOf(records))
  {
    if |records| == 1 {
      RecordRoundTrip(records[0], [], []);
      assert EncodeRecord(records[0]) + [] == EncodeRecord(records[0]);
    } else {
      assert Encodable(records[1..]) by {
        forall i | 0 <= i < |records[1..]|
          ensures |records[1..][i]| > 0 && forall j :: 0 <= j < |records[1..][i]| ==> ValidCell(records[1..][i][j])
        {
          assert records[1..][i] == records[i + 1];
        }
      }
      DocumentRoundTrip(records[1..]);
      var tail := "\n" + EncodeDocument(records[1..]);
      assert EncodeDocument(records) == EncodeRecord(records[0]) + tail by {
        assert EncodeRecords(records)[1..] == EncodeRecords(records[1..]);
      }
      assert tail[1..] == EncodeDocument(records[1..]);
      RecordRoundTrip(records[0], tail, TextsOf(records[1..]));
    }
  }

  /** One decimal digit. */
  function DigitChar(d: nat): (c: char)
    requires d < 10
    ensures '0' <= c <= '9' && (c as int) - ('0' as int) == d
  {
    (d + '0' as int) as char
  }

  /** The decimal digits of a natural number, most significant first, without leading zeros. */
  function Digits(n: nat): (s: string)
    ensures |s| >= 1 && (|s| > 1 ==> s[0] != '0')
    ensures forall i :: 0 <= i < |s| ==> '0' <= s[i] <= '9'
  {
    if n < 10 then [DigitChar(n)] else Digits(n / 10) + [DigitChar(n % 10)]
  }

  /** The value of a string of decimal digits. */
  function DigitsValue(s: string): nat
    requires forall i :: 0 <= i < |s| ==> '0' <= s[i] <= '9'
  {
    if s == [] then 0 else DigitsValue(s[..|s| - 1]) * 10 + ((s[|s| - 1] as int) - ('0' as int))
  }

  lemma {:induction false} DigitsRoundTrip(n: nat)
    ensures DigitsValue(Digits(n)) == n
  {
    if n >= 10 {
      DigitsRoundTrip(n / 10);
      var s := Digits(n);
      assert s[..|s| - 1] == Digits(n / 10);
    }
  }

  /** How JavaScript writes an integer: an optional minus sign, then its digits. */
  function Decimal(n: int): (s: string)
    ensures n < 0 ==> s == "-" + Digits(-n)
    ensures n >= 0 ==> s == Digits(n)
    ensures Plain(s)
  {
    if n < 0 then "-" + Digits(-n) else Digits(n)
  }
}
