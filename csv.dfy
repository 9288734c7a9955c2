/** The fixed record shape of the dataset and the CSV text a page becomes
    (pandas `to_csv(index=False)` on the writing side, `read_csv` on the
    reading side), restricted to text fields that need no quoting and that
    pandas does not convert. */
module Csv {
  import opened Common

  /** One row of the dataset: id, country, status, amount. */
  datatype Transaction = Transaction(id: nat, country: string, status: string, amount: nat)

  /** Column names, in the order the table holds them. */
  const Columns: seq<string> := ["id", "country", "status", "amount"]

  /** Words `read_csv` does not keep as text by default, compared without
      case: its missing-value markers, its booleans and the infinities. */
  const ConvertedWords: seq<string> := ["na", "nan", "null", "none", "n/a", "true", "false", "inf", "infinity"]

  predicate IsAsciiLetter(c: char)
  {
    'a' <= c <= 'z' || 'A' <= c <= 'Z'
  }

  /** An ASCII upper-case letter made lower-case, anything else kept. */
  function LowerChar(c: char): char
  {
    if 'A' <= c <= 'Z' then (c as int + 32) as char else c
  }

  function AsciiLower(s: string): (r: string)
    ensures |r| == |s|
  {
    seq(|s|, k requires 0 <= k < |s| => LowerChar(s[k]))
  }

  /** A text field that `to_csv` writes unquoted and `read_csv` reads back as
      the same text: it starts with a letter (so it is not read as a number
      or as an empty, missing value), holds neither separator nor quote nor
      carriage return, and is none of the converted words. */
  predicate PlainField(s: string)
  {
    s != [] && IsAsciiLetter(s[0])
    && ',' !in s && '\n' !in s && '\r' !in s && '"' !in s
    && AsciiLower(s) !in ConvertedWords
  }

  /** Missing-value markers and numbers are not plain text. */
  lemma ConvertedFieldsAreNotPlain()
    ensures !PlainField("") && !PlainField("NA") && !PlainField("NaN") && !PlainField("None")
    ensures !PlainField("True") && !PlainField("12") && !PlainField("a\"b")
  {
    assert AsciiLower("NA") == "na";
    assert AsciiLower("NaN") == "nan";
    assert AsciiLower("None") == "none";
    assert AsciiLower("True") == "true";
  }

  predicate PlainTransaction(t: Transaction)
  {
    PlainField(t.country) && PlainField(t.status)
  }

  // ---------------------------------------------------------------------
  // Splitting and joining on a separator

  /** Index of the first occurrence of `c` in `s`. */
  function IndexOf(s: string, c: char): (i: nat)
    requires c in s
    ensures i < |s| && s[i] == c && c !in s[..i]
  {
    if s[0] == c then 0
    else
      var j := IndexOf(s[1..], c);
      assert s[1..][..j] == s[1..j + 1];
      j + 1
  }

  /** The parts separated by `sep`, as Python's `str.split(sep)`. */
  function Split(s: string, sep: char): (parts: seq<string>)
    ensures |parts| > 0
    ensures forall k :: 0 <= k < |parts| ==> sep !in parts[k]
    decreases |s|
  {
    if sep !in s then [s]
    else
      var i := IndexOf(s, sep);
      [s[..i]] + Split(s[i + 1..], sep)
  }

  /** The parts with `sep` between each two, as Python's `sep.join(parts)`. */
  function Join(parts: seq<string>, sep: char): string
    requires |parts| > 0
  {
    if |parts| == 1 then parts[0] else parts[0] + [sep] + Join(parts[1..], sep)
  }

  lemma SplitAfterFirst(a: string, sep: char, b: string)
    requires sep !in a
    ensures Split(a + [sep] + b, sep) == [a] + Split(b, sep)
  {
    var s := a + [sep] + b;
    assert s[|a|] == sep;
    var i := IndexOf(s, sep);
    assert s[..i] == a;
    assert s[i + 1..] == b;
  }

  /** Splitting undoes joining when no part holds the separator. */
  lemma {:induction false} SplitJoin(parts: seq<string>, sep: char)
    requires |parts| > 0
    requires forall k :: 0 <= k < |parts| ==> sep !in parts[k]
    ensures Split(Join(parts, sep), sep) == parts
  {
    if |parts| > 1 {
      var rest := Join(parts[1..], sep);
      assert Join(parts, sep) == parts[0] + [sep] + rest;
      SplitAfterFirst(parts[0], sep, rest);
      SplitJoin(parts[1..], sep);
      assert parts == [parts[0]] + parts[1..];
    }
  }

  /** Joining undoes splitting, for every text. */
  lemma {:induction false} JoinSplit(s: string, sep: char)
    ensures Join(Split(s, sep), sep) == s
    decreases |s|
  {
    if sep in s {
      var i := IndexOf(s, sep);
      JoinSplit(s[i + 1..], sep);
      assert s == s[..i] + [sep] + s[i + 1..];
    }
  }

  // ---------------------------------------------------------------------
  // Whole numbers as decimal text

  predicate IsDigit(c: char)
  {
    '0' <= c <= '9'
  }

  function DigitChar(d: nat): (c: char)
    requires d < 10
    ensures IsDigit(c) && c as int - '0' as int == d
  {
    ('0' as int + d) as char
  }

  /** Decimal text of `n` with no leading zero, as Python's `str(n)`. */
  function NatToDecimal(n: nat): (s: string)
    ensures |s| > 0
    ensures forall k :: 0 <= k < |s| ==> IsDigit(s[k])
  {
    if n < 10 then [DigitChar(n)] else NatToDecimal(n / 10) + [DigitChar(n % 10)]
  }

  function DigitValue(c: char): nat
    requires IsDigit(c)
  {
    c as int - '0' as int
  }

  /** Value of a string of decimal digits. */
  function DigitsValue(s: string): nat
    requires forall k :: 0 <= k < |s| ==> IsDigit(s[k])
  {
    if s == [] then 0
    else DigitsValue(s[..|s| - 1]) * 10 + DigitValue(s[|s| - 1])
  }

  /** The number a CSV field holds, or None if it is not an integer literal. */
  function ParseDecimal(s: string): Option<nat>
  {
    if s != [] && forall k :: 0 <= k < |s| ==> IsDigit(s[k]) then Some(DigitsValue(s)) else None
  }

  lemma {:induction false} DigitsValueOfDecimal(n: nat)
    ensures DigitsValue(NatToDecimal(n)) == n
  {
    if n >= 10 {
      DigitsValueOfDecimal(n / 10);
      var s := NatToDecimal(n);
      assert s[..|s| - 1] == NatToDecimal(n / 10);
    }
  }

  /** Reading back the decimal text of a number gives the number. */
  lemma DecimalRoundTrip(n: nat)
    ensures ParseDecimal(NatToDecimal(n)) == Some(n)
  {
    DigitsValueOfDecimal(n);
  }

  // ---------------------------------------------------------------------
  // Rows and pages

  /** The header line `id,country,status,amount`. */
  function HeaderLine(): string
  {
    Join(Columns, ',')
  }

  function Fields(t: Transaction): seq<string>
  {
    [NatToDecimal(t.id), t.country, t.status, NatToDecimal(t.amount)]
  }

  /** One data line, fields comma-separated in column order. */
  function RowLine(t: Transaction): string
  {
    Join(Fields(t), ',')
  }

  function RowLines(page: seq<Transaction>): (lines: seq<string>)
    ensures |lines| == |page|
  {
    seq(|page|, k requires 0 <= k < |page| => RowLine(page[k]))
  }

  /** The CSV text of a page: the header line, then one line per record,
      each line ended by a newline. */
  function PageText(page: seq<Transaction>): string
  {
    Join([HeaderLine()] + RowLines(page) + [""], '\n')
  }

  /** The CSV text of a page opens with the header line and ends with a
      newline. */
  lemma PageTextShape(page: seq<Transaction>)
    ensures |PageText(page)| > |HeaderLine()|
    ensures PageText(page)[..|HeaderLine()| + 1] == HeaderLine() + "\n"
    ensures PageText(page)[|PageText(page)| - 1] == '\n'
  {
    var lines := [HeaderLine()] + RowLines(page);
    JoinSnoc(lines, "", '\n');
    assert (lines + [""])[1..] == lines[1..] + [""];
  }

  /** One more part adds a separator and the part at the end. */
  lemma {:induction false} JoinSnoc(parts: seq<string>, p: string, sep: char)
    requires |parts| > 0
    ensures Join(parts + [p], sep) == Join(parts, sep) + [sep] + p
  {
    if |parts| > 1 {
      JoinSnoc(parts[1..], p, sep);
      assert (parts + [p])[1..] == parts[1..] + [p];
    }
  }

  /** One record from one data line. */
  function ParseRow(line: string): (r: Result<Transaction>)
    ensures r.Err? ==> r.error == ParseError
    ensures r.Ok? ==> ',' !in r.value.country && ',' !in r.value.status
  {
    var fields := Split(line, ',');
    if |fields| != 4 then Err(ParseError)
    else match (ParseDecimal(fields[0]), ParseDecimal(fields[3]))
      case (Some(id), Some(amount)) => Ok(Transaction(id, fields[1], fields[2], amount))
      case _ => Err(ParseError)
  }

  /** The records of the data lines, in order; the first bad line fails. */
  function ParseRows(lines: seq<string>): (r: Result<seq<Transaction>>)
    ensures r.Ok? <==> forall k :: 0 <= k < |lines| ==> ParseRow(lines[k]).Ok?
    ensures r.Ok? ==> |r.value| == |lines| && forall k :: 0 <= k < |lines| ==> ParseRow(lines[k]) == Ok(r.value[k])
    ensures r.Err? ==> r.error == ParseError
  {
    if lines == [] then Ok([])
    else match (ParseRow(lines[0]), ParseRows(lines[1..]))
      case (Ok(t), Ok(ts)) => Ok([t] + ts)
      case (Err(e), _) => Err(e)
      case (_, Err(e)) => Err(e)
  }

  /** The lines that are not empty (`read_csv` skips blank lines). */
  function NonBlank(lines: seq<string>): (r: seq<string>)
    ensures forall k :: 0 <= k < |r| ==> r[k] != ""
  {
    if lines == [] then []
    else (if lines[0] == "" then [] else [lines[0]]) + NonBlank(lines[1..])
  }

  /** A page from its CSV text: the first non-blank line must be the header. */
  function ParsePage(text: string): (r: Result<seq<Transaction>>)
    ensures r.Err? ==> r.error == ParseError
  {
    var lines := NonBlank(Split(text, '\n'));
    if |lines| == 0 || lines[0] != HeaderLine() then Err(ParseError)
    else ParseRows(lines[1..])
  }

  lemma {:induction false} NonBlankKeeps(lines: seq<string>)
    requires forall k :: 0 <= k < |lines| ==> lines[k] != ""
    ensures NonBlank(lines + [""]) == lines
  {
    if lines != [] {
      assert (lines + [""])[1..] == lines[1..] + [""];
      NonBlankKeeps(lines[1..]);
    }
  }

  lemma RowRoundTrip(t: Transaction)
    requires PlainTransaction(t)
    ensures ParseRow(RowLine(t)) == Ok(t)
  {
    var fields := Fields(t);
    forall k | 0 <= k < 4 ensures ',' !in fields[k] {
      if k == 0 || k == 3 {
        var n := if k == 0 then t.id else t.amount;
        assert forall j :: 0 <= j < |NatToDecimal(n)| ==> IsDigit(NatToDecimal(n)[j]);
      }
    }
    SplitJoin(fields, ',');
    DecimalRoundTrip(t.id);
    DecimalRoundTrip(t.amount);
  }

  lemma RowsRoundTrip(page: seq<Transaction>)
    requires forall k :: 0 <= k < |page| ==> PlainTransaction(page[k])
    ensures ParseRows(RowLines(page)) == Ok(page)
  {
    var lines := RowLines(page);
    forall k | 0 <= k < |lines| ensures ParseRow(lines[k]) == Ok(page[k]) {
      RowRoundTrip(page[k]);
    }
    var r := ParseRows(lines);
    assert r.Ok?;
    assert r.value == page;
  }

  /** A character that is neither a part nor the separator is not in the join. */
  lemma {:induction false} JoinAvoids(parts: seq<string>, sep: char, c: char)
    requires |parts| > 0 && c != sep
    requires forall k :: 0 <= k < |parts| ==> c !in parts[k]
    ensures c !in Join(parts, sep)
  {
    if |parts| > 1 {
      JoinAvoids(parts[1..], sep, c);
    }
  }

  lemma RowLineShape(t: Transaction)
    requires PlainTransaction(t)
    ensures RowLine(t) != "" && '\n' !in RowLine(t)
  {
    var f := Fields(t);
    assert forall j :: 0 <= j < |f[0]| ==> IsDigit(f[0][j]);
    assert forall j :: 0 <= j < |f[3]| ==> IsDigit(f[3][j]);
    JoinAvoids(f, ',', '\n');
  }

  lemma HeaderShape()
    ensures HeaderLine() != "" && '\n' !in HeaderLine()
  {
    JoinAvoids(Columns, ',', '\n');
  }

  /** Reading back the CSV text of a page gives the page, provided its text
      fields hold no separator. */
  lemma PageRoundTrip(page: seq<Transaction>)
    requires forall k :: 0 <= k < |page| ==> PlainTransaction(page[k])
    ensures ParsePage(PageText(page)) == Ok(page)
  {
    var rows := RowLines(page);
    var lines := [HeaderLine()] + rows;
    HeaderShape();
    forall k | 0 <= k < |rows| ensures rows[k] != "" && '\n' !in rows[k] {
      RowLineShape(page[k]);
    }
    assert forall k :: 0 <= k < |lines| ==> lines[k] != "" && '\n' !in lines[k] by {
      forall k | 0 <= k < |lines| ensures lines[k] != "" && '\n' !in lines[k] {
        if k > 0 { assert lines[k] == rows[k - 1]; }
      }
    }
    assert lines + [""] == [HeaderLine()] + rows + [""];
    SplitJoin(lines + [""], '\n');
    NonBlankKeeps(lines);
    assert lines[1..] == rows;
    RowsRoundTrip(page);
  }
}
