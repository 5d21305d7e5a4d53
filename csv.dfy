/**
 * The first record of Go's `encoding/csv` reader with its default settings
 * (comma separator, no comment character, strict quoting), the format of
 * section 2 of RFC 4180: fields separated by commas, a field in double quotes may
 * hold commas, line breaks and doubled quotes, a quote inside an unquoted field is
 * an error, and blank lines before the record are skipped.
 */
module Csv {
  import opened Wrappers
  import opened Text

  /** `io.EOF` (no record at all), `csv.ErrBareQuote` and `csv.ErrQuote`. */
  datatype CsvError = ErrEOF | ErrBareQuote | ErrQuote

  /**
   * The reader's line normalisation: "\r\n" becomes "\n", and a carriage return
   * that ends the input is dropped.
   */
  function Normalize(s: string): (r: string)
    ensures '\r' !in s ==> r == s
    decreases |s|
  {
    if s == [] then []
    else if |s| >= 2 && s[0] == '\r' && s[1] == '\n' then "\n" + Normalize(s[2..])
    else if s == "\r" then []
    else [s[0]] + Normalize(s[1..])
  }

  /** Blank lines before the record are skipped. */
  function SkipEmptyLines(s: string): (r: string)
    ensures HasSuffix(s, r) && (r == [] || r[0] != '\n')
    decreases |s|
  {
    if s != [] && s[0] == '\n' then SkipEmptyLines(s[1..]) else s
  }

  /** The text of an unquoted field: everything up to the next comma or line end. */
  function TakeUnquoted(s: string): (r: string)
    ensures HasPrefix(s, r) && ',' !in r && '\n' !in r
    ensures |r| < |s| ==> s[|r|] == ',' || s[|r|] == '\n'
    decreases |s|
  {
    if s == [] || s[0] == ',' || s[0] == '\n' then [] else [s[0]] + TakeUnquoted(s[1..])
  }

  function Prepend(field: string, rest: Result<seq<string>, CsvError>): (r: Result<seq<string>, CsvError>)
    ensures rest.Failure? ==> r == rest
    ensures rest.Success? ==> r == Success([field] + rest.value)
  {
    match rest
    case Failure(e) => Failure(e)
    case Success(fields) => Success([field] + fields)
  }

  /** The fields of the record that starts at `s`. */
  function Fields(s: string): (r: Result<seq<string>, CsvError>)
    ensures r.Success? ==> |r.value| >= 1
    ensures r != Failure(ErrEOF)
    decreases |s|
  {
    if s != [] && s[0] == '"' then Quoted(s[1..], [])
    else
      var field := TakeUnquoted(s);
      if '"' in field then Failure(ErrBareQuote)
      else if |field| < |s| && s[|field|] == ',' then Prepend(field, Fields(s[|field| + 1..]))
      else Success([field])
  }

  /**
   * The rest of a quoted field whose text so far is `buf`: a doubled quote stands for
   * one quote, a closing quote must be followed by a comma, a line end or the end of
   * the input, and a missing closing quote is an error.
   */
  function Quoted(s: string, buf: string): (r: Result<seq<string>, CsvError>)
    ensures r.Success? ==> |r.value| >= 1
    ensures r != Failure(ErrEOF)
    decreases |s|
  {
    if s == [] then Failure(ErrQuote)
    else if s[0] != '"' then Quoted(s[1..], buf + [s[0]])
    else
      var rest := s[1..];
      if rest != [] && rest[0] == '"' then Quoted(rest[1..], buf + ['"'])
      else if rest != [] && rest[0] == ',' then Prepend(buf, Fields(rest[1..]))
      else if rest == [] || rest[0] == '\n' then Success([buf])
      else Failure(ErrQuote)
  }

  /** `csv.NewReader(strings.NewReader(s)).Read()`: the first record, or the reason there is none. */
  function ReadRecord(s: string): (r: Result<seq<string>, CsvError>)
    ensures r == Failure(ErrEOF) <==> SkipEmptyLines(Normalize(s)) == []
    ensures r.Success? ==> |r.value| >= 1
  {
    var t := SkipEmptyLines(Normalize(s));
    if t == [] then Failure(ErrEOF) else Fields(t)
  }

  lemma {:induction false} NormalizeAppend(a: string, b: string)
    requires '\r' !in a
    ensures Normalize(a + b) == a + Normalize(b)
    decreases |a|
  {
    if a != [] {
      var s := a + b;
      assert s[0] == a[0] && s[1..] == a[1..] + b;
      assert Normalize(s) == [s[0]] + Normalize(s[1..]);
      NormalizeAppend(a[1..], b);
      assert a == [a[0]] + a[1..];
    } else {
      assert a + b == b;
    }
  }

  lemma {:induction false} TakeUnquotedPrefix(a: string, x: string)
    requires ',' !in a && '\n' !in a
    requires x == [] || x[0] == ',' || x[0] == '\n'
    ensures TakeUnquoted(a + x) == a
    decreases |a|
  {
    if a != [] {
      assert (a + x)[1..] == a[1..] + x;
      TakeUnquotedPrefix(a[1..], x);
    } else {
      assert a + x == x;
    }
  }

  /** The position of the first `c` in `s`, or `|s|`. */
  function IndexOf(s: string, c: char): (i: nat)
    ensures i <= |s| && c !in s[..i]
    ensures i < |s| ==> s[i] == c
    decreases |s|
  {
    if s == [] || s[0] == c then 0
    else
      var j := IndexOf(s[1..], c);
      assert s[..j + 1] == [s[0]] + s[1..][..j];
      j + 1
  }

  /** An unquoted field ended by a comma, followed by the remaining fields. */
  lemma FieldsAtComma(a: string, rest: string)
    requires '"' !in a && ',' !in a && '\n' !in a
    ensures Fields(a + [','] + rest) == Prepend(a, Fields(rest))
  {
    var s := a + [','] + rest;
    assert s == a + ([','] + rest);
    TakeUnquotedPrefix(a, [','] + rest);
    assert s[|a|] == ',' && s[|a| + 1..] == rest;
    if a == [] {
      assert s[0] == ',';
    } else {
      assert s[0] == a[0];
    }
  }

  /** An unquoted field ended by the line end or the input's end is the record's last field. */
  lemma FieldsAtLineEnd(a: string, tail: string)
    requires '"' !in a && ',' !in a && '\n' !in a
    requires tail == [] || tail[0] == '\n'
    ensures Fields(a + tail) == Success([a])
  {
    var s := a + tail;
    TakeUnquotedPrefix(a, tail);
    if a == [] {
      assert s == tail;
    } else {
      assert s[0] == a[0];
    }
  }

  /**
   * A line without quotes is split at every comma, and nothing after its line end
   * is read.
   */
  lemma {:induction false} FieldsOfPlainLine(line: string, tail: string)
    requires '"' !in line && '\n' !in line
    requires tail == [] || tail[0] == '\n'
    ensures Fields(line + tail) == Success(Split(line, ','))
    decreases |line|
  {
    var i := IndexOf(line, ',');
    var a := line[..i];
    if i < |line| {
      var b := line[i + 1..];
      assert line == a + [','] + b;
      assert line + tail == a + [','] + (b + tail);
      FieldsAtComma(a, b + tail);
      FieldsOfPlainLine(b, tail);
      SplitAppend(a, ',', b);
    } else {
      assert a == line;
      FieldsAtLineEnd(a, tail);
      SplitSingle(line, ',');
    }
  }

  /** A line without carriage returns is kept as it is by normalisation, and so is its line end. */
  lemma NormalizeLine(line: string, more: string)
    requires '\r' !in line
    ensures Normalize(line + "\n" + more) == line + ("\n" + Normalize(more))
  {
    assert Normalize("\n" + more) == "\n" + Normalize(more) by {
      NormalizeAppend("\n", more);
    }
    assert Normalize(line + ("\n" + more)) == line + Normalize("\n" + more) by {
      NormalizeAppend(line, "\n" + more);
    }
    assert line + "\n" + more == line + ("\n" + more);
  }

  /** A non-empty line without quotes, line ends or carriage returns, read on its own, is its split at commas. */
  lemma LoneLineIsRecord(line: string)
    requires line != [] && '"' !in line && '\n' !in line && '\r' !in line
    ensures ReadRecord(line) == Success(Split(line, ','))
  {
    assert Fields(line) == Success(Split(line, ',')) by {
      FieldsOfPlainLine(line, []);
      assert line + [] == line;
    }
    assert SkipEmptyLines(Normalize(line)) == line by {
      assert Normalize(line) == line;
    }
  }

  /**
   * The first line of an input free of quotes and carriage returns is its record:
   * the line split at every comma, whatever lines follow it.
   */
  lemma FirstLineIsRecord(line: string, more: string)
    requires line != [] && '"' !in line && '\n' !in line && '\r' !in line
    ensures ReadRecord(line) == Success(Split(line, ','))
    ensures ReadRecord(line + "\n" + more) == Success(Split(line, ','))
  {
    LoneLineIsRecord(line);
    var t := line + ("\n" + Normalize(more));
    NormalizeLine(line, more);
    assert SkipEmptyLines(t) == t by {
      assert t[0] == line[0];
    }
    FieldsOfPlainLine(line, "\n" + Normalize(more));
  }

  /** Joining plain fields with commas and reading the record gives the fields back. */
  lemma ReadJoined(fields: seq<string>)
    requires |fields| >= 1 && Join(fields, ",") != []
    requires forall i :: 0 <= i < |fields| ==>
      ',' !in fields[i] && '"' !in fields[i] && '\n' !in fields[i] && '\r' !in fields[i]
    ensures ReadRecord(Join(fields, ",")) == Success(fields)
  {
    JoinFree(fields);
    FirstLineIsRecord(Join(fields, ","), []);
    SplitJoin(fields, ',');
  }

  lemma {:induction false} JoinFree(fields: seq<string>)
    requires forall i :: 0 <= i < |fields| ==> '"' !in fields[i] && '\n' !in fields[i] && '\r' !in fields[i]
    ensures '"' !in Join(fields, ",") && '\n' !in Join(fields, ",") && '\r' !in Join(fields, ",")
    decreases |fields|
  {
    if |fields| > 1 {
      JoinFree(fields[1..]);
    }
  }

  lemma ReadEmpty()
    ensures ReadRecord("") == Failure(ErrEOF)
    ensures ReadRecord("\n\n") == Failure(ErrEOF)
  {
    assert Normalize("\n\n") == "\n\n";
    assert SkipEmptyLines("\n\n") == SkipEmptyLines("\n") == SkipEmptyLines("") == "";
  }

  /** Text without quotes inside a quoted field is taken as it is, commas and line ends included. */
  lemma {:induction false} QuotedText(x: string, rest: string, buf: string)
    requires '"' !in x
    ensures Quoted(x + rest, buf) == Quoted(rest, buf + x)
    decreases |x|
  {
    if x == [] {
      assert x + rest == rest && buf + x == buf;
    } else {
      var s := x + rest;
      assert s[0] == x[0] && s[1..] == x[1..] + rest;
      QuotedText(x[1..], rest, buf + [x[0]]);
      assert buf + [x[0]] + x[1..] == buf + x;
    }
  }

  /** A doubled quote inside a quoted field stands for one quote. */
  lemma QuotedDoubledQuote(rest: string, buf: string)
    ensures Quoted("\"\"" + rest, buf) == Quoted(rest, buf + "\"")
  {
    var s := "\"\"" + rest;
    assert s[0] == '"' && s[1..][0] == '"' && s[1..][1..] == rest;
  }

  /**
   * A quoted first field may hold commas and line ends; after its closing quote
   * and a comma, a plain second field ends the record.
   */
  lemma ReadQuotedField(x: string, y: string)
    requires '"' !in x && '\r' !in x
    requires '"' !in y && ',' !in y && '\n' !in y && '\r' !in y
    ensures ReadRecord("\"" + x + "\"," + y) == Success([x, y])
  {
    var s := "\"" + x + "\"," + y;
    assert '\r' !in s;
    assert s[0] == '"' && s[1..] == x + ("\"," + y);
    QuotedText(x, "\"," + y, []);
    var t := "\"," + y;
    assert t[0] == '"' && t[1..][0] == ',' && t[1..][1..] == y;
    FieldsAtLineEnd(y, []);
    assert y + [] == y && [] + x == x;
    assert Normalize(s) == s && SkipEmptyLines(s) == s;
    assert Fields(s) == Quoted(x + t, []);
    assert Quoted(t, x) == Prepend(x, Fields(y));
    assert ReadRecord(s) == Fields(s);
    assert [x] + [y] == [x, y];
  }

  lemma ReadBareQuote()
    ensures ReadRecord("a\"b") == Failure(ErrBareQuote)
  {
    var s := "a\"b";
    assert Normalize(s) == s && SkipEmptyLines(s) == s;
    assert TakeUnquoted(s) == s by {
      TakeUnquotedPrefix(s, []);
      assert s + [] == s;
    }
    assert '"' in s;
  }

  lemma ReadUnterminatedQuote()
    ensures ReadRecord("\"ab") == Failure(ErrQuote)
  {
    var s := "\"ab";
    assert Normalize(s) == s && SkipEmptyLines(s) == s;
    assert s[1..] == "ab";
    assert Quoted("ab", []) == Quoted("b", "a") == Quoted("", "ab") == Failure(ErrQuote);
  }
}
