/**
 * The row handling of `CsvImportService.importMoviesFromCsv`: the first
 * record is a header, every later record's text is split on `;` with empty
 * fields kept, a record with fewer than four fields is skipped, and the
 * others become movies; a year that does not parse aborts the whole import.
 * Each record is the text the CSV reader hands over as its first column.
 */
module CsvImport {
  import opened Outcomes
  import opened JavaText
  import opened Entities

  // ----- String.split(";", -1) -----

  /** `s.split(";", -1)`: the text between semicolons, every empty piece kept. */
  function SplitFields(s: string): (fields: seq<string>)
    ensures fields != []
    ensures forall i :: 0 <= i < |fields| ==> ';' !in fields[i]
  {
    if s == [] then [""]
    else
      var init := SplitFields(s[..|s| - 1]);
      var c := s[|s| - 1];
      if c == ';' then init + [""]
      else init[..|init| - 1] + [init[|init| - 1] + [c]]
  }

  /** The fields written back with `;` between them. */
  function JoinFields(fields: seq<string>): string
    requires fields != []
  {
    if |fields| == 1 then fields[0]
    else JoinFields(fields[..|fields| - 1]) + ";" + fields[|fields| - 1]
  }

  predicate NoSemicolon(fields: seq<string>) {
    forall i :: 0 <= i < |fields| ==> ';' !in fields[i]
  }

  /** Joining the pieces of a split gives back the text. */
  lemma {:induction false} JoinSplitFields(s: string)
    ensures JoinFields(SplitFields(s)) == s
  {
    if s != [] {
      var front := s[..|s| - 1];
      var init := SplitFields(front);
      JoinSplitFields(front);
      assert s == front + [s[|s| - 1]];
      if s[|s| - 1] != ';' && |init| > 1 {
        var fields := SplitFields(s);
        assert fields[..|fields| - 1] == init[..|init| - 1];
      }
    }
  }

  /** `fields` with `t` added to the end of the last one. */
  function Extend(fields: seq<string>, t: string): seq<string>
    requires fields != []
  {
    fields[..|fields| - 1] + [fields[|fields| - 1] + t]
  }

  lemma ExtendTwice(fields: seq<string>, a: string, b: string)
    requires fields != []
    ensures Extend(Extend(fields, a), b) == Extend(fields, a + b)
  {
    var once := Extend(fields, a);
    var last := fields[|fields| - 1];
    assert once[..|fields| - 1] == fields[..|fields| - 1] && once[|fields| - 1] == last + a;
    assert (last + a) + b == last + (a + b);
  }

  /** Appending text without a separator only lengthens the last field. */
  lemma {:induction false} SplitAppendPlain(s: string, t: string)
    requires ';' !in t
    ensures SplitFields(s + t) == Extend(SplitFields(s), t)
  {
    var fields := SplitFields(s);
    if t == [] {
      assert s + t == s;
      assert fields[|fields| - 1] + t == fields[|fields| - 1];
      assert fields == fields[..|fields| - 1] + [fields[|fields| - 1]];
    } else {
      var t' := t[..|t| - 1];
      var c := t[|t| - 1];
      SplitAppendPlain(s, t');
      assert s + t == (s + t') + [c] && (s + t)[..|s + t| - 1] == s + t';
      ExtendTwice(fields, t', [c]);
      assert t' + [c] == t;
    }
  }

  /** A trailing `;` adds one empty field: `"1980;T;S;P;"` has five fields, the last empty. */
  lemma TrailingSeparatorKeepsEmptyField(s: string)
    ensures SplitFields(s + ";") == SplitFields(s) + [""]
  {
    assert (s + ";")[..|s|] == s;
  }

  /** Splitting the joined fields gives back the fields, provided none holds a `;`. */
  lemma {:induction false} SplitJoinFields(fields: seq<string>)
    requires fields != [] && NoSemicolon(fields)
    ensures SplitFields(JoinFields(fields)) == fields
  {
    if |fields| == 1 {
      SplitAppendPlain([], fields[0]);
      assert [] + fields[0] == fields[0];
      assert Extend([""], fields[0]) == fields;
    } else {
      var front := fields[..|fields| - 1];
      var last := fields[|fields| - 1];
      SplitJoinFields(front);
      TrailingSeparatorKeepsEmptyField(JoinFields(front));
      SplitAppendPlain(JoinFields(front) + ";", last);
      assert (front + [""])[..|front|] == front && "" + last == last;
      assert Extend(front + [""], last) == fields;
      assert fields == front + [last];
    }
  }

  /** A row has one field more than it has semicolons. */
  lemma {:induction false} FieldCount(s: string)
    ensures |SplitFields(s)| == multiset(s)[';'] + 1
  {
    if s != [] {
      FieldCount(s[..|s| - 1]);
      assert s == s[..|s| - 1] + [s[|s| - 1]];
    }
  }

  // ----- One record -----

  /** What one data record turns into. */
  datatype RowOutcome =
    | Skip                      // fewer than four fields: silently ignored
    | Accept(movie: Movie)
    | Reject(yearText: string)  // the trimmed year field `parseInt` refuses

  /**
   * The per-record conversion: split on `;`, skip short records, parse the
   * trimmed year, trim title, studios and producers, and read the winner flag
   * from the fifth field when there is one.
   */
  function ConvertRow(line: string): (r: RowOutcome)
    ensures r.Accept? ==> IsInt32(r.movie.year)
    ensures r.Accept? ==> IsTrimmed(r.movie.title) && IsTrimmed(r.movie.studios) && IsTrimmed(r.movie.producers)
    ensures r.Reject? ==> IsTrimmed(r.yearText) && ParseInt(r.yearText).None?
  {
    var values := SplitFields(line);
    if |values| < 4 then Skip
    else
      var yearText := Trim(values[0]);
      TrimIsTrimmed(values[0]);
      match ParseInt(yearText)
      case None => Reject(yearText)
      case Some(year) =>
        TrimIsTrimmed(values[1]);
        TrimIsTrimmed(values[2]);
        TrimIsTrimmed(values[3]);
        Accept(Movie(year, Trim(values[1]), Trim(values[2]), Trim(values[3]),
                     |values| > 4 && EqualsIgnoreCase(Trim(values[4]), "yes")))
  }

  /** A record is skipped exactly when it holds fewer than three semicolons. */
  lemma SkipIffFewSeparators(line: string)
    ensures ConvertRow(line).Skip? <==> multiset(line)[';'] < 3
  {
    FieldCount(line);
  }

  /**
   * The record made of `fields` converts field by field: the trimmed first
   * field must parse as an int, the next three are trimmed, and the movie
   * won exactly when a fifth field spells "yes" in any case.
   */
  lemma ConvertFields(fields: seq<string>)
    requires |fields| >= 4 && NoSemicolon(fields)
    ensures ParseInt(Trim(fields[0])).None? ==> ConvertRow(JoinFields(fields)) == Reject(Trim(fields[0]))
    ensures ParseInt(Trim(fields[0])).Some? ==>
      ConvertRow(JoinFields(fields)) == Accept(Movie(ParseInt(Trim(fields[0])).value,
        Trim(fields[1]), Trim(fields[2]), Trim(fields[3]), WonIn(fields)))
  {
    SplitJoinFields(fields);
    if |fields| >= 5 {
      YesSpellings(Trim(fields[4]));
    }
  }

  /** The winner flag, read from the fields: a fifth field whose trimmed text is y, e, s in either case. */
  predicate WonIn(fields: seq<string>) {
    |fields| >= 5 && var w := Trim(fields[4]);
    |w| == 3 && w[0] in "yY" && w[1] in "eE" && w[2] in "sS\U{17F}"
  }

  /** Fields after the fifth do not change what a record turns into. */
  lemma ExtraFieldsIgnored(fields: seq<string>, extra: seq<string>)
    requires |fields| >= 5 && NoSemicolon(fields) && NoSemicolon(extra)
    ensures extra != [] ==> ConvertRow(JoinFields(fields + extra)) == ConvertRow(JoinFields(fields))
  {
    if extra != [] {
      assert NoSemicolon(fields + extra) by {
        forall i | 0 <= i < |fields + extra| ensures ';' !in (fields + extra)[i] {
          if i >= |fields| {
            assert (fields + extra)[i] == extra[i - |fields|];
          }
        }
      }
      SplitJoinFields(fields + extra);
      SplitJoinFields(fields);
    }
  }

  /** A record as the import file would hold it for a movie: winners carry "yes", the others an empty fifth field. */
  function MovieRow(m: Movie): string
  {
    JoinFields([IntToString(m.year), m.title, m.studios, m.producers, if m.winner then "yes" else ""])
  }

  predicate Writable(m: Movie) {
    IsInt32(m.year)
    && IsTrimmed(m.title) && IsTrimmed(m.studios) && IsTrimmed(m.producers)
    && ';' !in m.title && ';' !in m.studios && ';' !in m.producers
  }

  lemma NumeralIsPlain(n: int)
    ensures IsTrimmed(IntToString(n)) && ';' !in IntToString(n)
  {
    var s := IntToString(n);
    var d := if n < 0 then Decimal(-n) else Decimal(n);
    DecimalValue(if n < 0 then -n else n);
    assert IsDigit(d[0]) && IsDigit(d[|d| - 1]);
    assert s[|s| - 1] == d[|d| - 1];
    assert forall c <- s :: c == '-' || IsDigit(c);
  }

  /** Writing a movie as a record and converting the record gives the movie back. */
  lemma MovieRowRoundTrip(m: Movie)
    requires Writable(m)
    ensures ConvertRow(MovieRow(m)) == Accept(m)
  {
    var winnerText := if m.winner then "yes" else "";
    var fields := [IntToString(m.year), m.title, m.studios, m.producers, winnerText];
    NumeralIsPlain(m.year);
    assert NoSemicolon(fields);
    SplitJoinFields(fields);
    ParseIntToString(m.year);
    TrimFixedPoints(fields[0]);
    TrimFixedPoints(m.title);
    TrimFixedPoints(m.studios);
    TrimFixedPoints(m.producers);
    TrimFixedPoints(winnerText);
    assert fields[4] == winnerText;
  }

  // ----- The whole file -----

  /** `NumberFormatException`, carrying the year text it refused. */
  datatype ImportError = InvalidYear(text: string)

  /**
   * The movies the data records yield, in record order, or the error of the
   * first record whose year does not parse.
   */
  function ImportRows(rows: seq<string>): Result<seq<Movie>, ImportError>
  {
    if rows == [] then Ok([])
    else
      match ImportRows(rows[..|rows| - 1])
      case Err(e) => Err(e)
      case Ok(movies) =>
        match ConvertRow(rows[|rows| - 1])
        case Skip => Ok(movies)
        case Accept(m) => Ok(movies + [m])
        case Reject(t) => Err(InvalidYear(t))
  }

  /** The movies of the accepted records, in record order, regardless of rejected ones. */
  function Accepted(rows: seq<string>): seq<Movie>
  {
    if rows == [] then []
    else
      var r := ConvertRow(rows[|rows| - 1]);
      Accepted(rows[..|rows| - 1]) + (if r.Accept? then [r.movie] else [])
  }

  predicate Rejected(line: string) { ConvertRow(line).Reject? }

  /**
   * The import succeeds exactly when no record has a bad year, and then
   * yields the accepted movies in order; otherwise it reports the first
   * record with a bad year.
   */
  lemma {:induction false} ImportRowsSpec(rows: seq<string>)
    ensures ImportRows(rows).Ok? <==> forall i :: 0 <= i < |rows| ==> !Rejected(rows[i])
    ensures ImportRows(rows).Ok? ==> ImportRows(rows).value == Accepted(rows)
    ensures ImportRows(rows).Err? ==>
      exists i :: 0 <= i < |rows| && ConvertRow(rows[i]) == Reject(ImportRows(rows).error.text)
        && forall j :: 0 <= j < i ==> !Rejected(rows[j])
  {
    if rows != [] {
      var front := rows[..|rows| - 1];
      ImportRowsSpec(front);
      assert forall i :: 0 <= i < |front| ==> front[i] == rows[i];
      if ImportRows(front).Err? {
        var i :| 0 <= i < |front| && ConvertRow(front[i]) == Reject(ImportRows(front).error.text)
          && forall j :: 0 <= j < i ==> !Rejected(front[j]);
        assert ConvertRow(rows[i]) == Reject(ImportRows(rows).error.text);
      } else if Rejected(rows[|rows| - 1]) {
        assert ConvertRow(rows[|rows| - 1]) == Reject(ImportRows(rows).error.text);
      }
    }
  }

  /** Once a prefix of the records fails, the import fails with the same error. */
  lemma {:induction false} ErrorPersists(rows: seq<string>, n: nat)
    requires n <= |rows| && ImportRows(rows[..n]).Err?
    ensures ImportRows(rows) == ImportRows(rows[..n])
  {
    if n < |rows| {
      assert rows[..|rows| - 1][..n] == rows[..n];
      ErrorPersists(rows[..|rows| - 1], n);
    } else {
      assert rows[..n] == rows;
    }
  }

  /** Accepted movies keep record order: the movies of two files read one after the other are concatenated. */
  lemma {:induction false} AcceptedAppend(a: seq<string>, b: seq<string>)
    ensures Accepted(a + b) == Accepted(a) + Accepted(b)
  {
    if b != [] {
      AcceptedAppend(a, b[..|b| - 1]);
      assert (a + b)[..|a + b| - 1] == a + b[..|b| - 1];
    } else {
      assert a + b == a;
    }
  }

  /** The record yields a movie. */
  predicate Accepts(line: string) { ConvertRow(line).Accept? }

  /** The positions of `xs` whose element satisfies `keep`. */
  function IndicesWhere<T>(xs: seq<T>, keep: T -> bool): set<int>
  {
    set i | 0 <= i < |xs| && keep(xs[i])
  }

  lemma IndicesWhereSnoc<T>(xs: seq<T>, keep: T -> bool)
    requires xs != []
    ensures |IndicesWhere(xs, keep)| ==
            |IndicesWhere(xs[..|xs| - 1], keep)| + (if keep(xs[|xs| - 1]) then 1 else 0)
  {
    var n := |xs| - 1;
    var all, before := IndicesWhere(xs, keep), IndicesWhere(xs[..n], keep);
    var added: set<int> := if keep(xs[n]) then {n} else {};
    forall i ensures i in all <==> i in before + added {
      if 0 <= i < n {
        assert xs[..n][i] == xs[i];
      }
    }
    assert all == before + added;
    assert n !in before;
  }

  /** One movie per accepted record. */
  lemma {:induction false} AcceptedCount(rows: seq<string>)
    ensures |Accepted(rows)| == |IndicesWhere(rows, Accepts)|
  {
    if rows != [] {
      AcceptedCount(rows[..|rows| - 1]);
      IndicesWhereSnoc(rows, Accepts);
    }
  }

  /** What the import returns: the movies handed to the store, and their number. */
  datatype ImportSummary = ImportSummary(saved: seq<Movie>, count: int)

  /**
   * `importMoviesFromCsv` over the records of a file: the first record is the
   * header and is never converted; the result is the count of accepted
   * records, or the error of the first bad year, in which case nothing is
   * saved.
   */
  method ImportMoviesFromCsv(records: seq<string>) returns (outcome: Result<ImportSummary, ImportError>)
    ensures records == [] ==> outcome == Ok(ImportSummary([], 0))
    ensures records != [] && outcome.Ok? ==>
      ImportRows(records[1..]) == Ok(outcome.value.saved) && outcome.value.count == |outcome.value.saved|
    ensures records != [] && outcome.Err? ==> ImportRows(records[1..]) == Err(outcome.error)
  {
    if records == [] {
      return Ok(ImportSummary([], 0));
    }
    var rows := records[1..];  // the header
    var moviesToSave: seq<Movie> := [];
    var k := 0;
    while k < |rows|
      invariant 0 <= k <= |rows|
      invariant ImportRows(rows[..k]) == Ok(moviesToSave)
    {
      assert rows[..k + 1][..k] == rows[..k];
      match ConvertRow(rows[k]) {
        case Skip =>
        case Accept(movie) =>
          moviesToSave := moviesToSave + [movie];
        case Reject(yearText) =>
          ErrorPersists(rows, k + 1);
          return Err(InvalidYear(yearText));
      }
      k := k + 1;
    }
    assert rows[..k] == rows;
    return Ok(ImportSummary(moviesToSave, |moviesToSave|));
  }
}
