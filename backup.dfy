/**
 * The CSV backup of the legacy ledger: the line format written by
 * `writeToFile`, the line reading and field parsing of `importCsv`, and
 * the import loop with its three counters. File access is left out: the
 * file is its text content.
 */
module Backup {
  import opened Limits
  import opened LedgerRows
  import LegacyDatabase

  datatype Option<T> = None | Some(value: T)

  // ---------------------------------------------------------------------------
  // Decimal text

  predicate IsDigit(c: char) {
    '0' <= c <= '9'
  }

  function DigitChar(d: int): (c: char)
    requires 0 <= d <= 9
    ensures IsDigit(c) && c as int - '0' as int == d
  {
    ('0' as int + d) as char
  }

  /** The decimal digits of `n`, without leading zeros. */
  function NatToString(n: nat): (s: string)
    ensures |s| >= 1 && forall i :: 0 <= i < |s| ==> IsDigit(s[i])
  {
    if n < 10 then [DigitChar(n)] else NatToString(n / 10) + [DigitChar(n % 10)]
  }

  /** `Long.toString` and `Int.toString`: a minus sign for negative numbers, then the digits. */
  function IntToString(x: int): (s: string)
    ensures |s| >= 1
    ensures forall i :: 0 <= i < |s| ==> IsDigit(s[i]) || s[i] == '-'
    ensures x >= 0 ==> forall i :: 0 <= i < |s| ==> IsDigit(s[i])
  {
    if x < 0 then "-" + NatToString(-x) else NatToString(x)
  }

  function DigitValue(c: char): (d: nat)
    requires IsDigit(c)
    ensures d <= 9
  {
    c as int - '0' as int
  }

  /** The value of a string of decimal digits. */
  function DigitsValue(s: string): (n: nat)
    requires forall i :: 0 <= i < |s| ==> IsDigit(s[i])
  {
    if s == [] then 0
    else DigitsValue(s[..|s| - 1]) * 10 + DigitValue(s[|s| - 1])
  }

  /**
   * `java.lang.Long.valueOf` / `Integer.valueOf` on decimal text: an
   * optional `+` or `-`, at least one digit, nothing else, and a value in
   * `lo..hi`. Anything else throws, here `None`.
   */
  function ParseSigned(s: string, lo: int, hi: int): (r: Option<int>)
    ensures r.Some? ==> lo <= r.value <= hi
  {
    if s == [] then None
    else
      var negative := s[0] == '-';
      var digits := if s[0] == '-' || s[0] == '+' then s[1..] else s;
      if digits == [] || exists i :: 0 <= i < |digits| && !IsDigit(digits[i]) then None
      else
        var n: int := DigitsValue(digits);
        var v := if negative then -n else n;
        if lo <= v <= hi then Some(v) else None
  }

  lemma {:induction false} DigitsOfNat(n: nat)
    ensures DigitsValue(NatToString(n)) == n
  {
    if n >= 10 {
      var s := NatToString(n);
      assert s[..|s| - 1] == NatToString(n / 10);
      DigitsOfNat(n / 10);
    }
  }

  /** Printing a number and parsing it back gives the number, whenever it is in range. */
  lemma ParsePrinted(x: int, lo: int, hi: int)
    requires lo <= x <= hi
    ensures ParseSigned(IntToString(x), lo, hi) == Some(x)
  {
    if x < 0 {
      var s := IntToString(x);
      assert s[1..] == NatToString(-x);
      DigitsOfNat(-x);
    } else {
      DigitsOfNat(x);
    }
  }

  // ---------------------------------------------------------------------------
  // Fields and lines

  /** Kotlin's `split` on a one-character separator: every field, trailing empty ones included. */
  function Split(s: string, sep: char): (r: seq<string>)
    ensures |r| >= 1
    ensures forall i :: 0 <= i < |r| ==> sep !in r[i]
  {
    if s == [] then [""]
    else
      var rest := Split(s[1..], sep);
      if s[0] == sep then [""] + rest else [[s[0]] + rest[0]] + rest[1..]
  }

  lemma {:induction false} SplitNoSeparator(a: string, sep: char)
    requires sep !in a
    ensures Split(a, sep) == [a]
  {
    if a != [] {
      SplitNoSeparator(a[1..], sep);
      assert [a[0]] + a[1..] == a;
    }
  }

  lemma {:induction false} SplitFirst(a: string, sep: char, b: string)
    requires sep !in a
    ensures Split(a + [sep] + b, sep) == [a] + Split(b, sep)
  {
    var s := a + [sep] + b;
    if a == [] {
      assert s[1..] == b;
    } else {
      assert s[1..] == a[1..] + [sep] + b;
      SplitFirst(a[1..], sep, b);
      assert [a[0]] + a[1..] == a;
    }
  }

  /** The parse of one CSV line: date from field 0 as a `Long`, steps from field 1 as an `Int`. */
  function ParseLine(line: string): (r: Option<(int, int)>)
    ensures r.Some? ==> LongMin <= r.value.0 <= LongMax && IsInt(r.value.1)
    ensures |Split(line, ';')| < 2 ==> r.None?
  {
    var fields := Split(line, ';');
    if |fields| < 2 then None
    else
      match (ParseSigned(fields[0], LongMin, LongMax), ParseSigned(fields[1], IntMin, IntMax))
      case (Some(d), Some(s)) => Some((d, s))
      case _ => None
  }

  /**
   * The count `writeToFile` prints for a row: `Math.max(0, c.getInt(1))`,
   * where `getInt` keeps the low 32 bits of the stored value.
   */
  function ExportedSteps(x: Row): (s: int)
    ensures 0 <= s <= IntMax
    ensures IsInt(x.steps) ==> s == Max0(x.steps)
  {
    Max0(WrapInt(x.steps))
  }

  /** A stored count of `Int.MAX_VALUE + 1` or of `2^32 + 5` is exported as 0 or 5. */
  lemma ExportedStepsTruncates()
    ensures ExportedSteps(Row(1, IntMax + 1)) == 0
    ensures ExportedSteps(Row(1, 0x1_0000_0000 + 5)) == 5
  {
    assert WrapInt(IntMax + 1) == IntMin by {
      assert (IntMax + 1 - IntMin) % 0x1_0000_0000 == 0;
    }
    assert WrapInt(0x1_0000_0000 + 5) == 5 by {
      assert (0x1_0000_0000 + 5 - IntMin) % 0x1_0000_0000 == 5 - IntMin;
    }
  }

  /** One exported line, without its terminator: `<date>;<exported count>`. */
  function ExportLine(x: Row): (r: string)
    ensures Split(r, ';') == [IntToString(x.date), IntToString(ExportedSteps(x))]
  {
    var a, b := IntToString(x.date), IntToString(ExportedSteps(x));
    SplitFirst(a, ';', b);
    SplitNoSeparator(b, ';');
    a + ";" + b
  }

  /** An exported line holds no line break and reads back as its date and non-negative count. */
  lemma ExportLineParses(x: Row)
    requires LongMin <= x.date <= LongMax
    ensures ParseLine(ExportLine(x)) == Some((x.date, ExportedSteps(x)))
    ensures '\n' !in ExportLine(x) && '\r' !in ExportLine(x)
  {
    var a := IntToString(x.date);
    var b := IntToString(ExportedSteps(x));
    assert ';' !in a && ';' !in b by {
      assert forall i :: 0 <= i < |a| ==> a[i] != ';';
      assert forall i :: 0 <= i < |b| ==> b[i] != ';';
    }
    assert ExportLine(x) == a + [';'] + b;
    SplitFirst(a, ';', b);
    SplitNoSeparator(b, ';');
    ParsePrinted(x.date, LongMin, LongMax);
    ParsePrinted(ExportedSteps(x), IntMin, IntMax);
    var e := ExportLine(x);
    assert forall i :: 0 <= i < |e| ==> e[i] != '\n' && e[i] != '\r';
  }

  /** An exported line parses back exactly when its date lies in the `Long` range; its count always lies in the `Int` range. */
  lemma ExportLineParsesOnlyInRange(x: Row)
    ensures ParseLine(ExportLine(x)).Some? <==> LongMin <= x.date <= LongMax
  {
    if ParseLine(ExportLine(x)).Some? {
      var a := IntToString(x.date);
      var b := IntToString(ExportedSteps(x));
      assert forall i :: 0 <= i < |a| ==> a[i] != ';';
      assert forall i :: 0 <= i < |b| ==> b[i] != ';';
      assert ExportLine(x) == a + [';'] + b;
      SplitFirst(a, ';', b);
      SplitNoSeparator(b, ';');
      PrintedParsesToItself(x.date, LongMin, LongMax);
    } else if LongMin <= x.date <= LongMax {
      ExportLineParses(x);
    }
  }

  /** Parsing printed text never yields a different number. */
  lemma PrintedParsesToItself(x: int, lo: int, hi: int)
    ensures ParseSigned(IntToString(x), lo, hi).Some? ==> ParseSigned(IntToString(x), lo, hi).value == x
  {
    if x < 0 {
      var s := IntToString(x);
      assert s[1..] == NatToString(-x);
      DigitsOfNat(-x);
    } else {
      DigitsOfNat(x);
    }
  }

  /** Extra fields after the steps are ignored. */
  lemma ExtraFieldsIgnored(f0: string, f1: string, rest: string)
    requires ';' !in f0 && ';' !in f1
    ensures ParseLine(f0 + ";" + f1 + ";" + rest) == ParseLine(f0 + ";" + f1)
  {
    assert f0 + ";" + f1 + ";" + rest == f0 + [';'] + (f1 + [';'] + rest);
    SplitFirst(f0, ';', f1 + [';'] + rest);
    SplitFirst(f1, ';', rest);
    assert f0 + ";" + f1 == f0 + [';'] + f1;
    SplitFirst(f0, ';', f1);
    SplitNoSeparator(f1, ';');
  }

  /** A line without a separator, an empty line among them, is ignored. */
  lemma MissingFieldIgnored(line: string)
    requires ';' !in line
    ensures ParseLine(line).None?
  {
    SplitNoSeparator(line, ';');
  }

  // ---------------------------------------------------------------------------
  // Files

  predicate IsLineBreak(c: char) {
    c == '\n' || c == '\r'
  }

  /** The index of the first line break in `s`, or `|s|`. */
  function LineEnd(s: string): (i: nat)
    ensures i <= |s|
    ensures forall k :: 0 <= k < i ==> !IsLineBreak(s[k])
    ensures i < |s| ==> IsLineBreak(s[i])
  {
    if s == [] || IsLineBreak(s[0]) then 0 else 1 + LineEnd(s[1..])
  }

  /**
   * `BufferedReader.readLine` until it returns null: lines end at `\n`,
   * `\r` or `\r\n`; a final line without terminator still counts, an empty
   * tail does not.
   */
  function ReadLines(s: string): (r: seq<string>)
    ensures forall k :: 0 <= k < |r| ==> forall j :: 0 <= j < |r[k]| ==> !IsLineBreak(r[k][j])
    decreases |s|
  {
    if s == [] then []
    else
      var i := LineEnd(s);
      if i == |s| then [s]
      else
        var next := if s[i] == '\r' && i + 1 < |s| && s[i + 1] == '\n' then i + 2 else i + 1;
        [s[..i]] + ReadLines(s[next..])
  }

  /** Lines written each with a `\n` terminator. */
  function Joined(lines: seq<string>): string {
    if lines == [] then "" else lines[0] + "\n" + Joined(lines[1..])
  }

  lemma {:induction false} JoinedAppend(lines: seq<string>, l: string)
    ensures Joined(lines + [l]) == Joined(lines) + l + "\n"
  {
    if lines != [] {
      assert (lines + [l])[1..] == lines[1..] + [l];
      JoinedAppend(lines[1..], l);
    } else {
      assert [l][1..] == [];
    }
  }

  /** Reading back what was written line by line gives the same lines. */
  lemma {:induction false} ReadWritten(lines: seq<string>)
    requires forall k :: 0 <= k < |lines| ==> forall j :: 0 <= j < |lines[k]| ==> !IsLineBreak(lines[k][j])
    ensures ReadLines(Joined(lines)) == lines
  {
    if lines != [] {
      var s := Joined(lines);
      var l := lines[0];
      assert s == l + "\n" + Joined(lines[1..]);
      LineEndOf(l, Joined(lines[1..]));
      assert s[|l|] == '\n';
      assert s[..|l|] == l;
      assert s[|l| + 1..] == Joined(lines[1..]);
      ReadWritten(lines[1..]);
    }
  }

  lemma LineEndOf(l: string, rest: string)
    requires forall j :: 0 <= j < |l| ==> !IsLineBreak(l[j])
    ensures LineEnd(l + "\n" + rest) == |l|
  {
    var s := l + "\n" + rest;
    assert forall k :: 0 <= k < |l| ==> s[k] == l[k] && !IsLineBreak(s[k]);
    assert IsLineBreak(s[|l|]);
  }

  // ---------------------------------------------------------------------------
  // Export

  /** The cursor of `writeToFile`: rows with `date > 0`, ascending by date. */
  function ExportRows(rows: seq<Row>): (r: seq<Row>)
    ensures Ascending(r)
    ensures forall x :: x in r <==> x in rows && x.date > 0
    ensures multiset(r) == multiset(RealDays(rows))
    ensures |r| == RealCount(rows)
  {
    var e := SortByDate(RealDays(rows));
    assert forall x :: x in e <==> x in multiset(RealDays(rows));
    RealDaysCount(rows);
    assert |e| == |multiset(e)| == |multiset(RealDays(rows))| == |RealDays(rows)|;
    e
  }

  function ExportLines(e: seq<Row>): (r: seq<string>)
    ensures |r| == |e|
    ensures forall i :: 0 <= i < |e| ==> r[i] == ExportLine(e[i])
  {
    seq(|e|, i requires 0 <= i < |e| => ExportLine(e[i]))
  }

  lemma ExportLinesAppend(c: seq<Row>, i: int)
    requires 0 <= i < |c|
    ensures ExportLines(c[..i + 1]) == ExportLines(c[..i]) + [ExportLine(c[i])]
  {
    var a := ExportLines(c[..i + 1]);
    var b := ExportLines(c[..i]) + [ExportLine(c[i])];
    assert |a| == |b|;
    forall k | 0 <= k < |a| ensures a[k] == b[k] {
      assert c[..i + 1][k] == c[k];
    }
  }

  /** Exported lines hold no line break. */
  lemma ExportLinesClean(e: seq<Row>)
    ensures forall k :: 0 <= k < |ExportLines(e)| ==> forall j :: 0 <= j < |ExportLines(e)[k]| ==> !IsLineBreak(ExportLines(e)[k][j])
  {
    var ls := ExportLines(e);
    forall k | 0 <= k < |ls| ensures forall j :: 0 <= j < |ls[k]| ==> !IsLineBreak(ls[k][j]) {
      var a := IntToString(e[k].date);
      var b := IntToString(ExportedSteps(e[k]));
      assert ls[k] == a + ";" + b;
      assert forall j :: 0 <= j < |a| ==> !IsLineBreak(a[j]);
      assert forall j :: 0 <= j < |b| ==> !IsLineBreak(b[j]);
    }
  }

  /** The file text `writeToFile` produces. */
  function ExportText(rows: seq<Row>): string {
    Joined(ExportLines(ExportRows(rows)))
  }

  /** `writeToFile`: one line per cursor row, appended in cursor order. */
  method WriteToFile(db: LegacyDatabase.Database) returns (out: string)
    ensures out == ExportText(db.rows)
  {
    var c := ExportRows(db.rows);
    out := "";
    var i := 0;
    while i < |c|
      invariant 0 <= i <= |c|
      invariant out == Joined(ExportLines(c[..i]))
    {
      ExportLinesAppend(c, i);
      JoinedAppend(ExportLines(c[..i]), ExportLine(c[i]));
      var line := IntToString(c[i].date) + ";" + IntToString(ExportedSteps(c[i]));
      out := out + line + "\n";
      i := i + 1;
    }
    assert c[..|c|] == c;
  }

  // ---------------------------------------------------------------------------
  // Import

  datatype ImportResult = ImportResult(rows: seq<Row>, inserted: nat, overwritten: nat, ignored: nat)

  /** One line of the import: a parsed line upserts its day and counts as inserted or overwritten, any other line as ignored. */
  function ImportLine(prev: ImportResult, line: string): (r: ImportResult)
    ensures r.inserted + r.overwritten + r.ignored == prev.inserted + prev.overwritten + prev.ignored + 1
    ensures r.ignored == prev.ignored <==> ParseLine(line).Some?
  {
    match ParseLine(line)
    case None => prev.(ignored := prev.ignored + 1)
    case Some(p) =>
      var (next, created) := Upsert(prev.rows, p.0, p.1);
      if created then prev.(rows := next, inserted := prev.inserted + 1)
      else prev.(rows := next, overwritten := prev.overwritten + 1)
  }

  /** The import of a line sequence, line by line: every line is counted exactly once, and none is ignored iff every line parses. */
  function ImportAll(rows: seq<Row>, lines: seq<string>): (r: ImportResult)
    ensures r.inserted + r.overwritten + r.ignored == |lines|
    ensures r.ignored == 0 <==> forall i :: 0 <= i < |lines| ==> ParseLine(lines[i]).Some?
  {
    if lines == [] then ImportResult(rows, 0, 0, 0)
    else
      var init := lines[..|lines| - 1];
      assert forall i :: 0 <= i < |init| ==> init[i] == lines[i];
      ImportLine(ImportAll(rows, init), lines[|lines| - 1])
  }

  lemma ImportAllStep(rows: seq<Row>, lines: seq<string>, l: string)
    ensures ImportAll(rows, lines + [l]) == ImportLine(ImportAll(rows, lines), l)
  {
    assert (lines + [l])[..|lines|] == lines;
  }

  /** The body of the `importCsv` loop for one line: parse it, then upsert its day or count it as ignored. */
  method ImportOne(db: LegacyDatabase.Database, line: string, inserted0: nat, overwritten0: nat, ignored0: nat)
    returns (inserted: nat, overwritten: nat, ignored: nat)
    modifies db
    ensures ImportResult(db.rows, inserted, overwritten, ignored) ==
            ImportLine(ImportResult(old(db.rows), inserted0, overwritten0, ignored0), line)
  {
    inserted, overwritten, ignored := inserted0, overwritten0, ignored0;
    match ParseLine(line) {
      case None =>
        ignored := ignored + 1;
      case Some(p) =>
        var created := db.InsertDayFromBackup(p.0, p.1);
        if created {
          inserted := inserted + 1;
        } else {
          overwritten := overwritten + 1;
        }
    }
  }

  /** The loop of `importCsv` over the lines read from the file. */
  method ImportLines(db: LegacyDatabase.Database, lines: seq<string>) returns (inserted: nat, overwritten: nat, ignored: nat)
    modifies db
    ensures ImportResult(db.rows, inserted, overwritten, ignored) == ImportAll(old(db.rows), lines)
  {
    ghost var rows0 := db.rows;
    inserted, overwritten, ignored := 0, 0, 0;
    var i := 0;
    while i < |lines|
      invariant 0 <= i <= |lines|
      invariant ImportResult(db.rows, inserted, overwritten, ignored) == ImportAll(rows0, lines[..i])
    {
      assert lines[..i + 1] == lines[..i] + [lines[i]];
      ImportAllStep(rows0, lines[..i], lines[i]);
      inserted, overwritten, ignored := ImportOne(db, lines[i], inserted, overwritten, ignored);
      i := i + 1;
    }
    assert lines[..|lines|] == lines;
  }

  /** `importCsv`: read the lines of the file, then import them; the counters feed the summary message. */
  method ImportCsv(db: LegacyDatabase.Database, content: string) returns (inserted: nat, overwritten: nat, ignored: nat)
    modifies db
    ensures ImportResult(db.rows, inserted, overwritten, ignored) == ImportAll(old(db.rows), ReadLines(content))
    ensures inserted + overwritten + ignored == |ReadLines(content)|
  {
    var lines := ReadLines(content);
    inserted, overwritten, ignored := ImportLines(db, lines);
  }

  /** The notes of the summary message. */
  datatype Note = Imported(count: nat) | Overwritten(count: nat) | Ignored(count: nat)

  /** The message after an import: the imported count, then the overwritten and ignored notes when positive. */
  function ImportMessage(inserted: nat, overwritten: nat, ignored: nat): (m: seq<Note>)
    ensures |m| >= 1 && m[0] == Imported(inserted + overwritten)
    ensures Overwritten(overwritten) in m <==> overwritten > 0
    ensures Ignored(ignored) in m <==> ignored > 0
    ensures forall i :: 1 <= i < |m| ==> m[i].count > 0
  {
    [Imported(inserted + overwritten)]
      + (if overwritten > 0 then [Overwritten(overwritten)] else [])
      + (if ignored > 0 then [Ignored(ignored)] else [])
  }

  // ---------------------------------------------------------------------------
  // Round trip

  /**
   * After importing lines, a date holds the value of the last parsed line
   * for it, whenever all parsed lines for it carry the same value.
   */
  lemma {:induction false} ImportedValue(rows: seq<Row>, lines: seq<string>, d: int, v: int)
    requires forall i :: 0 <= i < |lines| && ParseLine(lines[i]).Some? && ParseLine(lines[i]).value.0 == d ==>
               ParseLine(lines[i]).value.1 == v
    requires exists i :: 0 <= i < |lines| && ParseLine(lines[i]) == Some((d, v))
    ensures GetSteps(ImportAll(rows, lines).rows, d) == v
  {
    var init := lines[..|lines| - 1];
    assert lines == init + [lines[|lines| - 1]];
    ImportAllStep(rows, init, lines[|lines| - 1]);
    var prev := ImportAll(rows, init);
    var last := ParseLine(lines[|lines| - 1]);
    if last.Some? {
      UpsertLookup(prev.rows, last.value.0, last.value.1, d);
    }
    if last.None? || last.value.0 != d {
      var i :| 0 <= i < |lines| && ParseLine(lines[i]) == Some((d, v));
      assert i < |init|;
      ImportedValue(rows, init, d, v);
    }
  }

  /** Reading the exported file back gives the exported lines. */
  lemma ExportTextLines(rows: seq<Row>)
    ensures ReadLines(ExportText(rows)) == ExportLines(ExportRows(rows))
  {
    ExportLinesClean(ExportRows(rows));
    ReadWritten(ExportLines(ExportRows(rows)));
  }

  /** Every exported line that parses to `x`'s date carries `x`'s exported count. */
  lemma ExportedValuesAgree(rows: seq<Row>, x: Row)
    requires UniqueDates(rows) && x in rows
    ensures forall i ::
              (0 <= i < |ExportLines(ExportRows(rows))| &&
               ParseLine(ExportLines(ExportRows(rows))[i]).Some? &&
               ParseLine(ExportLines(ExportRows(rows))[i]).value.0 == x.date) ==>
              ParseLine(ExportLines(ExportRows(rows))[i]).value.1 == ExportedSteps(x)
  {
    var e := ExportRows(rows);
    var ls := ExportLines(e);
    forall i | 0 <= i < |ls| && ParseLine(ls[i]).Some? && ParseLine(ls[i]).value.0 == x.date
      ensures ParseLine(ls[i]).value.1 == ExportedSteps(x)
    {
      ExportedLineOf(rows, e, x, i);
    }
  }

  /** A real day in range has an exported line that parses to its date and exported count. */
  lemma ExportedLinePresent(rows: seq<Row>, x: Row)
    requires x in rows && x.date > 0 && x.date <= LongMax
    ensures exists i :: 0 <= i < |ExportLines(ExportRows(rows))| &&
              ParseLine(ExportLines(ExportRows(rows))[i]) == Some((x.date, ExportedSteps(x)))
  {
    var e := ExportRows(rows);
    var k :| 0 <= k < |e| && e[k] == x;
    ExportLineParses(x);
    assert ExportLines(e)[k] == ExportLine(x);
  }

  /**
   * Importing an exported file restores every exported day to its
   * exported count `max(0, getInt(steps))`, whatever the target held before.
   */
  lemma ImportOfExportRestores(target: seq<Row>, rows: seq<Row>, x: Row)
    requires UniqueDates(rows) && x in rows && x.date > 0
    requires x.date <= LongMax
    ensures GetSteps(ImportAll(target, ReadLines(ExportText(rows))).rows, x.date) == ExportedSteps(x)
  {
    ExportTextLines(rows);
    ExportedValuesAgree(rows, x);
    ExportedLinePresent(rows, x);
    ImportedValue(target, ExportLines(ExportRows(rows)), x.date, ExportedSteps(x));
  }

  /** Every exported line for `x`'s date is `x`'s own line. */
  lemma ExportedLineOf(rows: seq<Row>, e: seq<Row>, x: Row, i: int)
    requires UniqueDates(rows) && x in rows
    requires forall y :: y in e ==> y in rows && y.date > 0
    requires 0 <= i < |e|
    requires ParseLine(ExportLine(e[i])).Some? && ParseLine(ExportLine(e[i])).value.0 == x.date
    ensures ParseLine(ExportLine(e[i])).value.1 == ExportedSteps(x)
  {
    var y := e[i];
    assert y in e;
    if LongMin <= y.date <= LongMax {
      ExportLineParses(y);
      SameDateSameRow(rows, x, y);
    } else {
      ExportLineParsesOnlyInRange(y);
    }
  }

  lemma SameDateSameRow(rows: seq<Row>, x: Row, y: Row)
    requires UniqueDates(rows) && x in rows && y in rows && x.date == y.date
    ensures x == y
  {
    var a :| 0 <= a < |rows| && rows[a] == x;
    var b :| 0 <= b < |rows| && rows[b] == y;
    assert a == b;
  }
}
