/**
 * The daily absence log: one file per calendar date, named after the date,
 * that starts with a header row and then receives one row per reported
 * child. The file system is a map from path to the rows of the file.
 */
module AbsenceLog {
  import opened Roster

  type Path = string

  // ---------------------------------------------------------------------
  // The date string and the file name

  /** A calendar date, as `datetime.date` holds it. */
  datatype Date = Date(year: nat, month: nat, day: nat)
  {
    predicate Valid() {
      1 <= year <= 9999 && 1 <= month <= 12 && 1 <= day <= DaysInMonth(year, month)
    }
  }

  function DaysInMonth(year: nat, month: nat): nat {
    if month == 2 then (if year % 4 == 0 && (year % 100 != 0 || year % 400 == 0) then 29 else 28)
    else if month in {4, 6, 9, 11} then 30
    else 31
  }

  function Digit(n: nat): char
    requires n < 10
  {
    (('0' as int) + n) as char
  }

  predicate IsDigit(c: char) {
    '0' <= c <= '9'
  }

  function DigitValue(c: char): nat
    requires IsDigit(c)
  {
    c as int - '0' as int
  }

  /** `n` in two decimal digits, zero-padded. */
  function Pad2(n: nat): (s: string)
    requires n < 100
  {
    [Digit(n / 10), Digit(n % 10)]
  }

  /** `n` in four decimal digits, zero-padded. */
  function Pad4(n: nat): (s: string)
    requires n < 10000
  {
    Pad2(n / 100) + Pad2(n % 100)
  }

  /** The value of a two-digit string. */
  function Value2(s: string): nat
    requires |s| == 2 && IsDigit(s[0]) && IsDigit(s[1])
  {
    10 * DigitValue(s[0]) + DigitValue(s[1])
  }

  /** The value of a four-digit string. */
  function Value4(s: string): nat
    requires |s| == 4 && forall k :: 0 <= k < 4 ==> IsDigit(s[k])
  {
    100 * Value2(s[..2]) + Value2(s[2..])
  }

  lemma Pad2RoundTrip(n: nat)
    requires n < 100
    ensures |Pad2(n)| == 2 && IsDigit(Pad2(n)[0]) && IsDigit(Pad2(n)[1])
    ensures Value2(Pad2(n)) == n
  {
  }

  lemma Pad4RoundTrip(n: nat)
    requires n < 10000
    ensures |Pad4(n)| == 4 && forall k :: 0 <= k < 4 ==> IsDigit(Pad4(n)[k])
    ensures Value4(Pad4(n)) == n
  {
    var s := Pad4(n);
    Pad2RoundTrip(n / 100);
    Pad2RoundTrip(n % 100);
    assert s[..2] == Pad2(n / 100);
    assert s[2..] == Pad2(n % 100);
  }

  /** `get_today_as_str`: the date rendered as `%Y_%m_%d`, every part zero-padded;
      the clock read is replaced by the `today` parameter. */
  function GetTodayAsStr(today: Date): (s: string)
    requires today.Valid()
    ensures |s| == 10 && s[4] == '_' && s[7] == '_'
    ensures forall k :: 0 <= k < 10 && k != 4 && k != 7 ==> IsDigit(s[k])
  {
    Pad2RoundTrip(today.month);
    Pad2RoundTrip(today.day);
    Pad4RoundTrip(today.year);
    Pad4(today.year) + "_" + Pad2(today.month) + "_" + Pad2(today.day)
  }

  /** Reads a `%Y_%m_%d` string back into a date. */
  function ParseDateStr(s: string): Date
    requires |s| == 10 && forall k :: 0 <= k < 10 && k != 4 && k != 7 ==> IsDigit(s[k])
  {
    Date(Value4(s[..4]), Value2(s[5..7]), Value2(s[8..10]))
  }

  /** The date string determines the date. */
  lemma DateStrRoundTrip(d: Date)
    requires d.Valid()
    ensures ParseDateStr(GetTodayAsStr(d)) == d
  {
    var s := GetTodayAsStr(d);
    Pad4RoundTrip(d.year);
    Pad2RoundTrip(d.month);
    Pad2RoundTrip(d.day);
    assert s[..4] == Pad4(d.year);
    assert s[5..7] == Pad2(d.month);
    assert s[8..10] == Pad2(d.day);
  }

  /** `os.path.join(dir, name)` for a relative `name`, as on POSIX: a slash
      is put between the two unless `dir` is empty or already ends in one. */
  function Join(dir: Path, name: string): (p: Path)
    ensures |p| >= |dir| + |name|
    ensures p[..|dir|] == dir && p[|p| - |name|..] == name
  {
    if dir == [] || dir[|dir| - 1] == '/' then dir + name else dir + "/" + name
  }

  /** `get_filename_for_today`: the file `absent_children_<date>.csv` inside `dir`. */
  function GetFilenameForToday(dir: Path, todayStr: string): (p: Path)
    ensures var name := "absent_children_" + todayStr + ".csv";
      |p| >= |dir| + |name| && p[..|dir|] == dir && p[|p| - |name|..] == name
  {
    Join(dir, "absent_children_" + todayStr + ".csv")
  }

  /** The path of the log file for `today` under `dir`. */
  function LogPath(dir: Path, today: Date): Path
    requires today.Valid()
  {
    GetFilenameForToday(dir, GetTodayAsStr(today))
  }

  /** The path lies under `dir`, ends with `absent_children_YYYY_MM_DD.csv`,
      and the date in it is `today`. */
  lemma LogPathShape(dir: Path, today: Date)
    requires today.Valid()
    ensures var p := LogPath(dir, today);
      |p| >= |dir| + 30 && p[..|dir|] == dir &&
      p[|p| - 30..|p| - 14] == "absent_children_" && p[|p| - 4..] == ".csv" &&
      ParseDateStr(p[|p| - 14..|p| - 4]) == today
  {
    var p := LogPath(dir, today);
    var name := "absent_children_" + GetTodayAsStr(today) + ".csv";
    assert |name| == 30;
    assert p[|p| - 30..] == name;
    assert p[|p| - 14..|p| - 4] == GetTodayAsStr(today);
    DateStrRoundTrip(today);
  }

  /** Distinct dates get distinct files in the same directory. */
  lemma LogPathInjective(dir: Path, d1: Date, d2: Date)
    requires d1.Valid() && d2.Valid()
    requires d1 != d2
    ensures LogPath(dir, d1) != LogPath(dir, d2)
  {
    LogPathShape(dir, d1);
    LogPathShape(dir, d2);
  }

  // ---------------------------------------------------------------------
  // File contents

  /** The header row written once, when the day's file is created. */
  const Header: Row := ["Group", "Last name", "First name", "Birth date"]

  /** The row written for one absent child. */
  function DataRow(c: Child): (row: Row)
    ensures |row| == 4 && ChildOfRow(row) == c
  {
    [c.group, c.lastName, c.firstName, c.bd]
  }

  function DataRows(cs: seq<Child>): (rows: seq<Row>)
    ensures |rows| == |cs|
  {
    if cs == [] then [] else [DataRow(cs[0])] + DataRows(cs[1..])
  }

  /** Row k of the data rows is the row of child k. */
  lemma {:induction false} DataRowsAt(cs: seq<Child>, k: nat)
    requires k < |cs|
    ensures DataRows(cs)[k] == DataRow(cs[k])
  {
    if k > 0 {
      DataRowsAt(cs[1..], k - 1);
    }
  }

  /** The file map after `append_absent_child` wrote `c` to `path`: the
      child's row is the file's last row, and a file that did not exist
      starts with the header. */
  function Appended(files: map<Path, seq<Row>>, path: Path, c: Child): (r: map<Path, seq<Row>>)
    ensures path in r && |r[path]| >= 1 && r[path][|r[path]| - 1] == DataRow(c)
    ensures path !in files ==> r[path][0] == Header
  {
    if path in files then files[path := files[path] + [DataRow(c)]]
    else files[path := [Header, DataRow(c)]]
  }

  /** A new day's file holds the header and the row; an existing one gains
      the row at its end; no other path is touched. */
  lemma AppendedMeaning(files: map<Path, seq<Row>>, path: Path, c: Child)
    ensures var r := Appended(files, path, c);
      && r.Keys == files.Keys + {path}
      && (path !in files ==> r[path] == [Header, DataRow(c)])
      && (path in files ==> r[path] == files[path] + [DataRow(c)])
      && forall p :: p in files && p != path ==> r[p] == files[p]
  {
  }

  /** Every call writes: the file map after an append differs from the one before. */
  lemma AppendAlwaysWrites(files: map<Path, seq<Row>>, path: Path, c: Child)
    ensures Appended(files, path, c) != files
  {
    var r := Appended(files, path, c);
    if path in files {
      assert |r[path]| == |files[path]| + 1;
    } else {
      assert path in r.Keys - files.Keys;
    }
  }

  /** Appending the children `cs`, in order, to the same file. */
  function AppendedAll(files: map<Path, seq<Row>>, path: Path, cs: seq<Child>): map<Path, seq<Row>>
    decreases |cs|
  {
    if cs == [] then files else AppendedAll(Appended(files, path, cs[0]), path, cs[1..])
  }

  /** Appending to an existing file only adds the data rows, in call order,
      keeping duplicates, and leaves every other path as it was. */
  lemma {:induction false} AppendedAllToExisting(files: map<Path, seq<Row>>, path: Path, cs: seq<Child>)
    requires path in files
    ensures AppendedAll(files, path, cs) == files[path := files[path] + DataRows(cs)]
  {
    if cs == [] {
      assert files[path] + DataRows(cs) == files[path];
      assert files[path := files[path]] == files;
    } else {
      var next := Appended(files, path, cs[0]);
      var rows := files[path] + [DataRow(cs[0])];
      assert next == files[path := rows];
      AppendedAllToExisting(next, path, cs[1..]);
      assert next[path] == rows;
      assert rows + DataRows(cs[1..]) == files[path] + DataRows(cs) by {
        assert DataRows(cs) == [DataRow(cs[0])] + DataRows(cs[1..]);
      }
      assert next[path := rows + DataRows(cs[1..])] == files[path := files[path] + DataRows(cs)];
    }
  }

  /** Starting with no file for the day, N appends leave exactly one header
      row followed by the N data rows in call order, and no other file changes. */
  lemma HeaderOnce(files: map<Path, seq<Row>>, path: Path, cs: seq<Child>)
    requires path !in files
    requires cs != []
    ensures AppendedAll(files, path, cs) == files[path := [Header] + DataRows(cs)]
  {
    var rows := [Header, DataRow(cs[0])];
    var first := Appended(files, path, cs[0]);
    assert first == files[path := rows];
    AppendedAllToExisting(first, path, cs[1..]);
    assert first[path] == rows;
    assert rows + DataRows(cs[1..]) == [Header] + DataRows(cs) by {
      assert DataRows(cs) == [DataRow(cs[0])] + DataRows(cs[1..]);
    }
    assert first[path := rows + DataRows(cs[1..])] == files[path := [Header] + DataRows(cs)];
  }

  /** A day's file read back by the roster loader gives the children that
      were appended, in order: the log uses the roster's column layout. */
  lemma LogReadsBackAsRoster(cs: seq<Child>)
    ensures Parse([Header] + DataRows(cs)) == Ok(cs)
  {
    var lines := [Header] + DataRows(cs);
    forall k | 1 <= k < |lines|
      ensures |lines[k]| >= 4 && ChildOfRow(lines[k]) == cs[k - 1]
    {
      DataRowsAt(cs, k - 1);
      assert lines[k] == DataRow(cs[k - 1]);
    }
    ParseMeaning(lines);
    assert Parse(lines).Ok?;
    var parsed := Parse(lines).value;
    assert |parsed| == |cs|;
    forall k | 0 <= k < |cs|
      ensures parsed[k] == cs[k]
    {
      assert parsed[(k + 1) - 1] == ChildOfRow(lines[k + 1]);
    }
    assert parsed == cs;
  }

  /** Writing today's absence leaves the file of every other date unchanged. */
  lemma OtherDaysUntouched(files: map<Path, seq<Row>>, dir: Path, today: Date, other: Date, c: Child)
    requires today.Valid() && other.Valid() && today != other
    ensures var p := LogPath(dir, other);
      var r := Appended(files, LogPath(dir, today), c);
      (p in r <==> p in files) && (p in files ==> r[p] == files[p])
  {
    LogPathInjective(dir, today, other);
  }

  // ---------------------------------------------------------------------
  // The file system and its three writing operations

  class FileSystem {
    var files: map<Path, seq<Row>>

    constructor (files: map<Path, seq<Row>>)
      ensures this.files == files
    {
      this.files := files;
    }

    /** `append_child_to_file`: opening in append mode creates a missing file
        (empty) and adds the child's row at the end. */
    method AppendChildToFile(c: Child, path: Path)
      modifies this
      ensures path in files
      ensures files == old(files)[path := (if path in old(files) then old(files)[path] else []) + [DataRow(c)]]
    {
      var rows := if path in files then files[path] else [];
      files := files[path := rows + [DataRow(c)]];
    }

    /** `create_file_with_child`: opening in write mode truncates, the header
        is written, then the child's row is appended. */
    method CreateFileWithChild(c: Child, path: Path)
      modifies this
      ensures files == old(files)[path := [Header, DataRow(c)]]
    {
      files := files[path := [Header]];
      AppendChildToFile(c, path);
      assert [Header] + [DataRow(c)] == [Header, DataRow(c)];
    }

    /** `append_absent_child`: write `c` to the file for `today` under `dir`,
        creating it with its header when it does not exist yet. */
    method AppendAbsentChild(c: Child, dir: Path, today: Date)
      requires today.Valid()
      modifies this
      ensures files == Appended(old(files), LogPath(dir, today), c)
    {
      var todayStr := GetTodayAsStr(today);
      var fullFilename := GetFilenameForToday(dir, todayStr);
      if fullFilename in files {
        AppendChildToFile(c, fullFilename);
      } else {
        CreateFileWithChild(c, fullFilename);
      }
    }
  }
}
