/**
 * Where main saves the wallpaper: `wikipedia_potd_<YYYY-MM-DD>.jpg` in the
 * temporary directory. The clock (datetime.now()) and the directory
 * (tempfile.gettempdir()) are inputs.
 */
module OutputPath {
  import opened Wrappers
  import opened Decimal

  const FilePrefix: string := "wikipedia_potd_"
  const FileSuffix: string := ".jpg"
  /** Length of a date written as YYYY-MM-DD. */
  const DateLength: nat := 10

  datatype Date = Date(year: nat, month: nat, day: nat)

  /** A leap year of the proleptic Gregorian calendar that datetime uses. */
  predicate IsLeapYear(year: nat) {
    year % 4 == 0 && (year % 100 != 0 || year % 400 == 0)
  }

  /** The number of days in a month (1 to 12) of the given year. */
  function DaysInMonth(year: nat, month: nat): (n: nat)
    requires 1 <= month <= 12
    ensures 28 <= n <= 31
    ensures n == 29 <==> month == 2 && IsLeapYear(year)
  {
    if month == 2 then (if IsLeapYear(year) then 29 else 28)
    else if month == 4 || month == 6 || month == 9 || month == 11 then 30
    else 31
  }

  /** The dates a Python datetime can hold (datetime.MINYEAR to MAXYEAR). */
  predicate ValidDate(d: Date) {
    1 <= d.year <= 9999 && 1 <= d.month <= 12 && 1 <= d.day <= DaysInMonth(d.year, d.month)
  }

  /** n written in exactly `width` decimal digits, zero-padded on the left. */
  function Padded(n: nat, width: nat): (s: string)
    ensures |s| == width && AllDigits(s)
  {
    if width == 0 then [] else Padded(n / 10, width - 1) + [DigitChar(n % 10)]
  }

  /** Padding loses nothing when the number fits in the width. */
  lemma {:induction false} ValueOfPadded(n: nat, width: nat)
    requires n < Pow10(width)
    ensures Value(Padded(n, width)) == n
  {
    if width > 0 {
      var s := Padded(n, width);
      assert s[..|s| - 1] == Padded(n / 10, width - 1);
      ValueOfPadded(n / 10, width - 1);
    }
  }

  /** strftime("%Y-%m-%d"). */
  function FormatDate(d: Date): (s: string)
    requires ValidDate(d)
    ensures |s| == DateLength
  {
    Padded(d.year, 4) + "-" + Padded(d.month, 2) + "-" + Padded(d.day, 2)
  }

  /** f"wikipedia_potd_{today}.jpg". */
  function FileName(d: Date): (name: string)
    requires ValidDate(d)
    ensures |name| == |FilePrefix| + DateLength + |FileSuffix|
    ensures FilePrefix <= name && name[|FilePrefix| + DateLength..] == FileSuffix
  {
    FilePrefix + FormatDate(d) + FileSuffix
  }

  /** Reads the date back out of a file name of that form. */
  function ParseFileName(name: string): Option<Date>
  {
    if |name| == |FilePrefix| + DateLength + |FileSuffix| && FilePrefix <= name &&
       name[|FilePrefix| + DateLength..] == FileSuffix then
      var s := name[|FilePrefix|..|FilePrefix| + DateLength];
      if AllDigits(s[..4]) && s[4] == '-' && AllDigits(s[5..7]) && s[7] == '-' && AllDigits(s[8..]) then
        Some(Date(Value(s[..4]), Value(s[5..7]), Value(s[8..])))
      else
        None
    else
      None
  }

  /** Where the three zero-padded fields sit in the file name. */
  lemma FileNameFields(d: Date)
    requires ValidDate(d)
    ensures var s := FileName(d)[|FilePrefix|..|FilePrefix| + DateLength];
            s[..4] == Padded(d.year, 4) && s[4] == '-' &&
            s[5..7] == Padded(d.month, 2) && s[7] == '-' && s[8..] == Padded(d.day, 2)
  {
    var name := FileName(d);
    var y, m, dd := Padded(d.year, 4), Padded(d.month, 2), Padded(d.day, 2);
    var s := name[|FilePrefix|..|FilePrefix| + DateLength];
    assert s == y + "-" + m + "-" + dd;
  }

  /** The file name determines the date it was made from. */
  lemma FileNameRoundTrip(d: Date)
    requires ValidDate(d)
    ensures ParseFileName(FileName(d)) == Some(d)
  {
    FileNameFields(d);
    ValueOfPadded(d.year, 4);
    ValueOfPadded(d.month, 2);
    ValueOfPadded(d.day, 2);
  }

  /** Different days give different files. */
  lemma FileNameInjective(d1: Date, d2: Date)
    requires ValidDate(d1) && ValidDate(d2) && FileName(d1) == FileName(d2)
    ensures d1 == d2
  {
    FileNameRoundTrip(d1);
    FileNameRoundTrip(d2);
  }

  /** os.path.join(directory, name) on POSIX. */
  function Join(directory: string, name: string): (path: string)
    ensures |name| <= |path| && path[|path| - |name|..] == name
    ensures (name == [] || name[0] != '/') ==> directory <= path
  {
    if name != [] && name[0] == '/' then name
    else if directory == [] || directory[|directory| - 1] == '/' then directory + name
    else directory + "/" + name
  }

  /** The path the wallpaper is saved to. */
  function WallpaperPath(tempDir: string, d: Date): (path: string)
    requires ValidDate(d)
    ensures |FileName(d)| <= |path| && ParseFileName(path[|path| - |FileName(d)|..]) == Some(d)
  {
    FileNameRoundTrip(d);
    Join(tempDir, FileName(d))
  }

  /** The wallpaper file lies directly in the temporary directory and carries the day's file name. */
  lemma WallpaperPathInTempDir(tempDir: string, d: Date)
    requires ValidDate(d)
    ensures var path := WallpaperPath(tempDir, d);
            var name := FileName(d);
            |path| >= |name| && path[|path| - |name|..] == name &&
            path[..|path| - |name|] in {tempDir, tempDir + "/"} &&
            (|path| == |name| || path[|path| - |name| - 1] == '/')
  {
    var name := FileName(d);
    assert name[0] == FilePrefix[0];
    if tempDir == [] || tempDir[|tempDir| - 1] == '/' {
      JoinedParts(tempDir, name);
    } else {
      JoinedParts(tempDir + "/", name);
    }
  }

  /** The two parts of a + b. */
  lemma JoinedParts(a: string, b: string)
    ensures (a + b)[..|a|] == a && (a + b)[|a|..] == b
  {
  }
}
