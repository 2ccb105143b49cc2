/**
 * The naming rules of the log folders: the reserved names of the two active
 * files, the dated names rotation gives them, the archive names, and how an
 * archive scan reads a date out of a file name.
 */
module LogNames {
  import opened Wrappers
  import opened Calendar
  import opened DateText

  /** The active file of the main stream, in the log folder. */
  const LatestLog: string := ".latest.log"
  /** The active file of the error stream, in the error folder. */
  const LatestErrorLog: string := ".latest_error.log"
  /** Every active name starts with this; the archive scan skips such names. */
  const ActivePrefix: string := ".latest"
  const LogArchive: string := "archived_logs.zip"
  const ErrorArchive: string := "archived_errors.zip"
  /** The default error folder is this sub-folder of the log folder. */
  const ErrorsSubfolder: string := "errors"
  const LogSuffix: string := ".log"
  const ErrorMarker: string := "_error"

  predicate StartsWith(s: string, prefix: string) {
    |prefix| <= |s| && s[..|prefix|] == prefix
  }

  predicate EndsWith(s: string, suffix: string) {
    |suffix| <= |s| && s[|s| - |suffix|..] == suffix
  }

  /** The names `glob("*.log")` yields. */
  predicate MatchesLogGlob(name: string) {
    EndsWith(name, LogSuffix)
  }

  /** Names of active files, which the archive scan never touches. */
  predicate IsActiveName(name: string) {
    StartsWith(name, ActivePrefix)
  }

  /** `Path.with_suffix(".zip.temp")` of an archive name ending in `.zip`. */
  function TempArchiveName(archive: string): (r: string)
    ensures r != archive
  {
    archive + ".temp"
  }

  /**
   * A `*.log` name without its `.log` suffix. This is `Path.stem` for every
   * such name except `.log` itself, whose stem Python keeps as `.log`; neither
   * that stem nor the empty one here parses as a date.
   */
  function Stem(name: string): (r: string)
    requires MatchesLogGlob(name)
    ensures r + LogSuffix == name
  {
    name[..|name| - |LogSuffix|]
  }

  /** `_error` occurs in `s` starting at index `i`. */
  predicate MarkerAt(s: string, i: int) {
    0 <= i && i + |ErrorMarker| <= |s| && s[i..i + |ErrorMarker|] == ErrorMarker
  }

  /** `s.split("_error")[0]`: the text before the first `_error`, or all of it. */
  function BeforeErrorMarker(s: string): (r: string)
    ensures |r| <= |s| && r == s[..|r|]
  {
    if |s| < |ErrorMarker| then s
    else if s[..|ErrorMarker|] == ErrorMarker then ""
    else [s[0]] + BeforeErrorMarker(s[1..])
  }

  /**
   * The split is at the first `_error`: none starts inside the result, and
   * what follows the result is empty or starts with `_error`.
   */
  lemma {:induction false} SplitAtFirstMarker(s: string)
    ensures var r := BeforeErrorMarker(s);
      && (r == s || StartsWith(s[|r|..], ErrorMarker))
      && forall i | 0 <= i < |r| :: !MarkerAt(s, i)
  {
    if |s| >= |ErrorMarker| && s[..|ErrorMarker|] != ErrorMarker {
      var r := BeforeErrorMarker(s);
      var r' := BeforeErrorMarker(s[1..]);
      SplitAtFirstMarker(s[1..]);
      MarkerShift(s);
      assert r == [s[0]] + r';
      assert s[|r|..] == s[1..][|r'|..];
    }
  }

  /** An occurrence of `_error` in `s` after its first character is one in `s[1..]`, one index earlier. */
  lemma MarkerShift(s: string)
    requires |s| >= 1
    ensures forall i | 1 <= i <= |s| :: MarkerAt(s, i) == MarkerAt(s[1..], i - 1)
  {
    forall i | 1 <= i <= |s|
      ensures MarkerAt(s, i) == MarkerAt(s[1..], i - 1)
    {
      if i + |ErrorMarker| <= |s| {
        var a, b := s[i..i + |ErrorMarker|], s[1..][i - 1..i - 1 + |ErrorMarker|];
        forall k | 0 <= k < |ErrorMarker| ensures a[k] == b[k] {
          assert a[k] == s[i + k] && b[k] == s[1..][i - 1 + k];
        }
        assert a == b;
      }
    }
  }

  /** The date an archive scan reads from a `*.log` name, if it has one. */
  function FileDate(name: string): (r: Option<Date>)
    requires MatchesLogGlob(name)
    ensures r.Some? ==> ValidDate(r.value)
  {
    ParseCompactDate(BeforeErrorMarker(Stem(name)))
  }

  /** `{YYYYMMDD}.log`: the name the main active file gets on rotation. */
  function RotatedLogName(d: Date): string
    requires ValidDate(d)
  {
    FormatCompactDate(d) + LogSuffix
  }

  /** `{YYYYMMDD}_error.log`: the name the error active file gets on rotation. */
  function RotatedErrorLogName(d: Date): string
    requires ValidDate(d)
  {
    FormatCompactDate(d) + ErrorMarker + LogSuffix
  }

  lemma {:induction false} BeforeErrorMarkerOf(a: string, b: string)
    requires '_' !in a
    requires b == "" || StartsWith(b, ErrorMarker)
    ensures BeforeErrorMarker(a + b) == a
  {
    if a == "" {
      if b != "" {
        assert b[..|ErrorMarker|] == ErrorMarker;
      }
    } else {
      var s := a + b;
      assert s[0] == a[0] && a[0] != '_';
      assert s[1..] == a[1..] + b;
      BeforeErrorMarkerOf(a[1..], b);
      if |s| >= |ErrorMarker| {
        assert s[..|ErrorMarker|][0] == a[0];
      }
    }
  }

  /**
   * Rotated names are what an archive scan looks for: both match `*.log`,
   * neither is reserved, both carry back the creation date they were made
   * from, and they differ from each other and from the active names.
   */
  lemma RotatedNamesCarryDate(d: Date)
    requires ValidDate(d)
    ensures MatchesLogGlob(RotatedLogName(d)) && MatchesLogGlob(RotatedErrorLogName(d))
    ensures !IsActiveName(RotatedLogName(d)) && !IsActiveName(RotatedErrorLogName(d))
    ensures FileDate(RotatedLogName(d)) == Some(d)
    ensures FileDate(RotatedErrorLogName(d)) == Some(d)
    ensures RotatedLogName(d) != RotatedErrorLogName(d)
    ensures RotatedLogName(d) !in {LatestLog, LatestErrorLog}
    ensures RotatedErrorLogName(d) !in {LatestLog, LatestErrorLog}
  {
    var f := FormatCompactDate(d);
    var main, err := RotatedLogName(d), RotatedErrorLogName(d);
    assert '_' !in f by {
      forall i | 0 <= i < |f| ensures f[i] != '_' {
        assert IsDigit(f[i]);
      }
    }
    assert main[0] == f[0] && err[0] == f[0] && IsDigit(f[0]);
    assert main[..|main| - 4] == f;
    assert main[|main| - 4..] == LogSuffix;
    assert err[..|err| - 4] == f + ErrorMarker;
    assert err[|err| - 4..] == LogSuffix;
    BeforeErrorMarkerOf(f, "");
    assert f + "" == f;
    BeforeErrorMarkerOf(f, ErrorMarker);
    ParseFormatCompactDate(d);
    assert |main| == 12 && |err| == 18;
  }

  /** Active names never carry a date, so an archive scan could not select them even by date. */
  lemma ActiveNamesAreUndated(name: string)
    requires MatchesLogGlob(name) && IsActiveName(name)
    ensures FileDate(name) == None
  {
    var s := BeforeErrorMarker(Stem(name));
    if |s| == 8 {
      assert Stem(name)[..8] == s;
      assert name[0] == Stem(name)[0] == s[0] == '.';
    }
  }
}
