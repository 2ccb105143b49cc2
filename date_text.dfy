/**
 * The two fixed-width text forms of dates used by the logger: the compact
 * `YYYYMMDD` of rotated file names and the `YYYY-MM-DD HH:MM:SS` creation
 * timestamp on the first line of the active log, together with the first-line
 * reading (`readline().strip()`) that precedes parsing.
 */
module DateText {
  import opened Wrappers
  import opened Calendar

  predicate IsDigit(c: char) {
    '0' <= c <= '9'
  }

  predicate AllDigits(s: string) {
    forall i :: 0 <= i < |s| ==> IsDigit(s[i])
  }

  function DigitValue(c: char): nat
    requires IsDigit(c)
  {
    c as int - '0' as int
  }

  function DigitChar(n: nat): (c: char)
    requires n < 10
    ensures IsDigit(c) && DigitValue(c) == n
  {
    ('0' as int + n) as char
  }

  function Pow10(w: nat): (r: nat)
    ensures r >= 1
  {
    if w == 0 then 1 else 10 * Pow10(w - 1)
  }

  /** The last `width` decimal digits of `n`, zero-padded (as `%0<width>d`). */
  function PadDigits(n: nat, width: nat): (r: string)
    ensures |r| == width && AllDigits(r)
  {
    if width == 0 then "" else PadDigits(n / 10, width - 1) + [DigitChar(n % 10)]
  }

  /** The number a string of decimal digits spells. */
  function DigitsValue(s: string): nat
    requires AllDigits(s)
  {
    if s == "" then 0 else DigitsValue(s[..|s| - 1]) * 10 + DigitValue(s[|s| - 1])
  }

  /** Reading back a padded number gives the number, when it fits the width. */
  lemma {:induction false} DigitsValueOfPad(n: nat, width: nat)
    requires n < Pow10(width)
    ensures DigitsValue(PadDigits(n, width)) == n
  {
    if width > 0 {
      var p := PadDigits(n / 10, width - 1);
      var r := PadDigits(n, width);
      assert r == p + [DigitChar(n % 10)];
      assert r[..|r| - 1] == p && r[|r| - 1] == DigitChar(n % 10);
      assert n / 10 < Pow10(width - 1);
      DigitsValueOfPad(n / 10, width - 1);
      assert DigitsValue(r) == DigitsValue(p) * 10 + n % 10;
    }
  }

  /** A digit string is the padding of its own value, and its value fits its width. */
  lemma {:induction false} PadOfDigitsValue(s: string)
    requires AllDigits(s)
    ensures DigitsValue(s) < Pow10(|s|)
    ensures PadDigits(DigitsValue(s), |s|) == s
  {
    if s != "" {
      var p := s[..|s| - 1];
      PadOfDigitsValue(p);
      var v := DigitsValue(s);
      assert v / 10 == DigitsValue(p) && v % 10 == DigitValue(s[|s| - 1]);
      assert s == p + [s[|s| - 1]];
    }
  }

  // ---------------------------------------------------------------------
  // YYYYMMDD (strftime/strptime "%Y%m%d")

  /** The rotated-file date form: `strftime("%Y%m%d")`. */
  function FormatCompactDate(d: Date): (r: string)
    requires ValidDate(d)
    ensures |r| == 8 && AllDigits(r)
  {
    PadDigits(d.year, 4) + PadDigits(d.month, 2) + PadDigits(d.day, 2)
  }

  /** `strptime(s, "%Y%m%d").date()`, read strictly: eight digits naming a valid date. */
  function ParseCompactDate(s: string): (r: Option<Date>)
    ensures r.Some? ==> ValidDate(r.value)
  {
    if |s| == 8 && AllDigits(s) then
      var d := Date(DigitsValue(s[..4]), DigitsValue(s[4..6]), DigitsValue(s[6..]));
      if ValidDate(d) then Some(d) else None
    else None
  }

  lemma ParseFormatCompactDate(d: Date)
    requires ValidDate(d)
    ensures ParseCompactDate(FormatCompactDate(d)) == Some(d)
  {
    var y, m, dd := PadDigits(d.year, 4), PadDigits(d.month, 2), PadDigits(d.day, 2);
    var s := FormatCompactDate(d);
    assert s[..4] == y && s[4..6] == m && s[6..] == dd;
    DigitsValueOfPad(d.year, 4);
    DigitsValueOfPad(d.month, 2);
    DigitsValueOfPad(d.day, 2);
  }

  /** An eight-character text is its year, month and day fields end to end. */
  lemma CompactFields(s: string)
    requires |s| == 8
    ensures s == s[..4] + s[4..6] + s[6..]
  {
  }

  /** The strict parser accepts only the text the formatter produces. */
  lemma FormatParseCompactDate(s: string, d: Date)
    requires ParseCompactDate(s) == Some(d)
    ensures FormatCompactDate(d) == s
  {
    var a, b, c := s[..4], s[4..6], s[6..];
    assert AllDigits(a) && AllDigits(b) && AllDigits(c);
    assert d == Date(DigitsValue(a), DigitsValue(b), DigitsValue(c));
    PadOfDigitsValue(a);
    PadOfDigitsValue(b);
    PadOfDigitsValue(c);
    CompactFields(s);
  }

  // ---------------------------------------------------------------------
  // YYYY-MM-DD HH:MM:SS (strftime/strptime "%Y-%m-%d %H:%M:%S")

  function FormatTimestamp(t: Timestamp): (r: string)
    requires ValidTimestamp(t)
    ensures |r| == 19
  {
    PadDigits(t.date.year, 4) + "-" + PadDigits(t.date.month, 2) + "-" + PadDigits(t.date.day, 2)
    + " " + PadDigits(t.hour, 2) + ":" + PadDigits(t.minute, 2) + ":" + PadDigits(t.second, 2)
  }

  /** Digits from index i up to j. */
  predicate DigitsAt(s: string, i: nat, j: nat)
    requires i <= j <= |s|
  {
    AllDigits(s[i..j])
  }

  predicate TimestampShape(s: string) {
    |s| == 19
    && DigitsAt(s, 0, 4) && s[4] == '-' && DigitsAt(s, 5, 7) && s[7] == '-' && DigitsAt(s, 8, 10)
    && s[10] == ' ' && DigitsAt(s, 11, 13) && s[13] == ':' && DigitsAt(s, 14, 16) && s[16] == ':'
    && DigitsAt(s, 17, 19)
  }

  /** `strptime(s, "%Y-%m-%d %H:%M:%S")`, read strictly: fixed widths and a valid time of day. */
  function ParseTimestamp(s: string): (r: Option<Timestamp>)
    ensures r.Some? ==> ValidTimestamp(r.value)
  {
    if TimestampShape(s) then
      var t := Timestamp(Date(DigitsValue(s[0..4]), DigitsValue(s[5..7]), DigitsValue(s[8..10])),
                         DigitsValue(s[11..13]), DigitsValue(s[14..16]), DigitsValue(s[17..19]));
      if ValidTimestamp(t) then Some(t) else None
    else None
  }

  /** Where the formatter puts each field and separator. */
  lemma FormattedFields(t: Timestamp)
    requires ValidTimestamp(t)
    ensures var s := FormatTimestamp(t);
      && s[0..4] == PadDigits(t.date.year, 4) && s[5..7] == PadDigits(t.date.month, 2)
      && s[8..10] == PadDigits(t.date.day, 2) && s[11..13] == PadDigits(t.hour, 2)
      && s[14..16] == PadDigits(t.minute, 2) && s[17..19] == PadDigits(t.second, 2)
      && s[4] == '-' && s[7] == '-' && s[10] == ' ' && s[13] == ':' && s[16] == ':'
  {
    var s := FormatTimestamp(t);
    var y, mo, d := PadDigits(t.date.year, 4), PadDigits(t.date.month, 2), PadDigits(t.date.day, 2);
    var h, mi, se := PadDigits(t.hour, 2), PadDigits(t.minute, 2), PadDigits(t.second, 2);
    assert s == y + "-" + mo + "-" + d + " " + h + ":" + mi + ":" + se;
  }

  lemma ParseFormatTimestamp(t: Timestamp)
    requires ValidTimestamp(t)
    ensures ParseTimestamp(FormatTimestamp(t)) == Some(t)
  {
    FormattedFields(t);
    DigitsValueOfPad(t.date.year, 4);
    DigitsValueOfPad(t.date.month, 2);
    DigitsValueOfPad(t.date.day, 2);
    DigitsValueOfPad(t.hour, 2);
    DigitsValueOfPad(t.minute, 2);
    DigitsValueOfPad(t.second, 2);
  }

  /** A 19-character text is its six fields and five separators end to end. */
  lemma TimestampFields(s: string)
    requires |s| == 19
    ensures s == s[0..4] + [s[4]] + s[5..7] + [s[7]] + s[8..10] + [s[10]]
                 + s[11..13] + [s[13]] + s[14..16] + [s[16]] + s[17..19]
  {
  }

  /** The strict parser accepts only the text the formatter produces. */
  lemma FormatParseTimestamp(s: string)
    requires ParseTimestamp(s).Some?
    ensures FormatTimestamp(ParseTimestamp(s).value) == s
  {
    var t := ParseTimestamp(s).value;
    var y, mo, d, h, mi, se := s[0..4], s[5..7], s[8..10], s[11..13], s[14..16], s[17..19];
    assert t == Timestamp(Date(DigitsValue(y), DigitsValue(mo), DigitsValue(d)), DigitsValue(h), DigitsValue(mi), DigitsValue(se));
    PadOfDigitsValue(y);
    PadOfDigitsValue(mo);
    PadOfDigitsValue(d);
    PadOfDigitsValue(h);
    PadOfDigitsValue(mi);
    PadOfDigitsValue(se);
    TimestampFields(s);
  }

  // ---------------------------------------------------------------------
  // The first line of a text file, as `open(..., "r").readline().strip()` sees it

  predicate IsLineBreak(c: char) {
    c == '\n' || c == '\r'
  }

  /** Python's `str.isspace` code points. */
  predicate IsSpace(c: char) {
    var v := c as int;
    (0x09 <= v <= 0x0D) || (0x1C <= v <= 0x20) || v == 0x85 || v == 0xA0 || v == 0x1680
    || (0x2000 <= v <= 0x200A) || v == 0x2028 || v == 0x2029 || v == 0x202F || v == 0x205F
    || v == 0x3000
  }

  /** The text before the first line break (universal newlines end a line at `\n` or `\r`). */
  function FirstLine(s: string): (r: string)
    ensures |r| <= |s|
  {
    if s == "" || IsLineBreak(s[0]) then "" else [s[0]] + FirstLine(s[1..])
  }

  function TrimStart(s: string): string {
    if s != "" && IsSpace(s[0]) then TrimStart(s[1..]) else s
  }

  function TrimEnd(s: string): string {
    if s != "" && IsSpace(s[|s| - 1]) then TrimEnd(s[..|s| - 1]) else s
  }

  /** `str.strip()`: whitespace removed at both ends. */
  function Strip(s: string): string {
    TrimEnd(TrimStart(s))
  }

  /** The line written as the first line of a fresh active log: `strftime("%Y-%m-%d %H:%M:%S\n")`. */
  function StampLine(t: Timestamp): string
    requires ValidTimestamp(t)
  {
    FormatTimestamp(t) + "\n"
  }

  /** The creation timestamp a file's contents record on their first line, if it parses. */
  function ReadCreation(contents: string): Option<Timestamp> {
    ParseTimestamp(Strip(FirstLine(contents)))
  }

  lemma {:induction false} FirstLineOfLine(a: string, rest: string)
    requires forall i :: 0 <= i < |a| ==> !IsLineBreak(a[i])
    ensures FirstLine(a + "\n" + rest) == a
  {
    if a != "" {
      assert (a + "\n" + rest)[1..] == a[1..] + "\n" + rest;
      FirstLineOfLine(a[1..], rest);
    }
  }

  /**
   * A file that starts with a stamp line records that stamp, whatever was
   * appended after it: the rotation check reads back exactly what was written.
   */
  lemma ReadCreationOfStamp(t: Timestamp, rest: string)
    requires ValidTimestamp(t)
    ensures ReadCreation(StampLine(t) + rest) == Some(t)
  {
    var s := FormatTimestamp(t);
    ParseFormatTimestamp(t);
    assert TimestampShape(s);
    forall i | 0 <= i < |s| ensures !IsLineBreak(s[i]) && (i == 0 || i == 18 ==> !IsSpace(s[i])) {
      if i < 4 {
        assert s[i] == s[0..4][i];
      } else if 4 < i < 7 {
        assert s[i] == s[5..7][i - 5];
      } else if 7 < i < 10 {
        assert s[i] == s[8..10][i - 8];
      } else if 10 < i < 13 {
        assert s[i] == s[11..13][i - 11];
      } else if 13 < i < 16 {
        assert s[i] == s[14..16][i - 14];
      } else if 16 < i {
        assert s[i] == s[17..19][i - 17];
      }
    }
    assert StampLine(t) + rest == s + "\n" + rest;
    FirstLineOfLine(s, rest);
    assert TrimStart(s) == s;
    assert TrimEnd(s) == s;
  }
}
