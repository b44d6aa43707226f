/** The two date decoders: the `YYMMDD_...` run-folder name used by the
    sheet finder, and the `MMDDYY_...` sample id used by the older scraper. */
module Dates {
  import opened Results
  import opened Text
  import opened Paths

  /** `get_sequencing_date_from_folder`: the part of the folder name before
      the first underscore, stripped, read as YYMMDD and laid out as
      `20YY-MM-DD`. Nothing is validated: a shorter or longer part is sliced
      the same way. */
  function FolderDate(folder: Path): string {
    var code := Strip(BeforeFirst(Name(folder), '_'));
    "20" + Slice(code, 0, 2) + "-" + Slice(code, 2, 4) + "-" + Drop(code, 4)
  }

  /** A six-character folder code with no surrounding whitespace. */
  predicate IsFolderCode(code: string) {
    |code| == 6 && '_' !in code && !IsSpace(code[0]) && !IsSpace(code[5])
  }

  /** The name of a run folder dated `code`, with an optional suffix that
      starts at an underscore. */
  predicate NamedWithCode(name: string, code: string) {
    && |code| <= |name|
    && name[..|code|] == code
    && (|name| == |code| || name[|code|] == '_')
  }

  /** A YYMMDD folder code becomes the ten-character key `20YY-MM-DD`, and
      whatever follows the first underscore plays no part. */
  lemma FolderDateOfCode(folder: Path, code: string)
    requires IsFolderCode(code)
    requires NamedWithCode(Name(folder), code)
    ensures FolderDate(folder) == "20" + code[..2] + "-" + code[2..4] + "-" + code[4..]
    ensures |FolderDate(folder)| == 10
  {
    var name := Name(folder);
    if |name| == |code| {
      assert name == code;
      assert BeforeFirst(name, '_') == code;
    } else {
      assert name == code + ['_'] + name[|code| + 1..];
      BeforeFirstIgnoresRest(code, '_', name[|code| + 1..]);
    }
    StripUnchanged(code);
  }

  /** The shape of a key `FolderDate` produces from a six-digit code. */
  predicate IsDateKey(key: string) {
    && |key| == 10
    && key[..2] == "20" && key[4] == '-' && key[7] == '-'
    && AllDigits(key[2..4]) && AllDigits(key[5..7]) && AllDigits(key[8..])
  }

  /** The YYMMDD folder code that encodes a date key. */
  function KeyToCode(key: string): (code: string)
    requires IsDateKey(key)
    ensures IsFolderCode(code)
  {
    key[2..4] + key[5..7] + key[8..]
  }

  /** Decoding the folder code of a key gives the key back, whatever the
      folder's suffix after the first underscore. */
  lemma {:induction false} FolderDateRoundTrip(root: Path, key: string, suffix: string)
    requires IsDateKey(key)
    requires |suffix| == 0 || suffix[0] == '_'
    ensures FolderDate(Join(root, KeyToCode(key) + suffix)) == key
  {
    var code := KeyToCode(key);
    var folder := Join(root, code + suffix);
    assert NamedWithCode(Name(folder), code) by {
      JoinInverse(root, code + suffix);
      assert (code + suffix)[..|code|] == code;
    }
    FolderDateOfCode(folder, code);
    assert code[..2] == key[2..4] && code[2..4] == key[5..7] && code[4..] == key[8..];
    KeyLayout(key);
  }

  /** A date key is `20`, two digits, `-`, two digits, `-`, two digits. */
  lemma KeyLayout(key: string)
    requires IsDateKey(key)
    ensures key == "20" + key[2..4] + "-" + key[5..7] + "-" + key[8..]
  {
    assert key == key[..2] + key[2..4] + [key[4]] + key[5..7] + [key[7]] + key[8..];
  }

  /** Example: a folder named `170120_xyz` is keyed `2017-01-20`. */
  lemma FolderDateExample(root: Path)
    ensures FolderDate(Join(root, "170120_xyz")) == "2017-01-20"
  {
    var key := "2017-01-20";
    assert key[2..4] == "17" && key[5..7] == "01" && key[8..] == "20";
    assert IsDateKey(key);
    assert KeyToCode(key) + "_xyz" == "170120_xyz";
    FolderDateRoundTrip(root, key, "_xyz");
  }

  // ---------------------------------------------------------------------
  // Calendar dates, as `datetime.date` accepts them.

  datatype Date = Date(year: int, month: int, day: int)

  predicate IsLeap(year: int) {
    year % 4 == 0 && (year % 100 != 0 || year % 400 == 0)
  }

  function DaysInMonth(year: int, month: int): int
    requires 1 <= month <= 12
  {
    if month == 2 then (if IsLeap(year) then 29 else 28)
    else if month == 4 || month == 6 || month == 9 || month == 11 then 30
    else 31
  }

  /** `datetime.date(year, month, day)` raises ValueError exactly when this
      fails (MINYEAR is 1, MAXYEAR is 9999). */
  predicate ValidDate(d: Date) {
    && 1 <= d.year <= 9999
    && 1 <= d.month <= 12
    && 1 <= d.day <= DaysInMonth(d.year, d.month)
  }

  /** A cell of the `sampleId` column: a string, or any other Python value
      (pandas fills missing cells with a float NaN). */
  datatype Cell = Str(s: string) | NonString

  /** The largest year `datetime.date` accepts as an argument before
      range checking: the year is converted to a C `int` first. */
  const CIntMax: int := 0x7FFF_FFFF

  /** The OverflowError `datetime.date` raises for a year beyond a C `int`.
      `extract_date_from_sample_id` catches only ValueError, so this one
      reaches its caller. */
  datatype Overflow = YearOverflow(year: int)

  /** `extract_date_from_sample_id`: the part before the first underscore
      read as MMDDYY (the year part may be longer), in the 2000s.
      Non-strings, non-numeric parts, an empty year part and impossible
      calendar dates all give `None` (the caught ValueError); a year past
      the C `int` range raises. A code of at most four characters, such
      as `"031_5"`, `"1"` or `""`, has no year digits and gives `None`. */
  function DateFromSampleId(v: Cell): (r: Result<Option<Date>, Overflow>)
    ensures v.NonString? ==> r == Ok(None)
    ensures r.Ok? && r.value.Some? ==> ValidDate(r.value.value) && r.value.value.year >= 2000
    ensures r.Err? ==> v.Str? && r.error.year > CIntMax
    ensures v.Str? && |BeforeFirst(v.s, '_')| <= 4 ==> r == Ok(None)
  {
    match v
    case NonString => Ok(None)
    case Str(s) =>
      var code := BeforeFirst(s, '_');
      var month := ParseInt(Slice(code, 0, 2));
      var day := ParseInt(Slice(code, 2, 4));
      var year := ParseInt(Drop(code, 4));
      if month.Some? && day.Some? && year.Some? then
        var d := Date(2000 + year.value, month.value, day.value);
        if d.year > CIntMax then Err(YearOverflow(d.year))
        else if ValidDate(d) then Ok(Some(d))
        else Ok(None)
      else Ok(None)
  }

  /** The MMDDYY code of a date in this century. */
  function SampleIdCode(d: Date): (code: string)
    requires 2000 <= d.year < 2100 && 1 <= d.month <= 12 && 1 <= d.day <= 31
    ensures |code| == 6 && AllDigits(code) && '_' !in code
  {
    TwoDigits(d.month) + TwoDigits(d.day) + TwoDigits(d.year - 2000)
  }

  /** Any valid date of this century survives encoding as a sample id
      prefix and decoding again, whatever follows the underscore. */
  lemma SampleIdRoundTrip(d: Date, suffix: string)
    requires ValidDate(d) && 2000 <= d.year < 2100
    requires |suffix| == 0 || suffix[0] == '_'
    ensures DateFromSampleId(Str(SampleIdCode(d) + suffix)) == Ok(Some(d))
  {
    var mm := TwoDigits(d.month);
    var dd := TwoDigits(d.day);
    var yy := TwoDigits(d.year - 2000);
    assert ParseInt(mm) == Some(d.month) && ParseInt(dd) == Some(d.day) && ParseInt(yy) == Some(d.year - 2000) by {
      TwoDigitField(d.month);
      TwoDigitField(d.day);
      TwoDigitField(d.year - 2000);
    }
    assert '_' !in mm + dd + yy && SampleIdCode(d) + suffix == mm + dd + yy + suffix by {
      assert SampleIdCode(d) == mm + dd + yy;
    }
    assert Date(2000 + (d.year - 2000), d.month, d.day) == d;
    DateOfFields(mm, dd, yy, suffix, d);
  }

  /** The date read once all three fields parse to a valid date. */
  lemma DateOfFields(mm: string, dd: string, yy: string, rest: string, d: Date)
    requires |mm| == 2 && |dd| == 2
    requires '_' !in mm + dd + yy
    requires |rest| == 0 || rest[0] == '_'
    requires ParseInt(mm) == Some(d.month) && ParseInt(dd) == Some(d.day) && ParseInt(yy) == Some(d.year - 2000)
    requires ValidDate(d) && d.year >= 2000
    ensures DateFromSampleId(Str(mm + dd + yy + rest)) == Ok(Some(d))
  {
    SampleIdFields(mm, dd, yy, rest);
  }

  /** The three fields are read by position: two characters of month,
      two of day, and the rest of the text before the first underscore as
      the year. */
  lemma SampleIdFields(mm: string, dd: string, yy: string, rest: string)
    requires |mm| == 2 && |dd| == 2
    requires '_' !in mm + dd + yy
    requires |rest| == 0 || rest[0] == '_'
    ensures var month := ParseInt(mm);
            var day := ParseInt(dd);
            var year := ParseInt(yy);
            var r := DateFromSampleId(Str(mm + dd + yy + rest));
            && (r.Err? <==> month.Some? && day.Some? && year.Some? && 2000 + year.value > CIntMax)
            && (r.Err? ==> r.error == YearOverflow(2000 + year.value))
            && (r == Ok(None) <==> !(month.Some? && day.Some? && year.Some?)
                                   || (2000 + year.value <= CIntMax
                                       && !ValidDate(Date(2000 + year.value, month.value, day.value))))
            && (month.Some? && day.Some? && year.Some?
                && ValidDate(Date(2000 + year.value, month.value, day.value)) ==>
                  r == Ok(Some(Date(2000 + year.value, month.value, day.value))))
  {
    var code := mm + dd + yy;
    var s := code + rest;
    if |rest| == 0 {
      assert s == code;
      assert BeforeFirst(s, '_') == code;
    } else {
      assert s == code + ['_'] + rest[1..];
      BeforeFirstIgnoresRest(code, '_', rest[1..]);
    }
    assert Slice(code, 0, 2) == mm;
    assert Slice(code, 2, 4) == dd;
    assert Drop(code, 4) == yy;
  }

  /** The value of a two-digit field. */
  lemma TwoDigitField(n: nat)
    requires n < 100
    ensures ParseInt(TwoDigits(n)) == Some(n)
  {
    TwoDigitsValue(n);
  }

  /** The documented example `032117_19` decodes to 21 March 2017. */
  lemma SampleIdExample()
    ensures DateFromSampleId(Str("032117_19")) == Ok(Some(Date(2017, 3, 21)))
  {
    var d := Date(2017, 3, 21);
    assert TwoDigits(3) == "03" && TwoDigits(21) == "21" && TwoDigits(17) == "17";
    assert SampleIdCode(d) + "_19" == "032117_19";
    SampleIdRoundTrip(d, "_19");
  }

  /** A month above twelve is answered with `None`. */
  lemma SampleIdRejectsMonth()
    ensures DateFromSampleId(Str("132117_1")) == Ok(None)
  {
    assert TwoDigits(13) == "13" && TwoDigits(21) == "21" && TwoDigits(17) == "17";
    TwoDigitField(13);
    SampleIdFields("13", "21", "17", "_1");
    assert "13" + "21" + "17" + "_1" == "132117_1";
  }

  /** The 29th of February outside a leap year is answered with `None`. */
  lemma SampleIdRejectsDay()
    ensures DateFromSampleId(Str("022917_1")) == Ok(None)
  {
    Feb29Fields();
    SampleIdFields("02", "29", "17", "_1");
    assert "02" + "29" + "17" + "_1" == "022917_1";
    assert !IsLeap(2017);
  }

  /** The fields of `022917`. */
  lemma Feb29Fields()
    ensures ParseInt("02") == Some(2) && ParseInt("29") == Some(29) && ParseInt("17") == Some(17)
  {
    assert TwoDigits(2) == "02" && TwoDigits(29) == "29" && TwoDigits(17) == "17";
    TwoDigitField(2);
    TwoDigitField(29);
    TwoDigitField(17);
  }

  /** An empty year part is answered with `None`. */
  lemma SampleIdRejectsMissingYear()
    ensures DateFromSampleId(Str("0321_17")) == Ok(None)
  {
    SampleIdFields("03", "21", "", "_17");
    assert "03" + "21" + "" + "_17" == "0321_17";
  }

  /** A non-numeric day field is answered with `None`. */
  lemma SampleIdRejectsLetters()
    ensures DateFromSampleId(Str("03xx17")) == Ok(None)
  {
    SampleIdFields("03", "xx", "17", "");
    assert "03" + "xx" + "17" + "" == "03xx17";
    assert !IsDigit("xx"[0]);
  }

  /** Whatever the month and day fields, a year field reading as
      2147481648 or more (with or without leading zeros) takes the year past
      a C `int`, and the OverflowError escapes; any smaller year does not
      raise. */
  lemma SampleIdOverflowExactly(month: nat, day: nat, k: nat, y: nat, suffix: string)
    requires month < 100 && day < 100
    requires |suffix| == 0 || suffix[0] == '_'
    ensures var r := DateFromSampleId(Str(TwoDigits(month) + TwoDigits(day) + (Zeros(k) + Decimal(y)) + suffix));
            (r.Err? <==> y >= CIntMax - 1999) && (r.Err? ==> r.error == YearOverflow(2000 + y))
  {
    var mm := TwoDigits(month);
    var dd := TwoDigits(day);
    var yy := Zeros(k) + Decimal(y);
    assert ParseInt(mm) == Some(month) && ParseInt(dd) == Some(day) && ParseInt(yy) == Some(y) by {
      TwoDigitField(month);
      TwoDigitField(day);
      ParseIntDecimal(y, k);
    }
    assert '_' !in mm + dd + yy by {
      NoUnderscore(mm);
      NoUnderscore(dd);
      NoUnderscore(yy);
    }
    OverflowOfFields(mm, dd, yy, suffix, y);
  }

  /** The overflow condition once all three fields are known to parse. */
  lemma OverflowOfFields(mm: string, dd: string, yy: string, rest: string, y: nat)
    requires |mm| == 2 && |dd| == 2
    requires '_' !in mm + dd + yy
    requires |rest| == 0 || rest[0] == '_'
    requires ParseInt(mm).Some? && ParseInt(dd).Some? && ParseInt(yy) == Some(y)
    ensures var r := DateFromSampleId(Str(mm + dd + yy + rest));
            (r.Err? <==> y >= CIntMax - 1999) && (r.Err? ==> r.error == YearOverflow(2000 + y))
  {
    SampleIdFields(mm, dd, yy, rest);
  }

  /** Digit text holds no underscore. */
  lemma NoUnderscore(s: string)
    requires AllDigits(s)
    ensures '_' !in s
  {
  }

  /** The first overflowing year field: `01012147481648`. */
  lemma SampleIdOverflowExample()
    ensures DateFromSampleId(Str("0101" + Decimal(2147481648))).Err?
  {
    var yy := Decimal(2147481648);
    SampleIdOverflowExactly(1, 1, 0, 2147481648, "");
    assert TwoDigits(1) + TwoDigits(1) + (Zeros(0) + yy) + "" == "0101" + yy;
  }
}
