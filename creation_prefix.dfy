/**
 * The name part of `add_creation_date_prefix`: the file's creation time as
 * `YYYY-MM-DD_HH-MM-SS`, an underscore, and the file's base name.
 */
module CreationPrefix {
  import opened Wrappers
  import opened Strings
  import opened Decimal

  /** A calendar date and time of day, the fields of a `datetime` that the format shows. */
  datatype DateTime = DateTime(year: nat, month: nat, day: nat, hour: nat, minute: nat, second: nat)

  /** The proleptic Gregorian leap-year rule that `datetime` follows. */
  predicate IsLeapYear(y: nat)
  {
    y % 4 == 0 && (y % 100 != 0 || y % 400 == 0)
  }

  function DaysInMonth(y: nat, m: nat): nat
    requires 1 <= m <= 12
  {
    if m == 2 then (if IsLeapYear(y) then 29 else 28)
    else if m == 4 || m == 6 || m == 9 || m == 11 then 30
    else 31
  }

  /** The ranges a `datetime` always satisfies. */
  predicate ValidDateTime(t: DateTime)
  {
    && 1 <= t.year <= 9999
    && 1 <= t.month <= 12
    && 1 <= t.day <= DaysInMonth(t.year, t.month)
    && t.hour < 24 && t.minute < 60 && t.second < 60
  }

  /** A creation time as `datetime.fromtimestamp` returns it. */
  type Stamp = t: DateTime | ValidDateTime(t) witness DateTime(1970, 1, 1, 0, 0, 0)

  /** Chronological order of two timestamps: field by field, most significant first. */
  predicate Before(t1: DateTime, t2: DateTime)
  {
    t1.year < t2.year || (t1.year == t2.year &&
    (t1.month < t2.month || (t1.month == t2.month &&
    (t1.day < t2.day || (t1.day == t2.day &&
    (t1.hour < t2.hour || (t1.hour == t2.hour &&
    (t1.minute < t2.minute || (t1.minute == t2.minute &&
    t1.second < t2.second)))))))))
  }

  /** `strftime('%Y-%m-%d_%H-%M-%S')`. */
  function DateString(t: Stamp): string
  {
    ZeroPad(t.year, 4) + "-" + ZeroPad(t.month, 2) + "-" + ZeroPad(t.day, 2) + "_" +
    ZeroPad(t.hour, 2) + "-" + ZeroPad(t.minute, 2) + "-" + ZeroPad(t.second, 2)
  }

  /** Every date string has 19 characters: each field fits its width. */
  lemma DateStringLength(t: Stamp)
    ensures |DateString(t)| == 19
  {
    FieldsFit(t);
  }

  /** Reads a `%Y-%m-%d_%H-%M-%S` string back into its fields; `None` if it has another shape. */
  function ParseDateString(s: string): Option<DateTime>
  {
    if |s| == 19 && s[4] == '-' && s[7] == '-' && s[10] == '_' && s[13] == '-' && s[16] == '-'
       && AllDigits(s[0..4]) && AllDigits(s[5..7]) && AllDigits(s[8..10])
       && AllDigits(s[11..13]) && AllDigits(s[14..16]) && AllDigits(s[17..19])
    then Some(DateTime(Value(s[0..4]), Value(s[5..7]), Value(s[8..10]),
                       Value(s[11..13]), Value(s[14..16]), Value(s[17..19])))
    else None
  }

  /** Every field survives formatting: the date string reads back as the timestamp it came from. */
  lemma DateStringRoundTrip(t: Stamp)
    ensures ParseDateString(DateString(t)) == Some(t)
  {
    FieldsFit(t);
    FieldSlices(ZeroPad(t.year, 4), ZeroPad(t.month, 2), ZeroPad(t.day, 2),
                ZeroPad(t.hour, 2), ZeroPad(t.minute, 2), ZeroPad(t.second, 2));
    ZeroPadValue(t.year, 4);
    ZeroPadValue(t.month, 2);
    ZeroPadValue(t.day, 2);
    ZeroPadValue(t.hour, 2);
    ZeroPadValue(t.minute, 2);
    ZeroPadValue(t.second, 2);
  }

  /** Where each field lies in a joined `%Y-%m-%d_%H-%M-%S` string. */
  lemma FieldSlices(y: string, mo: string, d: string, h: string, mi: string, se: string)
    requires |y| == 4 && |mo| == 2 && |d| == 2 && |h| == 2 && |mi| == 2 && |se| == 2
    ensures var s := y + "-" + mo + "-" + d + "_" + h + "-" + mi + "-" + se;
      && |s| == 19 && s[4] == '-' && s[7] == '-' && s[10] == '_' && s[13] == '-' && s[16] == '-'
      && s[0..4] == y && s[5..7] == mo && s[8..10] == d
      && s[11..13] == h && s[14..16] == mi && s[17..19] == se
  {
    var date := y + "-" + mo + "-" + d;
    var time := h + "-" + mi + "-" + se;
    assert y + "-" + mo + "-" + d + "_" + h + "-" + mi + "-" + se == date + "_" + time;
    assert (date + "_" + time)[11..] == time;
  }

  /** One more `<sep><w digits>` group appended to equally long prefixes. */
  lemma GroupStep(x1: string, x2: string, sep: string, a: nat, b: nat, w: nat)
    requires |x1| == |x2| && |sep| == 1 && 1 <= w && a < Pow10(w) && b < Pow10(w)
    ensures LexLess(x1 + sep + ZeroPad(a, w), x2 + sep + ZeroPad(b, w)) <==> LexLess(x1, x2) || (x1 == x2 && a < b)
    ensures x1 + sep + ZeroPad(a, w) == x2 + sep + ZeroPad(b, w) <==> x1 == x2 && a == b
    ensures |x1 + sep + ZeroPad(a, w)| == |x2 + sep + ZeroPad(b, w)|
  {
    ZeroPadFits(a, w);
    ZeroPadFits(b, w);
    FixedDigitsOrder(a, b, w);
    JoinStep(x1, x2, sep, ZeroPad(a, w), ZeroPad(b, w));
  }

  /** Joining equally long parts: order and equality are decided by the first part that differs. */
  lemma JoinStep(x1: string, x2: string, sep: string, g1: string, g2: string)
    requires |x1| == |x2| && |g1| == |g2|
    ensures LexLess(x1 + sep + g1, x2 + sep + g2) <==> LexLess(x1, x2) || (x1 == x2 && LexLess(g1, g2))
    ensures x1 + sep + g1 == x2 + sep + g2 <==> x1 == x2 && g1 == g2
  {
    LexLessAppend(x1 + sep, g1, x2 + sep, g2);
    AppendEqual(x1 + sep, g1, x2 + sep, g2);
    LexLessAppend(x1, sep, x2, sep);
    AppendEqual(x1, sep, x2, sep);
    LexLessIrreflexive(sep);
  }

  /**
   * The zero-padded fixed-width format sorts as time does: one date string is smaller than
   * another exactly when its timestamp is earlier.
   */
  lemma DateStringOrder(t1: Stamp, t2: Stamp)
    ensures Before(t1, t2) <==> LexLess(DateString(t1), DateString(t2))
    ensures t1 == t2 <==> DateString(t1) == DateString(t2)
  {
    assert Pow10(2) == 100 && Pow10(4) == 10000;
    var y1, y2 := ZeroPad(t1.year, 4), ZeroPad(t2.year, 4);
    ZeroPadFits(t1.year, 4);
    ZeroPadFits(t2.year, 4);
    FixedDigitsOrder(t1.year, t2.year, 4);
    var a1, a2 := y1 + "-" + ZeroPad(t1.month, 2), y2 + "-" + ZeroPad(t2.month, 2);
    GroupStep(y1, y2, "-", t1.month, t2.month, 2);
    var b1, b2 := a1 + "-" + ZeroPad(t1.day, 2), a2 + "-" + ZeroPad(t2.day, 2);
    GroupStep(a1, a2, "-", t1.day, t2.day, 2);
    var c1, c2 := b1 + "_" + ZeroPad(t1.hour, 2), b2 + "_" + ZeroPad(t2.hour, 2);
    GroupStep(b1, b2, "_", t1.hour, t2.hour, 2);
    var d1, d2 := c1 + "-" + ZeroPad(t1.minute, 2), c2 + "-" + ZeroPad(t2.minute, 2);
    GroupStep(c1, c2, "-", t1.minute, t2.minute, 2);
    GroupStep(d1, d2, "-", t1.second, t2.second, 2);
    assert DateString(t1) == d1 + "-" + ZeroPad(t1.second, 2);
    assert DateString(t2) == d2 + "-" + ZeroPad(t2.second, 2);
  }

  /** Each field of a valid timestamp fits its width, so padding gives exactly that width. */
  lemma FieldsFit(t: Stamp)
    ensures ZeroPad(t.year, 4) == FixedDigits(t.year, 4)
    ensures ZeroPad(t.month, 2) == FixedDigits(t.month, 2)
    ensures ZeroPad(t.day, 2) == FixedDigits(t.day, 2)
    ensures ZeroPad(t.hour, 2) == FixedDigits(t.hour, 2)
    ensures ZeroPad(t.minute, 2) == FixedDigits(t.minute, 2)
    ensures ZeroPad(t.second, 2) == FixedDigits(t.second, 2)
  {
    assert Pow10(2) == 100 && Pow10(4) == 10000;
    ZeroPadFits(t.year, 4);
    ZeroPadFits(t.month, 2);
    ZeroPadFits(t.day, 2);
    ZeroPadFits(t.hour, 2);
    ZeroPadFits(t.minute, 2);
    ZeroPadFits(t.second, 2);
  }

  /** `os.path.basename` on a POSIX path: everything after the last `/`. */
  function BaseName(path: string): string
  {
    if path == [] || path[|path| - 1] == '/' then []
    else BaseName(path[..|path| - 1]) + [path[|path| - 1]]
  }

  /**
   * The base name is the last component of the path: a suffix without `/`, preceded by `/`
   * unless it is the whole path.
   */
  lemma {:induction false} BaseNameIsLastComponent(path: string)
    ensures var r := BaseName(path);
      && '/' !in r
      && |r| <= |path| && r == path[|path| - |r|..]
      && (|r| < |path| ==> path[|path| - |r| - 1] == '/')
  {
    if path != [] && path[|path| - 1] != '/' {
      var init := path[..|path| - 1];
      BaseNameIsLastComponent(init);
      var r0 := BaseName(init);
      var r := BaseName(path);
      assert r == r0 + [path[|path| - 1]];
      assert r0 == init[|init| - |r0|..];
      assert r == path[|path| - |r|..] by {
        assert init[|init| - |r0|..] + [path[|path| - 1]] == path[|path| - |r0| - 1..];
      }
      if |r| < |path| {
        assert path[|path| - |r| - 1] == init[|init| - |r0| - 1];
      }
    }
  }

  /**
   * The name `add_creation_date_prefix` returns for a file: `None` when its creation time could
   * not be read, otherwise the date string, `_` and the base name.
   */
  function TargetName(stamp: Option<Stamp>, path: string): (r: Option<string>)
    ensures r.Some? <==> stamp.Some?
  {
    match stamp
    case None => None
    case Some(t) => Some(DateString(t) + "_" + BaseName(path))
  }

  /**
   * A new name is 20 characters longer than the base name it ends with: its first 19 read back
   * as the creation time, then comes `_`.
   */
  lemma TargetNameShape(t: Stamp, path: string)
    ensures var r := TargetName(Some(t), path).value;
      && |r| == 20 + |BaseName(path)|
      && ParseDateString(r[..19]) == Some(t)
      && r[19] == '_'
      && EndsWith(r, BaseName(path))
  {
    DateStringLength(t);
    NameParts(DateString(t), BaseName(path));
    DateStringRoundTrip(t);
  }

  lemma NameParts(date: string, base: string)
    requires |date| == 19
    ensures (date + "_" + base)[..19] == date && (date + "_" + base)[19] == '_'
    ensures EndsWith(date + "_" + base, base)
  {
    assert (date + "_" + base)[20..] == base;
  }

  /**
   * Two files get the same new name exactly when they have the same creation time and the
   * same base name.
   */
  lemma TargetNameInjective(t1: Stamp, p1: string, t2: Stamp, p2: string)
    ensures TargetName(Some(t1), p1) == TargetName(Some(t2), p2) <==> t1 == t2 && BaseName(p1) == BaseName(p2)
  {
    DateStringLength(t1);
    DateStringLength(t2);
    var d1, d2 := DateString(t1), DateString(t2);
    assert d1 + "_" + BaseName(p1) == (d1 + "_") + BaseName(p1);
    AppendEqual(d1 + "_", BaseName(p1), d2 + "_", BaseName(p2));
    AppendEqual(d1, "_", d2, "_");
    DateStringOrder(t1, t2);
  }

  /** New names sort by creation time: a file created earlier gets the smaller name. */
  lemma TargetNameOrder(t1: Stamp, p1: string, t2: Stamp, p2: string)
    requires Before(t1, t2)
    ensures LexLess(TargetName(Some(t1), p1).value, TargetName(Some(t2), p2).value)
  {
    DateStringLength(t1);
    DateStringLength(t2);
    DateStringOrder(t1, t2);
    PrefixDecides(DateString(t1), BaseName(p1), DateString(t2), BaseName(p2));
  }

  /** Names whose equally long date parts differ are ordered by those parts alone. */
  lemma PrefixDecides(d1: string, b1: string, d2: string, b2: string)
    requires |d1| == |d2| && LexLess(d1, d2)
    ensures LexLess(d1 + "_" + b1, d2 + "_" + b2)
  {
    LexLessAppend(d1, "_" + b1, d2, "_" + b2);
    assert d1 + "_" + b1 == d1 + ("_" + b1);
    assert d2 + "_" + b2 == d2 + ("_" + b2);
  }

  /** 2023-03-01 10:00:00 is written `2023-03-01_10-00-00`. */
  lemma DateStringExample()
    ensures DateString(DateTime(2023, 3, 1, 10, 0, 0)) == "2023-03-01_10-00-00"
  {
    ExampleFields();
    assert "2023" + "-" + "03" == "2023-03";
    assert "2023-03" + "-" + "01" == "2023-03-01";
    assert "2023-03-01" + "_" + "10" == "2023-03-01_10";
    assert "2023-03-01_10" + "-" + "00" == "2023-03-01_10-00";
    assert "2023-03-01_10-00" + "-" + "00" == "2023-03-01_10-00-00";
  }

  /** The padded fields of 2023-03-01 10:00:00. */
  lemma ExampleFields()
    ensures ZeroPad(2023, 4) == "2023" && ZeroPad(3, 2) == "03" && ZeroPad(1, 2) == "01"
    ensures ZeroPad(10, 2) == "10" && ZeroPad(0, 2) == "00"
  {
    FieldsFit(DateTime(2023, 3, 1, 10, 0, 0));
  }

  /** The directory part of the path is dropped. */
  lemma BaseNameExample()
    ensures BaseName("source/photo.JPG") == "photo.JPG"
  {
    var p := "source/photo.JPG";
    BaseNameIsLastComponent(p);
    assert BaseName(p) == p[7..];
  }

  /** A photo created at 2023-03-01 10:00:00 is renamed `2023-03-01_10-00-00_photo.JPG`. */
  lemma TargetNameExample()
    ensures TargetName(Some(DateTime(2023, 3, 1, 10, 0, 0)), "source/photo.JPG") == Some("2023-03-01_10-00-00_photo.JPG")
  {
    DateStringExample();
    BaseNameExample();
    assert "2023-03-01_10-00-00" + "_" + "photo.JPG" == "2023-03-01_10-00-00_photo.JPG";
  }
}
