/** The timestamp conversion inside `get_github_activity`:
    `datetime.strptime(s, "%Y-%m-%dT%H:%M:%SZ")` followed by
    `strftime("%d/%m/%Y %H:%M:%S")`.

    `strptime` is more lenient than the format suggests: it matches the string
    against a case-insensitive pattern in which `%Y` is exactly four digits,
    `%m`, `%H`, `%M` and `%S` are one or two digits in their range (`%S` up to
    61), and `%d` is one or two digits or a space and a digit; nothing may
    follow the final `Z`. The matched fields must then form a real date and
    time, otherwise constructing the `datetime` raises. */
module Timestamp {
  import opened Wrappers
  import opened Text

  datatype DateTime = DateTime(year: int, month: int, day: int, hour: int, minute: int, second: int)

  predicate IsLeapYear(y: int) {
    y % 4 == 0 && (y % 100 != 0 || y % 400 == 0)
  }

  function DaysInMonth(y: int, m: int): int
    requires 1 <= m <= 12
  {
    if m == 2 then (if IsLeapYear(y) then 29 else 28)
    else if m == 4 || m == 6 || m == 9 || m == 11 then 30
    else 31
  }

  /** What `datetime` accepts: years 1 to 9999, a day that exists in its
      month, and no leap second. */
  predicate ValidDateTime(d: DateTime) {
    && 1 <= d.year <= 9999
    && 1 <= d.month <= 12
    && 1 <= d.day <= DaysInMonth(d.year, d.month)
    && 0 <= d.hour <= 23
    && 0 <= d.minute <= 59
    && 0 <= d.second <= 59
  }

  // ---------------------------------------------------------------------------
  // Parsing

  /** Splits `s` at its first character in `seps`: the text before it and the
      text after it. */
  function Cut(s: string, seps: set<char>): Option<(string, string)> {
    if |s| == 0 then None
    else if s[0] in seps then Some(([], s[1..]))
    else
      match Cut(s[1..], seps)
      case None => None
      case Some(p) => Some(([s[0]] + p.0, p.1))
  }

  lemma {:induction false} CutAt(a: string, c: char, b: string, seps: set<char>)
    requires forall i :: 0 <= i < |a| ==> a[i] !in seps
    requires c in seps
    ensures Cut(a + [c] + b, seps) == Some((a, b))
  {
    if |a| == 0 {
      assert a + [c] + b == [c] + b;
    } else {
      assert (a + [c] + b)[1..] == a[1..] + [c] + b;
      CutAt(a[1..], c, b, seps);
      assert [a[0]] + a[1..] == a;
    }
  }

  /** A numeric field of `%m`, `%H`, `%M` or `%S`: one or two digits whose
      value lies in `[lo, hi]`. */
  predicate NumberField(c: string, lo: int, hi: int) {
    1 <= |c| <= 2 && AllDigits(c) && lo <= DecimalValue(c) <= hi
  }

  /** The `%d` field: a number from 1 to 31, or a space and a digit 1 to 9. */
  predicate DayField(c: string) {
    NumberField(c, 1, 31) || (|c| == 2 && c[0] == ' ' && '1' <= c[1] <= '9')
  }

  function DayValue(c: string): int
    requires DayField(c)
  {
    if c[0] == ' ' then DigitValue(c[1]) else DecimalValue(c)
  }

  /** The `datetime` that `strptime(s, "%Y-%m-%dT%H:%M:%SZ")` returns, or
      `None` where it raises. */
  function ParseIso(s: string): (r: Option<DateTime>)
    ensures r.Some? ==> ValidDateTime(r.value)
  {
    if |s| < 5 || !AllDigits(s[..4]) || s[4] != '-' then None
    else
      match Cut(s[5..], {'-'})
      case None => None
      case Some(p1) =>
        match Cut(p1.1, {'T', 't'})
        case None => None
        case Some(p2) =>
          match Cut(p2.1, {':'})
          case None => None
          case Some(p3) =>
            match Cut(p3.1, {':'})
            case None => None
            case Some(p4) =>
              match Cut(p4.1, {'Z', 'z'})
              case None => None
              case Some(p5) =>
                var (mo, da, hh, mi, se) := (p1.0, p2.0, p3.0, p4.0, p5.0);
                if p5.1 != [] then None
                else if !(NumberField(mo, 1, 12) && DayField(da) && NumberField(hh, 0, 23)
                          && NumberField(mi, 0, 59) && NumberField(se, 0, 61)) then None
                else
                  var d := DateTime(DecimalValue(s[..4]), DecimalValue(mo), DayValue(da),
                                    DecimalValue(hh), DecimalValue(mi), DecimalValue(se));
                  if ValidDateTime(d) then Some(d) else None
  }

  // ---------------------------------------------------------------------------
  // Printing

  /** The fixed-width `YYYY-MM-DDTHH:MM:SSZ` text of six field values,
      whether or not they form a real date. */
  function IsoText(y: nat, mo: nat, da: nat, hh: nat, mi: nat, se: nat): string
    requires y < 10000 && mo < 100 && da < 100 && hh < 100 && mi < 100 && se < 100
  {
    Pad4(y) + "-" + Pad2(mo) + "-" + Pad2(da) + "T" + Pad2(hh) + ":" + Pad2(mi) + ":" + Pad2(se) + "Z"
  }

  /** The canonical form GitHub sends. */
  function IsoFormat(d: DateTime): string
    requires ValidDateTime(d)
  {
    IsoText(d.year, d.month, d.day, d.hour, d.minute, d.second)
  }

  /** `strftime("%d/%m/%Y %H:%M:%S")`. Each field can be read back from fixed
      positions of the result. */
  function BrFormat(d: DateTime): (r: string)
    requires ValidDateTime(d)
    ensures |r| == 19
    ensures r[2] == '/' && r[5] == '/' && r[10] == ' ' && r[13] == ':' && r[16] == ':'
    ensures AllDigits(r[0..2]) && DecimalValue(r[0..2]) == d.day
    ensures AllDigits(r[3..5]) && DecimalValue(r[3..5]) == d.month
    ensures AllDigits(r[6..10]) && DecimalValue(r[6..10]) == d.year
    ensures AllDigits(r[11..13]) && DecimalValue(r[11..13]) == d.hour
    ensures AllDigits(r[14..16]) && DecimalValue(r[14..16]) == d.minute
    ensures AllDigits(r[17..19]) && DecimalValue(r[17..19]) == d.second
  {
    var dd := Pad2(d.day);
    var mm := Pad2(d.month);
    var yyyy := Pad4(d.year);
    var hh := Pad2(d.hour);
    var mi := Pad2(d.minute);
    var ss := Pad2(d.second);
    var r := dd + "/" + mm + "/" + yyyy + " " + hh + ":" + mi + ":" + ss;
    assert r[0..2] == dd && r[3..5] == mm && r[6..10] == yyyy;
    assert r[11..13] == hh && r[14..16] == mi && r[17..19] == ss;
    r
  }

  /** Two valid date-times print the same way only if they are equal. */
  lemma BrFormatInjective(d: DateTime, e: DateTime)
    requires ValidDateTime(d) && ValidDateTime(e)
    requires BrFormat(d) == BrFormat(e)
    ensures d == e
  {
    var r := BrFormat(d);
    assert r[0..2] == BrFormat(e)[0..2];
  }

  /** A zero-padded two-digit field matches a numeric field of the pattern
      exactly when its value lies in the field's range. */
  lemma Pad2Field(x: nat, lo: int, hi: int)
    requires x < 100
    ensures NumberField(Pad2(x), lo, hi) <==> lo <= x <= hi
  {
  }

  /** A zero-padded day matches `%d` exactly when it is 1 to 31, and then
      denotes itself. */
  lemma Pad2Day(x: nat)
    requires x < 100
    ensures DayField(Pad2(x)) <==> 1 <= x <= 31
    ensures DayField(Pad2(x)) ==> DayValue(Pad2(x)) == x
  {
    assert Pad2(x)[0] != ' ';
  }

  /** A fixed-width timestamp parses exactly when its fields form a valid
      date-time, and then to those fields; a field outside the pattern's
      range (month 13, hour 24, day 00) fails like an impossible date. */
  lemma ParseIsoText(y: nat, mo: nat, da: nat, hh: nat, mi: nat, se: nat)
    requires y < 10000 && mo < 100 && da < 100 && hh < 100 && mi < 100 && se < 100
    ensures var d := DateTime(y, mo, da, hh, mi, se);
            ParseIso(IsoText(y, mo, da, hh, mi, se)) == if ValidDateTime(d) then Some(d) else None
  {
    var yy, m2, d2 := Pad4(y), Pad2(mo), Pad2(da);
    var h2, i2, s2 := Pad2(hh), Pad2(mi), Pad2(se);
    var s := IsoText(y, mo, da, hh, mi, se);
    var t5 := s2 + ['Z'];
    var t4 := i2 + [':'] + t5;
    var t3 := h2 + [':'] + t4;
    var t2 := d2 + ['T'] + t3;
    var t1 := m2 + ['-'] + t2;
    assert s == yy + ['-'] + t1;
    assert s[..4] == yy && s[4] == '-' && s[5..] == t1;
    CutAt(m2, '-', t2, {'-'});
    CutAt(d2, 'T', t3, {'T', 't'});
    CutAt(h2, ':', t4, {':'});
    CutAt(i2, ':', t5, {':'});
    assert t5 == s2 + ['Z'] + [];
    CutAt(s2, 'Z', [], {'Z', 'z'});
    Pad2Field(mo, 1, 12);
    Pad2Day(da);
    Pad2Field(hh, 0, 23);
    Pad2Field(mi, 0, 59);
    Pad2Field(se, 0, 61);
  }

  /** Every valid date-time in GitHub's canonical form parses back to itself. */
  lemma ParseIsoRoundTrip(d: DateTime)
    requires ValidDateTime(d)
    ensures ParseIso(IsoFormat(d)) == Some(d)
  {
    ParseIsoText(d.year, d.month, d.day, d.hour, d.minute, d.second);
  }

  /** The `datahora` field: "Data desconhecida" for a missing or empty
      `created_at`, the reformatted time when `strptime` accepts it, and the
      original text otherwise. */
  function DisplayTime(createdAt: Option<string>): (r: string)
    ensures createdAt.None? || createdAt.value == "" ==> r == "Data desconhecida"
    ensures createdAt.Some? && createdAt.value != "" ==>
              (ParseIso(createdAt.value).Some? ==> r == BrFormat(ParseIso(createdAt.value).value))
              && (ParseIso(createdAt.value).None? ==> r == createdAt.value)
  {
    match createdAt
    case None => "Data desconhecida"
    case Some(s) =>
      if s == "" then "Data desconhecida"
      else
        match ParseIso(s)
        case Some(d) => BrFormat(d)
        case None => s
  }

  /** A canonical timestamp of a valid date-time is shown reformatted. */
  lemma DisplayCanonical(d: DateTime)
    requires ValidDateTime(d)
    ensures DisplayTime(Some(IsoFormat(d))) == BrFormat(d)
  {
    ParseIsoRoundTrip(d);
  }

  /** A fixed-width timestamp of an impossible date-time (30 February, a
      leap second, year 0, month 13, hour 24, day 00) is shown as it came. */
  lemma DisplayInvalidVerbatim(y: nat, mo: nat, da: nat, hh: nat, mi: nat, se: nat)
    requires y < 10000 && mo < 100 && da < 100 && hh < 100 && mi < 100 && se < 100
    requires !ValidDateTime(DateTime(y, mo, da, hh, mi, se))
    ensures DisplayTime(Some(IsoText(y, mo, da, hh, mi, se))) == IsoText(y, mo, da, hh, mi, se)
  {
    ParseIsoText(y, mo, da, hh, mi, se);
  }
}
