/** The `Patient` record of patient/models.py and the values it derives:
    the display name, the rendered birth date, the age arithmetic and the
    wound catalogue. The reference date `today`, which the source captures
    from the clock once when the object is built, is an immutable field of
    the record; the random primary key is an opaque field. */
module Patients {
  import opened Wrappers
  import opened AsciiText
  import opened Decimal

  // ---------------------------------------------------------------------------
  // Wound codes and the catalogue of their labels

  const LEG_FRACTURE: char := 'F'
  const HEMATOMA: char := 'H'
  const SORE: char := 'S'
  const ANKLE_SPRAIN: char := 'A'
  const KNEE_SPRAIN: char := 'K'

  /** Code and display label of every wound kind, in declaration order. */
  const WOUND_CHOICES: seq<(char, string)> := [
    (LEG_FRACTURE, "Leg Fracture"),
    (HEMATOMA, "Hematoma"),
    (KNEE_SPRAIN, "Knee Sprain"),
    (SORE, "Sore"),
    (ANKLE_SPRAIN, "Ankle Sprain")
  ]

  /** The label a code stands for in a code/label table, if the table lists it. */
  function LabelOf(table: seq<(char, string)>, code: char): (r: Option<string>)
    ensures r.Some? <==> exists i :: 0 <= i < |table| && table[i].0 == code
    ensures r.Some? ==> exists i :: 0 <= i < |table| && table[i] == (code, r.value)
  {
    if table == [] then None
    else if table[0].0 == code then Some(table[0].1)
    else
      var r := LabelOf(table[1..], code);
      assert forall i :: 1 <= i < |table| ==> table[i] == table[1..][i - 1];
      r
  }

  /** The five codes are pairwise distinct, so each names exactly one label,
      and no other character is a wound code. */
  lemma WoundCodesDistinct()
    ensures forall i, j :: 0 <= i < j < |WOUND_CHOICES| ==> WOUND_CHOICES[i].0 != WOUND_CHOICES[j].0
    ensures LabelOf(WOUND_CHOICES, LEG_FRACTURE) == Some("Leg Fracture")
    ensures LabelOf(WOUND_CHOICES, HEMATOMA) == Some("Hematoma")
    ensures LabelOf(WOUND_CHOICES, KNEE_SPRAIN) == Some("Knee Sprain")
    ensures LabelOf(WOUND_CHOICES, SORE) == Some("Sore")
    ensures LabelOf(WOUND_CHOICES, ANKLE_SPRAIN) == Some("Ankle Sprain")
    ensures forall c :: LabelOf(WOUND_CHOICES, c).Some? <==> c in {'F', 'H', 'S', 'A', 'K'}
  {
    assert WOUND_CHOICES[0].0 == 'F' && WOUND_CHOICES[1].0 == 'H' && WOUND_CHOICES[2].0 == 'K';
    assert WOUND_CHOICES[3].0 == 'S' && WOUND_CHOICES[4].0 == 'A';
    forall c ensures LabelOf(WOUND_CHOICES, c).Some? <==> c in {'F', 'H', 'S', 'A', 'K'} {
      if LabelOf(WOUND_CHOICES, c).Some? {
        var i :| 0 <= i < |WOUND_CHOICES| && WOUND_CHOICES[i].0 == c;
      }
    }
  }

  // ---------------------------------------------------------------------------
  // Dates and the record

  /** A calendar date; `ValidDate` says which ones Python's `date` admits. */
  datatype Date = Date(year: nat, month: nat, day: nat)

  predicate IsLeapYear(y: nat) {
    y % 4 == 0 && (y % 100 != 0 || y % 400 == 0)
  }

  function DaysInMonth(y: nat, m: nat): nat
    requires 1 <= m <= 12
  {
    if m == 2 then (if IsLeapYear(y) then 29 else 28)
    else if m in {4, 6, 9, 11} then 30
    else 31
  }

  predicate ValidDate(d: Date) {
    1 <= d.year <= 9999 && 1 <= d.month <= 12 && 1 <= d.day <= DaysInMonth(d.year, d.month)
  }

  /** A 128-bit identifier, set once when the record is created. */
  type Uuid = x: nat | x < 0x1_0000_0000_0000_0000_0000_0000_0000_0000

  /** One patient. `birthdate` and `wound` are nullable; `today` is the
      reference date fixed when the object was built. The wound column also
      admits the blank string `''`; the model folds a blank wound into `None`,
      and no derived value reads the wound. */
  datatype Patient = Patient(
    secretId: Uuid,
    firstName: string,
    lastName: string,
    birthdate: Option<Date>,
    wound: Option<char>,
    emergency: bool,
    today: Date)

  /** An invariant of a validated record: names of at most 50 characters, real
      dates, and a wound that is absent (null or blank) or one of the five
      codes. Django's model validation (`full_clean`, model forms) checks the
      name lengths and the wound code; `save()` does not, and no method of the
      record does either.
      `FullnameFits` is the one derived value that depends on it; the date
      part documents the fields only. */
  predicate Valid(p: Patient) {
    && |p.firstName| <= 50
    && |p.lastName| <= 50
    && (p.birthdate.Some? ==> ValidDate(p.birthdate.value))
    && (p.wound.Some? ==> LabelOf(WOUND_CHOICES, p.wound.value).Some?)
    && ValidDate(p.today)
  }

  // ---------------------------------------------------------------------------
  // fullname

  /** Capitalised first-name tokens joined by single spaces, one space, then
      the last name in upper case, letter for letter. */
  function Fullname(p: Patient): (r: string)
    ensures var k := |Normalize(p.firstName)|;
      && |r| == k + 1 + |p.lastName|
      && r[..k] == Normalize(p.firstName)
      && r[k] == ' '
      && r[k + 1..] == Upper(p.lastName)
  {
    var first := Normalize(p.firstName);
    NameLayout(first, p.lastName);
    first + " " + Upper(p.lastName)
  }

  /** Where each part of `a + " " + Upper(l)` sits: `a`, one space, then the
      letters of `l` with none of them lower case. */
  lemma NameLayout(a: string, l: string)
    ensures var r := a + " " + Upper(l);
      && |r| == |a| + 1 + |l|
      && r[..|a|] == a
      && r[|a|] == ' '
      && r[|a| + 1..] == Upper(l)
      && forall i :: 0 <= i < |l| ==>
           !IsLower(r[|a| + 1 + i]) && LowerChar(r[|a| + 1 + i]) == LowerChar(l[i])
  {
    var u, r := Upper(l), a + " " + Upper(l);
    assert forall i :: 0 <= i < |l| ==> r[|a| + 1 + i] == u[i];
  }

  /** The first-name part of `fullname` is single-spaced and splits into the
      first name's tokens capitalised, each in capitalised shape. */
  lemma FullnameParts(p: Patient)
    ensures var first := Fullname(p)[..|Normalize(p.firstName)|];
      && SingleSpaced(first)
      && Split(first) == CapitalizeAll(Split(p.firstName))
      && (forall j :: 0 <= j < |Split(first)| ==> IsCapitalized(Split(first)[j]))
  {
    var n := Normalize(p.firstName);
    assert Fullname(p)[..|n|] == n;
    NormalizeShape(p.firstName);
  }

  /** The name of a validated patient is at most 101 characters long: neither
      part grows, and one space joins them. */
  lemma FullnameFits(p: Patient)
    requires Valid(p)
    ensures |Fullname(p)| <= 101
  {
  }

  /** Building the name again from an already normalised first name gives the
      same string: the first-name normalisation is idempotent. */
  lemma FullnameIdempotent(p: Patient)
    ensures Fullname(p.(firstName := Normalize(p.firstName))) == Fullname(p)
  {
    NormalizeIdempotent(p.firstName);
  }

  // ---------------------------------------------------------------------------
  // birthdate_formatted

  /** `day/month year`, unpadded; `None` where the source would raise because
      `birthdate` is null. */
  function BirthdateFormatted(p: Patient): (r: Option<string>)
    ensures r.None? <==> p.birthdate.None?
  {
    match p.birthdate
    case None => None
    case Some(b) => Some(NatToString(b.day) + "/" + NatToString(b.month) + " " + NatToString(b.year))
  }

  /** Index of the first occurrence of `c` in `s`. */
  function Find(s: string, c: char): (r: Option<nat>)
    ensures r.None? <==> c !in s
    ensures r.Some? ==> r.value < |s| && s[r.value] == c && c !in s[..r.value]
  {
    if s == [] then None
    else if s[0] == c then Some(0)
    else
      match Find(s[1..], c)
      case None => None
      case Some(k) =>
        assert s[..k + 1] == [s[0]] + s[1..][..k];
        Some(k + 1)
  }

  /** Cuts `s` at the first `c` into what comes before it and what follows. */
  function CutAt(s: string, c: char): Option<(string, string)> {
    match Find(s, c)
    case None => None
    case Some(i) => Some((s[..i], s[i + 1..]))
  }

  /** Reads a rendered birth date back: digits, `/`, digits, a space, digits. */
  function ParseBirthdate(s: string): Option<Date> {
    match CutAt(s, '/')
    case None => None
    case Some((dayText, rest)) =>
      match CutAt(rest, ' ')
      case None => None
      case Some((monthText, yearText)) =>
        var (d, m, y) := (ParseNat(dayText), ParseNat(monthText), ParseNat(yearText));
        if d.Some? && m.Some? && y.Some? then Some(Date(y.value, m.value, d.value)) else None
  }

  /** Digits followed by a non-digit `c` are cut at that `c`. */
  lemma CutAfterDigits(a: string, c: char, b: string)
    requires AllDigits(a) && !IsDigit(c)
    ensures CutAt(a + [c] + b, c) == Some((a, b))
  {
    var s := a + [c] + b;
    assert s[|a|] == c;
    assert forall k :: 0 <= k < |a| ==> s[k] == a[k];
    assert s[..|a|] == a && s[|a| + 1..] == b;
  }

  /** Three unpadded decimals joined by `/` and a space are read back field
      by field. */
  lemma ParseFields(ds: string, ms: string, ys: string)
    requires Canonical(ds) && Canonical(ms) && Canonical(ys)
    ensures ParseBirthdate(ds + "/" + ms + " " + ys)
      == Some(Date(DigitsValue(ys), DigitsValue(ms), DigitsValue(ds)))
  {
    assert ds + "/" + ms + " " + ys == ds + ['/'] + (ms + [' '] + ys);
    CutAfterDigits(ds, '/', ms + [' '] + ys);
    CutAfterDigits(ms, ' ', ys);
  }

  /** The rendered birth date determines day, month and year: reading it back
      gives the birth date. */
  lemma BirthdateRoundTrip(p: Patient)
    requires p.birthdate.Some?
    ensures ParseBirthdate(BirthdateFormatted(p).value) == p.birthdate
  {
    var b := p.birthdate.value;
    ParseFields(NatToString(b.day), NatToString(b.month), NatToString(b.year));
    ParseNatToString(b.day);
    ParseNatToString(b.month);
    ParseNatToString(b.year);
  }

  /** Three digit fields of which one is zero-padded are not a rendering of
      any birth date: the parser refuses them. */
  lemma PaddedFieldRejected(ds: string, ms: string, ys: string)
    requires AllDigits(ds) && AllDigits(ms) && AllDigits(ys)
    requires (|ds| > 1 && ds[0] == '0') || (|ms| > 1 && ms[0] == '0') || (|ys| > 1 && ys[0] == '0')
    ensures ParseBirthdate(ds + "/" + ms + " " + ys) == None
  {
    assert ds + "/" + ms + " " + ys == ds + ['/'] + (ms + [' '] + ys);
    CutAfterDigits(ds, '/', ms + [' '] + ys);
    CutAfterDigits(ms, ' ', ys);
  }

  /** 3 July 1990 renders as `3/7 1990`. */
  lemma BirthdateFormattedExample()
    ensures BirthdateFormatted(Patient(0, "a", "b", Some(Date(1990, 7, 3)), None, false, Date(2024, 1, 1)))
      == Some("3/7 1990")
  {
    assert NatToString(3) == "3" && NatToString(7) == "7" && NatToString(1) == "1";
    assert NatToString(19) == "19";
    assert NatToString(199) == "199";
    assert NatToString(1990) == "1990";
    assert "3" + "/" + "7" + " " + "1990" == "3/7 1990";
  }

  /** Two birth dates render alike only if they are the same date. */
  lemma BirthdateFormattedInjective(p: Patient, q: Patient)
    requires p.birthdate.Some? && q.birthdate.Some?
    requires BirthdateFormatted(p) == BirthdateFormatted(q)
    ensures p.birthdate == q.birthdate
  {
    BirthdateRoundTrip(p);
    BirthdateRoundTrip(q);
  }

  // ---------------------------------------------------------------------------
  // age, age_at_date, has_majority

  /** Years between birth and `today`, by the source's field-wise rule: one
      less unless both today's day and today's month are at least the birth
      day and month. `None` where the source would raise on a null birthdate. */
  function Age(p: Patient): (r: Option<int>)
    ensures r.None? <==> p.birthdate.None?
    ensures r.Some? ==>
      var years := p.today.year - p.birthdate.value.year;
      && years - 1 <= r.value <= years
      && (r.value == years <==>
            p.today.day >= p.birthdate.value.day && p.today.month >= p.birthdate.value.month)
  {
    match p.birthdate
    case None => None
    case Some(b) =>
      if p.today.day >= b.day && p.today.month >= b.month then Some(p.today.year - b.year)
      else Some((p.today.year - b.year) - 1)
  }

  /** The calendar age: completed years, where a year is completed once the
      (month, day) of `today` reaches that of the birth date. */
  function CalendarAge(birth: Date, today: Date): int {
    var before := today.month < birth.month || (today.month == birth.month && today.day < birth.day);
    today.year - birth.year - (if before then 1 else 0)
  }

  /** `age` agrees with the calendar age except in one case, where it is a
      year short: today's month is past the birth month but today's day is
      below the birth day. It never exceeds the calendar age. */
  lemma AgeVersusCalendarAge(p: Patient)
    requires p.birthdate.Some?
    ensures var b := p.birthdate.value;
      Age(p).value ==
        CalendarAge(b, p.today) - (if p.today.month > b.month && p.today.day < b.day then 1 else 0)
  {
  }

  /** A patient born on 15 June 2000, seen on 10 July 2024, has turned 24 but
      `age` reports 23. */
  lemma AgeUndercounts()
    ensures var p := Patient(0, "jean", "dupont", Some(Date(2000, 6, 15)), None, false, Date(2024, 7, 10));
      Age(p) == Some(23) && CalendarAge(p.birthdate.value, p.today) == 24
  {
  }

  /** A patient born on 15 June 2000: age 23 on 1 January 2024, age 24 on
      20 July 2024, majority on 1 January 2024. */
  lemma AgeExamples()
    ensures Age(Patient(0, "a", "b", Some(Date(2000, 6, 15)), None, false, Date(2024, 1, 1))) == Some(23)
    ensures Age(Patient(0, "a", "b", Some(Date(2000, 6, 15)), None, false, Date(2024, 7, 20))) == Some(24)
    ensures HasMajority(Patient(0, "a", "b", Some(Date(2000, 6, 15)), None, false, Date(2024, 1, 1))) == Some(true)
  {
  }

  /** Outcome of `age_at_date`: a number of years, or the `'unborn'` marker. */
  datatype AgeAt = Years(years: int) | Unborn

  /** `age_at_date(d)`: `Unborn` unless the birth year is at most `d`'s year
      and the birth month and day are at least `d`'s; otherwise the source's
      expression, in which the `today.year` terms cancel. */
  function AgeAtDate(p: Patient, d: Date): (r: Option<AgeAt>)
    ensures r.None? <==> p.birthdate.None?
    ensures r.Some? ==>
      var b := p.birthdate.value;
      && (r.value.Unborn? <==> !(b.year <= d.year && b.month >= d.month && b.day >= d.day))
      && (r.value.Years? ==> r.value.years == d.year - b.year - 1 && r.value.years >= -1)
  {
    match p.birthdate
    case None => None
    case Some(b) =>
      if b.year <= d.year && b.month >= d.month && b.day >= d.day then
        Some(Years((p.today.year - b.year) + (d.year - p.today.year) - 1))
      else
        Some(Unborn)
  }

  /** `age_at_date` does not depend on the reference date. */
  lemma AgeAtDateIgnoresToday(p: Patient, d: Date, t: Date)
    ensures AgeAtDate(p.(today := t), d) == AgeAtDate(p, d)
  {
  }

  /** `has_majority`: whether the birth year is at least 18 years before the
      reference year. `None` where the source would raise on a null birthdate. */
  function HasMajority(p: Patient): (r: Option<bool>)
    ensures r.None? <==> p.birthdate.None?
    ensures r.Some? ==> (r.value <==> p.today.year - p.birthdate.value.year >= 18)
  {
    match p.birthdate
    case None => None
    case Some(b) => if p.today.year - b.year >= 18 then Some(true) else Some(false)
  }

  /** A patient whose `age` is at least 18 has majority. */
  lemma AdultHasMajority(p: Patient)
    requires Age(p).Some? && Age(p).value >= 18
    ensures HasMajority(p) == Some(true)
  {
  }

  /** The converse fails: majority is decided by the year alone, so a patient
      can have majority while `age` is still 17. */
  lemma MajorityBeforeEighteen()
    ensures var p := Patient(0, "a", "b", Some(Date(2006, 12, 31)), None, false, Date(2024, 1, 1));
      HasMajority(p) == Some(true) && Age(p) == Some(17)
  {
  }

  // ---------------------------------------------------------------------------
  // is_wounded

  /** `is_wounded`: the labels of the catalogue, in declaration order, for any
      patient and whatever their wound. */
  function IsWounded(p: Patient): (r: seq<string>)
    ensures r == ["Leg Fracture", "Hematoma", "Knee Sprain", "Sore", "Ankle Sprain"]
    ensures |r| == |WOUND_CHOICES| && forall i :: 0 <= i < |r| ==> r[i] == WOUND_CHOICES[i].1
  {
    seq(|WOUND_CHOICES|, i requires 0 <= i < |WOUND_CHOICES| => WOUND_CHOICES[i].1)
  }
}
