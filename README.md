# Patient record: derived values

A Dafny model of the `Patient` record in `patient/models.py` and of the values
it derives from its fields:

- the display name (`fullname`),
- the rendered birth date (`birthdate_formatted`),
- the age arithmetic (`age`, `age_at_date`, `has_majority`),
- the wound catalogue (`WOUND_CHOICES`, `is_wounded`).

The record is an immutable datatype `Patients.Patient`. `birthdate` and
`wound` are `Option`s because the fields are nullable. The source reads the
reference date `today` from the clock once, when the object is built. Here it
is an ordinary field of the record, so every age computation on one record
uses the same date. The source raises when `birthdate` is null. The matching
functions return `None` in that case, so the model needs no precondition.
`age_at_date` returns a number or the string `'unborn'`. Here that result is
the datatype `AgeAt = Years(n) | Unborn`.

Modules:

- `Wrappers` (`wrappers.dfy`): `Option`.
- `AsciiText` (`ascii_text.dfy`): Python's `isspace`, `upper`, `lower`,
  `capitalize`, `split()` and `' '.join` on ASCII text. It also holds the
  first-name normalisation used by `fullname`.
- `Decimal` (`decimal.dfy`): unpadded decimal rendering of naturals and its
  inverse parser.
- `Patients` (`patient.dfy`): the wound codes and catalogue, dates, the record
  and its derived values.

`fullname` with an empty or all-blank first name returns a space followed by
the upper-cased last name. It does not raise. `__init__`
(patient/models.py:30-33) checks neither the wound code nor the name lengths.
Django's model validation (`full_clean`, model forms) checks the name lengths
and the wound code; `save()` does not. `Patients.Valid` states them as an
invariant of a validated record, and `Patients.FullnameFits` is the one
property that depends on it.

The age rules are modelled exactly as written. They compare the day and the
month separately and are not calendar-correct. `AgeVersusCalendarAge` states
precisely where `age` differs from the calendar age.

## Model

| member | source | states |
|---|---|---|
| `AsciiText.Split` | patient/models.py:38 | `split()` yields only non-empty, whitespace-free tokens |
| `AsciiText.SplitAtSpace` | patient/models.py:38 | every whitespace character separates tokens: splitting `a + [c] + b` with `c` whitespace gives the tokens of `a` and then those of `b`, so runs of whitespace collapse; with `SplitJoin([w])` this determines `split()` completely |
| `AsciiText.SplitWordThen` | patient/models.py:38 | a word followed by nothing or by whitespace is the first token |
| `AsciiText.SplitKeepsContent` | patient/models.py:38 | the tokens of `split()`, concatenated, are exactly the input's non-whitespace characters in order |
| `AsciiText.SplitJoin` | patient/models.py:38 | joining whitespace-free non-empty words with single spaces and splitting again returns the same words |
| `AsciiText.Join` | patient/models.py:38 | `' '.join` of an empty list is empty; otherwise the result is one character per separator longer than the concatenation |
| `AsciiText.CapitalizeAll` | patient/models.py:38 | the list comprehension has one entry per token, each the token capitalised |
| `AsciiText.CapitalizeAllConcat` | patient/models.py:38 | capitalising the tokens keeps the length of their concatenation |
| `AsciiText.JoinSplitNoLonger` | patient/models.py:38 | re-joining the tokens of `split()` with single spaces never lengthens the string |
| `AsciiText.Normalize` | patient/models.py:38 | the normalised first name is no longer than the first name, is single-spaced, and splits into the first name's tokens capitalised |
| `AsciiText.Lower` | patient/models.py:38 | `lower()`, used by `capitalize()` after the first character, keeps the length, every letter and every whitespace character and leaves no upper-case letter |
| `AsciiText.Upper` | patient/models.py:39 | `upper()` keeps the length and every letter and leaves no lower-case letter |
| `AsciiText.Capitalize` | patient/models.py:38 | `capitalize()` keeps the length, the letters and the whitespace; the first character is not lower case and no later character is upper case |
| `AsciiText.CapitalizeFixedPoint` | patient/models.py:38 | a word is unchanged by `capitalize()` iff it is already in capitalised shape |
| `AsciiText.CapitalizeIdempotent` | patient/models.py:38 | capitalising twice equals capitalising once |
| `AsciiText.NormalizeShape` | patient/models.py:38 | every token of the normalised first name is in capitalised shape |
| `AsciiText.NormalizeIdempotent` | patient/models.py:38 | normalising the first name a second time changes nothing |
| `Patients.Fullname` | patient/models.py:35-39 | `fullname` is the normalised first name, one space, then exactly the upper-cased last name (which keeps every letter and leaves none lower case), and its length is the sum of the parts |
| `Patients.FullnameFits` | patient/models.py:24-25 | for a validated record, whose names are at most 50 characters each, `fullname` is at most 101 characters long |
| `Patients.NameLayout` | patient/models.py:39 | `a + " " + upper(l)` is `a`, one space, then `upper(l)`, whose characters are the letters of `l` with none lower case |
| `Patients.FullnameParts` | patient/models.py:38-39 | the first-name part of `fullname` is single-spaced and splits into the first name's tokens capitalised, each in capitalised shape |
| `Patients.FullnameIdempotent` | patient/models.py:38-39 | rebuilding `fullname` from an already normalised first name gives the same string |
| `Decimal.NatToString` | patient/models.py:44 | an int in an f-string is an unpadded decimal: a non-empty digit string with no leading zero unless the value is 0 |
| `Decimal.ParseNatToString` | patient/models.py:44 | reading the rendered digits back gives the number |
| `Patients.BirthdateFormatted` | patient/models.py:41-44 | the rendering fails exactly when `birthdate` is null |
| `Patients.BirthdateRoundTrip` | patient/models.py:44 | `day/month year` parses back to the birth date under a parser that accepts only unpadded decimals, so the rendering is unpadded and day, month and year are recovered uniquely |
| `Patients.PaddedFieldRejected` | patient/models.py:44 | a rendering with a zero-padded day, month or year is refused by the parser, so it is never the rendering of a birth date |
| `Decimal.ParseNat` | patient/models.py:44 | a string is read as a number iff it is an unpadded decimal: digits only, with a leading zero only in `0` itself |
| `Patients.BirthdateFormattedInjective` | patient/models.py:44 | two birth dates with the same rendering are equal |
| `Patients.BirthdateFormattedExample` | patient/models.py:44 | 3 July 1990 renders as `3/7 1990` |
| `Patients.Age` | patient/models.py:46-53 | fails exactly on a null birthdate; otherwise lies between the year difference minus one and the year difference, and equals the year difference iff today's day and today's month are both at least the birth day and month |
| `Patients.AgeVersusCalendarAge` | patient/models.py:50-53 | `age` equals the calendar age, except that it is one less when today's month is past the birth month but today's day is below the birth day |
| `Patients.AgeUndercounts` | patient/models.py:50-53 | born 2000-06-15, seen 2024-07-10: `age` is 23 while the calendar age is 24 |
| `Patients.AgeExamples` | patient/models.py:50-53 | born 2000-06-15: age 23 on 2024-01-01, age 24 on 2024-07-20, majority on 2024-01-01 |
| `Patients.AgeAtDate` | patient/models.py:55-67 | fails exactly on a null birthdate; `Unborn` iff one of the three field comparisons fails; otherwise the date's year minus the birth year minus one, which is at least -1 |
| `Patients.AgeAtDateIgnoresToday` | patient/models.py:62-65 | `age_at_date` gives the same result for every reference date |
| `Patients.HasMajority` | patient/models.py:69-75 | fails exactly on a null birthdate; otherwise holds iff the reference year is at least 18 past the birth year |
| `Patients.AdultHasMajority` | patient/models.py:50-53 | an `age` of at least 18 implies majority |
| `Patients.MajorityBeforeEighteen` | patient/models.py:72-75 | the converse fails: born 2006-12-31, seen 2024-01-01, majority holds with `age` 17 |
| `Patients.IsWounded` | patient/models.py:77-79 | the five labels of the catalogue in declaration order, for any patient and any wound |
| `Patients.LabelOf` | patient/models.py:16-22 | a code has a label iff the table lists it, and the label is the one paired with it |
| `Patients.WoundCodesDistinct` | patient/models.py:7-22 | the five codes are pairwise distinct, each maps to its one label, and no other character is a code |

## Left out

- Persistence through the Django ORM, the field storage options, and
  `max_length` / `choices` validation (patient/models.py:23-28). These belong
  to the framework. `Patients.Valid` states them as an invariant only. The
  fields themselves (patient/models.py:14-33) are the datatype
  `Patients.Patient`, which has no contract of its own.
- Generation of `secret_id` by `uuid.uuid4` (patient/models.py:23). It is an
  opaque 128-bit field.
- Reading the clock in `__init__` (patient/models.py:30-33). The reference date
  is the record's `today` field, set when the record is built.
- `gettext_lazy` translation of the field labels (patient/models.py:5, 24-28).
- `break_his_leg` and `can_walk` (patient/models.py:81-85). Both are empty and
  have no behaviour.
- Unicode in the case maps and in `split()`. Only ASCII letters change case,
  and only the ASCII whitespace characters separate tokens. Python's handling
  of other characters is not modelled.
- A null `first_name` or `last_name` is not modelled. Both columns are
  non-nullable, so the names are plain strings.
