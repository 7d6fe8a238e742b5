# Bank statement categoriser and race pace calculator, in Dafny

This project models two small command-line tools and proves properties of
the models.

**The bank-statement categoriser (`categorize-transactions.py`).**
- A Lloyds Bank CSV export, already split into rows of fields, is checked against its fixed
  eight-column header. Each following row becomes a `Transaction`: a calendar date, a
  description, and exact debit and credit amounts.
- A list of category rules, each a name with description patterns, is built in declaration
  order. Each rule lower-cases its patterns once.
- Each transaction is matched against every rule by case-insensitive substring containment,
  then filed under a name:
  - `"Unknown"` when nothing matches;
  - the first-declared matching rule's name otherwise.
- Descriptions that matched nothing are collected in an unknown dictionary. Descriptions that
  matched several rules are collected in a conflict dictionary.
- Debit and credit totals are summed per category and per unknown description.

**The race pace calculator (`race-pace.rb`).**
- `secs_to_mm` formats seconds as `M:SS`.
- The target time is given as `MM`, `MM:SS` or `HH:MM:SS` and decoded into seconds with
  Ruby's `split(':')` and `to_i`.
- A distance or time below one is rejected.
- The unit is taken from the letters after the distance, and defaults to `"mile"`.
- The split table gives the cumulative target time `pace * i` for each whole unit
  `i` from 1 to `floor(dist)`.

Modules:

- `Wrappers`: `Option` and `Result`.
- `Text`:
  - ASCII lower-casing;
  - Python's `in` on strings;
  - splitting on a separator and joining back;
  - decimal digit strings, numerals and left padding.
- `Statement`:
  - dates and `%d/%m/%Y` parsing;
  - exact decimal amounts;
  - rows;
  - `parse_lloyds_statement`, as a method with a loop.
- `Categories`: `Category`, `matches` and `parse_categories`. `parse_categories` is a method
  with a loop.
- `Aggregate`:
  - dictionaries of transaction lists, built as the source builds them (`if not k in d:
    d[k] = []` then `append`);
  - debit and credit totals;
  - the partition and conservation lemmas;
  - the out and in figures of a total.
- `Classify`:
  - the classification loop of the main block, as a method that fills three dictionaries;
  - the functions that specify those dictionaries;
  - the lemmas about them.
- `RacePace`: the race pace calculator.

Points about the program's behaviour that the model keeps:

- **Day and month digits.** The date field is read with `strptime("%d/%m/%Y")`, which takes
  a day and a month of one or two digits and a four-digit year.
- **Conflict values.** The conflict dictionary holds the matched `Category` values. Only
  their names are printed.
- **What the unknown dictionary keeps.** It keeps only the descriptions that matched no
  category. A declared category that is itself called `"Unknown"` shares the `"Unknown"`
  group with the unmatched transactions, but its transactions are not in the unknown
  dictionary. The lemmas relating the two therefore require that no category is so named
  (`Classify.NoCategoryNamedUnknown`).
- **Errors.** The program raises exceptions (`StopIteration`, `Exception`, `ValueError`,
  `InvalidOperation`). The model returns them as `StatementError` values, naming the first
  failing row and why it failed.

## Model

| member | source | states |
|---|---|---|
| Statement.ParseLloydsStatement | categorize-transactions.py:47-81 | An empty file is `MissingHeader`. Any header other than the eight expected column names, in order, is `HeaderMismatch` and yields no transactions. Otherwise the result is one transaction per data row, in file order, of length rows−1, with the i-th equal to the parse of row i+1. Under the expected header, any failure is `BadRow` at the first row that does not parse, with that row's own error. |
| Statement.ParseRow | categorize-transactions.py:62-79 | A row parses iff it has exactly 8 fields, a valid date and two readable amounts. Fewer or more fields give `WrongFieldCount`; otherwise an unreadable date gives `BadDate`, then an unreadable debit or credit gives `BadAmount` for that field, in that order. The transaction's date is the date parsed from field 0 (a valid calendar date), its description is field 4, and its debit and credit are read independently from fields 5 and 6. |
| Statement.DecodeDecimal | categorize-transactions.py:77-78 | An empty text is not a number. A value is negative only when the text starts with `-`, and a text starting with `-` never gives a positive value. DecodeWholeAmount, DecodePoundsAndPence and DecodeFraction give the exact values read back. |
| Statement.AmountField | categorize-transactions.py:77-78 | An empty amount field is zero; a non-empty one is its decimal value (or an error). |
| Statement.ParseWrittenRow | categorize-transactions.py:62-79 | A row written from a valid date, a description and a debit in pence, with the credit field left empty, reads back as exactly that transaction with a zero credit, whatever the other four fields hold. |
| Statement.ParseDate | categorize-transactions.py:73 | A parsed date is a real calendar date (leap years included, year 1 to 9999). |
| Statement.ParseFormattedDate | categorize-transactions.py:73 | Every valid date is read back from its `DD/MM/YYYY` text. |
| Statement.DecodeWholeAmount | categorize-transactions.py:77-78 | A whole-number amount is read back exactly. |
| Statement.DecodePoundsAndPence | categorize-transactions.py:77-78 | An amount written as pounds, a point and two pence digits is read back as exactly pounds + pence/100, with no rounding. |
| Statement.DecodeFraction | categorize-transactions.py:77-78 | A numeral `whole.frac` decodes to the exact value of its digits. |
| Categories.NewCategory | categorize-transactions.py:25-27 | The category keeps its name, and the same number of patterns in the same order, each the lower-cased pattern given. |
| Categories.NewCategoryIsIdempotent | categorize-transactions.py:27 | Building a category again from a built one changes nothing: the patterns are lower-cased once and for all. |
| Categories.AnyPatternIn | categorize-transactions.py:31 | True iff some pattern of the list occurs in the text. |
| Categories.Matches | categorize-transactions.py:29-31 | A category matches iff one of its stored patterns occurs somewhere in the lower-cased description. |
| Categories.MatchesIgnoresCase | categorize-transactions.py:29-31 | Descriptions equal up to letter case match the same categories. |
| Categories.NewCategoryIgnoresPatternCase | categorize-transactions.py:25-31 | Patterns equal up to letter case give categories that match the same transactions. |
| Categories.MatchesAnySubstring | categorize-transactions.py:29-31 | A pattern occurring anywhere inside the lower-cased description, not only as a word, makes the category match. |
| Categories.ParseCategories | categorize-transactions.py:84-93 | One category per definition, in declaration order, each built from that definition's name and patterns. |
| Text.Contains | categorize-transactions.py:31 | `pat in text` holds iff `pat` occurs at some index of `text`. |
| Text.Lower | categorize-transactions.py:27-30 | The lower-cased text has the same length, and each character is that character lower-cased. |
| Text.LowerIsIdempotent | categorize-transactions.py:27-30 | Lower-casing leaves no upper-case letter; lower-casing twice is lower-casing once. |
| Classify.MatchingCategories | categorize-transactions.py:111 | The match list holds exactly the declared categories that match the transaction, and is no longer than the rule list. |
| Classify.MatchingConcat | categorize-transactions.py:111 | The match list of a concatenation of rule lists is the match list of the first part followed by that of the second, so the list keeps declaration order and holds each matching rule once per declaration. |
| Classify.FirstMatchHeadsList | categorize-transactions.py:111-121 | When category k is the first-declared match, the match list is non-empty and starts with category k. |
| Classify.SomeFirstMatch | categorize-transactions.py:111-116 | The match list is empty iff no category matches; when it is not, some category is the first to match. |
| Classify.MatchingDependsOnDescription | categorize-transactions.py:111-113 | Two transactions whose descriptions agree up to case have the same match list, in the same order. |
| Classify.ResolvedName | categorize-transactions.py:115-121 | A name other than "Unknown" is the name of a declared category that matches the transaction. |
| Classify.ResolvedNameIsFirstMatch | categorize-transactions.py:115-121 | A transaction that matches nothing is filed under "Unknown". Otherwise it is filed under the name of the first-declared matching category, even when several match. |
| Classify.ClassifyTransactions | categorize-transactions.py:106-125 | The loop leaves the category dictionary equal to the transactions grouped by resolved name, in order. The unknown dictionary holds the unmatched transactions grouped by description. The conflict dictionary maps each multi-match description to its match list. |
| Classify.FiledUnderResolvedName | categorize-transactions.py:115-125 | A transaction is in the group under a name iff it is one of the transactions and that name is its resolved name, so it is in exactly one group. Neither the unknown nor the conflict dictionary plays a part. |
| Classify.CategoryPartition | categorize-transactions.py:123-125 | Listing each key of the category dictionary once, its groups together hold exactly the statement's transactions, each as often as it occurs (multiset equality). |
| Classify.CategoryTotalsAddUp | categorize-transactions.py:155-160 | The per-category debit totals add up exactly to the statement's total debit, and the same holds for credits. |
| Classify.ResolvedUnknown | categorize-transactions.py:115-121 | Without a category named "Unknown", a transaction is filed under "Unknown" iff nothing matches it. |
| Classify.UnknownBucketIsUnmatched | categorize-transactions.py:115-125 | Without a category named "Unknown", the "Unknown" group is exactly the unmatched transactions, in statement order. |
| Classify.UnknownBucketMatchesUnknownMap | categorize-transactions.py:115-125 | Without a category named "Unknown", the "Unknown" group and the unknown dictionary hold the same transactions. |
| Classify.UnknownDescriptions | categorize-transactions.py:115-119 | A description is a key of the unknown dictionary iff some transaction with it matched nothing. Its list is exactly those transactions. |
| Classify.UnknownTotalsAddUp | categorize-transactions.py:140-143 | The per-description unknown totals add up to the totals of the unmatched transactions. |
| Classify.ConflictKeysSound | categorize-transactions.py:112-113 | Every key of the conflict dictionary comes from a transaction with that description and more than one match, and holds that transaction's match list. |
| Classify.ConflictKeysComplete | categorize-transactions.py:112-113 | The description of every transaction with more than one match is a key of the conflict dictionary. |
| Classify.ConflictDescriptions | categorize-transactions.py:111-113 | A description is a conflict key iff some transaction with it matched more than one category. Its value is the full match list of every transaction with that description, so it does not matter which one was written last. |
| Classify.ConflictResolvesToHead | categorize-transactions.py:111-125 | A conflict's match list has more than one category. Every transaction with that description is filed under the first category of the list. |
| Aggregate.Append | categorize-transactions.py:123-125 | Filing a transaction under a key adds that key, puts the transaction at the end of the key's list (a new list if the key was absent), and leaves every other key's list unchanged. |
| Aggregate.Group | categorize-transactions.py:123-125 | Every list in the dictionary is non-empty, and the key of the last transaction filed is present. |
| Aggregate.GroupIsSelect | categorize-transactions.py:123-125 | Filing entries one at a time yields a dictionary that has a key iff some entry carries it. The list under each key is exactly the transactions filed under it, in order. |
| Aggregate.SelectMembers | categorize-transactions.py:123-125 | A transaction is in the selection under a key iff it was filed under that key. |
| Aggregate.GroupedPartition | categorize-transactions.py:123-125 | Listing every key once, the groups of a dictionary built by filing hold exactly the filed transactions (multiset equality). |
| Aggregate.GroupedTotalsAddUp | categorize-transactions.py:155-160 | Listing every key once, the group totals add up to the total of all filed transactions. |
| Aggregate.TotalConcat | categorize-transactions.py:159-160 | Debit and credit totals add up over a concatenation. |
| Aggregate.TotalBounds | categorize-transactions.py:142-143 | When no amount is negative, the debit and credit totals are not negative, and each amount is at most the total it is part of. |
| Aggregate.Figures | categorize-transactions.py:162-166 | "out" is reported iff the debit total is positive, and "in" iff the credit total is positive. Nothing else is reported, each figure at most once, and "out" comes before "in". |
| RacePace.SecsToMm | race-pace.rb:18-22 | For every whole number of seconds, the text ends with a colon and exactly two digits worth s mod 60. |
| RacePace.SecsToMmFields | race-pace.rb:18-22 | For s ≥ 0, the text before the colon is the plain numeral of s div 60. |
| RacePace.SecsToMmRoundTrip | race-pace.rb:18-49 | Decoding `secs_to_mm(s)` as an `MM:SS` time gives back minutes s div 60, seconds s mod 60, and s seconds in total. |
| RacePace.ToI | race-pace.rb:38 | A text that starts with neither a sign nor a digit reads as 0. A negative value comes only from a text starting with `-`. |
| RacePace.ToIOfDigits | race-pace.rb:38 | `to_i` reads a run of digits as its value, whatever non-digit follows. |
| RacePace.ToIOfNumeral | race-pace.rb:38 | `to_i` reads back a numeral, zero-padded or not. |
| RacePace.DropTrailingEmpty | race-pace.rb:38 | Ruby's `split` result is a prefix of the fields that does not end with an empty field, and only empty fields were dropped. |
| RacePace.RubySplit | race-pace.rb:38 | No field contains the separator, the last field is never empty, and the empty text has no fields. |
| RacePace.RubySplitJoin | race-pace.rb:38 | Splitting a join of separator-free fields whose last field is not empty gives back the fields. |
| RacePace.TimeParts | race-pace.rb:38 | One integer per field of the time argument, each the `to_i` of that field. |
| RacePace.DecodeTime | race-pace.rb:37-46 | One field is minutes; two are minutes and seconds; three are hours, minutes and seconds. Any other count leaves all three at zero. |
| RacePace.TimeInSeconds | race-pace.rb:49 | With minutes and seconds below 60, the seconds, minutes and hours are recovered from the total as its remainder by 60, its quotient by 60 taken modulo 60, and its quotient by 3600. |
| RacePace.DecodeHoursMinutesSeconds | race-pace.rb:37-49 | `HH:MM:SS` decodes to those hours, minutes and seconds, and to 3600·HH + 60·MM + SS seconds. |
| RacePace.DecodeMinutes | race-pace.rb:37-49 | A single field is minutes: `MM` is 60·MM seconds. |
| RacePace.WrongPartCountRejected | race-pace.rb:37-54 | A time argument with no field or with four or more decodes to 0:0:0 and is always rejected. |
| RacePace.Accepts | race-pace.rb:51-54 | The run goes on iff the distance is at least 1 and the time is at least 1 second. |
| RacePace.MatchDistance | race-pace.rb:29-33 | No match iff the argument has no digit or dot. |
| RacePace.MatchIsLeftmostLongest | race-pace.rb:29 | The match starts at the first digit or dot; every character before it is neither. Its number is the longest run of digits and dots there. Its unit is the longest run of lower-case letters directly after the number, and there is no unit when that run is empty. |
| RacePace.MatchIsWellFormed | race-pace.rb:29 | A match has a non-empty number of digits and dots, and a unit, when present, of one or more lower-case letters. |
| RacePace.DistUnit | race-pace.rb:35 | A match without a unit gives "mile". The unit of a well-formed match is a non-empty word of lower-case letters. |
| RacePace.DefaultUnitIsMile | race-pace.rb:35 | A distance with no letters after it is matched whole and its unit is "mile". |
| RacePace.ExplicitUnit | race-pace.rb:29-35 | Lower-case letters right after the distance are its unit. |
| RacePace.DetachedUnitIsMile | race-pace.rb:29-35 | Letters that do not directly follow the number, or are not lower case (as in `10 km` or `10K`), are not a unit, and the distance is in miles. |
| RacePace.Splits | race-pace.rb:57-64 | Exactly floor(dist) splits (none below 1). Split i is pace·i. Consecutive splits differ by exactly pace, and for pace ≥ 1 they strictly increase. |

## Left out

- Input and output:
  - the command line (`ArgumentParser`, `OptionParser`, the `ARGV` count check);
  - opening files, `csv.reader` quoting, `json.load`;
  - every `print`, `puts` and `$stderr` line, and `exit`.

  The model starts from rows already split into fields, and from category definitions as
  (name, patterns) pairs.
- Category definition shape: a JSON entry without a `"category"` or `"description"` key
  (a `KeyError` in the source) is not modelled. `CategoryDef` always has both.
- Report order and layout: the reports walk `sorted(...)` keys and format lines. The
  partition and conservation lemmas hold for any listing of the keys without repetition,
  which includes the sorted one.
- Float steps: `dist.to_f` and the pace `(time_in_s / dist).ceil` are floating point. The
  pace is an integer input, and the distance a real whose floor is taken. Float rounding is
  not modelled.
- The split lines' text (`i.to_s.rjust(2)` followed by `secs_to_mm`) is output and is not
  modelled.
- Statement.ParseDate: `strptime` also accepts a space-padded day (`" 1"`). That form is not
  modelled.
- Statement.DecodeDecimal: Python's `Decimal` also accepts exponents, `NaN`, `Infinity`,
  surrounding whitespace and digit-separating underscores. Only an optional sign, digits
  and an optional fractional part are modelled.
- Text.Lower: only ASCII letters are lower-cased. Unicode case mapping is not modelled.
- RacePace.ToI: Ruby's `to_i` also skips leading whitespace and accepts underscores between
  digits. Neither is modelled.
- RacePace.SecsToMmFields: stated for non-negative seconds only. Negative seconds never
  reach `secs_to_mm` once the validity check has passed.
- RacePace.SecsToMmRoundTrip: stated for non-negative seconds only, for the same reason.
- Classify.UnknownBucketIsUnmatched: requires that no declared category is named "Unknown". Such
  a category would share the "Unknown" group with the unmatched transactions, while the
  unknown dictionary keeps only the unmatched ones.
- Aggregate.Total: Python's `sum` over `Decimal` values rounds each addition to the default
  context's 28 significant digits. The model adds exactly, so the conservation lemmas
  (`Aggregate.GroupedTotalsAddUp`, `Classify.CategoryTotalsAddUp`,
  `Classify.UnknownTotalsAddUp`) hold in the model, and in the program only while totals stay
  within 28 significant digits.
