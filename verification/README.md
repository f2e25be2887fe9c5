# Chinese citizen identification numbers: a Dafny model of `IDCard`

This project models the `IDCard` class of a PHP library that checks 18-character
Chinese citizen identification numbers. A number is 17 digits followed by a check
character. The class decides whether the number is valid. It reads the 6-digit
administrative region code (GB/T 2260) at the start of the number. It looks that
code up in a table of region names, and it compares the whole number with a list
of known fabricated numbers. The model has three modules:

- `Checksum` (`checksum.dfy`) models `checkIdNumber`. It covers the format rule
  `^\d{17}[0-9X]$` and the GB 11643-1999 check character: weights
  7,9,10,5,8,4,2,1,6,3,7,9,10,5,8,4,2, remainder modulo 11, table `1,0,X,9,8,7,6,5,4,3,2`.
  The rule is also stated independently as ISO 7064 MOD 11-2, and the two are
  proved equal. It also proves that the check character is unique, and that
  every single-digit substitution and every swap of two different neighbouring
  digits is detected, including a swap of the last body digit with a digit check
  character: `Checksum.SingleSubstitutionDetected` shows that replacing any one of
  the first 17 digits of a valid number always makes it invalid.
- `Region` (`region.dfy`) models `isRegionExists` and `transformRegionName`. The
  first does an exact lookup, returns false at once when the province pseudo-code
  `PP0000` is missing, and otherwise probes the suffixes `0`..`8`. The second
  composes the name `"{province} {prefecture }{region}"` and uses `未知`
  ("unknown") as the default. The region table is a `map<string, string>`
  parameter.
- `IdCards` (`idcard.dfy`) models the facade. `IdCard` is a card whose `isValid`
  flag is fixed by the checksum rule at construction. Each gated accessor returns
  `Result`. It is `Err(InvalidIdNumber(number))` on an invalid card, where the
  source throws `InvalidIDNumberException`. The list of fabricated numbers is a
  `seq<string>` parameter.

PHP's `substr($s, 0, n)` becomes `Region.Prefix`, which returns all of `s` when
`s` is shorter than `n`. The region functions therefore take any string. The
characterisation lemmas assume a six-character code.

## Model

| member | source | states |
|---|---|---|
| `Checksum.CheckIdNumber` | src/IDCard.php:85-99 | an accepted number is exactly 18 characters: 17 ASCII digits and a check character in `[0-9X]` (corrected format rule, see Findings) |
| `Checksum.CheckIdNumberIsIso7064` | src/IDCard.php:85-99 | the weighted-sum-and-table rule accepts exactly the numbers whose ISO 7064 MOD 11-2 total is 1 modulo 11; each position weighs 2^(17-i) and `X` counts as 10 |
| `Checksum.WeightsArePowersOfTwo` | src/IDCard.php:90 | each of the 17 weights is 2^(17-i) modulo 11 |
| `Checksum.WeightedSumOfPrefix` | src/IDCard.php:92-95 | the checksum depends only on the first 17 digits |
| `Checksum.UniqueCheckChar` | src/IDCard.php:90-98 | for every 17-digit body, exactly one appended character gives a valid number, and that character is in `[0-9X]` |
| `Checksum.ChangedCheckCharInvalid` | src/IDCard.php:96-98 | changing only the check character of a valid number makes it invalid |
| `Checksum.TestVector` | src/IDCard.php:85-99 | `11010519491231002X` is valid, and the same body with any other last character is not |
| `Checksum.SingleSubstitutionDetected` | src/IDCard.php:90-98 | replacing any one of the first 17 digits of a valid number with another digit makes it invalid |
| `Checksum.AdjacentTranspositionDetected` | src/IDCard.php:90-98 | swapping two different neighbouring digits among the first 17 of a valid number makes it invalid |
| `Checksum.SwapWithCheckCharDetected` | src/IDCard.php:90-98 | swapping the 17th digit with a different digit check character of a valid number makes it invalid |
| `Checksum.CheckIdNumberAsWritten` | src/IDCard.php:87-98 | the check as PHP evaluates it accepts only 18 characters, or 19 characters ending in a newline |
| `Checksum.AsWrittenAdmitsTrailingNewline` | src/IDCard.php:87-88 | the as-written check accepts exactly the valid numbers plus the valid numbers followed by one `\n` |
| `Checksum.NewlineSuffixCounterexample` | src/IDCard.php:87 | `"11010519491231002X\n"` passes the check as written, but it is not a valid 18-character number |
| `Region.ProbeCounties` | src/IDCard.php:53-58 | the probe loop finds a key exactly when some suffix digit from the start value up to 8 gives a key in the table |
| `Region.IsRegionExists` | src/IDCard.php:44-61 | an exact key exists; otherwise a missing `PP0000` means the code does not exist; otherwise the code exists iff some `prefix5 + d`, d in 0..8, is a key |
| `Region.RegionExistsCharacterization` | src/IDCard.php:44-61 | for a six-character code, existence means an exact hit, or a known province plus a six-character key that shares the first five characters and ends in `0`..`8` (both directions) |
| `Region.NineNeverProbed` | src/IDCard.php:54 | a missing code whose only table relatives with the same first five characters end in `9` does not exist |
| `Region.RegionExistsMonotone` | src/IDCard.php:47-60 | adding keys to the table never turns an existing code into a non-existent one |
| `Region.UnknownProvinceHasNoRegions` | src/IDCard.php:49-50 | when a province pseudo-code is missing, no code under that province exists unless it is itself a key |
| `Region.TransformRegionName` | src/IDCard.php:71-80 | the name starts with the province name (or `未知`) and a space, and ends with the region name (or `未知`) |
| `Region.RegionNameSplitsIntoLevels` | src/IDCard.php:74-79 | when no name contains a space, splitting the composed name at its spaces gives back province, prefecture (only if present) and region, in that order |
| `Region.UnknownCodeName` | src/IDCard.php:76-79 | a code with none of its three levels in the table is named `未知 未知` |
| `Region.AllZeroCode` | src/IDCard.php:44-80 | if the table lacks `000000`, that code does not exist and is named `未知 未知` |
| `Region.ProvinceCodeNameRepeats` | src/IDCard.php:74-79 | a province-level code `PP0000` is also its own prefecture code, so its name repeats the province name three times |
| `IdCards.NewIdCard` | src/IDCard.php:104-108 | construction never fails, keeps the number, and sets validity to the ISO 7064 MOD 11-2 verdict |
| `IdCards.IsValid` | src/IDCard.php:115-118 | the stored flag holds exactly for ISO 7064 valid 18-character numbers |
| `IdCards.IdNumberRoundTrip` | src/IDCard.php:133-136 | `GetIdNumber` (`getIdNumber`) returns the constructor's argument unchanged |
| `IdCards.MustValid` | src/IDCard.php:123-128 | the gate passes exactly on a valid card, and otherwise yields the error carrying the number |
| `IdCards.GetRegionCode` | src/IDCard.php:144-148 | succeeds exactly on valid cards, with six ASCII digits that start the number; otherwise the invalid-number error |
| `IdCards.GetRegionName` | src/IDCard.php:156-159 | succeeds exactly on valid cards, with the composed name of the first six characters |
| `IdCards.IsFakeRegion` | src/IDCard.php:167-170 | succeeds exactly on valid cards, and is true iff the region code does not exist in the table |
| `IdCards.GetBirthday` | src/IDCard.php:178-182 | succeeds exactly on valid cards, with the characters at positions 6 to 13 of the number, which are eight digits |
| `IdCards.IsFakeIdNumber` | src/IDCard.php:190-195 | succeeds exactly on valid cards, and is true iff some list entry equals the whole number |
| `IdCards.InvalidCardGated` | src/IDCard.php:123-195 | on an invalid card, all five gated accessors yield the same invalid-number error, whatever the tables |
| `IdCards.FieldsReassemble` | src/IDCard.php:144-182 | region code, birthday field and the remaining characters put back together give the number |
| `IdCards.FakeIdNumberIgnoresOrderAndDuplicates` | src/IDCard.php:194 | the fake flag depends only on which numbers the list holds, not on their order or repetitions |
| `IdCards.FakeIdNumberListEdits` | src/IDCard.php:190-195 | appending a valid card's number to the list makes it fake, and removing every copy of it makes it genuine |
| `IdCards.TestVectorCard` | src/IDCard.php:104-182 | `11010519491231002X` is valid, has region `110105` and birthday field `19491231`, and is not a fake region under a table listing `110105` |

## Left out

- Lazy loading of `region_names.php` and `fake_id_numbers.php` into static arrays (src/IDCard.php:23-35) is file I/O and process-wide caching. The table and the list are immutable parameters instead.
- IdCards.GetBirthday: it returns the `YYYYMMDD` field and not a Unix timestamp. PHP's lenient `strtotime` parser is a foreign call and is not modelled. A valid checksum does not mean the field is a real calendar date.
- The exception message text and the `Exception` subclass (src/IDCard.php:198-204) become the single error `InvalidIdNumber(number)`.
- The memo fields `is_fake_region` and `region_name` (src/IDCard.php:19-21) are never used by the source and are not modelled.
- `examples/index.php` is a driver script that prints results. It has no logic of its own.
- IdCards.IsFakeIdNumber: it models exact membership, but `in_array` compares loosely. For two digit strings of length 18, PHP's numeric comparison agrees with exact equality. List entries of other shapes could still compare equal under PHP rules, for example with leading whitespace. Those entries are not modelled.
- `Region.Prefix` counts characters, while PHP's `substr` counts bytes. The two agree on the ASCII codes that index the table.
- IdCards.NewIdCard: validity follows the 18-character length that GB 11643-1999 fixes, not the PHP pattern, which also admits one trailing newline. For `"11010519491231002X\n"` the PHP constructor (src/IDCard.php:104-108) sets `is_valid` to true, while `NewIdCard` sets it to false. The code as written is kept as `Checksum.CheckIdNumberAsWritten` (see Findings).
- IdCards.IsValid: for the same reason it is false on a valid number followed by one newline, where the PHP `isValid()` returns true.

## Findings

| source | as written | input that shows it | evidently intended | confidence | as-written member | corrected member |
|---|---|---|---|---|---|---|
| src/IDCard.php:87 | `preg_match('/^\d{17}[0-9X]$/', …)` without the `D` modifier, so `$` also matches before one final newline, and the checksum is then read from characters 0..17 | `"11010519491231002X\n"` (19 characters) is accepted as valid | only 18-character numbers are valid | high; not executed | `Checksum.NewlineSuffixCounterexample` | `Checksum.CheckIdNumber` |
