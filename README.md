# Roman numeral converter: conversion engine, cache and handlers

This project models the back end of a Roman numeral converter web service in
Dafny and proves properties of the model.

The service has three layers:

- **The conversion engine** (`conversionService.ts`):
  - `arabicToRoman` writes a number in 1..3999 as a numeral by greedy
    subtraction over a 13-row value/symbol table.
  - `romanToArabic` first checks the case-insensitive pattern
    `^M{0,3}(CM|CD|D?C{0,3})(XC|XL|L?X{0,3})(IX|IV|V?I{0,3})$`. It then scans
    the upper-cased numeral from left to right. A symbol followed by a larger
    one adds the difference; any other symbol adds its own value.
  - Two validators, `isValidNumber` and `isValidRoman`.
- **The cache** (`dbService.ts`): a collection of conversion records with a
  unique index on (input value, type). It offers a point lookup, an insert
  that tolerates a duplicate key, a listing newest first and a bulk delete.
- **The handlers** (`conversionController.ts`): `GET /roman/:inputValue`,
  `GET /arabic/:inputValue`, `GET /all` and `DELETE /remove`.

Files:

- `results.dfy` — `Option` and `Result`.
- `js_numbers.dfy` — the part of JavaScript's `Number(s)` the validator relies
  on, and the decimal text of a count.
- `roman_numerals.dfy` — the Roman notation:
  - symbol values and the digit groups of the pattern;
  - the language the pattern accepts (`InPatternLanguage`) and a
    deterministic matcher proved to decide it (`ParseNumeral`);
  - the left-to-right scan (`ScanValue`);
  - the greedy table and its result (`Table`, `Greedy`).
- `conversion_service.dfy` — the engine:
  - the converters are methods with the source's loops, proved against
    `ToRoman` and `ToArabic`;
  - the round trip, canonical form, range and case-insensitivity lemmas;
  - worked examples.
- `conversion_model.dfy` — the stored record and its unique key.
- `db_service.dfy` — the store as a class whose `records` and `clock` fields
  the operations update.
- `conversion_controller.dfy` — the handlers as methods of a `Controller` that
  holds the store. Its invariant says every cached answer is the correct
  conversion of its key.

Every storage call in the source can succeed or throw. The model gives this
outcome to each store operation as an argument of type `StorageCall`, so both
the success and the failure paths are stated and proved.

The cache is keyed by input *and* direction. So `GET /arabic/X` after
`GET /roman/10` is a miss that stores a second record. It is not answered from
the record `10 → X`: the lookup key carries the direction
(`backend/src/controllers/conversionController.ts:74-77`), and the route test
expects `cached: false` for `/arabic/X`
(`backend/src/routes/__tests__/conversionRoutes.test.ts:105-113`).
`ExampleSession` proves this.

## Model

| member | source | states |
|---|---|---|
| ConversionService.ArabicToRoman | backend/src/services/conversionService.ts:4-26 | Fails exactly outside 1..3999 with the range message; otherwise the greedy loop's output equals `Roman(num)`, the canonical numeral (loop invariant against `Greedy`). |
| ConversionService.RomanToArabic | backend/src/services/conversionService.ts:29-56 | Fails exactly when the pattern rejects the input; otherwise the scan loop's sum equals the value of the matched digit groups (`ToArabic`). |
| ConversionService.IsValidRomanExact | backend/src/services/conversionService.ts:63-67 | The validator accepts a string exactly when its upper-case form is in the pattern's language. |
| ConversionService.NumericValue | backend/src/controllers/conversionController.ts:32 | `Number(inputValue)` for an input the number validator accepts: the number the text denotes, which lies in 1..3999. |
| ConversionService.IsValidNumber | backend/src/services/conversionService.ts:58-61 | An input is valid when it reads as a number (not NaN) greater than 0 and at most 3999. |
| ConversionService.IsValidRoman | backend/src/services/conversionService.ts:63-67 | An input is valid when the matcher accepts its upper-cased form, i.e. the case-insensitive pattern matches (see `IsValidRomanExact`). |
| ConversionService.DecimalIsValidNumber | backend/src/services/conversionService.ts:58-61 | The decimal text of a count passes the number validator exactly when the count is in 1..3999. |
| ConversionService.ValueIsScan | backend/src/services/conversionService.ts:40-55 | For accepted input, the left-to-right scan of the upper-cased input computes the value of the matched digit groups. |
| ConversionService.RoundTrip | backend/src/services/conversionService.ts:4-56 | Every n in 1..3999 converts to a numeral the validator accepts and that converts back to n. |
| ConversionService.CanonicalForm | backend/src/services/conversionService.ts:35-55 | Every non-empty accepted numeral, upper-cased, is the numeral `arabicToRoman` writes for its value. |
| ConversionService.ArabicRange | backend/src/services/conversionService.ts:35-55 | Accepted numerals convert to 0..3999, and to 0 exactly when the input is empty. |
| ConversionService.CaseInsensitive | backend/src/services/conversionService.ts:35-41 | Upper-casing the input changes neither the verdict of the validator nor the converted value. |
| ConversionService.RejectsFourOnes | backend/src/services/conversionService.ts:35-38 | `IIII` is refused with the invalid-numeral message. |
| ConversionService.RejectsRepeatedFive | backend/src/services/conversionService.ts:35-38 | `VV` is refused. |
| ConversionService.RejectsWideSubtraction | backend/src/services/conversionService.ts:35-38 | `IC` is refused. |
| ConversionService.RejectsFourThousands | backend/src/services/conversionService.ts:35-38 | `MMMM` is refused. |
| ConversionService.RejectsForeignLetters | backend/src/services/conversionService.ts:35-38 | `XYZ` is refused. |
| ConversionService.LargestNumber | backend/src/services/conversionService.ts:5-23 | 0 and 4000 are refused with the range message; 3999 is `MMMCMXCIX`. |
| ConversionService.LowerCaseAndEmpty | backend/src/services/conversionService.ts:35-55 | `mcmxcix` converts to 1999; the empty string passes the pattern and converts to 0. |
| RomanNumerals.ParseNumeral | backend/src/services/conversionService.ts:35 | A match of the pattern yields four in-range digits whose groups spell exactly the input. |
| RomanNumerals.ParseNumeralExact | backend/src/services/conversionService.ts:35 | The matcher succeeds exactly on the strings in the pattern's language. |
| RomanNumerals.ParseNumeralComplete | backend/src/services/conversionService.ts:35 | The matcher recovers the digits from every spelling of in-range digits. |
| RomanNumerals.ParseGroup | backend/src/services/conversionService.ts:35 | One group of the pattern (hundreds, tens or units) matched as a prefix: a digit at most 9 whose spelling plus the rest is the input. |
| RomanNumerals.LeadingRun | backend/src/services/conversionService.ts:35 | `c{0,max}` matched greedily: the longest run of `c` of at most `max` copies at the start of the input. |
| RomanNumerals.NumeralInjective | backend/src/services/conversionService.ts:35 | Different in-range digits have different spellings, so the match is unique. |
| RomanNumerals.DigitsOf | backend/src/services/conversionService.ts:5-7 | Every number in 0..3999 has in-range decimal digits of that value. |
| RomanNumerals.DigitsUnique | backend/src/services/conversionService.ts:5-7 | Those digits are unique. |
| RomanNumerals.EmptyNumeral | backend/src/services/conversionService.ts:35 | The only empty spelling is that of the digits of 0. |
| RomanNumerals.SymbolValue | backend/src/services/conversionService.ts:30-32 | The symbol table: I=1, V=5, X=10, L=50, C=100, D=500, M=1000; any other character has no entry (0, falsy, as `undefined` is in the source's `next &&` test). |
| RomanNumerals.Upper | backend/src/services/conversionService.ts:35-41 | `toUpperCase`, and the case folding of the `/i` flag, on a–z; every other character is kept. |
| RomanNumerals.ScanValue | backend/src/services/conversionService.ts:40-53 | The value the scan loop sums over a string: a symbol followed by a larger one contributes the difference and both are consumed, otherwise the symbol's own value. |
| RomanNumerals.ScanStep | backend/src/services/conversionService.ts:43-52 | One unfolding of `ScanValue`, used as the loop's step: a pair with a larger right symbol adds the difference and skips both, otherwise the symbol's own value is added. |
| RomanNumerals.ScanNumeral | backend/src/services/conversionService.ts:40-53 | The scan of any spelled numeral is the value of its digits, and all its symbols have values in 1..1000. |
| RomanNumerals.ScanConcat | backend/src/services/conversionService.ts:43-52 | The scan is additive across a boundary where the left symbol is not smaller than the right one. |
| RomanNumerals.ScanGroup | backend/src/services/conversionService.ts:43-52 | The scan of one group spelling digit d is d times the group's unit. |
| RomanNumerals.UpperOfSymbols | backend/src/services/conversionService.ts:41 | Upper-casing leaves a string of Roman symbols unchanged. |
| RomanNumerals.Greedy | backend/src/services/conversionService.ts:15-23 | The string the two nested loops append from table row `i` on with `rem` left: the row's symbol while `rem` covers its value, then the next row. |
| RomanNumerals.GreedyTake | backend/src/services/conversionService.ts:19-22 | One unfolding of `Greedy`, used as the inner loop's step: while the remainder covers the row's value, the greedy result starts with the row's symbol. |
| RomanNumerals.GreedySkip | backend/src/services/conversionService.ts:18-19 | One unfolding of `Greedy`, used at the inner loop's exit: once the remainder is below the row's value, the greedy loop moves to the next row. |
| RomanNumerals.GreedyGroup | backend/src/services/conversionService.ts:9-23 | Four table rows of one rank write digit d as that rank's group of the pattern. |
| RomanNumerals.GreedyIsRoman | backend/src/services/conversionService.ts:9-23 | The greedy subtraction over the 13-row table writes every n in 0..3999 as its canonical numeral. |
| RomanNumerals.TableRows | backend/src/services/conversionService.ts:9-13 | A fact about the constant `Table`, used by the greedy proofs: it has 13 rows: `M`, then the CM/D/CD/C, XC/L/XL/X and IX/V/IV/I rows of each rank. |
| JsNumbers.ToNumber | backend/src/services/conversionService.ts:60 | `Number(s)` on an optional sign followed by at least one decimal digit is the signed decimal value; every other string is NaN (`None`). |
| JsNumbers.FromNumber | backend/src/controllers/conversionController.ts:124 | The decimal text of a count is a non-empty run of digits with no leading zero. |
| JsNumbers.DecimalRoundTrip | backend/src/controllers/conversionController.ts:124 | The digits of a count read back as that count. |
| JsNumbers.NumberOfDecimal | backend/src/services/conversionService.ts:60 | `Number` of a count's decimal text is the count. |
| DbService.Find | backend/src/services/dbService.ts:9 | The found record is in the collection and has the key; a miss means no record has the key. |
| DbService.FindUnique | backend/src/models/Conversion.ts:22 | Under the unique index, the lookup of a record's key returns that record. |
| DbService.NewestFirst | backend/src/services/dbService.ts:41 | The listing order of `find().sort({ createdAt: -1 })`: the records, last inserted first. |
| DbService.NewestFirstReverses | backend/src/services/dbService.ts:41 | Listing newest first reverses the insertion order. |
| DbService.NewestFirstKeeps | backend/src/services/dbService.ts:41 | Listing newest first keeps every record, as often as it occurs. |
| DbService.NewestFirstOrdered | backend/src/services/dbService.ts:41 | With creation times ascending in insertion order, the listing is a permutation sorted by `createdAt` descending. |
| DbService.ConversionStore.constructor | backend/src/models/Conversion.ts:10-24 | An empty collection that satisfies the store invariant: unique keys and creation times increasing and below the clock. |
| DbService.ConversionStore.GetCachedConversion | backend/src/services/dbService.ts:4-14 | A hit returns the record with the key, and only if there is one; a storage failure reads as a miss. |
| DbService.ConversionStore.SaveConversion | backend/src/services/dbService.ts:17-36 | A new key appends one record stamped with the clock. A duplicate key returns the existing record and changes nothing. A storage failure is an error and changes nothing. The invariant is kept. |
| DbService.ConversionStore.GetAllConversions | backend/src/services/dbService.ts:39-46 | All records, as a permutation sorted newest first; a storage failure reads as an empty list. |
| DbService.ConversionStore.RemoveAllConversions | backend/src/services/dbService.ts:49-57 | Deletes every record and returns their number, or 0 if none is reported; a storage failure is an error and deletes nothing. |
| ConversionController.Controller.constructor | backend/src/controllers/conversionController.ts:9-14 | A controller over a store whose every cached answer is correct. |
| ConversionController.Controller.ConvertToRoman | backend/src/controllers/conversionController.ts:17-57 | 400 and no change on input that is not a number in range. A hit answers the cached value with `cached: true`. A miss converts, saves the record if its key is still absent, and answers `cached: false`. A failed save gives 500. Every 200 carries the canonical numeral, and cached answers stay correct. |
| ConversionController.Controller.ConvertAndSaveRoman | backend/src/controllers/conversionController.ts:45-56 | The miss path of `GET /roman`: convert, save, answer with the numeral and `cached: false`; a failed save gives 500 and no change. |
| ConversionController.Controller.ConvertToArabic | backend/src/controllers/conversionController.ts:60-103 | The same for Roman input under the upper-cased key: 400 on a numeral the pattern rejects, a hit or a miss. Every 200 carries the upper-cased numeral and its value. |
| ConversionController.Controller.ConvertAndSaveArabic | backend/src/controllers/conversionController.ts:87-102 | The miss path of `GET /arabic`: convert, save under the upper-cased numeral, answer `cached: false`; a failed save gives 500 and no change. |
| ConversionController.Controller.GetAll | backend/src/controllers/conversionController.ts:106-113 | Always 200 with every record newest first; an empty list when storage fails. |
| ConversionController.Controller.RemoveAll | backend/src/controllers/conversionController.ts:116-132 | 200 with the deleted count in the message and an empty store; 500 with `success: false` and no change when storage fails. |
| ConversionController.DeletedMessage | backend/src/controllers/conversionController.ts:124 | The message `Successfully deleted <count> records`, with the count in decimal. |
| ConversionController.CoherentAfterSave | backend/src/controllers/conversionController.ts:45-47 | Appending a correct record, or nothing, keeps every cached answer correct. |
| ConversionController.ArabicRecordCorrect | backend/src/controllers/conversionController.ts:88-93 | The record the Roman miss path saves is correct: its key is upper case and accepted, and its value converts the key. |
| ConversionController.CachedAfter | backend/src/controllers/conversionController.ts:35-47 | After a successful miss or a hit, the key is in the cache. |
| ConversionController.ConvertToRomanTwice | backend/src/controllers/conversionController.ts:35-53 | Two identical valid requests: the first is a hit exactly when the key was cached, the second is always a hit, and both carry the canonical numeral. |
| ConversionController.ConvertToArabicTwice | backend/src/controllers/conversionController.ts:73-98 | A Roman request in one case is answered from the cache the same numeral in another case filled. |
| ConversionController.TenIsX | backend/src/controllers/conversionController.ts:25-32 | `10` passes the number validator, reads as 10 and converts to `X`. |
| ConversionController.XIsTen | backend/src/controllers/conversionController.ts:68-88 | `X` passes the pattern, is its own upper case and converts to 10. |
| ConversionController.ExampleSession | backend/src/controllers/conversionController.ts:34-99 | On an empty cache, `/roman/10` answers `X` uncached, and `/arabic/X` is then a miss too and answers 10. |
| ConversionController.RefusedInput | backend/src/controllers/conversionController.ts:24-30 | `/roman/abc` is refused with 400 and leaves the cache unchanged. |

## Left out

- `Number(s)` is modelled only for an optional sign followed by decimal digits. Every other string reads as NaN. JavaScript also accepts surrounding white space, the empty string (as 0), hexadecimal, exponents and fractions. Fractions matter most: `3.5` passes `isValidNumber` in the source.
- `toUpperCase` is modelled on the letters a–z only; other Unicode case mappings are not.
- The regular expression engine is replaced by a deterministic matcher, `ParseNumeral`, proved to accept exactly the pattern's language.
- MongoDB and Mongoose are replaced by an in-memory sequence of records. The model does not include persistence, connection handling (`backend/src/index.ts` is not part of this model), indexes other than the unique key, or document ids.
- Concurrency is not modelled. Requests run one after another. A duplicate key that a concurrent insert creates between lookup and save is covered by the duplicate-key path of `SaveConversion`, but not as a real race. The same holds for the case where the duplicate path's second `findOne` would return null.
- `Date.now` becomes a logical clock that advances on every insert. Wall-clock ties and clock skew are not modelled.
- `console.error` logging is I/O and is left out.
- Routing, middleware, JSON serialisation, the HTTP server and the front end are not part of this model. `Response` carries the status code and the body's fields.
- ConversionController.Controller.ConvertAndSaveRoman: the engine's range error is handled with 500 as in the source. Validation comes first, so that branch never runs, and the contract does not mention it.
- ConversionController.Controller.ConvertAndSaveArabic: likewise, the engine's invalid-numeral error never reaches the 500 branch.
- ConversionController.Controller.GetAll: the source's 500 branch cannot be reached, because `getAllConversions` never throws. The model has no such branch.
- DbService.ConversionStore.RemoveAllConversions: `deletedCount || 0` is modelled by a flag saying whether the count is reported. A reported count is the number of records deleted.
- Records written to the collection other than through the four handlers are outside the model: the `Controller` invariant requires every stored record to be the correct conversion of its key, which holds from an empty store and is kept by every handler, whereas the source answers a cache hit with whatever the collection holds.
- Contracts with `old`, `unchanged` or `modifies` state the new store in full, but only sequentially. Aliasing between two controllers over one store is not modelled.
