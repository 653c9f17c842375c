# Access-code generator, modelled in Dafny

This project models the core of the access-code generator `code_generator.py`.
It generates a requested number of distinct five-letter access codes from a
fixed 21-letter consonant alphabet. It rejects any code that contains an entry
of a blocklist of rude fragments, and returns the accepted codes sorted.

The files:

- `text.dfy` (module `Text`): the parts of Python's `str` the generator relies on.
  These are ASCII `str.upper()`, the containment test `sub in s`, and the order
  `a < b` that `sorted` uses.
- `sorting.dfy` (module `Sorting`): `sorted` applied to a set of strings. The ghost
  function `SortedListing` is the unique strictly ascending listing of the set.
  The method `Sort` computes it by repeatedly moving the least remaining element.
- `code_generator.dfy` (module `CodeGenerator`):
  - the constants `ALPHABET`, `CODE_LENGTH` and `BLOCKED_SEQUENCES`;
  - the predicate `is_allowed` (`IsAllowed`);
  - `generate_codes`, as a specification function `Generate` built on the
    recursive loop function `Sample`, and as an imperative method
    `GenerateCodes` with a `while` loop over a mutable set, proved equal to
    `Generate`.
- `code_space.dfy` (module `CodeSpace`):
  - the ascending list of all `21 ** 5` well-formed codes, and of the allowed ones;
  - the proof that the capacity check admits counts the loop can never reach;
  - a corrected, guarded generator.

The seeded generator `random.Random(seed)` is replaced by its output: a finite
sequence of alphabet positions. Each element is one `rng.choice(ALPHABET)`, and
each candidate consumes five of them. Every result is therefore a function of
`count` and the stream, so the same seed gives the same codes. The stream is
finite, so a run that needs more draws than it holds ends in the outcome
`OutOfDraws`. This outcome stands for a loop that has not finished on the draws
given; the source has no such outcome. Whether more draws would finish it
depends on `count` and on the draws: `CodeSpace` shows counts that no stream
finishes. A `ValueError` becomes the outcome
`Failed(InvalidCount)` or `Failed(CapacityExceeded(maxCodes))`. `Message` gives
the text each error carries.

`is_allowed` upper-cases only the code, never the blocklist entries. A
lower-case entry therefore never matches anything, whatever the code
(`LowerEntryNeverMatches`), while the case of the code's own letters never
matters (`AllowedIgnoresCodeCase`).
The project's design notes describe a case-insensitive comparison in which the
entries are upper-cased too. The model follows the code. For the default
blocklist the difference does not show, because every entry is already
upper-case.

## Model

| member | source | states |
|---|---|---|
| Text.Upper | code_generator.py:30 | `code.upper()` for ASCII: a string of the same length in which each `a`-`z` becomes its upper-case letter and every other character is kept |
| Text.Occurs | code_generator.py:31 | Python's `bad in upper_code`: `bad` is a prefix of some suffix of the string, so the empty string occurs in every string |
| Text.Less | code_generator.py:52 | Python's `<` on strings, the order `sorted` uses: compare code points from the left, and a proper prefix comes before its extensions |
| CodeGenerator.Alphabet | code_generator.py:9 | `ALPHABET`: the 21 consonants "BCDFGHJKLMNPQRSTVWXYZ" |
| CodeGenerator.CodeLength | code_generator.py:10 | `CODE_LENGTH`: 5 |
| CodeGenerator.BlockedSequences | code_generator.py:13-25 | `BLOCKED_SEQUENCES`: the 11 entries of the default blocklist, as a set |
| CodeGenerator.MaxCodes | code_generator.py:40 | `max_codes = len(ALPHABET) ** CODE_LENGTH` |
| CodeGenerator.IsCode | code_generator.py:48 | a well-formed code, the shape line 48 builds: `CODE_LENGTH` characters, each a letter of `ALPHABET` |
| CodeGenerator.Pow | code_generator.py:40 | Python's `**` on natural numbers |
| CodeGenerator.IsAllowed | code_generator.py:28-31 | `is_allowed(code, blocked)`: true exactly when no entry of `blocked` occurs in the upper-cased code |
| CodeGenerator.DecimalString | code_generator.py:42 | `str(n)` for a natural number: at least one character, decimal digits only, and a leading `0` only for `n = 0` |
| CodeGenerator.DecimalStringValue | code_generator.py:42 | the digits of `DecimalString(n)` read back as a decimal number give `n`, so the error text names the bound it was built from |
| CodeGenerator.Message | code_generator.py:36-42 | the text of each `ValueError`: "count must be at least 1", or "count must be <= " followed by the bound in decimal |
| CodeGenerator.Sample | code_generator.py:45-50 | the `while` loop: while fewer than `count` codes are accepted, read the next five draws, build the candidate and add it if `is_allowed` accepts it. It ends with the accepted set and the draws used, or with the draws used when fewer than five are left |
| CodeGenerator.Generate | code_generator.py:34-52 | `generate_codes(count)`: `count < 1` fails with `InvalidCount`, then `count > 21 ** 5` fails with `CapacityExceeded`, both before any draw. Otherwise it runs the loop from the empty set and returns `sorted` of the accepted set, or `OutOfDraws` if the draws run dry first |
| CodeGenerator.MaxCodesValue | code_generator.py:9-10 | the alphabet has 21 letters and the capacity bound `len(ALPHABET) ** CODE_LENGTH` is 4084101 |
| CodeGenerator.AlphabetFacts | code_generator.py:9 | the alphabet is in strictly ascending character order (so no letter repeats) and holds no lower-case letter |
| CodeGenerator.AlphabetHasNoVowel | code_generator.py:8-9 | no letter of the alphabet is a vowel |
| CodeGenerator.IsAllowedIffNoSlice | code_generator.py:28-31 | a code is allowed exactly when no blocklist entry equals any slice of the upper-cased code |
| Text.OccursIffSlice | code_generator.py:31 | Python's `bad in upper_code` holds exactly when `bad` equals the slice of `upper_code` at some position |
| Text.MissingCharNeverOccurs | code_generator.py:31 | an entry containing a character the string lacks never occurs in it |
| Text.UpperIdempotent | code_generator.py:30 | `upper()` leaves no lower-case letter, so applying it twice changes nothing |
| Text.UpperOfUpperCase | code_generator.py:30 | a string without lower-case letters is its own upper case |
| CodeGenerator.CodeIsAllowedIff | code_generator.py:28-31 | for a well-formed code the blocklist is matched against the code itself: allowed exactly when no entry is a slice of it |
| CodeGenerator.LowerEntryNeverMatches | code_generator.py:30-31 | for every code, an entry holding a lower-case letter never occurs in the upper-cased code, so it never rejects anything |
| CodeGenerator.AllowedIgnoresCodeCase | code_generator.py:30-31 | for every code and blocklist, upper-casing the code first does not change the verdict |
| CodeGenerator.EmptyEntryBlocksEverything | code_generator.py:31 | a blocklist that contains the empty string rejects every code |
| CodeGenerator.VowelEntriesNeverMatch | code_generator.py:13-25 | on well-formed codes the default blocklist decides exactly as its six consonant-only entries do; the five entries with a vowel can never match |
| CodeGenerator.UnmatchedEntriesIrrelevant | code_generator.py:31 | adding entries that do not occur in the upper-cased code does not change the verdict |
| CodeGenerator.Candidate | code_generator.py:48 | five draws always build a well-formed code: five characters, each from the alphabet |
| CodeGenerator.CandidateOfEncode | code_generator.py:48 | every well-formed code is the candidate of the draws `Encode` gives for it |
| CodeGenerator.EncodeOfCandidate | code_generator.py:48 | the draws can be read back from the candidate, so different draws give different candidates |
| CodeGenerator.CapacityMessage | code_generator.py:40-42 | the capacity error reads "count must be <= 4084101" |
| CodeGenerator.SampleInvariant | code_generator.py:45-50 | through the loop the accepted set only grows and holds only well-formed allowed codes. A finished loop holds exactly `count` of them. The loop consumes whole blocks of five draws and never reads past the stream |
| CodeGenerator.GeneratedCodesValid | code_generator.py:45-52 | a successful call returns exactly `count` codes, strictly ascending and without repetitions, each well formed and allowed; the draws used are a multiple of five and at most the stream's length |
| CodeGenerator.ListingOfAllowed | code_generator.py:52 | sorting a set of allowed codes lists each of them once, in ascending order, and nothing else |
| CodeGenerator.GenerateIgnoresLaterDraws | code_generator.py:44-52 | a call that did not run out of draws gives the same result for every continuation of its stream, so the same seed gives the same codes |
| CodeGenerator.SampleIgnoresLaterDraws | code_generator.py:47-50 | once the loop has finished on a stream, appending further draws changes neither the accepted set nor the draws consumed |
| CodeGenerator.GenerateCodes | code_generator.py:34-52 | the method's result equals `Generate`. `count < 1` fails with `InvalidCount` and `count > 21 ** 5` fails with `CapacityExceeded`, in that order and before any draw. No count in range fails. On success the codes number `count`, are strictly ascending, well formed and allowed |
| Sorting.SortedListing | code_generator.py:52 | `sorted` of a set is strictly ascending, lists exactly the set's elements, and has as many entries as the set |
| Sorting.ListingUnique | code_generator.py:52 | two strictly ascending lists with the same elements are equal, so `sorted` of a set has a single answer |
| Sorting.Least | code_generator.py:52 | returns the least element of a non-empty set |
| Sorting.AppendLeast | code_generator.py:52 | appending the least remaining element keeps the listing ascending and below everything still to be listed |
| Sorting.Sort | code_generator.py:52 | returns exactly `SortedListing(s)` |
| Sorting.DistinctCardinality | code_generator.py:45-52 | a list without repetitions has as many distinct elements as entries |
| Text.LessIrreflexive | code_generator.py:52 | no string is smaller than itself |
| Text.LessTransitive | code_generator.py:52 | the string order is transitive |
| Text.LessTotal | code_generator.py:52 | any two different strings are ordered one way or the other |
| Text.LessAsymmetric | code_generator.py:52 | two strings are never each smaller than the other |
| CodeSpace.AllStringsMembers | code_generator.py:40 | the enumeration of length-`n` strings over `letters` holds exactly the strings of length `n` over `letters` |
| CodeSpace.AllStringsLength | code_generator.py:40 | the enumeration has `len(letters) ** n` entries |
| CodeSpace.AllStringsAscending | code_generator.py:40 | over ascending letters the enumeration is strictly ascending |
| CodeSpace.AllStringsAt | code_generator.py:40 | entry `k` of the enumeration is `k` written in base `len(letters)`, one letter per digit |
| CodeSpace.AllCodesMembers | code_generator.py:39-40 | the well-formed codes are exactly the entries of `AllCodes()` |
| CodeSpace.AllCodesAscending | code_generator.py:39-40 | `AllCodes()` is in strictly ascending order |
| CodeSpace.AllCodesSize | code_generator.py:39-40 | `AllCodes()` holds 21 ** 5 entries, all different |
| CodeSpace.CodeSetBound | code_generator.py:39-42 | no set of well-formed codes is larger than `len(ALPHABET) ** CODE_LENGTH` |
| CodeSpace.AllowedCodesFacts | code_generator.py:47-50 | `AllowedCodes()` lists each well-formed allowed code once, in ascending order, and nothing else |
| CodeSpace.CountAllowed | code_generator.py:40-41 | the corrected guard's replacement for `len(ALPHABET) ** CODE_LENGTH`: the counting loop returns exactly how many strings of the given length over the given letters the blocklist allows |
| CodeSpace.AllowedSetBound | code_generator.py:47-50 | no set of allowed codes is larger than `AllowedCount()` |
| CodeSpace.AllowedCodeExample | code_generator.py:13-25 | "BBBBB" is well formed and the default blocklist allows it |
| CodeSpace.AllowedCountPositive | code_generator.py:47-50 | at least one code is allowed, so the counts the loop can complete form a non-empty range |
| CodeSpace.BlockedCodeExample | code_generator.py:13-25 | "FKBBB" is well formed but the default blocklist rejects it |
| CodeSpace.AllowedCountBelowMax | code_generator.py:40-41 | fewer codes are allowed than the capacity bound admits |
| CodeSpace.UnreachableCountPassesValidation | code_generator.py:40-50 | every count above `AllowedCount()` and within the capacity bound passes validation yet never finishes, whatever the stream |
| CodeSpace.FullCapacityNeverCompletes | code_generator.py:40-50 | `generate_codes(21 ** 5)` never finishes, whatever the seed |
| CodeSpace.SampleCollectsList | code_generator.py:47-52 | fed the draws of an ascending list of allowed codes, the loop collects exactly those codes and `sorted` gives the list back |
| CodeSpace.ReachableFromList | code_generator.py:34-52 | on the draws of the first `count` entries of an ascending list of allowed codes, `generate_codes(count)` returns exactly those entries |
| CodeSpace.AllowedCountReachable | code_generator.py:34-52 | every count from 1 up to `AllowedCount()` is completed by some stream of draws |
| CodeSpace.GenerateCodesGuarded | code_generator.py:34-52 | the corrected generator, which counts the allowed codes with `CountAllowed`, rejects `count < 1` and every count above `AllowedCount()` before any draw; otherwise it behaves as `generate_codes` |
| CodeSpace.GuardIsExact | code_generator.py:36-52 | with the corrected guard, some stream completes a count exactly when the count passes validation |

## Left out

- `app.py` is not part of this model. It holds the HTTP handler, form parsing, HTML rendering and the threaded server: input/output and concurrency only.
- `random.Random(seed)` and `rng.choice` are replaced by their output stream. Neither the Mersenne Twister nor the mapping from a seed to a stream is modelled. A call without a seed, which reads operating-system entropy, is the same model with an unknown stream.
- GenerateCodes: does not model a loop that runs forever. A stream too short for the loop to finish ends in `OutOfDraws`, with the draws read so far, where the source would keep drawing. Nothing is claimed about termination for a given seed.
- Sorting.Sort: models only the result of `sorted`, not Python's sorting algorithm.
- `str.upper()` is modelled for ASCII only (`a`-`z` to `A`-`Z`). Python also upper-cases other letters, some into several characters. Codes built from the alphabet are ASCII upper-case, so the loop is unaffected. On other text the model can disagree with Python: `"ß".upper()` is `"SS"`, so `is_allowed("aß")` is False in Python (the upper-cased code `"ASS"` contains `"ASS"`), while `IsAllowed("aß", BlockedSequences)` holds in the model. Only `generate_codes` calls `is_allowed`, always with an alphabet-built candidate, so such an input never reaches it.
- The `blocked` argument of `is_allowed` is any iterable in the source. The model takes a set, which is equivalent for `any(...)`: only which strings occur matters, not their order or repetition.
- Python's exception mechanism is modelled as the `Failed` outcome carrying the error and its message. The traceback and the exception type `ValueError` are not modelled.
- Integer width needs no modelling: Python integers are unbounded, and so are Dafny's.

## Findings

| source | as written | input that shows it | evidently intended | confidence | as-written member | corrected member |
|---|---|---|---|---|---|---|
| code_generator.py:40-47 | the capacity check admits every count up to `len(ALPHABET) ** CODE_LENGTH` = 4084101, which includes blocked codes such as "FKBBB"; the rejection loop can only ever collect allowed codes, so for any count between the number of allowed codes and 4084101 the `while` loop never ends | `generate_codes(4084101)`, with any seed | reject every count larger than the number of codes the blocklist allows, so that each accepted count can be completed | high for the model; not executed | CodeSpace.FullCapacityNeverCompletes | CodeSpace.GenerateCodesGuarded |

The project's design notes expect `generate_codes(21 ** 5, seed=1)` to succeed
by exhaustive generation. `FullCapacityNeverCompletes` shows that no stream of
draws makes it succeed. `GuardIsExact` shows that with the corrected guard a
count passes validation exactly when some stream completes it.
