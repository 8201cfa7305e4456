# Synthetic e-commerce customer generator, modelled in Dafny

This project models the logic at the centre of
`mock_data_generator/synthetic_ecommerce_generator.py`. That script invents
customer records. In an incremental run it also reuses canonical keys from
an earlier output file and emits fuzzy duplicates of earlier rows under
those keys. The model covers four groups of code:

- the string corruptors `add_typo` and `random_case_variation`;
- the record construction of `generate_customer`;
- the fuzzy-duplicate builder `add_variation`;
- the selection, counting and append loops of `generate_dataset`.

Every random draw is an explicit parameter: a probability outcome, a
position, a letter, a digit, a list choice or a uuid hex string. Every value
the fake-data provider supplies is an opaque string. What can be stated
about the program is then a statement about all possible draws.

Modules, one per piece of the program:

- `Wrappers`: `Option`, `Result`, the two exceptions the model represents
  (`KeyError` for a missing column, and the `ValueError` that
  `random.sample` raises for a negative size), and `Collect`. `Collect` runs
  a sequence of steps that may fail and stops at the first failure.
- `Text`: Python's `str.lower`, `upper`, `title`, `strip`, `in` and
  `replace`, over ASCII.
- `Corruption`: `add_typo` and `random_case_variation`.
- `Records`: the record columns, the source and category lists, and
  `generate_customer`.
- `Variation`: the six rules and `add_variation`. It has a value-level
  specification (`Variant`), the imperative method (`AddVariation`) proved
  equal to it, and the predicate `IsVariant` saying what a fuzzy duplicate
  is.
- `Dataset`: the prior table, the key selection, and the two loops of
  `generate_dataset` as methods. Each method is proved equal to a function
  of its inputs, and lemmas about those functions prove the shape of the
  output.

One behaviour of the code is easy to misread. A variant's new `customer_id` is built from the base record's
`source_system` (line 87). `generate_dataset` writes the newly drawn label
over `source_system` only afterwards (line 123). So the identifier of a
variant row names the source of the row it copies, which need not be the
source the row now carries. `Dataset.VariantRowFields` states this.

## Model

| member | source | states |
|---|---|---|
| Corruption.AddTypo | mock_data_generator/synthetic_ecommerce_generator.py:23-28 | Text with fewer than 3 characters, or a "no typo" draw, is returned unchanged. Otherwise the result has the same length and equals the input with the drawn position (in `[0, len-1]`) overwritten by the drawn lower-case letter. |
| Corruption.TypoIsSingleEdit | mock_data_generator/synthetic_ecommerce_generator.py:27-28 | The result differs from the input in at most one position. It differs in exactly one position exactly when the typo fires and the letter differs from the character it replaces. |
| Corruption.RandomCaseVariation | mock_data_generator/synthetic_ecommerce_generator.py:18-21 | Empty text is returned as is. Otherwise the result has the same length and equals the input ignoring case, and non-letters are unchanged. The upper style leaves no lower-case letter, the lower style no upper-case letter, and the title style capitalises exactly the letters that start a word. |
| Corruption.CaseVariationIdempotent | mock_data_generator/synthetic_ecommerce_generator.py:20-21 | Applying the same style a second time changes nothing. |
| Text.Upper | mock_data_generator/synthetic_ecommerce_generator.py:20 | `str.upper` keeps the length and every non-letter, keeps each letter up to case, and leaves no lower-case letter. |
| Text.Lower | mock_data_generator/synthetic_ecommerce_generator.py:44 | `str.lower` keeps the length and every non-letter, keeps each letter up to case, and leaves no upper-case letter. |
| Text.Title | mock_data_generator/synthetic_ecommerce_generator.py:20 | `str.title` keeps the length and every non-letter, and keeps each letter up to case. A letter is upper-case exactly when it starts a word. |
| Text.ContainsOccurs | mock_data_generator/synthetic_ecommerce_generator.py:82 | The substring test `p in s` holds exactly when `p` equals some slice of `s`. |
| Text.ReplaceAll | mock_data_generator/synthetic_ecommerce_generator.py:81-82 | `replace` returns text without an occurrence of the pattern unchanged. |
| Text.ReplaceAllAtFirst | mock_data_generator/synthetic_ecommerce_generator.py:81-82 | `replace` keeps the text before the first occurrence of the pattern, writes the replacement in its place and goes on after it. With the no-occurrence case this fixes `replace` completely. |
| Text.Strip | mock_data_generator/synthetic_ecommerce_generator.py:88 | `strip()` returns a slice of its input with no whitespace at either end, and everything it cut off is whitespace. |
| Text.StripOfTrimmed | mock_data_generator/synthetic_ecommerce_generator.py:88 | Text with no whitespace at either end is returned unchanged. |
| Text.InsertBeforeLength | mock_data_generator/synthetic_ecommerce_generator.py:81 | Replacing every occurrence of a character `c` with a two-character text ending in `c` lengthens the text by the number of occurrences of `c`. |
| Records.FieldNameInjective | mock_data_generator/synthetic_ecommerce_generator.py:98-100 | Once a further column may not reuse a named column's name, distinct columns have distinct header names, so a CSV header determines the columns. |
| Records.RowId | mock_data_generator/synthetic_ecommerce_generator.py:52 | The row identifier is the source label, `_`, and eight hexadecimal digits. |
| Records.CanonicalKey | mock_data_generator/synthetic_ecommerce_generator.py:71 | A supplied non-empty key is kept. A missing or empty key is replaced by 12 fresh hexadecimal digits. The result is never empty. |
| Records.DecimalRoundTrip | mock_data_generator/synthetic_ecommerce_generator.py:67 | The decimal text of `total_orders` reads back as the drawn number. |
| Records.EmailFor | mock_data_generator/synthetic_ecommerce_generator.py:44 | The `first.last@domain` address with both names lower-cased. `Records.GenerateCustomerIsCustomerRecord` and `Variation.DigitInCustomerEmail` state its properties. |
| Records.ProvidedColumns | mock_data_generator/synthetic_ecommerce_generator.py:53-69 | The fifteen columns taken from the provider and the draws: every named column except `customer_id`, `full_name`, `email`, `source_system` and `canonical_id`. `Records.ProvidedColumnsValues` states their values. |
| Records.ProvidedColumnsValues | mock_data_generator/synthetic_ecommerce_generator.py:46-69 | Each of the fifteen columns holds what lines 46-69 put there, as the three lemmas below state. |
| Records.ProvidedText | mock_data_generator/synthetic_ecommerce_generator.py:41-42 | `first_name`, `last_name`, `address_line1`, `city`, `state`, `postal_code` and `country` are the provider's values, uncorrupted (lines 41-42 and 53-63). |
| Records.ProvidedOptional | mock_data_generator/synthetic_ecommerce_generator.py:46-66 | `phone_number`, `address_line2` and `date_of_birth` are the provider's value or blank. `registration_date` is the drawn date. `last_purchase_date` is blank or the fresh date, and it is the fresh date whenever one was drawn after a non-blank registration date. |
| Records.ProvidedDrawn | mock_data_generator/synthetic_ecommerce_generator.py:67-69 | `total_orders` is the drawn count in decimal, `total_spent` is the drawn amount, and `preferred_category` is one of the eight categories, the drawn one. |
| Records.GenerateCustomerProvided | mock_data_generator/synthetic_ecommerce_generator.py:39-73 | Filling the five derived columns leaves the fifteen provided values in place. |
| Records.GenerateCustomerDerived | mock_data_generator/synthetic_ecommerce_generator.py:39-73 | The record has exactly the twenty named columns, and the five derived ones hold `full_name`, the email, the row identifier, the label and the canonical key. |
| Records.GenerateCustomer | mock_data_generator/synthetic_ecommerce_generator.py:39-73 | The record that `generate_customer` builds from its draws. `Records.GenerateCustomerIsCustomerRecord` states its properties. |
| Records.GenerateCustomerIsCustomerRecord | mock_data_generator/synthetic_ecommerce_generator.py:39-73 | The record has exactly the twenty named columns. The fifteen provided columns hold the provider's values and draws, as `Records.ProvidedColumnsValues` states. `full_name` and `email` are built from the record's own `first_name` and `last_name` columns. `full_name` is `first + " " + last`. `email` is `lower(first) + "." + lower(last) + "@" + domain`. `customer_id` is a row identifier under the source. `source_system` is the source. `canonical_id` is the supplied key, or the fresh one. |
| Variation.Target | mock_data_generator/synthetic_ecommerce_generator.py:78-85 | Each rule rewrites one of `first_name`, `last_name`, `email`, `address_line1`, `city`, `postal_code`. |
| Variation.InsertDigitBeforeAt | mock_data_generator/synthetic_ecommerce_generator.py:81 | `email.replace("@", digit + "@")`. `Variation.InsertDigitLength` and `Variation.InsertDigitIntoAddress` state its properties. |
| Variation.InsertDigitLength | mock_data_generator/synthetic_ecommerce_generator.py:81 | The email rule's digit insertion adds one character per `@`. |
| Variation.InsertDigitIntoAddress | mock_data_generator/synthetic_ecommerce_generator.py:81 | In an address with a single `@`, the digit lands at the end of the local part. |
| Variation.DigitInCustomerEmail | mock_data_generator/synthetic_ecommerce_generator.py:81 | On a generated email whose names and domain contain no `@`, the digit goes between the lower-cased last name and the `@`. |
| Variation.NoStreetAfterReplace | mock_data_generator/synthetic_ecommerce_generator.py:82 | After replacing "Street" with "St.", no "Street" is left. |
| Variation.AbbreviateStreet | mock_data_generator/synthetic_ecommerce_generator.py:82 | The guarded rule equals the unguarded replacement of every "Street" by "St.", so the rule is the identity when "Street" does not occur. No "Street" remains in the result. |
| Variation.AbbreviateStreetIdempotent | mock_data_generator/synthetic_ecommerce_generator.py:82 | Applying the address rule twice is the same as applying it once. |
| Variation.Corrupt | mock_data_generator/synthetic_ecommerce_generator.py:78-85 | The value the drawn rule writes into its column. `Variation.CorruptionIsSmall` states what each rule may change. |
| Variation.CorruptionIsSmall | mock_data_generator/synthetic_ecommerce_generator.py:78-85 | The typo rules keep the length and change at most one character. They change exactly one exactly when the typo fires and brings a letter different from the one it overwrites. The case rule keeps the text equal ignoring case. The email rule adds one character per `@` and then changes at most one character, exactly one under the same condition. The address rule leaves no "Street". |
| Variation.NormalizeEmail | mock_data_generator/synthetic_ecommerce_generator.py:88 | The normalised email has no upper-case letter and no whitespace at either end. |
| Variation.NormalizeEmailIdempotent | mock_data_generator/synthetic_ecommerce_generator.py:88 | Normalising an already normalised email changes nothing. |
| Variation.MissingColumn | mock_data_generator/synthetic_ecommerce_generator.py:79-88 | Reports nothing exactly when the rule's column, `source_system` and `email` are all present. Otherwise it reports an absent one of them, in reading order: `source_system` only when the rule's column is present, `email` only when both of the others are. |
| Variation.Variant | mock_data_generator/synthetic_ecommerce_generator.py:75-89 | `add_variation` fails exactly when a column it reads is missing, with `KeyError` naming the first one. |
| Variation.VariantIsVariant | mock_data_generator/synthetic_ecommerce_generator.py:75-89 | A successful variation has the input's columns plus `customer_id`. The rule's column holds the corrupted value. `email` is the normalised (and, under the email rule, corrupted) value. `customer_id` is a new identifier under the input's `source_system`. Every other column, `canonical_id` included, is unchanged. |
| Variation.VariantKeepsIdentity | mock_data_generator/synthetic_ecommerce_generator.py:77-89 | `canonical_id` and `source_system` of a fuzzy duplicate equal the input's. |
| Variation.AddVariation | mock_data_generator/synthetic_ecommerce_generator.py:75-89 | The copy-and-update method returns exactly `Variant`'s result, `KeyError` cases included. A successful result is a fuzzy duplicate in the sense of `IsVariant`. |
| Variation.VariantIdDiffers | mock_data_generator/synthetic_ecommerce_generator.py:87 | A variant's `customer_id` differs from its base row's when the base's identifier was made under its label from a uuid whose first eight digits differ from the variant's draw. |
| Variation.NewRowIdDiffers | mock_data_generator/synthetic_ecommerce_generator.py:87 | The new identifier differs from an identifier made the same way under the same label whenever the two uuids differ in their first eight digits. |
| Variation.CustomerRecordIsReadable | mock_data_generator/synthetic_ecommerce_generator.py:51-72 | A record made by `generate_customer` has every column any rule reads, so `add_variation` cannot fail on it. |
| Dataset.Unique | mock_data_generator/synthetic_ecommerce_generator.py:100 | `unique()` yields pairwise distinct values, exactly those of its input. |
| Dataset.UniqueOrder | mock_data_generator/synthetic_ecommerce_generator.py:100 | `unique()` lists the values in the order of their first occurrence. |
| Dataset.KnownIds | mock_data_generator/synthetic_ecommerce_generator.py:97-103 | With no prior table the known keys are `[]`. A prior table without `canonical_id` raises `KeyError`. Otherwise the known keys are the distinct `canonical_id` values, non-empty exactly when the table has rows. |
| Dataset.Sample | mock_data_generator/synthetic_ecommerce_generator.py:110 | `random.sample(pool, k)` yields `k` elements of the pool. They are pairwise distinct when the pool is. |
| Dataset.Select | mock_data_generator/synthetic_ecommerce_generator.py:100-110 | `overlap_count` is the requested overlap when keys are known and 0 otherwise. `new_count` is `n_rows - overlap_count`. There are `min(overlap_count, len(canonical_ids))` reused keys, pairwise distinct and all known. `KeyError` propagates. A negative overlap with keys known fails as `random.sample` does. |
| Dataset.ReusedKeysArePrior | mock_data_generator/synthetic_ecommerce_generator.py:110 | Every reused key is the `canonical_id` of some prior row. |
| Dataset.MatchingRows | mock_data_generator/synthetic_ecommerce_generator.py:121 | The filtered rows are prior rows that carry the key. They are non-empty exactly when some prior row has the key. |
| Dataset.MatchingRowsComplete | mock_data_generator/synthetic_ecommerce_generator.py:121 | Every prior row that carries the key is among the filtered rows. |
| Dataset.SampleReachesAll | mock_data_generator/synthetic_ecommerce_generator.py:110 | Every sequence of distinct keys of the requested size is the sample of some draws, so `random.sample` can yield each of its outcomes. |
| Dataset.VariantBase | mock_data_generator/synthetic_ecommerce_generator.py:121 | The base row of reused key `j`: a prior row with that key, picked by the draw. `Dataset.VariantRowFields` states what the variant keeps of it. |
| Dataset.EveryMatchingRowCanBeBase | mock_data_generator/synthetic_ecommerce_generator.py:121 | Every prior row that carries the reused key is the base row for some pick, so `.sample(1)` can choose any of them. |
| Dataset.BaseRow | mock_data_generator/synthetic_ecommerce_generator.py:121 | The picked base row is a prior row that carries the reused key. |
| Dataset.VariantRowOf | mock_data_generator/synthetic_ecommerce_generator.py:120-123 | A variant row fails exactly when its base row lacks a column the drawn rule reads. |
| Dataset.AppendFreshRecords | mock_data_generator/synthetic_ecommerce_generator.py:113-116 | The first loop appends, in order, one `generate_customer` record per iteration under that iteration's label. |
| Dataset.VariantRow | mock_data_generator/synthetic_ecommerce_generator.py:120-123 | One pass of the second loop produces the relabelled variant of a base row carrying the key, or the `KeyError`. |
| Dataset.AppendVariants | mock_data_generator/synthetic_ecommerce_generator.py:119-124 | The second loop appends the variant rows in sample order to the rows so far, or stops with the first key's `KeyError`. |
| Dataset.GenerateDataset | mock_data_generator/synthetic_ecommerce_generator.py:95-124 | Running the selection and both loops gives exactly the rows (or the error) `DatasetRows` describes. |
| Dataset.FreshRecord | mock_data_generator/synthetic_ecommerce_generator.py:114-116 | Fresh row `t`: `generate_customer` under the drawn label with no key. `Dataset.FreshRowFields` states its properties. |
| Dataset.FreshRecords | mock_data_generator/synthetic_ecommerce_generator.py:113-116 | The first loop makes exactly `new_count` rows. `Dataset.FreshRecordsAt` says row `t` is `Dataset.FreshRecord` of `t`. |
| Dataset.FreshRow | mock_data_generator/synthetic_ecommerce_generator.py:114-116 | One pass of the first loop draws a label and builds exactly fresh row `t`. |
| Dataset.FreshRecordsAt | mock_data_generator/synthetic_ecommerce_generator.py:113-116 | Row `t` of the first loop is the record of iteration `t`. |
| Dataset.FreshRowFields | mock_data_generator/synthetic_ecommerce_generator.py:113-116 | A fresh row is a `generate_customer` record under one of the five labels, with a new 12-digit key. |
| Dataset.FreshKeysDistinct | mock_data_generator/synthetic_ecommerce_generator.py:113-116 | Fresh rows whose key draws differ in their first twelve digits get different canonical keys. |
| Dataset.RelabelledVariant | mock_data_generator/synthetic_ecommerce_generator.py:122-123 | Overwriting `source_system` on a fuzzy duplicate leaves a fuzzy duplicate once the base's label is put back. |
| Dataset.VariantRowFields | mock_data_generator/synthetic_ecommerce_generator.py:119-124 | A variant row comes from a prior row with the reused key. It carries that key, one of the labels as `source_system` and a normalised email. Its `customer_id` is an identifier under the BASE row's label. |
| Dataset.VariantRowsFields | mock_data_generator/synthetic_ecommerce_generator.py:119-124 | A completed second loop yields the variant row of each reused key in order, each with its key, a label and a normalised email. |
| Dataset.DatasetRows | mock_data_generator/synthetic_ecommerce_generator.py:95-124 | The rows of a run, or its error. `DatasetFreshRows`, `DatasetVariantRows`, `DatasetFailure`, `DatasetFirstFailure` and `DatasetRowCount` state their shape, failures and number. |
| Dataset.DatasetFreshRows | mock_data_generator/synthetic_ecommerce_generator.py:113-116 | A successful run starts with `new_count` `generate_customer` records (none when `new_count` is negative). |
| Dataset.DatasetVariantRows | mock_data_generator/synthetic_ecommerce_generator.py:106-124 | A successful run has `new_count + len(reused_ids)` rows when `new_count >= 0`, and `len(reused_ids)` otherwise. Entry `max(new_count, 0) + j` (that is, `new_count + j` when `new_count >= 0`) carries reused key `j`, a label and a normalised email. |
| Dataset.VariantRowFailure | mock_data_generator/synthetic_ecommerce_generator.py:121-122 | All prior rows share the table's columns, so a variant row fails exactly when the table lacks a column the drawn rule reads. The error names the first such column. |
| Dataset.VariantsFailure | mock_data_generator/synthetic_ecommerce_generator.py:119-124 | The second loop fails exactly when some reused key's drawn rule reads a column the prior table lacks. |
| Dataset.DatasetFailure | mock_data_generator/synthetic_ecommerce_generator.py:100-124 | A failed selection is the run's error. Otherwise the run fails exactly when some reused key's rule reads a column the prior table lacks. |
| Dataset.DatasetFirstFailure | mock_data_generator/synthetic_ecommerce_generator.py:119-124 | The first such key ends the run with `KeyError` for the first column its rule reads and the table lacks. |
| Dataset.DatasetRowCount | mock_data_generator/synthetic_ecommerce_generator.py:106-124 | With an overlap in `[0, n_rows]` there are at most `n_rows` rows. There are exactly `n_rows` unless keys are known and fewer of them than the overlap. With keys known, the count is `n_rows - overlap + min(overlap, len(canonical_ids))`. |

## Left out

- The fake-data provider (names, addresses, e-mail domains, phone numbers, dates) and `random_date` with its `strftime` formats are foreign library calls. Their values are opaque strings in `Records.CustomerDraw`.
- The `random` module and `uuid.uuid4` become parameters: each draw is a value the caller supplies. The probabilities (0.3 typo chance, the blank-field chances 0.15, 0.3, 0.05 and 0.2) and the seeding at lines 92-93 cannot be stated about a single run. A draw with a range that depends on the input (`randint(0, len-1)`, `random.sample`, `.sample(1)`) is any natural number reduced modulo that range, so only allowed outcomes can occur. `Dataset.SampleReachesAll` and `Dataset.EveryMatchingRowCanBeBase` show that every allowed outcome of `random.sample` and `.sample(1)` is reached by some draws.
- Dataset.Sample: models `random.sample` through one index draw per pick from the remaining pool. This matches the set of possible results, not CPython's exact draw sequence.
- `total_spent` (`round(random.uniform(0, 20000), 2)`) is floating point. It is an opaque string. The product `n_rows * overlap_pct` at line 106 is floating point too, so the model takes its integer truncation as the input `requestedOverlap`.
- Records.ProvidedColumns: `total_orders` is an integer in the source record. The model holds every column as text, via its decimal form (`Records.Decimal`). pandas' CSV type inference is not modelled. Under it, the `TypeError` it causes is likely common in incremental runs, not rare. If the provider's postcodes are all digits, as five-digit US codes are, then an earlier file this script wrote has an all-digit `postal_code` column, and pandas reads it back as integers. Every reused row that draws the postal-code rule (one draw in six) then reaches `len()` on an integer in `add_typo` (line 25), and the run stops. The provider's postcode formats are not part of this model.
- Reading the prior CSV, writing the output CSV, `os.path.exists`, the `print` calls and the argument parsing (lines 97-99, 126-145) are I/O. The prior file arrives as a `Dataset.Table` (a column set whose further columns reuse no named column's name, and rows that all carry exactly those columns), or as `None` when nothing was loaded.
- Column order in a record and in the output file is not modelled, because records are maps.
- Variation.AddVariation: records are values, so the copy at line 77 cannot alias its input, and the input being unchanged holds by construction. Python dictionary aliasing is not modelled.
- Casing and whitespace are over ASCII. Unicode case mappings and Unicode whitespace beyond `\x1c`-`\x1f` are not modelled.
