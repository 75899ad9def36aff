# primitive_db core, modelled in Dafny

`primitive_db` is a small command-line record store. This project models the three
self-contained pieces of its logic and proves properties of them:

- **The schema catalog** (`src/primitive_db/core.py`). `create_table` checks a table name and
  a list of `name:type` column specs, puts the synthetic `ID:int` column in front, and stores
  the result in the metadata dictionary. `drop_table` removes a table. `list_tables` renders
  the table names one `- name` line each. The dictionary is the class `Catalog.Catalog`. Its
  field `names` holds the keys in insertion order and its field `schemas` holds the map.
  `CreateTable` and `DropTable` are methods that change the catalog in place. `ListTables` is a
  pure function of the key order.
- **The value and clause parser** (`src/primitive_db/parser.py`). `parse_value` turns a token
  into an integer, boolean or string by a fixed order of checks. `parse_where` and `parse_set`
  turn `column = value` into a one-entry mapping. These are pure functions in module `Parser`,
  and raised exceptions become `Err` results.
- **The memoising cacher** (`create_cacher` in `src/decorators.py`). It is the class
  `Cache.Cacher`, with the closure's dictionary as a `map` field. `Cache.Step` is the same call
  as a pure state transition, and the lemmas about several calls are stated over it.

`Strings` models the Python string operations the code uses: `split` on one character,
`join`, `strip`, `lower`, `isdigit` and `isidentifier`. `Wrappers` holds `Option` and
`Result`.

Three behaviours of the code are worth stating up front:

- `parse_value` can fail. When the quote, boolean and digit checks do not apply, the index
  `value_str[0]` at parser.py:33 raises on an empty token. Here that is `Err(EmptyValue)`. It
  also reaches `parse_where`/`parse_set` when the right-hand side is blank, as in `age =`.
- A column spec with two or more `:` makes the two-way unpack at core.py:18 raise rather than
  return a message, before anything is stored. Here that is a separate error, `TooManyParts`.
- A one-character token `"` both starts and ends with a quote, so it parses as the empty
  string, because Python's `'"'[1:-1]` is `''`.

## Model

| member | source | states |
|---|---|---|
| `Catalog.Catalog.constructor` | src/primitive_db/utils.py:8-9 | a catalog starts with no tables (the metadata dictionary when no file exists yet) |
| `Catalog.Catalog.CreateTable` | src/primitive_db/core.py:1-30 | the result is `CreateOutcome` of the old key set; on success the name is appended to the key order and stored with `["ID:int"] + columns`, every other entry is the same, and the listing joins exactly the stored columns with `", "`; on any failure neither field changes |
| `Catalog.Catalog.DropTable` | src/primitive_db/core.py:32-37 | it succeeds iff the name is present; then only that key leaves the map, the map shrinks by one, and the key order loses exactly that position; an absent name changes nothing |
| `Catalog.CreateOutcome` | src/primitive_db/core.py:1-30 | an existing name gives `AlreadyExists` whatever the name and the columns are, since that check runs first; a fresh name that is not an identifier gives `BadTableName`; a success is for a fresh name and lists `ID:int` and the columns joined by `", "` |
| `Catalog.ColumnError` | src/primitive_db/core.py:15-26 | a spec without `:` fails the format check, a spec with two or more `:` fails the unpack, and a spec that passes has exactly one `:` |
| `Catalog.CheckColumns` | src/primitive_db/core.py:14-26 | the column loop, checking each spec in turn and returning at the first failure, answers `FirstColumnError` of the columns |
| `Catalog.IdColumnSkipped` | src/primitive_db/core.py:10-26 | putting `ID:int` in front never changes what the column loop reports |
| `Catalog.CreateSucceedsIff` | src/primitive_db/core.py:1-28 | creation succeeds if and only if the name is new, the name is an identifier, and every column spec is an identifier, `:`, and one of int/str/bool |
| `Catalog.ColumnErrorMeaning` | src/primitive_db/core.py:14-26 | one spec passes the `:` check, the unpack, the name check and the type check exactly when it is `name:type` with `name` an identifier and `type` in {int, str, bool} |
| `Catalog.PassingIsWellFormed` | src/primitive_db/core.py:15-26 | a spec that passes every check is `name:type` with an identifier name and a supported type |
| `Catalog.WellFormedPasses` | src/primitive_db/core.py:15-26 | an identifier, `:` and one of int/str/bool pass every check |
| `Catalog.FirstColumnError` | src/primitive_db/core.py:14-26 | the loop finds an error if and only if some column fails its checks |
| `Catalog.FirstErrorExists` | src/primitive_db/core.py:14-26 | an error the loop reports is the error of one of the columns |
| `Catalog.FirstErrorAt` | src/primitive_db/core.py:14-26 | when column `i` fails and all before it pass, the loop's early return reports column `i`'s error |
| `Catalog.FirstBadColumnReported` | src/primitive_db/core.py:10-26 | with a valid fresh name, the first failing user column decides the error (after the `ID:int` column, which always passes), whatever follows it |
| `Catalog.IdColumnWellFormed` | src/primitive_db/core.py:10 | the prepended `ID:int` passes every column check |
| `Catalog.MultipleColonsNeverSucceed` | src/primitive_db/core.py:18 | a spec with two or more `:` fails the two-way unpack (`TooManyParts`), and a create containing it never succeeds |
| `Catalog.ListingRecoversColumns` | src/primitive_db/core.py:29-30 | splitting the success listing on `,` gives back every column, in order; each column after the first has the one space of the separator in front |
| `Catalog.ListTables` | src/primitive_db/core.py:39-42 | the "no tables" answer is given exactly when the catalog has no keys |
| `Catalog.ListTablesLines` | src/primitive_db/core.py:42 | the listing has one line per table, line `i` is `- ` followed by the `i`-th key in insertion order |
| `Catalog.ListedOnceAfterCreate` | src/primitive_db/core.py:28-42 | after a new table is appended to the keys, the listing shows it exactly once, as its last line |
| `Catalog.Without` | src/primitive_db/core.py:36 | deleting a key keeps exactly the other keys; deleting an absent key changes nothing |
| `Catalog.WithoutAt` | src/primitive_db/core.py:36 | with distinct keys, deleting the key at position `k` leaves the keys before and after it, in order |
| `Catalog.RemoveKeepsDistinct` | src/primitive_db/core.py:36 | the remaining keys are still distinct |
| `Catalog.Catalog.Valid` | src/primitive_db/core.py:28-42 | the key order lists every key of the map once and nothing else; so it is empty exactly when the map is (the `not metadata` test of `list_tables`), and every listed name has a schema |
| `Parser.ParseValue` | src/primitive_db/parser.py:27-36 | parsing fails exactly on the empty token, with `EmptyValue` (the index into its first character) |
| `Parser.IsQuoted` | src/primitive_db/parser.py:29 | a token that starts and ends with `"` is the lone `"` or some text between two quotes |
| `Parser.DigitsValue` | src/primitive_db/parser.py:34 | `int` of a digit string is zero exactly when every digit is `0` |
| `Parser.DigitsDecimalRoundTrip` | src/primitive_db/parser.py:34 | digit text without a leading zero is the decimal text of the number it spells |
| `Parser.QuotedIsVerbatim` | src/primitive_db/parser.py:29-30 | `"` + s + `"` parses to the string s, verbatim, with no escape processing |
| `Parser.BoolIgnoresCase` | src/primitive_db/parser.py:31-32 | an unquoted token whose lowercase form is `true` or `false` is that boolean, in any mix of cases |
| `Parser.DigitsAreInt` | src/primitive_db/parser.py:33-34 | an all-digit token is the integer it spells, leading zeros included |
| `Parser.NegativeDigitsAreInt` | src/primitive_db/parser.py:33-34 | `-` followed by one or more digits is the negated integer |
| `Parser.IntRoundTrip` | src/primitive_db/parser.py:33-34 | the decimal text of every integer parses back to that integer |
| `Parser.NatDecimalRoundTrip` | src/primitive_db/parser.py:34 | reading back the digits of a natural number gives the number |
| `Parser.OtherTokensVerbatim` | src/primitive_db/parser.py:35-36 | a non-empty token that is not quoted, not a boolean word and not an integer comes back unchanged as a string |
| `Parser.FallThroughExamples` | src/primitive_db/parser.py:29-36 | `12.5`, `+5` and a lone `-` stay strings; `TrUe` is true; a quoted `"true"` is the string `true` |
| `Parser.LiteralRoundTrip` | src/primitive_db/parser.py:27-36 | every value's literal (its decimal text, `true`/`false`, or its quoted text) parses back to the value |
| `Parser.ParseClause` | src/primitive_db/parser.py:7-14 | a clause with other than exactly one `=` is malformed; a parsed clause has exactly one entry |
| `Parser.ClauseAtSingleEquals` | src/primitive_db/parser.py:7-14 | with one `=` between `lhs` and `rhs`, the clause is `{strip(lhs): parse_value(strip(rhs))}`, or `EmptyValue` when the right side is blank |
| `Parser.SingleEqualsSplits` | src/primitive_db/parser.py:7 | every string with exactly one `=` is its two split pieces joined by `=` |
| `Parser.ParseWhere` | src/primitive_db/parser.py:2-14 | the answer is "no filter" exactly for the empty string; any other string without exactly one `=` is a malformed WHERE |
| `Parser.ParseSet` | src/primitive_db/parser.py:16-25 | a string without exactly one `=` is a malformed SET |
| `Parser.SetRejectsEmpty` | src/primitive_db/parser.py:16-20 | `parse_set("")` fails: it has no empty short cut |
| `Parser.QuotedEqualsIsMalformed` | src/primitive_db/parser.py:7-9 | an `=` inside quotes still counts, so `name = "a=b"` is a malformed WHERE |
| `Parser.WhereRoundTrip` | src/primitive_db/parser.py:2-14 | `col = literal` with `col` an identifier and no `=` in the literal parses to the filter `{col: value}` |
| `Parser.PaddedLeft` | src/primitive_db/parser.py:11 | the left side `col ` of a padded clause holds no `=` and strips to the column name |
| `Parser.PaddedRight` | src/primitive_db/parser.py:12 | the right side ` tok` of a padded clause holds no `=` and strips to the token |
| `Parser.PaddedClause` | src/primitive_db/parser.py:11-14 | the spaces around `=` are stripped from both sides |
| `Strings.Split` | src/primitive_db/parser.py:7 | `split` gives one more piece than there are separators, and no piece holds the separator |
| `Strings.JoinSplit` | src/primitive_db/core.py:18 | joining the pieces of a split with the separator gives back the text |
| `Strings.SplitJoin` | src/primitive_db/core.py:18 | splitting joined pieces that hold no separator gives back the pieces |
| `Strings.TrimStart` | src/primitive_db/parser.py:11-12 | leading whitespace is removed and nothing else: what remains is a suffix, all removed characters are whitespace, and the first remaining one is not |
| `Strings.TrimEnd` | src/primitive_db/parser.py:11-12 | trailing whitespace is removed and nothing else, symmetrically |
| `Strings.StripPadded` | src/primitive_db/parser.py:11-12 | `strip` leaves text alone when neither end is whitespace, and removes one space of padding on either side |
| `Strings.IsIdentifier` | src/primitive_db/core.py:6-21 | an identifier is non-empty, does not start with a digit, has no surrounding whitespace and contains no `:`, `=`, `,` or line break |
| `Strings.IsDigits` | src/primitive_db/parser.py:33 | a digit string is non-empty, has no surrounding whitespace and does not start with a letter |
| `Strings.Lower` | src/primitive_db/parser.py:31-32 | lowercasing keeps the length, leaves no upper-case letter, keeps every other character in place, and keeps letters letters |
| `Strings.Join` | src/primitive_db/core.py:29-42 | joining no parts gives the empty string; otherwise the text starts with the first part |
| `Strings.Strip` | src/primitive_db/parser.py:11-23 | the result has no whitespace at either end, is no longer than the input, and is empty exactly when the input is all whitespace |
| `Cache.Step` | src/decorators.py:56-61 | a hit returns the stored value and leaves the cache alone; a miss returns the computed value; afterwards the key holds the returned value, the key set gains only that key, and earlier entries are unchanged |
| `Cache.Cacher.constructor` | src/decorators.py:52-54 | every new cacher has its own empty cache |
| `Cache.Cacher.CacheResult` | src/decorators.py:56-61 | the returned value and the new cache are those of `Step` applied to the old cache; a hit changes the cache not at all; a miss stores the computed value under the key and nothing else |
| `Cache.Idempotent` | src/decorators.py:56-61 | two calls in a row with one key return the same value, whatever thunks are passed, and the second call leaves the cache as the first left it |
| `Cache.StoredForever` | src/decorators.py:57-60 | once stored, a key keeps its value through any sequence of calls (no eviction, no overwrite) |
| `Cache.KeysGrow` | src/decorators.py:54-61 | after a sequence of calls, the key set is the old key set plus exactly the keys looked up |
| `Cache.RepeatAfterAnyCalls` | src/decorators.py:56-61 | a repeat lookup returns the first lookup's value, whatever other calls came in between (the cache never becomes fresh again) |
| `Cache.SeparateCachers` | src/decorators.py:52-63 | two cachers do not share entries: each computes its own value for the same key |

## Left out

- The interactive loop in `src/primitive_db/engine.py` is not modelled: prompting, `shlex` splitting, argument slicing, printing, and the catch-all `except` that turns a raised error into a printed message. The model's raised errors are `Err` values or error constructors instead.
- `insert`, `select`, `update`, `delete`, `info` and `format_table` are imported by the engine, but their definitions are not part of this model.
- JSON loading and saving of the catalog (`src/primitive_db/utils.py`) is file I/O and is not modelled. The catalog starts empty, as when no metadata file exists. `Catalog.Valid` asks only that the keys are distinct, because loaded keys need not be identifiers.
- `handle_db_errors`, `confirm_action` and `log_time` in `src/decorators.py` are not modelled. The first dispatches on exception types, the second prompts the user, and the third reads a clock and prints.
- The module-level `cacher = create_cacher()` (decorators.py:67) is not modelled as a global. Callers construct a `Cache.Cacher`.
- `Cache.Cacher.CacheResult` models `value_func` as a pure total function. Any side effects of the thunk, and an exception it raises (after which nothing is stored), are not modelled.
- The exact message texts (in Russian) are not modelled. Results carry the error kind and the offending spec, name or type. A successful create carries the `", "`-joined column list that its message enumerates.
- `str.isidentifier`, `str.isdigit`, `str.lower` and `str.strip` follow Python's Unicode rules. The model uses ASCII instead: identifiers are a letter or `_` followed by letters, digits or `_`; digits are `0`-`9`; lowercasing covers `A`-`Z`; whitespace is codes 9-13, 28-31 and 32. Python keywords count as identifiers, as in the source.
- `Parser.ParseValue`: reads a decimal integer token of any length. CPython 3.11 and later (and the 3.7-3.10 security releases) by default make `int()` raise `ValueError` on decimal text of more than 4300 digits (`sys.int_info.default_max_str_digits`); that limit is not modelled.
- `Parser.DigitsAreInt`, `Parser.NegativeDigitsAreInt` and `Parser.IntRoundTrip`: hold for integers of any length, for the same reason; under CPython's default limit they hold only up to 4300 digits.
- `Catalog.ListTables` takes the catalog's key order (`Catalog.names`) rather than the object. It returns the rendered lines or the "no tables" answer, not the message text.
