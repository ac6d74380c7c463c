# primitive_db — a verified model of the parser, the schema registry and two decorators

primitive_db is a small file-backed table store driven by text commands. This
project models three parts of it and proves properties of each model:

- **The parser** (`parser.py`):
  - `_parse_literal` turns a raw token into an integer, a boolean or a text value.
  - `parse_values` reads a parenthesised, comma-separated value list.
  - `parse_where` reads a `column = value` filter.
  - `parse_set` reads a comma-separated list of `column = value` assignments into
    an ordered dictionary.
  - The value and assignment lists go through a comma splitter that respects
    quotes. The splitter is modelled as its own module (`Lexer`).
- **The schema registry** (`core.py`):
  - The metadata dictionary maps each table name to its schema. A schema is an
    ordered dictionary from column name to type name.
  - `create_table` builds a schema that starts with `ID:int` and checks every
    `name:type` spec against `VALID_TYPES`. It then stores the schema in place.
  - `drop_table` deletes a table in place.
  - Both are methods of the class `Core.Registry`, which holds the metadata. They
    are proved against the functions `Core.AfterCreate` and `Core.AfterDrop`.
- **Two decorators** (`decorators.py`):
  - The `confirm_action` gate takes the user's answer as a parameter.
  - The get-or-compute memo table of `create_cacher` is the class
    `Decorators.Cacher`, whose `CacheResult` method takes the value function.

Python dictionaries keep insertion order, and the order shows when a schema is
listed. So an ordered dictionary is modelled as a sequence of key/value entries
with distinct keys (module `OrderedMap`):

- assigning to an existing key keeps its position;
- assigning to a new key appends it;
- `del` keeps the order of the others.

`parse_set` and `create_table` both fill a dictionary in a loop that may stop
early at a bad item. Both loops are proved against one fold over the items,
`OrderedMap.TryPutAll`. Its lemmas give:

- the first error;
- the resulting keys: the old keys, then the new ones in order of first
  assignment;
- the last-assignment-wins values.

Behaviour worth knowing, as the code has it:

- The comma splitter removes the quote characters before `_parse_literal` sees a
  token. So `("30")` in a value list reads as the integer 30, not the text
  "30" (`Parser.QuotedIntegerInListIsInteger`). The quote rule of
  `_parse_literal` only applies where no splitter runs (`parse_where`) or to
  doubly quoted list items.
- `create_table` starts every schema with `ID:int`. A declared column named
  `ID` overwrites that type but keeps the first position.
- Specs are not stripped, so `age: int` has the type ` int` and is refused.
- `int()` converts at most 4300 digits by default, so a longer integer token,
  such as a run of 4301 ones, is read as text (`Parser.TooManyDigitsIsText`).
- A cancelled confirmation returns `None`.

## Model

| member | source | states |
|---|---|---|
| Parser.ParseLiteral | src/primitive_db/parser.py:5-30 | total; the result is an integer exactly for digits with at most one leading `-` and at most 4300 digits (more make `int()` raise, and the token falls through), and a boolean exactly for a case-insensitive `true`/`false` |
| Parser.LiteralOfQuoted | src/primitive_db/parser.py:9-16 | a token quoted with `"` or `'` at both ends yields its interior as text, unprocessed (so a quoted `"true"` stays text) |
| Parser.LiteralOfBoolean | src/primitive_db/parser.py:18-22 | any casing of `true`/`false` yields that boolean |
| Parser.LiteralOfInt | src/primitive_db/parser.py:24-30 | the decimal writing of any integer of at most 4300 digits, negative ones with `-`, reads back as that integer |
| Parser.TooManyDigitsIsText | src/primitive_db/parser.py:24-30 | a digit string longer than 4300 digits, with or without a `-`, makes `int()` fail and comes back unchanged as text |
| Parser.LongIntegerIsText | src/primitive_db/parser.py:24-30 | any integer token with more than 4300 digits matches no rule and comes back unchanged as text |
| Parser.LiteralUnchanged | src/primitive_db/parser.py:5-30 | the token comes back unchanged as text exactly when it is neither quoted, boolean nor an integer that `int()` converts |
| Parser.QuotedBooleanIsText | src/primitive_db/parser.py:9-22 | `"true"` and `'FALSE'` in quotes stay text, because the quote rule comes before the boolean rule |
| Parser.MixedCaseBoolean | src/primitive_db/parser.py:18-20 | `TrUe` is the boolean true |
| Parser.NonIntegersAreText | src/primitive_db/parser.py:24-30 | a lone `-`, the empty token and `+5` are returned unchanged as text |
| Parser.LeadingZeros | src/primitive_db/parser.py:24-26 | `-007` is the integer -7 |
| Parser.NonBlank | src/primitive_db/parser.py:43 | never more tokens than were split, each non-empty and unpadded, and none at all exactly when every token strips to nothing (which tokens are kept is stated by `Parser.NonBlankPadded`) |
| Parser.NonBlankKeeps | src/primitive_db/parser.py:43 | tokens that are already non-blank and stripped are kept as they are, in order |
| Parser.NonBlankPadded | src/primitive_db/parser.py:43 | when each token is an unpadded item with whitespace around it, the result is exactly the non-empty items, stripped, in order: blank tokens are dropped and the others lose their padding |
| Parser.NonemptyKeeps | src/primitive_db/parser.py:43 | items that are all non-empty are all kept, in order |
| Parser.SplitValues | src/primitive_db/parser.py:39-43 | fails exactly when the splitter meets an unclosed quote; otherwise never yields more values than tokens |
| Parser.ParseValues | src/primitive_db/parser.py:33-43 | the segment is stripped and unwrapped before the split; fails exactly when the splitter meets an unclosed quote; otherwise never yields more values than tokens |
| Parser.ParseValuesParentheses | src/primitive_db/parser.py:35-37 | when the stripped segment starts with `(` and ends with `)`, those two characters are dropped and the rest is split; when either is missing, as in `(1,2`, the whole stripped segment is split |
| Parser.ParseJoinedList | src/primitive_db/parser.py:35-43 | a parenthesised list of comma-joined groups parses to the literals of the groups' texts, stripped, blank ones dropped, in order; commas inside quotes do not split |
| Parser.ParsePaddedList | src/primitive_db/parser.py:35-43 | when each group's text is an item with whitespace around it, the list parses to the literals of the non-empty items in order, so `( a , b )` and `(1,,2)` lose their padding and blank item |
| Parser.ValuesRoundTrip | src/primitive_db/parser.py:33-43 | a list of values written as `(v1, v2, ...)` parses back to the same list, for integers of at most 4300 digits and texts that survive the splitter |
| Parser.ParseQuotedItem | src/primitive_db/parser.py:39-43 | a lone quoted item in parentheses whose text between the quotes is non-blank and unpadded parses to the literal of that text |
| Parser.QuotedIntegerInListIsInteger | src/primitive_db/parser.py:39-43 | a number of at most 4300 digits in quotes inside a value list is read as an integer, since the splitter removed the quotes |
| Parser.ParseWhere | src/primitive_db/parser.py:46-53 | fails, with the one fixed filter error, exactly when the segment holds no `=`; otherwise a one-entry map whose key is stripped and holds no `=` |
| Parser.WhereSplitsAtFirstEquals | src/primitive_db/parser.py:48-52 | the key is the stripped text before the first `=`, and the value is the literal of the stripped rest, later `=` included |
| Parser.WhereRoundTrip | src/primitive_db/parser.py:46-53 | `column = value` with any text (written in double quotes), boolean or integer of at most 4300 digits parses back to the map from column to value |
| Parser.AssignmentOf | src/primitive_db/parser.py:65-69 | a pair fails, naming itself, exactly when it has no `=`; otherwise its key is stripped and holds no `=` |
| Parser.AssignmentOfJoin | src/primitive_db/parser.py:65-69 | a pair splits at its first `=`, giving the stripped key and the literal of the stripped rest |
| Parser.Assignments | src/primitive_db/parser.py:56-71 | what `parse_set` computes: an unclosed quote fails; any other failure names one of the non-blank pairs, one without `=`; a result is a dictionary with distinct keys |
| Parser.PairsOutcome | src/primitive_db/parser.py:64-70 | assigning the pairs in order into an empty dictionary either fails naming a pair without `=` or gives a dictionary with distinct keys |
| Parser.ParseSet | src/primitive_db/parser.py:56-71 | the loop that fills the dictionary pair by pair computes `Parser.Assignments`: an unclosed quote fails, and so does the first pair without `=` |
| Parser.AssignmentsFirstError | src/primitive_db/parser.py:64-67 | the first non-blank pair without `=` is the error, even after valid pairs |
| Parser.AssignmentsLastWins | src/primitive_db/parser.py:63-71 | when all pairs have `=`, each key appears once in order of first appearance and holds the value of its last pair |
| Lexer.LexFrom | src/primitive_db/parser.py:39-42 | a successful run of the splitter, in or out of a quoted span, always yields at least one token |
| Lexer.Split | src/primitive_db/parser.py:39-42 | `list(shlex.shlex(...))` with the comma as the only separator: a successful split yields at least one token |
| Lexer.SplitPlain | src/primitive_db/parser.py:39-42 | a text with no comma and no quote splits into one token, itself |
| Lexer.SplitRender | src/primitive_db/parser.py:39-42 | splitting the written form of quoted and plain pieces gives exactly their tokens: commas in quotes do not split and quotes are removed |
| Lexer.SplitUnterminated | src/primitive_db/parser.py:39-42 | a quote that is never closed makes the split fail |
| Text.SplitFirst | src/primitive_db/parser.py:48 | `split("=", maxsplit=1)`: no part when the separator is absent, else the text before its first occurrence and the rest |
| Text.StripPadded | src/primitive_db/parser.py:35 | stripping removes exactly the whitespace around an unpadded core |
| OrderedMap.TryPutAllOutcome | src/primitive_db/core.py:12-21 | a fold of assignments that fails does so with the error of one of its items; one that succeeds from a dictionary gives a dictionary |
| OrderedMap.Put | src/primitive_db/parser.py:70 | dictionary assignment: a new key is appended, an old one keeps its place; the key holds the value and every other key is unchanged |
| OrderedMap.PutAllKeys | src/primitive_db/core.py:10-18 | after a run of assignments the keys are the old keys, then the new keys in order of first assignment |
| OrderedMap.PutAllLookup | src/primitive_db/parser.py:63-70 | after a run of assignments a key holds the last value assigned to it, or its old value |
| OrderedMap.Remove | src/primitive_db/core.py:35 | `del`: exactly that key goes, the other keys keep their order and values; an absent key changes nothing |
| OrderedMap.RemoveAppended | src/primitive_db/core.py:23 | deleting a key that was just appended gives back the dictionary before the append |
| Core.SplitSpec | src/primitive_db/core.py:14 | a spec that splits is `name:type` with no other colon in either part |
| Core.SplitSpecCount | src/primitive_db/core.py:14 | a spec splits into two parts exactly when it holds exactly one colon |
| Core.SplitSpecJoin | src/primitive_db/core.py:14 | splitting `name:type` gives back the name and the type |
| Core.ColumnOf | src/primitive_db/core.py:13-21 | an accepted spec is `name:type` with a type in `VALID_TYPES`; a refused one is malformed or names an invalid type |
| Core.ColumnOfCases | src/primitive_db/core.py:19-21 | a spec is refused as malformed exactly when it does not hold exactly one colon |
| Core.ColumnOfSpec | src/primitive_db/core.py:15-18 | `name:type` is accepted as that column exactly when the type is `int`, `str` or `bool` |
| Core.BuildSchema | src/primitive_db/core.py:10-21 | the schema `create_table` builds: a failure is the refusal of one of the specs; a built schema is a dictionary with distinct column names |
| Core.BuildStructure | src/primitive_db/core.py:10-21 | the loop that fills the structure spec by spec, stopping at the first malformed spec or unknown type, computes `Core.BuildSchema` |
| Core.BuildSchemaFirstError | src/primitive_db/core.py:12-21 | the first refused spec is reported, even after valid ones |
| Core.BuildSchemaErrIff | src/primitive_db/core.py:12-21 | building fails exactly when some spec is refused |
| Core.BuildSchemaShape | src/primitive_db/core.py:10-18 | a built schema starts with `ID`; it lists the declared names once each in declaration order; a repeated name takes its last type; `ID` is `int` unless declared; every type is valid |
| Core.AfterCreate | src/primitive_db/core.py:4-26 | the metadata after `create_table` is unchanged exactly when the name exists or the schema is refused; otherwise the new name is appended to the names; a dictionary stays a dictionary |
| Core.AfterDrop | src/primitive_db/core.py:29-37 | the metadata after `drop_table` is unchanged exactly when the name is absent; in a dictionary the name is gone afterwards |
| Core.CreateAppends | src/primitive_db/core.py:23 | a successful creation appends exactly the new name with its schema; the other tables keep their order and schemas |
| Core.CreateRefusedUnchanged | src/primitive_db/core.py:6-21 | an existing name, a malformed spec or an unknown type leaves the metadata unchanged, with no partial table |
| Core.DropRemovesOnly | src/primitive_db/core.py:29-37 | dropping removes exactly that name and leaves every other table as it was; an absent name changes nothing |
| Core.CreateThenDrop | src/primitive_db/core.py:4-37 | creating a new table and then dropping it gives back the original metadata |
| Core.Registry.CreateTable | src/primitive_db/core.py:4-26 | the loop that builds the schema leaves the metadata as `Core.AfterCreate` says, and reports an existing name or the schema building's outcome |
| Core.Registry.DropTable | src/primitive_db/core.py:29-37 | the metadata becomes `Core.AfterDrop`: the name is removed when present; reports whether it was |
| Core.CreateThenDropTable | src/primitive_db/core.py:4-37 | a create followed by a drop of the same new name leaves the registry as it was |
| Decorators.ConfirmAction | src/primitive_db/decorators.py:26-33 | the command runs, and its result is returned, exactly when the answer confirms; otherwise the result is `None` |
| Decorators.ConfirmedIff | src/primitive_db/decorators.py:27-30 | an answer confirms exactly when, stripped, it is `y` or `Y` |
| Decorators.ConfirmPadded | src/primitive_db/decorators.py:27-33 | `y` or `Y` with whitespace around it runs the command and returns its result |
| Decorators.ConfirmRefused | src/primitive_db/decorators.py:30-32 | any other answer cancels the command and gives `None` |
| Decorators.Serve | src/primitive_db/decorators.py:52-58 | a cached key returns its stored value without calling the value function; a miss calls it, stores the result and returns it; other keys are untouched |
| Decorators.Cacher.constructor | src/primitive_db/decorators.py:50 | a new cacher starts with an empty cache |
| Decorators.Cacher.CacheResult | src/primitive_db/decorators.py:52-58 | the call updates the cache as `Decorators.Serve` says and reports whether the value function ran |
| Decorators.ServeAllCache | src/primitive_db/decorators.py:53-57 | after any run of calls the cache holds, for each key, its earlier value or the value computed by the first call for it |
| Decorators.ServeAllAnswers | src/primitive_db/decorators.py:53-58 | each call is answered with the key's earlier value, or the value computed by the first call for that key |
| Decorators.ServeAllConsistent | src/primitive_db/decorators.py:53-58 | a stored value never changes: two calls for the same key get the same answer |

## Left out

- The comma splitter is a simplified POSIX shell lexer: commas outside quotes split, `'` and `"` open a span closed by the same quote, the quote characters are dropped and an unclosed span is an error. Backslash escapes and `#` comments are not modelled.
- Lexer.Split: returns the empty tokens that the real lexer skips (between two commas, at the ends); both parsers drop blank tokens, so their results are the same.
- Characters are ASCII for `str.isdigit`, `str.lower` and `str.strip`; non-ASCII digits, which `str.isdigit` accepts and `int()` may refuse, are not part of this model.
- Parser.ParseLiteral: the limit on `int()` is the default of Python 3.11 and later, 4300 digits (`Parser.MaxIntDigits`); a process that changes it with `sys.set_int_max_str_digits`, or an older Python without the limit, is not modelled.
- Errors are values: `Parser.ParseError` stands for the raised `ValueError` (and the lexer's own `ValueError` on an unclosed quote): `NotAFilter` for the fixed message of `parse_where`, `MissingEquals` for the message of `parse_set` that names the pair. `Core.CreateError` and the `dropped` flag stand for the printed messages. The wording of the messages is not modelled.
- Decorators.Serve: the message printed on a cache hit (`decorators.py` line 54) is not modelled; a hit is the outcome with `computed` false.
- Decorators.Cacher.CacheResult: the value function is a pure function; its side effects and exceptions are not modelled, and "called once" is represented by the `computed` flag.
- Decorators.ConfirmAction: the answer is a parameter instead of an `input` call, and the command is a pure function; the cancellation message is not modelled.
- `log_time` (a monotonic clock and float formatting) and `handle_db_errors` (exception-to-message translation) are not modelled.
- `engine.py` (the command loop, help text, table printing and command slicing), `utils.py` (JSON files) and `main.py` are not part of this model.
- The row operations `insert`, `select`, `update` and `delete` are imported by `engine.py` but not defined in `core.py`, so there is nothing to model.
