# dayi_table in Dafny

A model of `creator.py`, the script that builds a Dayi input-method table, with
proofs about its behaviour. The script does the following.

- It reads `CODE CHAR` lines from the numbered `.cin` source tables and keeps the pairs whose char is one character.
- It puts those pairs into a `lookup` table keyed by (code, char).
- It rewrites the punctuation codes by a fixed override table.
- It reads a character-frequency corpus into a `wordfreq` table. It gives chars below a threshold the weight -1 and a fixed list of symbols decreasing weights.
- It builds a `result` table: one row per `lookup` row with its char's weight, ordered by code and then by weight.
- It writes `result` out either as a GCIN table (one `%-6s%s` line per row) or as a macOS table (one line per run of equal codes, chars comma-joined).
- A separate derivation, `fillin_dayi234`, computes the `dayi4`, `dayi3` and `dayi2` tables of longest and shortened codes.

The model has these modules:

- `Text` holds the Python 2 string operations the script relies on: `strip`, `split`, `split(None, 1)`, `join`, `upper`, `int`, `%-6s`. It also holds SQLite's `NOCASE` key and `BINARY` text order.
- `Loader` is `read_incode_outchar`.
- `Lookup` is the `lookup` table as a set of rows, the override table and the three normalisation passes.
- `Derive` is `fillin_dayi234`.
- `Ranking` holds the corpus reader, the three kinds of `wordfreq` writes, the symbol weights and the order of `result`.
- `Staging` is a `Database` class whose `lookup`, `wordfreq` and `result` fields the `populate_db` and `create_wordfreq` statements change in place. Each method is proved equal to the functions of `Lookup` and `Ranking`.
- `Output` holds the line formatting and the two output loops.

Tables are Dafny values:

- `lookup` and the `dayi` tables are `set<(string, string)>`.
- `wordfreq` is `map<string, real>`.
- `result` is a `seq` of rows.

`INSERT OR IGNORE` is set union, or first-wins map insertion. `INSERT OR REPLACE` is map update. `DELETE … WHERE` is set filtering.

Three behaviours of the code are worth stating plainly, as the model follows them:

- `_read_from_file` (creator.py:143-146) has no guard against unusual lines. A blank line raises `IndexError` at `toks[0]` (line 144). A record with fewer than four tokens raises `IndexError` at `toks[3]` (line 146). A fourth token that is not an integer raises `ValueError` at `int()` (line 146). The exception ends the run, so `Ranking.ReadFromFile` returns it as an error.
- `split(None, 1)` (creator.py:30-33) keeps the whole remainder after the code as the char, spaces included, and `Loader.ParseLineFields` states that.
- `1.0 - i*(delta+1)` (creator.py:164) gives 1 to the first symbol and a weight of at most `-delta` to every later one, and `Ranking.SymbolWeight` with `Ranking.SymbolWeightNegative` states that.

## Model

| member | source | states |
|---|---|---|
| Text.Strip | creator.py:28-30 | `strip()`: the result is empty exactly when the text is all whitespace, and otherwise starts and ends with non-whitespace |
| Text.StripMiddle | creator.py:28-30 | what `strip()` leaves is a slice of the text with only whitespace before and after it |
| Text.StripLayout | creator.py:28-30 | whitespace, a text without whitespace at either end, and whitespace again strip to exactly that text |
| Text.StripKeeps | creator.py:28 | every character between two non-whitespace characters survives `strip()`, so the byte-stripped line keeps the space between code and char |
| Text.SplitOnce | creator.py:30 | `split(None, 1)`: at most two parts, each non-empty and starting with non-whitespace, the first a single token; no part exactly when the text is all whitespace |
| Text.SplitOnceOfStripped | creator.py:30-31 | a stripped text splits into two parts exactly when it contains whitespace, and the second part is itself stripped |
| Text.SplitOnceLayout | creator.py:30-33 | the two parts are a prefix and a suffix of the stripped text, with only whitespace between them |
| Text.SplitOnceOfLayout | creator.py:30 | a token, a run of whitespace and a text starting with non-whitespace split back into exactly that token and that text |
| Text.Words | creator.py:143 | `split()`: every word is non-empty and free of whitespace; there is no word exactly when the text is all whitespace |
| Text.WordsOfSpread | creator.py:143 | `split()` gives back the tokens of a text laid out as tokens between runs of whitespace, of any kind and length, including leading and trailing runs |
| Text.Join | creator.py:292 | `sep.join`: one part joins to itself; when no part holds the separator, it appears in the result exactly when there are two or more parts |
| Text.SplitOnJoin | creator.py:292 | splitting a joined list at the separator gives back the list when no item holds the separator |
| Text.Upper | creator.py:34 | `upper()`: same length, every character upper-cased, no ASCII lower-case letter left, and text without lower-case letters unchanged |
| Text.FoldCase | creator.py:52-53 | the `NOCASE` key: same length, every ASCII capital folded to lower case |
| Text.FoldCaseInjective | creator.py:52-53 | on upper-cased codes, equality under `NOCASE` is plain equality |
| Lookup.NoCaseKeyIsPair | creator.py:52-53 | in a table of upper-cased codes, the `NOCASE` primary key `(code, char)` identifies a row exactly as the plain pair does |
| Lookup.NormalisedKeepsUpper | creator.py:79-81 | normalising by overrides whose codes have no lower-case letter keeps a table's codes upper-cased |
| Lookup.OverrideCodesUpper | creator.py:60-75 | no override code, as written or as intended, has a lower-case letter |
| Text.LexLess | creator.py:154 | SQLite's `BINARY` order is irreflexive: no text sorts below an equal one |
| Text.LexLessPrefix | creator.py:154 | a proper prefix sorts below the longer text, as in SQLite's `BINARY` order |
| Text.LexLessAsymmetric | creator.py:168-173 | no two texts each sort below the other |
| Text.LexLessTransitive | creator.py:168-173 | the `BINARY` order is transitive |
| Text.LexLessTotal | creator.py:168-173 | of two different texts, one sorts below the other |
| Text.PadRight | creator.py:266 | `%-6s`: the text is kept whole and followed by spaces up to the width, never truncated |
| Text.ParseInt | creator.py:146 | `int()` of a token: a value exactly when the token is digits with an optional sign; the value is the decimal value of the digits, negated after a minus sign; a negative value needs a minus sign |
| Text.ParseShowInt | creator.py:146 | `int(str(n)) == n` for every integer |
| Loader.ParseLine | creator.py:28-34 | a yielded pair has a non-empty code with no lower-case letter and a non-empty char |
| Loader.ParseLineAccepts | creator.py:28-32 | a line yields a pair exactly when it is not a `#`/`%` comment, its byte-stripped text holds a space and its Unicode-stripped text holds whitespace |
| Loader.ParseLineFields | creator.py:30-34 | the code is the upper-cased first token of the stripped line; the char is the whole stripped remainder after the whitespace run, not its first token |
| Loader.ParseFields | creator.py:27-34 | a line of leading whitespace, a code, a whitespace run holding a space, a stripped char and trailing whitespace (such as the newline `readlines` keeps) yields the upper-cased code and that char, even when the char holds spaces |
| Loader.CodeCaseIgnored | creator.py:34 | a code and its upper-cased form yield the same pair |
| Loader.ParseLines | creator.py:27-34 | a file yields at most one pair per line, and a pair exactly when one of its lines yields it |
| Loader.ReadIncodeOutchar | creator.py:23-34 | a pair is yielded exactly when some line of some file yields it |
| Lookup.SymbolCodes | creator.py:75-77 | the keys of `code_dict` are exactly the codes of the override lines: no more keys than lines, and exactly as many when no code repeats |
| Lookup.SymbolDefs | creator.py:75-78 | every pair pairs a line's code with a char of that line, and every char of a line is paired with its code; when no code repeats, the pairs of a code are exactly the chars of its line |
| Lookup.SymbolChars | creator.py:76-79 | the chars deleted are exactly the chars of the override pairs inserted |
| Lookup.OneCharPairs | creator.py:42 | `sqlparams` keeps exactly the pairs whose char is one character, and no more pairs than were read |
| Lookup.InsertedDistinct | creator.py:52-56 | `INSERT OR IGNORE` on key (code, char) grows the table by at most one row per pair; re-inserting rows already there changes nothing |
| Lookup.Normalised | creator.py:75-81 | every override pair is in the table; any row with an override char or an override code is an override pair; every other row is there exactly when it was before |
| Lookup.NormalisedIdempotent | creator.py:79-81 | normalising twice gives the same table as normalising once |
| Lookup.NormalisedKeepsOneChar | creator.py:79-81 | when every override char is one character, a table of one-character chars stays one |
| Lookup.SymbolOverridesDistinct | creator.py:60-75 | no override code is on two lines, so `code_dict` loses no line |
| Lookup.SymbolOverridesOneChar | creator.py:60-74 | every char of the intended override table is one character |
| Lookup.AsWrittenAddsEmptyChar | creator.py:60-81 | with the override table as written, normalisation always adds the row (`=`, empty char), so the table no longer has one-character chars only |
| Lookup.PopulatedOneChar | creator.py:42-81 | with the intended override table, `populate_db` leaves a table of one-character chars only |
| Derive.MaxLength | creator.py:95 | `max(length(code))`: one code of the set has that length, and no code is longer |
| Derive.Dayi4 | creator.py:94-104 | `dayi4` rows are `lookup` rows; no `lookup` code of the same char is longer; all the `dayi4` codes of a char have one length; every `lookup` row whose code is longest for its char is kept |
| Derive.Dayi4CoversChars | creator.py:94-104 | every char of `lookup` has a row in `dayi4` |
| Derive.Dayi3Code | creator.py:110-113 | a four-key code keeps its keys 1, 2 and 4; any other code is unchanged |
| Derive.Dayi2Code | creator.py:117-120 | a three-key code keeps its keys 1 and 3; any other code is unchanged |
| Derive.Dayi2OfDayi3 | creator.py:110-120 | a code of one to four keys becomes a code of at most two keys, starting with its first key and, from two keys on, ending with its last key |
| Derive.Dayi3 | creator.py:108-114 | every `dayi4` row appears shortened in `dayi3`, and every `dayi3` row comes from a `dayi4` row |
| Derive.Dayi2 | creator.py:115-121 | every `dayi3` row appears shortened in `dayi2`, and every `dayi2` row comes from a `dayi3` row |
| Derive.Dayi2CoversChars | creator.py:94-121 | every char of `lookup` keeps a row in `dayi2` |
| Derive.Dayi2Codes | creator.py:94-121 | every `dayi2` code has one or two keys and starts with the first key of a longest code of its char |
| Ranking.CorpusLine | creator.py:143-146 | a corpus line yields only a one-character, non-whitespace char; a blank line raises `IndexError`; a line whose first token is not one character is skipped; a record of four or more tokens raises `ValueError` exactly when its fourth token is not an integer; `IndexError` otherwise only when it has fewer than four tokens |
| Ranking.CorpusRecord | creator.py:143-146 | a record line `c a b n …`, its tokens separated, preceded and followed by any whitespace (tabs, the newline), yields the char `c` with the count `n` |
| Ranking.CorpusHeader | creator.py:144-145 | a line whose first token is not one character yields nothing, whatever whitespace lays its tokens out |
| Ranking.CorpusShortRecord | creator.py:144-146 | a record line with fewer than four tokens raises `IndexError`, whatever whitespace lays its tokens out |
| Ranking.ReadFromFile | creator.py:138-146 | the reader succeeds exactly when every line reads; otherwise it returns the error of the first failing line; on success a pair is read exactly when some line yields it |
| Ranking.ReadInLineOrder | creator.py:142-146 | on success the reader returns the pair of every yielding line, in line order |
| Ranking.FirstWins | creator.py:151-152 | the table gains exactly the chars of the corpus pairs, and a char already there keeps its weight |
| Ranking.FirstWinsAt | creator.py:152 | a new char takes the count of its first pair in the corpus |
| Ranking.WithSentinels | creator.py:154 | the table gains exactly the `lookup` chars below the threshold, each new one with weight -1; no existing weight changes |
| Ranking.Below | creator.py:154 | `WHERE char<?`: a `lookup` row's char is selected exactly when it sorts below the threshold, and only `lookup` chars are selected |
| Ranking.BelowThreshold | creator.py:154 | the threshold `'\u3000'`, six ASCII characters in a Python 2 byte string, is above a one-character char exactly when that char is at most the backslash |
| Ranking.Delta | creator.py:162 | `delta` lies in (0, 1] |
| Ranking.SymbolWeight | creator.py:162-164 | the first symbol gets weight 1 |
| Ranking.SymbolWeightNegative | creator.py:162-164 | every symbol after the first gets a weight of at most `-delta`, below 0 |
| Ranking.SymbolWeightStep | creator.py:164 | each step down the list lowers the weight by `delta + 1` |
| Ranking.SymbolWeightsDecrease | creator.py:162-164 | weights fall strictly along the list |
| Ranking.Weighted | creator.py:163-165 | `INSERT OR REPLACE` of the symbols: the table gains exactly the symbols, and every other char keeps its weight |
| Ranking.WeightedAt | creator.py:163-165 | a symbol ends with the weight of its last place in the list, overwriting any earlier weight |
| Ranking.SymbolsRankInOrder | creator.py:163-165 | of two symbols not repeated later, the earlier ends with the larger weight |
| Ranking.AsWrittenLacks | creator.py:156-161 | the symbol list as written has 57 entries, one of them five characters long, and holds neither `〘` nor the ideographic space |
| Ranking.AsWrittenSkipsSymbols | creator.py:156-165 | with the list as written, `〘` keeps whatever weight it had, or stays absent |
| Ranking.SymbolsWeighted | creator.py:156-165 | with the intended list of 62 symbols, the ideographic space and `〘` get the weights of their places 5 and 42 |
| Ranking.Coalesce | creator.py:170-172 | `COALESCE(freq, 0)`: the char's `wordfreq` weight, or 0 when the `LEFT JOIN` finds none |
| Ranking.RowBefore | creator.py:173 | a row may come before another only if its `NOCASE` code does not sort after the other's; with equal codes, exactly when its weight is at least the other's |
| Ranking.RowBeforeTotal | creator.py:173 | any two rows are ordered one way or the other by `ORDER BY code ASC, freq DESC` |
| Ranking.RowBeforeTransitive | creator.py:173 | that order is transitive |
| Ranking.InsertRow | creator.py:168-173 | placing a row into sorted rows keeps them sorted and adds exactly that row |
| Ranking.ResultRows | creator.py:168-173 | a `result` row is exactly a `lookup` row carrying its char's `wordfreq` weight, or 0 when the char has none |
| Ranking.ResultRowsOnePerEntry | creator.py:168-173 | `result` has exactly one row per `lookup` row |
| Ranking.IsResult | creator.py:168-173 | a `result` table has as many rows as `lookup`, and holds exactly the `lookup` rows with their weights |
| Staging.Database.constructor | creator.py:50-53 | the tables hold what an earlier run left in them, and there is no result yet |
| Staging.Database.InsertLookup | creator.py:54-55 | `lookup` becomes its old rows plus the inserted pairs; the other tables are unchanged |
| Staging.Database.DeleteChars | creator.py:79 | `lookup` loses exactly the rows whose char is deleted |
| Staging.Database.DeleteCodes | creator.py:80 | `lookup` loses exactly the rows whose code is deleted |
| Staging.Database.InsertDefs | creator.py:81 | `lookup` gains exactly the override pairs |
| Staging.Database.ApplyOverrides | creator.py:76-81 | the three passes leave `lookup` equal to `Normalised` of the old table |
| Staging.Database.PopulateDb | creator.py:36-85 | `lookup` becomes the union of the old table and the one-character pairs read, normalised by the given override table; when every override char is one character, a table of one-character chars stays one; when no override code has a lower-case letter, a table of upper-cased codes stays one |
| Staging.Database.InsertCorpus | creator.py:148-152 | `wordfreq` becomes `FirstWins` of the old table and the corpus pairs |
| Staging.Database.InsertSentinels | creator.py:154 | `wordfreq` becomes `WithSentinels` of the old table |
| Staging.Database.AssignSymbolWeights | creator.py:162-165 | `wordfreq` becomes `Weighted` of the old table by the whole symbol list |
| Staging.Database.CreateResult | creator.py:166-173 | `result` holds exactly the result rows of `lookup`, each once, in `ORDER BY` order |
| Staging.Database.CreateWordfreq | creator.py:133-176 | on a reader error, that error and no table changed; otherwise `wordfreq` is corpus, then sentinels below the given threshold, then the given symbol list's weights, over the old table, and `result` is its ordered result |
| Output.FormatLine | creator.py:266 | `%-6s%s`: the code whole, spaces up to column 6, then the text |
| Output.FormatLineReadsBack | creator.py:266 | a GCIN line for a code shorter than 6, with any whitespace after it (the newline of `"\n".join`), reads back with the `.cin` line reader as its (code, char) |
| Output.FormatLineLongCode | creator.py:266 | a code of six keys or more runs straight into its char |
| Output.GcinLines | creator.py:261-270 | one formatted line per `result` row, in order, and `wordcount` is the number of rows |
| Output.Count | creator.py:290 | `wordcount` of well-formed groups is at least the number of groups |
| Output.Expand | creator.py:290 | the groups spell out as many (code, char) pairs as `wordcount` sums |
| Output.GroupRows | creator.py:278-290 | no group is empty, neighbouring groups differ in code, the groups spell out the rows again in order, and `wordcount` is the number of rows |
| Output.MacosxLineReadsBack | creator.py:292 | a macOS line starts with its code and, split at the commas after column 6, gives back the group's chars |
| Output.MacosxLine | creator.py:292 | a macOS line starts with its code, padded with spaces to 6 columns and never truncated, followed by the comma-joined chars |
| Output.MacosxLines | creator.py:291-293 | one line per group, in order |

## Left out

- SQLite itself is not modelled: connections, `CREATE TABLE`, commits and closing. The tables are Dafny values. `COLLATE RTRIM` on `lookup.char` ignores trailing ASCII spaces when chars are compared. It governs the `USING(char)` join and also the `char<?` test at creator.py:154. The model reads the first as plain equality and the second as the plain `BINARY` order `Text.LexLess`. Both readings are exact because no stored char ends in an ASCII space: every char comes out of `strip()` or `split()`, and that includes the empty char the as-written `=` override inserts.
- A failed `create_wordfreq` is modelled as changing no table. The exception stops the script before `commit`, and the uncommitted writes are lost.
- File discovery (`os.listdir` and the `[0-9]*.cin` filter), `argparse`, opening and reading files, writing the output files and their UTF-8 and UTF-16-BE encodings are I/O. Files enter the model as sequences of lines; the model does not produce output files.
- Every `print` is left out.
- `badcodes` is left out. `codepoints` is a generator that the line before exhausts, so that list is always empty.
- The header and footer literals of both output formats are static text and are not modelled. Nor is the `"\n".join` that frames the lines.
- The override text is not parsed in the model. Its parsed result is transcribed as constants, both as written and as intended.
- `main` is not modelled as one member. It is `PopulateDb` with `SymbolOverridesAsWritten`, then `CreateWordfreq` with `CjkThreshold` and `SymCharsAsWritten`, then `GcinLines` or `GroupRows` with `MacosxLines`. The corrected constants `SymbolOverrides` and `SymChars` give the intended run.
- `fillin_dayi234`, which `main` never calls, stands alone in `Derive`.
- `Ranking.SymbolWeight`: the weights are exact reals; IEEE double rounding is left out.
- `Text.Upper`: only ASCII letters are upper-cased. Codes are keyboard keys, and other letters that Python would upper-case are not modelled.
- `Text.FoldCase`: `NOCASE` folds only ASCII capitals, as SQLite does; nothing else is folded.
- `Text.ParseInt`: `int()` is modelled for an optional sign and ASCII digits. Python also accepts other Unicode digits, which the model reads as `ValueError`.
- `Text.Strip`: the `.cin` reader strips the raw UTF-8 bytes before testing for `' '`. The model strips code points with the ASCII whitespace set instead. UTF-8 encodes no non-ASCII character with ASCII bytes, so both give the same answer. Unicode `strip` and `split` use Python 2.7's whitespace set.
- `Ranking.InsertRow`, `Staging.Database.CreateResult`: rows with equal code and equal weight may come in any order, as the `ORDER BY` leaves them unspecified. `result` is stated up to that order.
- `Derive.Dayi3`, `Derive.Dayi2`: the `dayi` tables are sets. Two `dayi4` rows of one char that shorten to the same code give one row, where SQLite would keep two.
- `Derive.Dayi4`: the `LEFT JOIN` on `dupchars` is modelled as the rows of maximal code length, all of them kept. `dupcount` is not modelled because nothing reads it.
- `Lookup.SymbolOverridesDistinct`: `code_dict` is a `dict`, so a code on two lines would keep only the last line. No code repeats, and this lemma proves it.
- `Lookup.OneCharPairs`, `Ranking.CorpusLine`: `len()` is taken to count code points, as on a wide Python 2 build. On a narrow build, such as the usual macOS Python 2, a char outside the Basic Multilingual Plane (CJK Extension B and later) has length 2, so creator.py:42 drops it and creator.py:144 skips its corpus line; the model keeps both.
- `Loader.ParseLines`, `Ranking.LineReads`: `l.decode('utf8')` at creator.py:30 and creator.py:143 raises `UnicodeDecodeError` on bytes that are not UTF-8, which stops the script. Lines enter the model already decoded, so that error path is not modelled.
- `Loader.ParseLine`: a line that is empty after reading cannot occur (`readlines` keeps the newline), so the model requires non-empty lines.

## Findings

| source | as written | input that shows it | evidently intended | confidence | as-written member | corrected member |
|---|---|---|---|---|---|---|
| creator.py:61-75 | The `=` override line ends in the ideographic space U+3000. `d.split()` on the decoded line takes it for whitespace, so the list `，,…,』,` ends in an empty char. | Any `lookup` table: normalisation inserts the row (`=`, empty char), which is then written out as a line with no char. | The `=` code types the ideographic space U+3000. | high, not executed | Lookup.AsWrittenAddsEmptyChar | Lookup.PopulatedOneChar |
| creator.py:157-161 | `split()` on the symbol list takes the U+3000 on line 157 for whitespace. `〗〘〙〚〛` on line 159 has no spaces between the brackets, so it stays one five-character token. The list has 57 entries instead of 62. | Any `wordfreq` table: `〘` keeps its corpus weight or stays absent, and the ideographic space gets no symbol weight. | Each of the 62 symbols gets the weight of its place. The ideographic space is sixth, and each bracket is its own symbol. | high, not executed | Ranking.AsWrittenSkipsSymbols | Ranking.SymbolsWeighted |
