# Column renamer: a Dafny model

`convert_column_names.py` rewrites SQL data files so that camelCase column
names become snake_case. It has two pieces of string logic, and both are
modelled here:

- **The replacement loop of `convert_sql_file`.** A fixed table of 31
  `(camelKey, snake_value)` pairs is folded over the file content in
  dictionary order. For each pair, `re.search(r'\bkey\b', content)` decides
  whether the pair is recorded, and `re.sub` replaces every whole-word
  occurrence. The function returns the number of recorded pairs. The driver
  `main` adds these counts up over the listed files that exist.
- **`camel_to_snake`.** It makes two left-to-right regex rewrites and then
  lower-cases. Pass 1 is `(.)([A-Z][a-z]+)` and pass 2 is `([a-z0-9])([A-Z])`.
  The script never calls it. Here it proves that every value of the table is
  `camel_to_snake` of its key.

Strings are `seq<char>`, and everything is stated over ASCII. A word character
is `[A-Za-z0-9_]`, and lower-casing maps `A`-`Z` to `a`-`z` and nothing else.
Python's Unicode-aware `\w`, `\b` and `str.lower()` on non-ASCII letters are
not modelled.

Modules, in dependency order:

- `Chars` (chars.dfy): character classes and ASCII lower-casing.
- `Seqs` (seqs.dfy): splitting and regrouping facts about sequences.
- `CaseConvert` (case_convert.dfy): the two passes as explicit `re.sub` scans.
  It also holds a position-by-position reference (`GapBefore`, `Spaced`) that
  says where the underscores go, and the proof that the passes compute it.
- `Words` (words.dfy): a text as maximal runs of word characters (`WordsOf`).
  `MapWords` renames those runs.
- `WholeWord` (whole_word.dfy): the `\bkey\b` search and substitution scans.
  It proves that, for a key made of word characters, they are "is the key one
  of the words" and "rename that word".
- `Mappings` (mappings.dfy): the ordered fold with its record of pairs, and
  what it amounts to for a well-formed table.
- `ColumnTable` and `ColumnRows` (column_table.dfy, column_rows.dfy): the 31
  pairs, and a row-by-row check of their shape.
- `Convert` (convert.dfy): `convert_sql_file` on content, with the fixed table.
- `Driver` (driver.dfy): the loop of `main` over the five file names.

The comment at convert_column_names.py:14 says pass 1 inserts an underscore
after a lowercase letter or digit. The code's pass 1 accepts any character
except a newline before `[A-Z][a-z]+`, and the model follows the code.
`GapBefore` states this precisely.

## Model

| member | source | states |
|---|---|---|
| Chars.ToLower | convert_column_names.py:17 | the result is never a capital; a capital maps to the small letter at the same alphabet offset; every other character is kept |
| Chars.Lower | convert_column_names.py:17 | `.lower()` keeps the length, lower-cases each position, and leaves no capital |
| CaseConvert.LowerRunEnd | convert_column_names.py:15 | the greedy `[a-z]+` run of pass 1 ends at the first non-small letter, or at the end |
| CaseConvert.CamelToSnake | convert_column_names.py:12-17 | the result has no capital and is at least as long as the input |
| CaseConvert.TwoPassesAreSpaced | convert_column_names.py:15-17 | pass 2 after pass 1 puts exactly one underscore before each capital that follows a small letter or digit, or that is followed by a small letter and preceded by something other than a newline |
| CaseConvert.Pass2Append | convert_column_names.py:17 | pass 2 over a concatenation is pass 2 of each part, plus an underscore exactly when a small letter or digit meets a capital at the seam |
| CaseConvert.CamelToSnakeIsSpaced | convert_column_names.py:15-17 | the two passes from the start equal the position-by-position reference spacing |
| CaseConvert.CamelToSnakeIsLowerSpaced | convert_column_names.py:12-17 | camel_to_snake is the reference spacing, lower-cased |
| CaseConvert.CamelToSnakeOnlyInsertsUnderscores | convert_column_names.py:15-17 | the output is the lower-cased input with only `_` characters inserted |
| CaseConvert.CamelToSnakeOfNoUpper | convert_column_names.py:15-17 | an input without capitals comes back unchanged |
| CaseConvert.CamelToSnakeIdempotent | convert_column_names.py:12-17 | applying camel_to_snake twice is the same as once |
| CaseConvert.CamelToSnakeKeepsOrder | convert_column_names.py:15-17 | each input character lands, lower-cased, at its reference position in order, with `_` just before it when there is a gap |
| CaseConvert.UnderscoreBetweenSmallAndCapital | convert_column_names.py:14-17 | wherever a small letter or digit is followed by a capital, the output has exactly `_` between the two characters |
| CaseConvert.Pass1ResumesAfterMatch | convert_column_names.py:15 | pass 1 resumes after its match: `aBcDe` becomes `a_BcDe`, not `a_Bc_De` |
| CaseConvert.CamelToSnakeSplitsAtCapitals | convert_column_names.py:15-17 | for a name whose every capital follows a small letter or digit, the output puts `_` before each capital and lower-cases it |
| Words.MapWordsIdentity | convert_column_names.py:80 | renaming with a function that fixes every word of a text leaves the text as it is |
| Words.MapWordsCongruent | convert_column_names.py:80 | renaming depends only on what the function does to identifiers |
| Words.MapWordsCompose | convert_column_names.py:76-80 | renaming twice is renaming once with the composition, when the first renaming keeps identifiers |
| Words.WordsOfMapWords | convert_column_names.py:80 | the words of a renamed text are the renamed words, in order |
| Words.MapWordsKeepsSkeleton | convert_column_names.py:80 | renaming leaves every character outside the words where it was |
| WholeWord.Search | convert_column_names.py:79 | the search scan succeeds exactly when `\bkey\b` matches somewhere |
| WholeWord.SearchIsWordMembership | convert_column_names.py:78-79 | for a key of word characters, the search succeeds exactly when the key is one of the text's maximal words |
| WholeWord.ReplaceWholeWordIsMapWords | convert_column_names.py:78-80 | the substitution scan replaces exactly the maximal words equal to the key and copies everything else; a key glued to another word character is left alone |
| WholeWord.NoOccurrenceLeft | convert_column_names.py:80 | after a pair's substitution no whole-word occurrence of its key remains |
| WholeWord.NoMatchNoChange | convert_column_names.py:79-80 | without a whole-word occurrence, the substitution changes nothing |
| Mappings.ApplyMappings | convert_column_names.py:76-82 | the recorded pairs are drawn from the table in table order, each at most once, so the count is at most the table size |
| Mappings.ChainIsLookup | convert_column_names.py:76-80 | when no value is also a key, the renamings applied in order send each word to the value of its pair, or leave it |
| Mappings.ApplyMappingsIsSequential | convert_column_names.py:76-80 | the fold's content is the text with each word sent through all the single renamings in table order |
| Mappings.ApplyMappingsIsSinglePass | convert_column_names.py:76-80 | for a well-formed table the ordered fold equals one pass that replaces each word by its table value |
| Mappings.RecordedArePresentKeys | convert_column_names.py:79-81 | for a well-formed table, a pair is recorded exactly when its key is a whole word of the original content, in table order |
| Mappings.PresentMembership | convert_column_names.py:79-81 | with distinct keys, a pair is in the reference list `Present(table, ws)` exactly when its key is in `ws`; for a well-formed table that list is the recorded one (Mappings.RecordedArePresentKeys) |
| Mappings.NoKeyNoChange | convert_column_names.py:79-81 | when no key is a whole word, the content is unchanged and nothing is recorded |
| Mappings.NoKeyLeft | convert_column_names.py:76-80 | after the fold no key of a well-formed table is left as a whole word |
| Mappings.ApplyMappingsIdempotent | convert_column_names.py:76-82 | for a well-formed table, running the fold on its own output changes nothing and records nothing |
| Mappings.ChainedRenaming | convert_column_names.py:76-80 | when a value is a later key, the fold chains the renamings (`x` becomes `z` through `y`) and records both pairs |
| ColumnTable.CamelEntryFacts | convert_column_names.py:35-69 | a checked row has identifier key and value, a capital in the key, and the value equal to camel_to_snake of the key |
| ColumnTable.CheckedTableWellFormed | convert_column_names.py:33-70 | a table whose rows all pass the check has identifier keys and values, distinct keys, and no value equal to a key |
| ColumnTable.CheckedTableIsSnakeCase | convert_column_names.py:35-69 | in a table whose rows all pass the check, each value is camel_to_snake of its key |
| ColumnRows.EveryRowChecked | convert_column_names.py:35-69 | each of the 31 rows is a camelCase key with its split-and-lower-cased value, and no key is repeated |
| Convert.ColumnMappingsWellFormed | convert_column_names.py:33-70 | the table has 31 pairs of identifiers, distinct keys, and no value that is a key |
| Convert.ValuesAreCamelToSnake | convert_column_names.py:35-69 | every value of the table is camel_to_snake of its key |
| Convert.ConvertSqlFile | convert_column_names.py:76-95 | the converted content replaces each whole word that is a key by its value and nothing else; the recorded pairs are the keys present as whole words; the count is at most 31 |
| Convert.ConvertKeepsSkeleton | convert_column_names.py:76-80 | outside the words the converted content is the input, and its words are the input's words looked up in the table |
| Convert.CountIsKeysPresent | convert_column_names.py:79-81 | pair j is recorded exactly when its key is a whole word of the input |
| Convert.NoColumnNoChange | convert_column_names.py:79-95 | a file where no key occurs as a whole word is left unchanged with count 0 |
| Convert.ConvertIdempotent | convert_column_names.py:76-95 | converting converted content changes nothing and counts 0 |
| Convert.EmbeddedKeyUntouched | convert_column_names.py:78 | `userId` inside `xuserId` or `userIds` is not replaced |
| Driver.ConvertAll | convert_column_names.py:114-125 | no SQL file is created or removed; the text of each listed existing SQL file, as read, ends as the conversion of that text, which is settled; the texts of unlisted SQL files are left alone; the total is at most 31 per listed name |
| Driver.Main | convert_column_names.py:97-128 | a missing base directory ends the run with an error; otherwise the text of each of the five SQL files that exists, as read, becomes its conversion, the texts of other SQL files are left alone, no SQL file is created or removed, and the total is the sum of the five files' own counts, at most 155 |
| Driver.TotalIsSum | convert_column_names.py:119-128 | over a list without repeated names, the reported total is the sum of the counts each listed existing file gets from its original text |
| Driver.MissingFileSkipped | convert_column_names.py:119-125 | a listed name with no file contributes nothing: the run is the same as if the name were not listed |
| Driver.SettledRunIsIdle | convert_column_names.py:119-125 | a run over SQL files whose texts are settled writes each text back as it was read and totals 0 |
| Driver.RerunIsIdle | convert_column_names.py:119-125 | a second run over the same names writes back every SQL text as the first run left it and totals 0 |

## Left out

- File I/O is not modelled: the UTF-8 read and write of each file (convert_column_names.py:24-25, 84-85) and decode errors. Content is a string in and a string out, and the file is written back even when nothing changed.
- The `.backup` copy is not modelled (convert_column_names.py:28-29). It is a file-system side effect. The content is read before the copy, and an existing backup is overwritten without notice.
- Driver.SettledRunIsIdle: the map holds each file's text as read in text mode, where `\r\n` and `\r` have become `\n` (convert_column_names.py:24). Writing turns each `\n` into the platform's line separator (convert_column_names.py:84-85), so a file whose line endings are not the platform's is rewritten on disk even when its text is settled. The Driver rows speak of texts, not bytes on disk.
- Driver.ConvertAll: the map of files holds the SQL files only. The real directory gains a `<name>.backup` file for each converted file, and a second run overwrites each backup with already converted content, so the original content is lost. "No file is created" and "changes nothing" in the Driver rows are about the SQL files only.
- All console output is left out (convert_column_names.py:21, 30, 87-94, 116-131). This includes the text of the recorded `"key -> value"` strings; the model records the pairs themselves.
- `main`'s hard-coded Windows directory is left out. The directory check is a boolean input. File existence is membership in the map of files.
- Unicode is out of scope: `\w`, `\b` and `.lower()` are modelled over ASCII only.
- WholeWord.ReplaceWholeWord: copies the value literally. Python's `re.sub` expands backslash escapes and group references in the replacement string, so the model agrees with it only for values without a backslash. Every value of the table is made of small letters and `_`.
- WholeWord.ReplaceFrom: requires a non-empty key. With an empty key, Python's `\b\b` would match at every word boundary. Every key of the table is non-empty.
- WholeWord.SearchIsWordMembership: stated only for keys made of word characters. A key with other characters would make `re.escape` and the edge `\b` tests matter. Every key of the table is made of letters.
- Mappings.ApplyMappingsIsSinglePass: stated only for well-formed tables (identifier pairs, distinct keys, no value that is a key). Mappings.ChainedRenaming shows what the fold does otherwise.
- Driver.ConvertAll: the total is stated as the sum of the files' own counts (Driver.TotalIsSum) only for lists without repeated names. A repeated name is converted a second time and counts 0 then (Convert.ConvertIdempotent); the five file names of the driver are distinct.
- The INSERT statement used as an end-to-end example of the renamer is not worked through as a concrete lemma. Convert.ConvertSqlFile and Convert.CountIsKeysPresent state the general rule it follows.
- Python dictionary semantics come down to insertion order here. ColumnRows.EveryRowChecked proves that the keys are distinct, so the literal loses no entry.
