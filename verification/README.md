# envy: the dotenv decoder and the child environment

`envy` runs a program with extra environment variables read from a
`.env`-style file. This project models its two pure parts in Dafny and proves
properties of them:

- `parse.EnvFile` decodes the file into a map from keys to values. Its
  multi-line regular expression is written out as an explicit per-line
  tokenizer (`LineGrammar`) and a value decoder (`ValueDecode`): trim ASCII
  white space, strip one quote character from each end, expand `\n` and `\r`
  in double-quoted values. The document is folded into a map in line order,
  so the last assignment to a key wins (`Document`).
- `buildEnviron` appends one `KEY=VALUE` entry per map entry to the inherited
  environment (`Environ`). The inherited list (`os.Environ()` in the code)
  is a parameter. So is the order in which Go happens to enumerate the map.

The tokenizer follows the leftmost-first semantics of Go's `regexp`:

- After the leading spaces, `export` plus a space is tried first. If no keyed
  line follows it, the line falls back to the key `export`.
- The key is the maximal run of `[\w.-]`.
- The separator is `\s*=` followed by a lazy `\s*?`, or `:` followed by a lazy
  `\s+?`.
- The value alternatives are tried in order: single-quoted, double-quoted,
  backtick-quoted, unquoted (`[^#\r\n]+`), absent. An alternative is taken
  only if the rest of the line can still match `\s*(#.*)?$`.
- A quoted span closes at the right-most quote that allows this, because the
  greedy body gives back one character at a time.

Two partners check the tokenizer:

- A search-free grammar (`LineMatches`). The tokenizer is sound and complete
  for it.
- A renderer of well-formed lines (`LineEncode`). Every line it writes decodes
  back to the key and value it was built from, with any mix of indentation,
  `export`, `=` or `:` separators, quoting, trailing blanks and comments.
  The same holds for whole documents.

`Examples` replays several rows of the decoder's test table through these
lemmas.

Where prose descriptions of this dialect and the code differ, the model
follows the code:

- The quote strip (`quoteReplaceRegex`, `parse.go:28`) removes the first and
  last characters whenever both are any of `'`, `"` or a backtick. They need
  not match. So `K='abc"` decodes to `abc`, not to a value wrapped in
  "matching" quotes.
- Expansion depends only on whether the trimmed value starts with `"`. So an
  unterminated `K="a\nb` (taken by the unquoted alternative) is expanded too.
- An unquoted value ends at the first `#` or carriage return. A backslash
  does not escape a `#`.

## Model

| member | source | states |
|---|---|---|
| LineGrammar.FindClose | internal/parse/parse.go:16-19 | the closing position found holds the opening quote, leaves only backslash-escaped quotes in the body and lets the line end after it; no later position up to the bound can close the span |
| LineGrammar.QuotedAt | internal/parse/parse.go:16-19 | a quoted span opens at the first non-space; when found, its close is admissible and no later one is; when not found, no position can close it |
| LineGrammar.UnquotedEnd | internal/parse/parse.go:20 | the unquoted run holds no `#` or carriage return, and stops at the first of them or at the end of the line |
| LineGrammar.TailShape | internal/parse/parse.go:22-24 | the tail test holds exactly when the rest of the line is some run of `\s` followed by the end of the line or by a `#` |
| LineGrammar.ValueAt | internal/parse/parse.go:16-23 | the value chosen is a prefix of the text after which the line can still end in blanks and an optional comment |
| LineGrammar.ValueAtSound | internal/parse/parse.go:16-20 | the chosen value is one the grammar admits: a single, double or backtick quoted span, an unquoted run, or nothing |
| LineGrammar.ValueAtComplete | internal/parse/parse.go:16-23 | whenever some alternative admits a value at this point, the tokenizer finds one |
| LineGrammar.ValueFrom | internal/parse/parse.go:15 | a value is found only when the text has at least k leading spaces, and it is no longer than the text after k of them |
| LineGrammar.ValueFromSound | internal/parse/parse.go:15 | the value found follows at least k and at most all of the leading spaces, and is a value the grammar admits there |
| LineGrammar.SeparatorValue | internal/parse/parse.go:15 | a value found is shorter than the text after the key, because the `=` or `:` is consumed before it |
| LineGrammar.SeparatorValueSound | internal/parse/parse.go:15 | a value found after the key follows `=` after spaces, or `:` at once with at least one space skipped |
| LineGrammar.SeparatorComplete | internal/parse/parse.go:15 | when some admissible separator and value follow the key, the lazy search finds a value |
| LineGrammar.ParseKeyed | internal/parse/parse.go:14 | the key read is the maximal run of key characters at the start |
| LineGrammar.ParseKeyedSound | internal/parse/parse.go:14-23 | a keyed text that is read is a key, a separator and an admissible value under the grammar |
| LineGrammar.ParseKeyedComplete | internal/parse/parse.go:14-23 | a keyed text with some grammatical reading is read, with that reading's key |
| LineGrammar.ParseLine | internal/parse/parse.go:26 | the key of a matched line is a key token |
| LineGrammar.ParseLineSound | internal/parse/parse.go:26 | every assignment the tokenizer returns is a reading of the line under the grammar: leading spaces, optional `export`, key, separator, value, tail |
| LineGrammar.ParseLineComplete | internal/parse/parse.go:26 | every line the grammar can read is matched, and with the same key |
| LineGrammar.KeyDetermined | internal/parse/parse.go:26 | any two readings of a line agree on its key |
| LineGrammar.ExportEnd | internal/parse/parse.go:13 | the key after `export` starts past the word and the whole run of `\s` after it: everything in between is `\s`, and the next character is not |
| LineGrammar.ExportAtKeyStart | internal/parse/parse.go:13 | after the leading spaces, the `export` test holds exactly when the grammar lets the key start past `export` and at least one space |
| LineGrammar.ExportKeyFallback | internal/parse/parse.go:13 | when the text right after the leading spaces already reads as a keyed line, nothing keyed follows `export` and its spaces, so the word `export` is the key |
| LineGrammar.ParseLineNoKey | internal/parse/parse.go:11-14 | a blank line, or one whose first non-space is not a key character (such as a `#` comment line), assigns nothing |
| ValueDecode.TrimSpace | internal/parse/parse.go:40 | the result is the slice left after removing blank prefix and suffix; its ends are not blank; it is empty exactly when the input is all blank |
| ValueDecode.TrimSpaceOf | internal/parse/parse.go:40 | blanks, a core with non-blank ends, blanks: trimming gives the core |
| ValueDecode.TrimSpaceIdempotent | internal/parse/parse.go:40 | trimming twice is trimming once |
| ValueDecode.StripQuotes | internal/parse/parse.go:28 | when the value has two or more characters and both ends are quote characters of any kinds, exactly those two are removed; otherwise the value is unchanged |
| ValueDecode.ReplaceEscape | internal/parse/parse.go:46-47 | replacing never lengthens the text, and text without backslashes is unchanged; that it undoes escaping is stated by `ReplaceAfterEscape` |
| ValueDecode.Expand | internal/parse/parse.go:45-48 | expansion never lengthens the text and leaves text without backslashes unchanged; `ExpandEscape` shows it undoes `Escape` |
| ValueDecode.ReplaceAfterEscape | internal/parse/parse.go:46-47 | replacing `\` plus c by x undoes writing every x as `\` plus c, on text where no backslash already precedes c |
| ValueDecode.ExpandEscape | internal/parse/parse.go:45-48 | expanding `\n` then `\r` gives back text without backslashes whose carriage returns and line feeds were escaped |
| ValueDecode.DecodeValue | internal/parse/parse.go:39-49 | an all-blank span decodes to the empty string; decoding never lengthens the span |
| ValueDecode.DecodeQuoted | internal/parse/parse.go:40-48 | blanks, two quotes of any kinds around a body, blanks: the body, expanded exactly when the opening quote is `"` |
| ValueDecode.DecodeBare | internal/parse/parse.go:40-44 | a value not starting with a quote decodes to itself with surrounding blanks trimmed, backslashes kept |
| ValueDecode.DecodeOpenQuote | internal/parse/parse.go:40-48 | blanks, a quote and a body that does not end in a quote or blank, blanks: the opening quote is kept, and the value is expanded exactly when that quote is `"` |
| ValueDecode.DecodeEscaped | internal/parse/parse.go:45-48 | a double-quoted escaped text without backslashes decodes back to that text (a backslash has no escape, so `\n` written literally would decode to a line feed) |
| ValueDecode.DecodeBackslashFree | internal/parse/parse.go:44-48 | quoted text without backslashes is kept verbatim, whatever the quote kind |
| Document.Lines | internal/parse/parse.go:26 | the document is cut into at least one line, none holding a line feed |
| Document.LinesCount | internal/parse/parse.go:26 | a document with k line feeds has exactly k + 1 lines |
| Document.JoinLinesOfLines | internal/parse/parse.go:26 | gluing the lines back with line feeds gives the document |
| Document.LinesOfJoinLines | internal/parse/parse.go:26 | cutting lines without line feeds that were glued with line feeds gives those lines back |
| Document.DecodeLineValue | internal/parse/parse.go:34-49 | a line assigns nothing exactly when the grammar has no reading of it; when it assigns, the key is that of a grammatical reading and the value is that reading's raw value decoded |
| Document.EnvFile | internal/parse/parse.go:30-56 | decoding never fails, for every document |
| Document.Fold | internal/parse/parse.go:32-52 | the folded map never holds more keys than there are lines; `FoldKeys` and `FoldLast` state which keys and values it holds |
| Document.FoldKeys | internal/parse/parse.go:52 | a key is in the folded map exactly when some line assigns it |
| Document.FoldLast | internal/parse/parse.go:52 | a key's value comes from the last assignment to it |
| Document.FoldAppend | internal/parse/parse.go:33-52 | folding two runs of assignments lays the second run's map over the first's |
| Document.EnvFileConcat | internal/parse/parse.go:30-56 | decoding two documents joined by a line feed lays the second's map over the first's |
| Document.EnvFileIgnoresLine | internal/parse/parse.go:31-33 | a line the tokenizer does not match, appended to a document, changes nothing |
| Document.EnvFileLaterWins | internal/parse/parse.go:52 | an appended assigning line sets its key to its value and leaves every other key as it was |
| Document.DecodeLineKey | internal/parse/parse.go:26 | a line assigns key k exactly when some grammatical reading of it has key k |
| Document.EnvFileKeys | internal/parse/parse.go:30-56 | a key is in the decoded map exactly when some line of the document has a grammatical reading with that key |
| Document.EnvFileValue | internal/parse/parse.go:39-52 | a key's value is the decoded raw value of the last line that assigns it |
| Document.EnvFileKeysAreKeys | internal/parse/parse.go:26 | every decoded key is a non-empty run of key characters |
| LineEncode.QuotedRead | internal/parse/parse.go:16-19 | a quoted value after blanks, followed by blanks and a comment free of that quote, is read up to its closing quote, however many `#` it holds |
| LineEncode.BareRead | internal/parse/parse.go:20-23 | an unquoted value with its trailing blanks is read up to the comment, with no space needed before `#` |
| LineEncode.ValueTailRead | internal/parse/parse.go:16-49 | the value tail of a well-formed form is read and decodes to the form's value |
| LineEncode.SeparatorRead | internal/parse/parse.go:15 | after `=` or `:` and blanks, the lazy separator reads the value right after the blanks it must skip |
| LineEncode.KeyedRead | internal/parse/parse.go:14-49 | a well-formed keyed text is read with the form's key, and its raw value decodes to the form's value |
| LineEncode.LineRead | internal/parse/parse.go:11-13 | indentation and an `export` prefix are not part of the key: the line is read as the keyed text after them |
| LineEncode.DecodeLineOfRender | internal/parse/parse.go:26-49 | a rendered well-formed line decodes to exactly the form's key and value |
| LineEncode.RenderLineSingle | internal/parse/parse.go:26 | a rendered well-formed line holds no line feed, so it stays one line of its document |
| LineEncode.EnvFileOfForm | internal/parse/parse.go:30-56 | a document of one rendered line defines exactly the form's key, with its value |
| LineEncode.RenderDocumentAssignments | internal/parse/parse.go:30-52 | a rendered document is cut back into its lines, and line i assigns form i's key and value |
| LineEncode.RenderDocumentKeys | internal/parse/parse.go:30-56 | a rendered document defines exactly the keys of its forms |
| LineEncode.RenderDocumentValue | internal/parse/parse.go:30-56 | in a rendered document a key takes the value of the last form for it |
| Examples.ExampleEmpty | internal/parse/parse_test.go:20 | `EMPTY=` decodes to `EMPTY` mapped to the empty string |
| Examples.ExampleEmptyQuotes | internal/parse/parse_test.go:21-23 | empty single quotes, double quotes and backticks each decode to the empty string |
| Examples.ExampleSingleQuotes | internal/parse/parse_test.go:24 | single quotes are removed |
| Examples.ExampleEqualSigns | internal/parse/parse_test.go:49 | `=` signs after the separator stay in the value |
| Examples.ExampleSpacedKey | internal/parse/parse_test.go:55 | indentation and blanks around `=` are not part of the key or the value |
| Environ.Render | internal/envy.go:41 | an entry splits into the key, `=` and the value; `RenderInjective` shows both are read back when the key holds no `=` |
| Environ.Rendered | internal/envy.go:40-41 | entry i is key i of the order, `=`, and that key's value |
| Environ.BuildEnviron | internal/envy.go:37-45 | the result is the inherited list followed by one entry per map key: its length is the sum, the inherited list is an unchanged prefix, every key's `k=v` entry is among the appended ones, and each appended one is some key's entry |
| Environ.BuildEnvironAnyOrder | internal/envy.go:40-42 | picking the keys one at a time in an arbitrary order lists every key once and builds the same environment as that order |
| Environ.EnvironPermutation | internal/envy.go:40-41 | any two enumeration orders give environments with the same entries equally often |
| Environ.EnvironKeepsShadowed | internal/envy.go:39-41 | nothing is deduplicated: an inherited entry stays in place, and the map's entry for a key appears after the inherited ones |
| Environ.RenderInjective | internal/envy.go:41 | for keys without `=`, an entry determines its key and value |
| Environ.EnvironEntriesOnce | internal/envy.go:40-41 | when no key holds `=`, each key's entry occurs exactly once among the appended entries |
| Environ.DecodedEnvironOnce | internal/envy.go:37-45 | for the map decoded from any document, each key's entry occurs exactly once among the appended entries, whatever the order |

## Left out

- Cross-line matching. Go's pattern `envFileRegex` runs over the whole document in multi-line mode. There, `\s` also matches line feeds (in `^\s*`, in `\s*=`, and before an opening quote), and a quoted body may span physical lines. The model cuts the document at line feeds and tokenizes each line on its own. The lazy `\s+?` after `:` can cross a line feed as well. So a value on the line after `KEY=`, a quoted value containing a raw line feed, and a line ending in `KEY:` (under `envFileRegex` it reads the next line as its value text, by the usual value and comment rules, so `A:` followed by `B=2` gives `A` the value `B=2`) are not modelled; the model reads such a `KEY:` line as assigning nothing and decodes the next line on its own.
- The regular-expression engine. The pattern is modelled as the tokenizer it denotes, not as regex semantics.
- Unicode. Strings are sequences of characters, not UTF-8 bytes. Trimming removes only the ASCII white space of `strings.TrimSpace` (`\s` plus vertical tab), not other Unicode spaces.
- The `len(submatch)` guards (`parse.go:35-39`) always hold for this pattern, which has two groups. An absent value group is the empty span, which decodes to the empty string.
- `readEnvFile`, `runProc` and `RunWithEnvFile` in `internal/envy.go`. They do file reading, process spawning and stdio forwarding. `os.Environ()` becomes the `inherited` parameter.
- Go's unspecified map iteration order becomes the enumeration-order parameter `o`. `BuildEnvironAnyOrder` picks an arbitrary order.
- `cli/root.go` is not part of this model; it is argument checking and exit codes.
- How `exec` treats duplicate names in the environment it is given is not modelled.
- `fmt.Sprintf("%s=%s", k, v)` on strings is modelled as the concatenation `k + "=" + v`.
- LineEncode.WellFormed: the round trip covers only the lines the renderer writes. Indentation, the spaces after `export`, the blanks around a separator and the gap before a comment are spaces and tabs only. A bare value holds no `#`, carriage return or line feed, does not start with a quote, and has no blank at either end. A quoted value holds no quote of its own kind, not even an escaped one. A double-quoted value holds no backslash, and a single- or backtick-quoted one no line feed (carriage returns are allowed there). A comment holds no line feed, and after a quoted value no quote of that kind. Lines outside this class are covered by the tokenizer's soundness and completeness lemmas, not by the round trip.
- LineGrammar.ParseLineComplete: states only that the key agrees. A line can have several grammatical readings with different raw values, and the tokenizer picks the leftmost-first one. `ParseLineSound` says that reading is grammatical.
- Examples: only the shorter rows of the test table are carried through as concrete lemmas. The other single-assignment rows are instances of `DecodeLineOfRender` and the `ValueDecode` lemmas. The two multi-line rows, a blank line and a comment line between assignments (`parse_test.go:16-19`) and a comment line before an assignment (`parse_test.go:43-44`), go through `EnvFileConcat` and `EnvFileIgnoresLine`, with `ParseLineNoKey` for the blank and comment lines.
