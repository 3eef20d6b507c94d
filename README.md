# Terminal prompts: escaping, path completion and prompt state machines

A Dafny model of the sequential core of a terminal prompt library (a fork of
`dialoguer`): the shell-safe path escaping of `src/tools.rs`, the path
completion of `src/completers/path.rs`, and the four prompt loops of
`src/prompts.rs` (confirmation, typed line input, password entry and the
directory-browsing file picker).

Terminal reads are modelled as a sequence of inputs consumed one read at a
time (characters for the confirmation, lines for input and passwords, keys for
the file picker). Running out of input stands for the read failing, and the
model returns `Terminal.Outcome.Exhausted`. The confirmation, input and
password prompts pass that I/O error to their caller. The file picker
unwraps its key read instead (see "## Left out"). A successful loop returns `Done(value, next)`,
where `next` counts the inputs read. The filesystem has two forms. Path
completion gets the items `read_dir(".")` yields. The file picker gets a
snapshot: a map from each directory to its names, plus a resolution function
that stands for `join` followed by `canonicalize`.

Modules, one per source file or component:

- `Tools`: `escape_path` and `wrap_sep_string`. Both insert backslashes, and
  `wrap_sep_string` also puts the separator at both ends. `Chunks(s, marks)` emits the characters of `s` in order, with a
  backslash before each marked one. `EscapePath` is the per-character map of
  the regex replacement. `WrapSepString` is the source's scanner, with its
  `met_subsep`/`previous_subsep` flags, shown to compute
  `sep + Chunks(s, Marks(sep, s)) + sep`.
- `PathCompleter`: `split_path` and `complete_path`, with `Completion` and
  `Suffix` as datatypes.
- `NameOrder`: the lexicographic order of `Vec<String>::sort` and a sort
  proved to return the unique sorted permutation.
- `Validation`: the validator chain that `validate_with` builds by wrapping closures.
- `ConfirmationPrompt`, `InputPrompt`, `PasswordPrompt`, `FilePrompt`: the
  prompt loops of `src/prompts.rs`.
- `Options`, `Terminal`: the `Option` type and the outcome of a read loop.

The model follows what the code does where that differs from what its names and comments suggest:

- The file picker's entry list is not sorted as a whole. Only the real names
  are sorted, and they come after `.` and `..`. A name such as `-a` sorts
  before `.` but is still listed after it.
- `complete_path` is documented as returning a sorted list. It returns the
  candidates in directory-read order.
- `complete_path` always lists the current directory `"."`, never the
  directory part of the fragment.
- The custom-quoting path of `complete_path` never runs, because its quoting
  separator is the empty string.

## Model

| member | source | states |
|---|---|---|
| `Tools.EscapePath` | src/tools.rs:59-70 | the result is at least as long as the input and at most twice as long |
| `Tools.EscapePathAlphabet` | src/tools.rs:61-69 | escaping adds nothing but backslashes: every character of the result is a character of the input or a backslash |
| `Tools.EscapePathIsChunks` | src/tools.rs:59-70 | escape_path keeps every character in order and puts one backslash before exactly the characters of the pattern's class |
| `Tools.UnescapeEscapePath` | src/tools.rs:61-69 | reading the backslash escapes back recovers the input exactly (a backslash in the input is itself escaped) |
| `Tools.EscapePathLength` | src/tools.rs:69 | the output is longer than the input by the number of special characters |
| `Tools.EscapePathPlain` | src/tools.rs:61-69 | a string with no special character is returned unchanged |
| `Tools.EscapePathConcat` | src/tools.rs:69 | escaping distributes over concatenation: each character is escaped independently of its neighbours |
| `Tools.ChunksLength` | src/tools.rs:45-51 | backslash insertion adds exactly one character per marked position |
| `Tools.WrapSepString` | src/tools.rs:28-54 | the scanner returns `sep`, then the input with a backslash before each position `Marks` selects, then `sep`; the result begins and ends with `sep` |
| `Tools.QuoteNeverOpens` | src/tools.rs:36-44 | with a non-empty separator the quote flag never toggles |
| `Tools.SingleCharSeparator` | src/tools.rs:36-50 | with a one-character separator the marked positions are exactly that character's occurrences, so spaces other than the separator are not escaped, and no quote region opens |
| `Tools.LongSeparator` | src/tools.rs:45-47 | a separator of two or more characters never equals one character, so nothing between the separators is escaped |
| `Tools.EmptySeparator` | src/tools.rs:36-50 | with an empty separator no separator is escaped, and a space is escaped exactly when it is outside a quote region |
| `Tools.QuoteRegionOpened` | src/tools.rs:36-44 | an open region was opened by a backtick or double quote read outside any region, and that same character has not appeared since |
| `Tools.QuoteRegionStaysOpen` | src/tools.rs:36-44 | a region, once opened, stays open through every character except the one that opened it, including the other quote character |
| `Tools.QuoteRegion` | src/tools.rs:36-44 | both directions: the scanner is inside a region opened by `q` if and only if such an opening position exists |
| `PathCompleter.RFindSeparator` | src/completers/path.rs:105 | finds the last separator: nothing exactly when there is none, otherwise a separator position with no separator after it |
| `PathCompleter.SplitPath` | src/completers/path.rs:104-109 | no separator gives `(None, path)`; otherwise `(Some(d), f)` with `d + f == path`, `d` ending in the last separator and `f` free of separators |
| `PathCompleter.CollapseSlashes` | src/completers/path.rs:74 | replacing `//` by `/` never lengthens the string, empties only the empty string, and keeps every character other than `/` with its multiplicity |
| `PathCompleter.CollapsePlain` | src/completers/path.rs:74 | collapsing `//` leaves a string without `//` unchanged |
| `PathCompleter.CollapseJoin` | src/completers/path.rs:66-74 | joining a directory part that ends in `/` with another `/` and a name, then collapsing, gives directory part + name, when neither part holds `//` |
| `PathCompleter.MakeCompletion` | src/completers/path.rs:66-90 | the label is present exactly when there is a directory part, and it is then the bare name; the suffix is the separator exactly for a directory; un-escaping the text gives back the collapsed join of directory part, `/` and name |
| `PathCompleter.Keeps` | src/completers/path.rs:55-65 | a kept item was read, has a text name at least as long as the file-name part, and is a directory when only directories are asked for |
| `PathCompleter.CompletionsOf` | src/completers/path.rs:53-96 | there are never more candidates than listing items |
| `PathCompleter.CompletionsOfSnoc` | src/completers/path.rs:54-95 | one more listing item appends its candidate to the end when it is kept and nothing otherwise, so candidates come in listing order |
| `PathCompleter.CompletePath` | src/completers/path.rs:36-102 | the loop over the listing returns exactly the candidates `Completions` describes, in listing order, or nothing when the directory cannot be read |
| `PathCompleter.CompletionsSound` | src/completers/path.rs:53-96 | each candidate is built from a read entry whose name is text and starts with the file-name part (and is a directory when only directories are asked for) |
| `PathCompleter.CompletionsComplete` | src/completers/path.rs:53-96 | every read entry with a text name that starts with the file-name part, and that passes the directories-only filter, yields its candidate |
| `PathCompleter.CandidateFields` | src/completers/path.rs:66-90 | the label is `Some(name)` exactly when the fragment has a directory part, the suffix is the separator exactly for directories, and the text is escape_path of the collapsed join |
| `PathCompleter.CandidateText` | src/completers/path.rs:66-77 | for a directory part without `//` and a name without `/`, the text is escape_path of directory part + name |
| `PathCompleter.DirectoriesOnly` | src/completers/path.rs:57-60 | with the directories-only flag every candidate carries the directory suffix |
| `PathCompleter.CompleteEmptyExample` | src/completers/path.rs:36-102 | over `a.txt`, directory `b` and `abc`, the empty fragment keeps all three, with only `b` marked by the separator suffix |
| `PathCompleter.CompletePrefixExample` | src/completers/path.rs:36-102 | over the same listing the fragment `a` keeps exactly `a.txt` and `abc` |
| `NameOrder.LessEq` | src/prompts.rs:263 | the order of `String`: a prefix comes first, and a string never comes before a proper prefix of it |
| `NameOrder.Sort` | src/prompts.rs:263 | the sorted names are sorted and a permutation of the input |
| `NameOrder.SortedUnique` | src/prompts.rs:263 | two sorted permutations of the same names are equal, so the sorted order is determined by the names alone |
| `Validation.ValidateWith` | src/prompts.rs:415-428 | the new closure returns the previous chain's rejection when there is one, and otherwise the new validator's answer |
| `Validation.Chain` | src/prompts.rs:415-428 | the chain is absent exactly when nothing was registered, and any rejection it returns is the message of one of the registered validators |
| `Validation.FirstRejection` | src/prompts.rs:415-428 | reference chain semantics: accepts exactly when every validator accepts; otherwise returns the message of the first rejecting validator in registration order |
| `Validation.ChainIsFirstRejection` | src/prompts.rs:415-428 | the nested closures that validate_with builds behave exactly like that reference: registration order, first rejection wins |
| `ConfirmationPrompt.InteractOn` | src/prompts.rs:137-162 | returns a value exactly when some character is y, Y, n, N, newline or carriage return; the value comes from the first such character (yes for y/Y, no for n/N, the configured default for newline/CR) and every earlier character is skipped |
| `InputPrompt.Judge` | src/prompts.rs:454-478 | an empty line with a default yields that default, whatever the validator; an empty line with no default, when empty input is not permitted, re-prompts; any other accepted line passed every validator and parsed to the value; conversely a line that reaches the validators and passes them all is accepted with its parsed value when it parses, and is unparsable, so the prompt asks again, when it does not; a line is rejected exactly when it reaches the validators and one rejects, and the message is the validator chain's |
| `InputPrompt.InteractOn` | src/prompts.rs:440-481 | returns a value exactly when some line is accepted; the value is the first accepted line's, and every earlier line was re-prompted, rejected or failed to parse |
| `InputPrompt.InputExamples` | src/prompts.rs:454-478 | a validator refusing more than three characters rejects `hello` and accepts `hi`; with default `main` the empty line yields `main` whatever validator is set |
| `PasswordPrompt.NextPassword` | src/prompts.rs:554-563 | the password read is the first non-empty read (any read when empty passwords are allowed); all reads skipped before it were empty |
| `PasswordPrompt.PromptPassword` | src/prompts.rs:554-563 | the read loop returns exactly `NextPassword` |
| `PasswordPrompt.Session` | src/prompts.rs:532-552 | a returned password is a line that was read, and it is non-empty unless empty passwords are allowed; with no confirmation configured the result is exactly the first password read (`NextPassword`) |
| `PasswordPrompt.InteractOn` | src/prompts.rs:532-552 | the confirmation loop returns exactly `Session` from the first read on |
| `PasswordPrompt.ConfirmedTwice` | src/prompts.rs:538-545 | with a confirmation configured, a returned password was entered and then confirmed by an equal second read |
| `PasswordPrompt.MismatchRestarts` | src/prompts.rs:538-545 | two different reads in a row restart the interaction after them |
| `PasswordPrompt.PasswordExamples` | src/prompts.rs:536-552 | `secret`, `secret` returns `secret`; `secret`, `other` starts over from the first prompt |
| `FilePrompt.ListEntries` | src/prompts.rs:257-265 | `.`, then `..`, then the directory's names sorted (a permutation of them); the length is two more than the number of names, so it is never empty |
| `FilePrompt.BumpIndex` | src/prompts.rs:267-282 | no selection gives 0; a selection gives an index in range; from an index in range the result is the next index forwards or the previous one backwards, modulo the length (last to 0, 0 to last) |
| `FilePrompt.Valid` | src/prompts.rs:64-68 | a valid state can be browsed (its directory is listed and the selection is in range) and its listing starts with `.` and `..` |
| `FilePrompt.InitialState` | src/prompts.rs:343-358 | the first state is the default directory with its listing and the first entry selected, and satisfies the browser invariant |
| `FilePrompt.Step` | src/prompts.rs:290-340 | every transition that continues leads to a state satisfying the invariant (a directory, its fresh listing, a selection in range); arrows, Tab and Escape keep the directory; any key other than Enter, the arrows, Tab and Escape ends the browser on the current path |
| `FilePrompt.Bumped` | src/prompts.rs:319-338 | the arrow, Tab and Escape transition keeps the path, re-lists it and keeps the selection in range |
| `FilePrompt.StepCases` | src/prompts.rs:293-339 | Enter with no selection or on `.` returns the current path; Enter on any other entry moves to its resolved path, listed with the first entry selected, when that is a directory, and otherwise returns the resolved path; any key other than Enter, the arrows, Tab and Escape returns the current path; Up/Escape and Down/Tab re-list and move the selection backwards and forwards |
| `FilePrompt.Run` | src/prompts.rs:284-341 | the recursive browser consumes at least one key before returning a path; every key before the last one it reads, and every key when it runs out, is Enter, an arrow, Tab or Escape, so any other key ends it |
| `FilePrompt.RunEndsOnListedPath` | src/prompts.rs:293-317 | from a valid state the browser returns either a directory or a non-directory resolved from an entry (other than `.`) of a listed directory |
| `FilePrompt.InteractOn` | src/prompts.rs:284-359 | the loop over keys, with its fully replaced state, returns exactly what the recursive inner_loop returns from the initial state |
| `FilePrompt.Render` | src/prompts.rs:238-255 | the frame is the prompt with the current path, then one line per entry in order, highlighted exactly where the selection is |
| `FilePrompt.OneHighlighted` | src/prompts.rs:246-253 | in every valid state exactly one entry line, the selected one, is highlighted |
| `FilePrompt.ListEntriesExample` | src/prompts.rs:257-265 | a directory holding `y` and `x` is listed as `.`, `..`, `x`, `y` |

## Left out

- The theme renderer and the theme (prompt, selection, error and result lines, clearing, height settings) are presentation only, and their source is not part of this model. `FilePrompt.Render` models only which lines the file picker asks for.
- Terminal writes, `clear_line` and their I/O errors are not modelled. Writes are taken to succeed. Reads that fail are modelled by running out of input.
- Filesystem failures that the source unwraps are not modelled. These are `read_dir` failing on a listed directory, a name that is not text in `list_entries`, and `canonicalize` failing on a vanished entry. `FilePrompt.InteractOn` instead requires a default that is set and names a directory, since the source unwraps both.
- FilePrompt.Run: a failed key read panics in the source, because `read_key` is unwrapped (src/prompts.rs:291). The model returns `Exhausted` when the keys run out, and it does not model the panic.
- FilePrompt.Step: works over one fixed filesystem snapshot, so re-listing on each key always shows the same names. Changes on disk during the interaction are not modelled.
- The quoted branch of `complete_path` (src/completers/path.rs:79-86) never runs, because the quoting separator is the empty string (line 46). It is not modelled; `wrap_sep_string` is modelled on its own in `Tools`.
- `complete_path` computes a lookup directory (line 52) that it never uses. The model does not carry it.
- The regex crate is replaced by the character-class predicate `Tools.IsSpecial`. The fallback for a pattern that does not compile (src/tools.rs:65-66) cannot happen with the constant pattern.
- FilePrompt.BumpIndex: indexes are unbounded integers, not `i32`. All indexes stay below the entry count, so the width never matters. The function also requires a non-empty entry list when there is a selection, because the source's `len() - 1` would underflow.
- InputPrompt.Judge: a parse failure carries no message, because the `Display` of `T::Err` is not modelled. Parsing is a caller-supplied partial function `string -> Option<T>`, and the source's `Display` of the default is not modelled either.
- Builder setters (`with_text`, `default`, `show_default`, `allow_empty`, `with_prompt`, `with_confirmation`, `allow_empty_password`) are plain field assignments. The configurations are records. `validate_with` is modelled as `Validation.ValidateWith`, and it is the same for `Input` (src/prompts.rs:415-428) and `FileInput` (src/prompts.rs:214-228).
- `FileInput`'s validator, empty-input flag and default display are never consulted by its interaction. They are kept in the record and have no effect.
- `interact`, which only picks the standard error terminal, is not modelled separately from `interact_on`.
- Not modelled: the `println_stderr!` macro, the commented-out linefeed `Completer` implementation and the example programs `examples/file_prompt.rs`, `examples/prompt_character.rs` and `examples/edit.rs`.
