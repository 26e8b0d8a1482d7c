# tq core: dotted-path lookup in a TOML value and shell rendering

`tq` reads a TOML document, follows a dotted key pattern such as
`server.ports` into it, and prints the value found in a form a shell can
consume: a scalar prints bare, an array prints its scalar elements separated
by one space, and a table prints `[key]=value` for each scalar entry
(ready for `declare -A m=(...)`). This project models that core of
`src/main.rs` on an already parsed value tree and proves its properties.

Modules:

- `Wrappers`: `Option` and `Result`.
- `Text`: `Join` (Rust's `join`) and `Split` (Rust's `str::split` on a
  `char`), with the lemmas that make them inverse to each other.
- `Values`: the `Value` tree (`Str`, `Bool`, `Int`, `Flt`, `Dt`, `Arr`,
  `Tbl`), `IsAtomic` (`is_atomic`), and by-key lookup (`Value::get`). A
  table is a sequence of `(key, value)` entries in iteration order.
- `Path`: `ParsePattern` (`ExportSpec::from_str`), the `NoSuchKey` error,
  and path resolution `GetPath` (`get_path`) with `GetPathLoop`, the
  source's `for` loop with early return.
- `Decimal`: the decimal text of an integer and a reader that inverts it.
- `FmtBash`: `WriteAtom` (`write_atom`), the reference functions
  `AtomTexts`, `EntryTexts` and `Render`, and the methods `FmtArray`,
  `FmtTable` and `Fmt`, which model the `had_one` loops of `FmtBash::fmt`
  and are proved equal to `Render`.
- `Pipeline`: `Export`, the pure middle of `doit`: parse the pattern,
  resolve it, render the result.

Foreign functions are parameters. `snailquote::unescape` and the `Display`
text of floats and date-times are fields of the `Externals` datatype.
Floats and date-times are abstract types. The source unwraps the result of
`unescape`. The model therefore requires unescaping to succeed wherever the
source reaches that call (`AtomWritable`, `ElemsWritable`,
`EntriesWritable`, `Renderable`). Keys of skipped composite entries are
never unescaped, so nothing is required of them.

Two notes on what the code does:

- The code never shell-quotes. String values and table keys only go
  through `snailquote::unescape`, and the result is written verbatim.
  `WriteAtom` promises exactly that, and nothing about shell safety.
- Rendering is not total. An unescape failure panics in the code. The
  model makes it a precondition.

## Model

| member | source | states |
|---|---|---|
| Text.Split | src/main.rs:44 | splitting on a char gives at least one part, no part contains the char, and joining the parts with the char gives the input back |
| Text.SplitJoin | src/main.rs:44 | splitting undoes joining for a non-empty list of parts that do not contain the separator |
| Path.ParsePattern | src/main.rs:43-46 | a pattern parses into at least one segment, no segment contains `.`, the segments joined with `.` are the pattern, and the empty pattern gives exactly one empty segment |
| Path.ParsePatternJoin | src/main.rs:43-46 | parsing is the inverse of joining: dot-free segments joined with `.` parse back to the same segments |
| Values.Lookup | src/main.rs:53 | lookup in a table's entries is `None` exactly when no entry has the key, and otherwise returns the value of the first entry with that key |
| Values.GetUniqueKeys | src/main.rs:53 | in a table with unique keys, looking up `key` gives `v` exactly when `(key, v)` is an entry |
| Path.Message | src/main.rs:30-31 | the `NoSuchKey` message is the 13-character prefix `No such key: ` followed by the whole key |
| Values.IsAtomic | src/main.rs:62-65 | a value is atomic exactly when it is not an array or a table, so strings, booleans, integers, date-times and floats are atomic |
| Values.Get | src/main.rs:53 | indexing by a string key answers `None` for every non-table; for a table it answers `None` exactly when no entry has the key, and otherwise a value stored under that key |
| Path.GetPath | src/main.rs:49-60 | a failed resolution reports the whole path joined with `.`, and the empty path resolves to the root itself |
| Path.GetPathLoop | src/main.rs:49-60 | the segment-by-segment loop with early error return computes the same result as `GetPath` |
| Path.GetPathSuccess | src/main.rs:52-59 | resolution succeeds with `v` exactly when successive table lookups of the segments lead from the root to `v` |
| Path.GetPathStuck | src/main.rs:52-57 | if the lookups succeed up to segment k and the lookup of segment k fails (no table there, or no such key), resolution fails with `NoSuchKey` carrying the entire path |
| Path.GetPathFailure | src/main.rs:52-57 | every failure has a segment whose lookup fails after all earlier lookups succeeded |
| Decimal.IntText | src/main.rs:70 | integer text is canonical decimal: only digits after an optional leading `-` (present exactly for negatives), `0` for zero and otherwise no leading zero, and no space or line break |
| Decimal.IntTextRoundTrip | src/main.rs:70 | reading back the decimal text of an integer yields that integer |
| FmtBash.WriteAtom | src/main.rs:67-77 | only scalars are written; a string is written as its unescaped text with no quoting; an integer as its canonical decimal text `IntText`, which reads back as the integer and holds no line break; a boolean as `true`/`false`; floats and date-times as their display text |
| FmtBash.Render | src/main.rs:84-121 | the displayed text of a resolved value: a root integer is its `WriteAtom` text plus a line break, every other root scalar is exactly its `WriteAtom` text; arrays and tables join the texts of their scalar parts with single spaces (see the lemmas below) |
| FmtBash.AtomicsAppend | src/main.rs:88-89 | the scalar elements of a concatenation are those of each part, in order: the filter keeps order and duplicates |
| FmtBash.AtomicEntriesAppend | src/main.rs:102-103 | the scalar entries of a concatenation are those of each part, in order |
| FmtBash.AtomTextsOfAtomics | src/main.rs:86-99 | the array loop writes one text per scalar element, in order: the j-th text is the j-th scalar element written |
| FmtBash.EntryTextsOfAtomicEntries | src/main.rs:100-114 | the table loop writes `[unescaped key]=value` once per scalar entry, in iteration order |
| FmtBash.RenderArrayTokens | src/main.rs:88-98 | for an array with at least one scalar element, when no element text holds a space, splitting its output on spaces gives back exactly the element texts: one space between neighbours, none leading or trailing |
| FmtBash.RenderTableTokens | src/main.rs:102-113 | for a table with at least one scalar entry, when no `[key]=value` text holds a space, splitting its output on spaces gives back exactly those texts |
| FmtBash.RenderArrayNoAtoms | src/main.rs:86-99 | an array that is empty or holds only arrays and tables renders as the empty string |
| FmtBash.RenderTableNoAtoms | src/main.rs:100-114 | a table with no scalar entries renders as the empty string |
| FmtBash.RenderArraySkipsComposite | src/main.rs:89 | a nested array or table inside an array is skipped silently: inserting one anywhere leaves the output unchanged |
| FmtBash.RenderTableSkipsComposite | src/main.rs:103 | an entry whose value is an array or table is skipped silently, key included |
| FmtBash.IntegerNewlineAsymmetry | src/main.rs:115-118 | a root integer renders as its text inside a one-element array followed by a line break; every other root scalar renders exactly as inside that array; inside a table the same text follows `[key]=` |
| FmtBash.FmtArray | src/main.rs:86-99 | the `had_one` array loop produces the scalar element texts joined by single spaces |
| FmtBash.FmtTable | src/main.rs:100-114 | the `had_one` table loop produces the `[key]=value` texts of the scalar entries joined by single spaces |
| FmtBash.Fmt | src/main.rs:84-121 | the display of a resolved value equals `Render`: arrays and tables as above, a root integer with a trailing line break, any other scalar via `WriteAtom` |
| Pipeline.Export | src/main.rs:132-133 | a failed lookup reports exactly the pattern the user typed, with message `No such key: ` followed by the pattern |
| Pipeline.MissingLastSegment | src/main.rs:52-57 | resolving `a.b.c` where `a.b` is an empty table fails with key `a.b.c`, not `a.b` or `c` |
| Pipeline.ArraySkipsNestedTable | src/main.rs:86-99 | `[1, {}, 2]` renders as `1 2` |
| Pipeline.TableSkipsNestedArray | src/main.rs:100-114 | `{a = 1, b = [9]}` renders as `[a]=1` when `a` unescapes to itself |
| Pipeline.RootIntegerFortyTwo | src/main.rs:115 | a root `42` renders as `42` and a line break; `[42]` renders as `42` |

## Left out

- Command-line dispatch in `main` (src/main.rs:138-192): argument counting, flag matching and help text.
- Input and output in `doit` (src/main.rs:124-136): opening the file or stdin, reading it, `print!`, and the exit code. `Pipeline.Export` models only the pure steps between reading and printing.
- TOML parsing (`toml::from_str`): the parsed `Value` tree is the input.
- The internals of `snailquote::unescape`. It is the `unescape` field of `Externals`, a partial function given as `string -> Option<string>`. Its panic on failure is a precondition.
- The display text of floats and date-times. Both are foreign formatting, so it is the `floatText` and `dtText` fields of `Externals`.
- FmtBash.WriteAtom: for floats and date-times it states only that the given display text is written, because that text is foreign.
- The table iteration order of the `toml` crate's map. A table is a sequence of entries, and every property is stated relative to that order. Unique keys are assumed only where a lemma says so (`Values.UniqueKeys`).
- The 64-bit range of TOML integers. `Int` holds any integer, and decimal text is exact for all of them, so no wrap-around arises.
- `fmt::Error` propagation through `write!` and `?`. Writing to the formatter is treated as infallible.
- The `thiserror` derivation of `Error` (src/main.rs:28-34). Only the `NoSuchKey` message text is modelled (`Path.Message`). The `IOError` variant belongs to the I/O layer.
