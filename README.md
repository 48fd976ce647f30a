# kvtool core, modelled in Dafny

kvtool is a small command-line tool. It converts between dotenv files and
JSON, and it reads named "stores" out of a JSON configuration file. This
project models the parts of it whose behaviour can be stated exactly:

- **Value escaping** (`escape.dfy`). `escapeEnvValue` turns backslash,
  double quote, LF, CR and TAB into two-character escapes.
  `unescapeEnvValue` undoes them and passes every other backslash through.
  Both are loops proved equal to the recursive specifications `Escape` and
  `Unescape`. The round trip holds for every string, and `Escape` is a
  bijection onto the well-escaped strings.
- **Dotenv parsing and printing** (`dotenv.dfy`). `DotenvToJSON` is a loop
  over lines that updates one result map. Each line is first classified
  (`ParseLine`: skipped, a key/value pair, or an error), and the results
  are then folded into the map (`Collect`). The fold lemmas state:
  - blank and comment lines are ignored;
  - the first bad line decides the error;
  - the last duplicate key wins;
  - every key of the result comes from some line.

  `JSONToEnv` writes one `key="escaped value"` line per key, in the order
  the map iteration chooses. Its output, read back by the parser, yields
  every key with `fmt.Sprint` of its value, whatever the order, provided
  the keys are "portable". Portable keys are non-empty and have no white
  space at either end. They contain no `=`, LF or CR, and do not start
  with `#`.
- **Store resolution and flag flattening** (`kvtool.dfy`).
  - `getStoreKV` is a total function whose contract separates its four
    error cases and its success case exactly.
  - `mapToFlagArgs` gathers the argument keys, sorts them, and appends each
    key's flags. It is proved equal to `Flatten` over the sorted keys.
  - A reader of the flag list (`ReadFlags`) recovers one flag per non-null
    argument, in key order, when no key contains `=`.
- **Validated repository** (`repository.dfy`). This is a class over a
  `map<string, T>`. `ValidatePath` rejects the empty key and keys
  containing `< > " | ? * /`. Every mutation keeps the invariant that all
  stored keys are valid and changes only its own key's entry. The test
  scenario of repository_test.go is replayed with its expected results as
  postconditions.
- **Plain registry** (`registry.dfy`). This has the same shape as the
  repository, without validation and with boolean outcomes. Its test
  scenario is replayed in the same way.

Supporting modules:
- `wrappers.dfy` holds `Option`, `Result` and `Outcome`.
- `text.dfy` models the Go library functions the core relies on:
  `strings.TrimSpace` with `unicode.IsSpace`, `strings.Index` for one
  character, and the order and result of `sort.Strings`.
- `json.dfy` holds decoded JSON values and the exact part of `fmt.Sprint`:
  `<nil>`, `true`/`false` and strings. The Go renderings the model does not
  spell out (float formatting, `fmt.Sprint` of arrays and objects,
  `json.Marshal`) are passed in as the functions of a `Formats` value.

Where the tests and the code disagree, the model follows the code:
- convert_test.go:22 and :28 expect unquoted `FOO=bar` and `NUM=123`, but
  convert.go:26 always writes the value in double quotes.
- convert_test.go:42 calls `EnvToJSON` with a reader, which does not match
  its signature.
- registry_test.go:13 calls a `CreateRegistry` that does not exist; the
  replayed scenario starts from `New`.

## Model

| member | source | states |
|---|---|---|
| EnvEscape.Escape | internal/convert/convert.go:91-110 | the escaped text never contains a raw LF, CR or TAB and is never shorter than the input |
| EnvEscape.Unescape | internal/convert/convert.go:113-141 | unescaping is total and never makes the text longer |
| EnvEscape.EscapeChar | internal/convert/convert.go:94-107 | each of the five special characters becomes a backslash followed by an escape letter, and any other character is written as it is |
| EnvEscape.UnescapePair | internal/convert/convert.go:119-134 | an escape letter after a backslash gives back the one special character whose escape it is; a backslash before any other character is kept together with it |
| EnvEscape.EscapeEnvValue | internal/convert/convert.go:91-110 | the builder loop over the characters produces exactly `Escape(s)` |
| EnvEscape.UnescapeEnvValue | internal/convert/convert.go:113-141 | the index loop that skips the character after a backslash produces exactly `Unescape(s)` |
| EnvEscape.UnescapeEscape | internal/convert/convert.go:112-141 | unescaping undoes escaping for every string |
| EnvEscape.EscapeWellEscaped | internal/convert/convert.go:93-107 | every backslash in escaped text begins one of `\\ \" \n \r \t`, and no raw `"`, LF, CR or TAB remains |
| EnvEscape.EscapeUnescape | internal/convert/convert.go:113-141 | on well-escaped text, escaping undoes unescaping, so the pair is a bijection |
| EnvEscape.EscapePlain | internal/convert/convert.go:105-106 | a string with none of the five special characters is escaped to itself |
| EnvEscape.UnescapeUnknown | internal/convert/convert.go:130-133 | a backslash before any character other than `n r t \ "` is kept together with that character |
| EnvEscape.UnescapeTrailingBackslash | internal/convert/convert.go:117-138 | a backslash appended to a text is kept as it is exactly when the text is closed, that is, when the loop pairs every backslash in it with a following character. Otherwise it pairs with the backslash left over at the end and adds nothing to the output |
| EnvEscape.WellEscapedClosed | internal/convert/convert.go:93-107 | escaped text is closed, so a trailing backslash after it survives unescaping |
| Dotenv.ValueOf | internal/convert/convert.go:67-76 | the value rule never lengthens a value, and changes it only when it has at least two characters and starts and ends with the same quote, `"` or `'` |
| Dotenv.ValueOfQuotes | internal/convert/convert.go:66-76 | a single-quoted value is taken literally; a double-quoted one is unescaped |
| Dotenv.ParseLine | internal/convert/convert.go:50-76 | one line's contribution: it is skipped exactly when it trims to nothing or to a comment. It fails exactly when the trimmed line has no `=` or starts with one, always with `invalid line` of the trimmed text, so the `empty key` error is unreachable. Otherwise it pairs a non-empty, trimmed key free of `=` with the value rule applied to the trimmed value |
| Dotenv.DotenvToJSON | internal/convert/convert.go:45-79 | the line loop returns the fold of the lines' results: the final map, or the first line's error with no map |
| Dotenv.AddLine | internal/convert/convert.go:50-78 | one pass of the loop body: a blank or comment line leaves the map alone, a pair binds its key (overwriting), and a bad line ends the loop with its error; this is exactly one step of the fold `Collect` |
| Dotenv.CollectErrPersists | internal/convert/convert.go:56-64 | once a line has failed, later lines do not change the outcome |
| Dotenv.CollectOkIffNoBad | internal/convert/convert.go:49-79 | parsing succeeds exactly when no line is bad |
| Dotenv.CollectFailsAtFirstBad | internal/convert/convert.go:55-58 | the error reported is that of the first bad line |
| Dotenv.CollectIgnoresBlank | internal/convert/convert.go:50-53 | a blank or comment line can be removed from anywhere without changing the result |
| Dotenv.CollectLastWins | internal/convert/convert.go:78 | the value kept for a key is the one from its last occurrence |
| Dotenv.CollectedKeysComeFromPairs | internal/convert/convert.go:60-78 | every key of the result, with its value, comes from some line |
| Dotenv.JSONToEnv | internal/convert/convert.go:15-31 | a decode error is returned with nothing written. Otherwise there is exactly one `k="escaped value"` line per key, in some order that visits every key once |
| Json.Sprint | internal/convert/convert.go:23 | `fmt.Sprint` of a decoded value: a string prints as itself, a boolean as `true` or `false`, and nil as `<nil>` |
| Dotenv.EnvLine | internal/convert/convert.go:26 | a written line is the key, `=`, and the escaped value between double quotes |
| Dotenv.EnvLineParses | internal/convert/convert.go:23-26 | a written line for a portable key parses back to that key and the unescaped `fmt.Sprint` text |
| Dotenv.PortableLineParses | internal/convert/convert.go:55-78 | a portable key, `=` and a trimmed value parse into that key and the value read by the quote rule |
| Dotenv.BareValueParses | internal/convert/convert.go:66-78 | an unquoted value is kept as the trimmed string, so a number stays a string |
| Dotenv.ParseKeyValueLine | internal/convert/convert.go:55-78 | a trimmed line is split at its first `=` into trimmed key and value |
| Dotenv.EnvLineTrimmed | internal/convert/convert.go:50 | a written line has no white space for the parser to trim |
| Dotenv.EnvLineSplits | internal/convert/convert.go:55 | the first `=` of a written line is the one after the key |
| Dotenv.QuotedValue | internal/convert/convert.go:67-71 | a double-quoted escaped value survives trimming and is unescaped back to the original |
| Dotenv.CollectPairs | internal/convert/convert.go:78 | folding one pair per listed key yields each key with its rendered value |
| Dotenv.ListingClassified | internal/convert/convert.go:22-26 | every written line is classified as its own key and rendered value |
| Dotenv.EnvLineNoNewline | internal/convert/convert.go:23-26 | a line written for a portable key holds no LF, because escaping removes every raw LF from the value |
| Dotenv.ListingNoNewline | internal/convert/convert.go:22-26 | no line of `JSONToEnv`'s output holds an LF when the keys are portable, so joining the lines with LF and splitting them again gives the same lines |
| Dotenv.ListingParses | internal/convert/convert.go:22-29 | parsing a listing yields every listed key with its rendered value |
| Dotenv.JSONToEnvParsesBack | internal/convert/convert.go:15-31 | whatever the iteration order, parsing `JSONToEnv`'s output recovers every key with `fmt.Sprint` of its value, when the keys are portable |
| Text.TrimSpace | internal/convert/convert.go:50 | what is left neither starts nor ends with white space, is never longer than the input, keeps the first character when that is not a space, and is the input itself when it has no white space at either end |
| Text.TrimSpaceSlice | internal/convert/convert.go:50 | the result is a slice `s[a..b]` with only white space before `a` and after `b`. Together with `TrimSpace`'s own contract, exactly the leading and trailing white space is dropped |
| Text.TrimSpaceKeepsOut | internal/convert/convert.go:60 | trimming adds no character, so a key cut before the first `=` contains no `=` |
| Text.IndexOf | internal/convert/convert.go:55 | the index is -1 exactly when the character is absent, and otherwise the position of its first occurrence |
| Text.SortStrings | cmd/kvtool/main.go:422 | the result is strictly ascending and a permutation of the distinct input |
| Text.SortedUnique | cmd/kvtool/main.go:418-422 | two strictly ascending listings of the same strings are identical, so the sorted key list is determined by the key set |
| Kvtool.GetStoreKV | cmd/kvtool/main.go:381-411 | states each outcome with both directions of its condition. An empty namespace means `default`. A missing namespace or one with no stores fails. A named store is returned exactly when present, otherwise it fails naming store and namespace. An unnamed store is returned only when the namespace holds exactly one, and with two or more the call fails. A returned pair is `(key, ns[key])` |
| Kvtool.NamespaceName | cmd/kvtool/main.go:382-384 | the namespace consulted is never empty: an empty name becomes `default`, and any other name is used as given |
| Kvtool.EmptyNamespaceIsDefault | cmd/kvtool/main.go:382-384 | an empty namespace name resolves exactly as `default` |
| Kvtool.SoleStoreChosen | cmd/kvtool/main.go:404-408 | with no store named and one store configured, that store and its key are returned, whatever the key |
| Kvtool.FlagsFor | cmd/kvtool/main.go:429-444 | a key's elements by kind: bool gives `-k=true`/`-k=false`, null gives nothing, anything else gives `-k` and its text. There are never more than two |
| Kvtool.KeyFlags | cmd/kvtool/main.go:426-444 | the type switch appends exactly the key's elements |
| Kvtool.SortedKeyList | cmd/kvtool/main.go:418-422 | gathering the keys and sorting them gives the ascending listing of the key set |
| Kvtool.AppendFlags | cmd/kvtool/main.go:424-446 | the append loop produces the flags of the keys in the given order |
| Kvtool.MapToFlagArgs | cmd/kvtool/main.go:413-447 | the output is the flags of the keys in ascending order, and empty for an empty map |
| Kvtool.FlattenLength | cmd/kvtool/main.go:424-446 | the output has at most two elements per key |
| Kvtool.ReadJoinedFlag | cmd/kvtool/main.go:432 | `-k=t` reads back as flag `k` with text `t` |
| Kvtool.ReadSplitFlag | cmd/kvtool/main.go:433-443 | `-k` followed by `t` reads back as flag `k` with text `t` |
| Kvtool.ReadFlagsFor | cmd/kvtool/main.go:429-444 | one key's elements read back as that key's flag |
| Kvtool.FlattenReadsBack | cmd/kvtool/main.go:424-446 | the output reads back as one flag per non-null key, in key order, carrying its text, when keys contain no `=` |
| Kvtool.MapToFlagArgsReadsBack | cmd/kvtool/main.go:413-447 | `mapToFlagArgs`'s output reads back as the non-null arguments in ascending key order, when no key contains `=` (a key `a=b` with value `true` is written as `-a=b=true`, which reads back as flag `a` with text `b=true`) |
| Kvtool.ExpectedFromMap | cmd/kvtool/main.go:425-427 | every flag read back is named by a key of the map and carries that key's text |
| Kvtool.SingleKey | cmd/kvtool/main.go:404-407 | proof helper for `GetStoreKV`: a map with one entry has exactly one key, which is why the `range` over a one-entry namespace returns a determined entry |
| Repository.IsInvalidChar | internal/core/repository/repository.go:26 | a character is forbidden in a key exactly when it occurs in the `invalid` constant: `<`, `>`, `"`, the vertical bar, `?`, `*` and `/` |
| Repository.FirstInvalid | internal/core/repository/repository.go:34-38 | the scan finds the first forbidden character, and none exactly when the key has no forbidden character |
| Repository.PathCheck | internal/core/repository/repository.go:25-40 | a key passes exactly when it is valid. The empty key fails with `ErrEmptyPath`, and only it does. Any other failure is `ErrBadChar` naming the key and its first forbidden character |
| Repository.ValidatePath | internal/core/repository/repository.go:25-40 | the early-exit scan returns exactly `PathCheck(p)` |
| Repository.FirstInvalidAt | internal/core/repository/repository.go:34-37 | a forbidden character preceded only by allowed ones is the one the scan reports |
| Repository.Repository.constructor | internal/core/repository/repository.go:11-14 | a new repository is empty and valid |
| Repository.Repository.Get | internal/core/repository/repository.go:42-49 | a present key gives its value, an absent one `ErrNotFound`; nothing changes |
| Repository.Repository.Put | internal/core/repository/repository.go:61-70 | a valid key is bound to the value, overwriting, and the value is returned. An invalid key gives the validation error and leaves the map unchanged. Valid keys stay valid |
| Repository.Repository.Create | internal/core/repository/repository.go:51-59 | an existing key gives `ErrKeyExists` and changes nothing. A new key behaves as `Put`. Valid keys stay valid |
| Repository.Repository.Delete | internal/core/repository/repository.go:72-79 | a present key is removed and the size drops by one. An absent key gives `ErrNotFound` and changes nothing. Valid keys stay valid |
| Repository.RemoveShrinks | internal/core/repository/repository.go:74 | proof helper for `Delete`: removing a present key from a map shrinks it by exactly one |
| Repository.RepositoryScenario | internal/core/repository/repository_test.go:9-53 | replaying the test gives sizes 0, 1, 1, 0, 0. Gets return 1 after a refused second `Create`, then `ErrNotFound` after `Delete`, then 1 and 2 after the two `Put`s. The second `Delete` fails |
| Registry.Registry.constructor | internal/registry/registry.go:5-8 | a new registry is empty |
| Registry.Registry.Get | internal/registry/registry.go:10-13 | `ok` holds exactly when the key is present, and then the stored value is returned |
| Registry.Registry.Create | internal/registry/registry.go:15-22 | an absent key is inserted with `(value, true)`, growing the map by one. A present key returns `(existing, false)` and changes nothing |
| Registry.Registry.Put | internal/registry/registry.go:24-27 | any key, the empty one included, is bound to the value, and the value is returned; other entries are untouched |
| Registry.Registry.Delete | internal/registry/registry.go:29-36 | a present key is removed with `true`, shrinking the map by one. An absent key gives `false` and changes nothing |
| Registry.RegistryScenario | internal/registry/registry_test.go:9-51 | replaying the test gives sizes 0, 1, 1, 0, 0, values 1, 1, 1, 1, 2 and flags true, false, true, false, false |

## Left out

- Input and output are left out. This covers the readers and writers, `bufio.Scanner` line splitting and its token-size limit, and write errors from `fmt.Fprintf`. The parser takes a sequence of lines, and `JSONToEnv` returns its lines. This is sound for the round trip because no written line holds an LF (`Dotenv.ListingNoNewline`).
- JSON decoding and encoding are left out. `JSONToEnv` takes the decoder's result (an object or an error). `DotenvToJSON` returns the map that Go would encode with two-space indentation.
- Go's float formatting, `fmt.Sprint` of arrays and objects, and `json.Marshal` are left out. They are parameters (`Formats`), not definitions.
- Dotenv.JSONToEnv: the map iteration order is not fixed. The loop picks any remaining key, and a ghost output records the order. The round-trip lemma holds for every order.
- UTF-8 is not modelled. Strings are sequences of characters, so `escapeEnvValue`'s rune loop and `unescapeEnvValue`'s byte loop are modelled at the same level. Invalid UTF-8, which Go's rune loop would replace with U+FFFD, is not modelled. Byte lengths in the quote rule are taken as character lengths, which agree for the ASCII quote characters it tests.
- Error messages are not modelled as text. Each error is a datatype value carrying what the message names, such as the key, the namespace, the store or the offending character. Go's `%q` quoting is not modelled.
- Repository.Repository.Get, Put and Create: the Go zero value returned beside an error is not modelled; the result is either the value or the error.
- Registry.Registry.Get: the Go zero value returned with `false` is left unspecified (any value of `T`).
- Kvtool.MapToFlagArgs: Go returns a nil slice for an empty map, and the model returns the empty sequence, which the callers treat the same way.
- `EnvToJSON` is left out: it reads the process environment and then calls the dotenv parser, which is modelled.
- The command layer of cmd/kvtool/main.go is left out, because it is flag parsing, files and `os.Exit`. This covers `main`, `usage`, `parseIOFlags`, `openInput`, `openOutput`, `jsonCmd`, `initCmd`, `writeJSONFileAtomic`, `storeCmd`, `loadConfig` and `dispatchStore`. `StoreConfig.version` is carried but never consulted.
- internal/commands/vault.go is not part of this model, because it is an HTTP client for Vault. Nor is internal/commands/abc.go, because it is output and exit helpers.
- internal/core/repositories/array.go is not part of this model, because it is a timeout polling loop around a stub.
- internal/registory/registory.go is not part of this model, because it is process-global command dispatch.
