# go-flagz in Dafny

A verified model of the core of go-flagz. go-flagz is a Go library of command-line flags whose values can change while the program runs. The model covers:

- **Dynamic values** (`DynValues`, `Int64Flags`, `StringFlags`, `StringSliceFlags`, `DurationFlags`, `JsonFlags`). Each is a cell holding the current value, an optional validator, a parser and a type name. `Set` parses, then validates, then publishes. On any failure the value stays as it was.
  - The parsers follow the Go standard library as current releases behave. Base-0 `ParseInt` has accepted underscores and the `0b`/`0o` prefixes since Go 1.13. The `uint64` accumulator of `ParseDuration` came later: older releases sum the terms in an `int64`, so no sum wraps and `-9223372036854775808ns` is refused. The parsers are:
    - `strconv.ParseInt(s, 0, 64)`: sign, `0b`/`0o`/`0x`/leading-`0` prefixes, underscores, `int64` range.
    - The first record of `encoding/csv` (section 2 of RFC 4180).
    - `time.ParseDuration`, including its `uint64` accumulator that wraps at 2^64.
  - The JSON codec and the regular-expression matcher are parameters.
- **The dynamic marker** (`Common`): the `__is_dynamic` annotation.
- **The flag registry** (`Registry`): the parts of pflag's `FlagSet` the library uses. These are lookup, `Set` by name (which records the "changed" bit), registration, and visiting in order.
- **The checksum** (`Checksum`): FNV-1a 32 over the names and values of the set flags that pass a filter, returned big-endian.
- **The status endpoint** (`Endpoint`): the query filters, the listing entries and the HTML-or-JSON choice.
- **The ConfigMap updater** (`ConfigMap`): a bulk read of a directory of flag files, skipping Kubernetes' `..` entries. It also dispatches file-system events to a full re-read, a one-file read or nothing.
- **The etcd updater** (`Etcd`):
  - the bulk read that applies every key and reports all errors together;
  - one iteration of the watch loop: re-read on error 401, back off on other errors, ignore directories, bad keys and empty values, and apply leaves;
  - the compare-and-swap or compare-and-delete that rolls a rejected value back.

Stateful parts are classes with `modifies` clauses: the value cells, the registry and both updaters. Each method's `ensures` ties the new state to a pure specification function. The properties the code promises are proved as lemmas about those functions.

The network, the file system and randomness become parameters: each method takes the reply it would receive. These parameters are the etcd replies, the directory snapshot (`ConfigMap.Files`), the event, the back-off jitter and the JSON `indent` function.

Where the design description and the code disagree, the model follows the code:
- `Start` in both updaters never sets `watching`/`started`. So the etcd watch loop (etcd/updater.go:123) ends at once, and `Stop` is always refused. The model keeps this, and exposes one loop iteration as `Etcd.Updater.Step`.
- After a key without `/`, the etcd bulk read still calls `Set` with the empty name (etcd/updater.go:101-110).
- Error 400 gets no special handling (etcd/updater.go:30, 139-145).
- The etcd watch applies static flags too: a leaf is handed to `Set` without a dynamic check (etcd/updater.go:160). `Etcd.Updater.Step`'s contract has no such condition, and `Etcd.StaticFlagApplied` states it. The ConfigMap updater, by contrast, skips static flags on both of its watch paths: the re-read after a swap and the one-file read (configmap/updater.go:145, 154). Only its `Initialize` sets them.

## Model

| member | source | states |
|---|---|---|
| Registry.TrySet | configmap/updater.go:130-131 | `FlagSet.Set` fails iff the name is unknown or the flag's parser rejects the input. On success only the named flag changes: it gets the new rendering and its changed bit is set. No flag is added or removed |
| Registry.FlagSet.Set | configmap/updater.go:131 | The registry's new contents and the error are those of `TrySet`; a failure changes nothing; the visiting order is kept |
| Registry.FlagSet.Lookup | configmap/updater.go:119-122 | Finds a flag iff it is registered, and then it is the registered flag |
| Registry.FlagSet.AddFlag | dynint64.go:17 | Registration adds the flag under its name and appends it to the visiting order, keeping the registry well formed |
| Registry.InOrder | endpoint.go:33 | The flags `VisitAll` visits: one per name of the order, each the flag registered under it |
| Registry.FlagSet.All | endpoint.go:33 | `VisitAll` visits one flag per name of the order, each the flag registered under it; every registered flag is visited, and every visited flag is registered under its own name |
| Registry.ChangedOnly | checksum.go:15-16 | `Visit` sees only flags whose changed bit is set, and every such flag |
| Common.WithMarker | common.go:12-17 | After `setFlagDynamic` the marker maps to an empty list. A nil map becomes a fresh one. Every other annotation is kept exactly |
| Common.IsFlagDynamic | common.go:19-23 | A flag whose annotation map is nil is never dynamic |
| Common.MarkDynamic | common.go:12-17 | A marked flag is dynamic; marking changes nothing but the annotations and keeps every other annotation |
| Common.MarkDynamicIdempotent | common.go:12-17 | Marking twice is marking once |
| Common.SetFlagDynamic | common.go:12-17 | Only the named flag is replaced, by its marked form, and it is dynamic afterwards |
| DynValues.SetOutcome | dynint64.go:37-49 | The candidate is published iff it parsed and the validator (if any) accepts it. A parse error is returned as such and a rejection as `Rejected`; in both cases the old value stays |
| DynValues.DynValue.Set | dynint64.go:37-49 | The new value and the error are `SetOutcome` of the old value, the validator and the parse of the input; the validator is unchanged |
| DynValues.DynValue.WithValidator | dynint64.go:54-56 | Installs the validator, replacing any previous one; a nil validator (None) switches validation off; the value is left alone |
| DynValues.DynValue.Get | dynint64.go:29-31 | `Get` returns the value last published |
| DynValues.DynValue.Type | dynint64.go:59-61 | `Type` returns the cell's type name |
| DynValues.DynValue.constructor | dynint64.go:15-20 | A new cell holds the initial value and has no validator |
| Numbers.DecimalDigits | dynint64.go:64-66 | Decimal rendering: only digits, and a leading zero only for zero |
| Numbers.FormatInt | dynint64.go:64-66 | Non-empty and starts with a minus exactly for negative values |
| Numbers.Uint64Succ | etcd/updater.go:126 | `lastEtcdIndex + 1` on a `uint64`: one more, except that the maximum wraps to 0 |
| Int64Flags.Accumulate | dynint64.go:38 | The digit loop of `ParseUint` never yields more than the `uint64` maximum, and reports whether an underscore was seen |
| Int64Flags.SplitBase | dynint64.go:38 | Base 0 picks base 2, 8, 10 or 16. Without a leading `0` it is decimal over the whole text; a lone `0` leaves no digits |
| Int64Flags.UnderscoreOK | dynint64.go:38 | A leading underscore is never accepted |
| Int64Flags.ParseUint | dynint64.go:38 | The empty text is a syntax error; results fit a `uint64` |
| Int64Flags.ParseInt | dynint64.go:38-41 | The empty text and a lone sign are syntax errors; results fit an `int64` |
| Int64Flags.AccumulateAppend | dynint64.go:38 | The digit loop over a concatenation continues from where the first part stopped |
| Int64Flags.AccumulateDecimal | dynint64.go:38 | The decimal digits of any `uint64` accumulate back to that number |
| Int64Flags.AccumulateTooLarge | dynint64.go:38 | The decimal digits of a number past the `uint64` maximum are a range error |
| Int64Flags.OutOfRange | dynint64.go:38-41 | Every decimal number of at least 2^63 is a range error |
| Int64Flags.NegativeOutOfRange | dynint64.go:38-41 | Every negative decimal number below -2^63 is a range error |
| Int64Flags.MinInt64 | dynint64.go:38-41 | `-9223372036854775808` parses to the `int64` minimum |
| Int64Flags.ParseFormatInt | dynint64.go:64-66 | Round trip: the decimal rendering of every `int64` parses back to it |
| Int64Flags.String | dynint64.go:64-66 | `String()` parses back to `Get()`, and starts with a minus exactly when `Get()` is negative |
| Int64Flags.ValidateDynInt64Range | dynint64.go:69-76 | The validator accepts exactly the values in the closed range |
| Int64Flags.DynInt64 | dynint64.go:15-20 | The new cell holds the value, has type `dyn_int64` and parses with `ParseInt`. The flag is registered with the value's rendering and marked dynamic |
| Int64Flags.HexAndOctalExamples | dynint64.go:38 | `0x1F` is 31 and `010` is 8 |
| Int64Flags.UnderscoreExamples | dynint64.go:38 | `1_000` is 1000, and `_1` is refused |
| Int64Flags.PrefixOnlyExample | dynint64.go:38 | `0x` alone is a syntax error |
| StringFlags.SetStoresInput | dynstring.go:39-47 | `Set` succeeds iff the validator (if any) accepts the input. Without a validator it stores the input itself; a rejection keeps the old value |
| StringFlags.DynString | dynstring.go:16-21 | The new cell holds the value, has type `dyn_string` and never fails to parse; the flag is registered and marked dynamic |
| StringFlags.String | dynstring.go:62-64 | `String()` equals `Get()` |
| StringFlags.ValidateDynStringMatchesRegex | dynstring.go:67-74 | The validator accepts exactly the values the matcher matches |
| StringSliceFlags.Render | dynstringslice.go:52-54 | `%v` of a slice is bracketed |
| StringSliceFlags.RenderSplits | dynstringslice.go:52-54 | When no element holds a space, the text inside the brackets splits at spaces back into the elements |
| StringSliceFlags.String | dynstringslice.go:52-54 | `String()` is bracketed and, without spaces in the elements, splits back into `Get()` |
| StringSliceFlags.DynStringSlice | dynstringslice.go:13-18 | The new cell holds the slice, has type `dyn_stringslice` and parses with `ReadRecord`; the flag is registered and marked dynamic |
| StringSliceFlags.ValidateDynStringSliceMinElements | dynstringslice.go:57-64 | The validator rejects exactly the slices shorter than the count |
| Csv.Normalize | dynstringslice.go:26 | Line normalisation leaves text without carriage returns unchanged |
| Csv.SkipEmptyLines | dynstringslice.go:26 | Leading blank lines are dropped and what remains starts with no line end |
| Csv.TakeUnquoted | dynstringslice.go:26 | An unquoted field is the longest prefix without comma or line end |
| Csv.Fields | dynstringslice.go:26 | A record has at least one field, and running out of input inside a record is never "no record" |
| Csv.Quoted | dynstringslice.go:26 | A quoted field yields at least one field or a quoting error |
| Csv.ReadRecord | dynstringslice.go:26-29 | There is no record exactly when only blank lines remain after normalisation; a record has at least one field |
| Csv.FieldsOfPlainLine | dynstringslice.go:26 | A line without quotes reads as its split at commas |
| Csv.NormalizeLine | dynstringslice.go:26 | Line normalisation of a line without carriage returns, then a line end, keeps the line and normalises only what follows |
| Csv.LoneLineIsRecord | dynstringslice.go:26 | A single plain line (non-empty, no quotes, carriage returns or line ends) reads as its split at commas |
| Csv.FirstLineIsRecord | dynstringslice.go:26 | Only the first line is read: a plain line, alone or followed by more lines, gives its split at commas (`car,bar` gives `car` and `bar`) |
| Csv.ReadJoined | dynstringslice.go:26 | Round trip: plain fields joined with commas read back as the same fields |
| Csv.ReadEmpty | dynstringslice.go:26-29 | The empty input and blank lines hold no record, so `Set` fails |
| Csv.QuotedDoubledQuote | dynstringslice.go:26 | A doubled quote in a quoted field stands for one quote |
| Csv.ReadQuotedField | dynstringslice.go:26 | A quoted field may hold commas and line ends, and is read without its quotes |
| Csv.ReadBareQuote | dynstringslice.go:26-29 | A quote inside an unquoted field is an error |
| Csv.ReadUnterminatedQuote | dynstringslice.go:26-29 | A quoted field without its closing quote is an error |
| DurationFlags.UnitNanos | dynduration.go:39 | The units are `ns`, `us`, `µs`, `μs`, `ms`, `s`, `m` and `h`; each is at most an hour |
| DurationFlags.LeadingInt | dynduration.go:39 | Reads the leading digits while the value stays at most 2^63, and stops at the first non-digit |
| DurationFlags.LeadingFraction | dynduration.go:39 | Reads the fraction's digits; those past the representable range are skipped |
| DurationFlags.TakeUnit | dynduration.go:39 | The unit is the longest prefix without digit or period |
| DurationFlags.Number | dynduration.go:39 | A term's number needs a digit on one side of the period; its integer part is at most 2^63 |
| DurationFlags.Scaled | dynduration.go:39 | A term's nanoseconds are at least the whole part times the unit and at most 2^63; a whole number fails exactly past 2^63 |
| DurationFlags.Term | dynduration.go:39 | A term is at most 2^63 nanoseconds and consumes input |
| DurationFlags.Terms | dynduration.go:39 | The running sum never exceeds 2^63 |
| DurationFlags.Magnitude | dynduration.go:39 | The empty magnitude is invalid; results are at most 2^63 |
| DurationFlags.ParseDuration | dynduration.go:39-42 | The empty text and a lone sign are invalid; `0`, `-0` and `+0` are zero |
| DurationFlags.LeadingIntAppend | dynduration.go:39 | Reading digits over a concatenation continues from the first part |
| DurationFlags.LeadingIntDecimal | dynduration.go:39 | The decimal digits of a number up to 2^63 read back as that number |
| DurationFlags.TermOfWhole | dynduration.go:39 | A whole number and a unit make a term of that many units, while it is at most 2^63 |
| DurationFlags.ParseWholeTerm | dynduration.go:39 | `<n><unit>` parses to n times the unit's nanoseconds while that fits an `int64` |
| DurationFlags.LeadingIntTooLarge | dynduration.go:39 | The leading digits of a number past 2^63 overflow |
| DurationFlags.TermTooLarge | dynduration.go:39 | A whole number and a unit whose product passes 2^63 make an invalid term |
| DurationFlags.SingleTerm | dynduration.go:39 | A text that is one complete term has that term's magnitude, and fails as the term fails |
| DurationFlags.Unsigned | dynduration.go:39-42 | Without a sign, a magnitude below 2^63 is the duration, exactly 2^63 is invalid, and a failure is the same failure |
| DurationFlags.WholeTermOutOfRange | dynduration.go:39-42 | `<n><unit>` is invalid whenever n times the unit's nanoseconds is at least 2^63 |
| DurationFlags.NumberWithFraction | dynduration.go:39 | `<a>.<d><unit>` reads as whole part a, one tenth-digit d and the unit |
| DurationFlags.FractionTerm | dynduration.go:39 | `<a>.<d><unit>` is one term of a units plus d tenths of a unit, truncated to whole nanoseconds |
| DurationFlags.ParseFractionTerm | dynduration.go:39-42 | `<a>.<d><unit>` parses to a units plus d tenths of a unit, truncated, while that fits an `int64` |
| DurationFlags.TwoTerms | dynduration.go:39 | Two nanosecond terms add up modulo 2^64, and a sum above 2^63 is invalid |
| DurationFlags.WrappingSum | dynduration.go:39 | Two terms of 2^63 ns add up to 2^64, which wraps to 0 and is accepted as a zero magnitude |
| DurationFlags.NegateDuration | dynduration.go:39 | A leading minus negates what the unsigned text denotes |
| DurationFlags.DynDuration | dynduration.go:16-21 | The new cell holds the duration, has type `dyn_duration` and parses with `ParseDuration`; the flag is registered and marked dynamic |
| JsonFlags.SetForgetsPrevious | dynjson.go:49-61 | `Set` decodes into a fresh zero value: the outcome does not depend on the old value, and on success it is the input decoded over the zero value |
| JsonFlags.String | dynjson.go:86-92 | The compact encoding of `Get()`, or `ERR` when encoding fails |
| JsonFlags.PrettyString | dynjson.go:77-83 | The indented encoding of `Get()`, or `ERR` when encoding fails |
| JsonFlags.DynJSON | dynjson.go:20-29 | Requires a pointer to a struct. The new cell holds the passed value, has type `dyn_json` and decodes fresh; the flag is registered with its encoding and marked dynamic |
| Checksum.Fnv | checksum.go:14 | FNV-1a over no bytes leaves the state unchanged |
| Checksum.FnvAppend | checksum.go:20-21 | Hashing a concatenation continues from the state the first part leaves |
| Checksum.Utf8Char | checksum.go:20-21 | A character is one to four bytes, and one byte equal to itself exactly when it is ASCII |
| Checksum.Utf8 | checksum.go:20-21 | A string has at least one byte per character |
| Checksum.Utf8Append | checksum.go:20-21 | The bytes of a concatenation are the concatenated bytes |
| Checksum.Pieces | checksum.go:15-21 | At most a name and a value per visited flag |
| Checksum.PiecesAppend | checksum.go:15-21 | Flags contribute in visiting order, independently of each other |
| Checksum.FilteredOut | checksum.go:17-19 | A flag the filter rejects contributes nothing, wherever it is visited |
| Checksum.Concat | checksum.go:20-21 | No pieces make the empty text |
| Checksum.ConcatPair | checksum.go:20-21 | A name and a value are written one after the other, with nothing between |
| Checksum.BigEndian | checksum.go:23 | Four bytes, most significant first, that denote the hash |
| Checksum.Sum | checksum.go:14-23 | A checksum is four bytes |
| Checksum.Write | checksum.go:20-21 | `hash.Write` advances the hash by exactly the FNV-1a rounds of the data |
| Checksum.ChecksumFlagSet | checksum.go:13-24 | The result is `Sum` of the names and values of the set flags that the filter (if any) includes, in visiting order |
| Checksum.WriteFlag | checksum.go:16-22 | The visit's callback: an included flag's name and then its value advance the hash; a flag the filter rejects leaves it unchanged |
| Checksum.HashExtend | checksum.go:15-22 | A visit that hashes as `WriteFlag` does extends the hash of the flags before it by one more visited flag |
| Checksum.HashStep | checksum.go:15-21 | One visited flag continues the hash by its name and then its value when included, and leaves it alone otherwise |
| Checksum.HashPieces | checksum.go:20-21 | Writing a name and then a value continues the hash of the text before them |
| Checksum.EmptyChecksum | checksum.go:14-23 | With no flag included the checksum is the offset basis, bytes 81 1c 9d c5 |
| Checksum.NothingIncluded | checksum.go:17-19 | With no flag included nothing is written |
| Checksum.HashedAlone | checksum.go:20-21 | A lone flag is hashed as its name followed by its value |
| Checksum.BoundaryNotHashed | checksum.go:20-21 | With no separator, flags with the same name+value text have equal checksums (`ab`=`c` like `a`=`bc`) |
| Text.SplitSingle | etcd/updater.go:203-205 | `strings.Split` yields one piece exactly when the separator does not occur, and then that piece is the key |
| Text.SplitLastShape | etcd/updater.go:203-207 | The last piece is a suffix free of the separator, preceded by it when it occurs |
| Text.AfterLast | etcd/updater.go:207 | The text after the last separator is a separator-free suffix, the whole text when there is none |
| Text.SplitLast | etcd/updater.go:203-207 | The last piece of the split is the text after the last separator |
| Text.SplitJoin | dynstringslice.go:52-54 | Splitting undoes joining when no piece holds the separator |
| Text.ContainsAt | endpoint.go:65 | `strings.Contains` holds iff the text occurs at some index |
| Text.TrimTrailing | configmap/updater.go:118 | `path.Base`'s trimming: drops exactly the trailing run of slashes |
| Text.Base | configmap/updater.go:118 | `path.Base` is never empty |
| Text.JoinPath | configmap/updater.go:100 | `path.Join` of the directory and a name starts with the directory and ends with the name, with one slash between them unless the directory is empty or already ends in one |
| Text.BaseOfJoin | configmap/updater.go:100-118 | The base name of a file joined to the directory is the file's own name |
| Endpoint.QueryGet | endpoint.go:28-30 | `Query().Get` gives the key's value, or the empty string when it is absent |
| Endpoint.Listed | endpoint.go:28-43 | Without `only_changed` and `type` every flag is listed; with a `type` other than `dynamic` or `static`, a flag is listed iff `only_changed` is empty or the flag is changed; a listed flag matches the requested `type` |
| Endpoint.Selected | endpoint.go:33-44 | The listing has at most as many entries as flags visited |
| Endpoint.SelectedMembers | endpoint.go:28-44 | A flag is listed iff it is visited and passes all three filters |
| Endpoint.SelectedAppend | endpoint.go:33-44 | Listing keeps the visiting order |
| Endpoint.SelectedAtMostOnce | endpoint.go:33-44 | No flag is listed more often than visited |
| Endpoint.SelectedUnfiltered | endpoint.go:28-44 | Without `only_changed` and `type` every visited flag is listed |
| Endpoint.DynamicStaticPartition | endpoint.go:29-30 | `type=dynamic` and `type=static` split the unfiltered-by-type listing between them |
| Endpoint.PrettyPrintJson | endpoint.go:151-157 | The indented document, or `PRETTY_ERROR` when indenting fails |
| Endpoint.FlagToJson | endpoint.go:135-149 | Name, usage, changed and dynamic bits are copied. Values are copied verbatim, or pretty-printed when the type name contains `json` |
| Endpoint.Answer | endpoint.go:46-61 | HTML iff the request is from a browser and `format` is not `json`; JSON otherwise; both carry the listing |
| Endpoint.RequestIsBrowser | endpoint.go:64-66 | A browser is a request whose Accept header holds `html` at some index; a header shorter than four characters never does |
| Endpoint.BrowserAccept | endpoint.go:64-66 | An Accept header holding `text/html` anywhere is a browser |
| Endpoint.SelectedStep | endpoint.go:33-44 | One more visited flag adds itself to the listing iff it passes the filters |
| Endpoint.Rendered | endpoint.go:43 | One entry per selected flag, each its `flagToJson` |
| Endpoint.RenderedSnoc | endpoint.go:43 | Appending a flag appends its entry |
| Endpoint.ListingStep | endpoint.go:33-44 | One visited flag appends its entry when listed and nothing otherwise |
| Endpoint.CollectListed | endpoint.go:32-44 | The `VisitAll` loop builds the entries of the selected flags, in order |
| Endpoint.ListFlags | endpoint.go:27-62 | The reply lists the entries of the flags the query selects, in visiting order, as HTML iff a browser did not ask for JSON |
| ConfigMap.IsK8sInternalDirectory | configmap/updater.go:167-170 | The empty path is never internal, nor any path whose base is `.` or `/` |
| ConfigMap.InternalEntry | configmap/updater.go:167-170 | A file of the watched directory is internal exactly when its own name starts with `..`, as the bulk read's skip test says |
| ConfigMap.TrySetKeepsDynamic | configmap/updater.go:130-131 | Setting a value never changes whether any flag is dynamic |
| ConfigMap.ReadFlagFileSpec | configmap/updater.go:117-132 | Reading a file keeps the flag names and dynamic marks; "not dynamic" is only reported when only dynamic flags are wanted |
| ConfigMap.ReadFlagFileCases | configmap/updater.go:117-132 | Unknown name: not found. Static flag with `dynamicOnly`: not dynamic. Neither case reads or sets anything. Unreadable file: an error. Otherwise the outcome of `Set(base name, whole content)` |
| ConfigMap.StaticFileRefused | configmap/updater.go:117-126 | With `dynamicOnly`, a file naming a static flag is refused as not dynamic, and no flag changes |
| ConfigMap.Reported | configmap/updater.go:101-107 | A file's error is recorded, tagged with its name, unless it is "not dynamic" during a dynamic-only read |
| ConfigMap.ReadAllSpec | configmap/updater.go:94-108 | The bulk read keeps flag names and dynamic marks. Every reported error names a listed, non-internal file |
| ConfigMap.DynamicOnlyKeepsStatic | configmap/updater.go:101-104 | A dynamic-only read leaves static flags unchanged and never reports "not dynamic" |
| ConfigMap.OnlyInternals | configmap/updater.go:95-99 | Entries starting with `..` are skipped: a directory of only those changes and reports nothing |
| ConfigMap.OtherFlagKept | configmap/updater.go:118-131 | Reading one file leaves flags of other names unchanged |
| ConfigMap.Untouched | configmap/updater.go:95-108 | A flag with no file of its name keeps its value |
| ConfigMap.EveryFileAttempted | configmap/updater.go:95-108 | Every file is attempted regardless of earlier errors: each unknown name is reported as not found |
| ConfigMap.LastFileNotFound | configmap/updater.go:100-105 | The last listed file, naming no flag, adds a "not found" error for it |
| ConfigMap.ErrorsKept | configmap/updater.go:105 | Errors only accumulate |
| ConfigMap.FileApplied | configmap/updater.go:95-108 | A listed file whose name no other entry repeats, naming a registered flag (dynamic when only dynamic flags are wanted) whose parser accepts the file's content, leaves that flag holding the parsed value with its changed bit set, whatever happened to the other files |
| ConfigMap.FileCleanStep | configmap/updater.go:101-107 | Reading one non-internal file reports nothing exactly when its name is a registered flag that is either skipped as static during a dynamic-only read or has a readable file whose content its parser accepts |
| ConfigMap.NoErrorsStep | configmap/updater.go:95-108 | The bulk read over a listing reports nothing iff the read over all but the last entry reports nothing and the last entry is internal or clean |
| ConfigMap.NoErrorsIffClean | configmap/updater.go:95-114 | The bulk read reports no error iff every listed entry is internal, or names a registered flag that is skipped as static during a dynamic-only read or whose file is readable and accepted by its parser |
| ConfigMap.ReadAllPrefixStep | configmap/updater.go:95-108 | The bulk read over one more entry skips it when internal and otherwise adds that file's reported error and registry |
| ConfigMap.ReadAllExtend | configmap/updater.go:95-108 | A loop pass that behaves as `Updater.ReadEntry` promises turns the bulk read over the first entries into the read over one more |
| ConfigMap.Classify | configmap/updater.go:138-158 | The directory or its `..data` link being created, and only that, triggers a full dynamic re-read. Another non-internal path under the directory that is created, written or renamed triggers a read of that file. Everything else is ignored |
| ConfigMap.RemoveIgnored | configmap/updater.go:141-158 | Removals are ignored |
| ConfigMap.Updater.constructor | configmap/updater.go:46-57 | A new updater is not started |
| ConfigMap.Updater.ReadFlagFile | configmap/updater.go:117-132 | The registry and error are those of `ReadFlagFileSpec` |
| ConfigMap.Updater.ReadEntry | configmap/updater.go:95-108 | One pass of the bulk read's loop: an internal entry changes nothing and adds no error; any other file is read as `ReadFlagFileSpec` says and its error recorded as `Reported` says |
| ConfigMap.Updater.ReadAll | configmap/updater.go:89-114 | An unreadable directory changes nothing. Otherwise the registry becomes that of `ReadAllSpec`, and an error is returned iff one was collected, carrying them all |
| ConfigMap.Updater.Initialize | configmap/updater.go:59-64 | Refused once started; otherwise the bulk read with static flags allowed |
| ConfigMap.Updater.Start | configmap/updater.go:67-77 | Refused when started; `started` is left as it was |
| ConfigMap.Updater.Stop | configmap/updater.go:80-87 | Refused unless started |
| ConfigMap.Updater.HandleEvent | configmap/updater.go:134-165 | The event's action is `Classify`'s. A re-read applies the dynamic-only bulk read; a file read applies that file dynamic-only; ignoring changes nothing |
| Etcd.KeyToFlag | etcd/updater.go:202-209 | Fails iff the key holds no `/`; otherwise the name is the slash-free text after the last `/` |
| Etcd.TrailingSlash | etcd/updater.go:202-209 | A key ending in `/` gives the empty name without error |
| Etcd.ApplyOne | etcd/updater.go:96-110 | Errors only accumulate; a directory or an empty value never reaches `Set` |
| Etcd.ApplyNodes | etcd/updater.go:96-111 | Applying the nodes keeps the registry's names |
| Etcd.NoErrorsIffClean | etcd/updater.go:95-116 | The bulk read reports no error iff every node is a directory, or a key with `/` whose value is empty or accepted by a registered flag |
| Etcd.UntouchedKeepDefaults | etcd/updater.go:96-111 | A flag no leaf with a value names keeps its value |
| Etcd.LastNodeApplied | etcd/updater.go:96-111 | Earlier failures do not stop later nodes: an accepted last leaf sets its flag |
| Etcd.NodeApplied | etcd/updater.go:96-111 | Any accepted leaf with a `/` in its key and a value sets its flag, unless a later leaf with a value names the same flag: earlier failures do not stop it, and leaves after it that name other flags leave it alone |
| Etcd.StaticFlagApplied | etcd/updater.go:160 | The watch applies a leaf naming a static flag, and the flag stays static |
| Etcd.RollbackRequestFor | etcd/updater.go:171-191 | Compare-and-swap back to the previous value iff there was one, otherwise compare-and-delete; on the node's key, guarded by `lastEtcdIndex` |
| Etcd.RollbackOutcomeOf | etcd/updater.go:192-199 | Success iff no error; "changed by someone else" iff error 101; anything else failed |
| Etcd.Updater.constructor | etcd/updater.go:48-58 | A new updater has index 0 and is not watching |
| Etcd.Updater.ReadAllFlags | etcd/updater.go:87-117 | A failed fetch changes nothing. Otherwise the index becomes the response's, the registry that of `ApplyNodes`, and an error is returned iff any was collected |
| Etcd.Updater.Initialize | etcd/updater.go:61-66 | Refused without change once the index is non-zero; otherwise the bulk read |
| Etcd.Updater.Start | etcd/updater.go:68-77 | Refused before initialization or while watching; succeeds otherwise |
| Etcd.Updater.Stop | etcd/updater.go:79-85 | Refused unless watching |
| Etcd.Updater.Step | etcd/updater.go:123-167 | Watches from index + 1 (wrapping). Error 401 re-reads everything; other errors back off 1000 ms plus jitter and keep the index. Otherwise the index becomes the node's. Directories, bad keys and empty values change nothing; a leaf is applied, or rolled back exactly once when `Set` fails |
| Etcd.Updater.RollbackEtcdValue | etcd/updater.go:171-191 | The request is `RollbackRequestFor` the response at the current index |

## Left out

- Goroutines, channels and atomics: loads and stores are plain reads and writes. Notifiers and `DynStringSet` are not part of this model.
- The etcd client, `fsnotify`, `ioutil.ReadDir` and `ioutil.ReadFile`: each method takes the reply it would get. The directory is a snapshot (`ConfigMap.Files`).
- `time.Sleep`, `rand.Float32` and logging: the jitter is an input below 500, and the 200 ms settling sleep before a re-read is not modelled.
- The HTTP response writer, the HTML template and `json.MarshalIndent` of the listing, including its status-500 branch: `Endpoint.Reply` carries the entries only.
- dynfloat64.go: floating-point parsing and comparison.
- DurationFlags.Scaled: the fraction's share of a term is computed exactly and truncated, not in `float64`.
- DurationFlags.DynDuration: the registered rendering is a parameter, because `Duration.String` is not modelled.
- The registry's `parse` stands for each flag's `Value.Set`. It is not connected to the value cells.
- `VisitAll` and `Visit` order: pflag sorts by name; the model visits in registration order.
- pflag's name normalisation and all error message texts: errors are datatypes.
- The regular-expression engine and the JSON codec are function parameters.
- JsonFlags.DynJSON: the panic on a non-struct argument is a precondition.
- Text.JoinPath: `path.Join` is modelled without `Clean`, for a clean directory and one file name.
- Registry.FlagSet.AddFlag: pflag panics with "flag redefined" on a name already registered. The model instead requires a fresh name, of `AddFlag` and so of every `Dyn*` constructor.
- Checksum.Utf8: strings are sequences of Unicode scalar values, so Go strings holding invalid UTF-8 are not modelled.
- ConfigMap.Updater.Start: adding and removing watches on the directory is not modelled.
- ConfigMap.Updater.HandleEvent: re-adding the directory watch after a swap is not modelled.
