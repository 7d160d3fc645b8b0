# gethosts: cache-or-refresh host list, formatter and pattern filter

`gethosts` is a small command-line tool. It fetches a host inventory from a
Foreman server as JSON of the form `{"Results": [{"Name": ...}, ...]}` and
caches the names, one per line, in a file under `~/.gethosts`. It then prints
the list. An optional argument `[prefix@]pattern` keeps only the hosts whose
name starts with `pattern` and prints each one behind the display prefix, for
example `root@` for an ssh target list.

This project models the three pieces of pure logic in the tool. All network,
filesystem and clock calls are replaced by their outcomes:

- **`getHosts`** (module `Cache`). A `World` holds what `os.Stat`,
  `time.Now`, `ioutil.ReadFile`, `downloadHosts`, `parse`, `os.MkdirAll` and
  `ioutil.WriteFile` would answer. `GetHosts` returns the text or error
  together with the trace of actions it attempted. Times and durations are
  integer nanoseconds, as `time.Duration` is.
- **`downloadParseHosts`** (module `Hosts`). The download result and the JSON
  decoder are inputs. `Format` is the buffer loop that writes `name + "\n"`
  for each record, and `FormatBuffer` is that loop written as a method.
- **`main`'s argument handling and output** (module `Cli`). The argument is
  cut after its first `@`, the text is split on `\n`, and the lines that start
  with the pattern are printed behind the prefix.

Module `GoStrings` defines the three functions of Go's `strings` package that
the tool calls: `Index` (gethosts.go:179), `Split` (gethosts.go:194) and
`HasPrefix` (gethosts.go:197), for one-character needles and separators. It
also defines `Join`. The tool never calls `Join`; it is there to state the
round-trip lemmas about `Split` and the shape of the formatted text. `Split` is
defined one character at a time; `GoStrings.SplitAtIndex` shows that it cuts at
the first separator that `Index` finds, which is how Go's `strings.Split` walks
the string. Module `Wrappers` holds the `Result`
type that stands for Go's `(value, error)` pairs.

The display prefix keeps the `@`: `patt[:i+1]` in gethosts.go:181. An argument
`P@alpha` therefore prints `P@alpha` and `P@alphabet`, not `Palpha`. The model
follows the code (`Cli.FilterExample`).

## Model

| member | source | states |
|---|---|---|
| GoStrings.IndexOf | gethosts.go:179 | the result is -1 exactly when the character does not occur; otherwise it is a position holding the character with no occurrence before it |
| GoStrings.IndexOfFirst | gethosts.go:179 | any position that holds the character with none before it is the one `IndexOf` returns |
| GoStrings.HasPrefixConcat | gethosts.go:197 | a text starts with a prefix exactly when it is that prefix followed by some suffix |
| GoStrings.Split | gethosts.go:194 | splitting gives at least one piece, and no piece contains the separator |
| GoStrings.SplitAtIndex | gethosts.go:194 | with no separator the text is one piece; otherwise the first piece runs up to the first separator that `IndexOf` finds and the rest is the split of what follows it |
| GoStrings.SplitFree | gethosts.go:194 | a text without the separator splits into itself alone |
| GoStrings.SplitThrough | gethosts.go:194 | a separator-free piece, the separator and any rest split into that piece followed by the split of the rest |
| GoStrings.JoinSplit | gethosts.go:194 | joining the pieces with the separator gives back the original text, so splitting loses nothing |
| GoStrings.SplitJoin | gethosts.go:194 | splitting a join of one or more separator-free pieces gives back exactly those pieces |
| GoStrings.SplitLast | gethosts.go:194 | the last piece of a split is empty exactly when the text is empty or ends in the separator |
| Hosts.Format | gethosts.go:141-145 | the text is empty exactly when there are no records, and otherwise ends in a newline |
| Hosts.FormatSnoc | gethosts.go:142-143 | one more record appends exactly its name and a newline to the text |
| Hosts.FormatBuffer | gethosts.go:141-146 | the buffer loop over the records produces the formatted text |
| Hosts.FormatIsJoin | gethosts.go:141-145 | the text is the names joined by newlines, followed by one more newline, for any names |
| Hosts.FormatSplit | gethosts.go:141-145 | when no name contains a newline, splitting the text on newlines (line 194) gives the names and then exactly one trailing empty line |
| Hosts.FormatInjective | gethosts.go:141-145 | two lists of newline-free names with the same text have the same names |
| Hosts.DownloadParseHosts | gethosts.go:127-147 | text is produced exactly when both download and parse succeed, and it is the formatted records; a download error is returned unchanged; a parse error is returned unchanged |
| Cache.GetHosts | gethosts.go:89-125 | cached text is returned verbatim, with nothing downloaded, exactly when the stat succeeds, `now <= modTime + duration` and the read succeeds; otherwise the result is the download-and-parse result; the file is stat-ed first and read only when present and fresh; a failed pipeline attempts neither mkdir nor write; mkdir is attempted exactly after a fresh success and records the mkdir outcome; the write is attempted exactly when mkdir succeeded, and only with the returned text |
| Cache.Refresh | gethosts.go:106-124 | the refresh path returns the download-and-parse result; it downloads first and never touches the cache file before; mkdir is attempted exactly on success and records its outcome; the write is attempted exactly when mkdir succeeded, and only with the returned text |
| Cache.RefreshInOrder | gethosts.go:106-119 | the refresh path downloads, then creates the directory, then writes, each at most once |
| Cache.GetHostsInOrder | gethosts.go:89-125 | each action is attempted at most once, in the order stat, read, download, mkdir, write |
| Cache.PersistenceOutcomeIgnored | gethosts.go:109-124 | changing whether mkdir or write succeeds never changes the returned text or error |
| Cache.FreshnessBoundary | gethosts.go:94 | at exactly `modTime + duration` a readable file is served from the cache; one nanosecond later a download is attempted |
| Cache.StoredListServesNextRun | gethosts.go:91-119 | once a run has written its text, a later run that finds that file readable and inside its window returns the same text without downloading |
| Cli.ParseArg | gethosts.go:178-184 | prefix and pattern concatenate to the argument; the prefix is empty when the argument has no `@`, and otherwise ends in the first `@` of the argument |
| Cli.ParseArgUnique | gethosts.go:179-183 | any split with those properties is the one `ParseArg` returns |
| Cli.Matching | gethosts.go:196-199 | the lines kept are exactly the input lines that start with the pattern, and there are no more of them than input lines |
| Cli.MatchingAppend | gethosts.go:196-199 | filtering a concatenation is the concatenation of the filtered parts, so input order is kept |
| Cli.MatchingEmptyPattern | gethosts.go:197 | the empty pattern keeps every line, including an empty one |
| Cli.PrefixedMember | gethosts.go:198 | the prefix followed by a line is printed exactly when that line is one of the kept lines |
| Cli.PrefixedAppend | gethosts.go:196-199 | prefixing a concatenation is the concatenation of the prefixed parts, so print order follows input order |
| Cli.PrintStep | gethosts.go:196-199 | one more input line adds one prefixed line to the output exactly when it starts with the pattern |
| Cli.PrintMatching | gethosts.go:193-200 | the print loop emits the prefixed matching lines in input order |
| Cli.Output | gethosts.go:188-204 | the process exits through `log.Fatal` exactly when `getHosts` failed; with no argument the text is printed as one `Println`; with an argument there are no more printed lines than split lines, each one starts with the whole argument, and the prefix followed by a line is printed exactly when that line is a piece of the split text and starts with the pattern |
| Cli.Main | gethosts.go:188-191 | the program fails exactly when there is no cache hit and download or parse fails; on a hit with no argument it prints the cached text |
| Cli.OutputOfLines | gethosts.go:177-200 | with one argument, the output is the prefixed pieces of the split text that start with the pattern, in order |
| Cli.MatchingFormatted | gethosts.go:194-199 | the pieces of a formatted line-safe list that start with the pattern are the matching names, then one empty piece exactly when the pattern is empty |
| Cli.PrefixedFormatted | gethosts.go:194-199 | printed behind the prefix, those pieces are the prefixed matching names, then the bare prefix exactly when the pattern is empty |
| Cli.OutputOfFormatted | gethosts.go:193-200 | on freshly formatted newline-free names, the output is the prefixed matching names in order, plus one bare-prefix line when the pattern is empty |
| Cli.MatchingExample | gethosts.go:196-199 | of `alpha`, `beta`, `alphabet`, the pattern `alpha` keeps `alpha` then `alphabet`, which print as `P@alpha` and `P@alphabet` |
| Cli.CutExample | gethosts.go:179-183 | `P@alpha` cuts right after its `@`, into `P@` and `alpha` |
| Cli.FilterExample | gethosts.go:177-200 | `P@alpha` cuts into `P@` and `alpha`, and on that list prints `P@alpha` and `P@alphabet` |
| Cli.EmptyPatternPrintsBarePrefix | gethosts.go:194-199 | as written, an empty pattern prints every host with the prefix and then one extra line that is only the prefix |
| Cli.BarePrefixExample | gethosts.go:196-199 | the empty pattern keeps both pieces `web1` and `""`, which print as `root@web1` and a bare `root@` |
| Cli.TrailingPrefixLine | gethosts.go:194-199 | as written, `root@` cuts into prefix `root@` and the empty pattern, and on the list `web1` prints `root@web1` and then `root@` |
| Cli.HostLines | gethosts.go:194 | the host lines contain no newline; they are the split pieces without the last one when that one is empty, and all the pieces otherwise |
| Cli.HostLinesSplit | gethosts.go:194 | when the text is empty or ends in a newline, the split pieces are the host lines and then one empty piece; otherwise they are exactly the host lines |
| Cli.HostLinesJoin | gethosts.go:194 | joining the host lines with newlines gives the text, with the final newline added back exactly when the text ended in one |
| Cli.HostLinesOfFormat | gethosts.go:141-145 | the host lines of formatted newline-free names are exactly those names |
| Cli.OutputIntended | gethosts.go:188-204 | same failure and no-argument behaviour as `Output`; with an argument there are no more lines than host lines, and the prefix followed by a line is printed exactly when that line is a host line and starts with the pattern |
| Cli.IntendedOutputOfFormatted | gethosts.go:193-200 | with the corrected filter the output is exactly the prefixed matching names, in order; with an empty pattern there is one line per host |

## Left out

- `downloadHosts` (gethosts.go:61-87) is network I/O and is not modelled. This covers the HTTP client, the TLS configuration with certificate checks turned off, basic authentication and the JSON headers. Its answer is the `download` input, and its three failure causes are the `RequestBuildError`, `TransportError` and `BodyReadError` error values.
- `parse` (gethosts.go:149-155) calls `json.Unmarshal`, a library decoder. It is the `parse` input, which yields a `Response` or an error.
- `os.Stat`, `ioutil.ReadFile`, `os.MkdirAll`, `ioutil.WriteFile` and `time.Now` are replaced by the fields of `World`. Path joining and file modes have no bearing on the decision and are not modelled.
- Logging, flag parsing with its defaults (the URL, `~/.gethosts`, `hostslist.txt`, one hour), `user.Current` with its `log.Fatal`, and `runtime.GOMAXPROCS` are plumbing that does not change the logic. `Main` starts from parsed flags.
- Hosts.DownloadParseHosts: on an error the Go code also returns an empty `rt`. The model returns only the error, because the one caller exits on any error without reading `rt`.
- Go strings are byte sequences, but the model uses characters. The two separators, `@` and `\n`, are single ASCII bytes that never occur inside a multi-byte UTF-8 sequence, so the cuts agree.
- Cache.GetHosts: times are unbounded integers. Go's `time.Time.Add` saturates only far outside any real modification time plus an `int64` duration, and that saturation is not modelled. The monotonic clock reading is not modelled either.
- A failed or partial write can leave a corrupt cache file. The model records only that the write was attempted and its outcome; the file contents after a failure are not modelled.

## Findings

| source | as written | input that shows it | evidently intended | confidence | as-written member | corrected member |
|---|---|---|---|---|---|---|
| gethosts.go:194-199 | the filter runs over every piece of `strings.Split(hosts, "\n")`, including the empty piece after the final newline, and an empty pattern matches it | argument `root@` with the host list `web1` prints `root@web1` and then a line `root@` that names no host | print only the lines that are hosts: `root@web1` | medium, not executed | Cli.TrailingPrefixLine | Cli.IntendedOutputOfFormatted |

`Cli.Output` and `Cli.Main` keep the filter as written, since they describe
what the program does. `Cli.OutputIntended` is the corrected filter: it runs
over `Cli.HostLines`, which drops the empty piece after a final newline.
