# procfs: process lookup by name and container name lookup, in Dafny

This project models the Linux `procfs` package of bart0sh/utils
(`procfs/procfs_linux.go`). The package does four things:

- **containerNameFromProcCgroup / GetFullContainerName** read
  `/proc/<pid>/cgroup`. The file's lines have the form
  `hierarchy-ID:subsystems:path`. The result is the trimmed path of the first
  line that has a third field and whose second field is exactly `devices`.
- **getPids** walks `/proc` ten entries at a time. It collects, in
  enumeration order, the pid of every process directory whose executable
  token matches a regular expression. A directory qualifies when its name
  parses as an int and its `cmdline` can be read. The executable token is the
  first white-space-or-colon separated field of the NUL-terminated `argv[0]`.
- **PidOf** anchors a name as `(^|/)name$` and returns the scan's pids.
- **PKill** compiles the name as it is, signals every matching pid, and
  aggregates the distinct failure messages in the order they first occur.

The file system, `regexp.Compile` and `syscall.Kill` become inputs:

- a `ProcDir` gives the outcome of opening `/proc` and its Readdir batches;
  every entry carries the outcome of reading its `cmdline`;
- a `Compiler` gives the compiled pattern as a `Matcher` (`string -> bool`),
  or the syntax error;
- a `Killer` gives the error message of a failed delivery.

`getPids` and `PKill` work step by step. They are methods with loops, and each
is proved equal to a functional specification (`Scan`, `Dedup(Failures(..))`).
The properties are then proved about those specifications.

Modules:

- `Wrappers` holds Option, Result and the error values.
- `Strings` models the Go library functions the package calls: `strings.Split`,
  `SplitN`, `Join`, `FieldsFunc`, `TrimSpace` (through `TrimFunc`) and
  `unicode.IsSpace`.
- `Strconv` models `Atoi`, `Itoa` and `Quote`. `Unquote` reads Quote's output back; it is the decoder Quote is proved against.
- `Cgroup` models the cgroup parsing.
- `PidScan` models getPids.
- `Procfs` models PidOf and PKill.

Where the behaviour is easy to misread, the model follows the code:

- The doc comment of GetFullContainerName (lines 57-59) says a devices
  cgroup at `/docker/nginx` gives `docker/nginx`. The code keeps the leading
  `/`: only white space is trimmed. `Cgroup.OneDockerLine` proves that the line
  `4:devices:/docker/nginx` gives `/docker/nginx`.
- PKill joins several failure messages with `","` (no space), inside `"[ "`
  and `" ]"`.
- Readdir batches that run out without an end-of-directory marker read as the
  end of the directory. A read error discards every pid collected so far, and
  the result is then nil, not an empty list. `PidList` keeps Go's distinction
  between a nil and an empty slice: a failed open or read gives nil, while
  PidOf's error paths give an empty list.
- The test `len(parts) == 0` after `bytes.SplitN` (line 161) can never
  succeed. SplitN with n = 2 always returns one or two pieces, and
  `Strings.SplitN`'s contract states this.

## Model

| member | source | states |
|---|---|---|
| Cgroup.ContainerNameFromProcCgroup | procfs/procfs_linux.go:46-55 | with the content split at '\n', the result is the trimmed third field of the first line whose SplitN into 3 fields has "devices" as its middle field; later lines play no part; with no such line it is the "could not find devices cgroup location" error |
| Cgroup.FirstDevicesPath | procfs/procfs_linux.go:48-54 | the loop over the lines: the first devices line (by IndexFunc) decides, otherwise the not-found error |
| Cgroup.DevicesLineFromParts | procfs/procfs_linux.go:49-51 | every `a:devices:c` with no ':' in `a` is a devices line whose third field is all of `c`, colons included |
| Cgroup.DevicesLineParts | procfs/procfs_linux.go:49-50 | conversely, every devices line is `a:devices:c` with `a` ending at its first colon, and its third field is `c` |
| Cgroup.OneDockerLine | procfs/procfs_linux.go:57-59 | the line `4:devices:/docker/nginx` gives `/docker/nginx`: the leading '/' is kept |
| Cgroup.GetFullContainerName | procfs/procfs_linux.go:60-70 | the result is os.ErrNotExist exactly when reading `/proc/<pid>/cgroup` fails with "does not exist"; any other read error is passed on; readable contents are parsed by ContainerNameFromProcCgroup |
| Cgroup.CgroupPath | procfs/procfs_linux.go:61 | the path is `/proc/`, the pid's numeral and `/cgroup`; for a pid that fits in 64 bits, Atoi reads the middle back as the pid |
| Strconv.AtoiItoa | procfs/procfs_linux.go:61 | the directory name Itoa writes for an in-range pid is read back to that pid by Atoi |
| Strconv.Itoa | procfs/procfs_linux.go:61 | the numeral is non-empty and starts with '-' exactly when the pid is negative; after the sign come decimal digits with no leading zero, whose value (negated after a '-') is the pid |
| Strconv.Atoi | procfs/procfs_linux.go:147-151 | a name parses only if it is an optional sign followed by decimal digits, and its value lies in the 64-bit int range |
| Strconv.AtoiSignedDigits | procfs/procfs_linux.go:147-151 | every optional '+' or '-' followed by one or more digits is accepted with its signed value when that value fits in 64 bits, and rejected when it does not |
| Strconv.Digits | procfs/procfs_linux.go:61 | the numeral is non-empty, all digits, has no leading zero and has the value of `n` |
| PidScan.BeforeNul | procfs/procfs_linux.go:159-160 | argv[0] is the prefix of the cmdline record before its first NUL, or all of it when there is no NUL |
| PidScan.ExeTokenIsFirstRun | procfs/procfs_linux.go:164-170 | the executable token exists exactly when argv[0] holds a character that is neither white space nor ':', and it is the first maximal run of such characters |
| PidScan.ScanEntries | procfs/procfs_linux.go:142-176 | the inner loop appends to what was found the pids of exactly the selected entries of the batch, in order |
| PidScan.GetPids | procfs/procfs_linux.go:122-180 | the loop over the Readdir batches returns what Scan specifies: nil when /proc cannot be opened or a batch fails, and otherwise the pids selected from every batch before the end |
| PidScan.SelectPidsExactly | procfs/procfs_linux.go:142-176 | the pids collected are those of exactly the entries that are directories, have an int name, have a readable cmdline and have a matching executable token, in enumeration order |
| PidScan.SelectPidsAppend | procfs/procfs_linux.go:142-176 | selecting from two runs of entries one after the other is selecting from their concatenation |
| PidScan.UnreadableOnlySkips | procfs/procfs_linux.go:153-157 | an entry whose cmdline cannot be read is skipped and changes nothing else |
| PidScan.ScanFlattens | procfs/procfs_linux.go:131-140 | the batched scan is nil exactly when a batch fails before the end of the directory, and otherwise it is the selection from all entries read, taken as one sequence |
| PidScan.ScanIsNilIff | procfs/procfs_linux.go:125-140 | getPids returns nil exactly when /proc cannot be opened or a batch fails before the end |
| PidScan.BatchingIrrelevant | procfs/procfs_linux.go:131-134 | how the entries are cut into batches does not change the result |
| PidScan.ReadErrorDiscards | procfs/procfs_linux.go:138-140 | a read error before the end of the directory makes the whole result nil, dropping the pids already found |
| PidScan.CollectExactly | procfs/procfs_linux.go:172-175 | collecting keeps the values of exactly the picked elements, at strictly increasing positions |
| PidScan.CollectAppend | procfs/procfs_linux.go:174 | collecting over a concatenation is the concatenation of the collections |
| Procfs.PidOfPattern | procfs/procfs_linux.go:115 | the pattern is the five-character group that matches the start of the string or a slash, then the name unchanged, then the end anchor "$"; the name can be read back from it |
| Procfs.PidOf | procfs/procfs_linux.go:111-120 | an empty name gives an empty (non-nil) list and the "name should not be empty" error; a pattern that does not compile gives an empty list and the compile error; otherwise the scan with the anchored pattern and no error |
| Procfs.NoPidsMessage | procfs/procfs_linux.go:84 | the message is the fixed text followed by the name as %q quotes it, which reads back as the name |
| Procfs.PKill | procfs/procfs_linux.go:74-107 | an empty name and a compile error of the unanchored name are returned as errors; an empty or nil scan gives "unable to fetch pids for process name : " and the quoted name; otherwise the result is the aggregate of the distinct failure messages |
| Procfs.PKillSucceeds | procfs/procfs_linux.go:86-106 | once pids were found, PKill returns no error exactly when every signal is delivered |
| Procfs.SignalAll | procfs/procfs_linux.go:86-98 | the loop signals every pid and keeps each failure message once, where it first occurs |
| Procfs.SignalStep | procfs/procfs_linux.go:87-97 | signalling one more pid appends its failure message exactly when the delivery failed and the message is not already collected |
| Procfs.Contains | procfs/procfs_linux.go:90-94 | the inner search reports whether the message is already among the collected ones |
| Procfs.FailuresMembers | procfs/procfs_linux.go:87-89 | a message is among the failures exactly when delivering the signal to some pid failed with that message |
| Procfs.FailuresEmptyIff | procfs/procfs_linux.go:87-89 | there are no failures exactly when every delivery succeeds |
| Procfs.FailuresExactly | procfs/procfs_linux.go:87-89 | the failures are one message per failing pid, in pid order: message k is the error of the k-th failing pid, and every failing pid has one |
| Procfs.DedupSameElements | procfs/procfs_linux.go:89-96 | the deduplicated messages are exactly the messages that occurred |
| Procfs.DedupDistinct | procfs/procfs_linux.go:89-96 | the deduplicated messages hold no message twice |
| Procfs.DedupFirstOccurrenceOrder | procfs/procfs_linux.go:89-96 | the deduplicated messages stand in the order of their first occurrence |
| Procfs.DedupSnoc | procfs/procfs_linux.go:90-95 | a message is appended exactly when it is not already collected |
| Procfs.Aggregate | procfs/procfs_linux.go:99-106 | the result is no error exactly when there is no message, and a single message is returned as it is |
| Procfs.AggregateBracketed | procfs/procfs_linux.go:104 | for two or more messages, whatever they contain, the text is "[ ", the messages joined by ",", then " ]"; its length is the messages' total plus the commas and brackets, and each message stands at its place inside |
| Procfs.AggregateRecoversMessages | procfs/procfs_linux.go:104 | the bracketed text for several comma-free messages is "[ ", the messages joined by ",", then " ]", and splitting its inside at the commas gives back the messages |
| Strings.SplitN | procfs/procfs_linux.go:49 | SplitN returns between 1 and n pieces, and every piece but the last (and the last too, when there are fewer than n) is free of separators |
| Strings.JoinSplitN | procfs/procfs_linux.go:49 | joining the pieces of SplitN with the separator gives back the line |
| Strings.Split | procfs/procfs_linux.go:47 | Split returns at least one piece, and no piece holds the separator |
| Strings.JoinSplit | procfs/procfs_linux.go:47 | joining the lines with '\n' gives back the content |
| Strings.SplitJoin | procfs/procfs_linux.go:104 | splitting a join of separator-free parts gives back the parts |
| Strings.JoinLength | procfs/procfs_linux.go:104 | a join is as long as the parts together plus one separator between each two neighbours |
| Strings.JoinLayout | procfs/procfs_linux.go:104 | part k stands in the join right after the parts before it and one separator after each of them, and the separator follows it when another part does; with JoinLength, the parts and separators fill the join in order |
| Strings.FieldsFunc | procfs/procfs_linux.go:165-167 | the fields are non-empty and free of separators, and together they hold exactly the non-separator characters, in order |
| Strings.FieldsFuncRuns | procfs/procfs_linux.go:165-167 | the fields are exactly the maximal runs of non-separators, in order: each is a slice with a separator or an end of the string on both sides, the runs do not touch, and every character outside them is a separator |
| Strings.IsSpaceLatin1 | procfs/procfs_linux.go:166 | on the first 256 code points, unicode.IsSpace holds exactly for tab, newline, vertical tab, form feed, carriage return, space, U+0085 and U+00A0 |
| Strings.NoFieldsIffAllSeparators | procfs/procfs_linux.go:168 | there is no field exactly when every character is a separator |
| Strings.FirstFieldIsFirstRun | procfs/procfs_linux.go:165-172 | the first field is the first maximal run of non-separators |
| Strings.TrimFuncSlice | procfs/procfs_linux.go:51 | trimming (TrimSpace is TrimFunc with IsSpace) keeps one contiguous slice of its input: only trimmed characters lie outside it, and the slice neither starts nor ends with one |
| Strings.TrimSpaceSlice | procfs/procfs_linux.go:51 | TrimSpace keeps one contiguous slice of the field: only white space lies outside it, and it neither starts nor ends with white space |
| Strings.TrimFuncTrimmed | procfs/procfs_linux.go:51 | a path with no white space at either end comes out unchanged |
| Strings.TrimFuncIdempotent | procfs/procfs_linux.go:51 | trimming twice is trimming once |
| Strings.TrimLeftIndex | procfs/procfs_linux.go:51 | the left cut is at the first character that is not trimmed; everything before it is trimmed |
| Strings.TrimRightIndex | procfs/procfs_linux.go:51 | the right cut is just after the last character that is not trimmed; everything after it is trimmed |
| Strconv.QuotePlain | procfs/procfs_linux.go:84 | %q leaves a name of printable characters other than '"' and '\' unchanged inside its double quotes |
| Strconv.QuoteCharShape | procfs/procfs_linux.go:84 | a character is copied unchanged exactly when it is printable and neither '"' nor '\'; any other is written as an escape starting with a backslash |
| Strconv.UnescapeQuoteChar | procfs/procfs_linux.go:84 | the escape written for each character is read back as that character, whatever follows it |
| Strconv.UnquoteQuote | procfs/procfs_linux.go:84 | %q loses nothing: reading the quoted name back gives the name |

## Left out

- The file system, the regular expression engine and signal delivery are inputs:
  - `os.Open` and `Readdir` are a `ProcDir` value;
  - `ioutil.ReadFile` of `cmdline` is a per-entry outcome, and of `cgroup` a `readFile` function;
  - `regexp.Compile` and `MatchString` are a `Compiler` and a `Matcher`;
  - `syscall.Kill` is a `Killer`.

  Regular-expression syntax and semantics, and the effect of a signal, are not modelled.
- The paths a process's `cmdline` is read from (line 153) are not modelled. An entry carries its read outcome directly.
- The `defer dirFD.Close()` (line 129), the klog logging (line 155), and `ProcFS`/`NewProcFS` (lines 38-44) have no effect on the results. They are not modelled.
- File contents and command lines are `string`, a sequence of code points, while Go strings are bytes: `string(content)` copies the bytes unchanged. `strings.TrimSpace` (line 51) and `strings.FieldsFunc` (line 165) decode UTF-8 as they go; they read an invalid byte as U+FFFD, which is neither white space nor ':', and keep the raw byte in the path or token they return. Contents that are not valid UTF-8 cannot be represented, so the model covers valid UTF-8 only.
- Strconv.IsPrint: exact on the first 256 code points. Every character above U+00FF is treated as printable, so `%q` of a name containing an unprintable or invalid character above U+00FF is not exact.
- Procfs.PKill: a single failure message is returned as the text of the error. Go passes it to `fmt.Errorf` as a format string (line 102), so a message containing '%' would be rewritten. The messages of `syscall.Errno` contain no '%'.
- Strconv.Atoi: Go's `int` is taken to be 64 bits wide. The error values of Atoi (syntax or range) are not distinguished, since getPids only tests for failure.
- Concurrency: the directory and the processes are taken as a snapshot. Changes while the scan runs are not modelled.
