# OpenVPN Manager — a Dafny model of its decision logic

OpenVPN Manager is an interactive console tool. An administrator uses it to:

- list the clients connected to an OpenVPN server;
- revoke and restore their access through the easy-rsa PKI;
- disconnect a client;
- show traffic statistics;
- page through the server log.

The interface, the sockets, the files and the `./easyrsa` processes surround a set of
small parsers and decision rules. This project models those rules and proves what they
guarantee. Each external input becomes a value:

- a management reply is the text received, or nothing when the exchange failed;
- a file is its list of lines, or nothing when it cannot be read;
- a directory listing is a list of names;
- an `./easyrsa` run is its exit status, or a failure to start.

Modules (one file each):

- `Text`: the Python string built-ins the code relies on, with their edge cases:
  - `str.strip` with Python's whitespace set, and `str.split` with one separator;
  - substring `in`, and `str.lower` on ASCII letters;
  - `str.isdigit` and `int()` (sign, surrounding whitespace, `_` between digits);
  - string order, `sorted` and `sorted(set(...))`.
- `Sessions`: the connection record both session sources produce. A byte counter that
  is not all digits reads as 0, and a missing value is `"N/A"`.
- `Management`:
  - `ParseStatusReply` reads the `CLIENT_LIST` lines of a `status` reply.
  - `KillCommand` builds the `kill` command, and `KickOutcome` is its `SUCCESS` check.
- `StatusLog`: the fallback reader of the status log (`ParseStatusFile`). It uses the
  `Common Name,` header, a section flag and a stop at `ROUTING`. It is also described a
  second way, as the window of lines between the header and the first ROUTING line.
- `Registry`: the rule every screen follows to get its sessions. The management
  interface comes first, and the status log is used only when the management exchange
  fails.
- `Certificates`: the users with an issued certificate (the `.crt` stems) and the users
  with a revoked certificate (the `R` entries of `index.txt`, read with `/CN=([^/]+)`).
- `Lifecycle`: the revoke and restore workflows as state machines over the easy-rsa
  directory (the `EasyRsaDir` class). That state is its index file and the tool
  invocations made. This module also holds the index pruning done before a restore.
- `Selection`: how the operator's answer picks one user from a list. It picks by number,
  by exact name, or by unique case-insensitive substring, and `0` is the `CANCEL`
  sentinel.
- `Stats`: the totals, and the five sessions with the most traffic, ordered by Python's
  stable descending sort.
- `Logs`: how many lines the log viewer shows, the tail slice `all_lines[-n:]`, and the
  colour class of each line.

Where the code and its description differ, the model follows the code:

- Pruning removes every line that contains `/CN=<name>` anywhere. That includes the lines
  of any longer name beginning with `<name>`, and both valid and revoked entries.
- A revoked name is not stripped.
- A `ROUTING` line ends the status-log scan even when it comes before the header.

## Model

| member | source | states |
|---|---|---|
| Sessions.CounterFieldRoundTrip | src/ovpn-manager.py:236-237 | A counter written in decimal reads back as its value; a field that is empty or holds a non-digit reads as 0 instead of raising |
| Management.ClientListSessions | src/ovpn-manager.py:226-239 | Exactly one session per line that starts with CLIENT_LIST and has at least five comma fields, each built from its own line |
| Management.ClientListSessionsAppend | src/ovpn-manager.py:228-239 | Lines are read independently and in order: the sessions of two runs of lines are those of the first followed by those of the second |
| Management.ClientListSessionsSingle | src/ovpn-manager.py:229-239 | A single line yields its own record when it is a CLIENT_LIST line with five fields, and nothing otherwise |
| Management.ParseStatusReply | src/ovpn-manager.py:225-241 | The loop that splits the reply at newlines and appends one record per CLIENT_LIST line computes exactly the reply's sessions |
| Management.ReplyUsersAreOneLine | src/ovpn-manager.py:226-233 | No user name read from a reply contains a newline |
| Management.ClientListRoundTrip | src/ovpn-manager.py:229-239 | A CLIENT_LIST line written for a session whose text fields hold no comma and no newline reads back as exactly that session: fields 1-3 copied, counters from fields 4 and 5, connection time from field 7 |
| Management.KillCommandIsOneLine | src/ovpn-manager.py:571 | For a user without a newline, the kill command is the single protocol line `kill <user>` |
| Management.KickOutcome | src/ovpn-manager.py:565-582 | The kill counts as done exactly when the reply contains SUCCESS; any other reply is shown as it came; a failed exchange is reported apart |
| StatusLog.ParseStatusFile | src/ovpn-manager.py:243-276 | The loop with the section flag, the `continue` on the header, the append and the `break` on ROUTING computes the scan's sessions; an unreadable file gives none |
| StatusLog.HeaderIsNotRouting | src/ovpn-manager.py:255-272 | No stripped line is both a header and a ROUTING line |
| StatusLog.FirstRouting | src/ovpn-manager.py:271-272 | The position of the first ROUTING line, with no ROUTING line before it |
| StatusLog.FirstHeader | src/ovpn-manager.py:255-257 | The position of the first header, with no header before it |
| StatusLog.ScanInSection | src/ovpn-manager.py:259-269 | Inside the section, with no ROUTING line, every stripped non-empty line with four fields yields its record, and a repeated header yields none |
| StatusLog.ScanBeforeHeader | src/ovpn-manager.py:251-259 | Before any header, no line yields a session |
| StatusLog.ScanSkipsPreamble | src/ovpn-manager.py:251-257 | The scan ignores everything up to and including the first header |
| StatusLog.ScanStopsAtRouting | src/ovpn-manager.py:271-272 | Nothing at or after the first ROUTING line is read |
| StatusLog.StatusSessionsAreSection | src/ovpn-manager.py:251-272 | The parser returns exactly the records of the lines strictly between the first header and the first ROUTING line |
| StatusLog.RoutingFirstMeansNoSessions | src/ovpn-manager.py:259-272 | A ROUTING line ahead of every header leaves no sessions at all |
| StatusLog.StatusSessionsHaveNoVirtualAddress | src/ovpn-manager.py:262-268 | Every session from the status log has "N/A" as its virtual address |
| Registry.ActiveSessions | src/ovpn-manager.py:299-307 | A successful management reply decides the sessions: exactly those parsed from the reply, one per CLIENT_LIST line, even none. Only when the exchange failed are the sessions exactly those parsed from the status log, without a virtual address. With both unavailable there are none |
| Registry.ReplyDecides | src/ovpn-manager.py:534-540 | Once the management exchange succeeds the status log plays no part, and a reply without client lines means no sessions |
| Registry.ConnectedUsers | src/ovpn-manager.py:550 | One name per session, in session order |
| Registry.KillOfReplyUserIsOneLine | src/ovpn-manager.py:550-573 | A user offered from a management reply produces a one-line kill command |
| Certificates.StemOfCertificateFile | src/ovpn-manager.py:85-86 | `<u>.crt` matches the pattern and has stem `<u>` |
| Certificates.ClientStems | src/ovpn-manager.py:84-88 | A name is collected exactly when it is the stem of a `.crt` name other than `server`; see ClientStemsAppend and ClientStemsSingle for how many times |
| Certificates.ClientStemsAppend | src/ovpn-manager.py:84-88 | Collecting is done file by file: the stems of two listings in turn are the stems of the first followed by those of the second, so one entry per matching file, duplicates kept |
| Certificates.ClientStemsSingle | src/ovpn-manager.py:85-88 | One file name contributes its stem once when it is a `.crt` file other than `server.crt`, and nothing otherwise |
| Certificates.ValidCertificates | src/ovpn-manager.py:76-90 | Sorted ascending, never `server`, a rearrangement of the collected stems (one entry per `.crt` file); a missing directory gives none |
| Certificates.IssuedUserIsListed | src/ovpn-manager.py:85-90 | Every user with a certificate file, other than the server, is listed |
| Certificates.RunUntilSlash | src/ovpn-manager.py:108 | The captured group `[^/]+` is the longest prefix without `/` |
| Certificates.FirstMatch | src/ovpn-manager.py:108 | The first position at or after the start where the pattern matches |
| Certificates.CnValue | src/ovpn-manager.py:108-110 | No value exactly when the pattern matches nowhere; a value is non-empty, holds no `/` and follows `/CN=` in the field |
| Certificates.CnValueIsLeftmost | src/ovpn-manager.py:108-110 | The value is read at the leftmost match and runs to the next `/` or the end of the field |
| Certificates.CnValueOfPlainField | src/ovpn-manager.py:108-110 | A field `/CN=<v>` with no `/` in `v` gives `v`, newline included |
| Certificates.CollectNames | src/ovpn-manager.py:100-112 | The names gathered are exactly those read from some line, `server` excluded |
| Certificates.RevokedCertificates | src/ovpn-manager.py:92-116 | Strictly sorted (so no repeats), never `server`, exactly the names read from `R` lines with six tab fields and a `/CN=` in field 5; a missing index gives none |
| Certificates.ListRevoked | src/ovpn-manager.py:100-116 | The reading loop followed by `sorted(set(...))` computes exactly the revoked listing |
| Certificates.RevokedServerLineFields | src/ovpn-manager.py:105 | The sample server index line splits into its six tab fields |
| Certificates.RevokedServerLineName | src/ovpn-manager.py:104-110 | The name read from the revoked server line is `server` followed by a newline |
| Certificates.RevokedServerIsListed | src/ovpn-manager.py:108-116 | As written, an index holding only the revoked server line lists `server\n` |
| Certificates.TrimmedRevokedName | src/ovpn-manager.py:108-111 | The corrected reading yields only non-empty names free of surrounding whitespace |
| Certificates.TrimmedRevokedCertificates | src/ovpn-manager.py:92-116 | The corrected listing: strictly sorted, every name trimmed and non-empty, never `server`, exactly the trimmed names of the revoked lines |
| Certificates.StripServerNewline | src/ovpn-manager.py:110-111 | `server` followed by a newline strips to `server` |
| Certificates.TrimmedRevokedServerIsHidden | src/ovpn-manager.py:111 | With trimming, the revoked server line is not listed |
| Lifecycle.Argv | src/ovpn-manager.py:389 | Every invocation runs `./easyrsa` with its subcommand word: `revoke <name>`, `gen-crl` alone, or `build-client-full <name> nopass` |
| Lifecycle.Stdin | src/ovpn-manager.py:393 | Only `revoke` is given input, and that input is exactly `yes` followed by a newline |
| Lifecycle.RevokeFlow | src/ovpn-manager.py:380-417 | No easy-rsa directory means no tool runs. Otherwise `revoke` runs first, `gen-crl` runs exactly when `revoke` exits 0, and success means both exit 0. A non-zero `revoke` fails at the revoke step with its status and runs only `revoke`; a non-zero `gen-crl` fails at the CRL step with its status. A tool error is reported exactly when a tool that was due to run could not start |
| Lifecycle.Pruned | src/ovpn-manager.py:478-481 | Never longer than the index: a line stays exactly when it does not contain `/CN=<name>` |
| Lifecycle.PrunedAppend | src/ovpn-manager.py:479-481 | Pruning works line by line: the kept lines stay in order and unchanged |
| Lifecycle.PrunedKeepsOthers | src/ovpn-manager.py:479-481 | An index without a line of the name is left exactly as it was |
| Lifecycle.ContainsPrefixOf | src/ovpn-manager.py:480 | An occurrence of `/CN=<name><suffix>` is an occurrence of `/CN=<name>` |
| Lifecycle.PrunedDropsLongerNames | src/ovpn-manager.py:480 | Pruning `bob` also removes every line of `bobby` |
| Lifecycle.NewlineNameMarksOnlyLineEnds | src/ovpn-manager.py:474-481 | For a name that keeps its newline, a one-line index entry is pruned exactly when it ends with `/CN=<name>` |
| Lifecycle.RestoreFlow | src/ovpn-manager.py:468-519 | The index, when it exists, is pruned before `build-client-full`, which runs with or without an index. Only `build-client-full <name>` and `gen-crl` run, `gen-crl` exactly when the build exits 0, and success means both exit 0. A non-zero build fails at the build step with its status, a non-zero `gen-crl` at the CRL step with its status, and a tool error is reported exactly when a tool that was due to run could not start. A missing directory is never reported as such |
| Lifecycle.RestorePrunesWhateverTheTools | src/ovpn-manager.py:474-486 | The pruned index does not depend on how the tools end |
| Lifecycle.RestoreWithoutDirectoryFails | src/ovpn-manager.py:469-491 | Without the directory the build fails to start and the restore ends with an error after one attempted command |
| Lifecycle.EasyRsaDir.PruneIndex | src/ovpn-manager.py:474-481 | Rewriting the index line by line leaves exactly the pruned index and touches nothing else |
| Lifecycle.EasyRsaDir.RevokeUser | src/ovpn-manager.py:380-417 | Its outcome and appended invocations are those of RevokeFlow, and the index is untouched |
| Lifecycle.EasyRsaDir.RestoreUser | src/ovpn-manager.py:468-519 | Its outcome, appended invocations and new index are those of RestoreFlow, with a missing directory making the build fail to start |
| Selection.MatchingUsers | src/ovpn-manager.py:160 | Exactly the users whose lower-cased name contains the lower-cased input, in list order, each as many times as it occurs in the list |
| Selection.SelectUser | src/ovpn-manager.py:118-171 | An empty list or blank input selects nothing. A result is a user of the list or CANCEL, and CANCEL for a list without such a user only comes from a number that reads as 0 |
| Selection.BlankSelectsNothing | src/ovpn-manager.py:139-142 | An all-whitespace or empty answer selects nothing |
| Selection.SelectByParsedNumber | src/ovpn-manager.py:145-153 | An answer `int()` reads as n: 0 cancels, 1..len picks `users[n-1]`, any other number selects nothing |
| Selection.SelectByNegativeNumber | src/ovpn-manager.py:145-153 | `-<digits>` selects nothing, except that `-0` cancels |
| Selection.ExactNameWins | src/ovpn-manager.py:156-157 | A name of the list that is not a number selects itself even when other names contain it |
| Selection.UniqueMatchSelects | src/ovpn-manager.py:158-171 | Otherwise a user is selected exactly when one name matches, and it is that name |
| Selection.AmbiguousInputSelectsNobody | src/ovpn-manager.py:164-168 | Two matching users mean nothing is selected |
| Selection.RepeatedMatchSelectsNobody | src/ovpn-manager.py:160-168 | Two matching entries of the list, even two sessions of the same user, mean nothing is selected when the input is neither a number nor an exact name |
| Selection.CancelNamedUserLooksLikeCancel | src/ovpn-manager.py:147-157 | Typing the name of a user called CANCEL yields the same value as typing 0 |
| Stats.TotalsAddUp | src/ovpn-manager.py:609-611 | Bytes received plus bytes sent, summed separately, equal the sum of each session's traffic |
| Stats.TotalsAppend | src/ovpn-manager.py:609-611 | The totals of two groups of sessions add up |
| Stats.Statistics | src/ovpn-manager.py:605-622 | The screen's figures: one user per session, the two listing sizes, received and sent equal to the sums of the sessions' counters, and a total traffic equal to their sum that bounds both directions |
| Stats.InsertByTraffic | src/ovpn-manager.py:629-631 | Inserting into a descending sequence keeps it descending and adds exactly the new session |
| Stats.SortByTraffic | src/ovpn-manager.py:629-631 | The ordering is descending by received plus sent, and a rearrangement of the sessions |
| Stats.InsertGoesBeforeTies | src/ovpn-manager.py:629-631 | An inserted session goes ahead of those with equal traffic |
| Stats.SortIsStable | src/ovpn-manager.py:629-631 | Sessions with equal traffic keep their input order, as Python's stable `reverse=True` sort does |
| Stats.TopOfSorted | src/ovpn-manager.py:629-631 | A prefix of the descending ordering is descending, drawn from the sessions, and has at least the traffic of every session left out |
| Stats.TopByTraffic | src/ovpn-manager.py:629-631 | The top list is the first min(5, n) sessions of the stable descending ordering by traffic, so ties keep their input order; it is taken from the sessions and none has less traffic than a session left out |
| Logs.Classify | src/ovpn-manager.py:202-209 | An error keyword wins over a warning keyword, which wins over a connection keyword; a line with none is plain |
| Logs.KeywordSurvivesStrip | src/ovpn-manager.py:201-206 | A keyword made of letters occurs in the stripped line exactly when it occurs in the line |
| Logs.ClassifyIgnoresPadding | src/ovpn-manager.py:200-209 | Classifying the stripped line gives the class of the raw line |
| Logs.DisconnectedCountsAsConnected | src/ovpn-manager.py:206-207 | A disconnection line with no error or warning keyword is shown as a connection |
| Logs.LineCount | src/ovpn-manager.py:181-187 | An answer `int()` accepts asks for the number it reads as; any other answer asks for 50 lines |
| Logs.LineCountOfDigits | src/ovpn-manager.py:184-185 | A run of digits asks for its decimal value |
| Logs.TailLines | src/ovpn-manager.py:68 | `all_lines[-n:]` is a suffix of the log: all of it for 0, the last min(n, len) lines for positive n, all but the first -n lines for negative n |
| Logs.TailOfTail | src/ovpn-manager.py:68 | The last m of the last n lines are the last min(n, m) lines |
| Logs.ReadLogFile | src/ovpn-manager.py:63-74 | Exactly the lines `all_lines[-n:]` selects from the log, or nothing when the file is missing or unreadable |
| Logs.ZeroShowsWholeLog | src/ovpn-manager.py:68 | Asking for 0 lines shows the whole log |
| Text.StripShape | src/ovpn-manager.py:253 | `strip()` keeps the slice from the first to the last non-whitespace character, and only whitespace lies outside it |
| Text.StripEmptyIff | src/ovpn-manager.py:140 | `s.strip() == ""` holds exactly for the all-whitespace strings |
| Text.ContainsStrip | src/ovpn-manager.py:201-206 | A needle without whitespace occurs in the stripped string exactly when it occurs in the string |
| Text.Split | src/ovpn-manager.py:226 | `split` always gives at least one piece, and no piece holds the separator |
| Text.SplitJoin | src/ovpn-manager.py:230 | Joining separator-free pieces and splitting again gives the pieces back |
| Text.JoinSplit | src/ovpn-manager.py:226 | Splitting and joining again gives the string back |
| Text.ParseInt | src/ovpn-manager.py:146 | `int()` succeeds only on text that holds a digit |
| Text.ParseIntDigits | src/ovpn-manager.py:146 | `int()` reads a run of ASCII digits as its decimal value |
| Text.ParseIntNegativeDigits | src/ovpn-manager.py:146 | `int()` reads `-<digits>` as the negated value |
| Text.DecimalRoundTrip | src/ovpn-manager.py:236 | A number written in decimal reads back as itself |
| Text.Lower | src/ovpn-manager.py:160 | `lower()` keeps the length and lower-cases ASCII letters one by one |
| Text.SortStrings | src/ovpn-manager.py:90 | `sorted` gives an ascending rearrangement |
| Text.SortUnique | src/ovpn-manager.py:116 | `sorted(set(...))` gives an ascending sequence without repeats, with the same elements |

## Left out

- Socket I/O is not modelled: the connect, the timeout, the banner read, the send, and the
  single 8192- or 1024-byte read. A reply is the text received, and any failure of the
  exchange is the absence of a reply. A reply cut short by the one bounded read is
  therefore not distinguished from a complete one.
- Running `./easyrsa` and `tail -f` is not modelled. A run is its exit status, or a failure
  to start, and the effect of the tool on the PKI files is not modelled.
- Filesystem access is not modelled: `Path.exists`, `glob`, reading and writing files. A
  listing or a file is a value, absent when it does not exist or cannot be read.
- Logs.ReadLogFile: an absent log stands for the two errors `read_log_file` catches, a
  missing file and a permission error. A log that cannot be decoded as text is not
  modelled: in the source that error is not caught there and ends the program with the
  top-level error message.
- Lifecycle.RestoreFlow and Lifecycle.EasyRsaDir.RestoreUser: an index is either missing
  or readable and writable. An index that exists but cannot be read or rewritten is not
  modelled: in the source the error jumps to the handler of the whole workflow, so neither
  `build-client-full` nor `gen-crl` runs, whereas the model's missing index lets the build
  run.
- An error in the middle of rewriting the index file, or of reading `index.txt`, is not
  modelled. Such an error would leave a partial file or a partial list.
- `format_bytes` is not modelled, because it uses floating-point division and `:.2f`
  formatting. The rest of the presentation is left out too: tables, colours, prompts,
  confirmations, `time.sleep`, the menu loop, `show_config`, `show_header` and `show_menu`.
  The confirmation prompts only decide whether a workflow starts at all.
- Text.ParseInt, Text.IsDigit and Text.Lower cover ASCII only. Python's `int()` and
  `isdigit()` also accept other Unicode decimal digits, and `lower()` folds non-ASCII
  letters, which the model does not.
- Sessions.CounterFieldRoundTrip, Management.StatusReplySessions and
  StatusLog.StatusFileSessions: a counter field is read with the ASCII digit test. In the
  source `isdigit()` also accepts characters such as superscript digits that `int()`
  rejects. Such a field makes `int()` raise: in a management reply the whole exchange then
  counts as failed and the status log is read instead, and in the status log the scan
  stops and the sessions read so far are returned. The model reads such a field as 0.
- Stats.Statistics takes the two certificate listings as arguments. How they are obtained
  is modelled by Certificates.ValidCertificates and Certificates.RevokedCertificates.

## Findings

| source | as written | input that shows it | evidently intended | confidence | as-written member | corrected member |
|---|---|---|---|---|---|---|
| src/ovpn-manager.py:108-111 | The name captured from the last tab field of an index line is compared with `server` without stripping, so it keeps the line's trailing newline. | An index line `R<TAB>261015000000Z<TAB>241015000000Z<TAB>01<TAB>unknown<TAB>/CN=server` ending in a newline gives the name `server\n`. That is not `server`, so the server's certificate is listed as a revoked user, and every revoked name carries a newline. Restoring `bob` picked from that list then runs `build-client-full` with the name `bob\n`, and prunes with the marker `/CN=bob\n`, which only matches lines ending in `/CN=bob` (Lifecycle.NewlineNameMarksOnlyLineEnds). | The name is stripped before it is compared and listed, so `server` is never listed. | not executed | Certificates.RevokedServerIsListed | Certificates.TrimmedRevokedCertificates |
