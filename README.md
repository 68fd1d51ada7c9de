# filesharing-server-go, verified model

The server lists the files of its working directory and lets clients
download, upload and delete them over HTTP. Most of `main.go` hands a
request straight to one filesystem call. This project models the four parts
of it that have logic of their own, and proves what they guarantee:

- **Name guards** (module `NameGuard`, with Go's `strings.HasPrefix` and
  `strings.Contains` in `GoStrings`). Download and delete refuse a name
  that is empty or contains `..`, `/` or `\`. Upload refuses a
  `filepath.Base` result that is empty, `.` or `..`, or that contains `/`
  or `\`. Every accepted name is one path component other than `..`. The
  delete guard is the download guard. The upload guard differs from it exactly
  as `DownloadAgainstUpload` states: it accepts every separator-free name
  with `..` inside other than `..` itself (`a..b`, `a..`, `...`), and it
  refuses `.`, which download accepts.
- **Unit selection of `formatSize`** (module `SizeFormat`). Go's `int64` is
  a `newtype`, so the verifier checks that `div *= unit` never overflows.
  The loop method `FormatSize` is proved to choose the largest power of 1024
  not above the count, with a quotient in `[1, 1024)` and a letter index
  inside `KMGTPE`. The same choice is given as the function `Label`, which
  the listing uses. `5 << 30` (the upload limit the banner prints) is shown
  in `G` with divisor 2^30 and whole part 5.
- **`listFiles`** (module `Listing`). The loop method `ListFiles` passes a
  `ReadDir` error on. Otherwise it returns `Listed(entries)`: the entries
  that are not directories and whose `Info()` succeeded, in directory
  order, each with its name and `Label` of its size. Lemmas prove this is
  exactly that filter. Every row comes from such an entry, every such entry
  gets a row, and listing a concatenation lists the parts in turn.
- **`getLocalIP`** (module `LocalAddr`). The method `GetLocalIP` runs the
  source's three passes with early returns. It is proved equal to the
  function `Preferred`, which picks the first `192.168.` candidate, then
  the first candidate outside `172.17.` and `192.168.56.`, then the first
  candidate of any kind, and falls back to `localhost`. A candidate is a
  non-loopback `IPNet` with an IPv4 form. Lemmas state each tier in its own
  words. Because the second pass runs only when no candidate starts with
  `192.168.`, its `192.168.56.` exclusion never decides anything, and it
  takes any candidate outside `172.17.`, public addresses included, not only
  private ones. They also prove that the result is some candidate's text whenever a
  candidate exists, and `localhost` otherwise or on a listing error.

What the operating system supplies becomes an input. This covers the
directory entries and each `Info()` outcome, the interface addresses with
their loopback flag and IPv4 text, and `filepath.Base` of the uploaded
file name.

## Model

| member | source | states |
|---|---|---|
| GoStrings.HasPrefix | main.go:234 | no contract; Go's `strings.HasPrefix`: the string is at least as long as the prefix and starts with it |
| GoStrings.Contains | main.go:102 | no contract; Go's `strings.Contains` as a left-to-right search, the empty string occurring everywhere |
| GoStrings.ContainsIff | main.go:102 | `strings.Contains(s, sub)` holds exactly when `sub` occurs at some position of `s` |
| GoStrings.ContainsChar | main.go:102 | searching for a one-character string such as `/` or `\` is a membership test |
| GoStrings.ContainsDotDot | main.go:102 | searching for `..` finds exactly two adjacent dots |
| NameGuard.DownloadNameOk | main.go:102 | no contract; the negation of the download handler's rejection expression of line 102 |
| NameGuard.DeleteNameOk | main.go:189 | no contract; the negation of the delete handler's rejection expression of line 189 |
| NameGuard.UploadNameOk | main.go:154 | no contract; the negation of the upload handler's rejection expression of line 154, on the `filepath.Base` result |
| NameGuard.NoSeparatorIff | main.go:102 | a name holds neither `/` nor `\` exactly when no character of it is a separator |
| NameGuard.DownloadNameOkIff | main.go:102 | the download guard accepts a name iff it is non-empty, has no separator and no two adjacent dots |
| NameGuard.DownloadNameStays | main.go:101-107 | a name the download guard accepts is a single path component other than `..`, so joining it to `.` stays in the directory |
| NameGuard.DeleteNameOkIsDownloadNameOk | main.go:189 | the delete guard accepts exactly the names the download guard (line 102) accepts |
| NameGuard.UploadNameOkIff | main.go:153-157 | the upload guard accepts a base name iff it is not `""`, `.` or `..` and has no separator |
| NameGuard.UploadNameStays | main.go:153-159 | a base name the upload guard accepts is a single path component other than `..` |
| NameGuard.DownloadAgainstUpload | main.go:154 | against the download guard of line 102: on download-accepted names upload agrees except on `.`; on upload-accepted names download agrees iff there is no `..` inside |
| NameGuard.GuardsDisagree | main.go:154 | `a..b` passes upload and fails download; `.` passes download and fails upload |
| SizeFormat.Pow1024 | main.go:41-43 | the value `div` takes after `exp` turns of the loop, times 1024; every such power is at least 1 |
| SizeFormat.Pow1024Monotonic | main.go:41-45 | the powers of 1024 the loop goes through increase with the exponent |
| SizeFormat.UnitExponent | main.go:41-45 | for a count of at least 1024, the exponent `e` satisfies 1024^(e+1) <= count < 1024^(e+2) |
| SizeFormat.UnitExponentUnique | main.go:42-46 | only one exponent brackets a count that way, so the unit is the largest power of 1024 not above the count |
| SizeFormat.ExponentFitsLetters | main.go:46 | for every count below 2^63 the exponent is at most 5, so indexing `KMGTPE` is in bounds |
| SizeFormat.Label | main.go:36-47 | the label is plain bytes iff the count is below 1024; otherwise its letter is one of `KMGTPE` and its whole part is in `[1, 1024)` |
| SizeFormat.FormatSize | main.go:36-47 | plain bytes iff count < 1024; otherwise divisor 1024^(e+1) bracketing the count, letter `KMGTPE`[e], whole part count / divisor in `[1, 1024)`, with no `int64` overflow in the loop; equal to `Label` |
| SizeFormat.MaxUploadSizeLabel | main.go:31 | the 5 << 30 upload limit printed in the banner (line 303) is labelled `G` with divisor 2^30 and whole part 5 |
| Listing.Listed | main.go:55-69 | no contract; the slice the loop builds, as a recursive filter over the entries; characterised by the three lemmas below |
| Listing.ListedAppend | main.go:55-69 | the listing of a concatenation is the listing of the first part followed by that of the second, so directory order is kept |
| Listing.ListedSound | main.go:56-69 | every listed row is the name and formatted size of some entry that is not a directory and whose `Info()` succeeded |
| Listing.ListedComplete | main.go:56-69 | every entry that is not a directory and whose `Info()` succeeded is listed |
| Listing.ListedSkips | main.go:57-64 | a directory with only subdirectories and unreadable entries lists nothing |
| Listing.ListFiles | main.go:49-71 | a `ReadDir` error is returned as is; otherwise the loop's result is `Listed` of the entries |
| LocalAddr.FirstIn | main.go:231-239 | the position found is that of an address in the tier, and no earlier address is in the tier; `|addrs|` when none is |
| LocalAddr.FirstInUnique | main.go:231-262 | a position with those two properties is the one `FirstIn` finds |
| LocalAddr.Preferred | main.go:223-265 | no contract; the choice of `getLocalIP` as a function: the first pick among the three tiers, `localhost` on error or when no tier has a candidate |
| LocalAddr.GetLocalIP | main.go:223-265 | the three passes with early returns yield exactly `Preferred` of the interface listing |
| LocalAddr.PrefersHomeNetwork | main.go:230-239 | when a `192.168.` candidate exists, the first one is returned |
| LocalAddr.ThenNotVirtual | main.go:241-253 | failing that, the first candidate not starting `172.17.` or `192.168.56.` is returned |
| LocalAddr.ThenAnyIPv4 | main.go:255-262 | failing both, the first candidate of any kind is returned |
| LocalAddr.PreferredIsCandidate | main.go:224-264 | when a candidate exists the result is the text of one; with none, or on an interface-listing error, the result is `localhost` |
| LocalAddr.NotVirtualAfterHomeNetwork | main.go:241-253 | once no candidate starts with `192.168.`, the second pass accepts exactly the candidates not starting `172.17.`, so the `192.168.56.` test of line 248 never decides, and public addresses pass despite the "private" comment of line 241 |
| LocalAddr.VirtualBoxCanWin | main.go:230-249 | the first pass does not exclude VirtualBox: `192.168.56.1` listed before `192.168.1.10` is the one chosen |

## Left out

- HTTP plumbing: routing, method checks, status codes, redirects, `http.ServeFile`, multipart parsing and `MaxBytesReader` (main.go:73-96, 98-220 apart from the guards). These are library calls with no logic of their own.
- Filesystem effects: `os.ReadDir`, `os.Stat`, `os.Create`, `os.Remove`, `io.CopyBuffer` and `os.Getwd`. Their results enter the model only as inputs: the listing's entries and the `Info()` outcomes.
- `filepath.Base`, `filepath.Join` and `net.InterfaceAddrs` with `IP.To4`, `IsLoopback` and `String`. These are foreign library calls. Their outputs are inputs here: the upload guard receives the base name, and each address carries its loopback flag and IPv4 text.
- SizeFormat.FormatSize: the `%.2f` rendering of the float64 quotient is not modelled; the label keeps the integer part `count / divisor`. Because of this the model does not show float rounding, such as 1048575 bytes printing as `1024.00 KB`.
- The `log.Printf` calls for an entry whose `Info()` fails (main.go:62) and for an interface-listing error (main.go:226) are output only, and they are not modelled.
- Go strings are byte sequences, and the model's names and addresses are `seq<char>`. Every literal the guards and prefix tests compare against is ASCII, and no byte of a multi-byte UTF-8 character is an ASCII byte, so no guard or prefix test answers differently.
- The template rendering, the embedded static files, `main` with its signal-driven graceful shutdown, server timeouts and console banner (main.go:21-22, 86-95, 267-330). These are UI, concurrency and process I/O. Of what `main` prints, `formatSize(maxUploadSize)` is covered by `MaxUploadSizeLabel` and `getLocalIP()` by `GetLocalIP`; the `PORT` default of `8080` (main.go:269-272) and `getCurrentDir` (main.go:302, 333-339) are not modelled.
