# gomailit core, modelled in Dafny

This project models the core of gomailit, a command-line program that sends
mail through Gmail. The model covers three parts:

- **Message composer** (`internal/providers/google.go`). `buildMessage`
  writes a text/plain message: four header lines, the empty line, the body
  (section 2.1 of RFC 5322). `buildMessageWithAttachments` writes a
  multipart/mixed message (section 5.1.3 of RFC 2046). Its top header block
  names the boundary. The body part comes first, then one base64 part per
  attachment, with the header set of section 2 of RFC 2183 and the text
  wrapped into CRLF lines of at most 76 characters (section 6.8 of RFC
  2045). `SendEmailGMail` picks one of the two builders and sends the
  message once. `getClient` reuses the cached OAuth token, or runs the
  browser flow and saves its token.
- **Transport encoding** (`internal/utils/utils.go`).
  `EncodeURLSafeBase64` is base64 with the URL-safe alphabet of section 5
  of RFC 4648 and without padding (section 3.2). It is written here from
  scratch, together with a decoder that serves as its partner. The padded
  standard encoding used for attachment bodies (section 4) shares the code.
- **The `send` command** (`cmd/send.go`). It prunes missing attachments,
  as written: only the first missing one is removed. It replaces the body
  by a file's contents when the body names a file, and parses the recipient
  file (each line trimmed, blank lines skipped). It then sends to one
  address or to every parsed recipient.

Modules, one per file: `Wrappers` (Option, Result), `Bytes` (bytes, CRLF
lines), `Os` (file system, `filepath.Base`), `Text` (`strings.TrimSpace`,
`bufio.ScanLines`), `Base64`, `Mime` (both builders, the multipart writer,
line wrapping), `Auth` (`getClient`), `Providers` (`SendEmailGMail`) and
`Send` (`Run`).

Go strings and byte slices are both `seq<byte>`, where a `byte` is a
character below 256. What lies outside the program is a parameter. The file
system is a map from paths to contents. A `World` supplies the quoted-printable
encoder, the writer's random boundary, the order in which attachment
goroutines deliver their results, and the failures of service set-up and of
the Gmail API. The state the Go code changes in place is modelled by classes:
`send` command's package variables (`SendCommand`), the `bytes.Buffer` and
`multipart.Writer`, the Gmail account (`Gmail`), the token file
(`TokenStore`) and the browser flow (`WebFlow`). Each method is proved
against a function, and the properties are lemmas about those functions.

Three points where the code does something other than what its own
comments or names suggest. The model follows the code:

- The comment at `cmd/send.go:91` says the loop removes every attachment
  that does not exist. The `break` at `cmd/send.go:98` ends the loop after
  the first removal. A second missing attachment stays in the list and makes
  composition panic (`Send.SecondMissingAttachmentPanics`).
  `Send.ExistingOnly` is the filter the comment describes.
  `Send.PrunedAgreesWithFilter` shows the loop agrees with it exactly when at
  most one path is missing.
- An attachment that cannot be read is not returned as an error.
  `buildMessageWithAttachments` calls `panic(part.Err)`
  (`internal/providers/google.go:90-92`), which ends the process. The model
  records the failing path as the last report, `Panicked(path)`, and the
  dispatch loop stops there; `Run` returns `Completed` with those reports.
- `SendEmailGMail` calls `GetGoogleService` on its first line
  (`internal/providers/google.go:125`), so each send, and so each recipient,
  sets up the service anew, and each set-up may fail on its own.

## Model

| member | source | states |
|---|---|---|
| `Base64.EncodeURLSafeBase64` | internal/utils/utils.go:10-12 | the output has length (4n+2)/3, every character is in the URL-safe alphabet A–Z a–z 0–9 - _, no "=" appears, and it is empty exactly when the input is |
| `Base64.RoundTrip` | internal/utils/utils.go:11 | decoding the output with the URL-safe alphabet gives back the input bytes exactly |
| `Base64.ConcatenationAtGroupBoundary` | internal/utils/utils.go:11 | when the length of `x` is a multiple of 3, the encoding of `x + y` is the encoding of `x` followed by that of `y` |
| `Base64.KnownAnswerFoo` | internal/utils/utils.go:11 | "foo" encodes to "Zm9v" in both the standard and the URL-safe alphabet (section 10 of RFC 4648) |
| `Base64.KnownAnswerFoob` | internal/utils/utils.go:11 | "foob" encodes to "Zm9vYg==" padded and "Zm9vYg" URL-safe without padding (section 10 of RFC 4648) |
| `Base64.KnownAnswerFooba` | internal/utils/utils.go:11 | "fooba" encodes to "Zm9vYmE=" padded and "Zm9vYmE" URL-safe without padding (section 10 of RFC 4648) |
| `Base64.KnownAnswerFoobar` | internal/utils/utils.go:11 | "foobar" encodes to "Zm9vYmFy" in both encodings (section 10 of RFC 4648) |
| `Base64.KnownAnswersShort` | internal/providers/google.go:70-71 | "", "f" and "fo" encode padded to "", "Zg==" and "Zm8=", and URL-safe to "", "Zg" and "Zm8" (section 10 of RFC 4648) |
| `Base64.AlphabetsDiffer` | internal/utils/utils.go:11 | the bytes fb ff encode to "+/8=" in the standard alphabet and to "-_8" in the URL-safe one |
| `Base64.StdEncode` | internal/providers/google.go:70-71 | the standard padded encoding has length 4*ceil(n/3) and holds no CR or LF |
| `Base64.PaddedRoundTrip` | internal/providers/google.go:70-71 | padded text has length 4*ceil(n/3), and decoding it, padding stripped, gives back the bytes |
| `Os.ReadFile` | internal/providers/google.go:64 | a read succeeds exactly when the path names a readable file, and then returns its bytes; otherwise it fails with that path |
| `Os.Base` | internal/providers/google.go:73 | `filepath.Base` is never empty, holds no slash unless it is "/", and is "." for the empty path |
| `Os.BaseOfName` | internal/providers/google.go:73 | a name without slashes, followed by any number of slashes, has itself as its base |
| `Os.BaseOfSlashes` | internal/providers/google.go:73 | a path made only of slashes has base "/" |
| `Os.BaseOfJoin` | internal/providers/google.go:73 | the base of "dir/name" followed by any number of slashes is `name` |
| `Text.TrimSpace` | cmd/send.go:123 | the trimmed line is no longer than the line and neither starts nor ends with white space |
| `Text.TrimSpaceInfix` | cmd/send.go:123 | the trimmed line is an infix of the line with only white space on either side |
| `Text.TrimSpaceIdempotent` | cmd/send.go:123 | trimming a trimmed line changes nothing |
| `Text.TrimSpaceEmpty` | cmd/send.go:123-124 | a line trims to "" exactly when it is white space only |
| `Text.ScanLines` | cmd/send.go:121-122 | the scanner's line splitting: the file cut at each LF, a trailing CR dropped from each line, and a final line without LF kept |
| `Text.ScanJoinedLines` | cmd/send.go:121-122 | scanning a file written as LF-terminated lines yields exactly those lines in order |
| `Text.ScanCRLFLines` | cmd/send.go:121-122 | scanning a file written as CRLF-terminated lines yields the same lines, the CR dropped |
| `Mime.PlainText` | internal/providers/google.go:112-119 | the plain message `buildMessage` formats: the four header lines, the empty line and the body |
| `Mime.PlainLayout` | internal/providers/google.go:112-119 | the plain message is the header block "To: "+to, "Subject: "+subject, "MIME-Version: 1.0", `Content-Type: text/plain; charset="utf-8"`, each with CRLF, then an empty line, then the body as a suffix |
| `Mime.BuildMessage` | internal/providers/google.go:112-122 | `Raw` decodes under base64url to exactly the composed plain message, and has the unpadded length |
| `Mime.PlainRoundTrip` | internal/providers/google.go:112-121 | when `to` and `subject` hold no line break, decoding `Raw` and reading the header block back gives exactly the four header lines and the body |
| `Mime.SubjectInjectsHeader` | internal/providers/google.go:113-118 | nothing is escaped: a subject holding CRLF puts an extra header line of the sender's choosing into the message |
| `Mime.Chunks` | internal/providers/google.go:96-103 | the pieces the `i += 76` loop cuts the encoded body into |
| `Mime.Wrap` | internal/providers/google.go:96-103 | the wrapped body: each piece followed by CRLF |
| `Mime.ChunksProperties` | internal/providers/google.go:96-103 | the chunks, in order, concatenate to the encoded body; each holds 1 to 76 bytes and all but the last exactly 76; there are ceil(len/76) of them, none for an empty body |
| `Mime.UnwrapWrap` | internal/providers/google.go:96-103 | taking the CRLFs out of the wrapped body gives the encoded body back |
| `Mime.WriteWrapped` | internal/providers/google.go:96-103 | the `i += 76` loop appends to the buffer exactly each chunk followed by CRLF |
| `Mime.AttachmentFieldLines` | internal/providers/google.go:75-78 | an attachment part's header lines are the Content-Disposition, Content-Transfer-Encoding: base64 and Content-Type lines, the first and last quoting the same file name |
| `Mime.AttachmentHeaderLines` | internal/providers/google.go:75-78 | when the file name holds no line break, read back, the attachment part's header block holds exactly those three lines, and the body follows it |
| `Mime.ReadAttachment` | internal/providers/google.go:64-80 | what one attachment goroutine sends on the results channel: the failing path, or the part with its headers and padded base64 body |
| `Mime.ReadAttachmentSpec` | internal/providers/google.go:64-80 | an attachment goroutine fails exactly when its file cannot be read, with that path; otherwise its part carries the headers for the path's base and a body of 4*ceil(n/3) bytes without line breaks that decodes to the file's bytes |
| `Mime.AttachmentOnWire` | internal/providers/google.go:64-103 | as written to the message, an attachment part has the headers for the base of its path, and its body, unwrapped and decoded, is the file's bytes |
| `Mime.Drain` | internal/providers/google.go:89-104 | the drain loop over the results in delivery order: it stops at the first failure, otherwise collects every part |
| `Mime.DrainFailure` | internal/providers/google.go:89-92 | draining every result once, in any order, fails exactly when some result failed, and then with a failed result's path |
| `Mime.DrainPermutation` | internal/providers/google.go:84-104 | when every result succeeded, draining yields every wrapped part exactly once (a permutation), whatever the order |
| `Mime.MultipartMessage` | internal/providers/google.go:37-110 | the multipart message `buildMessageWithAttachments` returns, or the path of the attachment that made it panic |
| `Mime.MultipartFailure` | internal/providers/google.go:60-92 | the multipart build fails exactly when some attachment cannot be read, and then with the path of one that cannot be read |
| `Mime.MultipartParts` | internal/providers/google.go:57-104 | when every attachment can be read, the message holds one part per attachment, each exactly once |
| `Mime.MultipartContents` | internal/providers/google.go:37-108 | when every attachment can be read, `Raw` decodes to the document holding the body part and then the attachment parts |
| `Mime.MultipartDocument` | internal/providers/google.go:42-46 | when to, subject and the boundary hold no line break, the multipart document reads back as the header lines To, Subject, MIME-Version: 1.0 and "Content-Type: multipart/mixed; boundary=" plus the boundary, then the framed parts and the close delimiter |
| `Mime.FramingStart` | internal/providers/google.go:39-52 | the framed parts open with "--", the same boundary the top header names, and CRLF |
| `Mime.Buffer.WriteString` | internal/providers/google.go:46 | the buffer gets the string appended |
| `Mime.MultipartWriter.CreatePart` | internal/providers/google.go:94 | a new part appends its delimiter line (without the leading CRLF for the first part) and its header block, and the part count grows by one |
| `Mime.MultipartWriter.Write` | internal/providers/google.go:101-102 | a write through the current part appends the bytes |
| `Mime.MultipartWriter.Close` | internal/providers/google.go:106 | closing appends the close delimiter |
| `Mime.WriteAttachmentPart` | internal/providers/google.go:94-103 | one pass of the drain loop appends the part's delimiter, header block and wrapped body |
| `Mime.WriteDrained` | internal/providers/google.go:89-104 | the drain loop returns what `Drain` specifies and, on success, leaves the buffer holding the header, the body part and every drained part in order |
| `Mime.BuildMessageWithAttachments` | internal/providers/google.go:37-110 | the imperative builder returns exactly the message `MultipartMessage` specifies, or the failing path |
| `Auth.Acquire` | internal/providers/google.go:188-199 | the client `getClient` returns and the token files after it: the cached token when it loads, otherwise the web token, saved |
| `Auth.LoadToken` | internal/providers/google.go:238-247 | loading succeeds exactly when the file holds a decodable token, and returns that token |
| `Auth.AcquireRule` | internal/providers/google.go:188-199 | a cached token that loads is used and the store is untouched; otherwise the web token is used, saved to the same path so that it loads back, and no other file changes |
| `Auth.AcquireTwice` | internal/providers/google.go:192-198 | once `getClient` has run, a second run reuses the same token and changes nothing, whatever the web flow would grant |
| `Auth.TokenStore.Load` | internal/providers/google.go:238-247 | the load returns the stored token, if any |
| `Auth.TokenStore.Save` | internal/providers/google.go:250-258 | saving overwrites the file at the path with the token |
| `Auth.WebFlow.Run` | internal/providers/google.go:202-235 | each run returns the token granted on that run |
| `Auth.GetClient` | internal/providers/google.go:188-199 | the client and the store follow `Acquire`, and the web flow runs once when the cached token does not load and never otherwise |
| `Providers.Gmail.GetGoogleService` | internal/providers/google.go:125-128 | each set-up is counted and returns the world's error for it |
| `Providers.Gmail.Send` | internal/providers/google.go:149-155 | the message is handed to the API, and the API's error is returned |
| `Providers.Compose` | internal/providers/google.go:130-140 | the message `SendEmailGMail` builds: the plain one without attachments, the multipart one with them |
| `Providers.ComposeChoosesBuilder` | internal/providers/google.go:130-140 | with no attachments the plain message is always built; with attachments the build fails exactly when one cannot be read; and when to, subject and the boundary hold no line break, the composed message's Content-Type is text/plain without attachments and multipart/mixed naming the boundary with them |
| `Providers.SendOnce` | internal/providers/google.go:124-147 | one `SendEmailGMail` call: service set-up, composition, then one API send, each failure returned as it comes |
| `Providers.SendOnceAttempts` | internal/providers/google.go:124-147 | a call sets up the service once and hands at most one message to the API, exactly the composed one when set-up and composition succeed; the API's error is returned unchanged |
| `Providers.SendEmailGMail` | internal/providers/google.go:124-147 | the method's outcome and the account state after it are those of `SendOnce` |
| `Send.FirstMissing` | cmd/send.go:92-101 | the index found is that of a missing path, and every path before it exists; none is found exactly when every path exists |
| `Send.Pruned` | cmd/send.go:90-101 | the attachment list after the pruning loop: the first missing path removed, nothing else |
| `Send.PrunedShape` | cmd/send.go:92-101 | the list is unchanged exactly when every path exists; otherwise it loses exactly the first missing path, keeps the paths before it (all existing) and the paths after it in order |
| `Send.PrunedKeepsLaterMissing` | cmd/send.go:95-98 | because of the `break`, a later missing path stays in the pruned list |
| `Send.SecondMissingAttachmentPanics` | cmd/send.go:92-101 | with two missing attachments the second one survives pruning, and the send panics on reading it |
| `Send.ExistingOnly` | cmd/send.go:91 | the filter the comment over the loop describes; it is never longer than its input |
| `Send.ExistingOnlyMembers` | cmd/send.go:91 | the filter the comment describes keeps a path exactly when it is in the list and exists |
| `Send.ExistingOnlyAppend` | cmd/send.go:91-92 | the filter goes through the list in order: it distributes over concatenation |
| `Send.ExistingOnlyUnchanged` | cmd/send.go:91 | the filter returns its input exactly when no path is missing |
| `Send.ExistingOnlyAtFirstMissing` | cmd/send.go:91-97 | up to the first missing path the filter keeps the list as it is, and it drops that path, as the loop does |
| `Send.PrunedAgreesWithFilter` | cmd/send.go:91-98 | the loop's pruning equals the filter exactly when no path, or no path after the first missing one, is missing |
| `Send.SendCommand.PruneAttachments` | cmd/send.go:90-102 | the loop leaves the attachment list as `Pruned` specifies |
| `Send.BodyText` | cmd/send.go:104-110 | the body after substitution: the named file's contents when it exists, the text itself otherwise |
| `Send.BodySubstitution` | cmd/send.go:104-110 | the body is replaced by the named file's contents exactly when a file of that name exists, is kept verbatim otherwise, and a file that exists but cannot be read stops the command |
| `Send.SendCommand.LoadBody` | cmd/send.go:104-110 | the body field becomes what `BodyText` gives, or stays and the failing path is returned |
| `Send.ParseRecipients` | cmd/send.go:121-127 | there are no more recipients than lines |
| `Send.ParsedAreRecipients` | cmd/send.go:123-126 | every parsed recipient is non-empty and already trimmed |
| `Send.ParseRecipientsAppend` | cmd/send.go:122-127 | lines are handled one by one, in order: parsing distributes over concatenation of lines |
| `Send.ParseRecipientsLines` | cmd/send.go:121-127 | the recipients are exactly the trimmed texts of the lines that are not blank |
| `Send.SendCommand.ReadRecipients` | cmd/send.go:121-127 | the scanner loop appends to the recipient list exactly the recipients parsed from the file's lines |
| `Send.Dispatched` | cmd/send.go:136-151 | there are no more reports than recipients |
| `Send.DispatchedReports` | cmd/send.go:136-151 | each recipient is tried once, in list order; a failed send does not stop later recipients, only a panic does; each try sets up the service once, and messages are only added to what the API was given |
| `Send.DispatchedAppend` | cmd/send.go:136-151 | dispatching to `a + b` is dispatching to `a`, then to `b` from the state `a` left, unless a send to `a` panicked |
| `Send.DispatchedNth` | cmd/send.go:136-151 | the k-th recipient gets exactly what one `SendEmailGMail` call with the same subject, body and attachments gives |
| `Send.Dispatch` | cmd/send.go:133-153 | the dispatch loop's reports and the account state after it are those of `Dispatched` |
| `Send.SendCommand.Run` | cmd/send.go:85-160 | `to` and `subject` are kept; the attachments are pruned; the body is substituted; when `to` names an existing file its parsed recipients are each sent the message, otherwise exactly one send goes to `to`; an unreadable body or recipient file aborts before any send |

## Left out

- Concurrency. The attachment goroutines, their `WaitGroup` and results channel are modelled by an arbitrary delivery order (`IsDrainOrder`), and no order of parts is asserted. The send loop's goroutines and its semaphore of 5 are modelled as a sequential loop. The in-flight bound and any completion order are not modelled.
- Send.Dispatched: a panic in one send goroutine ends the process. The model stops at that recipient. It does not capture the up to four other sends that may already be in flight.
- The OAuth browser flow (`getTokenFromWeb`: local TCP listener, `xdg-open`, request parsing, `config.Exchange`) is network and process I/O. Only its result, the granted token, is modelled (`WebFlow`). Its fatal errors are left out.
- `tokenFromFile` and `saveToken` are modelled without their JSON encoding, as a store of decoded tokens that may be missing or corrupt. A failure to create the token file (`log.Fatalf`) is left out.
- `GetGoogleService`, `SetupGoogle` and `send` wrap the Gmail and oauth2 libraries. Their outcomes come from the `World`. The error texts they wrap around library errors are not modelled.
- The internals of `multipart.Writer` are modelled by the bytes it emits: delimiter lines, header lines in sorted name order, close delimiter. The random boundary is a parameter, and quoted-printable encoding is an opaque function.
- `filepath.Base` is modelled with '/' as the only separator. Volume names are not modelled.
- `strings.TrimSpace` is modelled on ASCII white space only. Unicode spaces are not modelled.
- `bufio.Scanner` is modelled with `ScanLines` over the whole file. Its 64 KiB line limit and the `scanner.Err` / `log.Fatalf` path are not modelled.
- The definition of `utils.FileExists` is not part of this model (`internal/utils/path.go` defines only `IsFile`). `Os.FileExists` models it as "the path names an entry of the file system". A path that exists but cannot be read aborts the command, whether `os.ReadFile` or `os.Open` and the scanner would fail on it.
- The goroutine in `buildMessageWithAttachments` reads the loop variable `path`, not its parameter `p`. The model assumes per-iteration loop variables (Go 1.22 and later), under which the two are the same.
- The beginning of `Run` is left out: the token-file check, the profile lookup, printing and `os.Exit`. Cobra flag handling is reduced to the `attachChanged` and `args` parameters.
- Token expiry and refresh are left to the oauth2 client and are not modelled.
- `internal/utils/path.go`, `internal/keyring/keyring.go` and `cmd/setup.go` only do configuration lookup, OS keyring access and command wiring, and are not modelled.
