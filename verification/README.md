# sendtokindle, modelled in Dafny

`sendtokindle <address> <file>` mails one file to a Kindle address. It reads
the file and encodes it as standard padded base64. It then puts the
recipient, the file's base name (twice) and the base64 text into a fixed
multipart/mixed MIME template. It finds the recipient domain's mail
exchanger and hands the message over SMTP on port 25. Every failure the
program checks for is a `log.Fatal`, which ends the process. An empty MX
answer is not checked: indexing its first record panics.

This project models `sendToKindle` in `cmd/root.go` and proves what the
message looks like and how the program reacts to every answer it can get
from the outside world.

| file | module | what it holds |
|---|---|---|
| `results.dfy` | `Results` | `Option` and `Result` |
| `base64.dfy` | `Base64` | the encoder of section 4 of RFC 4648, a strict decoder, and the round trip between them |
| `substrings.dfy` | `Substrings` | occurrences of a pattern; `LastIndex`; how an all-hex pattern can sit in text built from pieces |
| `pathbase.dfy` | `PathBase` | Go's `path.Base` |
| `mime.dfy` | `Mime` | the message template (`msgFmt`), the message built from it, and where the boundary can occur in it |
| `address.dfy` | `Address` | the recipient's domain: the text after the last `@` |
| `smtp.dfy` | `Smtp` | the seven calls on the SMTP connection and which errors stop them |
| `sendtokindle.dfy` | `SendToKindle` | one whole run: the actions taken, and whether it ends in `Sent` or in a fatal failure |

The file system, DNS, the TCP dial and the SMTP server are inputs. A
`World` value holds each answer:

- the file's bytes or a read error;
- the MX records or a lookup error;
- the dial's error, if any;
- what each SMTP call returns, if it is made.

A run is the list of `Action`s it takes plus its final `Status`. A
`log.Fatal` is a `Fatal` status. Its `os.Exit` skips the deferred
`conn.Close()` of `cmd/root.go:111`, so the deferred close runs only when
the run ends in `Sent`. The `CloseConn` action stands for that deferred
close and nothing else.

The message template is handled in two layers. The lemmas about `Fill` hold
for any `Template` that meets `BoundaryLayout`, `DelimiterLayout` or
`FieldFrames`. The lemmas `MsgFmt*` show that the program's own template
meets them. The lemmas on `Build` combine the two.

Some behaviour of the program that the model keeps as written:

- A fatal error leaves the connection open. `log.Fatal` exits before the
  deferred close at `cmd/root.go:111` runs.
- An empty MX answer is not checked. `cmd/root.go:106` indexes `mxs[0]`
  directly, and with no records that index panics. The model gives this
  its own failure, `NoMxRecords`.
- The opening and closing delimiter lines occur exactly once only when
  neither the recipient nor the file's base name contains the boundary
  `f403043895ccc776c6055e8fae42`. The program does not check this, so
  `Mime.DelimitersOnce` takes it as a precondition.
- The fixed name `ceh.bz` is the second argument of `smtp.NewClient`
  (`cmd/root.go:112`). What `net/smtp` does with it is not modelled; the
  model records only that this name is passed.
- The recipient is never checked for being empty. An empty address has no
  `@` and fails like any other address without one.
- The error `client.Mail` returns is discarded (`cmd/root.go:116`); the
  test at `cmd/root.go:117` looks at the earlier, nil `err`. A rejected
  sender therefore does not stop the run, and a run whose `MAIL` was
  rejected can still end in `Sent`. Below, "a call fails" means a call
  whose error the program acts on: any call but `MAIL`, with a short write
  counting as a failure of the write.

## Model

| member | source | states |
|---|---|---|
| Base64.Encode | cmd/root.go:95 | the encoding of n bytes is 4·⌈n/3⌉ characters long |
| Base64.EncodedChars | cmd/root.go:95 | every character of the encoding is in the base64 alphabet, except the (3 − n mod 3) mod 3 `=` characters that end it |
| Base64.DecodeEncode | cmd/root.go:95 | decoding the encoding of any byte sequence, empty included, gives back exactly those bytes |
| Base64.EncodeDecoded | cmd/root.go:95 | every text the strict decoder accepts is the encoding of what it decodes to, so the encoding is canonical |
| Base64.DecodeIsInverse | cmd/root.go:95 | the strict decoder accepts `s` with result `b` exactly when `s` is the encoding of `b` |
| PathBase.Base | cmd/root.go:96 | the base name is never empty, and it contains no `/` unless it is `/` itself |
| PathBase.BaseOfJoin | cmd/root.go:96 | a directory part (empty or ending in `/`), then a non-empty name without `/`, then any trailing slashes: the base is the name |
| PathBase.BaseSplit | cmd/root.go:96 | every path that has a character other than `/` is a directory part, then its base, then trailing slashes |
| PathBase.BaseOfSlashes | cmd/root.go:96 | a path of slashes only has base `/` |
| PathBase.BaseOfName | cmd/root.go:96 | a non-empty name without `/` is its own base |
| PathBase.BaseIdempotent | cmd/root.go:96 | the base of a base is the same base |
| Substrings.LastIndex | cmd/root.go:98 | the result is −1 or the index of a `c`, and no `c` comes after it |
| Address.Domain | cmd/root.go:98-102 | an address has a domain exactly when it contains `@` |
| Address.DomainAfterLastAt | cmd/root.go:98-102 | the domain has no `@` and ends the address, right after an `@`: it is the text after the last `@` |
| Address.DomainOfJoin | cmd/root.go:98-102 | the domain of `local@d` is `d` whenever `d` has no `@`, even when `local` does |
| Mime.RecipientHeader | cmd/root.go:73 | the message holds the line `To: <recipient>` where the template's `To:` header is |
| Mime.NameParameter | cmd/root.go:78 | the part's `name` parameter is the base name of the file path |
| Mime.FilenameParameter | cmd/root.go:80 | the part's `filename` parameter is the same base name |
| Mime.PayloadDecodes | cmd/root.go:84-86 | between the part headers and the closing text lies the base64 of the file, and it decodes back to the file's bytes |
| Mime.DelimitersOnce | cmd/root.go:74-86 | if neither the recipient nor the base name contains the boundary, the opening delimiter line occurs once (after the headers) and the closing one occurs once (at the very end) |
| Mime.BoundaryInFill | cmd/root.go:68-86 | in a filled template whose recipient and name do not contain the boundary, the boundary occurs only in the boundary parameter, in the two delimiter lines, or inside the payload |
| Mime.OpenDelimiterInFill | cmd/root.go:74-76 | for such a template, with a payload free of `-`, an opening delimiter line occurs exactly at the position the template puts it |
| Mime.CloseDelimiterInFill | cmd/root.go:85-86 | for such a template, with a payload free of `-`, a closing delimiter line occurs exactly at the end |
| Mime.MsgFmtDelimiterLayout | cmd/root.go:68-86 | the program's template has the boundary only in its parameter and its two delimiter lines, and every text around a verb touches a non-hex character |
| Mime.Build | cmd/root.go:95-97 | the message is the template's 566 fixed characters plus the recipient, the base name twice and the 4·⌈n/3⌉ characters of base64 for n bytes; `RecipientHeader`, `NameParameter`, `FilenameParameter`, `PayloadDecodes` and `DelimitersOnce` say where each value sits |
| Mime.EncodingHasNoDash | cmd/root.go:95 | base64 text never contains `-`, the character delimiter lines start with |
| Smtp.StepError | cmd/root.go:113-142 | which error the program acts on after one call: never `MAIL`'s; any other call's returned error as it is; `io.ErrShortWrite` exactly for a write with no error and fewer bytes than the message; nothing exactly when neither applies |
| Smtp.Run | cmd/root.go:112-143 | the calls made are a non-empty prefix of NewClient, Mail, Rcpt, Data, Write, Close, Quit; a finished exchange made all of them; an aborted one stops on its last call, with that call's error |
| Smtp.FailureStops | cmd/root.go:112-143 | the exchange stops at a call exactly when that call is the first whose error the program acts on (any call but `MAIL`; a short write counts) |
| Smtp.Finishes | cmd/root.go:112-143 | the exchange finishes exactly when no call fails whose error the program acts on (any call but `MAIL`; a short write counts) |
| Smtp.MailRepliesIgnored | cmd/root.go:116-119 | two runs whose replies differ only on `Mail` calls go the same way, because `Mail`'s error is dropped and the stale error is tested |
| Smtp.MailReplyIgnored | cmd/root.go:116-119 | a rejected `MAIL` does not stop the exchange: the whole run is the same whatever `Mail` returns |
| Smtp.ShortWriteAborts | cmd/root.go:128-134 | a write with no error but fewer bytes than the message stops with `io.ErrShortWrite`; `Close` and `Quit` are not called |
| Smtp.WriteErrorKept | cmd/root.go:128-134 | an error from the write itself is the one reported, whatever byte count came with it |
| Smtp.RcptRejectionStops | cmd/root.go:120-127 | a rejected recipient stops the exchange after `Rcpt`, so `Data` is never called |
| SendToKindle.ReadFirst | cmd/root.go:91-94 | the file is read once, before anything else; a run ends in a read failure exactly when the read fails, and then reading was its only action, with the read's error reported |
| SendToKindle.SendToKindle | cmd/root.go:88-94 | every run starts by reading the file at the given path |
| SendToKindle.WritesBuiltMessage | cmd/root.go:95-97 | the only body ever written is the message built from the file: the recipient, the path's base name, and the file's bytes in base64 |
| SendToKindle.DeliverNeverReads | cmd/root.go:98-143 | after the read, nothing reads a file again and no failure is a read failure |
| SendToKindle.DeliverWrites | cmd/root.go:128 | every write of the body writes the whole message `m` |
| SendToKindle.ExchangeActions | cmd/root.go:112-143 | once connected, the program only makes SMTP calls and closes the connection, and each call carries its argument: `ceh.bz`, the sender, the recipient, or the message |
| SendToKindle.Deliver | cmd/root.go:98-143 | the deferred close runs exactly when the run ends well |
| SendToKindle.Exchange | cmd/root.go:111-143 | once connected, the deferred close happens exactly when the session ends well |
| SendToKindle.ExchangeSentIff | cmd/root.go:111-143 | once connected, the session ends well, and the deferred close runs, exactly when no call whose error the program acts on fails (`MAIL` aside; a short write counts) |
| SendToKindle.NoAtStops | cmd/root.go:98-101 | the run fails for a missing `@` exactly when the address has none, and then nothing is looked up |
| SendToKindle.LookupDomain | cmd/root.go:98-102 | once the file is read, the only lookup is the first action, and it asks for the text after the address's last `@` |
| SendToKindle.LookupFailureStops | cmd/root.go:102-105 | a failed lookup ends the run, and nothing is dialed |
| SendToKindle.DialTarget | cmd/root.go:106-107 | the only address dialed, over tcp4, is port 25 of the first MX record's host |
| SendToKindle.FirstRecordDialed | cmd/root.go:106-107 | for every record list the lookup returns, the dial goes to the first record's host as listed, and changing that record's preference changes nothing in the run |
| SendToKindle.MxAddress | cmd/root.go:106 | the address dialed is the host name followed by `:25`, so the host is recovered by dropping the last three characters |
| SendToKindle.SentIff | cmd/root.go:98-143 | the run ends well exactly when the address has `@`, the lookup gives a record, the dial succeeds and no call whose error the program acts on fails (`MAIL` aside; a short write counts) |
| SendToKindle.SentActions | cmd/root.go:106-143 | a successful run looks up, dials, hands `ceh.bz` to `NewClient`, sends from `ceh@ceh.bz` to the recipient, writes the whole message, and closes last |
| SendToKindle.MailReplyIgnored | cmd/root.go:116-119 | whatever the server answers to `MAIL`, the whole run goes the same way |
| SendToKindle.SameSession | cmd/root.go:98-143 | the SMTP replies matter only through the course of the exchange: two worlds with the same lookup and dial answers and the same exchange give the same run |
| SendToKindle.ShortWriteFails | cmd/root.go:128-134 | a short write with no error ends the run with `io.ErrShortWrite`, and the connection is left open |

## Left out

- The command line and configuration (`cmd/root.go:41-66`, `cmd/root.go:146` on) are not modelled. They only choose the two arguments.
- Reading the file, the DNS lookup, the dial and its 10-second timeout, and `net/smtp` are inputs of `World`, not models. What they return is arbitrary, and the model follows each possible answer.
- `path.Base` and `encoding/base64` come from Go's standard library and are not part of this model. `PathBase.Base` follows `path.Base`'s documented behaviour, and `Base64.Encode` follows section 4 of RFC 4648. The program never decodes; `Base64.Decode` is the model's own strict decoder, used to state the round trip.
- SendToKindle.Deliver: the message's size for the short-write rule is counted in characters. `[]byte(...)` at `cmd/root.go:97` counts UTF-8 bytes. The two agree whenever the recipient and the file path are ASCII.
- The text that `log.Fatal` prints is not modelled, only which failure ended the run.
- Mime.DelimitersOnce: requires that neither the recipient nor the base name contains the boundary. The program does not check this; without it, those values could add delimiter lines of their own.
- `net/smtp` closes the connection itself in places: `smtp.NewClient` when the server's greeting fails, and `Client.Quit` after a successful `QUIT`. These library closes are not modelled; `CloseConn` is only the deferred close of `cmd/root.go:111`.
- SendToKindle.FirstRecordDialed: `World.mx` may hold the records in any order. `net.LookupMX` returns them sorted by preference, so a world with a less preferred record first never reaches `cmd/root.go:106`. The model over-approximates the lookup here. The lemma shows, for every record list, that the program itself does not reorder or consult preferences; it does not promise that the first record is the most preferred one.
