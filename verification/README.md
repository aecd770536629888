# Verified models of the mail writer, Punycode, refresh rotation, dates and two services

The project models the parts of the repository that encode, count or interleave, and proves what they are for.

- **The mail writer** (`QuotedPrintable`, `Base64`, `EncodedWords`, `Parameters`, `HeaderParameter`, `Folding`, `HeaderField`, `SmtpData`, `TextPart`). Each encoder is a method with the loops of the original. Its decoder is a function written from the standard (RFC 2045, RFC 2047, RFC 2231, RFC 5321, RFC 5322), and the method's contract says that decoding gives the input back and that the lines fit. `Escapes` holds what quoted-printable, Q words and their cuts share. `Base64` has two decoders, the standard's, which encoded words and bodies are read with, and the tolerant one of the gateway. `HeaderParameter` writes and reads a parameter in all its forms. `HeaderField` puts encoded words and folding together, `TextPart` the three transfer encodings and the pass that repairs line endings behind them.
- **Punycode** (`Punycode`). The decoder is given with the overflow guards of the program and without them. The encoder carries along, as a ghost, the decoder that has read what was written so far. Both numbers that decide, the encoder's delta and the decoder's count for a point, are functions of the label, and the encoder's success and the decoder's answer are characterised by them exactly. Every label of at most 1927 code points is encoded and decoded; one of 1928 is encoded and not decoded.
- **Refresh rotation** (`RefreshRotation`). Requests run one SQL statement, transaction or reading of the clock a step, interleaved in any way with each other, with new grants, revocations, removed scopes and a clock that does not go back. `Database` holds the methods, proved equal to what a request does when it runs alone.
- **Dates** (`Calendar`, `WrittenDates`). Day numbers and dates are inverse. A written calendar, week or ordinal date stands for the day that bears it as a name, where names are those of ISO 8601: the week belongs to the year of its Thursday.
- **Call log** (`CallLog`) and **rate limiter** (`RateLimiter`). Each is a class proved against functions on its state, and theorems about every run of those functions.
- **Decimals** (`Decimals`). The carry loop, the grouping loop and the written amount, read back as a number.

Bytes are numbers below 256. A string is the sequence of its code points, and its UTF-8 bytes come from `Unicode`. Numbers are unbounded: the `u64` of Punycode and the `i64` of dates and counters do not overflow on the inputs the program can be given, and the guards that are part of its behaviour are written out.

What was found false of the code is stated with a witness and with the exact condition.

- A second presentation of a refresh token need not revoke the grant, although the documentation of `rotate_oauth_grant` promises that it does. The request is answered `Invalid` if the token is exchanged between its first look at the history and its read of the row (`ReplayInTheWindow`). If it has read the row before the exchange, it is refused for an expiry that passes before its check (`ReplayPastTheExpiry`), or for its scopes (`ReplayForMoreScopes`). In every other case it is answered `Reused` and the grant is revoked (`ReplayIsAnswered`).
- The encoder writes labels that the decoder's guards refuse (`EncodesWhatItCannotDecode`, with the exact condition in `Encode`).
- A header broken at a space that only JavaScript calls one is not unfolded by RFC 5322 (`NoBreakSpaceIsKept`, with the exact condition in `UnfoldsByTheStandard`).
- Sweeps are seen when the clock goes back (`SweepIsSeen`), and only then (`SweepsShowWhenTheClockGoesBack`).
- The first check of `attempt` refuses a request that counting would grant when the window ends in between (`AttemptRefusesTooMuch`, with the exact condition in `AttemptRefusesAsCounting`).
- An allowance of the largest 32-bit number never refuses (`LargestAllowanceNeverRefuses`).
- Week zero of year zero stands for today (`StandsForTheDayItNames`).

## Model

| member | source | states |
|---|---|---|
| QuotedPrintable.Encode | crates/icloud-mail/src/mime.rs:1053-1070 | Decoding by section 6.7 of RFC 2045 gives the text back, for every byte string; lines of at most 76 characters with their soft break, no blank before a line end, no soft break inside an escape or, in UTF-8, inside a character |
| QuotedPrintable.Wrap | crates/icloud-mail/src/mime.rs:1092-1178 | Without its soft breaks the wrapped text is what was wrapped, and it decodes to the same bytes; the loop always advances |
| QuotedPrintable.NextLine | crates/icloud-mail/src/mime.rs:1101-1182 | A CRLF within reach ends the line; otherwise it ends no earlier than behind the last stop of the window; in UTF-8 text a soft break leaves at most 24 characters of the window to the next line; the line is never empty and never cut inside an escape or a character |
| QuotedPrintable.LineLength | crates/icloud-mail/src/mime.rs:1126-1163 | The same cut before there is room made for the soft break |
| QuotedPrintable.BackUp | crates/icloud-mail/src/mime.rs:1140-1159 | Giving back escapes from the right ends behind a whole character, after four of them at most in UTF-8 text |
| QuotedPrintable.HardBreak | crates/icloud-mail/src/mime.rs:1105-1118 | A line break of the text ends the line: the first CRLF, or a LF |
| QuotedPrintable.CutEscape | crates/icloud-mail/src/mime.rs:1188-1197 | Where an escape that the end of the line would cut starts |
| QuotedPrintable.EncodedDecodes | crates/icloud-mail/src/mime.rs:1053-1083 | The escaped text decodes to the text |
| QuotedPrintable.UnwrappedDecodes | crates/icloud-mail/src/mime.rs:1092-1178 | Taking soft breaks out changes nothing the decoder sees |
| Escapes.BoundaryBetween | crates/icloud-mail/src/mime.rs:1183-1197 | A cut between two escapes is a cut between two bytes of the text |
| Escapes.WholeTokens | crates/icloud-mail/src/mime.rs:1188-1205 | In escaped UTF-8 each lead byte is followed by the escapes of the rest of its character |
| Base64.Push | crates/icloud-mail/src/mime.rs:1004-1016 | Lines of 76 characters with CRLF between two, whatever stood before |
| Base64.WritesLength | crates/icloud-mail/src/mime.rs:991-1001 | `base64_length` is the length written |
| Base64.LayoutOf | crates/icloud-mail/src/mime.rs:1004-1016 | CR and LF stand in columns 77 and 78 of each line and nowhere else, and nothing ends in them |
| Base64.Decode | crates/gateway/src/js.rs:7-30 | The tolerant decoder's loop, whose buffer stays below two to the number of bits in it |
| Base64.ReadsWritten | crates/gateway/src/js.rs:7-30 | The tolerant decoder reads back whatever the writer wrote |
| Base64.WrittenIsRead | crates/icloud-mail/src/mime.rs:1004-1016 | So does the decoder of section 6.8 of RFC 2045, which ignores line breaks and takes nothing else outside its alphabet |
| EncodedWords.Choose | crates/icloud-mail/src/mime.rs:374-389 | Q exactly when the Latin letters outnumber the UTF-16 units to escape |
| EncodedWords.QEncode | crates/icloud-mail/src/mime.rs:448-466 | The text of a Q word is its bytes, each as a token; see QDecodesSlice |
| EncodedWords.QDecodesSlice | crates/icloud-mail/src/mime.rs:448-466 | Any run of tokens decodes, by section 4.2 of RFC 2047, to its bytes |
| EncodedWords.Split | crates/icloud-mail/src/mime.rs:470-502 | The pieces join to the input, are at most 40 long and all but the last at least 29, cut no escape and hold whole characters |
| EncodedWords.Chunks | crates/icloud-mail/src/mime.rs:424-443 | The base64 words hold whole characters and all of them, and all but the last are filled |
| Base64.EncodedIsRead | crates/icloud-mail/src/mime.rs:424-443 | Whole groups of four with padding at the end: the standard's decoder reads back what is encoded |
| EncodedWords.EncodeWord | crates/icloud-mail/src/mime.rs:406-444 | Decoding the words in sequence by the standard's Q and base64 gives the UTF-8 bytes of the string, for every string; each word is at most 75 characters, holds whole characters, and is filled unless it is the last |
| Unicode.BytesDetermineString | crates/icloud-mail/src/mime.rs:406-444 | Strings with the same UTF-8 bytes are the same string, so a reader who has the bytes has the string |
| EncodedWords.DecodesLine | crates/icloud-mail/src/mime.rs:406-444 | The spaces between words belong to no word |
| Parameters.Sections | crates/icloud-mail/src/mime.rs:685-767 | The sections, percent-decoded where marked, join to the UTF-8 bytes of the value; they are under 50 characters (at most 50 for a plain value) and hold whole characters |
| HeaderParameter.PushParameter | crates/icloud-mail/src/mime.rs:642-660 | Whatever the value, a reader of the parameter, in whichever form it is written, quoted or in numbered sections, gets the value back |
| HeaderParameter.JsonIsRead | crates/icloud-mail/src/mime.rs:617-638 | A quoted string of printable text is read as that text |
| HeaderParameter.QuotedWhenNeeded | crates/icloud-mail/src/mime.rs:587-614 | Text that goes out without quotes has nothing in it that ends a value |
| Parameters.EncodedSections | crates/icloud-mail/src/mime.rs:708-767 | The loop that goes back to the start of a section ends, and gives the sections of a rule that never goes back: each takes as many characters as fit, encoded only if one of them needs it |
| Parameters.CutIsRead | crates/icloud-mail/src/mime.rs:679-684 | The sections of that rule join to the value, are under 50 characters, split no character's escapes, and the first names the character set |
| Parameters.PlainSections | crates/icloud-mail/src/mime.rs:689-706 | A plain value is cut every 50 characters |
| Parameters.ChoppedIsRead | crates/icloud-mail/src/mime.rs:689-706 | And those sections join to it |
| Parameters.LiteralLength | crates/icloud-mail/src/mime.rs:725-729 | The length a literal section would have once encoded, by counting its spaces |
| Parameters.PercentAllDecodes | crates/icloud-mail/src/mime.rs:668-677 | Percent-encoded text decodes to its UTF-8 bytes |
| Folding.Fold | crates/icloud-mail/src/mime.rs:520-572 | The folded header is the lines `Lines` says, joined |
| Folding.Lines | crates/icloud-mail/src/mime.rs:520-572 | The lines are the header, each ending before the last run of spaces it has room for, with the word that crosses the limit, or at a break of the header's own |
| Folding.LinesAreUnique | crates/icloud-mail/src/mime.rs:517-519 | There is one way only to cut a header into such lines |
| Folding.BreaksBeforeSpaces | crates/icloud-mail/src/mime.rs:549-568 | Each inserted CRLF is followed by a JavaScript space |
| Folding.UnfoldsToTheHeader | crates/icloud-mail/src/mime.rs:520-572 | Without its CRLFs the folded header is the header, unit for unit |
| Folding.UnfoldsByTheStandard | crates/icloud-mail/src/mime.rs:520-572 | Unfolding by section 2.2.3 of RFC 5322 gives the header back if and only if, cut in any way into lines as described, it has none but the first that does not start with a space or a tab |
| Folding.TabsAndSpacesOnly | crates/icloud-mail/src/mime.rs:520-572 | So it does when the header has no other JavaScript space |
| Folding.OtherSpaceIsKept | crates/icloud-mail/src/mime.rs:549-568 | It does not when the 76th unit is another JavaScript space behind a word |
| HeaderField.MessageIdUnfolds | crates/icloud-mail/src/mime.rs:250-289 | A message ID field has no line break, so both hold of it |
| HeaderField.NoBreakSpaceIsKept | crates/icloud-mail/src/mime.rs:285-289 | The field of an ID of 62 letters and a no-break space is not unfolded by the standard |
| Folding.CutsNoCharacter | crates/icloud-mail/src/mime.rs:520-572 | No surrogate pair is split, so nothing is lost when the units become text again |
| HeaderField.Field | crates/icloud-mail/src/mime.rs:1210-1221 | A field of encoded words, unfolded and decoded, says what was written, in lines of at most 76 characters |
| SmtpData.Send | crates/icloud-mail/src/mime.rs:191-236 | The scan that skips ahead writes what the byte-by-byte rule writes |
| SmtpData.ReceiverGetsMessage | crates/icloud-mail/src/mime.rs:191-236 | A receiver that unstuffs by section 4.5.2 of RFC 5321 gets the lines of the message, and the end marker ends it at the very end, whatever follows |
| SmtpData.ProperMessageArrives | crates/icloud-mail/src/mime.rs:191-236 | A message whose breaks are all CRLF arrives as it is |
| SmtpData.SendsLines | crates/icloud-mail/src/mime.rs:191-236 | CRLF, a lone CR and a lone LF each end a line, and each line goes out with CRLF and, before a dot, another dot |
| SmtpData.SendsNoLoneBreak | crates/icloud-mail/src/mime.rs:191-236 | No lone CR and no lone LF is sent |
| TextPart.PushWithCrlf | crates/icloud-mail/src/mime.rs:1035-1050 | Line by line, a CR goes before each LF that follows none |
| TextPart.LoneLineFeeds | crates/icloud-mail/src/mime.rs:1019-1032 | How many bytes that adds |
| TextPart.Write | crates/icloud-mail/src/mime.rs:853-859 | What a body writes behind a message |
| TextPart.Length | crates/icloud-mail/src/mime.rs:845-851 | `len` is the number of bytes `write` emits, for each kind of body |
| TextPart.CrlfAfterEncoding | crates/icloud-mail/src/mime.rs:887-888 | Running the line ending pass on quoted-printable does to the decoded text what it does to the text, and damages no soft break |
| TextPart.Encode | crates/icloud-mail/src/mime.rs:868-896 | Decoding the body as declared yields the text, with CRLF for each lone LF unless it is base64; the body is ASCII, and encoded it has lines of at most 76 characters |
| Punycode.Adapt | crates/icloud-mail/src/mime_address.rs:680-693 | The bias adaptation, as a loop |
| Punycode.DecodePoints | crates/icloud-mail/src/mime_address.rs:771-823 | The decoder's loops and guards |
| Punycode.ReadDigits | crates/icloud-mail/src/mime_address.rs:788-812 | One number of the decoder, guards included |
| Punycode.DecodesAsTheStandard | crates/icloud-mail/src/mime_address.rs:771-823 | What the guarded decoder answers it would answer without guards; that is section 6.2 of RFC 3492 for digits in lower case when no leading hyphen is skipped |
| Punycode.ReadsNumberBack | crates/icloud-mail/src/mime_address.rs:741-757 | The digits of a number are read as that number, and no guard fires while the sum stays below the limit |
| Punycode.BiasBound | crates/icloud-mail/src/mime_address.rs:680-693 | The bias stays below 251 |
| Punycode.NextWeight | crates/icloud-mail/src/mime_address.rs:806-811 | So the guard on the weight never fires on a number the encoder wrote and the limit lets pass |
| Punycode.Encode | crates/icloud-mail/src/mime_address.rs:706-767 | It succeeds if and only if no delta of the label is past the limit. Without guards what it returns always decodes to the label; with them, if and only if no count of the label is past the limit, and otherwise it is refused |
| Punycode.EncodePass | crates/icloud-mail/src/mime_address.rs:733-758 | One pass of the encoder, with the decoder that has read what it wrote |
| Punycode.ShortLabelsHaveNoLargeCount | crates/icloud-mail/src/mime_address.rs:706-823 | No label of at most 1927 code points has such a delta or count |
| Punycode.EncodesWhatItCannotDecode | crates/icloud-mail/src/mime_address.rs:798-800 | A label of 1928 code points is encoded, and its encoding refused |
| Punycode.FollowsCount | crates/icloud-mail/src/mime_address.rs:727-760 | The encoder's delta and the decoder's count for a point are those computed from the label |
| RefreshRotation.NextKeeps | crates/gateway/src/access_token.rs:216-306 | What every event keeps: no token spent twice, no current token in the history, each request knows what its statements told it |
| RefreshRotation.RotatedAtMostOnce | crates/gateway/src/access_token.rs:208-215 | Of all requests that present a token at most one is answered with new tokens |
| RefreshRotation.SpentForGood | crates/gateway/src/access_token.rs:258-297 | A spent token never becomes current again, and no token is in the history twice |
| RefreshRotation.RevokedNeverRotates | crates/gateway/src/access_token.rs:258-273 | A revoked grant stays revoked and keeps its tokens |
| RefreshRotation.GrantLifetime | crates/gateway/src/access_token.rs:101-306 | Scopes only shrink, by the one permission; the refresh expiry never moves; no access token outlives the start by more than 30 days, an hour and the longest time a request took between its two readings of the clock |
| RefreshRotation.ReplayIsAnswered | crates/gateway/src/access_token.rs:223-306 | A request whose token is spent, wherever it is: `Reused` with the grant revoked, except that it is `Invalid` when it has missed the token in the history and not read the row yet, and what its copy is refused for when it has read it and the copy is expired by the clock of its check or holds too few scopes |
| RefreshRotation.ReplayAfterRead | crates/gateway/src/access_token.rs:236-254 | For a request that has read the row: `Invalid` if its copy is expired now, and only if it is expired by the answer; otherwise `Reused` with the grant revoked, or `ScopeExceeded`, as its scopes are in the copy or not |
| RefreshRotation.ReplayInTheWindow | crates/gateway/src/access_token.rs:216-256 | A run in which a token is exchanged and presented again, the second request, between look-up and read at the exchange, is answered `Invalid`, and no grant is revoked |
| RefreshRotation.ReplayPastTheExpiry | crates/gateway/src/access_token.rs:236-243 | The same for a request that has read the row and checks it after it has expired |
| RefreshRotation.ReplayForMoreScopes | crates/gateway/src/access_token.rs:245-251 | The same, answered `ScopeExceeded`, for one that has read the row and asks for more than it holds |
| RefreshRotation.LosesToRevocation | crates/gateway/src/access_token.rs:299-305 | A request that loses to a plain revocation is answered `Invalid` and its token never enters the history |
| RefreshRotation.ForeignIsInvalid | crates/gateway/src/access_token.rs:308-347 | A request for another client or resource is answered `Invalid` |
| RefreshRotation.ForeignWritesNothing | crates/gateway/src/access_token.rs:308-347 | And none of its statements writes |
| RefreshRotation.AdvanceTerminates | crates/gateway/src/access_token.rs:216-306 | Each statement brings a request nearer to its answer |
| RefreshRotation.AnswerAlone | crates/gateway/src/access_token.rs:216-306 | What a request that runs alone is answered, in each case, and what it leaves behind |
| RefreshRotation.Database.RotateGrant | crates/gateway/src/access_token.rs:216-306 | The method leaves the tables and the answer of such a request |
| RefreshRotation.Database.RevokeForReuse | crates/gateway/src/access_token.rs:349-364 | Whether the token was spent, its grant then revoked |
| RefreshRotation.Database.Exchange | crates/gateway/src/access_token.rs:258-297 | The conditional update and the history row go together or not at all |
| Calendar.DateIsReadBack | crates/builtin/src/arguments.rs:840-867 | Every date, of negative years too, is read back from its day number |
| Calendar.NumberIsReadBack | crates/builtin/src/arguments.rs:840-867 | Every number is read as a valid date with that number |
| Calendar.DaysAreConsecutive | crates/builtin/src/arguments.rs:828-848 | Consecutive dates by `days_in_month` have consecutive numbers, and the epoch is day zero |
| Calendar.YearsAreConsecutive | crates/builtin/src/arguments.rs:824-848 | A year has as many days as `days_in_year` says |
| WrittenDates.WeeksFillTheYear | crates/builtin/src/arguments.rs:869-880 | The division of `weeks_in_week_year` is exact, gives 52 or 53, and that many weeks lead from one first Monday to the next |
| WrittenDates.WeekNames | crates/builtin/src/arguments.rs:896-908 | Each valid week date is what ISO 8601 calls its day |
| WrittenDates.WeekOfDay | crates/builtin/src/arguments.rs:869-908 | Every day has a valid week date |
| WrittenDates.StandsForTheDayItNames | crates/builtin/src/arguments.rs:884-916 | A date stands for the one day that bears it as a name; week zero of year zero stands for today, which it does not name |
| WrittenDates.RefusedWhenNoDayIsNamed | crates/builtin/src/arguments.rs:884-916 | A date is refused when it names no day, and only then |
| WrittenDates.WritesWhatItRead | crates/builtin/src/arguments.rs:575-588 | The text of the local timestamp of a date and time, read back, is that date and time to the second, and the hour 24 is midnight of the day after |
| WrittenDates.TimestampIsRead | crates/builtin/src/arguments.rs:577-588 | The written text has its marks in place and says its year, of any sign and length, and the other parts |
| WrittenDates.TimeAloneIsToday | crates/builtin/src/arguments.rs:921-954 | A time without a date is on the day it is where it is read, within a day of now |
| CallLog.Service.Record | crates/gateway/src/call_log.rs:177-199 | The new state of the queue, and whether a task is started |
| CallLog.Service.Take | crates/gateway/src/call_log.rs:253-261 | The first hundred records waiting, or the end of the writer |
| CallLog.Service.WriteQueue | crates/gateway/src/call_log.rs:251-280 | Left alone, the writer takes all waiting records in order, in full batches but the last |
| CallLog.EveryRunIsSound | crates/gateway/src/call_log.rs:177-280 | At most one writer; waiting records imply one; `pending` is the records waiting and in flight, at most 1000; no record is lost, repeated or taken out of turn |
| CallLog.FlushSawEveryAttempt | crates/gateway/src/call_log.rs:202-207 | When a flush returns, each record accepted before it has had its write attempted, in order |
| CallLog.DropsOnlyWhenFull | crates/gateway/src/call_log.rs:177-190 | A record is dropped only while a thousand are waiting or in flight, or without a runtime |
| CallLog.WriterEnds | crates/gateway/src/call_log.rs:251-280 | Without new records the writer ends, in a bounded number of steps |
| CallLog.NothingIsLeftBehind | crates/gateway/src/call_log.rs:202-280 | When no writer is left nothing is pending and every flush may return |
| RateLimiter.Limiter.Get | crates/core/src/limiter.rs:102-126 | A counter counts only while its window runs |
| RateLimiter.Limiter.Add | crates/core/src/limiter.rs:128-187 | The SQL upsert and the memory branch compute the same counter and window |
| RateLimiter.Limiter.Attempt | crates/core/src/limiter.rs:202-215 | A key over its allowance is refused without being counted |
| RateLimiter.Limiter.Decrement | crates/core/src/limiter.rs:223-228 | Nothing is given back when no window is running |
| RateLimiter.AttemptRefusesAsCounting | crates/core/src/limiter.rs:202-215 | What the first check of `attempt` refuses, counting would have refused later if and only if the window still runs by then, or nothing is allowed at all |
| RateLimiter.AttemptRefusesTooMuch | crates/core/src/limiter.rs:202-215 | A window that ends between the two, so that a request is refused that counting would have granted |
| RateLimiter.WaitingEndsTheWindow | crates/core/src/limiter.rs:91-99 | `available_in` is the least number of seconds after which the window is over |
| RateLimiter.SweepsChangeNoAnswer | crates/core/src/limiter.rs:152-187 | With a clock that never goes back, clearing expired counters, by whatever rule, changes no answer of any run |
| RateLimiter.SweepsShowWhenTheClockGoesBack | crates/core/src/limiter.rs:152-187 | No run of a limiter at given clock readings, from any state, lets a sweep be seen, if and only if the readings never go back |
| RateLimiter.SweepIsSeen | crates/core/src/limiter.rs:152-187 | A run of a new limiter in which one is |
| RateLimiter.FewerThanTwice | crates/core/src/limiter.rs:193-199 | Any stretch as long as the window sees at most twice the allowance less one granted for a key |
| RateLimiter.TwiceLessOneIsReached | crates/core/src/limiter.rs:193-199 | That many can be granted, for every allowance and window |
| RateLimiter.LargestAllowanceNeverRefuses | crates/core/src/limiter.rs:91-97 | An allowance of the largest 32-bit number has no such bound |
| Decimals.Rounded | crates/google-ads/src/format.rs:209-240 | The digits are the value rounded half up to the decimals asked for |
| Decimals.AddUnit | crates/google-ads/src/format.rs:221-232 | The carry loop adds exactly one in the last place |
| Decimals.PointKeepsTheValue | crates/google-ads/src/format.rs:176-196 | Shifting by the exponent keeps the value |
| Decimals.Grouped | crates/google-ads/src/format.rs:243-252 | Without the commas it is the input, and they stand every three digits from the right |
| Decimals.Amount | crates/google-ads/src/format.rs:140-162 | The written amount, read as a number, is the amount rounded half up to the currency's decimals |

## Left out

- I/O, clocks and randomness: the database driver, sockets, tasks and locks. Rows are sequences and maps, one critical section, statement or transaction is one step, times and new tokens are parameters.
- SHA-256: a hash is a number, and new tokens are numbers never issued before.
- RefreshRotation.Database.RotateGrant: runs while no other request has its turn. Interleavings are proved on the step function `Advance`, one statement a step.
- `revoke_oauth_token`: its one write is the revocation event. Its lookup is not modelled.
- `AccessToken::save` is not part of this model: `revoke` is the write of `revoked_at` alone, not of a whole row. `update` and `touch_last_used` are left out for the same reason.
- RefreshRotation.GrantLifetime: a grant is created at one reading of the clock, where the original reads it again for the second expiry. Rotation reads it twice, as the original does (access_token.rs lines 241 and 257).
- RefreshRotation.AnswerAlone: for a request that runs alone both readings show the same time.
- Punycode: labels and inputs of more than 2147483647 characters are not modelled: the encoder's numbers then pass the width of the original's.
- UTS 46 mapping, normalization, Bidi and joiner checks, the IPv4 host form and the quoting of local parts in addresses.
- HeaderParameter.PushParameter: takes names of letters, which the program's are. `name_parameter` is not modelled.
- EncodedWords.EncodeWord: the choice of `encode_words` whether a value needs encoding at all is not modelled.
- TextPart.Encode: a `7bit` body has the lines of the text, up to 76 characters between CR or LF; the assembly of parts and boundaries in `mixed_message` is not modelled.
- HeaderField.Field: models one field whose value is encoded words; `Message-ID` is the other field modelled. The list of fields is not.
- Regular expressions of the date patterns: dates and times start from their parsed fields. Milliseconds come as a whole number.
- The conversion of an instant to the date type of the chrono library, which refuses years the model keeps.
- WrittenDates.TimeAloneIsToday: the offset of the text may be any number of minutes, as in the code.
- RateLimiter.FewerThanTwice: runs without `decrement` and `delete` on the key. With them a key may be granted more by design.
- Call log pruning, redaction and capture of values.
- Floating point: `to_micros`, `math_round` and the digits of a number. Decimals start from digit strings. Signs, currency symbols and `NaN` are not modelled.
