# SendIt dispatch core in Dafny

A model of the core of SendIt, a small C# library that sends e-mail over SMTP.
It covers two parts:

- **`Recipient`** (`src/SendIt/Recipient.cs`). This value object lower-cases an
  address and validates it. It keeps the role (`To`, `Cc`, `Bcc`, `ReplyTo`) and
  an optional display name, and renders itself as `address` or `Name <address>`.
- **The dispatch engine of `Sender`** (`src/SendIt/Sender.cs`), written as pure
  functions over an explicit state record:
  - test-mode substitution of recipients;
  - `Compose` (test banner, content sections, envelope routing, attachments,
    UTF-8 default);
  - the two-tier pacing state machine (`groupIndex`, `groupSize`, individual
    and group gap, `GetTimeGap`);
  - the dry-run switch;
  - the log line.

One call of the public `SendMailAsync` is `Dispatch.Send(sender, clock, request, services)`.
It returns a `Step` that says whether the call was rejected by the composer,
failed in `Thread.Sleep`, failed in the transport or returned a log. The step
also holds the sender's state afterwards. The parameters stand in for what the
model does not contain:

- `clock` carries the elapsed milliseconds read by `GetTimeGap` and the instant
  stored in `lastSent`.
- `services` bundles two things, and each call of a series gets its own, so a
  retry can succeed after a failure and the other way round. `deliver` stands for the SMTP transport and
  answers whether delivery succeeded. `acceptsAddress` stands for the address
  parsing of `MailAddressCollection.Add` and answers whether a rendered
  recipient is accepted.
- The address validator `EmailAdderssValidator.IsValid` is the parameter
  `isValid` of `Recipients.NewRecipient`.

Modules: `Wrappers` (option/result), `Ints` (`uint`/`int` wrap-around), `Text`
(`Split`, ASCII `ToLower`, `IsNullOrWhiteSpace`, decimal rendering), `Recipients`,
`Pacing`, `Composer`, `Dispatch`.

Behaviour modelled as the code has it:

- **`groupSize == 0`.** Only the first send is a group boundary. The index is
  reset to 0 and then incremented to 1, and from then on it never equals 0 again
  until it wraps after 2^32 sends (`Pacing.ZeroGroupSizeOnlyFirstBoundary`).
- **Group size set below the index.** The setters change one field and leave
  the group index alone. An index already past the new group size never meets
  it again before the index wraps, so every later send takes the individual gap
  (`Pacing.IndexPastGroupSize`).
- **Plain-text test banner.** It ends with `"\n\r"`, not CRLF
  (`Composer.PlainBannerEndsWithLfCr`). The model follows the code.
- **First send.** There is no "no previous send" case. `lastSent` is a value
  type, so the `null` test in `GetTimeGap` never fires. The first gap is computed
  from whatever `(uint)` cast the time since `default(DateTime)` gives. That
  value is an unconstrained input here.
- **Oversized gaps.** A gap of 2^31 ms or more turns negative under the
  `(int)` cast. `Thread.Sleep` then throws, or for -1 never returns. That call
  ends in `SleepFailed`: the group index stays reset and `lastSent` is not
  updated.
- **Undeclared recipient type.** A `RecipientType` is any `int` value, as a C#
  enum can be. A value outside the four declared members makes `Compose` throw
  before any pacing state changes (`Rejected`).
- **Exceptions from `MailMessage`.** `Compose` also throws when the `Subject`
  setter meets a CR or LF, before any recipient is looked at. It throws too
  when `Add` cannot parse a recipient's rendering, such as
  `Doe, John <j@x.com>`. Both end in `Rejected`, with the error that came first.

## Model

| member | source | states |
|---|---|---|
| Ints.Inc | src/SendIt/Sender.cs:238 | `groupIndex++` on a `uint` yields the old value plus one, modulo 2^32 |
| Ints.ToInt32 | src/SendIt/Sender.cs:226 | the `(int)` cast before sleeping keeps the value modulo 2^32 and is negative exactly for gaps of 2^31 or more |
| Text.Split | src/SendIt/Recipient.cs:49 | splitting at `@` yields one more piece than there are `@` characters, and no piece contains `@` |
| Text.JoinSplit | src/SendIt/Recipient.cs:49 | joining the pieces back with the separator gives the original address |
| Text.ToLower | src/SendIt/Recipient.cs:44 | lower-casing keeps the length and maps every character through the (ASCII) lower-case mapping |
| Text.ToLowerKeepsCount | src/SendIt/Recipient.cs:44-52 | lower-casing changes no non-letter, so the number of `@` checked after lower-casing is that of the input |
| Text.ParseNatToString | src/SendIt/Sender.cs:249 | the decimal digits written for the gap read back as the gap |
| Recipients.TypeName | src/SendIt/Sender.cs:244 | the enum name printed in the log: a letter-initial member name for the four declared types, the decimal number for any other value |
| Recipients.TypeNameInjective | src/SendIt/Sender.cs:244 | different recipient types never print the same name in the log |
| Recipients.NewRecipient | src/SendIt/Recipient.cs:42-57 | construction succeeds iff the lower-cased address passes the validator and has exactly one `@`; a validator rejection is reported first, carrying the lower-cased address; on success the stored address is the lower-cased input and role and display name are stored unchanged |
| Recipients.NewDefaultRecipient | src/SendIt/Recipient.cs:42 | without the optional arguments the role is `To` and the display name is empty |
| Recipients.NewRecipientIgnoresCase | src/SendIt/Recipient.cs:44-45 | addresses that differ only in letter case give the same outcome |
| Recipients.NewRecipientCountsOriginalAt | src/SendIt/Recipient.cs:44-52 | a constructed recipient came from an input with exactly one `@` |
| Recipients.TwoAddressesRefused | src/SendIt/Recipient.cs:49-52 | a comma-joined pair of addresses is always refused, whatever the validator says |
| Recipients.Display | src/SendIt/Recipient.cs:59-64 | `ToString` is the bare address exactly when the display name is null, empty or white space, else `Name <address>` |
| Recipients.DisplayEndsWithAddress | src/SendIt/Recipient.cs:59-64 | the rendered form ends with the address, followed by `>` exactly when a name is shown |
| Pacing.GetTimeGap | src/SendIt/Sender.cs:256-271 | the wait never exceeds the configured gap, tops the elapsed time up to at least the configured gap, overshoots never, and is positive exactly when less than the configured gap has elapsed (so 0 for a zero gap) |
| Pacing.GetTimeGapIsLeast | src/SendIt/Sender.cs:256-271 | no shorter wait would reach the configured spacing |
| Pacing.BeginSend | src/SendIt/Sender.cs:216-224 | at a group boundary (`groupIndex == groupSize`) the index restarts at 0 and the wait is measured against the group gap; otherwise nothing changes and the individual gap applies; no other field changes; a positive wait is exactly the configured gap minus the elapsed time |
| Pacing.PacingStep | src/SendIt/Sender.cs:216-238 | a completed send stamps `lastSent`, keeps the configuration, and leaves the index one past the (possibly reset) index, modulo 2^32 |
| Pacing.PacingStepKeepsIndexInGroup | src/SendIt/Sender.cs:216-238 | with a positive group size an index within `[0, groupSize]` lands in `[1, groupSize]` after a send |
| Pacing.Run | src/SendIt/Sender.cs:216-238 | a series of sends keeps the group size and both gaps, and leaves `lastSent` at the last send's instant |
| Pacing.RunIndex | src/SendIt/Sender.cs:216-238 | from index 0 with group size n ≥ 1, after k ≥ 1 sends the index is `(k - 1) % n + 1` |
| Pacing.GroupBoundaryEveryGroupSize | src/SendIt/Sender.cs:216-238 | from index 0 with group size n ≥ 1 the group gap applies to sends n+1, 2n+1, …, and the index stays in `[1, n]` after each send |
| Pacing.RunIndexZeroGroup | src/SendIt/Sender.cs:216-238 | with group size 0 the index after k sends is k modulo 2^32 |
| Pacing.ZeroGroupSizeOnlyFirstBoundary | src/SendIt/Sender.cs:216-238 | with group size 0 only the first send (and then every 2^32-th) takes the group gap |
| Pacing.IndexPastGroupSize | src/SendIt/Sender.cs:216-238 | from an index above the group size, and short of wrap-around, the index counts up by one per send and never meets a group boundary |
| Pacing.IndexPastGroupSizeExample | src/SendIt/Sender.cs:216-238 | index 3 with groups of two is not a boundary, waits the individual gap, and moves on to index 4 |
| Pacing.TwoPerGroupExample | src/SendIt/Sender.cs:216-224 | groups of two with gaps 50/500 ms and back-to-back sends wait at most 50, then 50, then 500 ms |
| Composer.TestBanner | src/SendIt/Sender.cs:136-146 | the test banner holds the marker between a fixed opening and closing, from which it reads back unchanged: a red paragraph and `<br />` for HTML, nothing and `"\n\r"` for text |
| Composer.PlainBannerEndsWithLfCr | src/SendIt/Sender.cs:144 | the plain-text banner ends in line feed then carriage return, not CRLF |
| Composer.RenderedAppend | src/SendIt/Sender.cs:148-161 | rendering a concatenation of sections renders each part in turn, so sections are appended in array order |
| Composer.BodyStart | src/SendIt/Sender.cs:136-165 | whatever the sections, the body opens with the banner exactly in test mode, followed by the content unchanged |
| Composer.BodyLayout | src/SendIt/Sender.cs:136-165 | the body built by `Composer.Body` opens with the banner exactly in test mode, then the content unchanged, and section `i`'s rendering sits right after those before it |
| Composer.BodyNullSectionsAsEmpty | src/SendIt/Sender.cs:148-161 | null sections and no sections give the same body; outside test mode that body is the content itself |
| Composer.FirstRefused | src/SendIt/Sender.cs:172-191 | locates the first recipient the loop cannot route, because its type is undeclared or `Add` refuses its rendering; every recipient before it is routable, and the result is the array length when there is none |
| Composer.Route | src/SendIt/Sender.cs:172-191 | routing, one `Composer.AddRecipient` per recipient, succeeds iff every recipient is routable; each list then holds the rendered recipients of its type in input order; otherwise the error is the first refused recipient's: its undeclared type, or its rendering that `Add` refused |
| Composer.RouteKeepsEveryone | src/SendIt/Sender.cs:172-191 | every recipient lands on exactly one list: the four lists together are as long as the recipient array |
| Composer.Compose | src/SendIt/Sender.cs:134-202 | composition succeeds iff the subject has no CR or LF and every recipient is routable; a line break in the subject is reported before any recipient error; on success the message has the composed body, the given encoding (UTF-8 when none) for body and subject, `IsBodyHtml == isHtml`, the given subject, the routed envelope and the attachments in order (none when null) |
| Dispatch.NewSender | src/SendIt/Sender.cs:118-127 | a new sender stores its arguments, frames the test message as `* * * message * * *`, and starts with all pacing counters at 0 (a group boundary) |
| Dispatch.NewDefaultSender | src/SendIt/Sender.cs:118 | the constructor's defaults: test mode on, dry run off, SSL on, marker `* * * TEST MESSAGE * * *` |
| Dispatch.SetGroupSize | src/SendIt/Sender.cs:84-88 | the `GroupSize` setter changes the group size to the given value and nothing else, not even the group index |
| Dispatch.SetGroupTimeGap | src/SendIt/Sender.cs:93-97 | the `GroupTimeGap` setter changes the group gap to the given value and nothing else |
| Dispatch.SetIndividualTimeGap | src/SendIt/Sender.cs:102-106 | the `IndividualTimeGap` setter changes the individual gap to the given value and nothing else |
| Dispatch.ConfiguredSenderPacesGroups | src/SendIt/Sender.cs:84-106 | a new sender given groups of n ≥ 1 through the setters takes the group gap on sends n+1, 2n+1, … while every call completes, with the index in `[1, n]` |
| Dispatch.DefaultCallComposes | src/SendIt/Sender.cs:163-199 | outside test mode, a call that leaves every optional argument at its default composes an empty HTML body, UTF-8 for body and subject, the given subject and no attachments |
| Dispatch.Entries | src/SendIt/Sender.cs:242-245 | the recipient part of the log is empty for no recipients and otherwise ends with `;` |
| Dispatch.EntriesAppend | src/SendIt/Sender.cs:242-245 | the entries of two runs of recipients are the entries of the first followed by those of the second |
| Dispatch.EntryPlacement | src/SendIt/Sender.cs:242-245 | the entry (`Dispatch.Entry`, `{Type}: {Email};`) of recipient `i` sits right after the entries of the recipients before it |
| Dispatch.LogLine | src/SendIt/Sender.cs:230-250 | the log starts with `[DRY RUN] ` exactly in a dry run and ends with `]` exactly when the gap was positive |
| Dispatch.LogListsRecipients | src/SendIt/Sender.cs:240-250 | `Notification sent: ` follows the optional dry-run tag, the `{Type}: {Email};` entries follow it directly, and the rest of the line is the gap note `Dispatch.GapNote`, so for a zero gap the line ends with the entries |
| Dispatch.LogRecordsGap | src/SendIt/Sender.cs:247-250 | a positive gap closes the log with ` [`, the gap's decimal digits and `ms time gap]`, and the digits read back as the gap |
| Dispatch.Send | src/SendIt/Sender.cs:204-254 | a send is rejected, leaving the sender unchanged, iff the subject has a line break or a used recipient cannot be routed, and the error is the subject's or else the first refused recipient's; otherwise it waits the pacing gap; a gap of 2^31 or more fails in the sleep; an undelivered message leaves the index uncounted but `lastSent` stamped; a completed send advances the pacing state by one step, calls the transport exactly when not a dry run, and returns the log of the recipients used |
| Dispatch.TestModeIgnoresCallerRecipients | src/SendIt/Sender.cs:209-212 | in test mode `Dispatch.Addressees` picks the test recipients, so the outcome of a send does not depend on the recipients the caller passed |
| Dispatch.TestModeMessage | src/SendIt/Sender.cs:209-214 | in test mode a sent message's To, Cc, Bcc and ReplyTo lists are exactly those the test recipients route to, its body opens with the banner, and the log lists the test recipients |
| Dispatch.HeaderAndFooterUnused | src/SendIt/Sender.cs:118-127 | changing the mail header and footer changes nothing about a send but the stored settings |
| Dispatch.DryRunNeverTransports | src/SendIt/Sender.cs:230-237 | a dry run never calls the transport, so it never ends in a transport failure, and its log is tagged `[DRY RUN] ` |
| Dispatch.TransportFailureDoesNotCount | src/SendIt/Sender.cs:216-238 | when the transport fails the group index stays where the group branch put it while `lastSent` has moved to the send's instant |
| Dispatch.SendAll | src/SendIt/Sender.cs:204-254 | a series of calls, each meeting its own transport and address parser, yields one step per call and never changes the sender's settings |
| Dispatch.SendAllCall | src/SendIt/Sender.cs:204-254 | call `i` of a series is one send from the state the earlier calls left, with its own clock reading, request and services |
| Dispatch.DeliveredSeriesFollowsPacing | src/SendIt/Sender.cs:216-238 | when every call of a series completes, the sender ends in the pacing state the state machine reaches on the same clock readings, and each call waited the gap chosen for it |

## Left out

- The SMTP transport (`SmtpClient`, host, port, credentials, SSL, the private `SendMailAsync(MailMessage)`): network I/O. It is the field `deliver` of `Dispatch.Services`. `Configure`, `SmtpConfig` and `UseSSL` only feed that transport, so they are stored or omitted without further modelling.
- `Thread.Sleep` and `DateTime.Now`: real time and blocking. The elapsed milliseconds (after the `(uint)` cast) and the instant stored in `lastSent` are inputs in `Pacing.Clock`. The model does not relate them to each other.
- The body of `EmailAdderssValidator.IsValid`: its source is not part of this model. The validator is the function parameter `isValid`.
- Recipients.NewRecipient: `ToLower` is culture-sensitive in the source and ASCII-only here, because culture tables are outside the model.
- Recipients.NewRecipient: a `null` address (a `NullReferenceException` in `ToLower`) is not modelled; addresses are strings.
- `null` recipient or test-recipient arrays (a `NullReferenceException` in `Compose`) are not modelled; recipient lists are sequences.
- `null` elements inside the recipient, section or attachment arrays are not modelled. In the source they raise a `NullReferenceException` in `Compose`, or an `ArgumentNullException` from `Attachments.Add`. Sequence elements here are values, never `null`.
- Dispatch.NewSender: the constructor keeps the caller's test-recipient array by reference, so later writes to that array change later test-mode sends. `Settings.testRecipients` is a value fixed at construction, because the model has no shared mutable arrays.
- `IEmailable.ToHtml`/`ToText` are caller code. A `Composer.Section` holds the two strings they return, so they are taken to be deterministic and not to throw.
- `Attachment`, `Encoding` and `MailMessage` internals: opaque handles and records.
- Composer.Compose: the address grammar of `MailAddressCollection.Add` is the parameter `acceptsAddress`, because that parser is framework code. The lists hold the strings as added; how `Add` splits an accepted string into addresses is not modelled.
- Composer.Compose: the `Subject` setter's decoding of encoded words is not modelled. The subject is stored as given, and the line-break test applies to it as given.
- Dispatch.Send: inherits both limits of `Composer.Compose` above.
- Composer.Compose: it accepts any recipient record, including ones `Recipients.NewRecipient` cannot produce (`Recipients.Valid` fails). Every property is stated for all records, so it holds in particular for constructed ones; no property relies on `Valid`.
- Dispatch.SendAll: a call after a `SleepFailed` step whose gap casts to -1 cannot happen in the source, where `Thread.Sleep(-1)` never returns; the series function still lists later calls.
- Concurrent calls on one `Sender`: the model is single-caller.
- The demo program and the `ISender` interface contain no logic.
