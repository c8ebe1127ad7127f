# DemosToDiscord demo selection, in Dafny

DemosToDiscord is an IW4MAdmin plugin. When a player is reported on a Plutonium T5 or T6
server, it looks in that game's demo folder for the recording of the match under way. It
then posts that recording, with its `.json` sidecar on T6, to a Discord webhook under an
embed describing the report. If no recording matches, it posts the embed with a "no demo"
status instead.

This project models the logic of `DemoUploadService` that decides what gets posted:

- **FileName** (`filename.dfy`). `ParseFilename` reads recording metadata from a demo
  file name `<mode>_<map…>_<month>_<day>_<year>_<hour>_<minute>.<ext>`. The file also
  holds its inverse, `FormatFilename`. The parser is characterised from outside by
  the round trips `ParseFormat` and `ParseFilenameParts`, and by the three rejection
  lemmas.
- **Text** (`text.dfy`). The .NET string behaviour the parser and the filter rely on:
  - `Split` keeps empty pieces, and `string.Join` is its inverse.
  - `int.Parse` is modelled with the default `NumberStyles.Integer` and the sign strings
    `+` and `-`. It accepts white space, an optional sign, digits, then white space, within
    the Int32 range.
  - ordinal case-insensitive comparison and search;
  - `IsNullOrWhiteSpace`, `TrimEnd` and `ToUpperInvariant`.
- **Calendar** (`calendar.dfy`). Which arguments the `DateTime` constructor accepts,
  and the tick count it stores. The tick count preserves calendar order.
- **Matcher** (`matcher.dfy`). `FindDemo`:
  - The filter keeps names that parse and whose map contains the server's map. The mode
    must equal the server's mode when that is not blank. The start must lie in the
    look-back window.
  - Among the survivors it picks the most recently written file. On a tie the earlier
    file of the listing wins, as `OrderByDescending(...).FirstOrDefault()` does.
  - On T6 it adds the `.json` path from `Path.ChangeExtension` when that file exists
    (`Sidecar`; see `ChangeDemoExtension` and `FindDemo`).
  - The method is a single scan. It is proved equal to a reference: the head of a stable
    descending insertion sort of the survivors.
- **Workflow** (`workflow.dfy`):
  - the polling of `WaitForDemoAsync`, over the passes it makes;
  - the routing of `HandlePenaltyAsync`: ignore the event, send one "no demo" message,
    upload one demo, or let an exception from the wait escape;
  - the bounded map-change wait `WaitForMapChangeAsync`.
- **Embed** (`embed.dfy`). The fields `BuildEmbed` derives: the map label, the profile
  link, the status line, and the fixed title and colour. The lemmas about them are
  `MapLabelStable`, `MapDefaultsAgree`, `ProfileUrlShape`, `ProfileUrlReadsBack` and
  `EmbedsDifferOnlyInStatus`.
- **Wrappers** (`wrappers.dfy`). `Option`, the model of a `null` result.

The clock, the file system and the cancellation token are inputs:

- The report time arrives in ticks.
- The demo folder's listing arrives as a sequence of entries, each with its full path,
  its name and its last-write time in ticks.
- The existing files and folders arrive as sets of paths.
- Each polling pass arrives as a `Round`: whether the deadline and the token still let
  the loop run, whether listing the folder threw, what the folder held, and whether the
  token fired during the delay.
- The server's map after each two-second wait arrives as a function of the poll number.

## Model

| member | source | states |
|---|---|---|
| FileName.ParseFilenameParts | DemosToDiscord/DemoUploadService.cs:255-280 | Whatever parses is rebuilt from its parts: the name without extension is the mode (which holds no `_`), `_`, the map, `_`, and the five trailing tokens. Each of those tokens reads back as the start's month, day, year, hour and minute. |
| FileName.ParseFormat | DemosToDiscord/DemoUploadService.cs:255-280 | Round trip: write a name from a mode without `_`, any map, a valid minute-resolution date and an extension without `.`. It parses back to exactly that mode, map and start. |
| FileName.FewUnderscoresRejected | DemosToDiscord/DemoUploadService.cs:255-259 | A name with fewer than six `_` before its extension gives no metadata. |
| FileName.UnparsableFieldRejected | DemosToDiscord/DemoUploadService.cs:267-283 | If any one of the five trailing tokens is text `int.Parse` rejects, the result is no metadata, never a partial record. This covers a foreign character, a missing digit, and a number outside the Int32 range. |
| FileName.InvalidDateRejected | DemosToDiscord/DemoUploadService.cs:273 | Trailing numbers that name no real minute give no metadata. Examples: 30 February, hour 24, year 0. |
| FileName.NuketownExample | DemosToDiscord/DemoUploadService.cs:244-254 | `tdm_mp_nuketown_2020_12_10_2025_4_4.demo` parses to mode `tdm`, map `mp_nuketown_2020`, start 2025-12-10 04:04. |
| FileName.FiringRangeExample | DemosToDiscord/DemoUploadService.cs:244-254 | `sd_mp_firingrange_12_10_2025_3_50.demo` parses to mode `sd`, map `mp_firingrange`, start 2025-12-10 03:50. |
| FileName.StripExtensionCut | DemosToDiscord/DemoUploadService.cs:255 | Dropping the extension keeps a prefix of the name. It cuts at a `.` after which no `.` follows, and keeps the whole name when there is no `.`. |
| FileName.ParseIntsEach | DemosToDiscord/DemoUploadService.cs:267-271 | Reading the five date tokens succeeds exactly when each token parses, and yields each token's own value. |
| Text.ParseInt32Shape | DemosToDiscord/DemoUploadService.cs:267-271 | Whatever `int.Parse` accepts holds at least one digit and nothing but digits, signs and white space. |
| Text.ParseDecimal | DemosToDiscord/DemoUploadService.cs:267-271 | `int.Parse` reads back the decimal text of any number from 0 to Int32.MaxValue. Negative numbers are covered by `Text.ParseIntToString`. |
| Text.ParseInt32 | DemosToDiscord/DemoUploadService.cs:267-271 | A value `int.Parse` returns lies in the Int32 range. |
| Text.OverflowUnparsable | DemosToDiscord/DemoUploadService.cs:267-271 | A run of digits whose value exceeds the Int32 range does not parse: `int.Parse` throws `OverflowException`. |
| Text.ParseIntToString | DemosToDiscord/DemoUploadService.cs:267-271 | `int.Parse` reads back the text `ToString` gives any Int32, negative ones included. |
| Text.SplitJoin | DemosToDiscord/DemoUploadService.cs:256-265 | Joining pieces free of the separator and splitting the result gives the pieces back. |
| Text.JoinSplit | DemosToDiscord/DemoUploadService.cs:256-265 | Splitting on a character and joining with it rebuilds the string. |
| Text.SplitPieces | DemosToDiscord/DemoUploadService.cs:256 | No piece of a split contains the separator. |
| Text.SplitLength | DemosToDiscord/DemoUploadService.cs:256-258 | A split has one piece more than the string has separators. |
| Calendar.DaysInMonth | DemosToDiscord/DemoUploadService.cs:273 | A month has 28 to 31 days. It has 29 exactly for February of a leap year. |
| Calendar.TicksMonotone | DemosToDiscord/DemoUploadService.cs:216 | A minute earlier in the calendar has a smaller tick count. So the subtraction in the window test orders recordings as the calendar does. |
| Matcher.SurvivorsEligible | DemosToDiscord/DemoUploadService.cs:199-218 | The filtered listing holds exactly the listed files whose names parse and pass the map, mode and window tests. |
| Matcher.NoSurvivors | DemosToDiscord/DemoUploadService.cs:199-222 | Nothing survives the filter exactly when no listed file is eligible. |
| Matcher.SortDescSorted | DemosToDiscord/DemoUploadService.cs:219 | The reference ordering is descending by last-write time. |
| Matcher.SortDescHead | DemosToDiscord/DemoUploadService.cs:219-220 | The first element of the stable descending order is the first survivor carrying the latest write time. |
| Matcher.FirstLatestUnique | DemosToDiscord/DemoUploadService.cs:219-220 | At most one position is the first with the latest write time, so the choice is determined by the listing. |
| Matcher.LatestSurvivor | DemosToDiscord/DemoUploadService.cs:199-220 | The scan returns nothing exactly when nothing survives. Otherwise it returns the first survivor with the latest write time. |
| Matcher.FindDemo | DemosToDiscord/DemoUploadService.cs:190-235 | The result is no demo exactly when no file is eligible. Otherwise the demo is the first-latest survivor and the sidecar is what the T6 rule gives. T5 never gets a sidecar. The result equals the reference selection. |
| Matcher.SelectedMatches | DemosToDiscord/DemoUploadService.cs:199-220 | The selected file is in the listing and its name parses. Its map contains the expected map, ignoring case. Its mode equals a non-blank expected mode, ignoring case. It started neither after the report nor more than the look-back before it. No eligible file was written later. |
| Matcher.FutureStartRejected | DemosToDiscord/DemoUploadService.cs:214-217 | A recording that starts in a later minute than the report is never accepted, whatever the look-back. The report may fall on any tick within its minute. |
| Matcher.ChangeDemoExtension | DemosToDiscord/DemoUploadService.cs:228 | The sidecar of `<stem>.demo` is `<stem>.json`. |
| Matcher.ChangeExtensionEnds | DemosToDiscord/DemoUploadService.cs:228 | Changing the extension of a non-empty path ends in the new extension and keeps a prefix of the path. |
| Matcher.ReportSixMinutesLater | DemosToDiscord/DemoUploadService.cs:199-234 | A nuketown TDM report six minutes after the example recording started selects it, without a sidecar on T5. |
| Matcher.ReportBeforeRecording | DemosToDiscord/DemoUploadService.cs:214-222 | A report two hours before the example recording started selects nothing. |
| Workflow.PollAt | DemosToDiscord/DemoUploadService.cs:172-184 | Characterises `Poll` and `WaitForDemo`: the first pass that stops the loop decides the outcome. A failed loop test gives `null`, a throwing listing a fault, a found demo that demo, and a token firing in the delay a cancellation. With no such pass the deadline gives `null`. |
| Workflow.PollFirstFound | DemosToDiscord/DemoUploadService.cs:172-184 | The wait returns a demo exactly when some pass it reaches lists the folder and finds one. It then returns that pass's selection. |
| Workflow.PollCancelled | DemosToDiscord/DemoUploadService.cs:172-181 | The wait throws a cancellation only when the token fires during the delay after a reached pass that listed the folder and found nothing. The converse is `PollAt`. |
| Workflow.PollFaulted | DemosToDiscord/DemoUploadService.cs:172-197 | The wait faults only when a reached pass enters the loop body and `Directory.GetFiles` throws. The converse is `PollAt`. |
| Workflow.PollReturnsSelection | DemosToDiscord/DemoUploadService.cs:174-177 | A demo the wait returns is one of the passes' selections, sidecar included. |
| Workflow.NoSidecarOnT5 | DemosToDiscord/DemoUploadService.cs:224-231 | A wait on a T5 server never returns a sidecar, whichever pass finds the demo. |
| Workflow.HandlePenalty | DemosToDiscord/DemoUploadService.cs:82-139 | A no-demo message goes only to a handled event. Waiting for and uploading a demo, or aborting, happen only for a handled event whose demo folder exists. |
| Workflow.IgnoredIffUnhandled | DemosToDiscord/DemoUploadService.cs:87-98 | The handler returns at once, with no action, exactly when there is no client, the penalty is not a report, there is no server, or the game is neither T5 nor T6. Apart from that, no message is attempted only when an exception escapes the wait: a cancellation in the delay or a failed listing. |
| Workflow.MissingFolderNoDemo | DemosToDiscord/DemoUploadService.cs:100-106 | A handled report whose demo folder is missing gets one no-demo message naming the current map, with no polling. |
| Workflow.UploadIffLocated | DemosToDiscord/DemoUploadService.cs:108-138 | With the folder present, the handler uploads exactly when the wait returns a demo. It uploads that demo with the map read at report time. When the wait returns `null` it sends one no-demo message. When the wait throws, the handler aborts. A T5 upload carries no sidecar. |
| Workflow.WaitForMapChange | DemosToDiscord/DemoUploadService.cs:144-159 | The wait makes between 1 and 180 polls. It stops at the first poll whose map differs from the initial one, treating a missing map as `UNKNOWN`. It reports no change only after all 180 polls matched. |
| Embed.MapLabelStable | DemosToDiscord/DemoUploadService.cs:391 | The map label is never blank, and labelling it again changes nothing. |
| Embed.MapDefaultsAgree | DemosToDiscord/DemoUploadService.cs:371-391 | For the same server map, the no-demo path (default `"Unknown"`) and the upload path (default `""`, line 109) show the same label. |
| Embed.ProfileUrlShape | DemosToDiscord/DemoUploadService.cs:395-398 | A link is built exactly when the address is not blank after its trailing `/` are trimmed. It is then that address, which does not end in `/`, then `/Client/Profile/`, then the client's number. Otherwise the link is `Unavailable`. |
| Embed.ProfileUrlReadsBack | DemosToDiscord/DemoUploadService.cs:395-398 | For a usable address and any Int32 client number, the link splits back into the trimmed address, `/Client/Profile/`, and text that `int.Parse` turns into the client number. |
| Embed.EmbedsDifferOnlyInStatus | DemosToDiscord/DemoUploadService.cs:406-440 | The upload and no-demo embeds of one report differ only in the status value. Title, description, time stamp, colour, footer, the first five fields, and the status field's name and inline flag are all equal. |

## Left out

- HTTP posting, multipart assembly and JSON serialisation (`SendStartupMessageAsync`,
  `UploadAsync`, `SendNoDemoAsync`): library network calls. An upload and a no-demo
  message appear as actions.
- The copy to the temporary folder, its deletion, and failures inside `UploadAsync`. If
  `File.Copy`, a file open or the post throws, `UploadAsync` logs it and posts nothing. The
  model's `Upload` action, and `Messages`, count the message the handler attempts to post,
  not one known to arrive.
- `UploadAsync` tests `File.Exists` on the sidecar again before attaching it. A sidecar
  that vanished after selection is dropped; the model does not follow it past selection.
- Exceptions the model does not enumerate. An `UnauthorizedAccessException` from
  `WaitForFileReady`'s open, or a failed post in `SendNoDemoAsync`, which catches nothing,
  would escape the handler. A no-demo message is therefore also only attempted. Only the
  failed folder listing and the cancellation are modelled, as `Aborted`.
- Configuration values that make the waits throw. A negative `RetryIntervalSeconds` makes
  `Task.Delay` throw `ArgumentOutOfRangeException` (`DemoUploadService.cs:181`). A
  negative `PostMatchDelaySeconds` does the same at `DemoUploadService.cs:131`. Either
  exception escapes `HandlePenaltyAsync` with no message. The model has no delay values
  and takes the configured delays to be valid.
- There is no file-size stability check and no deferred cleanup of the temporary copy in
  this code, so none is modelled.
- `WaitForFileReady`: it only retries an exclusive open up to 60 times, and the upload
  follows either way. The two-second and post-match delays are left out too; they only
  postpone the upload.
- `StripColors`, the assembly version and `DateTime.UtcNow` inside `BuildEmbed`. Names
  arrive already stripped; the version and the time stamp are parameters.
- Plugin registration and configuration loading (`Plugin.cs`, `DemosToDiscordConfig.cs`).
  `MaxLookbackMinutes` is a field of the query. Its configuration comment calls it
  unused, but the window test uses it.
- `Text.ParseInt32`: the culture's sign strings are fixed to `+` and `-`. `int.Parse(string)`
  uses the current culture, and a culture with other sign strings would read signs
  differently; file-name tokens with a sign are not expected.
- `Text.ParseInt32`: trailing NUL characters, which .NET also accepts, are not modelled.
  They cannot occur in a file name. It follows .NET's `NumberStyles.Integer` rather than
  an all-digits reading; that is more permissive, e.g. ` 4` and `+4` parse.
- `Text.EqualsIgnoreCase`, `Text.ContainsIgnoreCase`: case folding is ASCII only. .NET's
  ordinal-ignore-case also folds other letters, which Dafny strings here do not model.
- `Matcher.FindDemo`: the listing is taken as `Directory.GetFiles(folder, "*.demo")`
  already gave it. Path separators follow Windows.
- `Matcher.InWindow`: `TimeSpan.TotalMinutes` is a double. The model compares exact tick
  counts, which gives the same answer while the look-back is below about fifteen million
  minutes.
- `Workflow.WaitForDemo`: the deadline `UtcNow + MaxWaitMinutes` and the token's state
  at each loop test appear per pass. A finite sequence of passes stands for the deadline
  passing at its end.
- Cancellation and listing failures: `Task.Delay(…, token)` throws when the token fires
  during a retry delay, and `Directory.GetFiles` may throw if the folder goes away.
  Either way nothing is sent, and the model's `Aborted` action posts no message. A token
  already cancelled at the loop test ends the loop with `null`, which leads to a no-demo
  message.
- The no-demo message after an unsuccessful wait reads the server's map at send time
  (`laterMap`), not at report time. An upload uses the map captured at report time.
- The embed title reads "Demo Uploaded for New Report" even on the no-demo path; the
  model keeps that.
