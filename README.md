# dobackup, modelled in Dafny

`dobackup` takes offline snapshots of DigitalOcean droplets and deletes old
ones. This project models the part of `dobackup/dobackup.py` that has
behaviour of its own and proves properties of that model:

- **Naming.** `start_backup` names a snapshot
  `<droplet name>--auto-backup--<YYYY-MM-DD HH:MM:SS>`.
  - `strftime("%Y-%m-%d %H:%M:%S")` is modelled as the format's elements written in turn (`Timestamps.Render`).
  - `strptime` is modelled as CPython's `_strptime` matches that format (`Timestamps.ParseStamp`). Its details:
    - the regular expression's alternatives for each directive;
    - the blank becomes `\s+`;
    - left-over text is an error;
    - the fields must form a valid `datetime`.
  - `str.find` returns the first occurrence (`SnapshotNames.Find`).
  - The round trip is proved exactly: the name reads back as its capture time if and only if the marker does not already occur in the droplet name followed by `--auto-backup-`. Otherwise it never reads back.
- **Retention.** `find_old_backups` is a loop over the snapshot listing (`Retention.FindOldBackups`), proved against a recursive scan function (`Retention.Scan`). `purge_backups` is a loop of destroy calls on a gateway (`Retention.PurgeBackups`).
  - The cutoff `now - timedelta(days=older_than)` is computed exactly in microseconds. A cutoff outside the range `datetime` can hold is the `OverflowError` Python raises.
  - A marked snapshot whose suffix does not parse makes the whole scan fail.
- **Backups.** The `backup` and `backup_all` branches of `run` are methods on a gateway class (`Provider.Gateway`). The class appends every provider call to its `log` field. Their postconditions give the log exactly. The lemmas then prove:
  - every snapshot request precedes every wait;
  - every issued action is waited on exactly once;
  - every droplet is powered on whatever its snapshot's outcome;
  - an empty tag match makes no call.

The provider's answers (did the snapshot complete, was the power-on accepted, was the snapshot destroyed) are a sequence `replies` fixed when the gateway is created. The call at position `k` of the log receives `replies[k]`, and a call beyond the end of `replies` receives false (`Provider.Reply`). `datetime.now()` is a parameter: a `Retention.Reading` for the cutoff, and one `DateTime` per `start_backup` for the names.

Modules:
- `Wrappers`: `Option` and `Result`.
- `Timestamps`: the calendar, second counts, `strftime` and `strptime`.
- `SnapshotNames`: the marker, `find`, the name and the suffix.
- `Provider`: droplets, snapshots, the event log and the gateway.
- `Retention`: `find_old_backups`, `purge_backups` and the `delete_older_than` branch.
- `Backup`: `start_backup`, the `backup` branch and the `backup_all` branch.

A marked snapshot whose suffix does not parse is not skipped: `strptime` is called unguarded at line 117, so its ValueError ends the scan and nothing is deleted (`Retention.ScanFailsAtFirstMalformed`).

The source returns nothing from a backup: `turn_it_on` returns None and only logs whether the power-on was accepted (lines 102-105), and `snap_done` is only logged (lines 231-232 and 247-248). `Backup.Outcome` stands for what those lines log: whether the snapshot completed and whether the power-on was accepted.

## Model

| member | source | states |
|---|---|---|
| Timestamps.TotalSeconds | dobackup/dobackup.py:110 | the seconds from 0001-01-01 of a valid datetime lie in `[0, 3652059 * 86400)`, the range `datetime` holds |
| Timestamps.DaysBeforeYearFormula | dobackup/dobackup.py:110 | the days before a year, added up year by year, equal `datetime`'s closed form `365y + y/4 - y/100 + y/400` |
| Timestamps.OrdinalBounds | dobackup/dobackup.py:110 | the day number of every valid date lies between 1 and 3652059 (9999-12-31) |
| Timestamps.EarlierIffFewerSeconds | dobackup/dobackup.py:118 | Python's field-by-field order on datetimes is the order of their second counts, and equal counts mean equal datetimes |
| Timestamps.Before | dobackup/dobackup.py:118 | Python's `<` on naive datetimes: year, month, day, hour, minute, second compared in turn |
| Timestamps.Pad | dobackup/dobackup.py:81 | a rendered field has exactly its directive's width |
| Timestamps.PadSpells | dobackup/dobackup.py:81 | a number below `10^width` renders as digits that spell that number |
| Timestamps.RenderAppend | dobackup/dobackup.py:81 | rendering two formats one after the other is rendering their concatenation |
| Timestamps.PieceText | dobackup/dobackup.py:81 | a literal writes one character, `%Y` four characters and every other directive two (what they spell is stated by `Timestamps.PadSpells`) |
| Timestamps.Render | dobackup/dobackup.py:81 | `strftime`: the elements of the format written one after another |
| Timestamps.FormatExpands | dobackup/dobackup.py:81 | `%Y-%m-%d %H:%M:%S` writes the padded year, month, day, hour, minute and second with `-`, `-`, blank, `:`, `:` between them |
| Timestamps.Format | dobackup/dobackup.py:81 | the rendering of a datetime is 19 characters long |
| Timestamps.FormatLayout | dobackup/dobackup.py:81 | the rendering of a valid datetime has its separators at positions 4, 7, 10, 13 and 16 and each field spells the matching field of the datetime |
| Timestamps.SkipSeparator | dobackup/dobackup.py:117 | `-` and `:` consume exactly one character; `\s+` consumes exactly the run of whitespace that starts there: every character skipped is the separator, and the next one is not whitespace |
| Timestamps.Field | dobackup/dobackup.py:117 | a directive that matches ends after its separator, within the text (which token it reads is stated by `Timestamps.FieldReadsToken`) |
| Timestamps.FieldUnambiguous | dobackup/dobackup.py:117 | the one-character and the two-character token of a directive cannot both be followed by the separator, so the regular expression's order of alternatives decides nothing |
| Timestamps.FieldReadsToken | dobackup/dobackup.py:117 | whichever token length is followed by the separator, the field reads that token's value and ends where that separator ends |
| Timestamps.Fields | dobackup/dobackup.py:117 | reading a pattern of directives yields one value per directive and stops within the text |
| Timestamps.ParseStamp | dobackup/dobackup.py:117 | whatever `strptime` accepts is a valid datetime; everything else is the ValueError |
| Timestamps.PaddedIsToken | dobackup/dobackup.py:117 | a zero-padded two-digit field in its directive's range is matched by that directive and denotes its number |
| Timestamps.PaddedField | dobackup/dobackup.py:117 | a zero-padded field in its directive's range followed by one separator and a digit is read as its number, ending after the separator |
| Timestamps.MiddleSpelled | dobackup/dobackup.py:117 | in a text laid out as a rendering, month, day, hour and minute are read as the fields they spell and the seconds start at 17 |
| Timestamps.ParseSpelled | dobackup/dobackup.py:117 | every text that spells a valid datetime in the `YYYY-MM-DD HH:MM:SS` layout parses as that datetime |
| Timestamps.ParseFormat | dobackup/dobackup.py:117 | `strptime` of the `strftime` rendering of a valid datetime gives that datetime back |
| Timestamps.ParsedText | dobackup/dobackup.py:117 | every text `strptime` accepts starts with a digit and consists of digits, whitespace, `-` and `:` only |
| SnapshotNames.FindFrom | dobackup/dobackup.py:115 | the search from position `i` returns the first occurrence at or after `i`, or -1 when there is none |
| SnapshotNames.Find | dobackup/dobackup.py:114-115 | `find` returns -1 exactly when the marker does not occur (`in` is false), and otherwise the position of its first occurrence |
| SnapshotNames.SnapshotName | dobackup/dobackup.py:80-81 | the generated name is the droplet name, the 15-character marker and the 19-character rendering of the capture time |
| SnapshotNames.Suffix | dobackup/dobackup.py:115 | the slice after the first marker is shorter than the name by at least the marker's length |
| SnapshotNames.MarkerPosition | dobackup/dobackup.py:114-115 | in a generated name the first marker lies within or at the end of the droplet name, and exactly at its end iff the marker does not occur in the droplet name followed by `--auto-backup-` |
| SnapshotNames.RoundTrip | dobackup/dobackup.py:114-117 | when the droplet name does not spoil the marker, reading a generated name back yields the capture time |
| SnapshotNames.RoundTripFails | dobackup/dobackup.py:114-117 | when the droplet name does spoil the marker, the suffix of the generated name never parses |
| SnapshotNames.EarlyMarkerSpoils | dobackup/dobackup.py:114-117 | what follows a marker found inside the droplet name never parses, whatever follows the real marker |
| SnapshotNames.Unparsable | dobackup/dobackup.py:117 | a text with a character outside digits, whitespace, `-` and `:`, or not starting with a digit, does not parse |
| SnapshotNames.RoundTripIff | dobackup/dobackup.py:114-117 | the generated name reads back as its capture time if and only if the marker does not occur in the droplet name followed by `--auto-backup-` |
| Provider.Gateway.TakeSnapshot | dobackup/dobackup.py:84-86 | the snapshot request is appended to the log and its action is named by the request's position in the log |
| Provider.Gateway.WaitFor | dobackup/dobackup.py:91 | the wait is appended to the log; whether the snapshot completed is the provider's reply to that call |
| Provider.Gateway.PowerOnDroplet | dobackup/dobackup.py:101 | the power-on is appended to the log; whether it was accepted is the provider's reply to that call |
| Provider.Gateway.DestroySnapshot | dobackup/dobackup.py:130 | the destroy is appended to the log; whether it succeeded is the provider's reply to that call |
| Provider.Replies | dobackup/dobackup.py:130-134 | the provider's answers to `n` consecutive calls: one per call, the answer to the call at each log position |
| Retention.FindOldBackups | dobackup/dobackup.py:108-123 | the loop returns what the scan function gives: an overflow error for an unrepresentable cutoff, the first malformed snapshot, or the expired snapshots in listing order |
| Retention.Cutoff | dobackup/dobackup.py:110 | `now - timedelta(days=older_than)` in microseconds: now itself for 0 days, earlier for a positive count and later for a negative one |
| Retention.Representable | dobackup/dobackup.py:110 | the instants from 0001-01-01 00:00:00 up to the end of 9999-12-31 that `datetime` holds; outside them the subtraction raises OverflowError |
| Retention.NowIsRepresentable | dobackup/dobackup.py:110 | every clock reading, and so the cutoff for 0 days, is an instant `datetime` holds |
| Retention.HasMarker | dobackup/dobackup.py:114 | `"--auto-backup--" in name` holds exactly when the marker occurs in the name |
| Retention.Classify | dobackup/dobackup.py:114-118 | a snapshot is unmarked exactly when its name lacks the marker, malformed exactly when it has the marker and its suffix does not parse, expired when its parsed time is before the cutoff and kept when it is not |
| Retention.Scan | dobackup/dobackup.py:112-119 | the loop's result as a function of the listing: never more snapshots than listed, and an error only for a snapshot of the listing that is judged malformed |
| Retention.OldBackups | dobackup/dobackup.py:108-123 | `find_old_backups` raises OverflowError exactly when the cutoff is outside what `datetime` holds; otherwise it is the scan against that cutoff |
| Retention.ScanErrorSticks | dobackup/dobackup.py:117 | once a prefix of the listing raises, the whole scan raises the same error |
| Retention.ScanSucceedsIff | dobackup/dobackup.py:117 | the scan raises if and only if some snapshot of the listing is malformed |
| Retention.ScanFailsAtFirstMalformed | dobackup/dobackup.py:117 | the error names the first malformed snapshot in listing order |
| Retention.ScanSelectsExpired | dobackup/dobackup.py:112-119 | a successful scan returns exactly the expired snapshots, each once, as a subsequence of the listing in listing order |
| Retention.ScanNeverSelectsUnmarked | dobackup/dobackup.py:114 | no snapshot without the marker is ever selected |
| Retention.ComparisonMatchesPython | dobackup/dobackup.py:118 | comparing microsecond counts is Python's `<` between a stamp, which has no microseconds, and the cutoff datetime |
| Retention.ClassifyGenerated | dobackup/dobackup.py:114-118 | when the droplet name does not spoil the marker (`SnapshotNames.RoundTripIff`), a snapshot named by a backup is expired exactly when its capture time is before the cutoff, and kept otherwise |
| Retention.ClassifySpoiled | dobackup/dobackup.py:114-117 | when the marker occurs in the droplet name followed by `--auto-backup-`, the snapshot its backup names is judged malformed whatever the cutoff, so the scan raises at line 117 |
| Retention.CutoffIsStrict | dobackup/dobackup.py:110-118 | when the droplet name does not spoil the marker (`SnapshotNames.RoundTripIff`), a backup stamped exactly `older_than` days before the second of the clock reading is kept exactly when the reading falls on a whole second, and expired when it has microseconds; one stamped a second earlier is always expired |
| Retention.ZeroDaysCutsAtNow | dobackup/dobackup.py:216 | `older_than = 0` is accepted and cuts at the reading of the clock |
| Retention.DestroyTraceShape | dobackup/dobackup.py:128-130 | the purge's calls are one destroy per snapshot, position by position, in input order |
| Retention.PurgeBackups | dobackup/dobackup.py:126-136 | the empty list takes the "nothing to delete" branch and calls nothing; otherwise every snapshot is destroyed once, in order, whatever each destroy answers, and the answers are recorded in order |
| Retention.DeleteOlderThan | dobackup/dobackup.py:216-220 | when the scan raises nothing is destroyed and the error escapes; otherwise exactly the selected snapshots are destroyed in order |
| Backup.StartBackup | dobackup/dobackup.py:79-87 | one snapshot-with-power-off request under the generated name is appended, and its action is returned |
| Backup.BackupDroplet | dobackup/dobackup.py:226-232 | the log grows by exactly the request, the wait on its action and the power-on; the power-on is made whatever the wait reported; the returned outcome is what the branch logs, the replies to the wait and the power-on |
| Backup.Requests | dobackup/dobackup.py:238-241 | the first phase makes one request per tagged droplet |
| Backup.RequestsShape | dobackup/dobackup.py:238-241 | the `j`-th request of the first phase is droplet `j`'s snapshot under its generated name, as action `first + j` |
| Backup.CompletionsShape | dobackup/dobackup.py:243-246 | the second phase is, droplet by droplet, the wait on that droplet's action followed by its power-on |
| Backup.CompletionsRequestNothing | dobackup/dobackup.py:243-246 | the second phase holds no snapshot request |
| Backup.BackupAllOrder | dobackup/dobackup.py:237-246 | the calls of `backup_all` are the `n` requests, then for each droplet in the same order the wait on its own action and its power-on; no tagged droplet means no call |
| Backup.NoRequestAfterWait | dobackup/dobackup.py:237-246 | no snapshot request follows a wait |
| Backup.RequestsHaveNoWaitOrPowerOn | dobackup/dobackup.py:238-241 | the first phase holds no wait and no power-on |
| Backup.CompletionsCount | dobackup/dobackup.py:243-246 | the second phase waits once on each issued action and on no other, and powers each droplet on once per time it was tagged |
| Backup.EveryDropletWaitedAndPoweredOnOnce | dobackup/dobackup.py:237-246 | whatever the outcomes, every issued action is waited on exactly once and every droplet is powered on once per time it was tagged |
| Backup.RequestAll | dobackup/dobackup.py:238-241 | the first loop appends the requests of every tagged droplet in order and pairs each action with its droplet |
| Backup.CompleteAll | dobackup/dobackup.py:243-248 | the second loop appends, for each pair in order, the wait on its action and its droplet's power-on, and records both replies |
| Backup.BackupAll | dobackup/dobackup.py:233-250 | no match calls nothing and says so; otherwise the log grows by every request and then every wait-and-power-on, and each droplet's outcome, which the source only logs, is the reply to its own wait and power-on |

## Left out

- Logging and printing (`log.*`, `print`) are output only. This includes the variables logged at line 248. After the first loop they still hold the last droplet and action of that loop, not the failed one.
- The command line (`main`, argparse) and the token file (`set_token`, `get_token`) are I/O. The model does not include the check at line 65 that a pasted token is 64 characters long.
- The remaining branches of `run` are plain calls into the `digitalocean` library:
  - `list_all` and `list_snaps`;
  - `list_tagged` and `list_tags`;
  - `tag_server` and `untag`.
- `list_older_than` (lines 222-225) runs the same scan as `Retention.FindOldBackups` and discards the result.
- `run` executes its branches one after another. A scan that raises in the `delete_older_than` branch also stops the later branches. The model gives each branch its own method and does not chain them.
- `manager.get_droplet` (lines 227, 239, 246) refetches a droplet by id. The model treats the refetched droplet as the one in hand.
- Every gateway call returns a value. In dobackup.py an exception from any library call escapes `run`: `take_snapshot` (line 84), the `snap["action"]["id"]` lookup (line 86), `wait` (line 91), `power_on` (line 101) and `destroy` (line 130). So in `backup_all` a raise at line 240 leaves the droplets already powered off neither waited on nor powered on, and a raise at line 244 leaves that droplet and every later one off. The power-on guarantees of `Backup.BackupDroplet`, `Backup.BackupAll` and `Backup.EveryDropletWaitedAndPoweredOnOnce` cover only runs in which no call raises or blocks forever.
- `snap_action.wait` polls every three seconds with no timeout. The model takes only its boolean result, with no timing.
- The `digitalocean` library and the provider are not part of this model. Every reply is an entry of a fixed sequence, taken by the call's position in the log.
- Provider.Gateway.TakeSnapshot: numbers the action by its position in the log. The provider issues its own ids, and the model assumes they are distinct.
- `datetime.now()` is a parameter, not a clock. Nothing constrains successive readings.
- Timestamps.ParseStamp: accepts only the ASCII digits `0`-`9`. Python's `\d` also matches other Unicode decimal digits.
- Timestamps.Format: pads every year to four digits. Some C libraries write years below 1000 unpadded, and years above 9999 do not exist in `datetime`.
