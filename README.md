# iBeacon presence engine, in Dafny

A model of the presence-tracking engine of `ibeacon_server.py`, the TuneDawg iBeacon server.
The server reads one sighting per line from a beacon scanner (`<uuid> <major> <minor> <power>`).
It looks up the minor id in a registry built from the dog roster, and keeps a dictionary from
dog name to last-seen epoch second. When a dog first appears, the server sets `IsHere = True`
on the dog's store record. After every non-empty line that parses, it sweeps away the dogs not seen for
`timeToCountAbsent` seconds, and writes the sentinel `"nil"` for each one.

Files, one module each:

- `common.dfy` (`Common`): `Option`, `Result`, duplicate-free sequences and their size.
- `ping.dfy` (`Ping`): `str.split(' ')` and its inverse `' '.join`, `str.rstrip()`, and the
  `BeaconPing` parse.
- `registry.dfy` (`Registry`): `build_dawg_name_map`, as a loop over the roster.
- `presence.dfy` (`Presence`): the tracker as values. It holds the effect of one ping
  (`MarkMinor`), what a sweep keeps and removes (`Kept`, `Expired`), and the store's write log.
  It also defines the invariant that the store mirrors the tracker: a dog is in the office
  exactly when the last write for it set `IsHere = True`.
- `server.dfy` (`Server`): the class `BeaconServer`. Its fields are `dawgsInOffice`,
  `unknownDawgs`, the store writes and the log. Its methods are proved against `Presence`, and
  the mark, sweep and line-handling methods each keep `Valid()`. `Valid()` says that every present dog is a registered name, that the
  unknown ids are distinct and unregistered, and that the store mirrors the tracker.

The store is a sequence of writes `StoreWrite(name, flag)`; `flag` is `HereTrue` or `HereNil`.
The log is a sequence of `LogEvent`s. The two clock readings of a run-loop turn are parameters:
`pingTime` for line 61 and `sweepTime` for line 73.

Behaviour of this revision of the server that the model keeps as written:

- Lines are split on the single space character, not on any whitespace. Two adjacent spaces
  give an empty field.
- There is no major-id filter. `TUNE_DAWG_MAJOR_ID` is declared and never used.
- There is no notifier, no periodic restart and no reset of all flags at start-up.
- A line that does not parse is not dropped. The index error escapes `start`, and the
  top-level handler shuts the server down. `HandleLine` returns `Fatal`, with no state
  change and no sweep.
- `if output:` is tested before `rstrip()`. So a line of whitespace reaches the parser as
  the empty string and is fatal (`BlankLineIsFatal`).
- Absence is written as the string `"nil"`, not as `False`.

## Model

| member | source | states |
|---|---|---|
| `Ping.Split` | ibeacon_server.py:20 | splitting on `' '` gives one more piece than there are spaces, and no piece contains a space |
| `Ping.JoinSplit` | ibeacon_server.py:20 | joining the pieces with single spaces gives back the line |
| `Ping.SplitJoin` | ibeacon_server.py:20 | space-free pieces joined with single spaces split back into exactly those pieces |
| `Ping.Parse` | ibeacon_server.py:19-24 | the parse succeeds iff the line has at least three spaces (four pieces); otherwise it is the index error, carrying the number of pieces |
| `Ping.ParseFields` | ibeacon_server.py:19-24 | a parsed ping's four fields are space-free, and written back with single spaces they are a prefix of the line, which then ends or continues with a space (extra pieces ignored) |
| `Ping.ParseFormat` | ibeacon_server.py:19-24 | four space-free fields written with single spaces, optionally followed by a space and anything, parse back to exactly those fields |
| `Ping.RStrip` | ibeacon_server.py:88 | the result is the longest prefix of the line that does not end in whitespace: a prefix, not ending in whitespace, with only whitespace removed |
| `Registry.BuildDawgNameMap` | ibeacon_server.py:36-45 | the keys are exactly the minor ids the roster declares; each maps to an entry declaring it; no entry without a minor id is a value; the reported entries are exactly those without a minor id, once each |
| `Presence.MarkMinor` | ibeacon_server.py:56-65 | the effect of one parsed ping: a registered minor id puts its dog in the office stamped with `now`, an unregistered one leaves the dictionary as it was; at most one store write, and it sets `IsHere = True`; the unknown list is unchanged or gains the minor id at its end |
| `Presence.Kept` | ibeacon_server.py:74-80 | the entries the sweep keeps are among the present ones (exactly which, with their timestamps, in `SweepPartition`) |
| `Presence.Expired` | ibeacon_server.py:74-80 | the names the sweep marks absent are among the present ones (that they are exactly the ones past the threshold, in `SweepPartition` and `SweepBoundary`) |
| `Presence.MarkWritesOnArrival` | ibeacon_server.py:56-60 | a ping writes to the store iff its minor id is registered and the dog is absent, and then writes exactly one `IsHere = True` for that dog |
| `Presence.MarkTimestamps` | ibeacon_server.py:56-61 | a registered ping adds its dog (if absent) and stamps it with `now`; every other entry keeps its timestamp; an unregistered ping leaves the dictionary alone |
| `Presence.MarkRecordsUnknown` | ibeacon_server.py:62-65 | an unregistered minor id is appended and logged only the first time; when it is already recorded nothing is logged or written; a registered id never enters the unknown list |
| `Presence.MarkTwice` | ibeacon_server.py:56-65 | the same ping twice in a row: the second one writes nothing, logs nothing and adds no entry |
| `Presence.MarkKeepsConsistent` | ibeacon_server.py:56-65 | a ping keeps present names registered and unknown ids distinct and unregistered |
| `Presence.MarkKeepsMirror` | ibeacon_server.py:58-61 | after a ping the store still mirrors the tracker |
| `Presence.LastFlagAppend` | ibeacon_server.py:67-70 | a later write to a record overrides earlier ones |
| `Presence.LastFlagNilWrites` | ibeacon_server.py:78-81 | after the sweep's writes, a name's last flag is `"nil"` exactly when it was swept |
| `Presence.SweepPartition` | ibeacon_server.py:74-80 | the sweep splits the present dogs into kept ones, with unchanged timestamps, and removed ones |
| `Presence.SweepBoundary` | ibeacon_server.py:77-78 | a dog last seen exactly `timeToCountAbsent` seconds ago is removed (inclusive threshold) |
| `Presence.SweepIdempotent` | ibeacon_server.py:72-81 | a second sweep at the same time removes nothing and keeps the same dictionary |
| `Presence.SweepMonotonic` | ibeacon_server.py:77-78 | a sweep at a later time removes at least the dogs an earlier one would |
| `Presence.SweepKeepsConsistent` | ibeacon_server.py:74-80 | the sweep keeps present names registered |
| `Presence.SweepKeepsMirror` | ibeacon_server.py:78-81 | writing `"nil"` once for each removed dog, in any order, keeps the store mirroring the tracker |
| `Server.BeaconServer.constructor` | ibeacon_server.py:27-34 | empty presence state and no writes; the registry is built from the roster; one warning per roster entry without a minor id |
| `Server.BeaconServer.UpdateDawgInOfficeStatus` | ibeacon_server.py:67-70 | one put of the dog's record with the new `IsHere`, appended to the store's writes |
| `Server.BeaconServer.MarkDawgInOffice` | ibeacon_server.py:52-65 | returns the parse; a failed parse changes nothing; otherwise the state, writes and log become those of `MarkMinor`; `Valid()` is kept |
| `Server.BeaconServer.CheckForAbsentDawgs` | ibeacon_server.py:72-81 | the dictionary becomes the kept entries; returns each expired name exactly once; one `"nil"` write and one log line per name, in visiting order; `Valid()` is kept |
| `Server.BeaconServer.HandleLine` | ibeacon_server.py:85-94 | an empty read does nothing; otherwise the stripped line is echoed in verbose mode, then either parsing fails fatally with nothing changed, or the ping is marked and then a sweep runs, with the combined state, writes and log |
| `Server.BlankLineIsFatal` | ibeacon_server.py:86-88 | a non-empty line of whitespace passes the `if output:` guard, strips to the empty string and fails to parse |
| `Server.ParsesSighting` | ibeacon_server.py:19-24 | a line `UUID 1 <minor> -59` with a trailing newline, for any space-free minor id, strips and parses to its four fields |
| `Server.RexScenario` | ibeacon_server.py:52-81 | Rex (minor id 12, threshold 100 s) seen at t = 0, then a line from unregistered id 99 at t = 150: the store gets `True` then `"nil"` for Rex, 99 is recorded once, and the log reads arrival, unknown, absent |

## Left out

- The store client (the module-level Firebase singleton, lines 10 and 16): its network get and
  put are a write log. A `get` that returns nothing for a deleted dog, and network errors, are
  not modelled.
- The scanner process (lines 84-86 and 96-103: `Popen`, `poll`, `readline`, `kill`,
  `sys.exit`) is OS process I/O. One loop turn is `HandleLine`. The shutdown after a `Fatal`
  line is not modelled.
- Log formatting, timestamps and the log file (lines 29 and 47-50). The log is a sequence of
  events, kept apart from the store writes. So the order between a log line and a store write
  is not captured.
- The clock (`time.time()` at lines 61 and 73) is replaced by parameters.
- Command-line parsing and top-level exception handling (lines 105-143), including the
  `int()` conversion of `-a`.
- Roster attribute values are text. A minor id stored as a number would never equal a ping's
  text minor id; this is not modelled.
- Python 2 byte strings are `seq<char>`.
- Registry.BuildDawgNameMap: when two entries share a minor id, the contract says only that
  the id maps to one of them, because the order in which the roster dictionary is visited is
  unspecified.
- The notifier, the major-id filter and the periodic restart do not exist in this revision of
  the server, so they are not modelled.
