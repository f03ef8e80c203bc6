# HAR mock-flow server, modelled in Dafny

`server.js` replays recorded HTTP traffic. It reads a configuration with a
`hosts` list: each rule maps an origin (`url`) to a local port and a path
prefix to strip. It converts an HTTP Archive (`.har`) into groups of endpoints,
one group per port. It starts one listener per group, and it takes console
commands (`ls`, `add`, `add <name>`, `rm`, `status`, `help`) to switch between
archives.

The model is in seven modules:

| module | file | models |
|---|---|---|
| `HostMap` | `host_map.dfy` | `loadConfigOnce`'s host map: the rules inserted one after the other, `removePrefix` defaulting to "", `waittime` defaulting to 0 |
| `JsText` | `js_text.dfy` | the ECMAScript string operations the server uses: `startsWith`, `trim`, `replace` with a string pattern (first occurrence only), `parseInt(s, 10)` |
| `KeyOrder` | `key_order.dfy` | the own-key order of an ordinary object (`Object.entries`): array-index keys ascending, then the other keys in insertion order |
| `JsonValue` | `json_value.dfy` | parsed JSON values; `JSON.parse` is a parameter of type `string -> Option<Json>` |
| `HarConvert` | `har_convert.dfy` | `convertHarToApis`: origin lookup, path normalisation, body fallback, per-port buckets, output in own-key order |
| `ConsoleInput` | `console_input.dfy` | the meaning of one console line: numbered selection, the commands, the name of `add <name>` |
| `Runtime` | `runtime.dfy` | the module-level state as a class (`servers`, `activeHar`, `expectingSelection`, `harFileList`, the host map), `loadHar`, `createServer`, `stopServers` with its counting barrier, and the stdin handler |

`ConvertHarToApis`, `LoadConfigOnce`, `StartGroups` and `BuildRoutes` are loops
proved against the functions `Convert`, `BuildHostMap`, `Register`/`AddKeys`
and `RoutesOf`. What the server promises is proved about those functions as
lemmas.

A `stopServers` call returns a `StopBarrier` object. It holds the snapshot of
ports and the `closed` counter. Each listener's close completion is an
`OnClosed` event. The callback (`loadHar(name)` or the `rm` reset) runs at the
close that completes the set, and only once. It runs after `servers` has been
cleared, or at once when there were no listeners.

Three behaviours of the code are modelled as written:

- **Prefix stripping has no boundary check.** One might expect
  `removePrefix` to be removed only where it ends a path segment (followed by
  "/" or at the end of the path). The code (server.js:73-76) tests
  `startsWith` on the text alone, and the model follows the code. With prefix "v1", the pathname
  "/v123/x" becomes the route "23/x" (`HarConvert.PrefixStripWithoutBoundary`).
- **An invalid numbered choice ends selection mode.** The handler re-lists the
  files (which re-arms the selection), but then unconditionally clears
  `expectingSelection` and `harFileList` (server.js:315-318). The next line is
  therefore read as a command. `Runtime.Runtime.HandleSelection` states this.
- **A load stops the listeners before it checks the archive.** `add <name>`
  and a numbered choice call `stopServers` first (server.js:312, 335). Only
  then does `loadHar` reject a missing archive or one without endpoints
  (server.js:165-177). Such a load leaves no listener running, while
  `activeHar` still names the previous archive
  (`Runtime.RejectedLoadAfterStop`).

The class invariant `Runtime.Runtime.Valid` also records that when no archive
is active, no listener is registered. The session is reset to none only by the
`rm` callback, and that runs after `servers.clear()` or when there were no
servers (server.js:142-145, 152-157, 337-339). `loadHar` names the archive
(server.js:178) before it creates any server (server.js:204).

## Model

| member | source | states |
|---|---|---|
| HostMap.HostMapKeys | server.js:30-35 | the host map has an entry for exactly the urls of the configured rules |
| HostMap.LastRuleWins | server.js:30-35 | an origin maps to the port of the last rule with that url, with `removePrefix` defaulted to "" |
| Runtime.Runtime.constructor | server.js:16-38 | process start: no listeners, no active archive, selection off; then the single configuration load (no file: empty host map, wait time 0) |
| Runtime.Runtime.LoadConfigOnce | server.js:25-36 | does nothing when the host map already has an entry or there is no configuration; otherwise the host map is the rules inserted in order and the wait time is `waittime` or 0 |
| HarConvert.NormalizePathRebuild | server.js:72-76 | the route path is the pathname minus at most one leading "/", then (on a prefix match) minus the prefix and at most one following "/": pathname = lead + prefix + "/"? + route |
| HarConvert.NormalizePathNoPrefix | server.js:72-73 | with an empty prefix only one leading "/" is removed ("//x" gives "/x") |
| HarConvert.PrefixStripWithoutBoundary | server.js:72-76 | the prefix test is textual: "v1" strips "/v1/x" to "x" and "/v123/x" to "23/x" |
| HarConvert.BodyCases | server.js:78-83 | a missing or empty text gives the parse of "{}"; a parsable text gives its parse; an unparsable text gives `{ raw: text }` |
| HarConvert.ConvertHarToApis | server.js:57-97 | the loop's result is the conversion `Convert`: no file gives []; otherwise the groups of the mapped entries in own-key order |
| HarConvert.ObjectEntries | server.js:93-96 | as many groups as keys, each on a key and holding that key's endpoints; every key has a group; with distinct keys no key has two groups, and array-index keys come first in ascending order |
| HarConvert.TableEntriesAreGroups | server.js:61-96 | a table holding the bucket of every first-seen port, listed by `Object.entries`, is the list of groups |
| HarConvert.FirstSeenPorts | server.js:85 | a bucket is created once per mapped port, and only for mapped ports |
| HarConvert.BucketNonEmpty | server.js:85-90 | a port's bucket is non-empty exactly when some entry maps to that port |
| HarConvert.BucketAppend | server.js:64-91 | buckets keep archive order: the bucket of a concatenation is the concatenation of the buckets |
| HarConvert.GroupsPartition | server.js:57-97 | one group per distinct mapped port, none for any other port, no group empty, and each group holds exactly its port's endpoints in archive order |
| HarConvert.GroupsOrder | server.js:93-96 | groups whose port is an array index come first, in strictly ascending port order; when every mapped port is one, the whole list is ascending |
| HarConvert.UnmappedEntryIgnored | server.js:68-69 | removing an entry whose origin is not in the host map changes no group |
| HarConvert.MappedEntryLands | server.js:85-90 | a mapped entry's endpoint is in its port's group, after the endpoints of the earlier entries mapped to that port |
| HarConvert.SingleEntryExample | server.js:57-97 | an archive with one GET to a mapped origin with prefix "v1" gives one group on the rule's port, holding "users/42" with the parsed body |
| KeyOrder.Sort | server.js:93 | the array-index keys are put in ascending order, as a permutation |
| KeyOrder.OwnKeysOrder | server.js:93 | keys inserted without repetition come out all, once each: the array indices strictly ascending, then the other keys in insertion order |
| KeyOrder.OwnKeysIndexFirst | server.js:93 | in own-key order an array index is preceded only by smaller array indices |
| KeyOrder.OwnKeysAscending | server.js:93 | when every key is an array index, own-key order is strictly ascending |
| JsText.TrimShape | server.js:304 | `trim` gives an infix of the line, with only white space cut from either end |
| JsText.TrimEnds | server.js:304 | a trimmed line neither starts nor ends with white space |
| JsText.TrimIdempotent | server.js:304 | trimming twice is trimming once |
| JsText.TrimKeepsNonSpace | server.js:304 | a line holding a non-space character does not trim to "" |
| JsText.IndexOf | server.js:333 | the pattern occurs at the index found and at no earlier index; None means it occurs nowhere |
| JsText.ReplaceLeading | server.js:333 | on a string that starts with the pattern, `replace(pat, "")` removes exactly that leading copy |
| JsText.ParseIntShowNat | server.js:308 | `parseInt` reads back a printed index, ignoring a non-digit tail ("12abc" gives 12) |
| JsText.ParseIntNaN | server.js:308-309 | a line starting with neither space, sign nor digit is NaN |
| ConsoleInput.HarNamesFilter | server.js:234-237 | the archive names are exactly the listed names ending in ".har" |
| ConsoleInput.HarNamesAppend | server.js:236 | the filter keeps listing order: filtering a concatenation concatenates the filtered parts |
| ConsoleInput.SelectionByIndex | server.js:308-310 | typing the printed index `n` selects `list[n - 1]` exactly when 1 <= n <= length |
| ConsoleInput.SelectionAccepted | server.js:308-310 | a choice is accepted iff it parses to a number in 1..length, and an accepted choice names a listed file |
| ConsoleInput.AddNameOfCommand | server.js:331-333 | for `add <name>` the archive name is the rest of the line after "add ", trimmed |
| ConsoleInput.AddNameNonEmpty | server.js:331-333 | a trimmed `add ` line with more text names a non-empty archive |
| ConsoleInput.SelectionModeReadsChoices | server.js:306-320 | in selection mode every line is a choice: the printed index selects its file, and "rm" is an invalid choice |
| Runtime.RoutesOf | server.js:188-191 | one route per endpoint, in endpoint order, with path "/" + the endpoint's path |
| Runtime.BuildRoutes | server.js:188-202 | the route-registering loop yields the routes of the endpoints in order |
| Runtime.AddKeysFacts | server.js:137 | `servers.set` keeps the earlier keys in place, appends each new port, adds nothing else and never duplicates |
| Runtime.AddKeysFresh | server.js:183-205 | registering distinct ports into an empty registry lists them in group order |
| Runtime.RegisterFacts | server.js:183-205 | each group's port serves that group's routes; other ports keep what they had |
| Runtime.Runtime.CreateServer | server.js:137 | the port is registered (appended if new) with the application's routes |
| Runtime.Runtime.LoadHar | server.js:163-209 | a missing archive or one without endpoints changes nothing; otherwise it becomes the active archive and every group's port is registered with its routes |
| Runtime.Runtime.StartGroups | server.js:183-205 | every group is registered, in group order, with its routes in endpoint order; the registry stays duplicate-free |
| Runtime.RejectedLoadAfterStop | server.js:163-177 | after a completed stop, loading a missing archive or one without endpoints leaves no listener and the previous archive still active |
| Runtime.Runtime.Finish | server.js:337-344 | the stop callback: `rm` resets the active archive to none, `add` runs `loadHar` |
| Runtime.Runtime.ClearServers | server.js:152 | the registry is emptied |
| Runtime.Runtime.StopServers | server.js:140-161 | snapshots the ports into a fresh barrier; with no listeners the callback has run; otherwise nothing has changed yet |
| Runtime.StopBarrier.constructor | server.js:141-146 | the barrier starts with no close seen, and counts as fired only when there is nothing to wait for |
| Runtime.StopBarrier.OnClosed | server.js:147-159 | each close is counted once; the callback runs exactly at the close that completes the set, after the registry is cleared, and never twice |
| Runtime.Runtime.ListHarFilesNumbered | server.js:257-272 | arms the selection over the archive names, or turns it off when there are none |
| Runtime.Runtime.HandleInput | server.js:303-350 | the line is trimmed and classified; a valid choice or `add <name>` stops and then loads, `rm` stops and then clears, `add` arms the selection, anything else changes no state |
| Runtime.Runtime.HandleSelection | server.js:307-319 | a choice in 1..length stops and then loads the chosen file; any other line stops nothing; either way selection mode ends with an empty list |
| Runtime.Runtime.HandleCommand | server.js:322-349 | the command branch: `add <name>` and `rm` hand their callback to `stopServers`, `add` lists the files, the rest changes nothing |

## Left out

- HTTP serving is not modelled: Express dispatch, CORS, the JSON body limit, lowercasing the method, and sending the canned response. A listener is modelled by the routes registered on its application.
- `listen`, TLS certificate selection and asynchronous listener errors (`EADDRINUSE`, reported through the `error` event) are not modelled. They are I/O, and they do not change the registry.
- `setTimeout` is not modelled. The wait time is stored, but the response delay is a timer.
- URL parsing is abstracted. Each archive entry carries its origin (`protocol//host`) and pathname already split.
- `JSON.parse` and the YAML loader are parameters. The archive and the configuration arrive already parsed, and `JSON.parse` is a function `string -> Option<Json>`.
- JSON numbers are integers. Floating point is not modelled.
- Filesystem access is a parameter (`HarsDir`): existence checks, `readdirSync` order, and `path.join` normalisation of the archive name.
- Logging, `console.log` text, `showStatus`, `showHelp` and `listHarFiles` are not modelled. They only print.
- The model's conversion and `loadHar` are total, but the source throws in five cases:
  - `JSON.parse` rejects the archive file (server.js:59).
  - `new URL` rejects an entry's `request.url` (server.js:66). This happens before the host-map lookup, so even an entry from an unmapped origin aborts the whole conversion rather than being dropped.
  - An entry has no `response.content` (server.js:80 throws inside the `try`, and server.js:82 throws again in the `catch`).
  - An endpoint's method has no Express router function, such as a custom method "FOO" (server.js:193). `app[methodLower]` is undefined, and calling it throws a TypeError inside `loadHar`.
  - A configured port lies outside 0..65535 or is not an integer. `server.listen` (server.js:116) throws at once, before `servers.set` (server.js:137), so the port is never registered.

  The exception escapes the console handler, or the stop callback after `servers` has already been cleared (server.js:152), and ends the process. The model assumes that:
  - `HarsDir.archives` holds only archives that parse;
  - every `HarEntry` carries a valid origin, response text (possibly missing) and a method Express knows;
  - every port in the host map lies in 0..65535.
- Runtime.Runtime.CreateServer: registers any integer port. The source crashes at `listen` for a port outside 0..65535, never registering it. `KeyOrder` orders negative keys and keys of 2^32 - 1 or more, but such ports never get that far in the source.
- Runtime.Runtime.LoadHar: loads any archive whose groups it is given. The source throws part-way for a port outside 0..65535 or an endpoint method Express does not know, as listed above.
- Other malformed inputs are not modelled: entries without `request` or `response`, a configuration that parses to null, non-string urls, and non-number ports. The source throws or stringifies these.
- HarConvert.ConvertHarToApis: keeps each group's port as the integer from the host map. It does not model the round trip through the object's string key and `parseInt`. That round trip is the identity for integer ports below 10^21, which includes every port that can be bound.
- JsText.ParseInt: returns a mathematical integer where `parseInt` returns a double. Digit strings beyond 2^53 lose precision in the source.
- A stdin `data` chunk is taken to be one line. Chunks holding several lines are not split.
- Runtime.StopBarrier.OnClosed: models close completions of the snapshot ports only. Interleavings with a second `stopServers` or `loadHar` running before the barrier completes are left to the caller's order of events.
