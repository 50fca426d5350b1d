# ModbusTCPClient polling loop, modelled in Dafny

This project models the core of `modbus.py`, which holds two pieces:

- `ModbusClient.read` polls a list of Modbus TCP meters. For every configured point it reads a block of holding or input registers, decodes it and scales it. It keeps an error table (`self.error`) keyed by a composite point key or by a meter's ip address. It fills the caller's `tags` dictionary with one result dictionary per meter. It puts progress messages on a status queue. It honours a cancellation event before each meter, before each point and after each meter. At the end it sets `self.health` to the number of errors.
- `progressString` builds the fixed-width text progress bar that `read` queues.

There are four modules, one per file:

- `progress.dfy`, module `Progress`: `progressString` as a pure function, with lemmas on its shape. These are the bar width, where the hashes are, the layout of the result, and the printed percentage reading back as the number.
- `fleet.dfy`, module `Fleet`: the data `read` works on and a functional description of it.
  - `TryPoint` is the body of the per-point `try`.
  - `PointStep` and `ReadPoints` are one pass and the whole loop over one meter's points.
  - `MeterStep` and `ReadMeters` are one pass and the whole loop over the meters.
  - `Read` is the whole call.
- `read_properties.dfy`, module `ReadProperties`: properties of `read`, proved about the functions in `Fleet`. They cover the error table, the caller's `tags`, the progress messages, cancellation and scenarios.
- `client.dfy`, module `Modbus`: the class `ModbusClient` with the fields `meters`, `health`, `error` and `status`. `Read` is an imperative method with loops, which updates the client's fields, the caller's `tags` (`TagTable`) and the queue (`StatusQueue`) in place. Each of its methods is proved to produce the new state that the matching `Fleet` function describes. The point and meter loops are split into one method per pass.

Two oracles stand in for the outside world:

- **Network session and payload decoder.** `respond(j, k)` is the `Response` that the k-th point of the j-th meter receives. It is one of:
  - a register block, with what decoding it yields (a value, or an exception);
  - an error response, with which of the four `isinstance` tests it matches first;
  - an exception raised by the read call itself (for example, when the connection could not be opened).
- **The `threading.Event`.** `Cancel` says what each successive `is_set()` call returns: `Never`, or `AfterChecks(n)` (false for the first `n` calls, true from then on).

The scaled value `val*scale` is a `real` product (`Fleet.Scaled`). Error keys are strings built exactly as the source builds them. So collisions between keys that the source allows are also possible in the model.

## Model

| member | source | states |
|---|---|---|
| Progress.Repeat | modbus.py:131-132 | `c * n` has `max(n, 0)` characters, all equal to `c` |
| Progress.Bar | modbus.py:128-132 | the bar holds `Clamp(left) + Clamp(width - left)` characters; position k is `#` exactly when k < `width*percent//100`, and a space otherwise |
| Progress.BarWidth | modbus.py:128-132 | for 0 <= percent <= 100 and width >= 0, `left` lies in 0..width and the bar is exactly `width` characters |
| Progress.NatToString | modbus.py:133 | the decimal text of a natural number is non-empty, all digits, with no leading zero |
| Progress.IntToString | modbus.py:133 | the printed percentage starts with '-' exactly when it is negative |
| Progress.NatToStringRoundTrip | modbus.py:133 | the digits of a natural number read back as that number |
| Progress.IntToStringRoundTrip | modbus.py:133 | the printed percentage reads back as the same integer |
| Progress.ProgressString | modbus.py:127-134 | the result starts with the label and `": ["`, ends with `"%"` and `end`, and is at least six characters longer than the label and `end` together (`": ["`, `"]"`, at least one digit and `"%"`) |
| Progress.ProgressStringLayout | modbus.py:127-134 | the result is the label, `": ["`, exactly `width` bar characters (hashes first, then spaces), `"]"`, the decimal text of `percent` (which reads back as `percent`), `"%"` and `end` |
| Progress.ReadingProgressIsEmptyBar | modbus.py:32 | for i < num_meters, `progressString(int(i/num_meters), 40, "Reading")` is an empty 40-space bar at 0% |
| Fleet.CompositeKey | modbus.py:76 | the key of a point holds at least three spaces (one between each of uuid, ip, item and register) |
| Fleet.Reason | modbus.py:80-88 | the `reason` text is missing (stays the list `[]`) exactly when no `isinstance` test matched |
| Fleet.TryPoint | modbus.py:66-115 | an unknown registerType raises and changes nothing. An error response sets the composite key to `True`, adds no value, and raises exactly when no exception class matched. A register block removes the composite key; it stores `value*scale` under the point's name exactly when decoding succeeds and the type is known, and raises otherwise. A raising read call changes nothing. No key other than the composite key is touched. The body raises exactly when `Raises` holds: unknown registerType, a raising read, an unmatched error response, a raising decoder or an unknown type string |
| Fleet.PointStep | modbus.py:44-118 | one pass over a point makes exactly one `is_set()` call and advances to the next point exactly when the loop goes on |
| Fleet.ReadPoints | modbus.py:43-118 | the loop over a meter's points never moves back in points or in `is_set()` calls |
| Fleet.MeterStep | modbus.py:25-123 | one pass over a meter either halts without storing that meter, or stores it and moves on; the number of meters contacted never decreases |
| Fleet.ReadMeters | modbus.py:25-123 | the loop over the meters never decreases the numbers of meters stored and contacted, stores no more meters than there are, and ends halted or after the last meter |
| Fleet.Read | modbus.py:16-125 | `read` ends either because the event stopped it or after storing every meter |
| Fleet.ProgressMessage | modbus.py:32 | every queued message starts with the `m|` tag followed by `"Reading: ["` |
| Fleet.ReadingMessageIsBanner | modbus.py:23-33 | every message `read` queues is `"m|Reading: ["` + 40 spaces + `"]0%"` |
| ReadProperties.PointStepErrorFrame | modbus.py:76-117 | one pass over a point may remove only its own composite key, and changes no key other than that key and the meter's ip |
| ReadProperties.ReadPointsErrorFrame | modbus.py:43-118 | the same holds for the whole loop over a meter's points |
| ReadProperties.FirstFailure | modbus.py:66-118 | the index found is the first point from `k` on whose `try` body raises (`Raises`), or the number of points when none does |
| ReadProperties.CollectedKeys | modbus.py:90-115 | the names `Collected` stores are those already there and those of the points that were read and decoded without error, and no others |
| ReadProperties.CollectedOnlySuccesses | modbus.py:90-115 | every value `Collected` stores is `value*scale` of a point with that name, among the points gone through, that was read and decoded without error |
| ReadProperties.CollectedUntouched | modbus.py:115 | an entry whose name no point in the range has is left as it was |
| ReadProperties.CollectedValue | modbus.py:115 | when point names are distinct, each point read and decoded without error has its own `value*scale` under its name |
| ReadProperties.PointStepCollects | modbus.py:90-118 | one pass that goes on adds the point's value exactly when it succeeded; a pass that ends the loop leaves `meter_tags` as it was |
| ReadProperties.CollectsGo | modbus.py:43-118 | a pass that goes on, followed by the rest of the loop, stores what `Collected` gives from this point |
| ReadProperties.ReadPointsCollects | modbus.py:43-118 | the points loop leaves in `meter_tags` exactly what the reference definition `Collected` gives for the points it went through |
| ReadProperties.ReadPointsStopsAtFailure | modbus.py:43-121 | when the check after the points loop does not see the event, the loop ended at the first point that raises, or after the last point |
| ReadProperties.ReadPointsOnlySuccesses | modbus.py:90-115 | every entry of `meter_tags` is `value*scale` of a point with that name, among those the loop went through, that was read and decoded without error |
| ReadProperties.ReadPointsKeepsSuccesses | modbus.py:90-115 | conversely, every point the loop went through that was read and decoded without error has its name in `meter_tags`, with its own value when names are distinct; no earlier entry is dropped |
| ReadProperties.PointRaises | modbus.py:91-118 | a point whose `try` raises ends the meter there. The exception is stored under the ip, `meter_tags` is kept, a composite key already popped stays removed, and every other key is unchanged |
| ReadProperties.PointStepExit | modbus.py:116-118 | a pass that ends the loop without seeing the event has stored an exception under the meter's ip |
| ReadProperties.ReadPointsExit | modbus.py:43-118 | the points loop ends at the last point; or at the first check that sees the event, which is its last check; or with an exception stored under the ip |
| ReadProperties.ReadPointsIgnoresLaterPoints | modbus.py:44-118 | the points after the one where the loop stopped are never read: the result does not depend on their responses |
| ReadProperties.ReadPointsKeyFrame | modbus.py:43-118 | a key that no point from the current one on uses, and that is not the meter's ip, keeps its presence and value through the rest of the points loop |
| ReadProperties.PointStepErrorKey | modbus.py:76-92 | after a pass that goes on, the point's composite key is present exactly when the point got an error response |
| ReadProperties.ReadPointsErrorKeys | modbus.py:43-118 | self-healing: after the points loop, the composite key of each point it went past is present exactly when that point's read got an error response, when the meter's keys are distinct and differ from its ip |
| ReadProperties.ReadPointsFailedKey | modbus.py:66-118 | for the point whose `try` raised (event not seen): a known register type with an error response leaves its key present, one with a register block leaves it absent, and otherwise the key is as it was before the loop |
| ReadProperties.ReadPointsLaterKeys | modbus.py:43-118 | the composite keys of the points after the one where the loop stopped are present exactly when they were before the loop: those points are never read |
| ReadProperties.PointsOfFramesErrors | modbus.py:43-118 | the points loop of `read` touches only its meter's error keys |
| ReadProperties.PointsOfStopsOnEvent | modbus.py:44-45 | the points loop of `read` stops at the first check that sees the event |
| ReadProperties.ZeroMessages | modbus.py:32 | the queue `Messages` defines for a run of 0% percentages is all empty bars |
| ReadProperties.MeterStepOutline | modbus.py:25-121 | a pass over a meter halts exactly when a check saw the event, with at most one check after the first such check. Otherwise it contacts the meter with one 0% message and stores it, unless it halts |
| ReadProperties.ReadMetersOutline | modbus.py:25-121 | the meters loop contacts at most one meter it does not store, queues one 0% per meter contacted, halts exactly when the event was seen, and otherwise stores every meter |
| ReadProperties.MeterStepTags | modbus.py:120-123 | a pass over a meter leaves `tags` alone, or sets `tags[uuid]` to a dictionary holding `measure_name` |
| ReadProperties.MeterResultEntries | modbus.py:115-122 | a meter's result holds `measure_name` = its type; its other names are exactly those of the points read and decoded without error before the first point that raises; each entry is such a point's value, and its own value when names are distinct |
| ReadProperties.MeterStepStores | modbus.py:43-123 | a pass that stores a meter sets `tags[uuid]` to exactly `MeterResult`. This holds also when a point raised part way |
| ReadProperties.ReadMetersTags | modbus.py:122-123 | the meters loop adds or overwrites only the uuids of the meters it stores, and leaves every other entry untouched |
| ReadProperties.ReadMetersMeasureNames | modbus.py:122-123 | every meter the loop stores has a `measure_name` entry |
| ReadProperties.ReadMetersResults | modbus.py:25-123 | every meter the loop stores holds exactly `MeterResult` at the end, unless a later stored meter shares its uuid |
| ReadProperties.ReadMetersErrorFrame | modbus.py:79-117 | the meters loop removes only composite keys of configured points and changes no key that is neither such a key nor a meter's ip |
| ReadProperties.ReadMetersKeyFrame | modbus.py:25-123 | the meters loop leaves alone a key that no meter it contacts uses as a composite key or ip |
| ReadProperties.MeterStepErrorKeys | modbus.py:25-123 | a pass that stores a meter with distinct keys leaves the keys of its points before the first raising point present exactly after error responses, and the raising point's key as its response says |
| ReadProperties.StoredMeterErrorKeys | modbus.py:25-123 | the keys of a meter stored by one pass stay as `MeterStepErrorKeys` says when no later contacted meter uses them |
| ReadProperties.ReadMetersErrorKeys | modbus.py:25-123 | every stored meter with distinct keys that no later contacted meter uses ends the loop with its composite keys as its points' responses say |
| ReadProperties.ReadMetersInterruptedErrorKeys | modbus.py:25-121 | the meter the event interrupts after its points loop (contacted, not stored) has the composite key of each point its loop went past exactly when that point got an error response |
| ReadProperties.ReadMetersAgree | modbus.py:25-123 | two points loops that agree on every contacted meter give the same run |
| ReadProperties.ReadOutline | modbus.py:23-121 | `read` queues (as `Messages` defines the queue) one empty-bar 0% message per meter contacted. The stored meters are followed by at most one meter contacted but not stored. `read` stops early exactly when the event is seen, and without the event it stores every meter |
| ReadProperties.ReadTags | modbus.py:122-125 | `read` changes `tags` only at the uuids of the meters it stores, each of which gets `measure_name`; the caller's other entries are untouched |
| ReadProperties.ReadStoredResults | modbus.py:25-123 | after `read`, `tags[uuid]` of a stored meter that no later stored meter shares a uuid with is exactly that meter's successful point values before its first failing point, plus `measure_name` |
| ReadProperties.ReadErrorFrame | modbus.py:79-117 | `read` removes only composite keys of configured points and changes no other key except meters' ips |
| ReadProperties.ReadErrorKeys | modbus.py:16-125 | self-healing of the error table after `read`: for each stored meter with distinct keys not used by a later contacted meter, a point before its first raising point has its composite key exactly when its read got an error response (no stale entry after a successful read); the raising point's key is present after an error response and absent after a register block |
| ReadProperties.ReadInterruptedErrorKeys | modbus.py:16-125 | self-healing after `read` for the meter the event interrupted after its points loop: with distinct keys that differ from its ip, the key of each point its loop went past (up to `reached`, where the loop variable `item` was left) is present exactly when that point's read got an error response |
| ReadProperties.AddressKeysSurvive | modbus.py:76-117 | an error key without three spaces (an ip) present before `read` is present after it, since no composite key has fewer than three |
| ReadProperties.ReadIgnoresLaterMeters | modbus.py:26-121 | no meter after the one where `read` stopped is contacted: the result does not depend on later meters' responses |
| ReadProperties.CancelledBeforeStart | modbus.py:26-27 | an event already set: nothing queued, contacted or stored, and the error table unchanged |
| ReadProperties.UnreachableMeter | modbus.py:31-123 | a meter whose first read raises gets the exception under its ip and is still stored, with `measure_name` alone |
| ReadProperties.ErrorThenSuccess | modbus.py:76-115 | an error response followed by a success: only the second value is kept, and only the first key is added |
| Modbus.StatusQueue.Put | modbus.py:32 | `q.put` appends the message at the end |
| Modbus.ModbusClient.constructor | modbus.py:9-14 | `health` is 0, the error table is empty, `status` is "init", and the meters are the configured ones |
| Modbus.ModbusClient.TryRead | modbus.py:66-115 | the imperative `try` body leaves the error table, status and `meter_tags` that `TryPoint` gives, and returns the failure it raised; `health` is unchanged |
| Modbus.ModbusClient.ReadPoint | modbus.py:44-118 | one imperative pass over a point gives exactly the state `PointStep` gives, leaving `health` unchanged |
| Modbus.ModbusClient.ReadMeterPoints | modbus.py:43-118 | the imperative points loop ends in exactly the state `ReadPoints` gives, leaving `health` unchanged |
| Modbus.ModbusClient.ReadMeter | modbus.py:25-123 | one imperative pass over a meter gives exactly the state `MeterStep` gives, and queues its messages after those already sent, leaving `health` unchanged |
| Modbus.ModbusClient.Read | modbus.py:16-125 | `read` leaves the error table, `tags`, status and queue that `Fleet.Read` gives, returns the caller's own `tags`, and sets `health` to the number of error keys on every exit |

## Left out

- Network I/O: creating `ModbusTcpClient`, `connect()` and `close()`, and the register reads themselves. They are replaced by the `respond` oracle. `connect()`'s result is ignored by the source anyway.
- `BinaryPayloadDecoder` and IEEE-754 decoding. The decoded reading is an input `real`, or an exception text. `val*scale` is real multiplication: no floating-point rounding and no distinction between an integer and a float `scale`.
- The `byteorder`/`wordorder` matches. They only feed the decoder. An unknown string leaves the variable unbound (a `NameError` inside the `try`, which arrives as `DecodeRaised` through the oracle) or stale from the previous point. These cases are not distinguished.
- The pymodbus exception hierarchy. Only which `isinstance` test matches first is kept (`ErrorClass`).
- `queue.Queue` and `threading.Event` concurrency. The queue is a sequence of strings; the event is the `Cancel` oracle, which stays set once set.
- The `config` attribute and the configuration dictionary's parsing. A missing key (a `KeyError` outside the `try`) is not modelled: meters and points are well-formed records.
- Fleet.TryPoint, Fleet.PointStep, Modbus.ModbusClient.TryRead: a caught exception is stored as a `Failure` value whose `Text()` is `str(E)`, not as the bare string. Two different failures with the same text stay distinct in the model.
- Progress.ProgressString: `f"{percent:.0f}%"` is modelled for integer percentages only, printed exactly. Python formats through a float: beyond 2^53 the printed digits are rounded, and beyond the float range the conversion raises `OverflowError`. `read` only ever passes 0.
- Progress.IntToStringRoundTrip: the round trip holds for the exact decimal text of the model; for `|percent|` above 2^53 the source's rounded text would not read back as `percent`.
- The progress percentage is `int(i/num_meters)`, which is 0 for every meter contacted. So every message is the empty bar at 0%, not 0%, 25%, 50%, 75% for four meters. The model follows the code.
- ReadProperties.ReadErrorKeys: stated for meters whose composite keys are pairwise distinct, differ from the meter's ip and are not used by a later contacted meter. Where keys are shared, the last point or meter to write a key decides it; only the frame lemmas (`ReadPointsErrorFrame`, `ReadErrorFrame`) cover that case. Two kinds of key are stated only for one points loop, relative to the table that loop starts from: the raising point's key after an unknown registerType or a raising read call (`ReadPointsFailedKey`: unchanged), and the keys of the points after the one where the loop stopped (`ReadPointsLaterKeys`: unchanged). The table a meter's loop starts from is the one earlier meters left, which `read`'s result does not expose, so neither is lifted to `read`.
- ReadProperties.ReadInterruptedErrorKeys: covers the points the interrupted meter's loop went past; the key of a point where that loop stopped by raising is stated only by `ReadPointsFailedKey`, for one points loop.
- A meter whose connection cannot be opened is still stored, with `measure_name` and whatever came before the failing read. Only the exception under its ip is recorded, not one error per point. The model follows the code.
