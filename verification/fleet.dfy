/** What `ModbusClient.read` in modbus.py does, as functions: the data it works
    on, the effect of one point (the body of the per-point `try`), the loop over
    one meter's points, one meter, and the loop over all meters. The network
    session and the payload decoder are replaced by an oracle `respond(j, k)`:
    the response the k-th point of the j-th meter receives; the abort event by a
    `Cancel` oracle that says what each successive `is_set()` call returns. */
module Fleet {
  import opened Progress

  datatype Option<T> = None | Some(value: T)

  /** One entry of a meter's "values" table: the point's name and its
      registerType, register, size, scale and type settings. */
  datatype Point = Point(item: string, registerType: string, register: int, size: int, scale: real, valueType: string)

  /** One entry of the configured "meters" list: ip, uuid, type (the measure
      name), id (the slave id) and its points in the table's insertion order. */
  datatype Meter = Meter(ip: string, uuid: string, measureType: string, slaveId: int, points: seq<Point>)

  /** Which of the four `isinstance` tests on an error response matches first;
      `Unmatched` when none does. */
  datatype ErrorClass = IoError | BaseError | ParameterError | NoSuchSlave | Unmatched

  /** What building the payload decoder and decoding the registers yields. */
  datatype Decoding = Decoded(value: real) | DecodeRaised(msg: string)

  /** The outcome of `read_holding_registers`/`read_input_registers`: a register
      block (with what decoding it yields), an error response, or an exception
      raised by the call itself (for instance when the connection failed). */
  datatype Response = Registers(decoding: Decoding) | ErrorResponse(cls: ErrorClass) | ReadRaised(msg: string)

  /** The abort event: never set, or set after `n` calls of `is_set()` have
      returned false. Once set it stays set, like `threading.Event`. */
  datatype Cancel = Never | AfterChecks(n: nat)

  /** What the `is_set()` call numbered `k` (from 0) returns. */
  predicate IsSet(cancel: Cancel, k: nat)
  {
    cancel.AfterChecks? && cancel.n <= k
  }

  /** An exception caught by the `except` around the body of the per-point
      `try`. What the source stores is its text `str(E)`, given by `Text()`. */
  datatype Failure =
    | WrongRegisterType      // the `raise` for a registerType other than holding or input
    | ReasonIsList           // the TypeError of `"..." + reason` while `reason` is still `[]`
    | ScaleOfException       // the TypeError of `val*scale` while `val` is an Exception object
    | Raised(msg: string)    // raised by the register read or by the decoder, with its text
  {
    function Text(): string
    {
      match this
      case WrongRegisterType => "Wrong registerType naming, must be holding or input"
      case ReasonIsList => "can only concatenate str (not \"list\") to str"
      case ScaleOfException => "unsupported operand type(s) for *: 'Exception' and 'float'"
      case Raised(msg) => msg
    }
  }

  /** Values of `self.error`: `True` (what `res.isError()` returned) for a
      protocol error, or a caught exception, stored as its text `Text()`. */
  datatype ErrorValue = Flag | Caught(failure: Failure)
  type ErrorTable = map<string, ErrorValue>

  /** Values of a meter's result dictionary: a scaled reading or the measure name. */
  datatype TagValue = Num(x: real) | Name(s: string)
  type Tags = map<string, TagValue>

  const MeasureNameKey := "measure_name"
  const ValueTypes: set<string> := {"16float", "16int", "16uint", "32float", "32int", "32uint", "64float", "64int", "64uint"}

  /** `val*scale`: the decoded reading times the point's scale. */
  function Scaled(val: real, scale: real): real
  {
    val * scale
  }

  /** Number of space characters in `s`. */
  function Spaces(s: string): nat
  {
    if s == [] then 0 else Spaces(s[..|s| - 1]) + (if s[|s| - 1] == ' ' then 1 else 0)
  }

  lemma {:induction false} SpacesAppend(a: string, b: string)
    ensures Spaces(a + b) == Spaces(a) + Spaces(b)
    decreases |b|
  {
    if b == [] {
      assert a + b == a;
    } else {
      assert (a + b)[..|a + b| - 1] == a + b[..|b| - 1];
      SpacesAppend(a, b[..|b| - 1]);
    }
  }

  lemma OneSpace()
    ensures Spaces(" ") == 1
  {
    assert " "[..0] == [];
  }

  /** `meter["uuid"]+" "+meter["ip"]+" "+item+" "+str(reg)`. It holds the three
      separating spaces, so a key with fewer spaces (an ip address, as the
      exception handler stores it) is never one. */
  function CompositeKey(m: Meter, p: Point): (k: string)
    ensures Spaces(k) >= 3
  {
    var sp := " ";
    OneSpace();
    SpacesAppend(m.uuid, sp);
    SpacesAppend(m.uuid + sp, m.ip);
    SpacesAppend(m.uuid + sp + m.ip, sp);
    SpacesAppend(m.uuid + sp + m.ip + sp, p.item);
    SpacesAppend(m.uuid + sp + m.ip + sp + p.item, sp);
    SpacesAppend(m.uuid + sp + m.ip + sp + p.item + sp, IntToString(p.register));
    m.uuid + sp + m.ip + sp + p.item + sp + IntToString(p.register)
  }

  /** The `reason` text for each error class; `None` where it stays the list
      `[]`, which happens exactly when none of the `isinstance` tests matched. */
  function Reason(cls: ErrorClass): (r: Option<string>)
    ensures r.None? <==> cls == Unmatched
  {
    match cls
    case IoError => Some("error resulting from data i/o")
    case BaseError => Some("base error")
    case ParameterError => Some("error resulting from invalid parameter")
    case NoSuchSlave => Some("error resulting from making a request to a slave that does not exist")
    case Unmatched => None
  }

  predicate ValidRegisterType(p: Point)
  {
    p.registerType == "holding" || p.registerType == "input"
  }

  /** The body of the per-point `try` raises for point `p` given the response
      `res`: an unknown registerType, an exception from the read call, an error
      response of no known class (the concatenation with the list `reason`
      fails), a decoder that raised, or an unknown type string (the product
      with the `Exception` object fails). */
  predicate Raises(p: Point, res: Response)
  {
    || !ValidRegisterType(p)
    || res.ReadRaised?
    || (res.ErrorResponse? && res.cls == Unmatched)
    || (res.Registers? && (res.decoding.DecodeRaised? || p.valueType !in ValueTypes))
  }

  /** The state the body of the per-point `try` leaves behind, and the text of
      the exception it raised, if any. */
  datatype PointEffect = PointEffect(error: ErrorTable, meterTags: Tags, status: string, raised: Option<Failure>)

  /** The body of the per-point `try` (modbus.py:66-115). */
  function TryPoint(m: Meter, p: Point, res: Response, error: ErrorTable, meterTags: Tags, status: string): (e: PointEffect)
    // an unknown registerType raises before anything changes
    ensures !ValidRegisterType(p) ==> e == PointEffect(error, meterTags, status, Some(WrongRegisterType))
    // a protocol error inserts the composite key and stores no value
    ensures ValidRegisterType(p) && res.ErrorResponse? ==>
              && e.error == error[CompositeKey(m, p) := Flag]
              && e.meterTags == meterTags
              && (e.raised.None? <==> res.cls != Unmatched)
    // a register block removes the composite key, whatever happens next
    ensures ValidRegisterType(p) && res.Registers? ==>
              && e.error == error - {CompositeKey(m, p)}
              && CompositeKey(m, p) !in e.error
              && (e.raised.None? <==> res.decoding.Decoded? && p.valueType in ValueTypes)
              && (e.raised.None? ==> e.meterTags == meterTags[p.item := Num(Scaled(res.decoding.value, p.scale))])
              && (e.raised.Some? ==> e.meterTags == meterTags)
    // an exception from the read call changes nothing
    ensures ValidRegisterType(p) && res.ReadRaised? ==> e.error == error && e.meterTags == meterTags && e.raised == Some(Raised(res.msg))
    // the only key of the error table the body touches is the point's composite key
    ensures e.error == error || e.error == error - {CompositeKey(m, p)} || e.error == error[CompositeKey(m, p) := Flag]
    // whether it raises depends on the point and the response alone
    ensures e.raised.Some? <==> Raises(p, res)
  {
    if !ValidRegisterType(p) then
      PointEffect(error, meterTags, status, Some(WrongRegisterType))
    else
      match res
      case ReadRaised(msg) =>
        PointEffect(error, meterTags, status, Some(Raised(msg)))
      case ErrorResponse(cls) =>
        var key := CompositeKey(m, p);
        var error' := error[key := Flag];
        (match Reason(cls)
         case None => PointEffect(error', meterTags, status, Some(ReasonIsList))
         case Some(reason) => PointEffect(error', meterTags, "Modbus error: " + key + " Reason: " + reason, None))
      case Registers(d) =>
        var key := CompositeKey(m, p);
        var error' := if key in error then error - {key} else error;
        match d
        case DecodeRaised(msg) => PointEffect(error', meterTags, status, Some(Raised(msg)))
        case Decoded(v) =>
          if p.valueType in ValueTypes then PointEffect(error', meterTags[p.item := Num(Scaled(v, p.scale))], status, None)
          else PointEffect(error', meterTags, status, Some(ScaleOfException))
  }

  /** The state of the loop over one meter's points: the error table, the
      meter's result dictionary, the status text, the number of `is_set()` calls
      made so far and the index of the next point. */
  datatype MeterRun = MeterRun(error: ErrorTable, meterTags: Tags, status: string, checks: nat, next: nat)

  /** What one pass of the points loop leaves: the new state, and whether the
      loop ends there. */
  datatype Step = Step(run: MeterRun, stop: bool)

  /** One pass of the loop over the points of meter number `j`
      (modbus.py:44-118), for the point `run.next`: check the event, run the
      `try` body, and on an exception record it under the meter's ip and end
      the loop. */
  function PointStep(m: Meter, j: nat, respond: (nat, nat) -> Response, cancel: Cancel, run: MeterRun): (s: Step)
    requires run.next < |m.points|
    ensures s.run.checks == run.checks + 1
    ensures s.run.next == if s.stop then run.next else run.next + 1
  {
    if IsSet(cancel, run.checks) then Step(run.(checks := run.checks + 1), true)
    else
      var e := TryPoint(m, m.points[run.next], respond(j, run.next), run.error, run.meterTags, run.status);
      match e.raised
      case Some(failure) => Step(MeterRun(e.error[m.ip := Caught(failure)], e.meterTags, e.status, run.checks + 1, run.next), true)
      case None => Step(MeterRun(e.error, e.meterTags, e.status, run.checks + 1, run.next + 1), false)
  }

  /** The loop over the points of meter number `j` (modbus.py:43-118), from
      `run` to the last point or to the pass that ends it. */
  function ReadPoints(m: Meter, j: nat, respond: (nat, nat) -> Response, cancel: Cancel, run: MeterRun): (r: MeterRun)
    ensures run.next <= r.next && run.checks <= r.checks
    decreases |m.points| - run.next
  {
    if run.next >= |m.points| then run
    else
      var s := PointStep(m, j, respond, cancel, run);
      if s.stop then s.run else ReadPoints(m, j, respond, cancel, s.run)
  }

  /** One pass of the loop over a meter's points, when it is not over. */
  lemma ReadPointsUnfold(m: Meter, j: nat, respond: (nat, nat) -> Response, cancel: Cancel, run: MeterRun)
    requires run.next < |m.points|
    ensures var s := PointStep(m, j, respond, cancel, run);
            ReadPoints(m, j, respond, cancel, run) == if s.stop then s.run else ReadPoints(m, j, respond, cancel, s.run)
  {
  }

  /** The state of the loop over the meters: the error table, the caller's
      `tags`, the `percent` passed to `progressString` for each message queued,
      the status text, the number of `is_set()` calls made, the number of meters
      contacted (the counter `i`), the number of meters whose results were
      stored, whether the loop was left because the event was set, and the
      index of the point where the most recent points loop stopped (where the
      loop variable `item` was left). */
  datatype Poll = Poll(error: ErrorTable, tags: map<string, Tags>, percents: seq<int>, status: string,
                       checks: nat, contacted: nat, stored: nat, halted: bool, reached: nat)

  /** The state `read` starts from. */
  function StartPoll(error: ErrorTable, tags: map<string, Tags>, status: string): Poll
  {
    Poll(error, tags, [], status, 0, 0, 0, false, 0)
  }

  /** The message queued before contacting a meter (modbus.py:32): the `m|`
      tag the reader of the queue dispatches on, then the labelled bar. */
  function ProgressMessage(percent: int): (msg: string)
    ensures |msg| > 12 && msg[..2] == "m|" && msg[2..12] == "Reading: ["
  {
    var text := ProgressString(percent, 40, "Reading", "");
    assert ("m|" + text)[2..12] == text[..10];
    "m|" + text
  }

  /** The messages queued for a sequence of percentages. */
  function Messages(percents: seq<int>): seq<string>
  {
    seq(|percents|, k requires 0 <= k < |percents| => ProgressMessage(percents[k]))
  }

  /** Queueing the message for one more percentage. */
  lemma MessagesSnoc(sent: seq<string>, percents: seq<int>, percent: int)
    ensures sent + Messages(percents) + [ProgressMessage(percent)] == sent + Messages(percents + [percent])
  {
  }

  /** What every progress message of `read` actually is. */
  const ReadingBanner := "m|Reading: [" + Repeat(' ', 40) + "]0%"

  /** `int(i/num_meters)` is 0 for every meter contacted, so each message is the
      empty bar at 0%. */
  lemma ReadingMessageIsBanner(contacted: nat, numMeters: nat)
    requires contacted < numMeters
    ensures ProgressMessage(contacted / numMeters) == ReadingBanner
  {
    ReadingProgressIsEmptyBar(contacted, numMeters);
    var bar := Repeat(' ', 40);
    assert "m|" + ("Reading: [" + bar + "]0%") == "m|Reading: [" + bar + "]0%";
  }

  /** The loop over one meter's points as the loop over the meters sees it:
      from the meter, its index and the state the loop starts in, the state it
      ends in. */
  type PointsLoop = (Meter, nat, MeterRun) -> MeterRun

  /** The points loop of `read`, for the given responses and abort event. */
  function PointsOf(respond: (nat, nat) -> Response, cancel: Cancel): PointsLoop
  {
    (m: Meter, j: nat, run: MeterRun) => ReadPoints(m, j, respond, cancel, run)
  }

  lemma PointsOfApply(respond: (nat, nat) -> Response, cancel: Cancel, m: Meter, j: nat, run: MeterRun)
    ensures PointsOf(respond, cancel)(m, j, run) == ReadPoints(m, j, respond, cancel, run)
  {
  }

  /** The state the points loop of meter `st.stored` starts in: a fresh
      `meter_tags`, after the check made before the meter. */
  function FirstRun(st: Poll): MeterRun
  {
    MeterRun(st.error, map[], st.status, st.checks + 1, 0)
  }

  /** One pass of the loop over the meters (modbus.py:25-123), for the meter
      number `st.stored`: check the event, queue the progress message, read the
      points, check the event again, and store the meter's results under its
      uuid with its `measure_name`. */
  function MeterStep(ms: seq<Meter>, points: PointsLoop, cancel: Cancel, st: Poll): (r: Poll)
    requires st.stored < |ms|
    ensures (r.halted && r.stored == st.stored) || (r.halted == st.halted && r.stored == st.stored + 1)
    ensures st.contacted <= r.contacted
  {
    if IsSet(cancel, st.checks) then st.(checks := st.checks + 1, halted := true)
    else
      var m := ms[st.stored];
      var run := points(m, st.stored, FirstRun(st));
      var st' := st.(error := run.error, percents := st.percents + [st.contacted / |ms|],
                     status := run.status, checks := run.checks + 1, contacted := st.contacted + 1,
                     reached := run.next);
      if IsSet(cancel, run.checks) then st'.(halted := true)
      else st'.(tags := st.tags[m.uuid := run.meterTags[MeasureNameKey := Name(m.measureType)]], stored := st.stored + 1)
  }

  /** The loop over the meters, from `st` to the end or to the first check
      that sees the event set. */
  function ReadMeters(ms: seq<Meter>, points: PointsLoop, cancel: Cancel, st: Poll): (r: Poll)
    ensures st.stored <= r.stored && st.contacted <= r.contacted
    ensures r.halted || r.stored >= |ms|
    ensures st.stored <= |ms| ==> r.stored <= |ms|
    decreases |ms| - st.stored, if st.halted then 0 else 1
  {
    if st.halted || st.stored >= |ms| then st
    else ReadMeters(ms, points, cancel, MeterStep(ms, points, cancel, st))
  }

  /** One pass of the loop over the meters, when it is not over. */
  lemma ReadMetersContinue(ms: seq<Meter>, points: PointsLoop, cancel: Cancel, st: Poll)
    requires !st.halted && st.stored < |ms|
    ensures ReadMeters(ms, points, cancel, st) == ReadMeters(ms, points, cancel, MeterStep(ms, points, cancel, st))
  {
  }

  /** The loop over the meters, once it is over. */
  lemma ReadMetersDone(ms: seq<Meter>, points: PointsLoop, cancel: Cancel, st: Poll)
    requires st.halted || st.stored >= |ms|
    ensures ReadMeters(ms, points, cancel, st) == st
  {
  }

  /** What `read` does, from the error table, the caller's `tags` and the
      status text it starts with. */
  function Read(ms: seq<Meter>, respond: (nat, nat) -> Response, cancel: Cancel,
                error: ErrorTable, tags: map<string, Tags>, status: string): (r: Poll)
    // the loop ends after the last meter or because the event stopped it
    ensures r.halted || r.stored == |ms|
  {
    ReadMeters(ms, PointsOf(respond, cancel), cancel, StartPoll(error, tags, status))
  }
}
