/** The `ModbusClient` class of modbus.py: the client's state (its meters,
    `health`, `error` and `status`) and the polling method `read`, which works
    through the meters and their points step by step, updating that state, the
    caller's `tags` dictionary and the status queue in place. */
module Modbus {
  import opened Progress
  import opened Fleet

  /** The caller's `tags` dictionary, which `read` updates in place and returns. */
  class TagTable {
    var entries: map<string, Tags>

    constructor (entries: map<string, Tags>)
      ensures this.entries == entries
    {
      this.entries := entries;
    }
  }

  /** The status queue `q` handed to `read`: messages in the order they were put. */
  class StatusQueue {
    var items: seq<string>

    constructor ()
      ensures items == []
    {
      items := [];
    }

    method Put(s: string)
      modifies this
      ensures items == old(items) + [s]
    {
      items := items + [s];
    }
  }

  class ModbusClient {
    /** `config["meters"]`. */
    const meters: seq<Meter>
    var health: int
    var error: ErrorTable
    var status: string

    /** A new client: no errors recorded, health 0, status "init". */
    constructor (meters: seq<Meter>)
      ensures this.meters == meters
      ensures health == 0 && error == map[] && status == "init"
    {
      this.meters := meters;
      health := 0;
      error := map[];
      status := "init";
    }

    /** The body of the per-point `try` (modbus.py:66-115) for point `p` of
        `meter`, given the response `res` its read receives: updates the error
        table and status, and returns the new `meter_tags` and the text of the
        exception raised, if any, exactly as `TryPoint` says. */
    method TryRead(meter: Meter, p: Point, res: Response, meterTags: Tags) returns (tags': Tags, raised: Option<Failure>)
      modifies this
      ensures PointEffect(error, tags', status, raised) == TryPoint(meter, p, res, old(error), meterTags, old(status))
      ensures health == old(health)
    {
      tags' := meterTags;
      raised := None;
      if !ValidRegisterType(p) {
        raised := Some(WrongRegisterType);
        return;
      }
      match res {
        case ReadRaised(msg) =>
          raised := Some(Raised(msg));
        case ErrorResponse(cls) =>
          var key := CompositeKey(meter, p);
          error := error[key := Flag];
          match Reason(cls) {
            case None =>
              raised := Some(ReasonIsList);
            case Some(reason) =>
              status := "Modbus error: " + key + " Reason: " + reason;
          }
        case Registers(d) =>
          var key := CompositeKey(meter, p);
          if key in error {
            error := error - {key};
          }
          match d {
            case DecodeRaised(msg) =>
              raised := Some(Raised(msg));
            case Decoded(v) =>
              if p.valueType in ValueTypes {
                tags' := tags'[p.item := Num(Scaled(v, p.scale))];
              } else {
                raised := Some(ScaleOfException);
              }
          }
      }
    }

    /** One pass of the loop over the points of meter number `j`
        (modbus.py:44-118), for its point `k`, after `checks` calls of
        `is_set()`: check the event, run the `try` body, and on an exception
        record its text under the meter's ip. `stop` says the loop must end;
        the new state is the one `PointStep` gives. */
    method ReadPoint(meter: Meter, j: nat, respond: (nat, nat) -> Response, cancel: Cancel,
                     meterTags: Tags, checks: nat, k: nat)
      returns (tags': Tags, checks': nat, stop: bool)
      requires k < |meter.points|
      modifies this
      ensures Step(MeterRun(error, tags', status, checks', if stop then k else k + 1), stop)
           == PointStep(meter, j, respond, cancel, MeterRun(old(error), meterTags, old(status), checks, k))
      ensures health == old(health)
    {
      tags', checks', stop := meterTags, checks + 1, false;
      if IsSet(cancel, checks) {
        stop := true;
        return;
      }
      var raised;
      tags', raised := TryRead(meter, meter.points[k], respond(j, k), meterTags);
      if raised.Some? {
        error := error[meter.ip := Caught(raised.value)];
        stop := true;
      }
    }

    /** The loop over the points of meter number `j` (modbus.py:43-118), started
        after `checks` calls of `is_set()`: it ends where `ReadPoints` ends, with
        the same error table, status, `meter_tags` and number of calls; `next`
        is the index of the point it stopped at. */
    method ReadMeterPoints(meter: Meter, j: nat, respond: (nat, nat) -> Response, cancel: Cancel, checks: nat)
      returns (meterTags: Tags, checks': nat, ghost next: nat)
      modifies this
      ensures MeterRun(error, meterTags, status, checks', next)
           == ReadPoints(meter, j, respond, cancel, MeterRun(old(error), map[], old(status), checks, 0))
      ensures health == old(health)
    {
      ghost var spec := ReadPoints(meter, j, respond, cancel, MeterRun(error, map[], status, checks, 0));
      meterTags := map[];
      checks' := checks;
      var k := 0;
      while k < |meter.points|
        invariant k <= |meter.points|
        invariant ReadPoints(meter, j, respond, cancel, MeterRun(error, meterTags, status, checks', k)) == spec
        invariant health == old(health)
        decreases |meter.points| - k
      {
        ReadPointsUnfold(meter, j, respond, cancel, MeterRun(error, meterTags, status, checks', k));
        var stop;
        meterTags, checks', stop := ReadPoint(meter, j, respond, cancel, meterTags, checks', k);
        if stop {
          break;
        }
        k := k + 1;
      }
      next := k;
    }

    /** One pass of the loop over the meters (modbus.py:26-123) for meter number
        `j`, with `i` meters contacted and `checks` calls of `is_set()` made so
        far: it queues the progress message, reads the points and stores the
        results in `tags`, or stops at a check that sees the event. The new
        state is the one `MeterStep` gives; `halted` says the loop must end. */
    method ReadMeter(tags: TagTable, q: StatusQueue, cancel: Cancel, respond: (nat, nat) -> Response,
                     ghost sent: seq<string>, ghost percents: seq<int>, i: nat, j: nat, checks: nat, ghost reached: nat)
      returns (i': nat, checks': nat, halted: bool, ghost percents': seq<int>, ghost reached': nat)
      requires j < |meters|
      requires q.items == sent + Messages(percents)
      modifies this, tags, q
      ensures var st' := MeterStep(meters, PointsOf(respond, cancel), cancel,
                                   Poll(old(error), old(tags.entries), percents, old(status), checks, i, j, false, reached));
              && Poll(error, tags.entries, percents', status, checks', i', if halted then j else j + 1, halted, reached') == st'
              && q.items == sent + Messages(percents')
      ensures health == old(health)
    {
      ghost var st := Poll(error, tags.entries, percents, status, checks, i, j, false, reached);
      i', checks', halted, percents', reached' := i, checks, false, percents, reached;
      if IsSet(cancel, checks') {
        checks' := checks' + 1;
        halted := true;
        return;
      }
      checks' := checks' + 1;
      var meter := meters[j];
      q.Put(ProgressMessage(i' / |meters|));
      MessagesSnoc(sent, percents', i' / |meters|);
      percents' := percents' + [i' / |meters|];
      i' := i' + 1;
      ghost var first := FirstRun(st);
      assert first == MeterRun(error, map[], status, checks', 0);
      PointsOfApply(respond, cancel, meter, j, first);
      var meterTags;
      meterTags, checks', reached' := ReadMeterPoints(meter, j, respond, cancel, checks');
      if IsSet(cancel, checks') {
        checks' := checks' + 1;
        halted := true;
        return;
      }
      checks' := checks' + 1;
      meterTags := meterTags[MeasureNameKey := Name(meter.measureType)];
      tags.entries := tags.entries[meter.uuid := meterTags];
    }

    /** `read(tags, q, e)`: poll every meter in turn. `respond(j, k)` is what the
        k-th point of the j-th meter receives from its register read and the
        decoder, and `cancel` what each `e.is_set()` returns. The new error
        table, tags, status and queued messages are those of `Fleet.Read`; the
        result is the caller's own `tags`; `health` is the number of errors. */
    method Read(tags: TagTable, q: StatusQueue, cancel: Cancel, respond: (nat, nat) -> Response) returns (result: TagTable)
      modifies this, tags, q
      ensures result == tags
      ensures var r := Fleet.Read(meters, respond, cancel, old(error), old(tags.entries), old(status));
              && error == r.error
              && tags.entries == r.tags
              && status == r.status
              && q.items == old(q.items) + Messages(r.percents)
      ensures health == |error|
    {
      ghost var target := Fleet.Read(meters, respond, cancel, error, tags.entries, status);
      ghost var percents: seq<int> := [];
      var i := 0;
      var checks := 0;
      var j := 0;
      var halted := false;
      ghost var reached := 0;
      while j < |meters| && !halted
        invariant j <= |meters|
        invariant q.items == old(q.items) + Messages(percents)
        invariant ReadMeters(meters, PointsOf(respond, cancel), cancel,
                             Poll(error, tags.entries, percents, status, checks, i, j, halted, reached)) == target
        decreases |meters| - j, if halted then 0 else 1
      {
        ghost var st := Poll(error, tags.entries, percents, status, checks, i, j, false, reached);
        ReadMetersContinue(meters, PointsOf(respond, cancel), cancel, st);
        i, checks, halted, percents, reached := ReadMeter(tags, q, cancel, respond, old(q.items), percents, i, j, checks, reached);
        if !halted {
          j := j + 1;
        }
      }
      ReadMetersDone(meters, PointsOf(respond, cancel), cancel, Poll(error, tags.entries, percents, status, checks, i, j, halted, reached));
      health := |error|;
      result := tags;
    }
  }
}
