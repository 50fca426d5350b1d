/** Properties of `ModbusClient.read`, proved about its functional description
    in module Fleet: what happens to the error table, to the caller's `tags`, to
    the progress queue and to the cancellation checks. */
module ReadProperties {
  import opened Progress
  import opened Fleet

  /* ---------- error keys ---------- */

  /** The composite keys of a meter's points. */
  function PointKeys(m: Meter): set<string>
  {
    set p | p in m.points :: CompositeKey(m, p)
  }

  /** The composite keys of every point of every meter. */
  function FleetKeys(ms: seq<Meter>): set<string>
  {
    set m, p | m in ms && p in m.points :: CompositeKey(m, p)
  }

  /** The ip addresses of the meters. */
  function Addresses(ms: seq<Meter>): set<string>
  {
    set m | m in ms :: m.ip
  }

  /** From `before` to `after`, the error table lost no key outside `keys`,
      and every key that is neither in `keys` nor in `ips` kept its presence
      and its value. */
  ghost predicate ErrorsFramed(keys: set<string>, ips: set<string>, before: ErrorTable, after: ErrorTable)
  {
    && (forall key :: key in before && key !in keys ==> key in after)
    && (forall key :: key !in keys && key !in ips ==> (key in after <==> key in before))
    && (forall key :: key !in keys && key !in ips && key in before ==> after[key] == before[key])
  }

  lemma ErrorsFramedChain(keys: set<string>, ips: set<string>, keys1: set<string>, ips1: set<string>,
                          a: ErrorTable, b: ErrorTable, c: ErrorTable)
    requires keys1 <= keys && ips1 <= ips
    requires ErrorsFramed(keys1, ips1, a, b) && ErrorsFramed(keys, ips, b, c)
    ensures ErrorsFramed(keys, ips, a, c)
  {
  }

  /** Some of the first `checks` calls of `is_set()` returned true. */
  predicate Seen(cancel: Cancel, checks: nat)
  {
    cancel.AfterChecks? && cancel.n < checks
  }

  /* ---------- one meter's points ---------- */

  /** The value point `k` of meter `j` contributes to `meter_tags` when its read
      and its decoding succeed, and `None` otherwise. */
  function Success(m: Meter, j: nat, respond: (nat, nat) -> Response, k: nat): Option<TagValue>
    requires k < |m.points|
  {
    var p := m.points[k];
    var res := respond(j, k);
    if ValidRegisterType(p) && res.Registers? && res.decoding.Decoded? && p.valueType in ValueTypes
    then Some(Num(Scaled(res.decoding.value, p.scale)))
    else None
  }

  /** Every entry of `meterTags` is the value of one of the first `hi` points
      of the meter, with the same name, whose read and decoding succeeded. */
  ghost predicate OnlySuccesses(m: Meter, j: nat, respond: (nat, nat) -> Response, hi: nat, meterTags: Tags)
  {
    forall it :: it in meterTags ==>
      exists k :: 0 <= k < hi && k < |m.points| && m.points[k].item == it && Success(m, j, respond, k) == Some(meterTags[it])
  }

  /** No two points of the meter share a name. */
  ghost predicate DistinctItems(m: Meter)
  {
    forall a, b :: 0 <= a < b < |m.points| ==> m.points[a].item != m.points[b].item
  }

  /** The value one point adds to `meter_tags`, if any. */
  function AddSuccess(m: Meter, j: nat, respond: (nat, nat) -> Response, k: nat, acc: Tags): Tags
    requires k < |m.points|
  {
    match Success(m, j, respond, k)
    case Some(v) => acc[m.points[k].item := v]
    case None => acc
  }

  /** Reference definition of what the points `lo..hi` add to `acc`: each
      point read and decoded without error, in order, stores its value under
      its name. */
  function Collected(m: Meter, j: nat, respond: (nat, nat) -> Response, lo: nat, hi: nat, acc: Tags): Tags
    requires lo <= hi <= |m.points|
    decreases hi - lo
  {
    if lo == hi then acc
    else
      Collected(m, j, respond, lo + 1, hi, AddSuccess(m, j, respond, lo, acc))
  }

  /** The names of the points in `lo..hi` that were read and decoded without error. */
  function SuccessItems(m: Meter, j: nat, respond: (nat, nat) -> Response, lo: nat, hi: nat): set<string>
    requires hi <= |m.points|
  {
    set k | lo <= k < hi && Success(m, j, respond, k).Some? :: m.points[k].item
  }

  /** The index of the first point from `k` on whose `try` body raises, or the
      number of points when none does. */
  function FirstFailure(m: Meter, j: nat, respond: (nat, nat) -> Response, k: nat): (f: nat)
    requires k <= |m.points|
    ensures k <= f <= |m.points|
    ensures forall k' :: k <= k' < f ==> !Raises(m.points[k'], respond(j, k'))
    ensures f < |m.points| ==> Raises(m.points[f], respond(j, f))
    decreases |m.points| - k
  {
    if k == |m.points| then k
    else if Raises(m.points[k], respond(j, k)) then k
    else FirstFailure(m, j, respond, k + 1)
  }

  /** What `read` stores for meter number `j` when it finishes it: the values
      of the points read without error before the first point that raises,
      and its `measure_name`. */
  function MeterResult(m: Meter, j: nat, respond: (nat, nat) -> Response): Tags
  {
    Collected(m, j, respond, 0, FirstFailure(m, j, respond, 0), map[])[MeasureNameKey := Name(m.measureType)]
  }

  /** The names stored are those already in `acc` and those of the points that
      succeeded, and no others. */
  lemma {:induction false} CollectedKeys(m: Meter, j: nat, respond: (nat, nat) -> Response, lo: nat, hi: nat, acc: Tags)
    requires lo <= hi <= |m.points|
    ensures Collected(m, j, respond, lo, hi, acc).Keys == acc.Keys + SuccessItems(m, j, respond, lo, hi)
    decreases hi - lo
  {
    if lo == hi {
      assert SuccessItems(m, j, respond, lo, hi) == {};
    } else {
      var acc' := AddSuccess(m, j, respond, lo, acc);
      CollectedKeys(m, j, respond, lo + 1, hi, acc');
      assert SuccessItems(m, j, respond, lo, hi)
          == (if Success(m, j, respond, lo).Some? then {m.points[lo].item} else {}) + SuccessItems(m, j, respond, lo + 1, hi);
    }
  }

  /** Every stored value is that of a point that succeeded. */
  lemma {:induction false} CollectedOnlySuccesses(m: Meter, j: nat, respond: (nat, nat) -> Response, lo: nat, hi: nat, acc: Tags)
    requires lo <= hi <= |m.points|
    requires OnlySuccesses(m, j, respond, lo, acc)
    ensures OnlySuccesses(m, j, respond, hi, Collected(m, j, respond, lo, hi, acc))
    decreases hi - lo
  {
    if lo < hi {
      var acc' := AddSuccess(m, j, respond, lo, acc);
      forall it | it in acc'
        ensures exists k :: 0 <= k < lo + 1 && k < |m.points| && m.points[k].item == it && Success(m, j, respond, k) == Some(acc'[it])
      {
        if Success(m, j, respond, lo).Some? && it == m.points[lo].item {
          assert Success(m, j, respond, lo) == Some(acc'[it]);
        } else {
          assert it in acc && acc'[it] == acc[it];
        }
      }
      CollectedOnlySuccesses(m, j, respond, lo + 1, hi, acc');
    }
  }

  /** An entry whose name no point in `lo..hi` has is left as it was. */
  lemma {:induction false} CollectedUntouched(m: Meter, j: nat, respond: (nat, nat) -> Response, lo: nat, hi: nat, acc: Tags, it: string)
    requires lo <= hi <= |m.points|
    requires it in acc && forall k :: lo <= k < hi ==> m.points[k].item != it
    ensures it in Collected(m, j, respond, lo, hi, acc) && Collected(m, j, respond, lo, hi, acc)[it] == acc[it]
    decreases hi - lo
  {
    if lo < hi {
      var acc' := AddSuccess(m, j, respond, lo, acc);
      CollectedUntouched(m, j, respond, lo + 1, hi, acc', it);
    }
  }

  /** When point names are distinct, each point that succeeded has its own
      value stored under its name. */
  lemma {:induction false} CollectedValue(m: Meter, j: nat, respond: (nat, nat) -> Response, lo: nat, hi: nat, acc: Tags, k: nat)
    requires lo <= k < hi <= |m.points| && DistinctItems(m)
    requires Success(m, j, respond, k).Some?
    ensures m.points[k].item in Collected(m, j, respond, lo, hi, acc)
    ensures Collected(m, j, respond, lo, hi, acc)[m.points[k].item] == Success(m, j, respond, k).value
    decreases hi - lo
  {
    CollectedKeys(m, j, respond, lo, hi, acc);
    assert m.points[k].item in SuccessItems(m, j, respond, lo, hi);
    var acc' := AddSuccess(m, j, respond, lo, acc);
    if lo < k {
      CollectedValue(m, j, respond, lo + 1, hi, acc', k);
    } else {
      CollectedUntouched(m, j, respond, lo + 1, hi, acc', m.points[k].item);
    }
  }

  /** One pass of the points loop touches only the current point's composite
      key and the meter's ip: it may remove that key, and it changes no other
      entry. */
  lemma PointStepErrorFrame(m: Meter, j: nat, respond: (nat, nat) -> Response, cancel: Cancel, run: MeterRun)
    requires run.next < |m.points|
    ensures ErrorsFramed({CompositeKey(m, m.points[run.next])}, {m.ip}, run.error, PointStep(m, j, respond, cancel, run).run.error)
  {
  }

  /** The loop over a meter's points only ever removes composite keys of that
      meter, and leaves every key that is neither one of them nor the meter's ip
      exactly as it was. */
  lemma {:induction false} ReadPointsErrorFrame(m: Meter, j: nat, respond: (nat, nat) -> Response, cancel: Cancel, run: MeterRun)
    ensures ErrorsFramed(PointKeys(m), {m.ip}, run.error, ReadPoints(m, j, respond, cancel, run).error)
    decreases |m.points| - run.next
  {
    if run.next < |m.points| {
      var s := PointStep(m, j, respond, cancel, run);
      var key := CompositeKey(m, m.points[run.next]);
      assert key in PointKeys(m);
      ReadPointsUnfold(m, j, respond, cancel, run);
      PointStepErrorFrame(m, j, respond, cancel, run);
      if s.stop {
        ErrorsFramedChain(PointKeys(m), {m.ip}, {key}, {m.ip}, run.error, s.run.error, s.run.error);
      } else {
        ReadPointsErrorFrame(m, j, respond, cancel, s.run);
        ErrorsFramedChain(PointKeys(m), {m.ip}, {key}, {m.ip}, run.error, s.run.error,
                          ReadPoints(m, j, respond, cancel, s.run).error);
      }
    }
  }

  /** One pass of the points loop that goes on adds the point's value if it
      succeeded; one that ends the loop leaves `meter_tags` as it was. */
  lemma PointStepCollects(m: Meter, j: nat, respond: (nat, nat) -> Response, cancel: Cancel, run: MeterRun)
    requires run.next < |m.points|
    ensures var s := PointStep(m, j, respond, cancel, run);
            s.run.meterTags == if s.stop then run.meterTags else AddSuccess(m, j, respond, run.next, run.meterTags)
  {
  }

  /** A pass that goes on, followed by a rest of the loop that collected what
      `Collected` gives from the next point, collected what `Collected` gives
      from this point. */
  lemma CollectsGo(m: Meter, j: nat, respond: (nat, nat) -> Response, cancel: Cancel, run: MeterRun, r: MeterRun)
    requires run.next < |m.points|
    requires var s := PointStep(m, j, respond, cancel, run);
             && !s.stop && run.next + 1 <= r.next <= |m.points|
             && r.meterTags == Collected(m, j, respond, run.next + 1, r.next, s.run.meterTags)
    ensures r.meterTags == Collected(m, j, respond, run.next, r.next, run.meterTags)
  {
    PointStepCollects(m, j, respond, cancel, run);
  }

  /** The points loop stores in `meter_tags` exactly what the reference
      definition `Collected` gives for the points it went through. */
  lemma {:induction false} ReadPointsCollects(m: Meter, j: nat, respond: (nat, nat) -> Response, cancel: Cancel, run: MeterRun)
    requires run.next <= |m.points|
    ensures var r := ReadPoints(m, j, respond, cancel, run);
            r.next <= |m.points| && r.meterTags == Collected(m, j, respond, run.next, r.next, run.meterTags)
    decreases |m.points| - run.next
  {
    var r := ReadPoints(m, j, respond, cancel, run);
    if run.next < |m.points| {
      var s := PointStep(m, j, respond, cancel, run);
      ReadPointsUnfold(m, j, respond, cancel, run);
      if s.stop {
        PointStepCollects(m, j, respond, cancel, run);
        assert r == s.run;
      } else {
        assert r == ReadPoints(m, j, respond, cancel, s.run);
        ReadPointsCollects(m, j, respond, cancel, s.run);
        CollectsGo(m, j, respond, cancel, run, r);
      }
    } else {
      assert r == run;
    }
  }

  /** When the check made after the points loop does not see the event (so the
      meter is stored), the loop ended at the first point that raises, or after
      the last point. */
  lemma {:induction false} ReadPointsStopsAtFailure(m: Meter, j: nat, respond: (nat, nat) -> Response, cancel: Cancel, run: MeterRun)
    requires run.next <= |m.points|
    ensures var r := ReadPoints(m, j, respond, cancel, run);
            !IsSet(cancel, r.checks) ==> r.next == FirstFailure(m, j, respond, run.next)
    decreases |m.points| - run.next
  {
    if run.next < |m.points| {
      var s := PointStep(m, j, respond, cancel, run);
      ReadPointsUnfold(m, j, respond, cancel, run);
      if !s.stop {
        ReadPointsStopsAtFailure(m, j, respond, cancel, s.run);
      }
    }
  }

  /** `meter_tags` only ever receives the scaled values of points that the
      loop went through and that were read and decoded without error. */
  lemma ReadPointsOnlySuccesses(m: Meter, j: nat, respond: (nat, nat) -> Response, cancel: Cancel, run: MeterRun)
    requires run.next <= |m.points|
    requires OnlySuccesses(m, j, respond, run.next, run.meterTags)
    ensures var r := ReadPoints(m, j, respond, cancel, run);
            OnlySuccesses(m, j, respond, r.next, r.meterTags)
  {
    var r := ReadPoints(m, j, respond, cancel, run);
    ReadPointsCollects(m, j, respond, cancel, run);
    CollectedOnlySuccesses(m, j, respond, run.next, r.next, run.meterTags);
  }

  /** Conversely, every point the loop went through that was read and decoded
      without error has its name in `meter_tags`, with its own value when point
      names are distinct; nothing already there is dropped. */
  lemma ReadPointsKeepsSuccesses(m: Meter, j: nat, respond: (nat, nat) -> Response, cancel: Cancel, run: MeterRun)
    requires run.next <= |m.points|
    ensures var r := ReadPoints(m, j, respond, cancel, run);
            && r.next <= |m.points|
            && run.meterTags.Keys <= r.meterTags.Keys
            && (forall k :: run.next <= k < r.next && Success(m, j, respond, k).Some? ==>
                  && m.points[k].item in r.meterTags
                  && (DistinctItems(m) ==> r.meterTags[m.points[k].item] == Success(m, j, respond, k).value))
  {
    var r := ReadPoints(m, j, respond, cancel, run);
    ReadPointsCollects(m, j, respond, cancel, run);
    CollectedKeys(m, j, respond, run.next, r.next, run.meterTags);
    forall k | run.next <= k < r.next && Success(m, j, respond, k).Some?
      ensures m.points[k].item in r.meterTags
      ensures DistinctItems(m) ==> r.meterTags[m.points[k].item] == Success(m, j, respond, k).value
    {
      assert m.points[k].item in SuccessItems(m, j, respond, run.next, r.next);
      if DistinctItems(m) {
        CollectedValue(m, j, respond, run.next, r.next, run.meterTags, k);
      }
    }
  }

  /** A point whose `try` body raises ends the loop over the meter's points
      there: the exception is stored under the meter's ip, `meter_tags` keeps
      what the earlier points stored, a composite key the body already popped
      stays removed, and no later point is read. */
  lemma PointRaises(m: Meter, j: nat, respond: (nat, nat) -> Response, cancel: Cancel, run: MeterRun)
    requires run.next < |m.points| && !IsSet(cancel, run.checks)
    requires TryPoint(m, m.points[run.next], respond(j, run.next), run.error, run.meterTags, run.status).raised.Some?
    ensures var p := m.points[run.next];
            var res := respond(j, run.next);
            var r := ReadPoints(m, j, respond, cancel, run);
            && r.next == run.next
            && r.meterTags == run.meterTags
            && r.error[m.ip] == Caught(TryPoint(m, p, res, run.error, run.meterTags, run.status).raised.value)
            && (ValidRegisterType(p) && res.Registers? && CompositeKey(m, p) != m.ip ==> CompositeKey(m, p) !in r.error)
            && (forall key :: key != m.ip && key != CompositeKey(m, p) ==>
                  (key in r.error <==> key in run.error) && (key in run.error ==> r.error[key] == run.error[key]))
  {
    var s := PointStep(m, j, respond, cancel, run);
    assert s.stop;
  }

  /** How the loop over a meter's points ends, seen from the event checks: no
      check is lost, and if the event was seen then the check that first saw it
      was the loop's last one. */
  ghost predicate EndsOnEvent(cancel: Cancel, run: MeterRun, r: MeterRun)
  {
    run.checks <= r.checks && (Seen(cancel, r.checks) ==> r.checks == cancel.n + 1)
  }

  /** One pass of the points loop that ends the loop without the check
      seeing the event has stored the exception under the meter's ip. */
  lemma PointStepExit(m: Meter, j: nat, respond: (nat, nat) -> Response, cancel: Cancel, run: MeterRun)
    requires run.next < |m.points|
    ensures var s := PointStep(m, j, respond, cancel, run);
            s.stop && !IsSet(cancel, run.checks) ==> m.ip in s.run.error && s.run.error[m.ip].Caught?
  {
  }

  /** Why the loop over a meter's points ends: it reached the last point, or the
      first check that saw the event set was its last one, or a point raised and
      its message was stored under the meter's ip. */
  lemma {:induction false} ReadPointsExit(m: Meter, j: nat, respond: (nat, nat) -> Response, cancel: Cancel, run: MeterRun)
    requires run.next <= |m.points| && !Seen(cancel, run.checks)
    ensures var r := ReadPoints(m, j, respond, cancel, run);
            && EndsOnEvent(cancel, run, r)
            && r.next <= |m.points|
            && (Seen(cancel, r.checks) ==> r.next < |m.points|)
            && (r.next < |m.points| && !Seen(cancel, r.checks) ==> m.ip in r.error && r.error[m.ip].Caught?)
    decreases |m.points| - run.next
  {
    if run.next < |m.points| {
      var s := PointStep(m, j, respond, cancel, run);
      PointStepExit(m, j, respond, cancel, run);
      if !s.stop {
        ReadPointsExit(m, j, respond, cancel, s.run);
      }
    }
  }

  /** The points after the one where the loop stopped are never read: the
      result does not depend on the responses they would have received. */
  lemma {:induction false} ReadPointsIgnoresLaterPoints(m: Meter, j: nat, respond: (nat, nat) -> Response,
                                                      respond': (nat, nat) -> Response, cancel: Cancel, run: MeterRun)
    requires forall k :: run.next <= k <= ReadPoints(m, j, respond, cancel, run).next ==> respond(j, k) == respond'(j, k)
    ensures ReadPoints(m, j, respond', cancel, run) == ReadPoints(m, j, respond, cancel, run)
    decreases |m.points| - run.next
  {
    if run.next < |m.points| {
      var s := PointStep(m, j, respond, cancel, run);
      assert respond(j, run.next) == respond'(j, run.next);
      assert PointStep(m, j, respond', cancel, run) == s;
      if !s.stop {
        ReadPointsIgnoresLaterPoints(m, j, respond, respond', cancel, s.run);
      }
    }
  }

  /* ---------- the error table's composite keys ---------- */

  /** The composite keys of the points of `m` from number `lo` on. */
  function KeysFrom(m: Meter, lo: nat): set<string>
  {
    set k | lo <= k < |m.points| :: CompositeKey(m, m.points[k])
  }

  /** The meter's points have pairwise different composite keys, none of
      which is the meter's ip. */
  ghost predicate DistinctKeys(m: Meter)
  {
    && (forall a, b :: 0 <= a < b < |m.points| ==> CompositeKey(m, m.points[a]) != CompositeKey(m, m.points[b]))
    && (forall k :: 0 <= k < |m.points| ==> CompositeKey(m, m.points[k]) != m.ip)
  }

  /** A key that neither a point from `run.next` on nor the meter's ip uses
      keeps its presence and its value through the rest of the points loop. */
  lemma {:induction false} ReadPointsKeyFrame(m: Meter, j: nat, respond: (nat, nat) -> Response, cancel: Cancel,
                                              run: MeterRun, key: string)
    requires key !in KeysFrom(m, run.next) && key != m.ip
    ensures var r := ReadPoints(m, j, respond, cancel, run);
            && (key in r.error <==> key in run.error)
            && (key in run.error ==> r.error[key] == run.error[key])
    decreases |m.points| - run.next
  {
    if run.next < |m.points| {
      var s := PointStep(m, j, respond, cancel, run);
      ReadPointsUnfold(m, j, respond, cancel, run);
      PointStepErrorFrame(m, j, respond, cancel, run);
      assert key != CompositeKey(m, m.points[run.next]);
      if !s.stop {
        assert key !in KeysFrom(m, s.run.next);
        ReadPointsKeyFrame(m, j, respond, cancel, s.run, key);
      }
    }
  }

  /** A pass that goes on leaves its point's composite key in the error table
      exactly when the point got an error response. */
  lemma PointStepErrorKey(m: Meter, j: nat, respond: (nat, nat) -> Response, cancel: Cancel, run: MeterRun)
    requires run.next < |m.points|
    ensures var s := PointStep(m, j, respond, cancel, run);
            !s.stop ==> (CompositeKey(m, m.points[run.next]) in s.run.error <==> respond(j, run.next).ErrorResponse?)
  {
  }

  /** The composite key of every point in `lo..hi` is in `error` exactly when
      that point got an error response. */
  ghost predicate KeysMatchResponses(m: Meter, j: nat, respond: (nat, nat) -> Response, lo: nat, hi: nat, error: ErrorTable)
  {
    forall k :: lo <= k < hi && k < |m.points| ==> (CompositeKey(m, m.points[k]) in error <==> respond(j, k).ErrorResponse?)
  }

  /** The self-healing rule of the error table, for the loop over a meter's
      points: after the loop, the composite key of each point it went past is
      present exactly when that point's most recent read got an error response
      (a later successful read removed it), provided the meter's composite keys
      are distinct and differ from its ip. */
  lemma {:induction false} ReadPointsErrorKeys(m: Meter, j: nat, respond: (nat, nat) -> Response, cancel: Cancel, run: MeterRun)
    requires run.next <= |m.points| && DistinctKeys(m)
    ensures var r := ReadPoints(m, j, respond, cancel, run);
            r.next <= |m.points| && KeysMatchResponses(m, j, respond, run.next, r.next, r.error)
    decreases |m.points| - run.next
  {
    if run.next < |m.points| {
      var s := PointStep(m, j, respond, cancel, run);
      ReadPointsUnfold(m, j, respond, cancel, run);
      if !s.stop {
        var r := ReadPoints(m, j, respond, cancel, s.run);
        var key := CompositeKey(m, m.points[run.next]);
        ReadPointsErrorKeys(m, j, respond, cancel, s.run);
        PointStepErrorKey(m, j, respond, cancel, run);
        assert key !in KeysFrom(m, s.run.next);
        ReadPointsKeyFrame(m, j, respond, cancel, s.run, key);
        forall k | run.next <= k < r.next && k < |m.points|
          ensures CompositeKey(m, m.points[k]) in r.error <==> respond(j, k).ErrorResponse?
        {
          if k == run.next {
            assert key in r.error <==> key in s.run.error;
          } else {
            assert s.run.next <= k;
          }
        }
      }
    }
  }

  /** The composite key of the point where the loop stopped, when a point
      raised and the event was not seen after the loop: a known register type
      with an error response has inserted it, one with a register block has
      removed it, and otherwise (an unknown register type, or an exception from
      the read call) it is present exactly when it was before the loop. */
  lemma {:induction false} ReadPointsFailedKey(m: Meter, j: nat, respond: (nat, nat) -> Response, cancel: Cancel, run: MeterRun)
    requires run.next <= |m.points| && DistinctKeys(m)
    ensures var r := ReadPoints(m, j, respond, cancel, run);
            !IsSet(cancel, r.checks) && r.next < |m.points| ==>
              var p := m.points[r.next];
              var res := respond(j, r.next);
              var key := CompositeKey(m, p);
              && (ValidRegisterType(p) && res.ErrorResponse? ==> key in r.error)
              && (ValidRegisterType(p) && res.Registers? ==> key !in r.error)
              && (!ValidRegisterType(p) || res.ReadRaised? ==> (key in r.error <==> key in run.error))
    decreases |m.points| - run.next
  {
    if run.next < |m.points| {
      var s := PointStep(m, j, respond, cancel, run);
      ReadPointsUnfold(m, j, respond, cancel, run);
      if !s.stop {
        var r := ReadPoints(m, j, respond, cancel, s.run);
        ReadPointsFailedKey(m, j, respond, cancel, s.run);
        if r.next < |m.points| {
          PointStepErrorFrame(m, j, respond, cancel, run);
          assert CompositeKey(m, m.points[r.next]) != CompositeKey(m, m.points[run.next]);
        }
      }
    }
  }

  /** The composite keys of the points after the one where the loop stopped
      are as they were before the loop: those points are never read. */
  lemma {:induction false} ReadPointsLaterKeys(m: Meter, j: nat, respond: (nat, nat) -> Response, cancel: Cancel, run: MeterRun)
    requires run.next <= |m.points| && DistinctKeys(m)
    ensures var r := ReadPoints(m, j, respond, cancel, run);
            forall k :: r.next < k < |m.points| ==>
              (CompositeKey(m, m.points[k]) in r.error <==> CompositeKey(m, m.points[k]) in run.error)
    decreases |m.points| - run.next
  {
    if run.next < |m.points| {
      var s := PointStep(m, j, respond, cancel, run);
      ReadPointsUnfold(m, j, respond, cancel, run);
      PointStepErrorFrame(m, j, respond, cancel, run);
      if !s.stop {
        ReadPointsLaterKeys(m, j, respond, cancel, s.run);
      }
    }
  }

  /* ---------- the meters, for any points loop ---------- */

  /** The points loop never touches error keys other than the meter's own. */
  ghost predicate FramesErrors(points: PointsLoop)
  {
    forall m: Meter, j: nat, run: MeterRun :: ErrorsFramed(PointKeys(m), {m.ip}, run.error, points(m, j, run).error)
  }

  /** The points loop stops at the first check that sees the event. */
  ghost predicate StopsOnEvent(points: PointsLoop, cancel: Cancel)
  {
    forall m: Meter, j: nat, run: MeterRun :: run.next <= |m.points| && !Seen(cancel, run.checks) ==> EndsOnEvent(cancel, run, points(m, j, run))
  }

  lemma PointsOfFramesErrors(respond: (nat, nat) -> Response, cancel: Cancel)
    ensures FramesErrors(PointsOf(respond, cancel))
  {
    forall m: Meter, j: nat, run: MeterRun {
      ReadPointsErrorFrame(m, j, respond, cancel, run);
    }
  }

  lemma PointsOfStopsOnEvent(respond: (nat, nat) -> Response, cancel: Cancel)
    ensures StopsOnEvent(PointsOf(respond, cancel), cancel)
  {
    forall m: Meter, j: nat, run: MeterRun | run.next <= |m.points| && !Seen(cancel, run.checks) {
      ReadPointsExit(m, j, respond, cancel, run);
    }
  }

  /** The uuids of the meters with index in `lo..hi`. */
  function UuidsIn(ms: seq<Meter>, lo: nat, hi: nat): set<string>
  {
    set jj | lo <= jj < hi && jj < |ms| :: ms[jj].uuid
  }

  lemma UuidsInSplit(ms: seq<Meter>, lo: nat, hi: nat)
    requires lo < hi && lo < |ms|
    ensures UuidsIn(ms, lo, hi) == {ms[lo].uuid} + UuidsIn(ms, lo + 1, hi)
  {
  }

  /** `n` zeros. */
  function Zeros(n: nat): seq<int>
  {
    seq(n, _ => 0)
  }

  lemma ZerosCons(a: seq<int>, n: nat)
    ensures a + [0] + Zeros(n) == a + Zeros(n + 1)
  {
    assert [0] + Zeros(n) == Zeros(n + 1);
  }

  /** Progress messages for a run of zero percentages are all the banner. */
  lemma ZeroMessages(n: nat)
    ensures Messages(Zeros(n)) == seq(n, _ => ReadingBanner)
  {
    ReadingMessageIsBanner(0, 1);
  }

  /** One pass over a meter: either the first check sees the event and nothing
      happens, or the meter is contacted with one progress message at 0% and
      then stored unless the event is seen during or right after it. */
  lemma MeterStepOutline(ms: seq<Meter>, points: PointsLoop, cancel: Cancel, st: Poll)
    requires StopsOnEvent(points, cancel)
    requires st.contacted == st.stored < |ms| && !st.halted && !Seen(cancel, st.checks)
    ensures var st' := MeterStep(ms, points, cancel, st);
            && (st'.halted <==> Seen(cancel, st'.checks))
            && (st'.halted ==> st'.checks <= cancel.n + 2)
            && ((st'.contacted == st.contacted && st'.halted && st'.percents == st.percents)
                || (st'.contacted == st.contacted + 1 && st'.percents == st.percents + [0]
                    && (st'.halted || st'.stored == st'.contacted)))
  {
    var st' := MeterStep(ms, points, cancel, st);
    if !IsSet(cancel, st.checks) {
      var m := ms[st.stored];
      var run := points(m, st.stored, FirstRun(st));
      assert EndsOnEvent(cancel, FirstRun(st), run);
      assert st.contacted / |ms| == 0;
      assert st'.checks == run.checks + 1;
    }
  }

  /** The order of events over the meters: each meter contacted gets exactly one
      progress message, at 0%; the loop ends either after the last meter, with
      every meter stored, or once the event is seen, with at most the
      interrupted meter contacted but not stored and at most one more check
      after the first one that saw the event. */
  lemma {:induction false} ReadMetersOutline(ms: seq<Meter>, points: PointsLoop, cancel: Cancel, st: Poll)
    requires StopsOnEvent(points, cancel)
    requires st.contacted == st.stored <= |ms| && !st.halted && !Seen(cancel, st.checks)
    ensures var r := ReadMeters(ms, points, cancel, st);
            && r.stored <= r.contacted <= r.stored + 1
            && r.contacted <= |ms|
            && r.percents == st.percents + Zeros(r.contacted - st.contacted)
            && (r.halted <==> Seen(cancel, r.checks))
            && (r.halted ==> r.checks <= cancel.n + 2)
            && (!r.halted ==> r.stored == |ms|)
    decreases |ms| - st.stored
  {
    if st.stored == |ms| {
      ReadMetersDone(ms, points, cancel, st);
      assert st.percents + Zeros(0) == st.percents;
    } else {
      var st' := MeterStep(ms, points, cancel, st);
      ReadMetersContinue(ms, points, cancel, st);
      MeterStepOutline(ms, points, cancel, st);
      if st'.halted {
        ReadMetersDone(ms, points, cancel, st');
        assert st.percents + Zeros(0) == st.percents;
        ZerosCons(st.percents, 0);
      } else {
        ReadMetersOutline(ms, points, cancel, st');
        var n := ReadMeters(ms, points, cancel, st').contacted - st'.contacted;
        ZerosCons(st.percents, n);
      }
    }
  }

  /** One pass over a meter leaves `tags` alone or stores the meter under its
      uuid, with its `measure_name`. */
  lemma MeterStepTags(ms: seq<Meter>, points: PointsLoop, cancel: Cancel, st: Poll)
    requires st.stored < |ms|
    ensures var st' := MeterStep(ms, points, cancel, st);
            || (st'.halted && st'.stored == st.stored && st'.tags == st.tags)
            || (st'.stored == st.stored + 1 && st'.halted == st.halted
                && exists t: Tags :: MeasureNameKey in t && st'.tags == st.tags[ms[st.stored].uuid := t])
  {
    var st' := MeterStep(ms, points, cancel, st);
    if !st'.halted || st'.stored != st.stored {
      var m := ms[st.stored];
      var run := points(m, st.stored, FirstRun(st));
      var t := run.meterTags[MeasureNameKey := Name(m.measureType)];
      assert MeasureNameKey in t && st'.tags == st.tags[m.uuid := t];
    }
  }

  /** What a stored meter's result holds: its `measure_name`, and otherwise
      exactly the values of the points read and decoded without error before
      the first point that raises (each under its own name when names are
      distinct). */
  lemma MeterResultEntries(m: Meter, j: nat, respond: (nat, nat) -> Response)
    ensures var t := MeterResult(m, j, respond);
            var f := FirstFailure(m, j, respond, 0);
            && t[MeasureNameKey] == Name(m.measureType)
            && t.Keys == SuccessItems(m, j, respond, 0, f) + {MeasureNameKey}
            && OnlySuccesses(m, j, respond, f, t - {MeasureNameKey})
            && (forall k :: (0 <= k < f && Success(m, j, respond, k).Some? && DistinctItems(m)
                             && m.points[k].item != MeasureNameKey) ==> t[m.points[k].item] == Success(m, j, respond, k).value)
  {
    var f := FirstFailure(m, j, respond, 0);
    var c := Collected(m, j, respond, 0, f, map[]);
    CollectedKeys(m, j, respond, 0, f, map[]);
    CollectedOnlySuccesses(m, j, respond, 0, f, map[]);
    forall k | 0 <= k < f && Success(m, j, respond, k).Some? && DistinctItems(m)
      ensures c[m.points[k].item] == Success(m, j, respond, k).value
    {
      CollectedValue(m, j, respond, 0, f, map[], k);
    }
  }

  /** A meter that is stored gets exactly `MeterResult` under its uuid; this
      holds too when a point raised part way. */
  lemma MeterStepStores(ms: seq<Meter>, respond: (nat, nat) -> Response, cancel: Cancel, st: Poll)
    requires st.stored < |ms|
    ensures var m := ms[st.stored];
            var st' := MeterStep(ms, PointsOf(respond, cancel), cancel, st);
            st'.stored == st.stored + 1 ==> st'.tags == st.tags[m.uuid := MeterResult(m, st.stored, respond)]
  {
    var m := ms[st.stored];
    PointsOfApply(respond, cancel, m, st.stored, FirstRun(st));
    ReadPointsCollects(m, st.stored, respond, cancel, FirstRun(st));
    ReadPointsStopsAtFailure(m, st.stored, respond, cancel, FirstRun(st));
  }

  /** The loop over the meters only adds or overwrites `tags[uuid]` for the
      meters it stores, and leaves every other entry untouched. */
  lemma {:induction false} ReadMetersTags(ms: seq<Meter>, points: PointsLoop, cancel: Cancel, st: Poll)
    ensures var r := ReadMeters(ms, points, cancel, st);
            && r.tags.Keys == st.tags.Keys + UuidsIn(ms, st.stored, r.stored)
            && (forall u :: u in st.tags && u !in UuidsIn(ms, st.stored, r.stored) ==> r.tags[u] == st.tags[u])
    decreases |ms| - st.stored, if st.halted then 0 else 1
  {
    if !st.halted && st.stored < |ms| {
      var st' := MeterStep(ms, points, cancel, st);
      ReadMetersContinue(ms, points, cancel, st);
      MeterStepTags(ms, points, cancel, st);
      if st'.stored == st.stored + 1 {
        var r := ReadMeters(ms, points, cancel, st');
        var u := ms[st.stored].uuid;
        var t: Tags :| MeasureNameKey in t && st'.tags == st.tags[u := t];
        ReadMetersTags(ms, points, cancel, st');
        UuidsInSplit(ms, st.stored, r.stored);
        forall x | x in st.tags && x !in UuidsIn(ms, st.stored, r.stored)
          ensures r.tags[x] == st.tags[x]
        {
          assert x != u && x in st'.tags;
        }
      } else {
        ReadMetersDone(ms, points, cancel, st');
        assert UuidsIn(ms, st.stored, st'.stored) == {};
      }
    } else {
      ReadMetersDone(ms, points, cancel, st);
      assert UuidsIn(ms, st.stored, st.stored) == {};
    }
  }

  /** Every meter the loop stores ends up with a `measure_name` entry. */
  lemma {:induction false} ReadMetersMeasureNames(ms: seq<Meter>, points: PointsLoop, cancel: Cancel, st: Poll)
    ensures var r := ReadMeters(ms, points, cancel, st);
            forall u :: u in UuidsIn(ms, st.stored, r.stored) ==> u in r.tags && MeasureNameKey in r.tags[u]
    decreases |ms| - st.stored, if st.halted then 0 else 1
  {
    if !st.halted && st.stored < |ms| {
      var st' := MeterStep(ms, points, cancel, st);
      ReadMetersContinue(ms, points, cancel, st);
      MeterStepTags(ms, points, cancel, st);
      if st'.stored == st.stored + 1 {
        var r := ReadMeters(ms, points, cancel, st');
        var u := ms[st.stored].uuid;
        var t: Tags :| MeasureNameKey in t && st'.tags == st.tags[u := t];
        ReadMetersMeasureNames(ms, points, cancel, st');
        ReadMetersTags(ms, points, cancel, st');
        UuidsInSplit(ms, st.stored, r.stored);
        forall x | x in UuidsIn(ms, st.stored, r.stored)
          ensures x in r.tags && MeasureNameKey in r.tags[x]
        {
          if x !in UuidsIn(ms, st'.stored, r.stored) {
            assert x == u && r.tags[u] == t;
          }
        }
      } else {
        ReadMetersDone(ms, points, cancel, st');
        assert UuidsIn(ms, st.stored, st'.stored) == {};
      }
    } else {
      ReadMetersDone(ms, points, cancel, st);
      assert UuidsIn(ms, st.stored, st.stored) == {};
    }
  }

  /** No meter after number `jj`, up to `hi`, has the same uuid. */
  ghost predicate LastWithUuid(ms: seq<Meter>, jj: nat, hi: nat)
    requires jj < |ms|
  {
    forall jj' :: jj < jj' < hi && jj' < |ms| ==> ms[jj'].uuid != ms[jj].uuid
  }

  /** Every meter numbered `lo..hi` holds `MeterResult` in `tags`, unless a
      later one up to `hi` has the same uuid. */
  ghost predicate StoredResults(ms: seq<Meter>, respond: (nat, nat) -> Response, lo: nat, hi: nat, tags: map<string, Tags>)
  {
    forall jj :: lo <= jj < hi && jj < |ms| && LastWithUuid(ms, jj, hi) ==>
      ms[jj].uuid in tags && tags[ms[jj].uuid] == MeterResult(ms[jj], jj, respond)
  }

  /** Every meter the loop stores holds `MeterResult` at the end, unless a
      later stored meter has the same uuid. */
  lemma {:induction false} ReadMetersResults(ms: seq<Meter>, respond: (nat, nat) -> Response, cancel: Cancel, st: Poll)
    ensures var r := ReadMeters(ms, PointsOf(respond, cancel), cancel, st);
            StoredResults(ms, respond, st.stored, r.stored, r.tags)
    decreases |ms| - st.stored, if st.halted then 0 else 1
  {
    var points := PointsOf(respond, cancel);
    if !st.halted && st.stored < |ms| {
      var st' := MeterStep(ms, points, cancel, st);
      ReadMetersContinue(ms, points, cancel, st);
      var r := ReadMeters(ms, points, cancel, st');
      if st'.stored == st.stored + 1 {
        var m := ms[st.stored];
        ReadMetersResults(ms, respond, cancel, st');
        MeterStepStores(ms, respond, cancel, st);
        ReadMetersTags(ms, points, cancel, st');
        forall jj | st.stored <= jj < r.stored && jj < |ms| && LastWithUuid(ms, jj, r.stored)
          ensures ms[jj].uuid in r.tags && r.tags[ms[jj].uuid] == MeterResult(ms[jj], jj, respond)
        {
          if jj == st.stored {
            assert m.uuid !in UuidsIn(ms, st'.stored, r.stored);
          }
        }
      } else {
        ReadMetersDone(ms, points, cancel, st');
      }
    }
  }

  /** The loop over the meters removes from the error table only composite
      keys of configured points, and leaves every key that is neither such a key
      nor a meter's ip exactly as it was. */
  lemma {:induction false} ReadMetersErrorFrame(ms: seq<Meter>, points: PointsLoop, cancel: Cancel, st: Poll)
    requires FramesErrors(points)
    ensures ErrorsFramed(FleetKeys(ms), Addresses(ms), st.error, ReadMeters(ms, points, cancel, st).error)
    decreases |ms| - st.stored, if st.halted then 0 else 1
  {
    var r := ReadMeters(ms, points, cancel, st);
    if !st.halted && st.stored < |ms| {
      var st' := MeterStep(ms, points, cancel, st);
      assert r == ReadMeters(ms, points, cancel, st');
      ReadMetersErrorFrame(ms, points, cancel, st');
      var m := ms[st.stored];
      assert PointKeys(m) <= FleetKeys(ms);
      assert {m.ip} <= Addresses(ms);
      if !IsSet(cancel, st.checks) {
        assert ErrorsFramed(PointKeys(m), {m.ip}, st.error, st'.error);
      } else {
        assert st'.error == st.error;
      }
      ErrorsFramedChain(FleetKeys(ms), Addresses(ms), PointKeys(m), {m.ip}, st.error, st'.error, r.error);
    }
  }

  /** No meter numbered `lo..hi` uses `key` as a composite key or as its ip. */
  ghost predicate Untouched(ms: seq<Meter>, lo: nat, hi: nat, key: string)
  {
    forall jj :: lo <= jj < hi && jj < |ms| ==> key !in PointKeys(ms[jj]) && key != ms[jj].ip
  }

  /** The meters loop leaves alone a key that no meter it contacts uses. */
  lemma {:induction false} ReadMetersKeyFrame(ms: seq<Meter>, points: PointsLoop, cancel: Cancel, st: Poll, key: string)
    requires FramesErrors(points) && st.contacted == st.stored
    ensures var r := ReadMeters(ms, points, cancel, st);
            Untouched(ms, st.stored, r.contacted, key) ==> (key in r.error <==> key in st.error)
    decreases |ms| - st.stored, if st.halted then 0 else 1
  {
    if !st.halted && st.stored < |ms| {
      var st' := MeterStep(ms, points, cancel, st);
      var m := ms[st.stored];
      ReadMetersContinue(ms, points, cancel, st);
      if IsSet(cancel, st.checks) {
        ReadMetersDone(ms, points, cancel, st');
      } else {
        var r := ReadMeters(ms, points, cancel, st');
        if Untouched(ms, st.stored, r.contacted, key) {
          assert st.stored < st'.contacted <= r.contacted;
          assert key !in PointKeys(m) && key != m.ip;
          assert ErrorsFramed(PointKeys(m), {m.ip}, st.error, st'.error);
          if st'.stored == st.stored + 1 {
            ReadMetersKeyFrame(ms, points, cancel, st', key);
          } else {
            ReadMetersDone(ms, points, cancel, st');
          }
        }
      }
    } else {
      ReadMetersDone(ms, points, cancel, st);
    }
  }

  /** What the error table says about meter `m`'s points after its points loop
      ended at its first raising point: each point before it has its composite
      key exactly when it got an error response; the raising point, when its
      register type is known, has it after an error response and not after a
      register block. */
  ghost predicate ErrorKeysAfter(m: Meter, j: nat, respond: (nat, nat) -> Response, error: ErrorTable)
  {
    var f := FirstFailure(m, j, respond, 0);
    && KeysMatchResponses(m, j, respond, 0, f, error)
    && (f < |m.points| && ValidRegisterType(m.points[f]) ==>
          && (respond(j, f).ErrorResponse? ==> CompositeKey(m, m.points[f]) in error)
          && (respond(j, f).Registers? ==> CompositeKey(m, m.points[f]) !in error))
  }

  /** `ErrorKeysAfter` depends only on which of the meter's composite keys are present. */
  lemma ErrorKeysAfterTransfer(m: Meter, j: nat, respond: (nat, nat) -> Response, e1: ErrorTable, e2: ErrorTable)
    requires forall k :: 0 <= k < |m.points| ==> (CompositeKey(m, m.points[k]) in e1 <==> CompositeKey(m, m.points[k]) in e2)
    requires ErrorKeysAfter(m, j, respond, e1)
    ensures ErrorKeysAfter(m, j, respond, e2)
  {
  }

  /** A pass of the meters loop that stores a meter with distinct composite
      keys leaves them as `ErrorKeysAfter` says. */
  lemma MeterStepErrorKeys(ms: seq<Meter>, respond: (nat, nat) -> Response, cancel: Cancel, st: Poll)
    requires st.stored < |ms| && DistinctKeys(ms[st.stored])
    ensures var st' := MeterStep(ms, PointsOf(respond, cancel), cancel, st);
            st'.stored == st.stored + 1 ==> ErrorKeysAfter(ms[st.stored], st.stored, respond, st'.error)
  {
    var m := ms[st.stored];
    PointsOfApply(respond, cancel, m, st.stored, FirstRun(st));
    ReadPointsErrorKeys(m, st.stored, respond, cancel, FirstRun(st));
    ReadPointsFailedKey(m, st.stored, respond, cancel, FirstRun(st));
    ReadPointsStopsAtFailure(m, st.stored, respond, cancel, FirstRun(st));
  }

  /** No meter after number `jj`, up to `hi`, uses one of meter `jj`'s
      composite keys, as a composite key or as its ip. */
  ghost predicate Settled(ms: seq<Meter>, jj: nat, hi: nat)
    requires jj < |ms|
  {
    forall k :: 0 <= k < |ms[jj].points| ==> Untouched(ms, jj + 1, hi, CompositeKey(ms[jj], ms[jj].points[k]))
  }

  /** Every meter numbered `lo..hi` with distinct composite keys, whose keys no
      later meter up to `touched` uses, has them as `ErrorKeysAfter` says. */
  ghost predicate ErrorResults(ms: seq<Meter>, respond: (nat, nat) -> Response, lo: nat, hi: nat, touched: nat, error: ErrorTable)
  {
    forall jj :: lo <= jj < hi && jj < |ms| && DistinctKeys(ms[jj]) && Settled(ms, jj, touched) ==>
      ErrorKeysAfter(ms[jj], jj, respond, error)
  }

  /** A meter stored by one pass keeps its composite keys as `ErrorKeysAfter`
      says through the rest of the meters loop, when no later meter contacted
      uses them. */
  lemma StoredMeterErrorKeys(ms: seq<Meter>, respond: (nat, nat) -> Response, cancel: Cancel, st: Poll)
    requires st.stored < |ms| && st.contacted == st.stored && DistinctKeys(ms[st.stored])
    ensures var points := PointsOf(respond, cancel);
            var st' := MeterStep(ms, points, cancel, st);
            var r := ReadMeters(ms, points, cancel, st');
            st'.stored == st.stored + 1 && Settled(ms, st.stored, r.contacted) ==>
              ErrorKeysAfter(ms[st.stored], st.stored, respond, r.error)
  {
    var points := PointsOf(respond, cancel);
    var st' := MeterStep(ms, points, cancel, st);
    var r := ReadMeters(ms, points, cancel, st');
    var m := ms[st.stored];
    if st'.stored == st.stored + 1 && Settled(ms, st.stored, r.contacted) {
      assert st'.contacted == st'.stored;
      PointsOfFramesErrors(respond, cancel);
      MeterStepErrorKeys(ms, respond, cancel, st);
      forall k | 0 <= k < |m.points|
        ensures CompositeKey(m, m.points[k]) in st'.error <==> CompositeKey(m, m.points[k]) in r.error
      {
        ReadMetersKeyFrame(ms, points, cancel, st', CompositeKey(m, m.points[k]));
      }
      ErrorKeysAfterTransfer(m, st.stored, respond, st'.error, r.error);
    }
  }

  /** The self-healing rule of the error table, for the meters loop: every
      stored meter whose composite keys are distinct and used by no later
      contacted meter ends with them as `ErrorKeysAfter` says. */
  lemma {:induction false} ReadMetersErrorKeys(ms: seq<Meter>, respond: (nat, nat) -> Response, cancel: Cancel, st: Poll)
    requires st.contacted == st.stored
    ensures var r := ReadMeters(ms, PointsOf(respond, cancel), cancel, st);
            ErrorResults(ms, respond, st.stored, r.stored, r.contacted, r.error)
    decreases |ms| - st.stored, if st.halted then 0 else 1
  {
    var points := PointsOf(respond, cancel);
    if !st.halted && st.stored < |ms| {
      var st' := MeterStep(ms, points, cancel, st);
      ReadMetersContinue(ms, points, cancel, st);
      if st'.stored == st.stored + 1 {
        var r := ReadMeters(ms, points, cancel, st');
        assert st'.contacted == st'.stored;
        ReadMetersErrorKeys(ms, respond, cancel, st');
        forall jj | st.stored <= jj < r.stored && jj < |ms| && DistinctKeys(ms[jj]) && Settled(ms, jj, r.contacted)
          ensures ErrorKeysAfter(ms[jj], jj, respond, r.error)
        {
          if jj == st.stored {
            StoredMeterErrorKeys(ms, respond, cancel, st);
          }
        }
      } else {
        ReadMetersDone(ms, points, cancel, st');
      }
    } else {
      ReadMetersDone(ms, points, cancel, st);
    }
  }

  /** The meter the event interrupts, after its points loop (contacted but not
      stored), keeps the composite keys of the points it went past as their
      responses say. */
  lemma {:induction false} ReadMetersInterruptedErrorKeys(ms: seq<Meter>, respond: (nat, nat) -> Response, cancel: Cancel, st: Poll)
    requires st.contacted == st.stored
    ensures var r := ReadMeters(ms, PointsOf(respond, cancel), cancel, st);
            r.contacted == r.stored + 1 && r.stored < |ms| && DistinctKeys(ms[r.stored]) ==>
              KeysMatchResponses(ms[r.stored], r.stored, respond, 0, r.reached, r.error)
    decreases |ms| - st.stored, if st.halted then 0 else 1
  {
    var points := PointsOf(respond, cancel);
    if !st.halted && st.stored < |ms| {
      var st' := MeterStep(ms, points, cancel, st);
      ReadMetersContinue(ms, points, cancel, st);
      if st'.stored == st.stored + 1 {
        assert st'.contacted == st'.stored;
        ReadMetersInterruptedErrorKeys(ms, respond, cancel, st');
      } else {
        ReadMetersDone(ms, points, cancel, st');
        if st'.contacted == st.contacted + 1 && DistinctKeys(ms[st.stored]) {
          var m := ms[st.stored];
          PointsOfApply(respond, cancel, m, st.stored, FirstRun(st));
          ReadPointsErrorKeys(m, st.stored, respond, cancel, FirstRun(st));
        }
      }
    } else {
      ReadMetersDone(ms, points, cancel, st);
    }
  }

  /** Two points loops that agree on every meter contacted give the same run. */
  lemma {:induction false} ReadMetersAgree(ms: seq<Meter>, points: PointsLoop, points': PointsLoop, cancel: Cancel, st: Poll)
    requires st.contacted == st.stored
    requires forall m: Meter, jj: nat, run: MeterRun :: st.stored <= jj < ReadMeters(ms, points, cancel, st).contacted ==> points(m, jj, run) == points'(m, jj, run)
    ensures ReadMeters(ms, points', cancel, st) == ReadMeters(ms, points, cancel, st)
    decreases |ms| - st.stored, if st.halted then 0 else 1
  {
    var r := ReadMeters(ms, points, cancel, st);
    if !st.halted && st.stored < |ms| {
      var st' := MeterStep(ms, points, cancel, st);
      assert r == ReadMeters(ms, points, cancel, st');
      if !IsSet(cancel, st.checks) {
        assert st.stored < st'.contacted <= r.contacted;
        var m := ms[st.stored];
        assert points(m, st.stored, FirstRun(st)) == points'(m, st.stored, FirstRun(st));
        assert MeterStep(ms, points', cancel, st) == st';
        if !st'.halted {
          ReadMetersAgree(ms, points, points', cancel, st');
        }
      }
    }
  }

  /* ---------- read ---------- */

  /** The order of events of `read`: one progress message per meter contacted,
      each the empty bar at 0%; the meters stored are a prefix of the
      configured list, followed by at most one meter contacted and not stored;
      the loop stops early exactly when the event is seen, with at most one
      check after the first one that saw it; without the event every meter is
      stored. */
  lemma ReadOutline(ms: seq<Meter>, respond: (nat, nat) -> Response, cancel: Cancel,
                    error: ErrorTable, tags: map<string, Tags>, status: string)
    ensures var r := Read(ms, respond, cancel, error, tags, status);
            && r.stored <= r.contacted <= r.stored + 1
            && r.contacted <= |ms|
            && Messages(r.percents) == seq(r.contacted, _ => ReadingBanner)
            && (r.halted <==> Seen(cancel, r.checks))
            && (r.halted ==> r.checks <= cancel.n + 2)
            && (!r.halted ==> r.stored == |ms|)
            && (cancel.Never? ==> r.stored == |ms|)
  {
    var r := Read(ms, respond, cancel, error, tags, status);
    PointsOfStopsOnEvent(respond, cancel);
    ReadMetersOutline(ms, PointsOf(respond, cancel), cancel, StartPoll(error, tags, status));
    assert r.percents == Zeros(r.contacted);
    ZeroMessages(r.contacted);
  }

  /** `read` adds or overwrites `tags[uuid]` only for the meters it stores,
      each with its `measure_name`, and leaves the caller's other entries
      untouched. */
  lemma ReadTags(ms: seq<Meter>, respond: (nat, nat) -> Response, cancel: Cancel,
                 error: ErrorTable, tags: map<string, Tags>, status: string)
    ensures var r := Read(ms, respond, cancel, error, tags, status);
            && r.tags.Keys == tags.Keys + UuidsIn(ms, 0, r.stored)
            && (forall u :: u in tags && u !in UuidsIn(ms, 0, r.stored) ==> r.tags[u] == tags[u])
            && (forall jj :: 0 <= jj < r.stored && jj < |ms| ==> MeasureNameKey in r.tags[ms[jj].uuid])
  {
    var r := Read(ms, respond, cancel, error, tags, status);
    ReadMetersTags(ms, PointsOf(respond, cancel), cancel, StartPoll(error, tags, status));
    ReadMetersMeasureNames(ms, PointsOf(respond, cancel), cancel, StartPoll(error, tags, status));
    forall jj | 0 <= jj < r.stored && jj < |ms|
      ensures MeasureNameKey in r.tags[ms[jj].uuid]
    {
      assert ms[jj].uuid in UuidsIn(ms, 0, r.stored);
    }
  }

  /** The result `read` stores for a meter is exactly that meter's points
      read without error before its first failing point, plus `measure_name`,
      unless a later stored meter shares its uuid. */
  lemma ReadStoredResults(ms: seq<Meter>, respond: (nat, nat) -> Response, cancel: Cancel,
                          error: ErrorTable, tags: map<string, Tags>, status: string)
    ensures var r := Read(ms, respond, cancel, error, tags, status);
            forall jj :: 0 <= jj < r.stored && jj < |ms| && LastWithUuid(ms, jj, r.stored) ==>
              ms[jj].uuid in r.tags && r.tags[ms[jj].uuid] == MeterResult(ms[jj], jj, respond)
  {
    ReadMetersResults(ms, respond, cancel, StartPoll(error, tags, status));
  }

  /** `read` removes from the error table only composite keys of configured
      points, and leaves every key that is neither such a key nor a meter's ip
      exactly as it was. */
  lemma ReadErrorFrame(ms: seq<Meter>, respond: (nat, nat) -> Response, cancel: Cancel,
                       error: ErrorTable, tags: map<string, Tags>, status: string)
    ensures ErrorsFramed(FleetKeys(ms), Addresses(ms), error, Read(ms, respond, cancel, error, tags, status).error)
  {
    PointsOfFramesErrors(respond, cancel);
    ReadMetersErrorFrame(ms, PointsOf(respond, cancel), cancel, StartPoll(error, tags, status));
  }

  /** The self-healing rule of the error table, for `read`: for every stored
      meter whose composite keys are distinct, differ from its ip and are used
      by no later contacted meter, the key of each point before its first
      raising point is present exactly when that point got an error response;
      the raising point's key, when its register type is known, is present after
      an error response and absent after a register block. */
  lemma ReadErrorKeys(ms: seq<Meter>, respond: (nat, nat) -> Response, cancel: Cancel,
                      error: ErrorTable, tags: map<string, Tags>, status: string)
    ensures var r := Read(ms, respond, cancel, error, tags, status);
            forall jj :: 0 <= jj < r.stored && jj < |ms| && DistinctKeys(ms[jj]) && Settled(ms, jj, r.contacted) ==>
              ErrorKeysAfter(ms[jj], jj, respond, r.error)
  {
    ReadMetersErrorKeys(ms, respond, cancel, StartPoll(error, tags, status));
  }

  /** The self-healing rule of the error table, for the meter `read` was
      interrupted in after its points loop: it is contacted but not stored, and
      the composite key of each point its loop went past is present exactly when
      that point's read got an error response, when its keys are distinct and
      differ from its ip. */
  lemma ReadInterruptedErrorKeys(ms: seq<Meter>, respond: (nat, nat) -> Response, cancel: Cancel,
                                 error: ErrorTable, tags: map<string, Tags>, status: string)
    ensures var r := Read(ms, respond, cancel, error, tags, status);
            r.contacted == r.stored + 1 && r.stored < |ms| && DistinctKeys(ms[r.stored]) ==>
              KeysMatchResponses(ms[r.stored], r.stored, respond, 0, r.reached, r.error)
  {
    ReadMetersInterruptedErrorKeys(ms, respond, cancel, StartPoll(error, tags, status));
  }

  /** Address keys survive `read`: a key with fewer than three spaces that is in
      the error table before is still there after. */
  lemma AddressKeysSurvive(ms: seq<Meter>, respond: (nat, nat) -> Response, cancel: Cancel,
                           error: ErrorTable, tags: map<string, Tags>, status: string, key: string)
    requires key in error && Spaces(key) < 3
    ensures key in Read(ms, respond, cancel, error, tags, status).error
  {
    assert key !in FleetKeys(ms);
    ReadErrorFrame(ms, respond, cancel, error, tags, status);
  }

  /** No meter after the one where `read` stopped is contacted: the result does
      not depend on the responses later meters would have given. */
  lemma ReadIgnoresLaterMeters(ms: seq<Meter>, respond: (nat, nat) -> Response, respond': (nat, nat) -> Response,
                               cancel: Cancel, error: ErrorTable, tags: map<string, Tags>, status: string)
    requires forall jj: nat, k: nat :: jj < Read(ms, respond, cancel, error, tags, status).contacted ==> respond(jj, k) == respond'(jj, k)
    ensures Read(ms, respond', cancel, error, tags, status) == Read(ms, respond, cancel, error, tags, status)
  {
    var st := StartPoll(error, tags, status);
    var r := Read(ms, respond, cancel, error, tags, status);
    forall m: Meter, jj: nat, run: MeterRun | 0 <= jj < r.contacted
      ensures PointsOf(respond, cancel)(m, jj, run) == PointsOf(respond', cancel)(m, jj, run)
    {
      ReadPointsIgnoresLaterPoints(m, jj, respond, respond', cancel, run);
    }
    ReadMetersAgree(ms, PointsOf(respond, cancel), PointsOf(respond', cancel), cancel, st);
  }

  /* ---------- scenarios ---------- */

  /** An event set before `read` starts: nothing is queued, contacted or stored,
      and the error table is unchanged. */
  lemma CancelledBeforeStart(ms: seq<Meter>, respond: (nat, nat) -> Response, error: ErrorTable, tags: map<string, Tags>, status: string)
    ensures var r := Read(ms, respond, AfterChecks(0), error, tags, status);
            r.error == error && r.tags == tags && r.percents == [] && r.contacted == 0
            && (|ms| > 0 ==> r.halted)
  {
    var st := StartPoll(error, tags, status);
    if |ms| > 0 {
      assert Read(ms, respond, AfterChecks(0), error, tags, status)
          == ReadMeters(ms, PointsOf(respond, AfterChecks(0)), AfterChecks(0), MeterStep(ms, PointsOf(respond, AfterChecks(0)), AfterChecks(0), st));
    }
  }

  /** A meter whose first read raises (a connection that could not be opened):
      the exception text is stored under its ip, none of its points is read
      after that, and it is still stored, with `measure_name` alone. */
  lemma UnreachableMeter(ms: seq<Meter>, respond: (nat, nat) -> Response, st: Poll, msg: string)
    requires st.stored < |ms| && !st.halted
    requires |ms[st.stored].points| > 0 && ValidRegisterType(ms[st.stored].points[0])
    requires respond(st.stored, 0) == ReadRaised(msg)
    ensures var m := ms[st.stored];
            var r := MeterStep(ms, PointsOf(respond, Never), Never, st);
            && r.error == st.error[m.ip := Caught(Raised(msg))]
            && r.tags == st.tags[m.uuid := map[MeasureNameKey := Name(m.measureType)]]
            && r.stored == st.stored + 1
  {
    var m := ms[st.stored];
    var run := ReadPoints(m, st.stored, respond, Never, FirstRun(st));
    var e := TryPoint(m, m.points[0], respond(st.stored, 0), st.error, map[], st.status);
    assert e.raised == Some(Raised(msg));
    assert run.error == st.error[m.ip := Caught(Raised(msg))];
  }

  /** Two points on one meter, the first answered by a classified protocol
      error and the second read successfully: the meter's result holds only the
      second point's value, and the error table gains exactly the first point's
      key (its composite key differs from the second's). */
  lemma ErrorThenSuccess(m: Meter, respond: (nat, nat) -> Response, error: ErrorTable, status: string, v: real)
    requires |m.points| == 2 && ValidRegisterType(m.points[0]) && ValidRegisterType(m.points[1])
    requires m.points[1].valueType in ValueTypes
    requires CompositeKey(m, m.points[0]) !in error && CompositeKey(m, m.points[1]) !in error
    requires CompositeKey(m, m.points[0]) != CompositeKey(m, m.points[1])
    requires respond(0, 0) == ErrorResponse(IoError) && respond(0, 1) == Registers(Decoded(v))
    ensures var r := ReadPoints(m, 0, respond, Never, MeterRun(error, map[], status, 1, 0));
            && r.meterTags == map[m.points[1].item := Num(Scaled(v, m.points[1].scale))]
            && r.error == error[CompositeKey(m, m.points[0]) := Flag]
  {
    var k0 := CompositeKey(m, m.points[0]);
    var e0 := TryPoint(m, m.points[0], respond(0, 0), error, map[], status);
    var run1 := MeterRun(e0.error, e0.meterTags, e0.status, 2, 1);
    var e1 := TryPoint(m, m.points[1], respond(0, 1), e0.error, e0.meterTags, e0.status);
    var run2 := MeterRun(e1.error, e1.meterTags, e1.status, 3, 2);
    assert e0.raised.None? && e0.error == error[k0 := Flag] && e0.meterTags == map[];
    assert e1.raised.None? && e1.error == e0.error - {CompositeKey(m, m.points[1])};
    assert ReadPoints(m, 0, respond, Never, MeterRun(error, map[], status, 1, 0)) == ReadPoints(m, 0, respond, Never, run1);
    assert ReadPoints(m, 0, respond, Never, run1) == ReadPoints(m, 0, respond, Never, run2);
    assert ReadPoints(m, 0, respond, Never, run2) == run2;
    assert e1.error == error[k0 := Flag];
  }
}
