/**
 * The component record of component/component.go: one user lifecycle, its
 * declared dependency names, and the `started`/`result` pair that the
 * record's own Start and Stop update in place.
 */
module Components {
  import opened Options
  import opened Lifecycles

  /** The errors a record returns (the wrapped message text is not modelled). */
  datatype ComponentError = StartFailed | StopFailed

  /** A call the record made on its user lifecycle, with the reply it got. */
  datatype LifecycleCall =
    | StartCall(ctx: Context, startReply: StartReply)
    | StopCall(ctx: Context, stopReply: StopReply)

  /** The mutable part of a record. */
  datatype RecordState = RecordState(started: bool, result: Lifecycle)

  /** The mutable part of a record together with the history of its lifecycle calls. */
  datatype Snapshot = Snapshot(started: bool, result: Lifecycle, calls: seq<LifecycleCall>)

  /** The calls that change a record: a start that succeeded, a stop that succeeded. */
  predicate Succeeded(c: LifecycleCall)
  {
    (c.StartCall? && c.startReply.StartOk?) || (c.StopCall? && c.stopReply.StopOk?)
  }

  /** The record state that a history of lifecycle calls leaves behind, from a fresh record on. */
  function Replay(calls: seq<LifecycleCall>): RecordState
  {
    if calls == [] then RecordState(false, Nil)
    else
      var before := Replay(calls[..|calls| - 1]);
      match calls[|calls| - 1]
      case StartCall(_, StartOk(v)) => RecordState(true, v)
      case StopCall(_, StopOk) => RecordState(false, before.result)
      case _ => before
  }

  /**
   * A started record holds the value of its last successful start, and no
   * successful stop came after it.
   */
  lemma {:induction false} StartedRecordHoldsLastStart(calls: seq<LifecycleCall>) returns (i: nat)
    requires Replay(calls).started
    ensures i < |calls| && calls[i].StartCall? && calls[i].startReply == StartOk(Replay(calls).result)
    ensures forall j :: i < j < |calls| ==> !Succeeded(calls[j])
  {
    var last := calls[|calls| - 1];
    var init := calls[..|calls| - 1];
    if Succeeded(last) {
      i := |calls| - 1;
    } else {
      assert Replay(calls) == Replay(init);
      i := StartedRecordHoldsLastStart(init);
    }
  }

  /** A record that is not started has seen no successful start since its last successful stop. */
  lemma {:induction false} StoppedRecordHasNoLiveStart(calls: seq<LifecycleCall>, i: nat)
    requires !Replay(calls).started
    requires i < |calls| && calls[i].StartCall? && calls[i].startReply.StartOk?
    ensures exists j :: i < j < |calls| && calls[j].StopCall? && calls[j].stopReply.StopOk?
  {
    var last := calls[|calls| - 1];
    var init := calls[..|calls| - 1];
    if last.StopCall? && last.stopReply.StopOk? {
      assert i < |calls| - 1;
    } else {
      assert i < |calls| - 1;
      assert Replay(calls) == Replay(init);
      StoppedRecordHasNoLiveStart(init, i);
      var j :| i < j < |init| && init[j].StopCall? && init[j].stopReply.StopOk?;
      assert calls[j] == init[j];
    }
  }

  /** The state is the one the call history explains. */
  predicate Explains(s: Snapshot)
  {
    Replay(s.calls) == RecordState(s.started, s.result)
  }

  /**
   * A record after its Start is called with `ctx`: a started record is left
   * alone; otherwise the lifecycle's Start is called, and only a success
   * marks the record started and keeps the value returned.
   */
  function AfterStart(was: Snapshot, ctx: Context, reply: StartReply): Snapshot
  {
    if was.started then was
    else
      var calls := was.calls + [StartCall(ctx, reply)];
      match reply
      case StartOk(v) => Snapshot(true, v, calls)
      case StartErr => Snapshot(false, was.result, calls)
  }

  /**
   * A record after its Stop is called with `ctx`: a record that is not
   * started is left alone; otherwise the lifecycle's Stop is called, and
   * only a success marks the record stopped.
   */
  function AfterStop(was: Snapshot, ctx: Context, reply: StopReply): Snapshot
  {
    if !was.started then was
    else Snapshot(reply.StopErr?, was.result, was.calls + [StopCall(ctx, reply)])
  }

  /** A start keeps the state explained by the call history. */
  lemma AfterStartExplained(was: Snapshot, ctx: Context, reply: StartReply)
    ensures Explains(was) ==> Explains(AfterStart(was, ctx, reply))
  {
    var calls := was.calls + [StartCall(ctx, reply)];
    assert calls[..|calls| - 1] == was.calls;
  }

  /** A stop keeps the state explained by the call history. */
  lemma AfterStopExplained(was: Snapshot, ctx: Context, reply: StopReply)
    ensures Explains(was) ==> Explains(AfterStop(was, ctx, reply))
  {
    var calls := was.calls + [StopCall(ctx, reply)];
    assert calls[..|calls| - 1] == was.calls;
  }

  /** Starting twice is starting once: once started, a record ignores further starts. */
  lemma StartIdempotent(was: Snapshot, ctx: Context, reply: StartReply, ctx': Context, reply': StartReply)
    requires reply.StartOk? || was.started
    ensures AfterStart(AfterStart(was, ctx, reply), ctx', reply') == AfterStart(was, ctx, reply)
  {
  }

  /** Stopping twice is stopping once: once stopped, a record ignores further stops. */
  lemma StopIdempotent(was: Snapshot, ctx: Context, reply: StopReply, ctx': Context, reply': StopReply)
    requires reply.StopOk? || !was.started
    ensures AfterStop(AfterStop(was, ctx, reply), ctx', reply') == AfterStop(was, ctx, reply)
  {
  }

  class Component {
    const key: string
    const instance: Lifecycle
    const dependencies: seq<string>
    var result: Lifecycle
    var started: bool
    /** Every call this record has made on its lifecycle. */
    ghost var calls: seq<LifecycleCall>

    /** The record's mutable state and call history. */
    ghost function Current(): Snapshot
      reads this
    {
      Snapshot(started, result, calls)
    }

    /** The record's state is the one its lifecycle call history explains. */
    ghost predicate Valid()
      reads this
    {
      Explains(Current())
    }

    /** Go's `Define(key, instance, dependencies...)`. */
    constructor Define(key: string, instance: Lifecycle, dependencies: seq<string>)
      ensures this.key == key && this.instance == instance && this.dependencies == dependencies
      ensures !started && result == Nil && calls == []
      ensures Valid()
    {
      this.key := key;
      this.instance := instance;
      this.dependencies := dependencies;
      result := Nil;
      started := false;
      calls := [];
    }

    method Key() returns (k: string)
      ensures k == key
    {
      k := key;
    }

    method IsStarted() returns (b: bool)
      ensures b == started
    {
      b := started;
    }

    method GetDependencies() returns (deps: seq<string>)
      ensures deps == dependencies
    {
      deps := dependencies;
    }

    /**
     * Starts the lifecycle unless the record is already started; `reply` is
     * what the lifecycle's own Start returns when it is called.
     */
    method Start(ctx: Context, reply: StartReply) returns (r: Lifecycle, err: Option<ComponentError>)
      modifies this
      ensures Current() == AfterStart(old(Current()), ctx, reply)
      ensures old(Valid()) ==> Valid()
      ensures old(started) ==> r == instance && err == None
      ensures !old(started) && reply.StartOk? ==> r == reply.value && err == None
      ensures !old(started) && reply.StartErr? ==> r == Nil && err == Some(StartFailed)
    {
      if started {
        return instance, None;
      }
      AfterStartExplained(Current(), ctx, reply);
      calls := calls + [StartCall(ctx, reply)];
      if reply.StartErr? {
        return Nil, Some(StartFailed);
      }
      result := reply.value;
      started := true;
      return reply.value, None;
    }

    /**
     * Stops the lifecycle if the record is started; `reply` is what the
     * lifecycle's own Stop returns when it is called.
     */
    method Stop(ctx: Context, reply: StopReply) returns (err: Option<ComponentError>)
      modifies this
      ensures Current() == AfterStop(old(Current()), ctx, reply)
      ensures old(Valid()) ==> Valid()
      ensures err == if old(started) && reply.StopErr? then Some(StopFailed) else None
    {
      if !started {
        return None;
      }
      AfterStopExplained(Current(), ctx, reply);
      calls := calls + [StopCall(ctx, reply)];
      if reply.StopErr? {
        return Some(StopFailed);
      }
      started := false;
      return None;
    }
  }
}
