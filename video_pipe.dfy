/**
 * The single-slot, latest-value-wins mailbox of `src/terminal_sink/video_pipe.rs` between the
 * app-sink callbacks, which push decoded samples, and the renderer thread, which pulls them.
 * Every operation runs under the mutex, so each is one atomic step of a state machine; the
 * condition variable is not modelled, and a `pull_sample` that would block returns `WouldWait`.
 */
module VideoPipe {
  /** A `gst::Sample`, which the pipe only stores, replaces and clones. */
  datatype Sample = Sample(id: nat)

  /** `RenderState`; `NoSample` is the variant the source calls `None`. */
  datatype RenderState = NoSample | HasSample(sample: Sample, pulled: bool) | Closed

  /**
   * One call on the pipe.  `Reload(alive)` is `reload_sample`, where `alive` says whether
   * the weak reference to the pipe could still be upgraded; `DropPipe` is the drop of a
   * `RenderingContextPipe`, that is of the producer's last clone or of the consumer.
   */
  datatype Op = Push(sample: Sample) | Close | Pull | Reload(alive: bool) | DropPipe

  /** What a call returns: `Ok(())`, `Err(())`, a pulled sample, or that `pull_sample` would block. */
  datatype Reply = Done | Refused | Pulled(sample: Sample) | WouldWait

  /** The calls after which a sample can be pulled again. */
  predicate Rearms(op: Op) {
    op.Push? || (op.Reload? && op.alive)
  }

  /** The effect of one call on the state, and its result. */
  function Step(s: RenderState, op: Op): (r: (RenderState, Reply))
    ensures r.0.Closed? <==> s.Closed? || op.Close? || op.DropPipe?
    ensures r.1 == Refused <==> (s.Closed? && (op.Push? || op.Pull? || op.Reload?)) || (op.Reload? && !op.alive)
    ensures op.Push? && !s.Closed? ==> r == (HasSample(op.sample, false), Done)
    ensures r.1.Pulled? <==> op.Pull? && s.HasSample? && !s.pulled
    ensures r.1.Pulled? ==> r.1.sample == s.sample && r.0 == HasSample(s.sample, true)
    ensures r.1 == WouldWait <==> op.Pull? && (s.NoSample? || (s.HasSample? && s.pulled))
    ensures r.1 == WouldWait ==> r.0 == s
    ensures op.Reload? && op.alive && s.HasSample? ==> r == (HasSample(s.sample, false), Done)
    ensures op.Reload? && !(op.alive && s.HasSample?) ==> r.0 == s
  {
    match op
    case Push(x) =>
      if s.Closed? then (Closed, Refused) else (HasSample(x, false), Done)
    case Close => (Closed, Done)
    case DropPipe => (Closed, Done)
    case Pull =>
      (match s
       case NoSample => (s, WouldWait)
       case HasSample(x, pulled) => if pulled then (s, WouldWait) else (HasSample(x, true), Pulled(x))
       case Closed => (s, Refused))
    case Reload(alive) =>
      if !alive then (s, Refused)
      else
        match s
        case NoSample => (s, Done)
        case HasSample(x, _) => (HasSample(x, false), Done)
        case Closed => (s, Refused)
  }

  /** The calls `ops` one after the other: the final state and each call's result. */
  function Run(s: RenderState, ops: seq<Op>): (r: (RenderState, seq<Reply>))
    ensures |r.1| == |ops|
    decreases ops
  {
    if ops == [] then (s, [])
    else
      var first := Step(s, ops[0]);
      var rest := Run(first.0, ops[1..]);
      (rest.0, [first.1] + rest.1)
  }

  /** How many of the results are pulled samples. */
  function PullCount(replies: seq<Reply>): nat {
    if replies == [] then 0 else (if replies[0].Pulled? then 1 else 0) + PullCount(replies[1..])
  }

  /** Once closed, the pipe stays closed, and every push, pull and reload fails. */
  lemma {:induction false} ClosedIsAbsorbing(ops: seq<Op>)
    ensures Run(Closed, ops).0 == Closed
    ensures forall k | 0 <= k < |ops| && (ops[k].Push? || ops[k].Pull? || ops[k].Reload?) :: Run(Closed, ops).1[k] == Refused
  {
    if ops != [] {
      ClosedIsAbsorbing(ops[1..]);
      var r := Run(Closed, ops);
      assert r.1 == [Step(Closed, ops[0]).1] + Run(Closed, ops[1..]).1;
      forall k | 0 <= k < |ops| && (ops[k].Push? || ops[k].Pull? || ops[k].Reload?)
        ensures r.1[k] == Refused
      {
        if k > 0 {
          assert ops[1..][k - 1] == ops[k];
        }
      }
    }
  }

  /**
   * Without a push or a live reload in between, at most one pull succeeds: one if a sample
   * is waiting to be pulled, none otherwise.
   */
  lemma {:induction false} PullAtMostOnce(s: RenderState, ops: seq<Op>)
    requires forall k | 0 <= k < |ops| :: !Rearms(ops[k])
    ensures PullCount(Run(s, ops).1) <= if s.HasSample? && !s.pulled then 1 else 0
    decreases ops
  {
    if ops != [] {
      var first := Step(s, ops[0]);
      assert !Rearms(ops[0]);
      assert forall k | 0 <= k < |ops[1..]| :: !Rearms(ops[1..][k]) by {
        forall k | 0 <= k < |ops[1..]|
          ensures !Rearms(ops[1..][k])
        {
          assert ops[1..][k] == ops[k + 1];
        }
      }
      PullAtMostOnce(first.0, ops[1..]);
      var replies := Run(s, ops).1;
      assert replies == [first.1] + Run(first.0, ops[1..]).1;
      assert replies[1..] == Run(first.0, ops[1..]).1;
    }
  }

  /** A pushed sample replaces one that was never pulled: the next pull gets the latest push. */
  lemma LatestPushWins(s: RenderState, x: Sample, y: Sample)
    requires !s.Closed?
    ensures Run(s, [Push(x), Push(y), Pull]).1 == [Done, Done, Pulled(y)]
  {
    assert [Push(x), Push(y), Pull][1..] == [Push(y), Pull];
    assert [Push(y), Pull][1..] == [Pull];
    assert [Pull][1..] == [];
    var after := HasSample(x, false);
    assert Run(after, [Push(y), Pull]).1 == [Done, Pulled(y)] by {
      assert Run(HasSample(y, false), [Pull]).1 == [Pulled(y)];
    }
  }

  /** A live reload re-arms the last sample, so the renderer draws it again (after a terminal resize, say). */
  lemma ReloadRepeatsSample(x: Sample, pulled: bool)
    ensures Run(HasSample(x, pulled), [Reload(true), Pull]).1 == [Done, Pulled(x)]
  {
    assert [Reload(true), Pull][1..] == [Pull];
    assert [Pull][1..] == [];
  }

  /** `RenderingContext`: the state under the mutex, shared by the producer, the consumer and the reloader. */
  class RenderingContext {
    var state: RenderState

    /** `video_pipe()`: a new pipe holds no sample. */
    constructor ()
      ensures state == NoSample
    {
      state := NoSample;
    }

    /** `SampleProducer::push_sample` */
    method PushSample(sample: Sample) returns (ok: bool)
      modifies this
      ensures ok <==> !old(state).Closed?
      ensures ok ==> state == HasSample(sample, false)
      ensures !ok ==> state == Closed
      ensures (state, if ok then Done else Refused) == Step(old(state), Push(sample))
    {
      match state {
        case HasSample(_, false) =>
          // still rendering: the new sample replaces the one not yet pulled
          state := HasSample(sample, false);
        case Closed =>
          return false;
        case _ =>
          state := HasSample(sample, false);
      }
      return true;
    }

    /** `SampleProducer::close` */
    method Close()
      modifies this
      ensures state == Closed
      ensures state == Step(old(state), Op.Close).0
    {
      state := Closed;
    }

    /** `Drop for RenderingContextPipe` */
    method DropPipe()
      modifies this
      ensures state == Closed
      ensures state == Step(old(state), Op.DropPipe).0
    {
      state := Closed;
    }

    /** `SampleConsumer::pull_sample`, one pass of its loop: take the waiting sample, fail when closed, or wait. */
    method PullSample() returns (r: Reply)
      modifies this
      ensures old(state).Closed? ==> r == Refused && state == Closed
      ensures old(state).HasSample? && !old(state).pulled ==> r == Pulled(old(state).sample) && state == HasSample(old(state).sample, true)
      ensures (old(state).NoSample? || (old(state).HasSample? && old(state).pulled)) ==> r == WouldWait && state == old(state)
      ensures (state, r) == Step(old(state), Pull)
    {
      match state {
        case NoSample =>
          r := WouldWait;
        case HasSample(sample, pulled) =>
          if pulled {
            r := WouldWait;
          } else {
            state := HasSample(sample, true);
            r := Pulled(sample);
          }
        case Closed =>
          r := Refused;
      }
    }

    /** `SampleReloader::reload_sample`; `alive` is whether `Weak::upgrade` succeeded. */
    method ReloadSample(alive: bool) returns (ok: bool)
      modifies this
      ensures ok <==> alive && !old(state).Closed?
      ensures alive && old(state).HasSample? ==> state == HasSample(old(state).sample, false)
      ensures !(alive && old(state).HasSample?) ==> state == old(state)
      ensures (state, if ok then Done else Refused) == Step(old(state), Reload(alive))
    {
      if !alive {
        return false;
      }
      match state {
        case NoSample =>
          ok := true;
        case HasSample(sample, _) =>
          state := HasSample(sample, false);
          ok := true;
        case Closed =>
          ok := false;
      }
    }
  }
}
