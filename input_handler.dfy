/**
 * The keyboard controls of `src/input_handler.rs`: a loop over the key events of the
 * terminal that keeps the requested playback state, seeks five seconds either way, and
 * ends playback on a quit key.  The pipeline calls (`query_position`, `seek_simple`,
 * `set_state`, posting to the bus) become the effects the loop asks for.
 */
module InputHandler {
  import opened Wrappers

  /** `gst::ClockTime`: nanoseconds up to `ClockTime::MAX`, one below `u64::MAX`, which is `ClockTime::NONE`. */
  const CLOCK_TIME_MAX: int := 0xFFFF_FFFF_FFFF_FFFE
  type ClockTime = t: int | 0 <= t <= CLOCK_TIME_MAX

  /** `ClockTime::from_seconds(5)` */
  const FIVE_SECONDS: ClockTime := 5_000_000_000

  /** `gst::State` */
  datatype GstState = VoidPending | Null | Ready | Paused | Playing

  /** The `termion::event::Key`s the controls tell apart; every other key is `OtherKey`. */
  datatype Key = Right | Left | Up | Down | Esc | Char(c: char) | Ctrl(c: char) | OtherKey

  /**
   * One item of the event stream: the key, whether the stream goes on (`false` when the key
   * could not be read, since `map_while(Result::ok)` stops at the first error, and when the
   * pipeline or the bus could no longer be upgraded or the pipeline was in `Null`, where the
   * second `map_while` ends the stream), and what `query_position` would answer at that moment.
   */
  datatype Event = Event(key: Key, live: bool, position: Option<ClockTime>)

  /** What the loop asks of the pipeline. */
  datatype Effect = Seek(target: ClockTime) | SetState(state: GstState) | PostEos

  predicate IsQuit(k: Key) {
    k == Ctrl('c') || k == Char('q') || k == Char('Q') || k == Esc
  }

  /** `ClockTime::saturating_add` */
  function SaturatingAdd(a: ClockTime, b: ClockTime): (r: ClockTime)
    ensures a + b <= CLOCK_TIME_MAX ==> r == a + b
    ensures a + b > CLOCK_TIME_MAX ==> r == CLOCK_TIME_MAX
  {
    if a + b <= CLOCK_TIME_MAX then a + b else CLOCK_TIME_MAX
  }

  /** `ClockTime::saturating_sub` */
  function SaturatingSub(a: ClockTime, b: ClockTime): (r: ClockTime)
    ensures a >= b ==> r == a - b
    ensures a < b ==> r == 0
  {
    if a >= b then a - b else 0
  }

  /**
   * `seek_relative(offset)` once the position is known: the position moved by `|offset|`
   * seconds, forward for a non-negative offset, backward otherwise, clamped to the clock's range.
   */
  function SeekTarget(position: ClockTime, offset: int): (target: ClockTime)
    requires -128 <= offset < 128
    ensures offset >= 0 ==> position <= target && (target == position + offset * 1_000_000_000 || target == CLOCK_TIME_MAX)
    ensures offset < 0 ==> target <= position && (target == position + offset * 1_000_000_000 || target == 0)
  {
    var magnitude: ClockTime := (if offset >= 0 then offset else -offset) * 1_000_000_000;
    if offset >= 0 then SaturatingAdd(position, magnitude) else SaturatingSub(position, magnitude)
  }

  /** The effects of `seek_relative`: none when the position is unknown. */
  function SeekEffects(position: Option<ClockTime>, offset: int): (effects: seq<Effect>)
    requires -128 <= offset < 128
    ensures position.None? <==> effects == []
    ensures position.Some? ==> effects == [Seek(SeekTarget(position.value, offset))]
  {
    match position
    case None => []
    case Some(p) => [Seek(SeekTarget(p, offset))]
  }

  /** The five-second seeks: a backward seek from less than five seconds goes to the start, a forward one never passes the end of the clock. */
  lemma FiveSecondSeeks(position: ClockTime)
    ensures SeekTarget(position, 5) == if position + FIVE_SECONDS <= CLOCK_TIME_MAX then position + FIVE_SECONDS else CLOCK_TIME_MAX
    ensures SeekTarget(position, -5) == if position < FIVE_SECONDS then 0 else position - FIVE_SECONDS
  {
  }

  /** The state after one key that is not a quit key. */
  function NextState(state: GstState, k: Key): (next: GstState)
    requires state == Playing || state == Paused
    ensures next == Playing || next == Paused
    ensures k == Char(' ') ==> next != state
    ensures k == Up ==> next == Playing
    ensures k == Down ==> next == Paused
    ensures k != Char(' ') && k != Up && k != Down ==> next == state
  {
    match k
    case Char(' ') => if state == Playing then Paused else Playing
    case Up => Playing
    case Down => Paused
    case _ => state
  }

  /** The effects of one key that is not a quit key: its seek, then a `set_state` if the state changed. */
  function KeyEffects(state: GstState, e: Event): (effects: seq<Effect>)
    requires state == Playing || state == Paused
  {
    var seek := if e.key == Right then SeekEffects(e.position, 5) else if e.key == Left then SeekEffects(e.position, -5) else [];
    var next := NextState(state, e.key);
    seek + if next != state then [SetState(next)] else []
  }

  /** The whole loop from `state` over `events`: the effects it asks for and the state it ends in. */
  function Controls(state: GstState, events: seq<Event>): (r: (seq<Effect>, GstState))
    requires state == Playing || state == Paused
    ensures r.1 == Playing || r.1 == Paused
    decreases |events|
  {
    if events == [] || !events[0].live then ([], state)
    else if IsQuit(events[0].key) then ([PostEos], state)
    else
      var rest := Controls(NextState(state, events[0].key), events[1..]);
      (KeyEffects(state, events[0]) + rest.0, rest.1)
  }

  /** A state change is requested exactly when a key changes the state, and then to the new state. */
  lemma SetStateIffChanged(state: GstState, e: Event)
    requires state == Playing || state == Paused
    requires !IsQuit(e.key)
    ensures var next := NextState(state, e.key);
      (SetState(next) in KeyEffects(state, e) <==> next != state) &&
      forall s :: SetState(s) in KeyEffects(state, e) ==> s == next
  {
    var next := NextState(state, e.key);
    var seek := if e.key == Right then SeekEffects(e.position, 5) else if e.key == Left then SeekEffects(e.position, -5) else [];
    assert forall f | f in seek :: f.Seek?;
    assert KeyEffects(state, e) == seek + if next != state then [SetState(next)] else [];
  }

  /** Space toggles; pressed twice it asks for the other state and then back. */
  lemma SpaceTwice(state: GstState, e1: Event, e2: Event)
    requires state == Playing || state == Paused
    requires e1.key == Char(' ') && e2.key == Char(' ') && e1.live && e2.live
    ensures var other := if state == Playing then Paused else Playing;
      Controls(state, [e1, e2]).0 == [SetState(other), SetState(state)] && Controls(state, [e1, e2]).1 == state
  {
    var other := if state == Playing then Paused else Playing;
    assert !IsQuit(e1.key) && NextState(state, e1.key) == other;
    assert [e1, e2][1..] == [e2] && [e1, e2][0] == e1;
    assert [e2][1..] == [];
    assert KeyEffects(state, e1) == [SetState(other)];
    assert KeyEffects(other, e2) == [SetState(state)];
    assert Controls(other, [e2]).0 == [SetState(state)] + [];
    assert Controls(state, [e1, e2]).0 == [SetState(other)] + [SetState(state)];
    assert [SetState(other)] + [SetState(state)] == [SetState(other), SetState(state)];
  }

  /** Up and Down are idempotent: pressed again they ask for nothing more. */
  lemma UpDownIdempotent(state: GstState, e: Event)
    requires state == Playing || state == Paused
    requires e.key == Up || e.key == Down
    ensures var next := NextState(state, e.key);
      NextState(next, e.key) == next && KeyEffects(next, e) == []
  {
  }

  /** Any other key changes nothing and asks for nothing. */
  lemma OtherKeysDoNothing(state: GstState, e: Event)
    requires state == Playing || state == Paused
    requires !IsQuit(e.key) && e.key !in {Right, Left, Up, Down, Char(' ')}
    ensures NextState(state, e.key) == state && KeyEffects(state, e) == []
  {
  }

  /** A quit key posts end-of-stream, and no key after it has any effect. */
  lemma QuitStops(state: GstState, events: seq<Event>)
    requires state == Playing || state == Paused
    requires events != [] && events[0].live && IsQuit(events[0].key)
    ensures Controls(state, events) == ([PostEos], state)
  {
  }

  /** Keys that arrive after the stream has ended are never read. */
  lemma DeadStreamStops(state: GstState, events: seq<Event>)
    requires state == Playing || state == Paused
    requires events != [] && !events[0].live
    ensures Controls(state, events) == ([], state)
  {
  }

  /** One live key that is not a quit key: its effects, and the state it leads to. */
  lemma ControlsOne(state: GstState, e: Event)
    requires state == Playing || state == Paused
    requires e.live && !IsQuit(e.key)
    ensures Controls(state, [e]).0 == KeyEffects(state, e)
    ensures Controls(state, [e]).1 == NextState(state, e.key)
  {
    assert [e][1..] == [];
    assert KeyEffects(state, e) + [] == KeyEffects(state, e);
  }

  /** An event after which the loop goes on to the next one. */
  predicate Continues(e: Event) {
    e.live && !IsQuit(e.key)
  }

  /** The first event of a run the loop goes on from: its effects come first, then those of the rest. */
  lemma ControlsCons(state: GstState, events: seq<Event>)
    requires state == Playing || state == Paused
    requires events != [] && Continues(events[0])
    ensures var rest := Controls(NextState(state, events[0].key), events[1..]);
      Controls(state, events).0 == KeyEffects(state, events[0]) + rest.0 &&
      Controls(state, events).1 == rest.1
  {
  }

  /**
   * `play_controls`: the state starts as `Playing` and, key by key, moves between `Playing`
   * and `Paused` only, so the `unreachable!()` arm is never taken.
   */
  method PlayControls(events: seq<Event>) returns (effects: seq<Effect>, state: GstState)
    ensures effects == Controls(Playing, events).0 && state == Controls(Playing, events).1
  {
    state := Playing;
    effects := [];
    assert events[0..] == events;
    var i := 0;
    while i < |events|
      invariant 0 <= i <= |events|
      invariant state == Playing || state == Paused
      invariant Controls(Playing, events).0 == effects + Controls(state, events[i..]).0
      invariant Controls(Playing, events).1 == Controls(state, events[i..]).1
    {
      var e := events[i];
      if !e.live {
        assert effects + [] == effects;
        break;
      }
      if IsQuit(e.key) {
        effects := effects + [PostEos];
        break;
      }
      ghost var before := effects;
      var lastState := state;
      effects, state := HandleKey(e, state, effects);
      StepMatchesControls(events, i, before, effects, lastState, state);
      i := i + 1;
    }
    if i == |events| {
      assert events[i..] == [];
      assert effects + [] == effects;
    }
  }

  /** The body of the loop of `PlayControls` for a key that is not a quit key: its seek, its state change, and the `set_state` request. */
  method HandleKey(e: Event, lastState: GstState, before: seq<Effect>) returns (effects: seq<Effect>, state: GstState)
    requires lastState == Playing || lastState == Paused
    requires Continues(e)
    ensures state == NextState(lastState, e.key)
    ensures effects == before + KeyEffects(lastState, e)
  {
    effects := before;
    state := lastState;
    match e.key {
      case Right =>
        effects := effects + SeekEffects(e.position, 5);
      case Left =>
        effects := effects + SeekEffects(e.position, -5);
      case Char(c) =>
        if c == ' ' {
          match state {
            case Playing => state := Paused;
            case Paused => state := Playing;
            case _ => assert false;
          }
        }
      case Up =>
        state := Playing;
      case Down =>
        state := Paused;
      case _ =>
    }
    ghost var seeked := effects;
    if lastState != state {
      effects := effects + [SetState(state)];
    }
    assert effects == seeked + (if lastState != state then [SetState(state)] else []);
  }

  /** One pass of the loop of `PlayControls` moves one event from what is left to what is done. */
  lemma StepMatchesControls(events: seq<Event>, i: nat, before: seq<Effect>, after: seq<Effect>, lastState: GstState, state: GstState)
    requires lastState == Playing || lastState == Paused
    requires i < |events| && Continues(events[i])
    requires state == NextState(lastState, events[i].key)
    requires after == before + KeyEffects(lastState, events[i])
    ensures before + Controls(lastState, events[i..]).0 == after + Controls(state, events[i + 1..]).0
    ensures Controls(lastState, events[i..]).1 == Controls(state, events[i + 1..]).1
  {
    var left := events[i..];
    assert left[0] == events[i] && left[1..] == events[i + 1..];
    ControlsCons(lastState, left);
    var k := KeyEffects(lastState, events[i]);
    var rest := Controls(state, events[i + 1..]).0;
    assert before + (k + rest) == (before + k) + rest;
  }
}
