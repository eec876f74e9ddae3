/** The player's action/animation state machine (class `Player` in main.py),
    as functions on its state. One call of `Update` is one call of
    `Player.update`; whether the animation timer fired during that call is
    the input `fired`. Frames are named by strings; the animation library
    maps each action name to its ordered frame names. */
module Playback {
  import opened Results

  /** The `actions` record: the committed action (none before the first
      commit) with its loop flag, and the one pending request. */
  datatype Actions = Actions(current: Option<string>, currentLoop: bool, next: string, nextLoop: bool)

  /** The `current_animation` record; `count` is the index of the last frame. */
  datatype Animation = Animation(name: string, frames: seq<string>, count: int)

  datatype State = State(actions: Actions, frame: int, anim: Animation)

  /** The exceptions the update step can raise: the `KeyError` of an action
      without an animation, and the `IndexError` of a frame index outside the
      frame list. */
  datatype Fault = MissingAnimation(action: string) | FrameOutOfRange(index: int)

  /** The outcome of one step: the new state, the frame handed to the sprite
      (if any) and the fault raised (if any). */
  datatype Tick = Tick(state: State, shown: Option<string>, fault: Option<Fault>)

  /** The state a new player starts in: nothing committed, the fallback
      action requested as a loop, frame 0, an empty placeholder animation. */
  function Initial(fallback: string): (r: State)
  {
    State(Actions(None, false, fallback, true), 0, Animation("", [], 0))
  }

  /** `change_action`: the request replaces the pending one. */
  function Request(s: State, action: string, loop: bool): (r: State)
  {
    s.(actions := s.actions.(next := action, nextLoop := loop))
  }

  /** A commit happens when the pending action differs from the current one
      and playback is at the start of a cycle. */
  predicate CommitDue(s: State)
  {
    s.actions.current != Some(s.actions.next) && s.frame == 0
  }

  /** The animation of `action` as `change_animation` builds it. */
  function AnimationOf(lib: map<string, seq<string>>, action: string): (r: Animation)
    requires action in lib
  {
    Animation(action, lib[action], |lib[action]| - 1)
  }

  /** The transition check of `update`, with `change_animation`. */
  function Commit(s: State, lib: map<string, seq<string>>): (r: Tick)
  {
    if !CommitDue(s) then Tick(s, None, None)
    else
      var a := s.actions.next;
      var committed := s.(actions := s.actions.(current := Some(a), currentLoop := s.actions.nextLoop));
      if a in lib then Tick(committed.(anim := AnimationOf(lib, a)), None, None)
      else Tick(committed, None, Some(MissingAnimation(a)))
  }

  /** The frame step of `play_animation`: advance within the cycle, or wrap to
      frame 0 and, for a one-shot action, request the fallback as a loop. */
  function Advance(s: State, fallback: string): (r: State)
  {
    if s.frame >= s.anim.count then
      (if !s.actions.currentLoop then Request(s, fallback, true) else s).(frame := 0)
    else
      s.(frame := s.frame + 1)
  }

  /** Python's `frames[i]`: negative indices count from the end. */
  function FrameAt(frames: seq<string>, i: int): (r: Result<string, Fault>)
  {
    if 0 <= i < |frames| then Ok(frames[i])
    else if -|frames| <= i < 0 then Ok(frames[|frames| + i])
    else Err(FrameOutOfRange(i))
  }

  /** `play_animation`: the frame step, then the lookup of the frame to show. */
  function Play(s: State, fallback: string): (r: Tick)
  {
    var advanced := Advance(s, fallback);
    match FrameAt(advanced.anim.frames, advanced.frame)
    case Ok(f) => Tick(advanced, Some(f), None)
    case Err(e) => Tick(advanced, None, Some(e))
  }

  /** `update`: the transition check, then, if the timer fired and an action
      is committed, one playback step. A fault in the transition check ends
      the call before the timer is consulted. */
  function Update(s: State, lib: map<string, seq<string>>, fallback: string, fired: bool): (r: Tick)
  {
    var c := Commit(s, lib);
    if c.fault.None? && fired && c.state.actions.current.Some? then Play(c.state, fallback) else c
  }

  /** A playback step on a non-empty animation from a frame index in
      [0, count] stays in [0, count] and shows the frame at that index. */
  lemma PlayInBounds(s: State, fallback: string)
    requires s.anim.count == |s.anim.frames| - 1 && s.anim.frames != []
    requires 0 <= s.frame <= s.anim.count
    ensures var t := Play(s, fallback);
      && t.fault.None? && 0 <= t.state.frame <= t.state.anim.count
      && t.shown == Some(s.anim.frames[t.state.frame])
  {
  }

  /** A playback step on an animation with no frames always faults at index 0. */
  lemma PlayEmptyFaults(s: State, fallback: string)
    requires s.anim.frames == [] && s.anim.count == -1 && 0 <= s.frame
    ensures Play(s, fallback).fault == Some(FrameOutOfRange(0)) && Play(s, fallback).shown.None?
  {
  }

  /** The action that is current once the transition check has run. */
  function Target(s: State): (r: Option<string>)
  {
    if CommitDue(s) then Some(s.actions.next) else s.actions.current
  }

  /** The state invariant: the frame index is in [0, count] (or 0 for an empty
      animation), and a committed action plays its own animation from the library. */
  predicate Valid(s: State, lib: map<string, seq<string>>)
  {
    && 0 <= s.frame
    && (s.frame == 0 || s.frame <= s.anim.count)
    && (s.actions.current.Some? ==> s.actions.current.value in lib && s.anim == AnimationOf(lib, s.actions.current.value))
  }

  lemma InitialValid(fallback: string, lib: map<string, seq<string>>)
    ensures Valid(Initial(fallback), lib)
  {
  }

  /** The current action changes only at a cycle boundary, and exactly when
      the pending action differs from it; the loop flag comes with it. */
  lemma CommitOnlyAtBoundary(s: State, lib: map<string, seq<string>>, fallback: string, fired: bool)
    ensures var t := Update(s, lib, fallback, fired);
      && t.state.actions.current == Target(s)
      && t.state.actions.currentLoop == (if CommitDue(s) then s.actions.nextLoop else s.actions.currentLoop)
      && (t.state.actions.current != s.actions.current <==> CommitDue(s))
  {
  }

  /** A step from a valid state faults exactly when the action it commits has
      no animation, or when it plays an animation with no frames; the fault
      says which. */
  lemma UpdateFaults(s: State, lib: map<string, seq<string>>, fallback: string, fired: bool)
    requires Valid(s, lib)
    ensures var t := Update(s, lib, fallback, fired);
      var missing := CommitDue(s) && s.actions.next !in lib;
      && (t.fault == Some(MissingAnimation(s.actions.next)) <==> missing)
      && (t.fault == Some(FrameOutOfRange(0)) <==>
            !missing && fired && Target(s).Some? && lib[Target(s).value] == [])
      && (t.fault.None? <==>
            !missing && !(fired && Target(s).Some? && lib[Target(s).value] == []))
  {
  }

  /** A step that does not fault keeps the invariant, and the frame it shows
      is the one at the new, in-range frame index of the current animation. */
  lemma UpdateKeepsValid(s: State, lib: map<string, seq<string>>, fallback: string, fired: bool)
    requires Valid(s, lib)
    ensures var t := Update(s, lib, fallback, fired);
      t.fault.None? ==>
        && Valid(t.state, lib)
        && (t.shown.Some? <==> fired && Target(s).Some?)
        && (t.shown.Some? ==>
              0 <= t.state.frame <= t.state.anim.count && t.shown.value == t.state.anim.frames[t.state.frame])
  {
  }

  /** A second request before a commit discards the first. */
  lemma RequestOverwrites(s: State, a: string, aLoop: bool, b: string, bLoop: bool)
    ensures Request(Request(s, a, aLoop), b, bLoop) == Request(s, b, bLoop)
    ensures Request(s, b, bLoop).actions.current == s.actions.current
  {
  }

  /** A series of steps, one per element of `firings`, stopping at the first fault. */
  function Run(s: State, lib: map<string, seq<string>>, fallback: string, firings: seq<bool>): (r: Result<State, Fault>)
    decreases |firings|
  {
    if firings == [] then Ok(s)
    else
      var t := Update(s, lib, fallback, firings[0]);
      if t.fault.Some? then Err(t.fault.value) else Run(t.state, lib, fallback, firings[1..])
  }

  /** `n` steps in each of which the timer fires. */
  function Fired(n: nat): (r: seq<bool>)
  {
    seq(n, _ => true)
  }

  lemma {:induction false} RunAppend(s: State, lib: map<string, seq<string>>, fallback: string, xs: seq<bool>, ys: seq<bool>)
    ensures Run(s, lib, fallback, xs + ys) ==
      match Run(s, lib, fallback, xs)
      case Ok(s') => Run(s', lib, fallback, ys)
      case Err(e) => Err(e)
    decreases |xs|
  {
    if xs != [] {
      assert (xs + ys)[0] == xs[0] && (xs + ys)[1..] == xs[1..] + ys;
      var t := Update(s, lib, fallback, xs[0]);
      if t.fault.None? {
        RunAppend(t.state, lib, fallback, xs[1..], ys);
      }
    } else {
      assert xs + ys == ys;
    }
  }

  /** The invariant holds after any series of steps that does not fault. */
  lemma {:induction false} RunKeepsValid(s: State, lib: map<string, seq<string>>, fallback: string, firings: seq<bool>)
    requires Valid(s, lib)
    ensures Run(s, lib, fallback, firings).Ok? ==> Valid(Run(s, lib, fallback, firings).value, lib)
    decreases |firings|
  {
    if firings != [] {
      UpdateKeepsValid(s, lib, fallback, firings[0]);
      var t := Update(s, lib, fallback, firings[0]);
      if t.fault.None? {
        RunKeepsValid(t.state, lib, fallback, firings[1..]);
      }
    }
  }

  /** Within a cycle, with no commit due, each firing moves one frame on and
      nothing else changes. */
  lemma {:induction false} PlaysThrough(s: State, lib: map<string, seq<string>>, fallback: string, m: nat)
    requires Valid(s, lib) && s.actions.current.Some?
    requires s.actions.current == Some(s.actions.next) || s.frame > 0
    requires s.frame + m <= s.anim.count
    ensures Run(s, lib, fallback, Fired(m)) == Ok(s.(frame := s.frame + m))
    decreases m
  {
    if m > 0 {
      var t := Update(s, lib, fallback, true);
      assert t.state == s.(frame := s.frame + 1) && t.fault.None?;
      assert Fired(m)[1..] == Fired(m - 1);
      PlaysThrough(t.state, lib, fallback, m - 1);
    }
  }

  /** A one-shot action, started at frame 0 with no other request, plays all
      its frames, then requests the fallback as a loop and wraps to frame 0;
      the next step commits the fallback. */
  lemma OneShotReturnsToFallback(s: State, lib: map<string, seq<string>>, fallback: string)
    requires Valid(s, lib)
    requires s.actions.current == Some(s.actions.next) && !s.actions.currentLoop
    requires s.frame == 0 && s.anim.count >= 0
    requires s.actions.next != fallback && fallback in lib
    ensures Run(s, lib, fallback, Fired(s.anim.count)) == Ok(s.(frame := s.anim.count))
    ensures Run(s, lib, fallback, Fired(s.anim.count + 1)) ==
      Ok(Request(s, fallback, true))
    ensures Run(s, lib, fallback, Fired(s.anim.count + 1) + [false]) ==
      Ok(State(Actions(Some(fallback), true, fallback, true), 0, AnimationOf(lib, fallback)))
  {
    var n := s.anim.count;
    PlaysThrough(s, lib, fallback, n);
    var last := s.(frame := n);
    assert Fired(n + 1) == Fired(n) + [true];
    RunAppend(s, lib, fallback, Fired(n), [true]);
    assert Update(last, lib, fallback, true).state == Request(s, fallback, true);
    RunAppend(s, lib, fallback, Fired(n + 1), [false]);
  }

  /** A request made during a one-shot action is overwritten by the fallback
      request when that action's cycle ends, so it is never committed. */
  lemma OneShotDropsPendingRequest(s: State, lib: map<string, seq<string>>, fallback: string)
    requires Valid(s, lib) && s.actions.current.Some? && !s.actions.currentLoop
    requires 0 < s.frame <= s.anim.count
    ensures Run(s, lib, fallback, Fired(s.anim.count - s.frame + 1)) ==
      Ok(Request(s, fallback, true).(frame := 0))
  {
    var n := s.anim.count;
    var m := n - s.frame;
    PlaysThrough(s, lib, fallback, m);
    assert Fired(m + 1) == Fired(m) + [true];
    RunAppend(s, lib, fallback, Fired(m), [true]);
  }

  /** A request made during a looping action survives the end of the cycle
      and is committed at the boundary. */
  lemma LoopKeepsPendingRequest(s: State, lib: map<string, seq<string>>, fallback: string)
    requires Valid(s, lib) && s.actions.current.Some? && s.actions.currentLoop
    requires 0 < s.frame <= s.anim.count
    requires s.actions.current != Some(s.actions.next) && s.actions.next in lib
    ensures Run(s, lib, fallback, Fired(s.anim.count - s.frame + 1) + [false]) ==
      Ok(State(Actions(Some(s.actions.next), s.actions.nextLoop, s.actions.next, s.actions.nextLoop),
               0, AnimationOf(lib, s.actions.next)))
  {
    var n := s.anim.count;
    var m := n - s.frame;
    PlaysThrough(s, lib, fallback, m);
    assert Fired(m + 1) == Fired(m) + [true];
    RunAppend(s, lib, fallback, Fired(m), [true]);
    RunAppend(s, lib, fallback, Fired(m + 1), [false]);
  }

  /** Once the fallback action is committed as a loop with nothing else
      pending, it plays forever: no step faults, the actions never change,
      and the frame index stays within the animation. */
  lemma {:induction false} FallbackLoopsForever(s: State, lib: map<string, seq<string>>, fallback: string, firings: seq<bool>)
    requires Valid(s, lib)
    requires s.actions.current == Some(fallback) && s.actions.next == fallback && s.actions.currentLoop
    requires lib[fallback] != []
    ensures Run(s, lib, fallback, firings).Ok?
    ensures var s' := Run(s, lib, fallback, firings).value;
      s'.actions == s.actions && Valid(s', lib) && 0 <= s'.frame <= s'.anim.count
    decreases |firings|
  {
    if firings != [] {
      UpdateKeepsValid(s, lib, fallback, firings[0]);
      FallbackLoopsForever(Update(s, lib, fallback, firings[0]).state, lib, fallback, firings[1..]);
    }
  }

  /** A new player whose fallback action has frames settles, from its first
      step on, into that action, looping. */
  lemma BootSettles(lib: map<string, seq<string>>, fallback: string, firings: seq<bool>)
    requires fallback in lib && lib[fallback] != []
    requires |firings| > 0
    ensures Run(Initial(fallback), lib, fallback, firings).Ok?
    ensures var s' := Run(Initial(fallback), lib, fallback, firings).value;
      && s'.actions == Actions(Some(fallback), true, fallback, true)
      && Valid(s', lib) && 0 <= s'.frame <= s'.anim.count
  {
    var s := Initial(fallback);
    var t := Update(s, lib, fallback, firings[0]);
    UpdateKeepsValid(s, lib, fallback, firings[0]);
    assert t.fault.None? && t.state.actions == Actions(Some(fallback), true, fallback, true);
    FallbackLoopsForever(t.state, lib, fallback, firings[1..]);
  }
}
