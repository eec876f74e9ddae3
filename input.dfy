/** Keyboard input (`Game.watch_for_events`): the key-to-action table and
    the effect of one batch of polled events on the player's pending request. */
module Input {
  import opened Results
  import Settings
  import Playback

  /** The keys the game reacts to, and every other key by its code. */
  datatype Key = Space | KeyE | KeyQ | KeyD | KeyA | OtherKey(code: int)

  datatype Event = Quit | KeyDown(key: Key) | OtherEvent

  /** The action a key requests (always as a one-shot); other keys request nothing. */
  function KeyAction(key: Key): (r: Option<string>)
    ensures r.Some? <==> !key.OtherKey?
    ensures r.Some? ==> r.value in Settings.PlayerAnimations && r.value != Settings.DefaultFallbackAction
  {
    match key
    case Space => Some("jump")
    case KeyE => Some("kick")
    case KeyQ => Some("lower_kick")
    case KeyD => Some("punsh")
    case KeyA => Some("lower_punsh")
    case OtherKey(_) => None
  }

  /** Different keys request different actions. */
  lemma KeyActionInjective(k1: Key, k2: Key)
    requires KeyAction(k1).Some? && KeyAction(k1) == KeyAction(k2)
    ensures k1 == k2
  {
  }

  /** Whether an event requests an action. */
  predicate Requests(e: Event)
  {
    e.KeyDown? && KeyAction(e.key).Some?
  }

  /** The state after handling `events` in order: each requesting key press
      replaces the pending request with its action as a one-shot. */
  function HandleEvents(s: Playback.State, events: seq<Event>): (r: Playback.State)
    decreases |events|
  {
    if events == [] then s
    else
      var before := HandleEvents(s, events[..|events| - 1]);
      var e := events[|events| - 1];
      if Requests(e) then Playback.Request(before, KeyAction(e.key).value, false) else before
  }

  /** Handling events changes at most the pending request. */
  lemma {:induction false} HandleOnlyRequests(s: Playback.State, events: seq<Event>)
    ensures var r := HandleEvents(s, events);
      r == Playback.Request(s, r.actions.next, r.actions.nextLoop)
    decreases |events|
  {
    if events != [] {
      HandleOnlyRequests(s, events[..|events| - 1]);
    }
  }

  /** The last requesting key press of a batch decides the pending request. */
  lemma {:induction false} LastKeyWins(s: Playback.State, events: seq<Event>, i: nat)
    requires i < |events| && Requests(events[i])
    requires forall j :: i < j < |events| ==> !Requests(events[j])
    ensures HandleEvents(s, events) == Playback.Request(s, KeyAction(events[i].key).value, false)
    decreases |events|
  {
    var init := events[..|events| - 1];
    if i == |events| - 1 {
      HandleOnlyRequests(s, init);
    } else {
      LastKeyWins(s, init, i);
    }
  }

  /** A batch with no requesting key press leaves the state alone. */
  lemma {:induction false} NoKeyNoChange(s: Playback.State, events: seq<Event>)
    requires forall j :: 0 <= j < |events| ==> !Requests(events[j])
    ensures HandleEvents(s, events) == s
    decreases |events|
  {
    if events != [] {
      NoKeyNoChange(s, events[..|events| - 1]);
    }
  }
}
