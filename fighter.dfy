/** The player and the game's event handling (classes `Player` and `Game`
    in main.py), as objects whose methods update their fields in place. Each
    method is proved against the functions of `Playback`, `Frames` and
    `Input`. The clock reading `now` and the image loader `load` (which gives
    an image's pixel size) are parameters. */
module Fighter {
  import opened Results
  import Settings
  import Timing
  import Frames
  import Sprites
  import Playback
  import Input

  class Player {
    const fallbackAction: string
    const fallbackImage: string
    var actions: Playback.Actions
    var currentFrame: int
    var animations: map<string, seq<string>>
    var currentAnimation: Playback.Animation
    const animationTimer: Timing.Timer
    var image: Sprites.ImageRef
    var rect: Sprites.Rect

    /** The state-machine view of the player. */
    ghost function Machine(): (r: Playback.State)
      reads this
    {
      Playback.State(actions, currentFrame, currentAnimation)
    }

    ghost predicate Valid()
      reads this
    {
      Playback.Valid(Machine(), animations)
    }

    /** Lines 52-62 of `__init__`: the fallback action is requested as a loop
        and the placeholder sprite is shown; the animation library is still
        empty until `LoadAnimations` fills it. */
    constructor(now: int, load: Sprites.ImageRef -> Sprites.Size, fallbackAction: string := Settings.DefaultFallbackAction)
      ensures this.fallbackAction == fallbackAction && fallbackImage == Settings.FallbackImage
      ensures Machine() == Playback.Initial(fallbackAction) && animations == map[]
      ensures Valid()
      ensures fresh(animationTimer)
      ensures animationTimer.duraton == Settings.AnimationInterval && animationTimer.next == now
      ensures image == Sprites.Still(Settings.FallbackImage)
      ensures rect == Sprites.Placed(load(image))
    {
      this.fallbackAction := fallbackAction;
      fallbackImage := Settings.FallbackImage;
      actions := Playback.Actions(None, false, fallbackAction, false);
      currentFrame := 0;
      animations := map[];
      currentAnimation := Playback.Animation("", [], 0);
      animationTimer := new Timing.Timer(now, Settings.AnimationInterval);
      new;
      ChangeAction(fallbackAction, true);
      UpdateSprite(Sprites.Still(fallbackImage), load);
    }

    method SetPos(x: int, y: int)
      modifies this`rect
      ensures rect == old(rect).(left := x, top := y)
    {
      rect := rect.(top := y);
      rect := rect.(left := x);
    }

    /** Shows `ref`, sized as loaded and anchored bottom-centre. */
    method UpdateSprite(ref: Sprites.ImageRef, load: Sprites.ImageRef -> Sprites.Size)
      modifies this`image, this`rect
      ensures image == ref && rect == Sprites.Placed(load(ref))
    {
      image := ref;
      var size := load(ref);
      rect := Sprites.Rect(0, 0, size.width, size.height);
      var p := Sprites.Anchor(size);
      SetPos(p.left, p.top);
    }

    /** Replaces the pending request, whatever it was; nothing else changes. */
    method ChangeAction(action: string, loop: bool := false)
      modifies this`actions
      ensures actions.next == action && actions.nextLoop == loop
      ensures actions.current == old(actions.current) && actions.currentLoop == old(actions.currentLoop)
      ensures Machine() == Playback.Request(old(Machine()), action, loop)
      ensures old(Valid()) ==> Valid()
    {
      actions := actions.(next := action);
      actions := actions.(nextLoop := loop);
    }

    /** Loads the current action's frames, or reports the `KeyError` of an
        action the library does not have (and then changes nothing). */
    method ChangeAnimation() returns (fault: Option<Playback.Fault>)
      requires actions.current.Some?
      modifies this`currentAnimation
      ensures var a := actions.current.value;
        if a in animations then
          fault.None? && currentAnimation == Playback.AnimationOf(animations, a)
        else
          fault == Some(Playback.MissingAnimation(a)) && currentAnimation == old(currentAnimation)
    {
      var a := actions.current.value;
      if a !in animations {
        return Some(Playback.MissingAnimation(a));
      }
      currentAnimation := currentAnimation.(frames := animations[a]);
      currentAnimation := currentAnimation.(count := |currentAnimation.frames| - 1);
      currentAnimation := currentAnimation.(name := a);
      fault := None;
    }

    /** One playback step: within the cycle the frame moves on by one and
        nothing is requested; at or past the last frame it wraps to 0 and a
        one-shot action requests the fallback as a loop. Then the frame at the
        new index is shown, or the `IndexError` is reported and the sprite is
        left alone. */
    method PlayAnimation(load: Sprites.ImageRef -> Sprites.Size) returns (fault: Option<Playback.Fault>)
      modifies this`actions, this`currentFrame, this`image, this`rect
      ensures old(currentFrame) < currentAnimation.count ==>
        currentFrame == old(currentFrame) + 1 && actions == old(actions)
      ensures old(currentFrame) >= currentAnimation.count ==>
        && currentFrame == 0
        && actions == if old(actions.currentLoop) then old(actions)
                      else old(actions).(next := fallbackAction, nextLoop := true)
      ensures Machine() == Playback.Play(old(Machine()), fallbackAction).state
      ensures var t := Playback.Play(old(Machine()), fallbackAction);
        && fault == t.fault
        && (t.shown.Some? ==>
              image == Sprites.AnimationFrame(currentAnimation.name, t.shown.value) && rect == Sprites.Placed(load(image)))
        && (t.shown.None? ==> image == old(image) && rect == old(rect))
    {
      if currentFrame >= currentAnimation.count {
        if !actions.currentLoop {
          ChangeAction(fallbackAction, true);
        }
        currentFrame := 0;
      } else {
        currentFrame := currentFrame + 1;
      }
      match Playback.FrameAt(currentAnimation.frames, currentFrame)
      case Err(e) =>
        fault := Some(e);
      case Ok(frame) =>
        UpdateSprite(Sprites.AnimationFrame(currentAnimation.name, frame), load);
        fault := None;
    }

    /** One call of `update` at time `now`: the transition check, then a
        playback step if the timer fires and an action is committed. The new
        state is the one `Playback.Update` gives; a fault in the transition
        check leaves the timer unpolled. */
    method Update(now: int, load: Sprites.ImageRef -> Sprites.Size) returns (fault: Option<Playback.Fault>)
      modifies this`actions, this`currentFrame, this`currentAnimation, this`image, this`rect, animationTimer`next
      ensures var fired := now > old(animationTimer.next);
        var t := Playback.Update(old(Machine()), animations, fallbackAction, fired);
        && Machine() == t.state && fault == t.fault
        && (t.shown.Some? ==>
              image == Sprites.AnimationFrame(currentAnimation.name, t.shown.value) && rect == Sprites.Placed(load(image)))
        && (t.shown.None? ==> image == old(image) && rect == old(rect))
      ensures Playback.Commit(old(Machine()), animations).fault.None? ==>
        animationTimer.next == Timing.PollAt(old(animationTimer.next), animationTimer.duraton, now).next
      ensures Playback.Commit(old(Machine()), animations).fault.Some? ==>
        animationTimer.next == old(animationTimer.next)
      ensures old(Valid()) && fault.None? ==> Valid()
    {
      if Valid() {
        Playback.UpdateKeepsValid(Machine(), animations, fallbackAction, now > animationTimer.next);
      }
      fault := None;
      if Some(actions.next) != actions.current {
        if currentFrame == 0 {
          actions := actions.(current := Some(actions.next));
          actions := actions.(currentLoop := actions.nextLoop);
          fault := ChangeAnimation();
          if fault.Some? {
            return;
          }
        }
      }
      var reached := animationTimer.IsNextStopReached(now);
      if reached {
        if actions.current != None {
          fault := PlayAnimation(load);
        }
      }
    }

    /** `load_animations`: for each action of the game, in order, its listed
        files are ordered and stored under its name; a stem that is not an
        integer stops the loop with the stores made so far kept. */
    method LoadAnimations(listing: map<string, seq<string>>) returns (error: Option<string>)
      modifies this`animations
      ensures var l := Frames.LoadLibrary(listing, Settings.PlayerAnimations);
        animations == old(animations) + l.library && error == l.error
      ensures old(Valid()) && actions.current.None? ==> Valid()
    {
      error := LoadNamed(listing, Settings.PlayerAnimations);
    }

    /** The loop of `load_animations`, over the given action names. */
    method LoadNamed(listing: map<string, seq<string>>, names: seq<string>) returns (error: Option<string>)
      modifies this`animations
      ensures var l := Frames.LoadLibrary(listing, names);
        animations == old(animations) + l.library && error == l.error
    {
      for i := 0 to |names|
        invariant Frames.LoadFirst(Frames.OrderFrames, listing, names, i).error.None?
        invariant animations == old(animations) + Frames.LoadFirst(Frames.OrderFrames, listing, names, i).library
      {
        var animation := names[i];
        var ordered := Frames.OrderFrames(Frames.FilesIn(listing, animation));
        if ordered.Err? {
          Frames.LoadStops(Frames.OrderFrames, listing, names, i + 1, |names|);
          return Some(ordered.error);
        }
        animations := animations[animation := ordered.value];
      }
      error := None;
    }
  }

  class Game {
    var running: bool
    const player: Player

    constructor(player: Player)
      ensures running && this.player == player
    {
      running := true;
      this.player := player;
    }

    /** Handles one batch of polled events in order: a quit event stops the
        game, and each requesting key press replaces the player's pending
        request (the last one wins). */
    method WatchForEvents(events: seq<Input.Event>)
      modifies this`running, player`actions
      ensures running == (old(running) && Input.Quit !in events)
      ensures player.Machine() == Input.HandleEvents(old(player.Machine()), events)
      ensures old(player.Valid()) ==> player.Valid()
    {
      for i := 0 to |events|
        invariant running == (old(running) && Input.Quit !in events[..i])
        invariant player.Machine() == Input.HandleEvents(old(player.Machine()), events[..i])
      {
        assert events[..i + 1][..i] == events[..i];
        var event := events[i];
        if event.Quit? {
          running := false;
        }
        if event.KeyDown? {
          var action := Input.KeyAction(event.key);
          if action.Some? {
            player.ChangeAction(action.value, false);
          }
        }
      }
      assert events[..|events|] == events;
      Input.HandleOnlyRequests(old(player.Machine()), events);
    }
  }
}
