# FighterAnimation, modelled in Dafny

FighterAnimation is a small pygame program. A fighter sprite stands at the
bottom centre of an 800x500 window and plays sprite-sheet animations. A
looping idle animation plays by default. A key press (space, E, Q, D, A)
requests a one-shot action: jump, kick, lower kick, punch or lower punch. The
action starts at the next animation-cycle boundary. When it ends, the player
falls back to the looping idle animation. Frames advance on a 100 ms timer.
Each action's frames are files named `0.png`, `1.png`, … in a directory of
their own. They are ordered by the integer value of their stem.

This model covers the core of `main.py`:

- `settings.dfy`, module `Settings`: the constants that the core uses. These
  are the window size, the list of actions, the fallback action and image,
  the bottom margin and the timer interval.
- `timing.dfy`, module `Timing`: class `Timer` holds one deadline and a
  method that polls it. The clock is a parameter `now`. `Firings` extends a
  single poll to a series of polls, and lemmas about it say when the timer
  fires and how far apart two firings are.
- `frames.dfy`, module `Frames`: how `load_animations` orders a directory's
  frame files. It takes each stem before the first `.`, parses it with
  Python's `int`, applies a stable sort keyed on that integer and appends
  `.png` again. It then builds the library of all actions, which stops at the
  first action with a non-integer stem.
- `sprites.dfy`, module `Sprites`: the image references, sizes and
  rectangles, plus the bottom-centre anchor that `update_sprite` computes.
- `playback.dfy`, module `Playback`: the player's action/animation state
  machine as pure functions. It covers `change_action`, `change_animation`,
  `play_animation` and `update`, the invariant they keep, and what a series
  of steps does.
- `input.dfy`, module `Input`: the key-to-action table of `watch_for_events`
  and the effect of one batch of events.
- `fighter.dfy`, module `Fighter`: classes `Player` and `Game` as objects
  whose methods update their fields in place. Each method is proved against
  the functions above.

Python's exceptions appear as values:

- a `KeyError` on an action that has no animation is `MissingAnimation`;
- an `IndexError` on a frame list is `FrameOutOfRange`;
- the `ValueError` of `int()` on a non-integer stem is the `Err` of
  `OrderFrames`, and the `error` of `LoadAnimations`.

Python's negative list indices are modelled as they behave in Python.

A request made while a one-shot action plays does not simply wait for the
cycle boundary, as one might expect. At the end of the one-shot cycle,
`play_animation` overwrites the pending request with the fallback request.
A key pressed mid-animation is therefore lost. The model follows the code:
`Playback.OneShotDropsPendingRequest` proves the loss, and
`Playback.LoopKeepsPendingRequest` proves that a request made during a
looping action does survive.

An animation with no frames is not skipped. Playing it raises an
`IndexError`, and the model reports `FrameOutOfRange(0)`
(`Playback.PlayEmptyFaults`, `Playback.UpdateFaults`).

## Model

| member | source | states |
|---|---|---|
| Timing.Timer.constructor | main.py:29-34 | the timer keeps its interval; with a start the deadline is the creation time, so the first poll after it fires; without one it is one interval later |
| Timing.Timer.IsNextStopReached | main.py:36-40 | fires exactly when the clock is strictly past the deadline; a firing moves the deadline to one interval after now, and no firing leaves it unchanged |
| Timing.Firings | main.py:36-40 | a series of polls yields exactly one answer per poll |
| Timing.FiresOnlyPastDeadline | main.py:36-40 | with a non-negative interval, no poll in a series fires at or before the deadline the series started from |
| Timing.FiringsSpaced | main.py:36-40 | with a non-negative interval, two firings in a series are more than one interval apart |
| Frames.Stem | main.py:90 | the stem is the prefix of the file name before its first `.`, with no `.` in it (the whole name when there is none) |
| Frames.StemOfPng | main.py:90-92 | stripping then re-appending `.png` gives back a dot-free stem's file name |
| Frames.ParseDecimal | main.py:91 | `int()` reads back the decimal numeral of every natural number |
| Frames.InsertSpec | main.py:91 | inserting into a key-sorted list keeps it sorted and adds exactly that element |
| Frames.SortSpec | main.py:91 | the sort gives a permutation of its input that is sorted by the key |
| Frames.FirstNonIntegerSpec | main.py:91 | the key computation fails exactly when some stem is not an integer, and it names the first such stem in listing order |
| Frames.OrderFramesSpec | main.py:89-92 | ordering succeeds exactly when every stem is an integer, otherwise it reports a non-integer stem; on success the result is the listed frames' stems, as a permutation, sorted by integer value, each with `.png` appended |
| Frames.OrderFramesExample | main.py:90-92 | `2.png, 10.png, 1.png` is ordered numerically as `1.png, 2.png, 10.png`, not lexicographically |
| Frames.LoadStops | main.py:88-92 | once an action fails to order, the library and the error stay the same for every later action |
| Frames.LoadFirstSpec | main.py:88-92 | the loop over the first n names ends without an error exactly when each of their listings orders, and then the library holds exactly those names, each mapped to its ordered frames; an error is the failure of one of those listings |
| Frames.LoadLibrarySpec | main.py:87-93 | the build succeeds exactly when every action's listing orders, and then every action, and no other, is stored with its ordered frames; otherwise the error is the stem that ordering some action's listing rejected |
| Sprites.Anchor | main.py:74 | the sprite's bottom edge sits at the bottom margin, and it is centred horizontally (exactly for an even width, half a pixel right for an odd one) |
| Playback.PlayInBounds | main.py:76-85 | a playback step on a non-empty animation from an in-range frame stays in range and shows the frame at the new index |
| Playback.PlayEmptyFaults | main.py:76-85 | a playback step on an animation with no frames raises the index error for index 0 |
| Playback.InitialValid | main.py:55-61 | a newly created player satisfies the invariant |
| Playback.CommitOnlyAtBoundary | main.py:106-109 | the current action changes exactly when a different action is pending at frame 0; it then becomes the pending action, together with its loop flag |
| Playback.UpdateFaults | main.py:100-114 | from a valid state, a step faults exactly when the committed action has no animation, or when it plays an empty animation, and the fault says which |
| Playback.UpdateKeepsValid | main.py:76-114 | a step that does not fault keeps the frame index in range and the current action playing its own animation; it shows a frame exactly when the timer fired and an action is committed, and that frame is the one at the new index |
| Playback.RequestOverwrites | main.py:95-97 | a second request before a commit discards the first, and a request never changes the current action |
| Playback.RunAppend | main.py:105-114 | running two series of steps in turn is the same as running them joined, stopping at the first fault |
| Playback.RunKeepsValid | main.py:105-114 | from a valid state, the invariant holds after any series of steps that does not fault |
| Playback.PlaysThrough | main.py:76-85 | within a cycle, with no commit due, each firing moves one frame on and changes nothing else |
| Playback.OneShotReturnsToFallback | main.py:76-110 | when the fallback has an animation, a one-shot action other than the fallback, started at frame 0 with nothing else pending plays all its frames, then requests the fallback as a loop and wraps to frame 0; the next step commits the looping fallback with its animation |
| Playback.OneShotDropsPendingRequest | main.py:77-80 | a request pending during a one-shot action is replaced by the fallback request at the end of the cycle |
| Playback.LoopKeepsPendingRequest | main.py:76-110 | a request pending during a looping action survives the end of the cycle and is committed at frame 0 |
| Playback.FallbackLoopsForever | main.py:76-114 | once the looping fallback, whose animation has frames, is committed with nothing else pending, no step faults, the actions never change, and the frame stays in range |
| Playback.BootSettles | main.py:52-114 | a new player whose fallback action has frames is in the looping fallback from its first step on, and it never faults |
| Input.KeyAction | main.py:154-168 | exactly the five bound keys request an action; each requests a game action other than the fallback |
| Input.KeyActionInjective | main.py:155-168 | no two bound keys request the same action |
| Input.HandleOnlyRequests | main.py:149-168 | handling events changes only the pending request: the current action, the frame and the animation stay the same |
| Input.LastKeyWins | main.py:149-168 | after a batch, the pending request is the last requesting key's action, as a one-shot |
| Input.NoKeyNoChange | main.py:149-168 | a batch with no requesting key press leaves the state unchanged |
| Fighter.Player.constructor | main.py:52-62 | the new player has the fallback requested as a loop, no current action, frame 0, an empty library, a timer whose deadline is now, so the first poll after it fires, and the placeholder image placed at the anchor; the invariant holds |
| Fighter.Player.SetPos | main.py:65-67 | only the rectangle's position changes, to the given coordinates |
| Fighter.Player.UpdateSprite | main.py:69-74 | the shown image becomes the given one, sized as loaded and placed at the anchor |
| Fighter.Player.ChangeAction | main.py:95-98 | the pending action and its loop flag become the given ones; the current action is unchanged and the invariant is kept |
| Fighter.Player.ChangeAnimation | main.py:100-103 | the current animation becomes the current action's frames, with count one less than their number, or the missing-animation fault is reported and nothing changes |
| Fighter.Player.PlayAnimation | main.py:76-85 | before the last frame, the index moves on by one; at or past it, the index wraps to 0 and a one-shot action requests the looping fallback; the frame at the new index is shown, or the index error is reported and the sprite is kept |
| Fighter.Player.Update | main.py:105-114 | the new state, fault and sprite are those of one state-machine step with the timer firing exactly when now is past the deadline; the timer is not polled after a commit fault; the invariant is kept when there is no fault |
| Fighter.Player.LoadAnimations | main.py:87-93 | the library gains exactly the entries the build over the game's actions makes, and the error is that build's error; a valid player with no action committed stays valid |
| Fighter.Player.LoadNamed | main.py:88-92 | the loop over action names stores each action's ordered frames until the first failure |
| Fighter.Game.constructor | main.py:130-132 | a new game is running with the given player |
| Fighter.Game.WatchForEvents | main.py:149-168 | the game keeps running exactly when it was running and the batch has no quit event; the player's state is the one the batch's requests give, and a valid player stays valid |

## Left out

- Drawing, window creation, `pygame.init`, the frame-rate clock and the `Background` sprite are not modelled. `Game.run`, `Game.draw`, `Player.draw` and the `print` calls are left out as I/O.
- `Game.update` only calls `Player.update`, so it is not modelled separately.
- The image loader (`pygame.image.load`, `convert_alpha`, `transform.scale`, `get_size`) is a parameter `load` that gives an image's pixel size. Paths are `ImageRef` values rather than joined strings.
- The directory listing (`glob.glob` over `os.path.join`) is a parameter `listing` that maps each action to its `.png` file names. A missing directory lists nothing. `os.path.basename` is taken as already applied.
- The clock `pygame.time.get_ticks()` is the parameter `now`. `is_next_stop_reached` reads the clock twice, and the model reads it once per poll. The source's new deadline can therefore be later than the model's by the time that passes between its two reads.
- Frames.ParseInt: accepts an optional sign followed by ASCII digits. Python's `int` also accepts surrounding whitespace, underscores between digits and non-ASCII digits, which the model does not.
- Frames.SortSpec: states that the result is sorted and a permutation. It does not state that the sort is stable, although Python's sort is.
- Fighter.Player.constructor: models lines 52-62. The call to `load_animations` on line 63 is the separate method `LoadAnimations`, which the caller runs next.
- Fighter.Player.constructor: `next_action` starts as `None` in the source and is set by `change_action` in the same call. The model starts it as the fallback action, so the state after the constructor is the same.
- Fighter.Game.constructor: takes the player as a parameter instead of building it. The window and background setup on lines 121-129 are I/O.
- Keys other than the five bound keys are collapsed into `OtherKey(code)`, and events other than quit and key-down into `OtherEvent`.
