/** The fixed configuration of the game (class `Settings` in main.py and the
    literals the player code uses). Only the values the modelled code reads
    are listed. */
module Settings {
  const WindowWidth: nat := 800
  const WindowHeight: nat := 500

  /** The actions whose animations are loaded, in loading order. */
  const PlayerAnimations: seq<string> := ["idle", "jump", "punsh", "lower_punsh", "kick", "lower_kick"]

  /** The player's default fallback action. */
  const DefaultFallbackAction: string := "idle"

  /** The placeholder sprite shown before the first animation frame. */
  const FallbackImage: string := "fallback.png"

  /** Distance in pixels between the sprite's bottom edge and the window's bottom edge. */
  const BottomMargin: nat := 25

  /** Milliseconds between two animation frames. */
  const AnimationInterval: int := 100
}
