/** Where the player's sprite is drawn. Images are abstract: an image is named
    by an `ImageRef` and its pixel size is supplied by whoever loads it. */
module Sprites {
  import Settings

  /** A still image under the image directory, or one frame of an action's animation. */
  datatype ImageRef = Still(file: string) | AnimationFrame(action: string, file: string)

  datatype Size = Size(width: nat, height: nat)

  datatype Point = Point(left: int, top: int)

  datatype Rect = Rect(left: int, top: int, width: nat, height: nat)

  /** The top-left corner for a sprite of the given size: its horizontal centre
      is the window's centre (rounded, as floor division rounds) and its bottom
      edge sits `BottomMargin` pixels above the window's bottom edge. */
  function Anchor(size: Size): (p: Point)
    ensures p.top + size.height == Settings.WindowHeight - Settings.BottomMargin
    ensures 0 <= 2 * p.left + size.width - Settings.WindowWidth <= 1
    ensures size.width % 2 == 0 ==> 2 * p.left + size.width == Settings.WindowWidth
  {
    Point(Settings.WindowWidth / 2 - size.width / 2,
          Settings.WindowHeight - Settings.BottomMargin - size.height)
  }

  /** The sprite rectangle for an image of the given size: the image's size at its anchor. */
  function Placed(size: Size): (r: Rect)
  {
    var p := Anchor(size);
    Rect(p.left, p.top, size.width, size.height)
  }
}
