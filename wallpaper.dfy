/**
 * create_wallpaper as a sequence of changes to a canvas: a black screen-sized
 * canvas is created, the resized image is pasted at the top, centred, and the
 * wrapped caption is drawn below it in the chosen font. Pixels are not
 * modelled: the canvas records what was pasted and drawn, where, and how.
 */
module Wallpaper {
  import opened Wrappers
  import opened Layout
  import opened FontSearch
  import ScreenSize

  datatype Color = Rgb(red: nat, green: nat, blue: nat)

  const Black: Color := Rgb(0, 0, 0)
  const White: Color := Rgb(255, 255, 255)

  datatype Font = TrueType(path: string, size: nat) | DefaultFont

  /** ImageFont.truetype(path, 20), or load_default() when that raises IOError; loadable are the paths it can read. */
  function LoadFont(path: string, loadable: set<string>): Font
  {
    if path in loadable then TrueType(path, FontSize) else DefaultFont
  }

  /** What has been put on the canvas. */
  datatype Drawing =
    | Pasted(image: Size, x: nat, y: nat)
    | Text(x: nat, y: nat, text: string, wrapWidth: nat, font: Font, fill: Color)

  /** The wallpaper image under construction. */
  class Canvas {
    const size: Size
    const background: Color
    var drawings: seq<Drawing>

    /** Image.new('RGB', size, color). */
    constructor (size: Size, background: Color)
      ensures this.size == size && this.background == background && drawings == []
    {
      this.size := size;
      this.background := background;
      drawings := [];
    }

    /** wallpaper.paste(image, (x, y)). */
    method Paste(image: Size, x: nat, y: nat)
      modifies this
      ensures drawings == old(drawings) + [Pasted(image, x, y)]
    {
      drawings := drawings + [Pasted(image, x, y)];
    }

    /** draw.text((x, y), text, fill, font), the text having been wrapped to wrapWidth characters. */
    method DrawText(x: nat, y: nat, text: string, wrapWidth: nat, font: Font, fill: Color)
      modifies this
      ensures drawings == old(drawings) + [Text(x, y, text, wrapWidth, font, fill)]
    {
      drawings := drawings + [Text(x, y, text, wrapWidth, font, fill)];
    }
  }

  /** The exceptions of create_wallpaper that follow from the computed sizes. */
  datatype Failure =
    | ZeroImageHeight                      // image.width / image.height divides by zero
    | EmptyResize(size: Size)              // Pillow refuses to resize to a zero width or height
    | NonPositiveWrapWidth(width: int)     // textwrap refuses a width below 1

  /** The screen size as create_wallpaper obtains it. */
  function Screen(profilerOutput: Option<string>): (s: Size)
    ensures s != Size(ScreenSize.FallbackWidth, ScreenSize.FallbackHeight) ==> profilerOutput.Some?
    ensures (s.width, s.height) == ScreenSize.GetScreenSize(profilerOutput)
  {
    var (w, h) := ScreenSize.GetScreenSize(profilerOutput);
    Size(w, h)
  }

  /**
   * create_wallpaper for an image of the given size and a description.
   * Inputs stand for the outside world: the display report, the paths that
   * exist, and the paths that load as TrueType fonts.
   */
  method CreateWallpaper(imageWidth: nat, imageHeight: nat, description: string,
                         profilerOutput: Option<string>, existing: set<string>, loadable: set<string>)
    returns (r: Result<Canvas, Failure>)
    ensures imageHeight == 0 ==> r == Failure(ZeroImageHeight)
    ensures var screen := Screen(profilerOutput);
            imageHeight > 0 ==>
              var plan := LayOut(screen, imageWidth, imageHeight);
              if plan.image.width == 0 || plan.image.height == 0 then
                r == Failure(EmptyResize(plan.image))
              else if plan.wrapWidth <= 0 then
                r == Failure(NonPositiveWrapWidth(plan.wrapWidth))
              else
                r.Success? && fresh(r.value) &&
                r.value.size == screen && r.value.background == Black &&
                r.value.drawings == [
                  Pasted(plan.image, plan.imageX, plan.imageY),
                  Text(plan.textX, plan.textY, description, plan.wrapWidth as nat,
                       LoadFont(ChosenFontPath(existing), loadable), White)]
  {
    var screen := Screen(profilerOutput);
    var canvas := new Canvas(screen, Black);
    if imageHeight == 0 {
      return Failure(ZeroImageHeight);
    }
    var plan := LayOut(screen, imageWidth, imageHeight);
    if plan.image.width == 0 || plan.image.height == 0 {
      return Failure(EmptyResize(plan.image));
    }
    canvas.Paste(plan.image, plan.imageX, plan.imageY);
    var fontPath := SelectFontPath(existing);
    var font := LoadFont(fontPath, loadable);
    if plan.wrapWidth <= 0 {
      return Failure(NonPositiveWrapWidth(plan.wrapWidth));
    }
    canvas.DrawText(plan.textX, plan.textY, description, plan.wrapWidth as nat, font, White);
    return Success(canvas);
  }
}
