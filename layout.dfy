/**
 * The geometry of create_wallpaper: the bottom 15% of the screen is kept for
 * the caption, the image is scaled to the rest of the height (or, when that
 * makes it too wide, to the screen width) and centred horizontally at the
 * top, and the caption starts 20 pixels below the image with a wrap width in
 * characters derived from the screen width.
 *
 * Python computes these with floats (`image.width / image.height`, `* 0.15`,
 * `* 0.6`); here they are exact rationals rounded down, as `int()` does for
 * the non-negative values involved.
 */
module Layout {

  /** Share of the screen height, in percent, given to the caption. */
  const CaptionPercent: nat := 15
  /** Padding around the caption text, in pixels. */
  const TextMargin: nat := 20
  const FontSize: nat := 20
  /** Width of a character as the wrap assumes it: 0.6 of the font size. */
  const CharWidth: nat := 12

  datatype Size = Size(width: nat, height: nat)

  /** Where things go on the canvas. */
  datatype Plan = Plan(
    captionHeight: nat,  // desc_height
    band: nat,           // height left for the image before scaling
    image: Size,         // the resized image
    imageX: nat,
    imageY: nat,
    textX: nat,
    textY: nat,
    wrapWidth: int)      // characters per caption line handed to textwrap

  /** int(H * 0.15): the caption band, 15% of the height rounded down. */
  function CaptionHeight(screenHeight: nat): (d: nat)
    ensures d <= screenHeight
    ensures d * 100 <= screenHeight * CaptionPercent < (d + 1) * 100
  {
    screenHeight * CaptionPercent / 100
  }

  /** A length scaled by num/den and rounded down, as int() does with the exact product. */
  function Scaled(length: nat, num: nat, den: nat): nat
    requires den > 0
  {
    length * num / den
  }

  /** `int(img_height * img_aspect) > screen_size[0]`: the image scaled to the band is wider than the screen. */
  predicate TooWide(screenWidth: nat, band: nat, imageWidth: nat, imageHeight: nat)
    requires imageHeight > 0
    ensures TooWide(screenWidth, band, imageWidth, imageHeight) ==>
              imageWidth > 0 && screenWidth * imageHeight < band * imageWidth
  {
    Scaled(band, imageWidth, imageHeight) > screenWidth
  }

  /** The resized image size, aspect ratio kept, fitted to the band height or else to the screen width. */
  function ScaleToFit(screenWidth: nat, band: nat, imageWidth: nat, imageHeight: nat): (s: Size)
    requires imageHeight > 0
    ensures s.width <= screenWidth && s.height <= band
    ensures s.height == band || s.width == screenWidth
  {
    if TooWide(screenWidth, band, imageWidth, imageHeight) then
      Size(screenWidth, Scaled(screenWidth, imageHeight, imageWidth))
    else
      Size(Scaled(band, imageWidth, imageHeight), band)
  }

  /**
   * When the band height binds, the image fills it and its width is the
   * exact scaled width rounded down.
   */
  lemma ScaleToFitHeightBound(screenWidth: nat, band: nat, imageWidth: nat, imageHeight: nat)
    requires imageHeight > 0 && !TooWide(screenWidth, band, imageWidth, imageHeight)
    ensures var s := ScaleToFit(screenWidth, band, imageWidth, imageHeight);
            s.height == band && s.width <= screenWidth &&
            s.width * imageHeight <= band * imageWidth < (s.width + 1) * imageHeight
  {
  }

  /**
   * When the scaled width would overflow, the image takes the full screen
   * width, its height is the exact scaled height rounded down, and it is
   * strictly lower than the band.
   */
  lemma ScaleToFitWidthBound(screenWidth: nat, band: nat, imageWidth: nat, imageHeight: nat)
    requires imageHeight > 0 && TooWide(screenWidth, band, imageWidth, imageHeight)
    ensures imageWidth > 0
    ensures var s := ScaleToFit(screenWidth, band, imageWidth, imageHeight);
            s.width == screenWidth && s.height < band &&
            s.height * imageWidth <= screenWidth * imageHeight < (s.height + 1) * imageWidth
  {
    var q := Scaled(screenWidth, imageHeight, imageWidth);
    ScaledBounds(screenWidth, imageHeight, imageWidth);
    LessAfterScaling(q, band, imageWidth);
  }

  /** The scaled length is the exact quotient rounded down. */
  lemma ScaledBounds(length: nat, num: nat, den: nat)
    requires den > 0
    ensures Scaled(length, num, den) * den <= length * num < (Scaled(length, num, den) + 1) * den
  {
  }

  /** q * w < b * w gives q < b. */
  lemma LessAfterScaling(q: nat, b: nat, w: nat)
    requires q * w < b * w
    ensures q < b
  {
  }

  /** int(max_width / (font_size * 0.6)): Python's int() truncates toward zero, also for a negative quotient. */
  function WrapWidth(screenWidth: nat): (k: int)
    ensures screenWidth >= 2 * TextMargin ==>
              0 <= k && k * CharWidth <= screenWidth - 2 * TextMargin < (k + 1) * CharWidth
    ensures screenWidth < 2 * TextMargin ==>
              k <= 0 && -k * CharWidth <= 2 * TextMargin - screenWidth < (-k + 1) * CharWidth
  {
    var m := screenWidth - 2 * TextMargin;
    if m >= 0 then m / CharWidth else -((-m) / CharWidth)
  }

  /** textwrap accepts only a positive width, which takes a screen at least 52 pixels wide. */
  lemma WrapWidthPositive(screenWidth: nat)
    ensures WrapWidth(screenWidth) > 0 <==> screenWidth >= 2 * TextMargin + CharWidth
  {
  }

  /** The geometry of create_wallpaper for a screen and an image of the given sizes. */
  function LayOut(screen: Size, imageWidth: nat, imageHeight: nat): (p: Plan)
    requires imageHeight > 0
    ensures p.captionHeight == CaptionHeight(screen.height)
    ensures p.captionHeight + p.band == screen.height
    ensures p.image == ScaleToFit(screen.width, p.band, imageWidth, imageHeight)
    ensures p.imageX + p.image.width <= screen.width && p.imageY == 0
    ensures 0 <= screen.width - p.image.width - 2 * p.imageX <= 1
    ensures p.image.height + p.captionHeight <= screen.height
    ensures p.textX == TextMargin && p.textY == p.image.height + TextMargin
    ensures p.wrapWidth == WrapWidth(screen.width)
  {
    var d := CaptionHeight(screen.height);
    var band := screen.height - d;
    var s := ScaleToFit(screen.width, band, imageWidth, imageHeight);
    Plan(d, band, s, (screen.width - s.width) / 2, 0,
         TextMargin, s.height + TextMargin, WrapWidth(screen.width))
  }
}
