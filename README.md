# Wikipedia wallpaper of the day — a Dafny model

`wiki-wallpaper.py` fetches Wikipedia's Picture of the Day and its caption.
It lays them out on a screen-sized canvas, with the image at the top and the
caption in a band below it, saves the result as a JPEG and makes it the macOS
desktop picture. This project models the deterministic logic of that script
and proves properties of it:

- **UrlRewrite** (`url_rewrite.dfy`): the image URL normalisation of
  `get_wikipedia_potd`. A protocol-relative `src` gets `https:`. A URL that
  contains `/thumb/` goes through two `re.sub` passes, which replace `/thumb/`
  and every `/<digits>px-` by `/`. `re.sub` is modelled as a left-to-right
  scan (`Substitute`) over the two patterns (`Pattern`).
- **ScreenSize** (`screen_size.dfy`): `get_screen_size`. It finds the first
  `Resolution: <W> x <H>` in the display report or falls back to 1920 x 1080.
  The report is an input; `None` means the command could not be run.
- **Layout** (`layout.dfy`): the geometry of `create_wallpaper`. It covers the
  15% caption band, the aspect-preserving scaling with its width fallback,
  the horizontal centring, the caption position and the wrap width.
- **FontSearch** (`font_search.dfy`): the font path lookup. It is a loop with
  `break`, proved against `ChosenFontPath`. The set of existing paths is an
  input.
- **Wallpaper** (`wallpaper.dfy`): `create_wallpaper` as changes to a
  `Canvas` object. The canvas records the pasted image and the drawn caption,
  and the method returns the exceptions that follow from the computed sizes
  as `Failure` values.
- **Potd** (`potd.dfy`): the order of the checks in `get_wikipedia_potd` and
  the `str.strip()` of the description. The page is given as the answers of
  its queries.
- **OutputPath** (`output_path.dfy`): the output path
  `<tempdir>/wikipedia_potd_<YYYY-MM-DD>.jpg` built in `main`.
- **Decimal** and **Wrappers**: digit strings (`\d+`, `int()`, `str()`) and
  Option/Result.

What the script computes with floats (`image.width / image.height`,
`* 0.15`, `20 * 0.6`) is modelled as exact rational arithmetic rounded down.
That is what `int()` does with the non-negative values involved:
`desc_height = H * 15 / 100`, `img_width = (band * iw) / ih`,
`img_height = (W * ih) / iw`, and a character width of 12. Python's floats can
be one pixel off this at exact rounding boundaries of the aspect-ratio
products.

A single `re.sub` pass does not remove every occurrence of its pattern. The
`/` it puts in place of one match can start a new one, as in `/thumb/thumb/`
→ `/thumb/` and `/1px-2px-` → `/2px-`. The model proves exactly when a match
can remain: where a match is directly followed by the tail of another
(`LeftoverIffChained`, both directions). It gives a concrete case
(`ThumbPassIsSinglePass`). The second pass can even put a `/thumb/` back
(`ThumbReappears`). It does not claim that the output is free of matches.

## Model

| member | source | states |
|---|---|---|
| `UrlRewrite.AddScheme` | wiki-wallpaper.py:49-50 | the result starts with "http"; a `src` already starting with "http" is kept, any other gets "https:" in front |
| `UrlRewrite.MatchLength` | wiki-wallpaper.py:55-56 | a match found at the start of a string is a whole "/thumb/" or `/\d+px-`, begins with "/" and has no other "/" before its end |
| `UrlRewrite.MatchLengthComplete` | wiki-wallpaper.py:55-56 | every prefix the pattern matches is the match found: `re.match` misses none, and there is only one |
| `UrlRewrite.Substitute` | wiki-wallpaper.py:55-56 | a `re.sub` pass never makes the string longer |
| `UrlRewrite.SubstituteWithoutMatch` | wiki-wallpaper.py:55-56 | a string in which the pattern does not occur passes through unchanged |
| `UrlRewrite.SubstituteKeepsUnmatched` | wiki-wallpaper.py:55-56 | characters at which no match starts are copied to the output unchanged, in order, before the rewrite of the rest |
| `UrlRewrite.SubstituteReplacesMatch` | wiki-wallpaper.py:55-56 | a whole match at the start becomes one "/", and the scan resumes right after it |
| `UrlRewrite.SubstituteSplitsAtSlash` | wiki-wallpaper.py:55-56 | text that holds no match even with the next "/" is copied, and the rewrite carries on from that "/" |
| `UrlRewrite.ReplacementCountPositive` | wiki-wallpaper.py:54-55 | the pass replaces something (the count `re.subn` reports is positive) exactly when the pattern occurs |
| `UrlRewrite.SubstituteIsSubsequence` | wiki-wallpaper.py:55-56 | a pass only deletes characters; every kept character stays, in order |
| `UrlRewrite.SubstituteShrinks` | wiki-wallpaper.py:55-56 | a string in which the pattern occurs loses at least four characters |
| `UrlRewrite.SubstituteKeepsSlashFreePrefix` | wiki-wallpaper.py:55-56 | a prefix without "/" survives a pass unchanged |
| `UrlRewrite.PrefixOfSubstitute` | wiki-wallpaper.py:55-56 | a prefix of the output whose only "/" is its last character was already a prefix of the input |
| `UrlRewrite.SlashEndedPrefixSurvives` | wiki-wallpaper.py:55-56 | conversely, a prefix of the input whose only "/" is its last character is still a prefix of the output |
| `UrlRewrite.LeftoverMatchIsChained` | wiki-wallpaper.py:55-56 | a match left after one pass implies that the input had a match directly followed by the tail of another |
| `UrlRewrite.ChainedStartLeavesMatch` | wiki-wallpaper.py:55-56 | a match directly followed by the tail of another, anywhere in the input, leaves a match in the output |
| `UrlRewrite.LeftoverIffChained` | wiki-wallpaper.py:55-56 | a match is left after one pass exactly when the input holds such a chained match |
| `UrlRewrite.ThumbPassIsSinglePass` | wiki-wallpaper.py:55 | "/thumb/thumb/" becomes "/thumb/", which still contains "/thumb/" |
| `UrlRewrite.FullResolutionWithoutThumb` | wiki-wallpaper.py:54 | a URL without "/thumb/" is not rewritten, even if it contains `/<digits>px-` |
| `UrlRewrite.FullResolution` | wiki-wallpaper.py:54-56 | the rewrite never lengthens the URL and keeps a leading "http" |
| `UrlRewrite.NormaliseImageSource` | wiki-wallpaper.py:48-56 | whatever the `src`, the URL returned starts with "http" and is at most "https:" longer than `src` |
| `UrlRewrite.FullResolutionOfThumbnail` | wiki-wallpaper.py:54-56 | a thumbnail URL has at least one "/thumb/" replaced; it loses at least six characters per replacement, and the characters it keeps stay in order |
| `UrlRewrite.ThumbPassShrinks` | wiki-wallpaper.py:55 | the first pass shortens the URL by exactly six per replacement: output length + 6 × number of replacements = input length |
| `UrlRewrite.FullResolutionLeftover` | wiki-wallpaper.py:54-56 | a `/<digits>px-` is left in the rewritten thumbnail URL exactly when the first pass left a chained one |
| `UrlRewrite.FullResolutionOfUsualThumbnail` | wiki-wallpaper.py:53-56 | the usual thumbnail URL `<base>/thumb/<dir>/<n>px-<name>` becomes `<base>/<dir>/<name>` when neither pattern occurs in base, dir or name on its own |
| `UrlRewrite.ThumbReappears` | wiki-wallpaper.py:54-56 | `/thumb/<dir>/<n>px-thumb/` becomes `/<dir>/thumb/`: the rewritten URL can contain "/thumb/" again |
| `Decimal.DigitRun` | wiki-wallpaper.py:152 | a greedy `\d+` takes the whole run of leading digits and stops at the first non-digit |
| `Decimal.Value` | wiki-wallpaper.py:156-157 | `int()` of k digits is below 10^k, and at least 10^(k-1) when the first digit is not 0 |
| `Decimal.ValueOfRender` | wiki-wallpaper.py:156-157 | `int()` reads back the number whose decimal text it is given |
| `Decimal.DigitRunOfDigits` | wiki-wallpaper.py:152 | on digits followed by a non-digit, `\d+` takes exactly the digits |
| `ScreenSize.MatchAt` | wiki-wallpaper.py:152-153 | a match at the start of the text is "Resolution: " + digits + " x " + digits, and the second group is not followed by another digit |
| `ScreenSize.MatchAtComplete` | wiki-wallpaper.py:152-153 | every such line at the start of the text is matched, and its groups are exactly its two numbers |
| `ScreenSize.Search` | wiki-wallpaper.py:153 | groups that are found are non-empty digit strings |
| `ScreenSize.SearchFindsFirst` | wiki-wallpaper.py:153 | the search returns the match at the leftmost matching position |
| `ScreenSize.SearchNone` | wiki-wallpaper.py:153 | the search finds nothing exactly when the pattern matches at no position |
| `ScreenSize.SearchPosition` | wiki-wallpaper.py:153 | what the search returns is the match at a position with no match before it |
| `ScreenSize.GetScreenSize` | wiki-wallpaper.py:145-163 | any size other than (1920, 1080) comes from a match of the pattern in the command's output |
| `ScreenSize.ScreenSizeOfReport` | wiki-wallpaper.py:152-158 | a report whose first match carries W and H gives exactly (W, H) |
| `ScreenSize.ScreenSizeFallback` | wiki-wallpaper.py:155-163 | a report without a match gives (1920, 1080) |
| `ScreenSize.ScreenSizeSources` | wiki-wallpaper.py:147-163 | the size is either the fallback or the two numbers of the leftmost match |
| `Layout.CaptionHeight` | wiki-wallpaper.py:87 | the caption band is 15% of the height, rounded down |
| `Layout.TooWide` | wiki-wallpaper.py:91-94 | an image too wide for the screen has a positive width, and W × image height < band × image width |
| `Layout.ScaleToFit` | wiki-wallpaper.py:91-97 | the resized image never exceeds the screen width or the band height, and it reaches one of the two |
| `Layout.ScaleToFitHeightBound` | wiki-wallpaper.py:88-92 | when the height binds, the image fills the band height, and its width is the scaled width rounded down and fits the screen |
| `Layout.ScaleToFitWidthBound` | wiki-wallpaper.py:94-97 | when the scaled width overflows, the width is exactly the screen width, and the height is the scaled height rounded down and strictly below the band |
| `Layout.WrapWidth` | wiki-wallpaper.py:134-135 | the wrap width is (W - 40) / 12 truncated toward zero, also when W - 40 is negative |
| `Layout.WrapWidthPositive` | wiki-wallpaper.py:134-135 | the wrap width is positive exactly when the screen is at least 52 pixels wide |
| `Layout.LayOut` | wiki-wallpaper.py:86-139 | band and caption together are the screen height; the image lies inside the screen width, at y = 0, centred with the left margin equal to the right margin or one pixel less, and above the caption band; the caption starts at (20, image height + 20) |
| `FontSearch.FirstExisting` | wiki-wallpaper.py:122-125 | the result is one of the candidate paths or the starting value |
| `FontSearch.FirstExistingIsFirst` | wiki-wallpaper.py:122-125 | the loop's result is the earliest existing entry, and the starting value only when no entry exists |
| `FontSearch.ChosenFontPath` | wiki-wallpaper.py:113-125 | the chosen path is the default or one of the fallbacks |
| `FontSearch.ChosenFontPathSpec` | wiki-wallpaper.py:113-125 | the default path if it exists, else the first fallback in list order that exists, else the default |
| `FontSearch.SelectFontPath` | wiki-wallpaper.py:113-125 | the search loop with `break` returns the chosen path |
| `Wallpaper.Screen` | wiki-wallpaper.py:81 | the size is exactly what `get_screen_size()` returns for the display report, so anything but 1920 x 1080 needs that report |
| `Wallpaper.Canvas.constructor` | wiki-wallpaper.py:84 | a new canvas of the screen size and background colour with nothing drawn on it |
| `Wallpaper.Canvas.Paste` | wiki-wallpaper.py:106 | records the pasted image and its position after what was there |
| `Wallpaper.Canvas.DrawText` | wiki-wallpaper.py:141 | records the caption, its position, wrap width, font and colour after what was there |
| `Wallpaper.CreateWallpaper` | wiki-wallpaper.py:77-143 | a zero image height, an empty resized image and a non-positive wrap width fail, in that order; otherwise a fresh black canvas of the screen size holds the resized image at its planned place, then the description in white at the caption position in the chosen font |
| `Potd.LeadingWhitespace` | wiki-wallpaper.py:64 | counts exactly the whitespace at the start of the text |
| `Potd.TrailingWhitespace` | wiki-wallpaper.py:64 | counts exactly the whitespace at the end of the text |
| `Potd.Strip` | wiki-wallpaper.py:64 | the result is the text with its whitespace removed at both ends; it has no whitespace at either end, and everything removed was whitespace |
| `Potd.StripIdempotent` | wiki-wallpaper.py:64 | stripping twice is stripping once |
| `Potd.StripUnchanged` | wiki-wallpaper.py:64 | a text without whitespace at either end is kept as it is |
| `Potd.ImageSource` | wiki-wallpaper.py:43-48 | a source is found exactly when the potd div has a first image with a `src` attribute, and it is that image's `src` value |
| `Potd.DescriptionDiv` | wiki-wallpaper.py:59 | a description div is found exactly when one of the two ids is present; it is the `potd-desc` div when there is one, and the `potd-description` div otherwise |
| `Potd.GetPotd` | wiki-wallpaper.py:24-66 | a picture is returned exactly when the status is 200, the potd div holds an image with `src` and a description div exists; otherwise the first failing check is reported; the URL is the normalised `src` and the description is the stripped text of `potd-desc`, or else of `potd-description` |
| `Potd.PotdResultShape` | wiki-wallpaper.py:48-66 | a returned picture has a URL starting with "http" and a description without surrounding whitespace |
| `OutputPath.Padded` | wiki-wallpaper.py:192 | a zero-padded field has exactly the requested number of digits |
| `OutputPath.ValueOfPadded` | wiki-wallpaper.py:192 | zero padding loses nothing when the number fits |
| `OutputPath.FormatDate` | wiki-wallpaper.py:192 | `%Y-%m-%d` is always ten characters |
| `OutputPath.FileName` | wiki-wallpaper.py:192-193 | the name is "wikipedia_potd_", ten characters of date and ".jpg" |
| `OutputPath.FileNameRoundTrip` | wiki-wallpaper.py:192-193 | the date can be read back from the file name |
| `OutputPath.FileNameInjective` | wiki-wallpaper.py:192-193 | different days give different file names |
| `OutputPath.Join` | wiki-wallpaper.py:193 | `os.path.join` on POSIX: the path ends with the name, and starts with the directory unless the name is absolute |
| `OutputPath.WallpaperPath` | wiki-wallpaper.py:191-193 | the day can be read back from the end of the path |
| `OutputPath.WallpaperPathInTempDir` | wiki-wallpaper.py:191-193 | the file lies directly in the temporary directory, joined with at most one "/" and named with the day's file name |

## Left out

- HTTP requests (`requests.get`, lines 29 and 70) are network I/O. The page's status code is an input. Connection errors, which the script does not catch, are not modelled.
- BeautifulSoup parsing and queries (lines 34-47, 59-64) belong to a foreign library. Their answers are inputs (`Potd.Page`), and `get_text()` is the `text` of a `Potd.Div`.
- `download_image` (lines 68-75) is network I/O plus image decoding. The decoded image enters `CreateWallpaper` as its width and height.
- Exceptions raised inside Pillow's own calls are not modelled. Examples are an `ImportError` from `ImageFont.truetype` when Pillow lacks FreeType (line 129), and a `UnicodeEncodeError` from `draw.text` with a caption outside Latin-1 while `load_default()`'s bitmap font is in use (line 141). `Failure` covers only the three exceptions that follow from the computed sizes: division by zero, an empty resize and a non-positive wrap width.
- Pixels are out of scope: Pillow's `Image.new`, LANCZOS resampling, `paste`, `draw.text` and the JPEG save (lines 84, 99, 106, 141, 195). The canvas records what is pasted and drawn, not the resulting pixels.
- `textwrap.fill` (line 135) is a library routine. The drawn caption carries the description and the wrap width, not the wrapped lines.
- Subprocesses are OS plumbing. The `system_profiler` output is an input, and `set_desktop_wallpaper` (lines 165-178, `osascript`) is not modelled.
- `main`'s sequencing (lines 180-204), console output and `sys.exit` are not modelled. The exits are the `PotdError` values.
- The clock (`datetime.now()`) and `tempfile.gettempdir()` are inputs.
- Floating-point rounding is not modelled (see above). Results can differ from Python by one pixel where an aspect-ratio product lands exactly on an integer.
- `\d` is modelled as ASCII `0`-`9`. Python's `\d` and `int()` also accept other Unicode decimal digits.
- `int()` rejects a group of more than 4300 digits, which makes `get_screen_size` fall back. This limit is the default in Python 3.11 and later, and in the 3.10.7, 3.9.14, 3.8.14 and 3.7.14 security releases. Earlier releases have no limit; the model always applies it.
- `Layout.LayOut`: requires a positive image height, because the script divides by it. `CreateWallpaper` handles a zero height as a failure instead.
- `OutputPath.FormatDate`: years below 1000 are written zero-padded to four digits. The C library's `%Y` may not pad them.
- `UrlRewrite.FullResolutionOfThumbnail`: does not promise that "/thumb/" or `/<digits>px-` is gone from the result. A "/thumb/" can survive the first pass ("/thumb/thumb/" → "/thumb/", `ThumbPassIsSinglePass`). The second pass can also rebuild one: "/thumb/a/1px-thumb/" → "/a/thumb/" (`ThumbReappears` with dir "a" and n = 1). What is left of `/<digits>px-` is characterised by `FullResolutionLeftover`.
- `Wallpaper.LoadFont` stands for `ImageFont.truetype(path, 20)` and its `IOError` fallback to `load_default()` (lines 127-131). Font files are not read. The set `loadable` lists the paths that load, and the model states nothing about font contents.
- Whitespace for `str.strip()` is the fixed set of code points Python treats as whitespace. It is written out, not derived from Unicode tables.
