/**
 * The font lookup of create_wallpaper: keep the default Arial path when it
 * exists, otherwise take the first of three fallback paths that exists, and
 * keep the default when none does. Which paths exist (os.path.exists) is an
 * input set.
 */
module FontSearch {

  const DefaultFontPath: string := "/System/Library/Fonts/Supplemental/Arial.ttf"

  const FallbackFontPaths: seq<string> := [
    "/System/Library/Fonts/Helvetica.ttc",
    "/Library/Fonts/Arial.ttf",
    "/System/Library/Fonts/Supplemental/Courier New.ttf"
  ]

  /** The first of paths that exists, or otherwise when none does. */
  function FirstExisting(paths: seq<string>, existing: set<string>, otherwise: string): (path: string)
    ensures path in paths || path == otherwise
  {
    if paths == [] then otherwise
    else if paths[0] in existing then paths[0]
    else FirstExisting(paths[1..], existing, otherwise)
  }

  /** The path the search settles on. */
  function ChosenFontPath(existing: set<string>): (path: string)
    ensures path == DefaultFontPath || path in FallbackFontPaths
  {
    if DefaultFontPath in existing then DefaultFontPath
    else FirstExisting(FallbackFontPaths, existing, DefaultFontPath)
  }

  /** FirstExisting returns the earliest existing entry, and the fallback value only when no entry exists. */
  lemma {:induction false} FirstExistingIsFirst(paths: seq<string>, existing: set<string>, otherwise: string)
    ensures forall k :: (0 <= k < |paths| && paths[k] in existing &&
                         (forall j :: 0 <= j < k ==> paths[j] !in existing))
              ==> FirstExisting(paths, existing, otherwise) == paths[k]
    ensures (forall k :: 0 <= k < |paths| ==> paths[k] !in existing) ==>
              FirstExisting(paths, existing, otherwise) == otherwise
    ensures FirstExisting(paths, existing, otherwise) in existing ||
            FirstExisting(paths, existing, otherwise) == otherwise
  {
    if paths != [] {
      FirstExistingIsFirst(paths[1..], existing, otherwise);
      forall k | 0 < k < |paths| ensures paths[1..][k - 1] == paths[k] { }
    }
  }

  /**
   * The chosen font: the default when it exists; otherwise the first fallback
   * in list order that exists; the default when none of them does.
   */
  lemma ChosenFontPathSpec(existing: set<string>)
    ensures DefaultFontPath in existing ==> ChosenFontPath(existing) == DefaultFontPath
    ensures DefaultFontPath !in existing ==>
              forall k :: (0 <= k < |FallbackFontPaths| && FallbackFontPaths[k] in existing &&
                           (forall j :: 0 <= j < k ==> FallbackFontPaths[j] !in existing))
                ==> ChosenFontPath(existing) == FallbackFontPaths[k]
    ensures (forall k :: 0 <= k < |FallbackFontPaths| ==> FallbackFontPaths[k] !in existing) ==>
              ChosenFontPath(existing) == DefaultFontPath
    ensures ChosenFontPath(existing) in existing || ChosenFontPath(existing) == DefaultFontPath
  {
    FirstExistingIsFirst(FallbackFontPaths, existing, DefaultFontPath);
  }

  /** The search loop: starts from the default and breaks at the first fallback that exists. */
  method SelectFontPath(existing: set<string>) returns (fontPath: string)
    ensures fontPath == ChosenFontPath(existing)
  {
    fontPath := DefaultFontPath;
    if DefaultFontPath !in existing {
      var paths := FallbackFontPaths;
      for i := 0 to |paths|
        invariant fontPath == DefaultFontPath
        invariant FirstExisting(paths, existing, DefaultFontPath) == FirstExisting(paths[i..], existing, DefaultFontPath)
      {
        if paths[i] in existing {
          fontPath := paths[i];
          break;
        }
        assert paths[i..][1..] == paths[i + 1..];
      }
      assert fontPath == DefaultFontPath ==> FirstExisting(paths, existing, DefaultFontPath) == DefaultFontPath;
    }
  }
}
