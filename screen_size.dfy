/**
 * get_screen_size: the first `Resolution: <W> x <H>` in the display report
 * gives the screen size; anything else falls back to 1920 x 1080. The
 * report itself (the output of `system_profiler SPDisplaysDataType`) is an
 * input, None when running the command failed.
 */
module ScreenSize {
  import opened Wrappers
  import opened Decimal

  const Label: string := "Resolution: "
  const Separator: string := " x "
  const FallbackWidth: nat := 1920
  const FallbackHeight: nat := 1080
  /** Python's int() refuses (ValueError) a decimal string of more digits than this. */
  const MaxStrDigits: nat := 4300

  /** s begins with "Resolution: " + a + " x " + b, a and b nonempty digit strings. */
  predicate StartsWithReport(s: string, a: string, b: string) {
    |a| > 0 && |b| > 0 && AllDigits(a) && AllDigits(b) && Label + a + Separator + b <= s
  }

  /**
   * The two groups of `Resolution: (\d+) x (\d+)` matched at the very start of s.
   * The first group is followed by " x " and the second is greedy, so both
   * groups are whole digit runs.
   */
  function MatchAt(s: string): (g: Option<(string, string)>)
    ensures g.Some? ==> StartsWithReport(s, g.value.0, g.value.1)
    ensures g.Some? ==> var end := |Label| + |g.value.0| + |Separator| + |g.value.1|;
                        end == |s| || !IsDigit(s[end])
  {
    if Label <= s then
      var rest := s[|Label|..];
      var a := DigitRun(rest);
      if a > 0 && Separator <= rest[a..] then
        var rest2 := rest[a + |Separator|..];
        var b := DigitRun(rest2);
        if b > 0 then
          assert s[..|Label| + a + |Separator| + b] == Label + rest[..a] + Separator + rest2[..b];
          Some((rest[..a], rest2[..b]))
        else
          None
      else
        None
    else
      None
  }

  /** The pieces of Label + a + Separator + b + tail that MatchAt looks at. */
  lemma ReportSlices(s: string, a: string, b: string, tail: string)
    requires s == Label + a + Separator + b + tail
    ensures Label <= s
    ensures s[|Label|..] == a + (Separator + b + tail)
    ensures s[|Label|..][|a|..] == Separator + b + tail
    ensures s[|Label|..][|a| + |Separator|..] == b + tail
  {
    assert s[|Label|..] == a + (Separator + b + tail);
  }

  /** Every match at the start of s is found, and its groups are the whole digit runs. */
  lemma MatchAtComplete(s: string, a: string, b: string, tail: string)
    requires |a| > 0 && |b| > 0 && AllDigits(a) && AllDigits(b)
    requires s == Label + a + Separator + b + tail
    requires tail == [] || !IsDigit(tail[0])
    ensures MatchAt(s) == Some((a, b))
  {
    ReportSlices(s, a, b, tail);
    DigitRunOfDigits(a, Separator + b + tail);
    DigitRunOfDigits(b, tail);
    var rest := s[|Label|..];
    assert rest[..|a|] == a;
    assert rest[|a| + |Separator|..][..|b|] == b;
  }

  /** re.search: the groups of the leftmost match, None when there is none. */
  function Search(s: string): (g: Option<(string, string)>)
    ensures g.Some? ==> |g.value.0| > 0 && |g.value.1| > 0
    ensures g.Some? ==> AllDigits(g.value.0) && AllDigits(g.value.1)
    decreases |s|
  {
    if s == [] then None
    else if MatchAt(s).Some? then MatchAt(s)
    else Search(s[1..])
  }

  /** Search finds the leftmost position at which the pattern matches. */
  lemma {:induction false} SearchFindsFirst(s: string, i: nat)
    requires i < |s| && MatchAt(s[i..]).Some?
    requires forall j :: 0 <= j < i ==> MatchAt(s[j..]).None?
    ensures Search(s) == MatchAt(s[i..])
    decreases i
  {
    assert s[0..] == s;
    if i > 0 {
      assert s[1..][i - 1..] == s[i..];
      forall j | 0 <= j < i - 1 ensures MatchAt(s[1..][j..]).None? {
        assert s[1..][j..] == s[j + 1..];
      }
      SearchFindsFirst(s[1..], i - 1);
    }
  }

  /** Search finds nothing exactly when the pattern matches nowhere. */
  lemma {:induction false} SearchNone(s: string)
    ensures Search(s).None? <==> forall j :: 0 <= j < |s| ==> MatchAt(s[j..]).None?
    decreases |s|
  {
    if s != [] {
      assert s[0..] == s;
      SearchNone(s[1..]);
      forall j | 0 < j < |s| ensures s[1..][j - 1..] == s[j..] { }
    }
  }

  /** get_screen_size, from the command's output (None: the command could not be run). */
  function GetScreenSize(output: Option<string>): (size: (nat, nat))
    ensures size != (FallbackWidth, FallbackHeight) ==> output.Some? && Search(output.value).Some?
  {
    match output
    case None => (FallbackWidth, FallbackHeight)
    case Some(text) =>
      match Search(text)
      case None => (FallbackWidth, FallbackHeight)
      case Some((w, h)) =>
        if |w| > MaxStrDigits || |h| > MaxStrDigits then (FallbackWidth, FallbackHeight)
        else (Value(w), Value(h))
  }

  /**
   * A report whose first `Resolution:` line carries W and H (as str() writes
   * them) yields exactly (W, H).
   */
  lemma ScreenSizeOfReport(prefix: string, w: nat, h: nat, tail: string)
    requires tail == [] || !IsDigit(tail[0])
    requires |Render(w)| <= MaxStrDigits && |Render(h)| <= MaxStrDigits
    requires var s := prefix + Label + Render(w) + Separator + Render(h) + tail;
             forall j :: 0 <= j < |prefix| ==> MatchAt(s[j..]).None?
    ensures GetScreenSize(Some(prefix + Label + Render(w) + Separator + Render(h) + tail)) == (w, h)
  {
    var s := prefix + Label + Render(w) + Separator + Render(h) + tail;
    var i := |prefix|;
    ReportAfterPrefix(prefix, Render(w), Render(h), tail);
    MatchAtComplete(s[i..], Render(w), Render(h), tail);
    SearchFindsFirst(s, i);
    ValueOfRender(w);
    ValueOfRender(h);
  }

  /** What follows the prefix in prefix + Label + a + Separator + b + tail. */
  lemma ReportAfterPrefix(prefix: string, a: string, b: string, tail: string)
    ensures var s := prefix + Label + a + Separator + b + tail;
            |prefix| <= |s| && s[|prefix|..] == Label + a + Separator + b + tail
  {
  }

  /** Without any `Resolution: <W> x <H>` in the report, the size is 1920 x 1080. */
  lemma ScreenSizeFallback(text: string)
    requires forall j :: 0 <= j < |text| ==> MatchAt(text[j..]).None?
    ensures GetScreenSize(Some(text)) == (FallbackWidth, FallbackHeight)
  {
    SearchNone(text);
  }

  /** What Search returns is the match at the leftmost position where there is one. */
  lemma {:induction false} SearchPosition(s: string) returns (i: nat)
    requires Search(s).Some?
    ensures i < |s| && MatchAt(s[i..]) == Search(s)
    ensures forall j :: 0 <= j < i ==> MatchAt(s[j..]).None?
    decreases |s|
  {
    assert s[0..] == s;
    if MatchAt(s).Some? {
      i := 0;
    } else {
      var k := SearchPosition(s[1..]);
      assert s[1..][k..] == s[k + 1..];
      forall j | 0 < j <= k ensures MatchAt(s[j..]).None? {
        assert s[1..][j - 1..] == s[j..];
      }
      i := k + 1;
    }
  }

  /** Whatever the report says, the size is the fallback or comes from the leftmost match. */
  lemma ScreenSizeSources(text: string)
    ensures var size := GetScreenSize(Some(text));
            size == (FallbackWidth, FallbackHeight) ||
            exists i :: 0 <= i < |text| && MatchAt(text[i..]).Some? &&
              (forall j :: 0 <= j < i ==> MatchAt(text[j..]).None?) &&
              size == (Value(MatchAt(text[i..]).value.0), Value(MatchAt(text[i..]).value.1))
  {
    if Search(text).Some? {
      var i := SearchPosition(text);
    }
  }
}
