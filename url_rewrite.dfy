/**
 * The image-URL normalisation of get_wikipedia_potd: a protocol-relative `src`
 * gets the "https:" scheme, and a thumbnail URL (one containing "/thumb/") is
 * rewritten towards the full-resolution file by two `re.sub` passes that
 * replace "/thumb/" and every `/<digits>px-` by a single "/".
 */
module UrlRewrite {
  import opened Decimal

  /** The two patterns the script hands to re.sub; both are replaced by "/". */
  datatype Pattern =
    | ThumbSegment      // the literal "/thumb/"
    | ResolutionPrefix  // the regular expression `/\d+px-`

  const ThumbText: string := "/thumb/"
  const Replacement: string := "/"
  const Scheme: string := "https:"

  /** No "/" in w except possibly as its last character. */
  predicate SlashOnlyAtEnd(w: string) {
    forall k :: 0 <= k < |w| - 1 ==> w[k] != '/'
  }

  /** The whole of w is a string that p matches. */
  predicate Matches(p: Pattern, w: string) {
    match p
    case ThumbSegment => w == ThumbText
    case ResolutionPrefix =>
      |w| >= 5 && w[0] == '/' && AllDigits(w[1..|w| - 3]) && w[|w| - 3..] == "px-"
  }

  /** A `/<digits>px-` at the start of s ends exactly where the digit run ends, plus "px-". */
  lemma ResolutionPrefixLength(s: string, k: nat)
    requires k <= |s| && Matches(ResolutionPrefix, s[..k])
    ensures DigitRun(s[1..]) == k - 4
  {
    var w := s[..k];
    assert s[1..] == w[1..k - 3] + s[k - 3..];
    assert s[k - 3] == w[k - 3] == 'p';
    DigitRunOfDigits(w[1..k - 3], s[k - 3..]);
  }

  /** "/thumb/" at the start of s is a whole match with no "/" inside. */
  lemma ThumbMatchShape(s: string)
    requires ThumbText <= s
    ensures Matches(ThumbSegment, s[..|ThumbText|])
    ensures s[0] == '/' && SlashOnlyAtEnd(s[1..|ThumbText|])
  {
    assert s[..|ThumbText|] == ThumbText;
    assert s[1..7] == "thumb/";
  }

  /** "/", d digits and "px-" at the start of s are a whole match with no "/" inside. */
  lemma ResolutionMatchShape(s: string, d: nat)
    requires s != [] && s[0] == '/' && d == DigitRun(s[1..]) && d > 0 && "px-" <= s[1 + d..]
    ensures d + 4 <= |s|
    ensures Matches(ResolutionPrefix, s[..d + 4])
    ensures SlashOnlyAtEnd(s[1..d + 4])
  {
    assert s[..d + 4][1..d + 1] == s[1..][..d];
    assert s[1..d + 4] == s[1..][..d] + "px-";
  }

  /** Length of the match of p at the very start of s (what re.match finds), 0 when there is none. */
  function MatchLength(p: Pattern, s: string): (n: nat)
    ensures n <= |s|
    ensures n > 0 ==> Matches(p, s[..n])
    ensures n > 0 ==> s[0] == '/' && SlashOnlyAtEnd(s[1..n])
  {
    match p
    case ThumbSegment =>
      if ThumbText <= s then
        ThumbMatchShape(s);
        |ThumbText|
      else
        0
    case ResolutionPrefix =>
      if s != [] && s[0] == '/' then
        var d := DigitRun(s[1..]);
        if d > 0 && "px-" <= s[1 + d..] then
          ResolutionMatchShape(s, d);
          d + 4
        else
          0
      else
        0
  }

  /** Whatever prefix of s the pattern matches is the match MatchLength finds: re.match misses none and there is only one. */
  lemma MatchLengthComplete(p: Pattern, s: string, k: nat)
    requires 0 < k <= |s| && Matches(p, s[..k])
    ensures MatchLength(p, s) == k
  {
    if p == ResolutionPrefix {
      ResolutionPrefixLength(s, k);
      assert s[1 + (k - 4)..] == s[..k][k - 3..] + s[k..];
    }
  }

  /** p matches somewhere in s: re.search(p, s) finds something. */
  predicate Occurs(p: Pattern, s: string) {
    exists i :: 0 <= i < |s| && MatchLength(p, s[i..]) > 0
  }

  /** re.sub(p, "/", s): scan from the left, replace each match by "/" and resume right after it. */
  function Substitute(p: Pattern, s: string): (r: string)
    ensures |r| <= |s|
    decreases |s|
  {
    if s == [] then
      []
    else
      var n := MatchLength(p, s);
      if n > 0 then Replacement + Substitute(p, s[n..]) else [s[0]] + Substitute(p, s[1..])
  }

  /** A string in which p does not occur passes through re.sub unchanged. */
  lemma {:induction false} SubstituteWithoutMatch(p: Pattern, s: string)
    requires !Occurs(p, s)
    ensures Substitute(p, s) == s
    decreases |s|
  {
    if s != [] {
      assert s[0..] == s;
      assert !Occurs(p, s[1..]) by {
        forall i | 0 <= i < |s[1..]| ensures MatchLength(p, s[1..][i..]) == 0 {
          assert s[1..][i..] == s[i + 1..];
        }
      }
      SubstituteWithoutMatch(p, s[1..]);
    }
  }

  /** One character at which no match starts is copied. */
  lemma SubstituteKeepsFirst(p: Pattern, c: char, v: string)
    requires MatchLength(p, [c] + v) == 0
    ensures Substitute(p, [c] + v) == [c] + Substitute(p, v)
  {
    assert ([c] + v)[1..] == v;
  }

  /** Dropping a characters and then b more drops a + b. */
  lemma DropDrop(s: string, a: nat, b: nat)
    requires a + b <= |s|
    ensures s[a..][b..] == s[a + b..]
  {
  }

  /** One step of the scan: a match at the start is replaced by "/". */
  lemma SubstituteReplaceStep(p: Pattern, s: string)
    requires MatchLength(p, s) > 0
    ensures Substitute(p, s) == Replacement + Substitute(p, s[MatchLength(p, s)..])
  {
  }

  /** Past the first character of r == [c] + t, r and t agree. */
  lemma SingleThenDrop(r: string, t: string, j: nat)
    requires |r| == 1 + |t| && r[1..] == t && 0 < j <= |r|
    ensures t[j - 1..] == r[j..]
  {
  }

  /** One step of the scan: a character at which no match starts is copied. */
  lemma SubstituteStep(p: Pattern, s: string)
    requires s != [] && MatchLength(p, s) == 0
    ensures Substitute(p, s) == [s[0]] + Substitute(p, s[1..])
  {
  }

  /** The slices of s used when the scan steps over its first character. */
  lemma DropFirstSlices(s: string, k: nat)
    requires 0 < k <= |s|
    ensures s[1..][k - 1..] == s[k..]
    ensures s[..k] == [s[0]] + s[1..][..k - 1]
  {
  }

  /** x == [c] + y and y == a + r give x == ([c] + a) + r. */
  lemma ConsConcat(c: char, a: string, r: string, x: string, y: string)
    requires x == [c] + y && y == a + r
    ensures x == ([c] + a) + r
  {
    assert [c] + (a + r) == ([c] + a) + r;
  }

  /** No match in the first k positions of s means none in the first k - 1 positions of s[1..]. */
  lemma NoMatchAfterFirst(p: Pattern, s: string, k: nat)
    requires 0 < k <= |s|
    requires forall i {:trigger MatchLength(p, s[i..])} :: 0 <= i < k ==> MatchLength(p, s[i..]) == 0
    ensures MatchLength(p, s) == 0
    ensures forall i {:trigger MatchLength(p, s[1..][i..])} :: 0 <= i < k - 1 ==> MatchLength(p, s[1..][i..]) == 0
  {
    assert s[0..] == s;
    assert MatchLength(p, s[0..]) == 0;
    forall i | 0 <= i < k - 1 ensures MatchLength(p, s[1..][i..]) == 0 {
      assert s[1..][i..] == s[i + 1..];
      assert MatchLength(p, s[i + 1..]) == 0;
    }
  }

  /** re.sub copies s up to position k when no match starts before k. */
  lemma {:induction false} SubstituteKeepsUnmatchedPrefix(p: Pattern, s: string, k: nat)
    requires k <= |s|
    requires forall i {:trigger MatchLength(p, s[i..])} :: 0 <= i < k ==> MatchLength(p, s[i..]) == 0
    ensures Substitute(p, s) == s[..k] + Substitute(p, s[k..])
    decreases k
  {
    if k > 0 {
      NoMatchAfterFirst(p, s, k);
      SubstituteStep(p, s);
      SubstituteKeepsUnmatchedPrefix(p, s[1..], k - 1);
      DropFirstSlices(s, k);
      ConsConcat(s[0], s[1..][..k - 1], Substitute(p, s[k..]), Substitute(p, s), Substitute(p, s[1..]));
    }
  }

  /**
   * Characters at which no match starts are copied to the output as they are:
   * re.sub keeps everything outside the matches it replaces.
   */
  lemma SubstituteKeepsUnmatched(p: Pattern, u: string, v: string)
    requires forall i :: 0 <= i < |u| ==> MatchLength(p, (u + v)[i..]) == 0
    ensures Substitute(p, u + v) == u + Substitute(p, v)
  {
    SubstituteKeepsUnmatchedPrefix(p, u + v, |u|);
    assert (u + v)[..|u|] == u;
    assert (u + v)[|u|..] == v;
  }

  /** A match at the start is replaced by "/" and the scan resumes right after it. */
  lemma SubstituteReplacesMatch(p: Pattern, w: string, v: string)
    requires Matches(p, w)
    ensures Substitute(p, w + v) == Replacement + Substitute(p, v)
  {
    var s := w + v;
    assert s[..|w|] == w;
    MatchLengthComplete(p, s, |w|);
    assert s[|w|..] == v;
  }

  /** No match starts inside a prefix without "/". */
  lemma SubstituteKeepsSlashFree(p: Pattern, u: string, v: string)
    requires forall k :: 0 <= k < |u| ==> u[k] != '/'
    ensures Substitute(p, u + v) == u + Substitute(p, v)
  {
    forall i | 0 <= i < |u| ensures MatchLength(p, (u + v)[i..]) == 0 {
      assert (u + v)[i..][0] == u[i];
    }
    SubstituteKeepsUnmatched(p, u, v);
  }

  /** A match starting in u, before a "/", is a match starting at the same place in u + "/". */
  lemma MatchBeforeSlash(p: Pattern, u: string, v: string, i: nat)
    requires i < |u| && v != [] && v[0] == '/'
    ensures MatchLength(p, (u + v)[i..]) > 0 ==> MatchLength(p, (u + Replacement)[i..]) > 0
  {
    var s := (u + v)[i..];
    var m := MatchLength(p, s);
    if m > 0 {
      var t := (u + Replacement)[i..];
      if i + m <= |u| {
        assert t[..m] == s[..m];
      } else {
        assert s[1..m][|u| - i - 1] == s[|u| - i] == '/';
        assert t == s[..m];
      }
      MatchLengthComplete(p, t, m);
    }
  }

  /** When u followed by "/" holds no match, re.sub of u + v, v starting with "/", copies u and carries on in v. */
  lemma SubstituteSplitsAtSlash(p: Pattern, u: string, v: string)
    requires !Occurs(p, u + Replacement)
    requires v != [] && v[0] == '/'
    ensures Substitute(p, u + v) == u + Substitute(p, v)
  {
    forall i | 0 <= i < |u| ensures MatchLength(p, (u + v)[i..]) == 0 {
      MatchBeforeSlash(p, u, v, i);
    }
    SubstituteKeepsUnmatched(p, u, v);
  }

  /** How many matches one re.sub pass replaces: the count re.subn reports. */
  function ReplacementCount(p: Pattern, s: string): nat
    decreases |s|
  {
    if s == [] then
      0
    else
      var n := MatchLength(p, s);
      if n > 0 then 1 + ReplacementCount(p, s[n..]) else ReplacementCount(p, s[1..])
  }

  /** Dropping a character at which no match starts keeps whether p occurs. */
  lemma OccursAfterKeptCharacter(p: Pattern, s: string)
    requires s != [] && MatchLength(p, s) == 0
    ensures Occurs(p, s) <==> Occurs(p, s[1..])
  {
    assert s[0..] == s;
    if Occurs(p, s) {
      var i :| 0 <= i < |s| && MatchLength(p, s[i..]) > 0;
      assert s[1..][i - 1..] == s[i..];
    }
    if Occurs(p, s[1..]) {
      var i :| 0 <= i < |s[1..]| && MatchLength(p, s[1..][i..]) > 0;
      assert s[1..][i..] == s[i + 1..];
    }
  }

  /** A match at the start is an occurrence. */
  lemma OccursAtStart(p: Pattern, s: string)
    requires MatchLength(p, s) > 0
    ensures Occurs(p, s)
  {
    assert s[0..] == s;
  }

  /** A pass replaces something exactly when the pattern occurs. */
  lemma {:induction false} ReplacementCountPositive(p: Pattern, s: string)
    ensures ReplacementCount(p, s) > 0 <==> Occurs(p, s)
    decreases |s|
  {
    if s != [] {
      if MatchLength(p, s) == 0 {
        OccursAfterKeptCharacter(p, s);
        ReplacementCountPositive(p, s[1..]);
      } else {
        OccursAtStart(p, s);
      }
    }
  }

  /** r can be obtained from s by deleting characters: every kept character stays, in order. */
  ghost predicate IsSubsequence(r: string, s: string)
    decreases |s|
  {
    r == [] ||
    (s != [] && ((r[0] == s[0] && IsSubsequence(r[1..], s[1..])) || IsSubsequence(r, s[1..])))
  }

  lemma {:induction false} SubsequenceOfSuffix(r: string, s: string, k: nat)
    requires k <= |s| && IsSubsequence(r, s[k..])
    ensures IsSubsequence(r, s)
    decreases k
  {
    if k > 0 {
      assert s[1..][k - 1..] == s[k..];
      SubsequenceOfSuffix(r, s[1..], k - 1);
    }
  }

  lemma {:induction false} SubsequenceTransitive(a: string, b: string, c: string)
    requires IsSubsequence(a, b) && IsSubsequence(b, c)
    ensures IsSubsequence(a, c)
    decreases |c|
  {
    if a != [] {
      if IsSubsequence(b, c[1..]) {
        SubsequenceTransitive(a, b, c[1..]);
      } else if a[0] == b[0] && IsSubsequence(a[1..], b[1..]) {
        SubsequenceTransitive(a[1..], b[1..], c[1..]);
      } else {
        SubsequenceTransitive(a, b[1..], c[1..]);
      }
    }
  }

  /** re.sub with "/" only deletes: the characters it keeps stay in their order. */
  lemma {:induction false} SubstituteIsSubsequence(p: Pattern, s: string)
    ensures IsSubsequence(Substitute(p, s), s)
    decreases |s|
  {
    if s != [] {
      var n := MatchLength(p, s);
      if n > 0 {
        var t := Substitute(p, s[n..]);
        SubstituteIsSubsequence(p, s[n..]);
        assert s[1..][n - 1..] == s[n..];
        SubsequenceOfSuffix(t, s[1..], n - 1);
        assert (Replacement + t)[1..] == t;
      } else {
        var t := Substitute(p, s[1..]);
        SubstituteIsSubsequence(p, s[1..]);
        assert ([s[0]] + t)[1..] == t;
      }
    }
  }

  /** Every match is at least five characters long and is replaced by one, so a string with a match shrinks by at least four. */
  lemma {:induction false} SubstituteShrinks(p: Pattern, s: string)
    requires Occurs(p, s)
    ensures |Substitute(p, s)| + 4 <= |s|
    decreases |s|
  {
    var n := MatchLength(p, s);
    if n == 0 {
      var i :| 0 <= i < |s| && MatchLength(p, s[i..]) > 0;
      assert s[0..] == s;
      assert s[1..][i - 1..] == s[i..];
      SubstituteShrinks(p, s[1..]);
    } else {
      assert |s[..n]| >= 5;
    }
  }

  /** A prefix of s without "/" survives re.sub: no match can start inside it. */
  lemma {:induction false} SubstituteKeepsSlashFreePrefix(p: Pattern, w: string, s: string)
    requires w <= s
    requires forall k :: 0 <= k < |w| ==> w[k] != '/'
    ensures w <= Substitute(p, s)
    decreases |s|
  {
    if w != [] {
      assert MatchLength(p, s) == 0;
      SubstituteKeepsSlashFreePrefix(p, w[1..], s[1..]);
    }
  }

  /** Conversely, a prefix of the output whose only "/" is its last character was already a prefix of the input. */
  lemma {:induction false} PrefixOfSubstitute(p: Pattern, w: string, s: string)
    requires SlashOnlyAtEnd(w)
    requires w <= Substitute(p, s)
    ensures w <= s
    decreases |s|
  {
    if w != [] {
      var n := MatchLength(p, s);
      if n == 0 {
        var t := Substitute(p, s[1..]);
        assert Substitute(p, s) == [s[0]] + t;
        assert w[1..] <= t;
        PrefixOfSubstitute(p, w[1..], s[1..]);
      } else {
        assert w[0] == Substitute(p, s)[0] == '/';
        assert |w| == 1;
      }
    }
  }

  /** A match at the start of c followed by a rewritten rest is a match at the start of c followed by the original rest, of the same length. */
  lemma MatchLifts(p: Pattern, c: char, u: string)
    requires MatchLength(p, [c] + Substitute(p, u)) > 0
    ensures MatchLength(p, [c] + u) == MatchLength(p, [c] + Substitute(p, u))
  {
    var x := Substitute(p, u);
    var v := [c] + x;
    var m := MatchLength(p, v);
    ConsSliceIsPrefix(c, x, m);
    PrefixOfSubstitute(p, v[1..m], u);
    ConsPrefixTransfer(c, x, u, m);
    MatchLengthComplete(p, [c] + u, m);
  }

  /** Past its first character, a prefix of [c] + x is a prefix of x. */
  lemma ConsSliceIsPrefix(c: char, x: string, m: nat)
    requires 0 < m <= 1 + |x|
    ensures ([c] + x)[1..m] <= x
  {
    assert ([c] + x)[1..m] == x[..m - 1];
  }

  /** When that part is also a prefix of u, [c] + u starts the same way. */
  lemma ConsPrefixTransfer(c: char, x: string, u: string, m: nat)
    requires 0 < m <= 1 + |x| && ([c] + x)[1..m] <= u
    ensures m <= 1 + |u| && ([c] + u)[..m] == ([c] + x)[..m]
  {
    assert ([c] + x)[..m] == [c] + ([c] + x)[1..m];
    assert ([c] + u)[..m] == [c] + u[..m - 1];
  }

  /** A match at the start of u ends where the tail of another match begins: with its first "/" the replacement would supply, that tail matches. */
  predicate ChainedStart(p: Pattern, u: string) {
    var n := MatchLength(p, u);
    n > 0 && MatchLength(p, Replacement + u[n..]) > 0
  }

  ghost predicate Chained(p: Pattern, s: string) {
    exists i :: 0 <= i < |s| && ChainedStart(p, s[i..])
  }

  lemma ChainedShift(p: Pattern, s: string, k: nat)
    requires k <= |s| && Chained(p, s[k..])
    ensures Chained(p, s)
  {
  }

  /**
   * One re.sub pass can leave a match behind only where a match in the input is
   * directly followed by the tail of another one ("/thumb/thumb/", "/1px-2px-"):
   * the "/" put in place of the first then starts a new match.
   */
  lemma {:induction false} LeftoverMatchIsChained(p: Pattern, s: string)
    requires Occurs(p, Substitute(p, s))
    ensures Chained(p, s)
    decreases |s|
  {
    var r := Substitute(p, s);
    var j :| 0 <= j < |r| && MatchLength(p, r[j..]) > 0;
    var n := MatchLength(p, s);
    if j == 0 {
      assert r[0..] == r;
      if n > 0 {
        LeftoverAtReplacement(p, s);
        assert s[0..] == s;
      } else {
        NoLeftoverAtKeptCharacter(p, s);
        assert false;
      }
    } else {
      var k := if n > 0 then n else 1;
      var t := Substitute(p, s[k..]);
      if n > 0 {
        SubstituteReplaceStep(p, s);
      } else {
        SubstituteStep(p, s);
      }
      SingleThenDrop(r, t, j);
      LeftoverMatchIsChained(p, s[k..]);
      ChainedShift(p, s, k);
    }
  }

  /** A match at the replacement "/" put for a match at the start of s is a chained match there. */
  lemma LeftoverAtReplacement(p: Pattern, s: string)
    requires MatchLength(p, s) > 0
    requires MatchLength(p, Substitute(p, s)) > 0
    ensures ChainedStart(p, s)
  {
    var n := MatchLength(p, s);
    var t := Substitute(p, s[n..]);
    assert Substitute(p, s) == [Replacement[0]] + t;
    MatchLifts(p, '/', s[n..]);
    assert [Replacement[0]] + s[n..] == Replacement + s[n..];
  }

  /** When s does not start with a match, neither does its rewrite. */
  lemma NoLeftoverAtKeptCharacter(p: Pattern, s: string)
    requires s != [] && MatchLength(p, Substitute(p, s)) > 0
    ensures MatchLength(p, s) > 0
  {
    assert [s[0]] + s[1..] == s;
    if MatchLength(p, s) == 0 {
      assert Substitute(p, s) == [s[0]] + Substitute(p, s[1..]);
      MatchLifts(p, s[0], s[1..]);
    }
  }

  /** A prefix whose only "/" is its last character survives re.sub: no match can start before that "/". */
  lemma {:induction false} SlashEndedPrefixSurvives(p: Pattern, w: string, s: string)
    requires SlashOnlyAtEnd(w) && w <= s
    ensures w <= Substitute(p, s)
    decreases |s|
  {
    if w != [] {
      var n := MatchLength(p, s);
      if |w| == 1 {
        if n > 0 {
          assert Substitute(p, s)[0] == '/' == s[0];
        } else {
          assert Substitute(p, s)[0] == s[0];
        }
      } else {
        assert w[0] != '/';
        assert n == 0;
        assert SlashOnlyAtEnd(w[1..]) by {
          forall k | 0 <= k < |w[1..]| - 1 ensures w[1..][k] != '/' {
            assert w[1..][k] == w[k + 1];
          }
        }
        SlashEndedPrefixSurvives(p, w[1..], s[1..]);
      }
    }
  }

  /** A match right after a replacement "/" is still there once the rest has been rewritten. */
  lemma MatchAfterReplacement(p: Pattern, x: string)
    requires MatchLength(p, Replacement + x) > 0
    ensures MatchLength(p, Replacement + Substitute(p, x)) > 0
  {
    var y := Replacement + x;
    var m := MatchLength(p, y);
    assert y[1..] == x;
    SlashEndedPrefixSurvives(p, y[1..m], x);
    var z := Replacement + Substitute(p, x);
    assert z[..m] == y[..m];
    MatchLengthComplete(p, z, m);
  }

  /** A match in t is a match in x + t. */
  lemma OccursAfter(p: Pattern, x: string, t: string)
    requires Occurs(p, t)
    ensures Occurs(p, x + t)
  {
    var j :| 0 <= j < |t| && MatchLength(p, t[j..]) > 0;
    assert (x + t)[|x| + j..] == t[j..];
  }

  /** A chained match inside the first match of s can only start at its closing "/", where the next one begins. */
  lemma ChainedInsideFirstMatch(p: Pattern, s: string, i: nat)
    requires 0 < MatchLength(p, s) && i < MatchLength(p, s) && ChainedStart(p, s[i..])
    ensures MatchLength(p, Replacement + s[MatchLength(p, s)..]) > 0
  {
    var n := MatchLength(p, s);
    if i > 0 {
      assert s[1..n][i - 1] == s[i] == '/';
      assert i == n - 1;
      assert s[i..] == Replacement + s[n..];
    } else {
      assert s[0..] == s;
    }
  }

  /** A match left in the rewrite of s[1..] is left in the rewrite of s when s does not start with a match. */
  lemma LeftoverAfterKeptCharacter(p: Pattern, s: string)
    requires s != [] && MatchLength(p, s) == 0 && Occurs(p, Substitute(p, s[1..]))
    ensures Occurs(p, Substitute(p, s))
  {
    OccursAfter(p, [s[0]], Substitute(p, s[1..]));
  }

  /** A match left in the rewrite of what follows the first match of s is left in the rewrite of s. */
  lemma LeftoverAfterReplacement(p: Pattern, s: string)
    requires MatchLength(p, s) > 0 && Occurs(p, Substitute(p, s[MatchLength(p, s)..]))
    ensures Occurs(p, Substitute(p, s))
  {
    OccursAfter(p, Replacement, Substitute(p, s[MatchLength(p, s)..]));
  }

  /** A match at the "/" put for the first match of s. */
  lemma LeftoverAtFirstReplacement(p: Pattern, s: string)
    requires MatchLength(p, s) > 0 && MatchLength(p, Replacement + s[MatchLength(p, s)..]) > 0
    ensures Occurs(p, Substitute(p, s))
  {
    var n := MatchLength(p, s);
    MatchAfterReplacement(p, s[n..]);
    var r := Substitute(p, s);
    assert r == Replacement + Substitute(p, s[n..]);
    assert r[0..] == r;
  }

  /** A chained match cannot start at a character where no match starts. */
  lemma ChainedStartAfterFirst(p: Pattern, s: string, i: nat)
    requires MatchLength(p, s) == 0 && i < |s| && ChainedStart(p, s[i..])
    ensures i > 0
  {
    assert s[0..] == s;
  }

  /** Conversely, a chained match anywhere in s leaves a match in the output of the pass. */
  lemma {:induction false} ChainedStartLeavesMatch(p: Pattern, s: string, i: nat)
    requires i < |s| && ChainedStart(p, s[i..])
    ensures Occurs(p, Substitute(p, s))
    decreases |s|
  {
    var n := MatchLength(p, s);
    if n == 0 {
      ChainedStartAfterFirst(p, s, i);
      DropDrop(s, 1, i - 1);
      ChainedStartLeavesMatch(p, s[1..], i - 1);
      LeftoverAfterKeptCharacter(p, s);
    } else if i < n {
      ChainedInsideFirstMatch(p, s, i);
      LeftoverAtFirstReplacement(p, s);
    } else {
      DropDrop(s, n, i - n);
      ChainedStartLeavesMatch(p, s[n..], i - n);
      LeftoverAfterReplacement(p, s);
    }
  }

  /** One pass leaves a match behind exactly when the input holds a chained match. */
  lemma LeftoverIffChained(p: Pattern, s: string)
    ensures Occurs(p, Substitute(p, s)) <==> Chained(p, s)
  {
    if Occurs(p, Substitute(p, s)) {
      LeftoverMatchIsChained(p, s);
    }
    if Chained(p, s) {
      var i :| 0 <= i < |s| && ChainedStart(p, s[i..]);
      ChainedStartLeavesMatch(p, s, i);
    }
  }

  /** "/thumb/thumb/" is "/thumb/" followed by "thumb/", and "/" + "thumb/" is "/thumb/" again. */
  lemma DoubledThumbShape()
    ensures var w := ThumbText[1..6];
            "/thumb/thumb/" == ThumbText + (w + "/") && Replacement + (w + "/") == ThumbText
  {
  }

  /** The doubled segment is a real case: one pass over "/thumb/thumb/" leaves "/thumb/". */
  lemma ThumbPassIsSinglePass()
    ensures Substitute(ThumbSegment, "/thumb/thumb/") == "/thumb/"
    ensures Occurs(ThumbSegment, Substitute(ThumbSegment, "/thumb/thumb/"))
  {
    var w := ThumbText[1..6];
    DoubledThumbShape();
    ThumbWordSlashFree();
    SubstituteReplacesMatch(ThumbSegment, ThumbText, w + "/");
    SlashFreeThenSlash(ThumbSegment, w);
    ThumbAt(ThumbText, 0);
  }

  /** `if not img_src.startswith('http'): img_src = "https:" + img_src`. */
  function AddScheme(src: string): (url: string)
    ensures "http" <= url
    ensures "http" <= src ==> url == src
    ensures !("http" <= src) ==> url == Scheme + src
  {
    if "http" <= src then src else Scheme + src
  }

  /** A pass keeps a leading "http": there is no "/" in it for a match to start at. */
  lemma SubstituteKeepsHttp(p: Pattern, s: string)
    ensures "http" <= s ==> "http" <= Substitute(p, s)
  {
    if "http" <= s {
      SubstituteKeepsSlashFreePrefix(p, "http", s);
    }
  }

  /** The thumbnail rewrite, guarded by `'/thumb/' in img_src`. */
  function FullResolution(url: string): (r: string)
    ensures |r| <= |url|
    ensures "http" <= url ==> "http" <= r
  {
    if Occurs(ThumbSegment, url) then
      var mid := Substitute(ThumbSegment, url);
      SubstituteKeepsHttp(ThumbSegment, url);
      SubstituteKeepsHttp(ResolutionPrefix, mid);
      Substitute(ResolutionPrefix, mid)
    else
      url
  }

  /** The URL get_wikipedia_potd returns for an image tag's `src`: whatever the `src`, it starts with "http". */
  function NormaliseImageSource(src: string): (url: string)
    ensures "http" <= url
    ensures |url| <= |Scheme| + |src|
  {
    FullResolution(AddScheme(src))
  }

  /** A URL without "/thumb/" is not rewritten, even when it holds a `/<digits>px-`. */
  lemma FullResolutionWithoutThumb(url: string)
    requires !Occurs(ThumbSegment, url)
    ensures FullResolution(url) == url
  {
  }

  /** Each "/thumb/" replaced is seven characters turned into one: the pass shortens the URL by six per replacement. */
  lemma {:induction false} ThumbPassShrinks(s: string)
    ensures |Substitute(ThumbSegment, s)| + 6 * ReplacementCount(ThumbSegment, s) == |s|
    decreases |s|
  {
    if s != [] {
      var n := MatchLength(ThumbSegment, s);
      if n > 0 {
        ThumbPassShrinks(s[n..]);
      } else {
        ThumbPassShrinks(s[1..]);
      }
    }
  }

  /**
   * A thumbnail URL only loses characters, the ones it keeps stay in order,
   * and it is at least six characters shorter for every "/thumb/" replaced.
   */
  lemma FullResolutionOfThumbnail(url: string)
    requires Occurs(ThumbSegment, url)
    ensures IsSubsequence(FullResolution(url), url)
    ensures ReplacementCount(ThumbSegment, url) >= 1
    ensures |FullResolution(url)| + 6 * ReplacementCount(ThumbSegment, url) <= |url|
  {
    var mid := Substitute(ThumbSegment, url);
    SubstituteIsSubsequence(ThumbSegment, url);
    SubstituteIsSubsequence(ResolutionPrefix, mid);
    SubsequenceTransitive(Substitute(ResolutionPrefix, mid), mid, url);
    ThumbPassShrinks(url);
    ReplacementCountPositive(ThumbSegment, url);
  }

  /** A `/<digits>px-` is left after the rewrite exactly when the first pass left a chained one. */
  lemma FullResolutionLeftover(url: string)
    requires Occurs(ThumbSegment, url)
    ensures Occurs(ResolutionPrefix, FullResolution(url)) <==>
            Chained(ResolutionPrefix, Substitute(ThumbSegment, url))
  {
    LeftoverIffChained(ResolutionPrefix, Substitute(ThumbSegment, url));
  }

  /** The part after `/<digits>px-` of the usual thumbnail: "/" then digits then "px-", with no other "/". */
  lemma ResolutionSegmentShape(n: nat)
    ensures var seg := Replacement + Render(n) + "px-";
            Matches(ResolutionPrefix, seg) &&
            seg[0] == '/' && (forall k :: 1 <= k < |seg| ==> seg[k] != '/')
  {
    var seg := Replacement + Render(n) + "px-";
    assert seg[1..|seg| - 3] == Render(n);
    assert seg[|seg| - 3..] == "px-";
    forall k | 1 <= k < |seg| ensures seg[k] != '/' {
      if k <= |Render(n)| {
        assert seg[k] == Render(n)[k - 1];
      }
    }
  }

  /** The first pass leaves `/<n>px-name` alone when "/thumb/" does not occur in name. */
  lemma ThumbPassKeepsResolutionSegment(n: nat, name: string)
    requires !Occurs(ThumbSegment, name)
    ensures Substitute(ThumbSegment, Replacement + Render(n) + "px-" + name) ==
            Replacement + Render(n) + "px-" + name
  {
    var seg := Replacement + Render(n) + "px-";
    ResolutionSegmentShape(n);
    var tail := seg + name;
    assert MatchLength(ThumbSegment, tail) == 0 by {
      assert tail[1] == Render(n)[0];
    }
    assert tail[1..] == seg[1..] + name;
    SubstituteKeepsSlashFree(ThumbSegment, seg[1..], name);
    SubstituteWithoutMatch(ThumbSegment, name);
    assert Substitute(ThumbSegment, tail) == [tail[0]] + Substitute(ThumbSegment, tail[1..]);
    assert tail == [tail[0]] + tail[1..];
  }

  /** The pieces of base/thumb/dir + tail that the first pass acts on. */
  lemma UsualThumbnailShape(base: string, dir: string, tail: string)
    ensures var url := base + (ThumbText + (dir + tail));
            |base| + |ThumbText| <= |url| && url[|base|..][..|ThumbText|] == ThumbText &&
            Replacement + (dir + tail) == ("/" + dir) + tail
  {
    var url := base + (ThumbText + (dir + tail));
    assert url[|base|..] == ThumbText + (dir + tail);
  }

  /** The first pass on base/thumb/dir/<n>px-name turns "/thumb/" into "/" and changes nothing else. */
  lemma UsualThumbnailFirstPass(base: string, dir: string, n: nat, name: string)
    requires !Occurs(ThumbSegment, base + "/") && !Occurs(ThumbSegment, dir + "/") && !Occurs(ThumbSegment, name)
    ensures var tail := Replacement + Render(n) + "px-" + name;
            Occurs(ThumbSegment, base + (ThumbText + (dir + tail))) &&
            Substitute(ThumbSegment, base + (ThumbText + (dir + tail))) == base + (("/" + dir) + tail)
  {
    var tail := Replacement + Render(n) + "px-" + name;
    var url := base + (ThumbText + (dir + tail));
    UsualThumbnailShape(base, dir, tail);
    SubstituteSplitsAtSlash(ThumbSegment, base, ThumbText + (dir + tail));
    SubstituteReplacesMatch(ThumbSegment, ThumbText, dir + tail);
    SubstituteSplitsAtSlash(ThumbSegment, dir, tail);
    ThumbPassKeepsResolutionSegment(n, name);
    MatchLengthComplete(ThumbSegment, url[|base|..], |ThumbText|);
  }

  /** The pieces of base/dir + tail that the second pass acts on. */
  lemma UsualSecondPassShape(base: string, dir: string, tail: string, name: string)
    requires tail != [] && tail[0] == '/'
    ensures ("/" + dir) + Replacement == "/" + dir + "/"
    ensures base + Replacement == base + "/"
    ensures (("/" + dir) + tail)[0] == '/'
    ensures base + (("/" + dir) + (Replacement + name)) == base + "/" + dir + "/" + name
  {
  }

  /** The second pass on base/dir/<n>px-name turns `/<n>px-` into "/" and changes nothing else. */
  lemma UsualThumbnailSecondPass(base: string, dir: string, n: nat, name: string)
    requires !Occurs(ResolutionPrefix, base + "/") && !Occurs(ResolutionPrefix, "/" + dir + "/")
    requires !Occurs(ResolutionPrefix, name)
    ensures var tail := Replacement + Render(n) + "px-" + name;
            Substitute(ResolutionPrefix, base + (("/" + dir) + tail)) == base + "/" + dir + "/" + name
  {
    var seg := Replacement + Render(n) + "px-";
    ResolutionSegmentShape(n);
    var tail := seg + name;
    UsualSecondPassShape(base, dir, tail, name);
    SubstituteReplacesMatch(ResolutionPrefix, seg, name);
    SubstituteWithoutMatch(ResolutionPrefix, name);
    SubstituteSplitsAtSlash(ResolutionPrefix, "/" + dir, tail);
    SubstituteSplitsAtSlash(ResolutionPrefix, base, ("/" + dir) + tail);
  }

  /** The usual thumbnail URL regrouped into the pieces the two passes act on. */
  lemma UsualThumbnailRegrouped(base: string, dir: string, digits: string, name: string)
    ensures base + ThumbText + dir + "/" + digits + "px-" + name ==
            base + (ThumbText + (dir + (Replacement + digits + "px-" + name)))
  {
  }

  /**
   * The usual thumbnail URL, base/thumb/dir/<n>px-name, becomes base/dir/name
   * when neither pattern occurs in base, dir or name on its own (with the "/"
   * that follows base and dir).
   */
  lemma FullResolutionOfUsualThumbnail(base: string, dir: string, n: nat, name: string)
    requires !Occurs(ThumbSegment, base + "/") && !Occurs(ResolutionPrefix, base + "/")
    requires !Occurs(ThumbSegment, dir + "/") && !Occurs(ResolutionPrefix, "/" + dir + "/")
    requires !Occurs(ThumbSegment, name) && !Occurs(ResolutionPrefix, name)
    ensures FullResolution(base + ThumbText + dir + "/" + Render(n) + "px-" + name) == base + "/" + dir + "/" + name
  {
    UsualThumbnailRegrouped(base, dir, Render(n), name);
    UsualThumbnailFirstPass(base, dir, n, name);
    UsualThumbnailSecondPass(base, dir, n, name);
  }

  /** A slash-free text followed by one "/" passes through unchanged: a lone "/" is no match. */
  lemma SlashFreeThenSlash(p: Pattern, u: string)
    requires forall k :: 0 <= k < |u| ==> u[k] != '/'
    ensures Substitute(p, u + "/") == u + "/"
  {
    SubstituteKeepsSlashFree(p, u, "/");
    assert MatchLength(p, "/") == 0;
    assert Substitute(p, "/") == "/";
  }

  /** A text whose only "/" after its first character is its last one: the slash-free middle and its slices. */
  lemma SlashFreeMiddle(x: string, body: string)
    requires |x| >= 2 && x[|x| - 1] == '/' && body == x[1..|x| - 1]
    requires forall k :: 1 <= k < |x| - 1 ==> x[k] != '/'
    ensures forall k :: 0 <= k < |body| ==> body[k] != '/'
    ensures x[1..] == body + "/"
  {
    forall k | 0 <= k < |body| ensures body[k] != '/' {
      assert body[k] == x[k + 1];
    }
  }

  /** A text that starts with a character where no match starts, then has no "/" up to its final "/", passes through unchanged. */
  lemma KeptCharThenSlashFree(p: Pattern, x: string)
    requires |x| >= 2 && x[|x| - 1] == '/' && MatchLength(p, x) == 0
    requires forall k :: 1 <= k < |x| - 1 ==> x[k] != '/'
    ensures Substitute(p, x) == x
  {
    SlashFreeMiddle(x, x[1..|x| - 1]);
    SubstituteStep(p, x);
    SlashFreeThenSlash(p, x[1..|x| - 1]);
  }

  /** `/<n>px-w/`, w without "/": a "/", a digit, and no other "/" before the final one. */
  lemma ResolutionTailSlashes(n: nat, w: string)
    requires forall k :: 0 <= k < |w| ==> w[k] != '/'
    ensures var x := Replacement + Render(n) + "px-" + w + "/";
            |x| >= 2 && x[|x| - 1] == '/' && IsDigit(x[1]) &&
            forall k :: 1 <= k < |x| - 1 ==> x[k] != '/'
  {
    var seg := Replacement + Render(n) + "px-";
    ResolutionSegmentShape(n);
    var x := seg + w + "/";
    assert x[1] == Render(n)[0];
    forall k | 1 <= k < |x| - 1 ensures x[k] != '/' {
      if k >= |seg| {
        assert x[k] == w[k - |seg|];
      } else {
        assert x[k] == seg[k];
      }
    }
  }

  /** A "/" followed by a digit starts no "/thumb/". */
  lemma DigitAfterSlashStartsNoThumb(x: string)
    requires |x| >= 2 && IsDigit(x[1])
    ensures MatchLength(ThumbSegment, x) == 0
  {
    assert x[1] != ThumbText[1];
  }

  /** The first pass leaves `/<n>px-w/` alone when w has no "/": the "/" before the digits starts no "/thumb/". */
  lemma ThumbPassKeepsResolutionTail(n: nat, w: string)
    requires forall k :: 0 <= k < |w| ==> w[k] != '/'
    ensures Substitute(ThumbSegment, Replacement + Render(n) + "px-" + w + "/") ==
            Replacement + Render(n) + "px-" + w + "/"
  {
    var x := Replacement + Render(n) + "px-" + w + "/";
    ResolutionTailSlashes(n, w);
    DigitAfterSlashStartsNoThumb(x);
    KeptCharThenSlashFree(ThumbSegment, x);
  }

  /** The second pass turns `/<n>px-w/` into "/w/" when w has no "/". */
  lemma ResolutionPassOnTail(n: nat, w: string)
    requires forall k :: 0 <= k < |w| ==> w[k] != '/'
    ensures Substitute(ResolutionPrefix, Replacement + Render(n) + "px-" + w + "/") == Replacement + w + "/"
  {
    var seg := Replacement + Render(n) + "px-";
    ResolutionSegmentShape(n);
    SlashFreeThenSlash(ResolutionPrefix, w);
    SubstituteReplacesMatch(ResolutionPrefix, seg, w + "/");
    assert seg + w + "/" == seg + (w + "/");
  }

  /** The first pass on /thumb/dir/<n>px-w/ only replaces the leading "/thumb/". */
  lemma ThumbReappearsFirstPass(dir: string, n: nat, w: string)
    requires forall k :: 0 <= k < |dir| ==> dir[k] != '/'
    requires forall k :: 0 <= k < |w| ==> w[k] != '/'
    ensures var tail := Replacement + Render(n) + "px-" + w + "/";
            Substitute(ThumbSegment, ThumbText + (dir + tail)) == Replacement + (dir + tail)
  {
    var tail := Replacement + Render(n) + "px-" + w + "/";
    ThumbPassKeepsResolutionTail(n, w);
    SubstituteKeepsSlashFree(ThumbSegment, dir, tail);
    SubstituteReplacesMatch(ThumbSegment, ThumbText, dir + tail);
  }

  /** The second pass on /dir/<n>px-w/ replaces `/<n>px-` only. */
  lemma ThumbReappearsSecondPass(dir: string, n: nat, w: string)
    requires dir != [] && !IsDigit(dir[0])
    requires forall k :: 0 <= k < |dir| ==> dir[k] != '/'
    requires forall k :: 0 <= k < |w| ==> w[k] != '/'
    ensures var tail := Replacement + Render(n) + "px-" + w + "/";
            Substitute(ResolutionPrefix, Replacement + (dir + tail)) == Replacement + dir + Replacement + w + "/"
  {
    var tail := Replacement + Render(n) + "px-" + w + "/";
    ResolutionPassOnTail(n, w);
    SubstituteKeepsSlashFree(ResolutionPrefix, dir, tail);
    var v := dir + tail;
    assert MatchLength(ResolutionPrefix, ['/'] + v) == 0 by {
      assert (['/'] + v)[1..] == v;
      assert DigitRun(v) == 0;
    }
    SubstituteKeepsFirst(ResolutionPrefix, '/', v);
    assert Replacement + v == ['/'] + v;
  }

  /** "/thumb/" at position k of u is an occurrence. */
  lemma ThumbAt(u: string, k: nat)
    requires k + |ThumbText| <= |u| && u[k..k + |ThumbText|] == ThumbText
    ensures Occurs(ThumbSegment, u)
  {
    assert u[k..][..|ThumbText|] == ThumbText;
    MatchLengthComplete(ThumbSegment, u[k..], |ThumbText|);
  }

  /** "thumb", the text between the slashes of "/thumb/", has no "/". */
  lemma ThumbWordSlashFree()
    ensures var w := ThumbText[1..6]; forall k :: 0 <= k < |w| ==> w[k] != '/'
  {
  }

  /** The witness URL splits into the pieces the two passes act on. */
  lemma ThumbReappearsUrlShape(dir: string, n: nat)
    ensures var w := ThumbText[1..6];
            var url := ThumbText + dir + "/" + Render(n) + "px-thumb/";
            url == ThumbText + (dir + (Replacement + Render(n) + "px-" + w + "/")) &&
            url[0..|ThumbText|] == ThumbText
  {
    var w := ThumbText[1..6];
    assert w == "thumb";
    var tail := Replacement + Render(n) + "px-" + w + "/";
    var url := ThumbText + dir + "/" + Render(n) + "px-thumb/";
    assert tail == "/" + Render(n) + "px-thumb/";
    assert url == ThumbText + (dir + tail);
  }

  /** What the two passes leave of the witness URL ends in "/thumb/". */
  lemma ThumbReappearsResultShape(dir: string)
    ensures var r := Replacement + dir + Replacement + ThumbText[1..6] + "/";
            r == "/" + dir + ThumbText &&
            r[|dir| + 1..|dir| + 1 + |ThumbText|] == ThumbText
  {
    var w := ThumbText[1..6];
    assert Replacement + w + "/" == ThumbText;
    var r := "/" + dir + ThumbText;
    assert r[|dir| + 1..] == ThumbText;
  }

  /**
   * The rewrite does not always remove "/thumb/": in /thumb/dir/<n>px-thumb/
   * (for instance "/thumb/a/1px-thumb/") the second pass puts it back.
   */
  lemma ThumbReappears(dir: string, n: nat)
    requires dir != [] && !IsDigit(dir[0])
    requires forall k :: 0 <= k < |dir| ==> dir[k] != '/'
    ensures FullResolution(ThumbText + dir + "/" + Render(n) + "px-thumb/") == "/" + dir + ThumbText
    ensures Occurs(ThumbSegment, FullResolution(ThumbText + dir + "/" + Render(n) + "px-thumb/"))
  {
    var w := ThumbText[1..6];
    ThumbWordSlashFree();
    ThumbReappearsUrlShape(dir, n);
    ThumbReappearsResultShape(dir);
    ThumbAt(ThumbText + dir + "/" + Render(n) + "px-thumb/", 0);
    ThumbReappearsFirstPass(dir, n, w);
    ThumbReappearsSecondPass(dir, n, w);
    ThumbAt("/" + dir + ThumbText, |dir| + 1);
  }
}
