/**
 This module models `isMajorUpdate(previousVersion, currentVersion)`, the rule
 that decides whether a version change deserves a "what's new" notice. A
 previous version without any `.` is taken as malformed and always answers
 yes. Otherwise both strings are split on `.`, each piece goes through
 `Number`, and the answer is whether the current version's piece at index 1
 (the minor number) is strictly greater than the previous one's. The major
 and patch numbers play no part, so this is not Semantic Versioning
 precedence (section 11 of Semantic Versioning 2.0.0).
 */
module VersionGate {
  import opened Wrappers
  import opened StringSplit
  import opened JsNumber

  /**
   JavaScript's `a > b` on two values that are numbers, `NaN` or `undefined`
   (`None` for the last two): any comparison involving `NaN` or `undefined`
   is false.
   */
  function Greater(a: Option<int>, b: Option<int>): (r: bool)
    ensures a.None? || b.None? ==> !r
    ensures a.Some? && b.Some? ==> (r <==> a.value > b.value)
    ensures r ==> a != b
  {
    a.Some? && b.Some? && a.value > b.value
  }

  /**
   Element 1 of `version.split(".").map(Number)`: `None` when the array has
   no element 1 (it reads as `undefined`) or when that piece converts to `NaN`.
   */
  function Minor(version: string): (r: Option<int>)
    ensures '.' !in version ==> r == None
    ensures r.Some? ==> '.' in version
  {
    var pieces := Split(version, '.');
    if |pieces| < 2 then None else ToNumber(pieces[1])
  }

  /** Whether moving from `previous` to `current` should show the notice. */
  function IsMajorUpdate(previous: string, current: string): (notify: bool)
    ensures '.' !in previous ==> notify
    ensures notify && '.' in previous ==> '.' in current
  {
    if '.' !in previous then true
    else Greater(Minor(current), Minor(previous))
  }

  /** `major.minor` followed by `rest`, where `rest` is empty or starts with `.` (the patch and anything after). */
  function Version(major: string, minor: string, rest: string): string {
    major + "." + minor + rest
  }

  /** The three parts really are the first two pieces and the remainder of `Version(major, minor, rest)`. */
  predicate WellCut(major: string, minor: string, rest: string) {
    '.' !in major && '.' !in minor && (rest == [] || rest[0] == '.')
  }

  /** The minor number of a dotted version is the conversion of the text between its first and second dot. */
  lemma MinorOfVersion(major: string, minor: string, rest: string)
    requires WellCut(major, minor, rest)
    ensures Minor(Version(major, minor, rest)) == ToNumber(minor)
  {
    var v := Version(major, minor, rest);
    assert v == major + ['.'] + (minor + rest);
    SplitAfterHead(major, '.', minor + rest);
    var tail := Split(minor + rest, '.');
    FirstPiece(minor, '.', rest);
    var pieces := Split(v, '.');
    assert pieces == [major] + tail;
    assert |pieces| >= 2 && pieces[1] == minor;
  }

  /** Every dotted version can be cut into major, minor and rest. */
  lemma CutVersion(v: string) returns (major: string, minor: string, rest: string)
    requires '.' in v
    ensures WellCut(major, minor, rest) && v == Version(major, minor, rest)
  {
    var pieces := Split(v, '.');
    SplitWithSeparator(v, '.');
    JoinSplit(v, '.');
    major := pieces[0];
    minor := pieces[1];
    var tail := Join(pieces[1..], '.');
    JoinHead(pieces[1..], '.');
    rest := tail[|minor|..];
    assert tail == minor + rest;
    assert v == major + "." + tail;
  }

  /** A previous version without a dot always triggers the notice, whatever the current version. */
  lemma UndottedPreviousNotifies(previous: string, current: string)
    requires '.' !in previous
    ensures IsMajorUpdate(previous, current)
  {
  }

  /** A dotted previous version always has a piece at index 1 to compare against. */
  lemma DottedPreviousHasMinor(previous: string)
    requires '.' in previous
    ensures |Split(previous, '.')| >= 2
  {
    SplitWithSeparator(previous, '.');
  }

  /**
   For a dotted previous version the notice shows exactly when both minor
   pieces are numbers and the current one is strictly larger.
   */
  lemma IsMajorUpdateByMinor(pMajor: string, pMinor: string, pRest: string,
                             cMajor: string, cMinor: string, cRest: string)
    requires WellCut(pMajor, pMinor, pRest) && WellCut(cMajor, cMinor, cRest)
    ensures IsMajorUpdate(Version(pMajor, pMinor, pRest), Version(cMajor, cMinor, cRest))
        <==> (ToNumber(pMinor).Some? && ToNumber(cMinor).Some? && ToNumber(cMinor).value > ToNumber(pMinor).value)
  {
    MinorOfVersion(pMajor, pMinor, pRest);
    MinorOfVersion(cMajor, cMinor, cRest);
  }

  /** Changing the major or patch parts of either version, keeping the previous one dotted, never changes the answer. */
  lemma MajorAndPatchIgnored(pMajor: string, pMinor: string, pRest: string, pMajor': string, pRest': string,
                             cMajor: string, cMinor: string, cRest: string, cMajor': string, cRest': string)
    requires WellCut(pMajor, pMinor, pRest) && WellCut(pMajor', pMinor, pRest')
    requires WellCut(cMajor, cMinor, cRest) && WellCut(cMajor', cMinor, cRest')
    ensures IsMajorUpdate(Version(pMajor, pMinor, pRest), Version(cMajor, cMinor, cRest))
         == IsMajorUpdate(Version(pMajor', pMinor, pRest'), Version(cMajor', cMinor, cRest'))
  {
    IsMajorUpdateByMinor(pMajor, pMinor, pRest, cMajor, cMinor, cRest);
    IsMajorUpdateByMinor(pMajor', pMinor, pRest', cMajor', cMinor, cRest');
  }

  /** A previous minor piece that is not a number silences the notice instead of failing. */
  lemma NonNumericPreviousMinorIsSilent(pMajor: string, pMinor: string, pRest: string, current: string)
    requires WellCut(pMajor, pMinor, pRest) && ToNumber(pMinor) == None
    ensures !IsMajorUpdate(Version(pMajor, pMinor, pRest), current)
  {
    MinorOfVersion(pMajor, pMinor, pRest);
  }

  /** A current version with no piece at index 1 silences the notice for a dotted previous version. */
  lemma CurrentWithoutMinorIsSilent(previous: string, current: string)
    requires '.' in previous && '.' !in current
    ensures !IsMajorUpdate(previous, current)
  {
    SplitWithoutSeparator(current, '.');
  }

  /** A dotted version is never an update over itself. */
  lemma Irreflexive(v: string)
    requires '.' in v
    ensures !IsMajorUpdate(v, v)
  {
  }

  /** Between dotted versions, an update one way rules out an update the other way. */
  lemma Asymmetric(a: string, b: string)
    requires '.' in a && '.' in b
    requires IsMajorUpdate(a, b)
    ensures !IsMajorUpdate(b, a)
  {
  }

  /**
   A release that resets the minor number to 0, such as 1.9.0 to 2.0.0, is
   silent whatever the majors and patches are: the major number is not
   looked at.
   */
  lemma MinorResetIsSilent(pMajor: string, pMinor: string, pRest: string,
                           cMajor: string, cMinor: string, cRest: string)
    requires WellCut(pMajor, pMinor, pRest) && WellCut(cMajor, cMinor, cRest)
    requires ToNumber(pMinor).Some? && ToNumber(pMinor).value >= 0
    requires ToNumber(cMinor) == Some(0)
    ensures !IsMajorUpdate(Version(pMajor, pMinor, pRest), Version(cMajor, cMinor, cRest))
  {
    IsMajorUpdateByMinor(pMajor, pMinor, pRest, cMajor, cMinor, cRest);
  }

  /** A version whose minor piece is empty, such as "1..0", has minor 0, not NaN. */
  lemma EmptyMinorIsZero(major: string, rest: string)
    requires WellCut(major, "", rest)
    ensures Minor(Version(major, "", rest)) == Some(0)
  {
    MinorOfVersion(major, "", rest);
  }

  /** "x.2.5" to "y.2.9" is silent, as 1.2.5 to 1.2.9 is: only the patch number grew. */
  lemma ExamplePatchRaised(pMajor: string, cMajor: string)
    requires '.' !in pMajor && '.' !in cMajor
    ensures !IsMajorUpdate(Version(pMajor, "2", ".5"), Version(cMajor, "2", ".9"))
  {
    IsMajorUpdateByMinor(pMajor, "2", ".5", cMajor, "2", ".9");
  }

  /** "x.x.0" to anything is silent, as 1.x.0 to 1.2.0 is: the previous minor is NaN. */
  lemma ExampleMinorNotANumber(pMajor: string, current: string)
    requires '.' !in pMajor
    ensures !IsMajorUpdate(Version(pMajor, "x", ".0"), current)
  {
    ToNumberNotNumeric([], "x");
    assert [] + "x" == "x";
    NonNumericPreviousMinorIsSilent(pMajor, "x", ".0", current);
  }

  /** Raising a numeric minor notifies, whatever the majors and the patch parts are. */
  lemma MinorRaiseNotifies(pMajor: string, pRest: string, cMajor: string, cRest: string, a: int, b: int)
    requires WellCut(pMajor, [], pRest) && WellCut(cMajor, [], cRest) && a < b
    ensures IsMajorUpdate(Version(pMajor, RenderInt(a), pRest), Version(cMajor, RenderInt(b), cRest))
  {
    ToNumberRenderInt(a);
    ToNumberRenderInt(b);
    IsMajorUpdateByMinor(pMajor, RenderInt(a), pRest, cMajor, RenderInt(b), cRest);
  }

  /** "x.1.0" to "y.2.0" notifies for any dot-free majors, as 1.1.0 to 1.2.0 and 1.1.0 to 2.2.0 do. */
  lemma ExampleMinorRaised(pMajor: string, cMajor: string)
    requires '.' !in pMajor && '.' !in cMajor
    ensures IsMajorUpdate(Version(pMajor, "1", ".0"), Version(cMajor, "2", ".0"))
  {
    assert RenderInt(1) == "1";
    assert RenderInt(2) == "2";
    MinorRaiseNotifies(pMajor, ".0", cMajor, ".0", 1, 2);
  }

  /** A major downgrade with a larger minor number notifies: 2.1.0 to 1.2.0. */
  lemma ExampleMajorDowngrade()
    ensures IsMajorUpdate("2.1.0", "1.2.0")
  {
    assert Version("2", "1", ".0") == "2.1.0";
    assert Version("1", "2", ".0") == "1.2.0";
    ExampleMinorRaised("2", "1");
  }

  /**
   A previous minor piece made of digits followed by a suffix that starts with
   something other than a digit (and does not form a `0x`-style literal) is
   `NaN`, so the notice never shows after such a version.
   */
  lemma SuffixedMinorIsSilent(pMajor: string, ds: string, suffix: string, pRest: string, current: string)
    requires WellCut(pMajor, ds + suffix, pRest)
    requires IsDecimal(ds) && |suffix| > 0 && DigitValue(suffix[0]) >= 10
    requires !IsWhiteSpace(suffix[|suffix| - 1]) && !IsRadixLiteral(ds + suffix)
    ensures !IsMajorUpdate(Version(pMajor, ds + suffix, pRest), current)
  {
    var m := ds + suffix;
    assert m[|ds|] == suffix[0];
    assert m[|m| - 1] == suffix[|suffix| - 1];
    assert DigitValue(m[0]) < 10;
    ToNumberNaNInside(m, |ds|);
    NonNumericPreviousMinorIsSilent(pMajor, m, pRest, current);
  }

  /** "x.2a.0" to anything is silent. */
  lemma ExampleMinorWithSuffix(pMajor: string, current: string)
    requires '.' !in pMajor
    ensures !IsMajorUpdate(Version(pMajor, "2a", ".0"), current)
  {
    var ds, suffix := "2", "a";
    assert ds + suffix == "2a";
    assert '.' !in ds + suffix;
    assert !IsRadixLiteral(ds + suffix);
    SuffixedMinorIsSilent(pMajor, ds, suffix, ".0", current);
  }

  /** A pre-release "x.2-beta.0" to anything is silent. */
  lemma ExamplePreReleaseMinor(pMajor: string, current: string)
    requires '.' !in pMajor
    ensures !IsMajorUpdate(Version(pMajor, "2-beta", ".0"), current)
  {
    var ds, suffix := "2", "-beta";
    assert ds + suffix == "2-beta";
    assert '.' !in ds + suffix;
    assert !IsRadixLiteral(ds + suffix);
    SuffixedMinorIsSilent(pMajor, ds, suffix, ".0", current);
  }
}
