/**
 The release helper: the next version number from an update type, and the
 empty changelog entry inserted under the changelog's title.
 */
module Release {
  import opened Wrappers
  import opened Strings

  // ---------------------------------------------------------------------------
  // Versions
  // ---------------------------------------------------------------------------

  datatype Version = Version(major: nat, minor: nat, patch: nat)

  /** The three kinds of release the script accepts. */
  datatype UpdateType = Major | Minor | Patch

  const InvalidUpdateType: string := "Invalid update type"
  const NotANumber: string := "NaN"

  /** The `switch` on the update type; any other word throws. */
  function ParseUpdateType(word: string): (r: Result<UpdateType>)
    ensures r.Ok? <==> word in {"major", "minor", "patch"}
    ensures r.Err? ==> r.message == InvalidUpdateType
  {
    if word == "major" then Ok(Major)
    else if word == "minor" then Ok(Minor)
    else if word == "patch" then Ok(Patch)
    else Err(InvalidUpdateType)
  }

  /** Lexicographic order on (major, minor, patch). */
  predicate Less(a: Version, b: Version) {
    a.major < b.major ||
    (a.major == b.major && (a.minor < b.minor || (a.minor == b.minor && a.patch < b.patch)))
  }

  /** One bump: the named component goes up by one and every later one is reset. */
  function Bump(v: Version, kind: UpdateType): (r: Version)
    ensures Less(v, r)
  {
    match kind
    case Major => Version(v.major + 1, 0, 0)
    case Minor => Version(v.major, v.minor + 1, 0)
    case Patch => Version(v.major, v.minor, v.patch + 1)
  }

  /**
   The bumped version is the least version above `v` of its kind: no version
   strictly between them keeps the components the bump leaves alone.
   */
  lemma BumpIsNext(v: Version, kind: UpdateType, w: Version)
    requires Less(v, w)
    requires kind == Major ==> w.minor == 0 && w.patch == 0
    requires kind == Minor ==> w.major == v.major && w.patch == 0
    requires kind == Patch ==> w.major == v.major && w.minor == v.minor
    ensures !Less(w, Bump(v, kind))
  {
  }

  /** Any nonempty run of releases ends at a later version than it started from. */
  lemma {:induction false} BumpsIncrease(v: Version, kinds: seq<UpdateType>)
    ensures kinds != [] ==> Less(v, BumpAll(v, kinds))
    decreases |kinds|
  {
    if |kinds| > 1 {
      BumpsIncrease(v, kinds[..|kinds| - 1]);
    }
  }

  /** Successive bumps, as successive releases apply them. */
  function BumpAll(v: Version, kinds: seq<UpdateType>): Version
    decreases |kinds|
  {
    if |kinds| == 0 then v
    else Bump(BumpAll(v, kinds[..|kinds| - 1]), kinds[|kinds| - 1])
  }

  // ---------------------------------------------------------------------------
  // Decimal text
  // ---------------------------------------------------------------------------

  predicate IsDigit(c: char) {
    '0' <= c <= '9'
  }

  predicate AllDigits(s: string) {
    forall i | 0 <= i < |s| :: IsDigit(s[i])
  }

  function DigitChar(d: nat): char
    requires d < 10
  {
    ('0' as int + d) as char
  }

  function DigitValue(c: char): nat
    requires IsDigit(c)
  {
    c as int - '0' as int
  }

  /** A number in decimal, without leading zeros: what a template literal prints. */
  function NatToDecimal(n: nat): (s: string)
    ensures s != [] && AllDigits(s)
    ensures s[0] == '0' ==> n == 0
    decreases n
  {
    if n < 10 then [DigitChar(n)]
    else NatToDecimal(n / 10) + [DigitChar(n % 10)]
  }

  /** The value of a digit string; the empty string is 0, as `Number("")` gives. */
  function ParseDecimal(s: string): nat
    requires AllDigits(s)
    decreases |s|
  {
    if |s| == 0 then 0
    else ParseDecimal(s[..|s| - 1]) * 10 + DigitValue(s[|s| - 1])
  }

  lemma {:induction false} DecimalRoundTrip(n: nat)
    ensures ParseDecimal(NatToDecimal(n)) == n
    decreases n
  {
    var s := NatToDecimal(n);
    if n >= 10 {
      var p := NatToDecimal(n / 10);
      assert s[..|s| - 1] == p;
      DecimalRoundTrip(n / 10);
    }
  }


  /**
   A component as the script computes with it: a natural, `NaN`, or
   `undefined` when the version has too few components to destructure.
   */
  datatype Num = Int(n: nat) | NaN | Undefined

  const UndefinedText := "undefined"

  /**
   One destructured component. `map(Number)` runs only over the parts that
   exist: a digit string is its value (the empty string is 0) and any other
   text is `NaN`. A part that does not exist stays `undefined`.
   */
  function Component(parts: seq<string>, i: nat): (r: Num)
    ensures r.Int? <==> i < |parts| && AllDigits(parts[i])
    ensures r.Int? ==> r.n == ParseDecimal(parts[i])
    ensures r.Undefined? <==> |parts| <= i
  {
    if |parts| <= i then Undefined
    else if AllDigits(parts[i]) then Int(ParseDecimal(parts[i]))
    else NaN
  }

  /** `x + 1`: `NaN` stays `NaN`, and `undefined + 1` is `NaN`. */
  function Succ(x: Num): Num {
    match x
    case Int(n) => Int(n + 1)
    case _ => NaN
  }

  /** A component in a template literal. */
  function Show(x: Num): string {
    match x
    case Int(n) => NatToDecimal(n)
    case NaN => NotANumber
    case Undefined => UndefinedText
  }

  /** `${major}.${minor}.${patch}`: three numbers as the script prints them. */
  function PrintVersion(major: Num, minor: Num, patch: Num): string {
    Show(major) + ("." + Show(minor) + "." + Show(patch))
  }

  /** A version as the script prints it. */
  function FormatVersion(v: Version): string {
    PrintVersion(Int(v.major), Int(v.minor), Int(v.patch))
  }

  /**
   The version the script reads, when all three components are numbers;
   components after the third are ignored.
   */
  function ParseVersion(s: string): Result<Version> {
    var parts := Split(s, '.');
    match (Component(parts, 0), Component(parts, 1), Component(parts, 2))
    case (Int(major), Int(minor), Int(patch)) => Ok(Version(major, minor, patch))
    case _ => Err(NotANumber)
  }

  lemma DigitsAvoidDot(s: string)
    requires AllDigits(s)
    ensures '.' !in s
  {
  }

  /** A printed version splits back into its three components. */
  lemma SplitVersion(v: Version)
    ensures Split(FormatVersion(v), '.') ==
      [NatToDecimal(v.major), NatToDecimal(v.minor), NatToDecimal(v.patch)]
  {
    var a, b, c := NatToDecimal(v.major), NatToDecimal(v.minor), NatToDecimal(v.patch);
    DigitsAvoidDot(a);
    DigitsAvoidDot(b);
    DigitsAvoidDot(c);
    SplitNoSep(c, '.');
    SplitAtSep(b, c, '.');
    var bc := b + ['.'] + c;
    FormatVersionText(v);
    SplitAtSep(a, bc, '.');
  }

  lemma FormatVersionText(v: Version)
    ensures FormatVersion(v) ==
      NatToDecimal(v.major) + ['.'] + (NatToDecimal(v.minor) + ['.'] + NatToDecimal(v.patch))
  {
    var b, c := NatToDecimal(v.minor), NatToDecimal(v.patch);
    assert Show(Int(v.minor)) == b && Show(Int(v.patch)) == c;
    assert "." + b + "." + c == ['.'] + (b + ['.'] + c);
  }

  /** Reading a printed version gives the version back. */
  lemma VersionRoundTrip(v: Version)
    ensures ParseVersion(FormatVersion(v)) == Ok(v)
  {
    SplitVersion(v);
    DecimalRoundTrip(v.major);
    DecimalRoundTrip(v.minor);
    DecimalRoundTrip(v.patch);
  }

  /**
   `getNextVersion`: an unknown update type throws. Otherwise only the
   components the bump keeps are printed, so a missing or non-numeric one that
   is reset to 0 leaves no trace. A kept non-numeric one prints as `NaN`, a
   kept missing one as `undefined`, and a missing one that is bumped as `NaN`.
   */
  function GetNextVersion(current: string, updateType: string): (r: Result<string>)
    ensures r.Err? <==> !(updateType in {"major", "minor", "patch"})
    ensures r.Err? ==> r == Err(InvalidUpdateType)
  {
    var kind :- ParseUpdateType(updateType);
    Ok(NextFromParts(kind, Split(current, '.')))
  }

  /** The `switch` arms, on the components of the split version. */
  function NextFromParts(kind: UpdateType, parts: seq<string>): string {
    var major, minor, patch := Component(parts, 0), Component(parts, 1), Component(parts, 2);
    match kind
    case Major => PrintVersion(Succ(major), Int(0), Int(0))
    case Minor => PrintVersion(major, Succ(minor), Int(0))
    case Patch => PrintVersion(major, minor, Succ(patch))
  }

  /** The words of the three update types. */
  lemma UpdateWords()
    ensures ParseUpdateType("major") == Ok(Major)
    ensures ParseUpdateType("minor") == Ok(Minor)
    ensures ParseUpdateType("patch") == Ok(Patch)
  {
  }

  /**
   A major release reads only the first component: whatever follows the first
   `.`, even text that is no number, is not looked at.
   */
  lemma MajorReadsFirstOnly(current: string)
    requires AllDigits(Split(current, '.')[0])
    ensures GetNextVersion(current, "major") ==
              Ok(FormatVersion(Version(ParseDecimal(Split(current, '.')[0]) + 1, 0, 0)))
  {
    UpdateWords();
    NextUnfold(current, "major", Major);
    MajorOfParts(Split(current, '.'));
  }

  lemma MajorOfParts(parts: seq<string>)
    requires |parts| > 0 && AllDigits(parts[0])
    ensures NextFromParts(Major, parts) == FormatVersion(Version(ParseDecimal(parts[0]) + 1, 0, 0))
  {
  }

  lemma NextUnfold(current: string, updateType: string, kind: UpdateType)
    requires ParseUpdateType(updateType) == Ok(kind)
    ensures GetNextVersion(current, updateType) == Ok(NextFromParts(kind, Split(current, '.')))
  {
  }

  /** A kept component that is not a number prints as `NaN`. */
  lemma PatchOfNonNumeric(current: string)
    requires !AllDigits(Split(current, '.')[0])
    ensures GetNextVersion(current, "patch").Ok?
    ensures StartsWith(GetNextVersion(current, "patch").value, NotANumber)
  {
    UpdateWords();
    NextUnfold(current, "patch", Patch);
    PatchOfParts(Split(current, '.'));
  }

  lemma PatchOfParts(parts: seq<string>)
    requires |parts| > 0 && !AllDigits(parts[0])
    ensures StartsWith(NextFromParts(Patch, parts), NotANumber)
  {
    var minor, patch := Component(parts, 1), Component(parts, 2);
    var tail := "." + Show(minor) + "." + Show(Succ(patch));
    assert NextFromParts(Patch, parts) == Show(NaN) + tail by {
      assert Component(parts, 0) == NaN;
    }
    assert (Show(NaN) + tail)[..|Show(NaN)|] == Show(NaN);
  }

  /**
   A version with no `.` is only a major component: a patch release prints the
   missing minor as `undefined` and the bumped missing patch as `NaN`.
   */
  lemma PatchOfSingle(current: string)
    requires '.' !in current && AllDigits(current)
    ensures GetNextVersion(current, "patch") ==
              Ok(NatToDecimal(ParseDecimal(current)) + "." + UndefinedText + "." + NotANumber)
  {
    UpdateWords();
    NextUnfold(current, "patch", Patch);
    SplitNoSep(current, '.');
    PatchOfOnePart(Split(current, '.'));
  }

  lemma PatchOfOnePart(parts: seq<string>)
    requires |parts| == 1 && AllDigits(parts[0])
    ensures NextFromParts(Patch, parts) ==
              NatToDecimal(ParseDecimal(parts[0])) + "." + UndefinedText + "." + NotANumber
  {
    assert Component(parts, 1) == Undefined && Component(parts, 2) == Undefined;
  }

  /** The version `1` becomes `1.undefined.NaN` in a patch release. */
  lemma PatchOfOne()
    ensures GetNextVersion("1", "patch") == Ok("1.undefined.NaN")
  {
    assert AllDigits("1") && NatToDecimal(ParseDecimal("1")) == "1" by {
      assert "1"[..0] == "";
      assert DigitValue('1') == 1 && DigitChar(1) == '1';
    }
    PatchOfSingle("1");
    ShortPatchText();
  }

  /** The empty version becomes `0.undefined.NaN` in a patch release. */
  lemma PatchOfEmpty()
    ensures GetNextVersion("", "patch") == Ok("0.undefined.NaN")
  {
    assert NatToDecimal(ParseDecimal("")) == "0" by {
      assert DigitChar(0) == '0';
    }
    PatchOfSingle("");
    ShortPatchText();
  }

  /** The two short patch texts, spelled out. */
  lemma ShortPatchText()
    ensures "0" + "." + UndefinedText + "." + NotANumber == "0.undefined.NaN"
    ensures "1" + "." + UndefinedText + "." + NotANumber == "1.undefined.NaN"
  {
  }

  /** The three bumps on a printed version, and the result is a later version. */
  lemma NextVersionSpec(v: Version, updateType: string)
    requires updateType in {"major", "minor", "patch"}
    ensures GetNextVersion(FormatVersion(v), updateType).Ok?
    ensures var next := GetNextVersion(FormatVersion(v), updateType).value;
      ParseVersion(next).Ok? && Less(v, ParseVersion(next).value) &&
      (updateType == "major" ==> ParseVersion(next) == Ok(Version(v.major + 1, 0, 0))) &&
      (updateType == "minor" ==> ParseVersion(next) == Ok(Version(v.major, v.minor + 1, 0))) &&
      (updateType == "patch" ==> ParseVersion(next) == Ok(Version(v.major, v.minor, v.patch + 1)))
  {
    UpdateWords();
    var kind := ParseUpdateType(updateType).value;
    var w := Bump(v, kind);
    assert GetNextVersion(FormatVersion(v), updateType) == Ok(FormatVersion(w)) by {
      BumpText(v, updateType);
    }
    assert ParseVersion(FormatVersion(w)) == Ok(w) by {
      VersionRoundTrip(w);
    }
  }

  /** On a printed version, the script prints the bumped version. */
  lemma BumpText(v: Version, updateType: string)
    requires updateType in {"major", "minor", "patch"}
    ensures GetNextVersion(FormatVersion(v), updateType) ==
              Ok(FormatVersion(Bump(v, ParseUpdateType(updateType).value)))
  {
    PrintedComponents(v);
  }

  /**
   The script reads a printed version back component by component: each of
   the three is the number printed, and there is no fourth.
   */
  lemma PrintedComponents(v: Version)
    ensures var parts := Split(FormatVersion(v), '.');
      Component(parts, 0) == Int(v.major) && Component(parts, 1) == Int(v.minor) &&
      Component(parts, 2) == Int(v.patch) && Component(parts, 3) == Undefined
  {
    SplitVersion(v);
    DecimalRoundTrip(v.major);
    DecimalRoundTrip(v.minor);
    DecimalRoundTrip(v.patch);
  }

  // ---------------------------------------------------------------------------
  // The changelog
  // ---------------------------------------------------------------------------

  const Header: string := "# Changelog\n"
  const PreparePrefix: string := "prepare-"
  const MissingArgument: string := "Cannot read properties of undefined (reading 'replace')"

  /** The empty entry for a release: a dated title and three empty sections. */
  function NewEntry(version: string, date: string): string {
    "\n## [" + version + "] - " + date + "\n\n### Added\n-\n\n### Changed\n-\n\n### Fixed\n-\n\n"
  }

  /** The entry goes right after the first title line; without one the text is unchanged. */
  function InsertEntry(content: string, entry: string): string {
    ReplaceFirst(content, Header, Header + entry)
  }

  /** The changelog after `updateChangelog(nextVersion)` on the given day. */
  function UpdateChangelog(content: string, nextVersion: string, date: string): string {
    InsertEntry(content, NewEntry(nextVersion, date))
  }

  /** A changelog without the title line is left as it is. */
  lemma InsertWithoutHeader(content: string, entry: string)
    requires forall j :: !OccursAt(content, Header, j)
    ensures InsertEntry(content, entry) == content
  {
    ReplaceFirstSpec(content, Header, Header + entry);
  }

  /** The entry lands right after the first title line and nothing else changes. */
  lemma InsertAfterFirstHeader(pre: string, post: string, entry: string)
    requires forall j | 0 <= j < |pre| :: !OccursAt(pre + Header + post, Header, j)
    ensures InsertEntry(pre + Header + post, entry) == pre + Header + entry + post
  {
    var s := pre + Header + post;
    assert OccursAt(s, Header, |pre|) by {
      assert s[|pre|..|pre| + |Header|] == Header;
    }
    ReplaceFirstAt(s, Header, Header + entry, |pre|);
    assert s[..|pre|] == pre;
    assert s[|pre| + |Header|..] == post;
    assert pre + (Header + entry) + post == pre + Header + entry + post;
  }

  /** Taking the inserted entry out again gives the old changelog back. */
  lemma InsertRemove(content: string, entry: string, i: nat)
    requires IndexOf(content, Header) == Some(i)
    ensures var r := InsertEntry(content, entry);
      var at := i + |Header|;
      at + |entry| <= |r| && r[at..at + |entry|] == entry &&
      r[..at] + r[at + |entry|..] == content
  {
    var at := i + |Header|;
    var r := InsertEntry(content, entry);
    assert r == content[..i] + (Header + entry) + content[at..];
    assert r[..at] == content[..at] by {
      assert content[i..at] == Header;
    }
    assert r[at + |entry|..] == content[at..];
    assert content == content[..at] + content[at..];
  }

  /** After an insertion the first title line is where it was. */
  lemma InsertKeepsHeader(content: string, entry: string, i: nat)
    requires IndexOf(content, Header) == Some(i)
    ensures IndexOf(InsertEntry(content, entry), Header) == Some(i)
  {
    var at := i + |Header|;
    var r := InsertEntry(content, entry);
    InsertRemove(content, entry, i);
    assert r[..at] == content[..at];
    assert OccursAt(r, Header, i) by {
      assert r[i..at] == content[i..at];
    }
    forall j | 0 <= j < i
      ensures !OccursAt(r, Header, j)
    {
      assert !OccursAt(content, Header, j);
      assert r[j..j + |Header|] == content[j..j + |Header|];
    }
    ReplaceFirstAt(r, Header, Header, i);
  }

  /** Two releases in a row: the newer entry sits above the older one. */
  lemma NewestEntryFirst(pre: string, post: string, older: string, newer: string)
    requires forall j | 0 <= j < |pre| :: !OccursAt(pre + Header + post, Header, j)
    ensures InsertEntry(InsertEntry(pre + Header + post, older), newer)
         == pre + Header + newer + older + post
  {
    var s := pre + Header + post;
    var s1 := pre + Header + (older + post);
    assert InsertEntry(s, older) == s1 by {
      InsertAfterFirstHeader(pre, post, older);
      assert pre + Header + older + post == s1;
    }
    assert IndexOf(s1, Header) == Some(|pre|) by {
      assert OccursAt(s, Header, |pre|) by {
        assert s[|pre|..|pre| + |Header|] == Header;
      }
      ReplaceFirstAt(s, Header, Header, |pre|);
      InsertKeepsHeader(s, older, |pre|);
    }
    assert InsertEntry(s1, newer) == pre + Header + newer + (older + post) by {
      InsertAfterFirstHeader(pre, older + post, newer);
    }
    assert pre + Header + newer + (older + post) == pre + Header + newer + older + post;
  }

  // ---------------------------------------------------------------------------
  // The command line
  // ---------------------------------------------------------------------------

  /**
   `process.argv[2].replace('prepare-', '')`: the first `prepare-` is removed;
   a missing argument throws.
   */
  function UpdateTypeArgument(arg: Option<string>): (r: Result<string>)
    ensures r.Err? <==> arg.None?
  {
    match arg
    case None => Err(MissingArgument)
    case Some(a) => Ok(ReplaceFirst(a, PreparePrefix, ""))
  }

  /** The npm script names map onto the update types. */
  lemma PrepareStripped(word: string)
    ensures UpdateTypeArgument(Some(PreparePrefix + word)) == Ok(word)
    ensures (forall j :: !OccursAt(word, PreparePrefix, j)) ==> UpdateTypeArgument(Some(word)) == Ok(word)
  {
    var a := PreparePrefix + word;
    assert OccursAt(a, PreparePrefix, 0) by {
      assert a[..|PreparePrefix|] == PreparePrefix;
    }
    ReplaceFirstAt(a, PreparePrefix, "", 0);
    assert a[|PreparePrefix|..] == word;
    assert a[..0] + "" + word == word;
    ReplaceFirstSpec(word, PreparePrefix, "");
  }

  /** The whole script on its inputs: the new changelog text, or the message it throws. */
  function PrepareRelease(arg: Option<string>, current: string, changelog: string, date: string): (r: Result<string>)
    ensures arg.None? ==> r == Err(MissingArgument)
  {
    var updateType :- UpdateTypeArgument(arg);
    var next :- GetNextVersion(current, updateType);
    Ok(UpdateChangelog(changelog, next, date))
  }

  /** `prepare-minor` on a printed version adds the entry of the next minor release. */
  lemma PrepareMinor(v: Version, pre: string, post: string, date: string)
    requires forall j | 0 <= j < |pre| :: !OccursAt(pre + Header + post, Header, j)
    ensures PrepareRelease(Some(PreparePrefix + "minor"), FormatVersion(v), pre + Header + post, date)
         == Ok(pre + Header + NewEntry(FormatVersion(Version(v.major, v.minor + 1, 0)), date) + post)
  {
    var next := FormatVersion(Version(v.major, v.minor + 1, 0));
    assert UpdateTypeArgument(Some(PreparePrefix + "minor")) == Ok("minor") by {
      PrepareStripped("minor");
    }
    assert GetNextVersion(FormatVersion(v), "minor") == Ok(next) by {
      BumpText(v, "minor");
    }
    InsertAfterFirstHeader(pre, post, NewEntry(next, date));
  }
}
