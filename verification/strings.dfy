/**
 The JavaScript string primitives the extension and the release script rely on,
 restated over `string` (a `seq<char>`): `trim`, `split` on one character, `join`,
 `startsWith`, `indexOf`, `replace` with a string pattern and ASCII `toLowerCase`.
 */
module Strings {
  import opened Wrappers
  import opened Seqs

  /** The characters ECMAScript's `trim` removes: WhiteSpace and LineTerminator. */
  predicate IsWhitespace(c: char) {
    || c == '\t' || c == '\n' || c == '\U{000B}' || c == '\U{000C}' || c == '\r'
    || c == ' ' || c == '\U{00A0}' || c == '\U{1680}'
    || ('\U{2000}' <= c <= '\U{200A}')
    || c == '\U{2028}' || c == '\U{2029}' || c == '\U{202F}' || c == '\U{205F}'
    || c == '\U{3000}' || c == '\U{FEFF}'
  }

  predicate AllWhitespace(s: string) {
    forall i | 0 <= i < |s| :: IsWhitespace(s[i])
  }

  /** Neither end of `s` is whitespace. */
  predicate IsTrimmed(s: string) {
    s == [] || (!IsWhitespace(s[0]) && !IsWhitespace(s[|s| - 1]))
  }

  function TrimStart(s: string): (r: string)
    ensures |r| <= |s| && r == s[|s| - |r|..]
    ensures forall i | 0 <= i < |s| - |r| :: IsWhitespace(s[i])
    ensures r == [] || !IsWhitespace(r[0])
  {
    if |s| > 0 && IsWhitespace(s[0]) then
      var r := TrimStart(s[1..]);
      assert s[|s| - |r|..] == s[1..][|s| - 1 - |r|..];
      assert forall i | 1 <= i < |s| - |r| :: s[i] == s[1..][i - 1];
      r
    else s
  }

  function TrimEnd(s: string): (r: string)
    ensures |r| <= |s| && r == s[..|r|]
    ensures forall i | |r| <= i < |s| :: IsWhitespace(s[i])
    ensures r == [] || !IsWhitespace(r[|r| - 1])
  {
    if |s| > 0 && IsWhitespace(s[|s| - 1]) then
      var r := TrimEnd(s[..|s| - 1]);
      assert s[..|r|] == s[..|s| - 1][..|r|];
      assert forall i | |r| <= i < |s| - 1 :: s[i] == s[..|s| - 1][i];
      r
    else s
  }

  /** `String.prototype.trim`: the slice of `s` left after dropping whitespace at both ends. */
  function Trim(s: string): (r: string)
    ensures IsTrimmed(r)
    ensures |r| <= |s|
    ensures forall c | c in r :: c in s
    ensures r == s <==> IsTrimmed(s)
  {
    var t := TrimStart(s);
    var r := TrimEnd(t);
    assert forall c | c in r :: c in t;
    assert forall c | c in t :: c in s;
    assert IsTrimmed(s) ==> t == s && r == s;
    r
  }

  /** `s.split(sep)` for a one-character separator: never empty, even for "". */
  function Split(s: string, sep: char): (parts: seq<string>)
    ensures |parts| >= 1
    ensures forall p | p in parts :: sep !in p
    ensures Join(parts, sep) == s
    decreases |s|
  {
    if |s| == 0 then [""]
    else
      var rest := Split(s[1..], sep);
      if s[0] == sep then
        assert Join([""] + rest, sep) == [sep] + Join(rest, sep);
        [""] + rest
      else
        var parts := [[s[0]] + rest[0]] + rest[1..];
        assert Join(parts, sep) == [s[0]] + Join(rest, sep) by {
          if |rest| > 1 {
            assert parts[1..] == rest[1..];
          }
        }
        parts
  }

  /** `parts.join(sep)` for a one-character separator; the empty array joins to "". */
  function Join(parts: seq<string>, sep: char): string
  {
    if |parts| == 0 then ""
    else if |parts| == 1 then parts[0]
    else parts[0] + [sep] + Join(parts[1..], sep)
  }

  /** `s.startsWith(prefix)`. */
  predicate StartsWith(s: string, prefix: string) {
    |prefix| <= |s| && s[..|prefix|] == prefix
  }

  predicate OccursAt(s: string, pat: string, i: int) {
    0 <= i && i + |pat| <= |s| && s[i..i + |pat|] == pat
  }

  /** `s.indexOf(pat, from)`, with `None` for -1. */
  function IndexOfFrom(s: string, pat: string, from: nat): (r: Option<nat>)
    ensures r.Some? ==> from <= r.value && OccursAt(s, pat, r.value)
    ensures r.Some? ==> forall j | from <= j < r.value :: !OccursAt(s, pat, j)
    ensures r.None? ==> forall j | from <= j :: !OccursAt(s, pat, j)
    decreases |s| - from
  {
    if from + |pat| > |s| then None
    else if s[from..from + |pat|] == pat then Some(from)
    else IndexOfFrom(s, pat, from + 1)
  }

  /** `s.indexOf(pat)`: the first position where `pat` occurs. */
  function IndexOf(s: string, pat: string): (r: Option<nat>)
    ensures r.Some? ==> OccursAt(s, pat, r.value)
    ensures r.Some? ==> forall j | 0 <= j < r.value :: !OccursAt(s, pat, j)
    ensures r.None? ==> forall j :: !OccursAt(s, pat, j)
  {
    IndexOfFrom(s, pat, 0)
  }

  /**
   `s.replace(pat, repl)` with a string pattern: only the first occurrence is
   replaced, and `s` is returned unchanged when `pat` does not occur. The
   replacement is taken literally (JavaScript's `$&`, `$$`, ... are not modelled).
   */
  function ReplaceFirst(s: string, pat: string, repl: string): string
  {
    match IndexOf(s, pat)
    case None => s
    case Some(i) => s[..i] + repl + s[i + |pat|..]
  }

  /** ASCII `toLowerCase` on one character. */
  function LowerChar(c: char): char {
    if 'A' <= c <= 'Z' then (c as int + 32) as char else c
  }

  /** `s.toLowerCase()` restricted to ASCII letters. */
  function Lower(s: string): (r: string)
    ensures |r| == |s|
    ensures forall i | 0 <= i < |s| :: r[i] == LowerChar(s[i])
  {
    seq(|s|, i requires 0 <= i < |s| => LowerChar(s[i]))
  }

  // ---------------------------------------------------------------------------
  // Properties of the primitives
  // ---------------------------------------------------------------------------

  /** Trim removes only whitespace, and only at the two ends. */
  lemma TrimSlice(s: string)
    ensures exists i :: 0 <= i <= |s| - |Trim(s)| && Trim(s) == s[i..i + |Trim(s)|]
                        && AllWhitespace(s[..i]) && AllWhitespace(s[i + |Trim(s)|..])
  {
    var t := TrimStart(s);
    var r := Trim(s);
    var i := |s| - |t|;
    assert r == TrimEnd(t);
    TrimStartDrops(s);
    TrimEndDrops(t);
    SuffixSlices(s, i, |r|);
    assert r == s[i..i + |r|];
    assert AllWhitespace(s[..i]);
    assert AllWhitespace(s[i + |r|..]);
  }

  /** What TrimStart drops is whitespace. */
  lemma TrimStartDrops(s: string)
    ensures AllWhitespace(s[..|s| - |TrimStart(s)|])
  {
    var before := s[..|s| - |TrimStart(s)|];
    forall j | 0 <= j < |before|
      ensures IsWhitespace(before[j])
    {
      assert before[j] == s[j];
    }
  }

  /** What TrimEnd drops is whitespace. */
  lemma TrimEndDrops(s: string)
    ensures AllWhitespace(s[|TrimEnd(s)|..])
  {
    var n := |TrimEnd(s)|;
    var after := s[n..];
    forall j | 0 <= j < |after|
      ensures IsWhitespace(after[j])
    {
      assert after[j] == s[n + j];
    }
  }

  /** Trimming twice is trimming once. */
  lemma TrimIdempotent(s: string)
    ensures Trim(Trim(s)) == Trim(s)
  {
  }

  /** A separator-free prefix is glued onto the first part of what follows it. */
  lemma {:induction false} SplitPrefix(p: string, t: string, sep: char)
    requires sep !in p
    ensures Split(p + t, sep) == [p + Split(t, sep)[0]] + Split(t, sep)[1..]
    decreases |p|
  {
    var parts := Split(t, sep);
    if |p| == 0 {
      assert p + t == t;
      assert p + parts[0] == parts[0];
      assert [parts[0]] + parts[1..] == parts;
    } else {
      assert (p + t)[1..] == p[1..] + t;
      SplitPrefix(p[1..], t, sep);
      var rest := Split(p[1..] + t, sep);
      assert rest == [p[1..] + parts[0]] + parts[1..];
      assert rest[1..] == parts[1..];
      assert [p[0]] + (p[1..] + parts[0]) == p + parts[0];
    }
  }

  /** A string without the separator splits into itself. */
  lemma SplitNoSep(s: string, sep: char)
    requires sep !in s
    ensures Split(s, sep) == [s]
  {
    SplitPrefix(s, "", sep);
    assert s + "" == s;
  }

  /** Splitting after a separator-free prefix and one separator peels off that prefix. */
  lemma SplitAtSep(p: string, t: string, sep: char)
    requires sep !in p
    ensures Split(p + [sep] + t, sep) == [p] + Split(t, sep)
  {
    var st := Split(t, sep);
    var u := [sep] + t;
    assert u[1..] == t;
    assert Split(u, sep) == [""] + st;
    assert p + [sep] + t == p + u;
    SplitPrefix(p, u, sep);
    assert ([""] + st)[1..] == st;
    assert p + "" == p;
  }

  /**
   Split is the inverse of Join: parts that do not contain the separator are
   recovered from their join.
   */
  lemma {:induction false} SplitJoin(parts: seq<string>, sep: char)
    requires |parts| >= 1
    requires forall p | p in parts :: sep !in p
    ensures Split(Join(parts, sep), sep) == parts
    decreases |parts|
  {
    if |parts| == 1 {
      SplitNoSep(parts[0], sep);
    } else {
      SplitJoin(parts[1..], sep);
      SplitAtSep(parts[0], Join(parts[1..], sep), sep);
      assert [parts[0]] + parts[1..] == parts;
    }
  }

  /** Characters absent from a string are absent from each of its split parts. */
  lemma {:induction false} SplitAvoids(s: string, sep: char, c: char)
    requires c !in s
    ensures forall p | p in Split(s, sep) :: c !in p
    decreases |s|
  {
    if |s| > 0 {
      SplitAvoids(s[1..], sep, c);
      assert s[0] != c;
    }
  }

  /** The first part of a split is the text up to the first separator. */
  lemma SplitFirstPart(p: string, t: string, sep: char)
    requires sep !in p
    requires t == [] || t[0] == sep
    ensures Split(p + t, sep)[0] == p
  {
    SplitPrefix(p, t, sep);
    if t == [] {
    } else {
      assert t == [sep] + t[1..];
      SplitAtSep([], t[1..], sep);
      assert [] + [sep] + t[1..] == t;
    }
  }

  /** `replace` changes nothing when the pattern does not occur, and otherwise
      exactly the first occurrence. */
  lemma ReplaceFirstSpec(s: string, pat: string, repl: string)
    ensures (forall j :: !OccursAt(s, pat, j)) ==> ReplaceFirst(s, pat, repl) == s
    ensures forall i | OccursAt(s, pat, i) && (forall j | 0 <= j < i :: !OccursAt(s, pat, j)) ::
              ReplaceFirst(s, pat, repl) == s[..i] + repl + s[i + |pat|..]
  {
    var r := IndexOf(s, pat);
    forall i | OccursAt(s, pat, i) && (forall j | 0 <= j < i :: !OccursAt(s, pat, j))
      ensures ReplaceFirst(s, pat, repl) == s[..i] + repl + s[i + |pat|..]
    {
      assert r.Some?;
      assert !(r.value < i);
      assert !(r.value > i);
    }
  }

  /** The first occurrence at `i` is the one `replace` rewrites. */
  lemma ReplaceFirstAt(s: string, pat: string, repl: string, i: nat)
    requires OccursAt(s, pat, i)
    requires forall j | 0 <= j < i :: !OccursAt(s, pat, j)
    ensures IndexOf(s, pat) == Some(i)
    ensures ReplaceFirst(s, pat, repl) == s[..i] + repl + s[i + |pat|..]
  {
    var r := IndexOf(s, pat);
    assert r.Some?;
    assert !(r.value < i);
    assert !(r.value > i);
  }

  /** A character found in neither the input nor the replacement is not in the result. */
  lemma ReplaceFirstAvoids(s: string, pat: string, repl: string, c: char)
    requires c !in s && c !in repl
    ensures c !in ReplaceFirst(s, pat, repl)
  {
    match IndexOf(s, pat)
    case None =>
    case Some(i) =>
      assert s == s[..i] + s[i..i + |pat|] + s[i + |pat|..];
  }

  /** Lowercasing keeps every character that is not an ASCII capital. */
  lemma LowerAvoids(s: string, c: char)
    requires c !in s
    requires !('A' <= c <= 'z')
    ensures c !in Lower(s)
  {
    var r := Lower(s);
    assert forall i | 0 <= i < |r| :: r[i] != c;
  }

  /** Lowercasing is idempotent and leaves no ASCII capital behind. */
  lemma LowerIdempotent(s: string)
    ensures Lower(Lower(s)) == Lower(s)
    ensures forall i | 0 <= i < |s| :: !('A' <= Lower(s)[i] <= 'Z')
  {
  }

  /** Lowercasing never turns a visible character into whitespace. */
  lemma LowerKeepsVisible(s: string, i: int)
    requires 0 <= i < |s| && !IsWhitespace(s[i])
    ensures !IsWhitespace(Lower(s)[i])
  {
  }

  /** A string that is trimmed and not empty ends in a visible character after `replace`,
      when what it replaces is swapped for a trimmed, non-empty string. */
  lemma ReplaceFirstTrimmedEnd(s: string, pat: string, repl: string)
    requires s != [] && IsTrimmed(s)
    requires repl != [] && !IsWhitespace(repl[|repl| - 1])
    ensures ReplaceFirst(s, pat, repl) != []
    ensures !IsWhitespace(ReplaceFirst(s, pat, repl)[|ReplaceFirst(s, pat, repl)| - 1])
  {
    match IndexOf(s, pat)
    case None =>
    case Some(i) =>
      var tail := s[i + |pat|..];
      var r := s[..i] + repl + tail;
      if tail == [] {
        assert r[|r| - 1] == repl[|repl| - 1];
      } else {
        assert r[|r| - 1] == tail[|tail| - 1] == s[|s| - 1];
      }
  }

  /** Joining a first part with the rest. */
  lemma JoinCons(p: string, rest: seq<string>, sep: char)
    requires |rest| >= 1
    ensures Join([p] + rest, sep) == p + [sep] + Join(rest, sep)
  {
    assert ([p] + rest)[1..] == rest;
  }

  /** Joining non-empty trimmed parts gives a non-empty trimmed string. */
  lemma {:induction false} JoinTrimmed(parts: seq<string>, sep: char)
    requires |parts| >= 1
    requires forall i | 0 <= i < |parts| :: parts[i] != [] && IsTrimmed(parts[i])
    ensures Join(parts, sep) != [] && IsTrimmed(Join(parts, sep))
    decreases |parts|
  {
    if |parts| > 1 {
      var rest := parts[1..];
      assert forall i | 0 <= i < |rest| :: rest[i] == parts[i + 1];
      JoinTrimmed(rest, sep);
      var j := Join(rest, sep);
      var r := parts[0] + [sep] + j;
      assert r[0] == parts[0][0];
      assert r[|r| - 1] == j[|j| - 1];
    }
  }

  /** A join is empty only when every part is. */
  lemma JoinEmpty(parts: seq<string>, sep: char, i: int)
    requires 0 <= i < |parts| && Join(parts, sep) == []
    ensures parts[i] == [] && |parts| == 1
  {
  }

  /** Trimming a string after one leading whitespace character. */
  lemma TrimLeadingWhitespace(c: char, t: string)
    requires IsWhitespace(c) && t != [] && IsTrimmed(t)
    ensures Trim([c] + t) == t
  {
    var s := [c] + t;
    assert s[1..] == t;
    assert TrimStart(t) == t;
    assert TrimStart(s) == t;
    assert TrimEnd(t) == t;
  }
}
