/**
 The rewrite of the destination template (`updateDestinationFiles`, without
 its file I/O).

 The destination text is trimmed and split on `\n`. A line is kept when the
 trimmed text before its first `=` is empty or is a key of the extracted map;
 kept key lines become `KEY=placeholder`, the other kept lines stay verbatim.
 Every map key that no line starts with `KEY=` is then appended, in map order,
 and the lines are joined with `\n`.
 */
module Template {
  import opened Wrappers
  import opened Strings
  import opened Seqs
  import opened EnvFile

  /** The token a placeholder format substitutes. */
  const KeyToken: string := "${key}"

  /** The key of a destination line: the trimmed text before its first `=` ("" if blank). */
  function LineKey(line: string): string {
    Trim(Split(line, '=')[0])
  }

  /** The format with its first `${key}` replaced by the lowercased key. */
  function Placeholder(format: string, key: string): string {
    ReplaceFirst(format, KeyToken, Lower(key))
  }

  /** The line written for a managed key. */
  function KeyLine(key: string, format: string): string {
    key + "=" + Placeholder(format, key)
  }

  /** The `filter` test: no key, or a key the map has. */
  predicate Kept(m: EnvMap, line: string) {
    LineKey(line) == "" || HasKey(m, LineKey(line))
  }

  /** The `map` step: a line with a key of the map becomes its key line. */
  function Rewrite(m: EnvMap, format: string, line: string): string {
    var key := LineKey(line);
    if key != "" && HasKey(m, key) then KeyLine(key, format) else line
  }

  /** What filter and map make of one line: nothing, or its rewrite. */
  function KeepOne(m: EnvMap, format: string, line: string): seq<string> {
    if Kept(m, line) then [Rewrite(m, format, line)] else []
  }

  /** `lines.filter(Kept).map(Rewrite)`. */
  function KeepAndRewrite(m: EnvMap, format: string, lines: seq<string>): seq<string>
  {
    if |lines| == 0 then []
    else KeepAndRewrite(m, format, lines[..|lines| - 1]) + KeepOne(m, format, lines[|lines| - 1])
  }

  /** `lines.some(line => line.startsWith(key + '='))`. */
  predicate HasLineFor(lines: seq<string>, key: string) {
    |lines| > 0 && (HasLineFor(lines[..|lines| - 1], key) || StartsWith(lines[|lines| - 1], key + "="))
  }

  /**
   `sourceEnvs.forEach`: in map order, each key for which no line (including
   the lines appended so far) starts with `key=` gets its key line appended.
   */
  function AppendMissing(m: EnvMap, format: string, lines: seq<string>): seq<string>
  {
    if |m| == 0 then lines
    else
      var prev := AppendMissing(m[..|m| - 1], format, lines);
      var key := m[|m| - 1].key;
      if HasLineFor(prev, key) then prev else prev + [KeyLine(key, format)]
  }

  /** Filter and rewrite the destination lines, then append the missing keys. */
  function MergeLinesOf(m: EnvMap, format: string, lines: seq<string>): seq<string> {
    AppendMissing(m, format, KeepAndRewrite(m, format, lines))
  }

  /**
   The destination lines: the trimmed content split on `\n`. Empty content
   gives one empty line, which the filter keeps as a line without a key.
   */
  function DestinationLines(content: string): seq<string> {
    Split(Trim(content), '\n')
  }

  /** The lines of the new destination content. */
  function MergeLines(m: EnvMap, format: string, content: string): seq<string> {
    MergeLinesOf(m, format, DestinationLines(content))
  }

  /** The new destination content, joined with `\n` and without a final newline. */
  function MergeText(m: EnvMap, format: string, content: string): string {
    Join(MergeLines(m, format, content), '\n')
  }

  /**
   Corrected reading of the destination: content that trims to nothing has no
   lines at all, so a new destination does not start with a blank line.
   */
  function DestinationLinesFixed(content: string): seq<string> {
    if Trim(content) == "" then [] else Split(Trim(content), '\n')
  }

  function MergeTextFixed(m: EnvMap, format: string, content: string): string {
    Join(MergeLinesOf(m, format, DestinationLinesFixed(content)), '\n')
  }

  // ---------------------------------------------------------------------------
  // Reference descriptions of the result
  // ---------------------------------------------------------------------------

  function KeyOf(line: string): seq<string> {
    if LineKey(line) == "" then [] else [LineKey(line)]
  }

  function UnkeyedOf(line: string): seq<string> {
    if LineKey(line) == "" then [line] else []
  }

  /** The keys of the lines that carry one, in line order. */
  function LineKeys(lines: seq<string>): seq<string> {
    FlatMap(lines, KeyOf)
  }

  /** The lines without a key (blank lines, lines starting with `=`), in order. */
  function Unkeyed(lines: seq<string>): seq<string> {
    FlatMap(lines, UnkeyedOf)
  }

  /** The keys of `ks` that the map has, in order. */
  function KeysIn(m: EnvMap, ks: seq<string>): seq<string>
  {
    if |ks| == 0 then []
    else
      var k := ks[|ks| - 1];
      KeysIn(m, ks[..|ks| - 1]) + (if HasKey(m, k) then [k] else [])
  }

  /** The map's keys missing from `ks`, in map order. */
  function Absent(m: EnvMap, ks: seq<string>): seq<string>
  {
    if |m| == 0 then []
    else
      var k := m[|m| - 1].key;
      Absent(m[..|m| - 1], ks) + (if k in ks then [] else [k])
  }

  function KeyLines(ks: seq<string>, format: string): seq<string> {
    seq(|ks|, i requires 0 <= i < |ks| => KeyLine(ks[i], format))
  }

  /** Every line either has no key or is exactly the key line of its key. */
  predicate Redacted(lines: seq<string>, format: string) {
    forall i | 0 <= i < |lines| :: LineKey(lines[i]) == "" || lines[i] == KeyLine(LineKey(lines[i]), format)
  }

  /** Every keyed line carries a key of the map. */
  predicate Managed(m: EnvMap, lines: seq<string>) {
    forall i | 0 <= i < |lines| :: LineKey(lines[i]) == "" || HasKey(m, LineKey(lines[i]))
  }

  // ---------------------------------------------------------------------------
  // Line keys
  // ---------------------------------------------------------------------------

  /** A line that starts with `k=` has key `k`. */
  lemma LineKeyOfPrefix(k: string, rest: string)
    requires IsKeyName(k)
    ensures LineKey(k + "=" + rest) == k
  {
    assert k + "=" + rest == k + ("=" + rest);
    SplitFirstPart(k, "=" + rest, '=');
  }

  lemma LineKeyOfKeyLine(k: string, format: string)
    requires IsKeyName(k)
    ensures LineKey(KeyLine(k, format)) == k
    ensures StartsWith(KeyLine(k, format), k + "=")
  {
    LineKeyOfPrefix(k, Placeholder(format, k));
    assert KeyLine(k, format)[..|k + "="|] == k + "=";
  }

  /** A non-empty line key is a well-formed key name. */
  lemma LineKeyIsKeyName(line: string)
    requires LineKey(line) != ""
    ensures IsKeyName(LineKey(line))
  {
    var parts := Split(line, '=');
    assert parts[0] in parts;
  }

  /** Whether a line starts with `k=` depends only on its key. */
  lemma StartsWithKey(line: string, k: string)
    requires IsKeyName(k) && StartsWith(line, k + "=")
    ensures LineKey(line) == k
  {
    var n := |k + "="|;
    assert line == k + "=" + line[n..];
    LineKeyOfPrefix(k, line[n..]);
  }

  /** A character in neither the key nor the format is not in the key line. */
  lemma KeyLineAvoids(k: string, format: string, c: char)
    requires c !in k && c !in format && c != '=' && !('A' <= c <= 'z')
    ensures c !in KeyLine(k, format)
  {
    LowerAvoids(k, c);
    ReplaceFirstAvoids(format, KeyToken, Lower(k), c);
  }

  // ---------------------------------------------------------------------------
  // Filter and rewrite
  // ---------------------------------------------------------------------------

  lemma {:induction false} KeysInAppend(m: EnvMap, a: seq<string>, b: seq<string>)
    ensures KeysIn(m, a + b) == KeysIn(m, a) + KeysIn(m, b)
    decreases |b|
  {
    if |b| == 0 {
      assert a + b == a;
    } else {
      var init := b[..|b| - 1];
      assert (a + b)[..|a + b| - 1] == a + init;
      KeysInAppend(m, a, init);
    }
  }

  lemma KeepOneKeys(m: EnvMap, format: string, line: string)
    ensures LineKeys(KeepOne(m, format, line)) == KeysIn(m, KeyOf(line))
  {
    var k := LineKey(line);
    if k == "" {
      FlatMapSingle(line, KeyOf);
    } else {
      assert KeyOf(line) == [k];
      assert KeysIn(m, [k]) == (if HasKey(m, k) then [k] else []) by {
        assert [k][..0] == [];
      }
      if HasKey(m, k) {
        LineKeyIsKeyName(line);
        LineKeyOfKeyLine(k, format);
        FlatMapSingle(KeyLine(k, format), KeyOf);
      }
    }
  }

  lemma KeepOneUnkeyed(m: EnvMap, format: string, line: string)
    ensures Unkeyed(KeepOne(m, format, line)) == UnkeyedOf(line)
  {
    var k := LineKey(line);
    if k == "" {
      FlatMapSingle(line, UnkeyedOf);
    } else if HasKey(m, k) {
      LineKeyIsKeyName(line);
      LineKeyOfKeyLine(k, format);
      FlatMapSingle(KeyLine(k, format), UnkeyedOf);
    }
  }

  /** Kept lines: their keys are the input keys the map has, in order. */
  lemma {:induction false} KeepAndRewriteKeys(m: EnvMap, format: string, lines: seq<string>)
    ensures LineKeys(KeepAndRewrite(m, format, lines)) == KeysIn(m, LineKeys(lines))
    decreases |lines|
  {
    if |lines| > 0 {
      var init := lines[..|lines| - 1];
      var last := lines[|lines| - 1];
      assert lines == init + [last];
      KeepAndRewriteKeys(m, format, init);
      assert LineKeys(lines) == LineKeys(init) + KeyOf(last) by {
        FlatMapAppend(init, [last], KeyOf);
        FlatMapSingle(last, KeyOf);
      }
      FlatMapAppend(KeepAndRewrite(m, format, init), KeepOne(m, format, last), KeyOf);
      KeepOneKeys(m, format, last);
      KeysInAppend(m, LineKeys(init), KeyOf(last));
    }
  }

  /** Kept lines: the keyless input lines all survive, verbatim and in order. */
  lemma {:induction false} KeepAndRewriteUnkeyed(m: EnvMap, format: string, lines: seq<string>)
    ensures Unkeyed(KeepAndRewrite(m, format, lines)) == Unkeyed(lines)
    decreases |lines|
  {
    if |lines| > 0 {
      var init := lines[..|lines| - 1];
      var last := lines[|lines| - 1];
      assert lines == init + [last];
      KeepAndRewriteUnkeyed(m, format, init);
      assert Unkeyed(lines) == Unkeyed(init) + UnkeyedOf(last) by {
        FlatMapAppend(init, [last], UnkeyedOf);
        FlatMapSingle(last, UnkeyedOf);
      }
      FlatMapAppend(KeepAndRewrite(m, format, init), KeepOne(m, format, last), UnkeyedOf);
      KeepOneUnkeyed(m, format, last);
    }
  }

  /** Kept lines are either keyless input lines or key lines of map keys. */
  lemma {:induction false} KeepAndRewriteShape(m: EnvMap, format: string, lines: seq<string>)
    ensures Redacted(KeepAndRewrite(m, format, lines), format)
    ensures Managed(m, KeepAndRewrite(m, format, lines))
    decreases |lines|
  {
    if |lines| > 0 {
      var init := lines[..|lines| - 1];
      var last := lines[|lines| - 1];
      KeepAndRewriteShape(m, format, init);
      var prev := KeepAndRewrite(m, format, init);
      var key := LineKey(last);
      if key == "" {
        SnocShape(m, format, prev, last);
      } else if HasKey(m, key) {
        LineKeyIsKeyName(last);
        LineKeyOfKeyLine(key, format);
        SnocShape(m, format, prev, KeyLine(key, format));
      }
    }
  }

  lemma SnocShape(m: EnvMap, format: string, prev: seq<string>, o: string)
    requires Redacted(prev, format) && Managed(m, prev)
    requires LineKey(o) == "" || (HasKey(m, LineKey(o)) && o == KeyLine(LineKey(o), format))
    ensures Redacted(prev + [o], format) && Managed(m, prev + [o])
  {
    var r := prev + [o];
    forall i | 0 <= i < |r|
      ensures LineKey(r[i]) == "" || (HasKey(m, LineKey(r[i])) && r[i] == KeyLine(LineKey(r[i]), format))
    {
      if i < |prev| {
        assert r[i] == prev[i];
      }
    }
  }

  /** Lines that are already in merged form come through filter and rewrite unchanged. */
  lemma {:induction false} KeepAndRewriteFixed(m: EnvMap, format: string, lines: seq<string>)
    requires Redacted(lines, format) && Managed(m, lines)
    ensures KeepAndRewrite(m, format, lines) == lines
    decreases |lines|
  {
    if |lines| > 0 {
      var init := lines[..|lines| - 1];
      var last := lines[|lines| - 1];
      assert lines == init + [last];
      assert Redacted(init, format) && Managed(m, init) by {
        assert forall i | 0 <= i < |init| :: init[i] == lines[i];
      }
      KeepAndRewriteFixed(m, format, init);
      assert KeepOne(m, format, last) == [last];
    }
  }

  // ---------------------------------------------------------------------------
  // Appending the missing keys
  // ---------------------------------------------------------------------------

  lemma ValidPrefix(m: EnvMap)
    requires ValidEnvMap(m) && |m| > 0
    ensures ValidEnvMap(m[..|m| - 1])
    ensures m[|m| - 1].key !in Keys(m[..|m| - 1])
  {
    var init := m[..|m| - 1];
    assert forall i | 0 <= i < |init| :: Keys(init)[i] == Keys(m)[i] && Keys(m)[i] != Keys(m)[|m| - 1];
  }

  lemma KeyLinesSnoc(ks: seq<string>, k: string, format: string)
    ensures KeyLines(ks + [k], format) == KeyLines(ks, format) + [KeyLine(k, format)]
  {
  }

  /** A key occurs among the line keys exactly when some line carries it. */
  lemma LineKeysMember(lines: seq<string>, k: string)
    requires k != ""
    ensures k in LineKeys(lines) <==> exists i | 0 <= i < |lines| :: LineKey(lines[i]) == k
  {
    if k in LineKeys(lines) {
      var i := LineKeysSource(lines, k);
    }
    if exists i | 0 <= i < |lines| :: LineKey(lines[i]) == k {
      var i :| 0 <= i < |lines| && LineKey(lines[i]) == k;
      LineKeysCover(lines, i);
    }
  }

  /** A key among the line keys comes from some line. */
  lemma LineKeysSource(lines: seq<string>, k: string) returns (i: int)
    requires k in LineKeys(lines)
    ensures 0 <= i < |lines| && LineKey(lines[i]) == k
  {
    FlatMapMember(lines, KeyOf, k);
    i :| 0 <= i < |lines| && k in KeyOf(lines[i]);
    KeyOfMember(lines[i], k);
  }

  lemma KeyOfMember(line: string, k: string)
    requires k in KeyOf(line)
    ensures LineKey(line) == k
  {
    var key := LineKey(line);
    if key == "" {
      assert false;
    }
    assert KeyOf(line) == [key];
  }

  /** The key of every keyed line is among the line keys. */
  lemma LineKeysCover(lines: seq<string>, i: int)
    requires 0 <= i < |lines| && LineKey(lines[i]) != ""
    ensures LineKey(lines[i]) in LineKeys(lines)
  {
    assert LineKey(lines[i]) in KeyOf(lines[i]);
    FlatMapCovers(lines, KeyOf, i, LineKey(lines[i]));
  }

  /**
   The `forEach` that re-checks the growing list appends exactly the map keys
   that no existing line carries, in map order, each once.
   */
  lemma {:induction false} AppendMissingSpec(m: EnvMap, format: string, lines: seq<string>)
    requires ValidEnvMap(m)
    requires Redacted(lines, format)
    ensures AppendMissing(m, format, lines) == lines + KeyLines(Absent(m, LineKeys(lines)), format)
    decreases |m|
  {
    if |m| == 0 {
      assert KeyLines([], format) == [];
    } else {
      ValidPrefix(m);
      AppendMissingSpec(m[..|m| - 1], format, lines);
      AppendMissingStep(m, format, lines);
    }
  }

  lemma AppendMissingStep(m: EnvMap, format: string, lines: seq<string>)
    requires ValidEnvMap(m) && |m| > 0 && Redacted(lines, format)
    requires ValidEnvMap(m[..|m| - 1])
    requires AppendMissing(m[..|m| - 1], format, lines)
          == lines + KeyLines(Absent(m[..|m| - 1], LineKeys(lines)), format)
    ensures AppendMissing(m, format, lines) == lines + KeyLines(Absent(m, LineKeys(lines)), format)
  {
    var init := m[..|m| - 1];
    var k := m[|m| - 1].key;
    assert k !in Keys(init) && IsKeyName(k) by {
      ValidPrefix(m);
      assert ValidEntry(m[|m| - 1]);
    }
    AppendedHasLine(init, format, lines, k);
    if k in LineKeys(lines) {
      AppendKnown(m, format, lines);
    } else {
      AppendNew(m, format, lines);
    }
  }

  /** The last key already has a line: nothing is appended for it. */
  lemma AppendKnown(m: EnvMap, format: string, lines: seq<string>)
    requires |m| > 0
    requires m[|m| - 1].key in LineKeys(lines)
    requires AppendMissing(m[..|m| - 1], format, lines)
          == lines + KeyLines(Absent(m[..|m| - 1], LineKeys(lines)), format)
    requires HasLineFor(AppendMissing(m[..|m| - 1], format, lines), m[|m| - 1].key)
    ensures AppendMissing(m, format, lines) == lines + KeyLines(Absent(m, LineKeys(lines)), format)
  {
    var ks := LineKeys(lines);
    assert Absent(m, ks) == Absent(m[..|m| - 1], ks) + [];
    assert Absent(m, ks) == Absent(m[..|m| - 1], ks);
  }

  /** The last key has no line yet: its key line is appended. */
  lemma AppendNew(m: EnvMap, format: string, lines: seq<string>)
    requires |m| > 0
    requires m[|m| - 1].key !in LineKeys(lines)
    requires AppendMissing(m[..|m| - 1], format, lines)
          == lines + KeyLines(Absent(m[..|m| - 1], LineKeys(lines)), format)
    requires !HasLineFor(AppendMissing(m[..|m| - 1], format, lines), m[|m| - 1].key)
    ensures AppendMissing(m, format, lines) == lines + KeyLines(Absent(m, LineKeys(lines)), format)
  {
    var ks := LineKeys(lines);
    var k := m[|m| - 1].key;
    var missing := Absent(m[..|m| - 1], ks);
    var line := KeyLine(k, format);
    var prev := lines + KeyLines(missing, format);
    assert AppendMissing(m, format, lines) == prev + [line];
    assert KeyLines(Absent(m, ks), format) == KeyLines(missing, format) + [line] by {
      assert Absent(m, ks) == missing + [k];
      KeyLinesSnoc(missing, k, format);
    }
    assert prev + [line] == lines + (KeyLines(missing, format) + [line]);
  }

  /**
   After the keys of `m` have been handled, a later key `k` that `m` does not
   hold has a line exactly when an original line carries it.
   */
  lemma AppendedHasLine(m: EnvMap, format: string, lines: seq<string>, k: string)
    requires ValidEnvMap(m) && Redacted(lines, format)
    requires IsKeyName(k) && k !in Keys(m)
    ensures HasLineFor(lines + KeyLines(Absent(m, LineKeys(lines)), format), k) <==> k in LineKeys(lines)
  {
    var missing := Absent(m, LineKeys(lines));
    var added := KeyLines(missing, format);
    AbsentKeyNames(m, LineKeys(lines));
    KeyLinesKeys(missing, format);
    KeyLinesRedacted(missing, format);
    RedactedAppend(lines, added, format);
    FlatMapAppend(lines, added, KeyOf);
    HasLineForIff(lines + added, format, k);
    if k in missing {
      AbsentInMap(m, LineKeys(lines), k);
    }
  }

  /** `some` holds exactly when one of the lines starts with `key=`. */
  lemma {:induction false} HasLineForExists(lines: seq<string>, key: string)
    ensures HasLineFor(lines, key) <==> exists i | 0 <= i < |lines| :: StartsWith(lines[i], key + "=")
    decreases |lines|
  {
    if |lines| > 0 {
      var init := lines[..|lines| - 1];
      HasLineForExists(init, key);
      if exists i | 0 <= i < |init| :: StartsWith(init[i], key + "=") {
        var i :| 0 <= i < |init| && StartsWith(init[i], key + "=");
        assert lines[i] == init[i];
      }
      if exists i | 0 <= i < |lines| :: StartsWith(lines[i], key + "=") {
        var i :| 0 <= i < |lines| && StartsWith(lines[i], key + "=");
        if i < |init| {
          assert lines[i] == init[i];
        }
      }
    }
  }

  /** In redacted lines, some line starts with `k=` exactly when some line has key `k`. */
  lemma HasLineForIff(lines: seq<string>, format: string, k: string)
    requires Redacted(lines, format) && IsKeyName(k)
    ensures HasLineFor(lines, k) <==> k in LineKeys(lines)
  {
    LineKeysMember(lines, k);
    HasLineForExists(lines, k);
    if k in LineKeys(lines) {
      var i :| 0 <= i < |lines| && LineKey(lines[i]) == k;
      assert StartsWith(lines[i], k + "=") by {
        LineKeyOfKeyLine(k, format);
      }
    }
    if HasLineFor(lines, k) {
      var i :| 0 <= i < |lines| && StartsWith(lines[i], k + "=");
      StartsWithKey(lines[i], k);
    }
  }

  predicate AllKeyNames(ks: seq<string>) {
    forall i | 0 <= i < |ks| :: IsKeyName(ks[i])
  }

  /** Key lines carry their keys, in order. */
  lemma {:induction false} KeyLinesKeys(ks: seq<string>, format: string)
    requires AllKeyNames(ks)
    ensures LineKeys(KeyLines(ks, format)) == ks
    decreases |ks|
  {
    if |ks| == 0 {
      assert KeyLines(ks, format) == [];
    } else {
      var init := ks[..|ks| - 1];
      var k := ks[|ks| - 1];
      assert ks == init + [k];
      var prev := KeyLines(init, format);
      assert AllKeyNames(init) by {
        assert forall i | 0 <= i < |init| :: init[i] == ks[i];
      }
      KeyLinesKeys(init, format);
      assert KeyLines(ks, format) == prev + [KeyLine(k, format)] by {
        KeyLinesSnoc(init, k, format);
      }
      assert LineKeys([KeyLine(k, format)]) == [k] by {
        LineKeyOfKeyLine(k, format);
        FlatMapSingle(KeyLine(k, format), KeyOf);
      }
      FlatMapAppend(prev, [KeyLine(k, format)], KeyOf);
    }
  }

  /** Key lines are redacted. */
  lemma KeyLinesRedacted(ks: seq<string>, format: string)
    requires AllKeyNames(ks)
    ensures Redacted(KeyLines(ks, format), format)
  {
    var kl := KeyLines(ks, format);
    forall i | 0 <= i < |kl|
      ensures LineKey(kl[i]) == "" || kl[i] == KeyLine(LineKey(kl[i]), format)
    {
      LineKeyOfKeyLine(ks[i], format);
    }
  }

  lemma RedactedAppend(a: seq<string>, b: seq<string>, format: string)
    requires Redacted(a, format) && Redacted(b, format)
    ensures Redacted(a + b, format)
  {
    var r := a + b;
    forall i | 0 <= i < |r|
      ensures LineKey(r[i]) == "" || r[i] == KeyLine(LineKey(r[i]), format)
    {
      if i < |a| {
        assert r[i] == a[i];
      } else {
        assert r[i] == b[i - |a|];
      }
    }
  }

  /** The keys appended for a valid map are key names. */
  lemma AbsentKeyNames(m: EnvMap, ks: seq<string>)
    requires ValidEnvMap(m)
    ensures AllKeyNames(Absent(m, ks))
  {
    var missing := Absent(m, ks);
    forall i | 0 <= i < |missing|
      ensures IsKeyName(missing[i])
    {
      AbsentInMap(m, ks, missing[i]);
      MapKeyName(m, missing[i]);
    }
  }

  /** The keys of an extracted map are key names on one line. */
  lemma MapKeyName(m: EnvMap, k: string)
    requires ValidEnvMap(m) && k in Keys(m)
    ensures IsKeyName(k) && '\n' !in k
  {
    var n :| 0 <= n < |m| && Keys(m)[n] == k;
    assert ValidEntry(m[n]);
  }

  /** Absent keys are map keys missing from `ks`. */
  lemma {:induction false} AbsentInMap(m: EnvMap, ks: seq<string>, k: string)
    requires k in Absent(m, ks)
    ensures k !in ks && k in Keys(m)
    decreases |m|
  {
    var init := m[..|m| - 1];
    assert Keys(m) == Keys(init) + [m[|m| - 1].key];
    if k in Absent(init, ks) {
      AbsentInMap(init, ks, k);
    }
  }
}
