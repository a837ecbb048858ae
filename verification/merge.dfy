/**
 What the destination rewrite guarantees: which keys end up with a line and in
 what order, what every key line looks like, which other lines survive, and
 when a second run leaves the text unchanged.
 */
module MergeLaws {
  import opened Wrappers
  import opened Strings
  import opened Seqs
  import opened EnvFile
  import opened Template

  // ---------------------------------------------------------------------------
  // The filtered key lists
  // ---------------------------------------------------------------------------

  lemma {:induction false} KeysInMember(m: EnvMap, ks: seq<string>, k: string)
    ensures k in KeysIn(m, ks) <==> k in ks && HasKey(m, k)
    decreases |ks|
  {
    if |ks| > 0 {
      var init := ks[..|ks| - 1];
      var last := ks[|ks| - 1];
      assert ks == init + [last];
      KeysInMember(m, init, k);
    }
  }

  /** Absent only looks at the map's own keys. */
  lemma {:induction false} AbsentCongruent(m: EnvMap, ks1: seq<string>, ks2: seq<string>)
    requires forall i | 0 <= i < |m| :: (m[i].key in ks1 <==> m[i].key in ks2)
    ensures Absent(m, ks1) == Absent(m, ks2)
    decreases |m|
  {
    if |m| > 0 {
      var init := m[..|m| - 1];
      assert forall i | 0 <= i < |init| :: init[i] == m[i];
      AbsentCongruent(init, ks1, ks2);
    }
  }

  /** Every map key missing from `ks` is among the absent keys. */
  lemma {:induction false} AbsentComplete(m: EnvMap, ks: seq<string>, k: string)
    requires k in Keys(m) && k !in ks
    ensures k in Absent(m, ks)
    decreases |m|
  {
    var init := m[..|m| - 1];
    assert Keys(m) == Keys(init) + [m[|m| - 1].key];
    if k != m[|m| - 1].key {
      AbsentComplete(init, ks, k);
    }
  }

  /** Dropping the keys the map lacks does not change which map keys are absent. */
  lemma AbsentOfKeysIn(m: EnvMap, ks: seq<string>)
    ensures Absent(m, KeysIn(m, ks)) == Absent(m, ks)
  {
    forall i | 0 <= i < |m|
      ensures m[i].key in KeysIn(m, ks) <==> m[i].key in ks
    {
      assert Keys(m)[i] == m[i].key;
      KeysInMember(m, ks, m[i].key);
    }
    AbsentCongruent(m, KeysIn(m, ks), ks);
  }

  /** No map key is absent from a list that holds all of them. */
  lemma {:induction false} AbsentNone(m: EnvMap, ks: seq<string>)
    requires forall i | 0 <= i < |m| :: m[i].key in ks
    ensures Absent(m, ks) == []
    decreases |m|
  {
    if |m| > 0 {
      var init := m[..|m| - 1];
      assert forall i | 0 <= i < |init| :: init[i] == m[i];
      AbsentNone(init, ks);
    }
  }

  // ---------------------------------------------------------------------------
  // Key lines
  // ---------------------------------------------------------------------------

  lemma {:induction false} KeyLinesUnkeyed(ks: seq<string>, format: string)
    requires AllKeyNames(ks)
    ensures Unkeyed(KeyLines(ks, format)) == []
    decreases |ks|
  {
    if |ks| > 0 {
      var init := ks[..|ks| - 1];
      var k := ks[|ks| - 1];
      assert ks == init + [k];
      assert AllKeyNames(init) by {
        assert forall i | 0 <= i < |init| :: init[i] == ks[i];
      }
      KeyLinesUnkeyed(init, format);
      KeyLinesSnoc(init, k, format);
      FlatMapAppend(KeyLines(init, format), [KeyLine(k, format)], UnkeyedOf);
      LineKeyOfKeyLine(k, format);
      FlatMapSingle(KeyLine(k, format), UnkeyedOf);
    } else {
      assert KeyLines(ks, format) == [];
    }
  }

  lemma ManagedAppend(m: EnvMap, a: seq<string>, b: seq<string>)
    requires Managed(m, a) && Managed(m, b)
    ensures Managed(m, a + b)
  {
    var r := a + b;
    forall i | 0 <= i < |r|
      ensures LineKey(r[i]) == "" || HasKey(m, LineKey(r[i]))
    {
      if i < |a| {
        assert r[i] == a[i];
      } else {
        assert r[i] == b[i - |a|];
      }
    }
  }

  /** The key lines of absent keys carry keys of the map. */
  lemma AbsentLinesManaged(m: EnvMap, ks: seq<string>, format: string)
    requires ValidEnvMap(m)
    ensures Managed(m, KeyLines(Absent(m, ks), format))
  {
    var missing := Absent(m, ks);
    var kl := KeyLines(missing, format);
    forall i | 0 <= i < |kl|
      ensures LineKey(kl[i]) == "" || HasKey(m, LineKey(kl[i]))
    {
      var k := missing[i];
      assert kl[i] == KeyLine(k, format);
      AbsentInMap(m, ks, k);
      MapKeyName(m, k);
      LineKeyOfKeyLine(k, format);
    }
  }

  // ---------------------------------------------------------------------------
  // The merged lines
  // ---------------------------------------------------------------------------

  /**
   The merge keeps the filtered and rewritten destination lines in order and
   then appends, in map order, one key line per map key that no destination
   line carries.
   */
  lemma MergeSpec(m: EnvMap, format: string, lines: seq<string>)
    requires ValidEnvMap(m)
    ensures MergeLinesOf(m, format, lines)
         == KeepAndRewrite(m, format, lines) + KeyLines(Absent(m, LineKeys(lines)), format)
  {
    var kept := KeepAndRewrite(m, format, lines);
    KeepAndRewriteShape(m, format, lines);
    AppendMissingSpec(m, format, kept);
    KeepAndRewriteKeys(m, format, lines);
    AbsentOfKeysIn(m, LineKeys(lines));
  }

  /**
   The keys of the merged lines: the destination's keys that the map still
   has, in destination order, then the map's other keys, in map order.
   */
  lemma MergeKeys(m: EnvMap, format: string, lines: seq<string>)
    requires ValidEnvMap(m)
    ensures LineKeys(MergeLinesOf(m, format, lines))
         == KeysIn(m, LineKeys(lines)) + Absent(m, LineKeys(lines))
  {
    var kept := KeepAndRewrite(m, format, lines);
    var missing := Absent(m, LineKeys(lines));
    MergeSpec(m, format, lines);
    FlatMapAppend(kept, KeyLines(missing, format), KeyOf);
    KeepAndRewriteKeys(m, format, lines);
    AbsentKeyNames(m, LineKeys(lines));
    KeyLinesKeys(missing, format);
  }

  /** A key has a line in the result exactly when the map has it. */
  lemma MergeKeySet(m: EnvMap, format: string, lines: seq<string>, k: string)
    requires ValidEnvMap(m)
    ensures k in LineKeys(MergeLinesOf(m, format, lines)) <==> HasKey(m, k)
  {
    var ks := LineKeys(lines);
    MergeKeys(m, format, lines);
    KeysInMember(m, ks, k);
    if k in Absent(m, ks) {
      AbsentInMap(m, ks, k);
    }
    if HasKey(m, k) && k !in ks {
      AbsentComplete(m, ks, k);
    }
  }

  /** Every keyed line of the result is `KEY=placeholder` for a key of the map. */
  lemma MergeShape(m: EnvMap, format: string, lines: seq<string>)
    requires ValidEnvMap(m)
    ensures Redacted(MergeLinesOf(m, format, lines), format)
    ensures Managed(m, MergeLinesOf(m, format, lines))
  {
    var kept := KeepAndRewrite(m, format, lines);
    var missing := Absent(m, LineKeys(lines));
    MergeSpec(m, format, lines);
    KeepAndRewriteShape(m, format, lines);
    AbsentKeyNames(m, LineKeys(lines));
    KeyLinesRedacted(missing, format);
    RedactedAppend(kept, KeyLines(missing, format), format);
    AbsentLinesManaged(m, LineKeys(lines), format);
    ManagedAppend(m, kept, KeyLines(missing, format));
  }

  /** The lines without a key (blank lines among them) survive verbatim and in order. */
  lemma MergeUnkeyed(m: EnvMap, format: string, lines: seq<string>)
    requires ValidEnvMap(m)
    ensures Unkeyed(MergeLinesOf(m, format, lines)) == Unkeyed(lines)
  {
    var kept := KeepAndRewrite(m, format, lines);
    var missing := Absent(m, LineKeys(lines));
    MergeSpec(m, format, lines);
    FlatMapAppend(kept, KeyLines(missing, format), UnkeyedOf);
    KeepAndRewriteUnkeyed(m, format, lines);
    AbsentKeyNames(m, LineKeys(lines));
    KeyLinesUnkeyed(missing, format);
  }

  // ---------------------------------------------------------------------------
  // Running the merge again
  // ---------------------------------------------------------------------------

  /** Merging merged lines again changes nothing. */
  lemma MergeLinesIdempotent(m: EnvMap, format: string, lines: seq<string>)
    requires ValidEnvMap(m)
    ensures MergeLinesOf(m, format, MergeLinesOf(m, format, lines)) == MergeLinesOf(m, format, lines)
  {
    var out := MergeLinesOf(m, format, lines);
    MergeShape(m, format, lines);
    KeepAndRewriteFixed(m, format, out);
    forall i | 0 <= i < |m|
      ensures m[i].key in LineKeys(out)
    {
      assert Keys(m)[i] == m[i].key;
      MergeKeySet(m, format, lines, m[i].key);
    }
    AbsentNone(m, LineKeys(out));
    MergeSpec(m, format, out);
    assert KeyLines([], format) == [];
  }

  predicate NoNewlines(lines: seq<string>) {
    forall i | 0 <= i < |lines| :: '\n' !in lines[i]
  }

  lemma DestinationNoNewlines(content: string)
    ensures NoNewlines(DestinationLines(content))
    ensures NoNewlines(DestinationLinesFixed(content))
  {
    var parts := Split(Trim(content), '\n');
    assert forall i | 0 <= i < |parts| :: parts[i] in parts;
  }

  /** A map key and a format without `\n` give a key line without `\n`. */
  lemma KeyLineNoNewline(m: EnvMap, k: string, format: string)
    requires ValidEnvMap(m) && k in Keys(m) && '\n' !in format
    ensures '\n' !in KeyLine(k, format)
  {
    MapKeyName(m, k);
    KeyLineAvoids(k, format, '\n');
  }

  lemma {:induction false} KeepAndRewriteNoNewlines(m: EnvMap, format: string, lines: seq<string>)
    requires ValidEnvMap(m) && NoNewlines(lines) && '\n' !in format
    ensures NoNewlines(KeepAndRewrite(m, format, lines))
    decreases |lines|
  {
    if |lines| > 0 {
      var init := lines[..|lines| - 1];
      var last := lines[|lines| - 1];
      assert NoNewlines(init) by {
        assert forall i | 0 <= i < |init| :: init[i] == lines[i];
      }
      KeepAndRewriteNoNewlines(m, format, init);
      var prev := KeepAndRewrite(m, format, init);
      var one := KeepOne(m, format, last);
      assert NoNewlines(one) by {
        var key := LineKey(last);
        if key != "" && HasKey(m, key) {
          KeyLineNoNewline(m, key, format);
        }
      }
      assert KeepAndRewrite(m, format, lines) == prev + one;
      NoNewlinesAppend(prev, one);
    }
  }

  lemma NoNewlinesAppend(a: seq<string>, b: seq<string>)
    requires NoNewlines(a) && NoNewlines(b)
    ensures NoNewlines(a + b)
  {
    forall i | 0 <= i < |a + b|
      ensures '\n' !in (a + b)[i]
    {
      if i >= |a| {
        assert (a + b)[i] == b[i - |a|];
      }
    }
  }

  /** Without `\n` in the destination lines or the format, no merged line holds one. */
  lemma MergeNoNewlines(m: EnvMap, format: string, lines: seq<string>)
    requires ValidEnvMap(m) && NoNewlines(lines) && '\n' !in format
    ensures NoNewlines(MergeLinesOf(m, format, lines))
  {
    var kept := KeepAndRewrite(m, format, lines);
    var missing := Absent(m, LineKeys(lines));
    var added := KeyLines(missing, format);
    MergeSpec(m, format, lines);
    KeepAndRewriteNoNewlines(m, format, lines);
    var r := kept + added;
    forall i | 0 <= i < |r|
      ensures '\n' !in r[i]
    {
      if i < |kept| {
        assert r[i] == kept[i];
      } else {
        var k := missing[i - |kept|];
        assert r[i] == KeyLine(k, format);
        AbsentInMap(m, LineKeys(lines), k);
        KeyLineNoNewline(m, k, format);
      }
    }
  }

  /** Splitting joined merged lines gives them back. */
  lemma SplitMerged(out: seq<string>)
    requires |out| >= 1 && NoNewlines(out)
    ensures Split(Join(out, '\n'), '\n') == out
  {
    forall p | p in out
      ensures '\n' !in p
    {
    }
    SplitJoin(out, '\n');
  }

  /**
   A second run over the text the merge wrote gives the same text, provided
   that text has no whitespace at either end (the destination is trimmed
   before it is split).
   */
  lemma MergeIdempotent(m: EnvMap, format: string, content: string)
    requires ValidEnvMap(m) && '\n' !in format
    requires IsTrimmed(MergeText(m, format, content))
    ensures MergeText(m, format, MergeText(m, format, content)) == MergeText(m, format, content)
  {
    var out := MergeLines(m, format, content);
    var text := Join(out, '\n');
    assert Trim(text) == text;
    DestinationNoNewlines(content);
    MergeNoNewlines(m, format, DestinationLines(content));
    MergeLinesIdempotent(m, format, DestinationLines(content));
    if |out| == 0 {
      assert text == "";
      NoKeysWithoutLines(m, format, DestinationLines(content));
      assert DestinationLines(text) == [""];
      EmptyLineKept(m, format);
    } else {
      SplitMerged(out);
    }
  }

  /** Merging with no key line in the result means the map is empty. */
  lemma NoKeysWithoutLines(m: EnvMap, format: string, lines: seq<string>)
    requires ValidEnvMap(m) && LineKeys(MergeLinesOf(m, format, lines)) == []
    ensures |m| == 0
  {
    if |m| > 0 {
      assert Keys(m)[0] == m[0].key;
      MergeKeySet(m, format, lines, m[0].key);
    }
  }

  /** A single empty line has no key and is kept as it is. */
  lemma EmptyLineKept(m: EnvMap, format: string)
    ensures KeepAndRewrite(m, format, [""]) == [""]
    ensures LineKeys([""]) == []
  {
    assert Split("", '=') == [""];
    assert LineKey("") == "";
    assert KeepOne(m, format, "") == [""];
    assert [""][..0] == [];
    assert KeepAndRewrite(m, format, [""]) == KeepAndRewrite(m, format, []) + [""];
    FlatMapSingle("", KeyOf);
  }

  // ---------------------------------------------------------------------------
  // A new destination
  // ---------------------------------------------------------------------------

  lemma {:induction false} AbsentAll(m: EnvMap)
    ensures Absent(m, []) == Keys(m)
    decreases |m|
  {
    if |m| > 0 {
      var init := m[..|m| - 1];
      AbsentAll(init);
      assert Keys(m) == Keys(init) + [m[|m| - 1].key];
    }
  }

  /** With no destination lines, the result is one key line per map key, in map order. */
  lemma FreshMerge(m: EnvMap, format: string)
    requires ValidEnvMap(m)
    ensures MergeLinesOf(m, format, []) == KeyLines(Keys(m), format)
  {
    MergeSpec(m, format, []);
    assert KeepAndRewrite(m, format, []) == [];
    assert LineKeys([]) == [];
    AbsentAll(m);
  }

  /** With a trimmed format, a key line has no whitespace at either end. */
  lemma KeyLineTrimmed(k: string, format: string)
    requires IsKeyName(k) && IsTrimmed(format)
    ensures KeyLine(k, format) != [] && IsTrimmed(KeyLine(k, format))
  {
    var p := Placeholder(format, k);
    var line := k + "=" + p;
    assert line[0] == k[0];
    if p == [] {
      assert line[|line| - 1] == '=';
    } else {
      LowerKeepsVisible(k, |k| - 1);
      ReplaceFirstTrimmedEnd(format, KeyToken, Lower(k));
      assert line[|line| - 1] == p[|p| - 1];
    }
  }

  /** The text written for a new destination by the corrected merge. */
  lemma FreshText(m: EnvMap, format: string)
    requires ValidEnvMap(m) && IsTrimmed(format) && |m| > 0
    ensures MergeTextFixed(m, format, "") == Join(KeyLines(Keys(m), format), '\n')
    ensures MergeTextFixed(m, format, "") != [] && IsTrimmed(MergeTextFixed(m, format, ""))
  {
    var out := KeyLines(Keys(m), format);
    assert MergeTextFixed(m, format, "") == Join(out, '\n') by {
      assert Trim("") == "";
      assert DestinationLinesFixed("") == [];
      FreshMerge(m, format);
    }
    KeyLinesTrimmed(m, format);
    JoinTrimmed(out, '\n');
  }

  /** Every key line of a valid map is nonempty and trimmed when the format is. */
  lemma KeyLinesTrimmed(m: EnvMap, format: string)
    requires ValidEnvMap(m) && IsTrimmed(format)
    ensures forall i | 0 <= i < |KeyLines(Keys(m), format)| ::
      KeyLines(Keys(m), format)[i] != [] && IsTrimmed(KeyLines(Keys(m), format)[i])
  {
    var out := KeyLines(Keys(m), format);
    forall i | 0 <= i < |out|
      ensures out[i] != [] && IsTrimmed(out[i])
    {
      assert Keys(m)[i] in Keys(m);
      MapKeyName(m, Keys(m)[i]);
      KeyLineTrimmed(Keys(m)[i], format);
    }
  }

  /**
   Corrected merge: a second run gives the same text whenever the first run
   wrote a text without whitespace at either end.
   */
  lemma MergeFixedIdempotent(m: EnvMap, format: string, content: string)
    requires ValidEnvMap(m) && '\n' !in format
    requires IsTrimmed(MergeTextFixed(m, format, content))
    ensures MergeTextFixed(m, format, MergeTextFixed(m, format, content)) == MergeTextFixed(m, format, content)
  {
    var lines := DestinationLinesFixed(content);
    var out := MergeLinesOf(m, format, lines);
    var text := Join(out, '\n');
    assert Trim(text) == text;
    if text == "" {
      assert DestinationLinesFixed(text) == [];
      if |m| > 0 {
        assert Keys(m)[0] == m[0].key;
        MergeKeySet(m, format, lines, m[0].key);
        var i := LineKeysSource(out, m[0].key);
        JoinEmpty(out, '\n', i);
      }
      FreshMerge(m, format);
      assert KeyLines(Keys(m), format) == [];
    } else {
      assert |out| >= 1;
      DestinationNoNewlines(content);
      MergeNoNewlines(m, format, lines);
      SplitMerged(out);
      assert DestinationLinesFixed(text) == out;
      MergeLinesIdempotent(m, format, lines);
    }
  }

  /** Corrected merge: a new destination is written once and then left alone. */
  lemma FreshDestinationStable(m: EnvMap, format: string)
    requires ValidEnvMap(m) && '\n' !in format && IsTrimmed(format)
    ensures MergeTextFixed(m, format, MergeTextFixed(m, format, "")) == MergeTextFixed(m, format, "")
  {
    if |m| > 0 {
      FreshText(m, format);
    } else {
      assert Trim("") == "";
      assert DestinationLinesFixed("") == [];
      FreshMerge(m, format);
      assert KeyLines(Keys(m), format) == [];
      assert MergeTextFixed(m, format, "") == "";
    }
    MergeFixedIdempotent(m, format, "");
  }

  /**
   As written, an empty destination gives one blank first line before the key
   lines, and the next run trims it away: the text changes on the second run.
   */
  lemma EmptyDestinationDrift(m: EnvMap, format: string)
    requires ValidEnvMap(m) && |m| > 0 && '\n' !in format && IsTrimmed(format)
    ensures MergeText(m, format, "") == "\n" + MergeTextFixed(m, format, "")
    ensures MergeText(m, format, MergeText(m, format, "")) == MergeTextFixed(m, format, "")
    ensures MergeText(m, format, MergeText(m, format, "")) != MergeText(m, format, "")
  {
    EmptyDestinationText(m, format);
    SecondRunAfterEmpty(m, format);
    assert |MergeText(m, format, "")| == |MergeTextFixed(m, format, "")| + 1;
  }

  /** One source key `A`, the default format and an empty destination. */
  lemma EmptyDestinationExample(m: EnvMap, format: string, empty: string)
    requires m == [Entry("A", "x")] && format == KeyToken && empty == ""
    ensures MergeText(m, format, empty) == "\n" + "A=a"
    ensures MergeText(m, format, MergeText(m, format, empty)) == "A=a"
  {
    var fixed := MergeTextFixed(m, format, empty);
    assert ValidEnvMap(m) && IsTrimmed(format) && fixed == "A=a" by {
      ExampleKeyLines(m);
      FreshText(m, KeyToken);
      assert Join(["A=a"], '\n') == "A=a";
    }
    EmptyDestinationDrift(m, format);
  }

  lemma ExampleKeyLines(m: EnvMap)
    requires m == [Entry("A", "x")]
    ensures ValidEnvMap(m)
    ensures KeyLines(Keys(m), KeyToken) == ["A=a"]
  {
    assert Keys(m) == ["A"];
    assert IsTrimmed("A") && IsTrimmed("x");
    assert Placeholder(KeyToken, "A") == "a" by {
      assert OccursAt(KeyToken, KeyToken, 0);
      ReplaceFirstAt(KeyToken, KeyToken, Lower("A"), 0);
      assert Lower("A") == "a";
    }
    assert KeyLine("A", KeyToken) == "A=a";
  }

  lemma EmptyDestinationText(m: EnvMap, format: string)
    requires ValidEnvMap(m) && |m| > 0 && IsTrimmed(format)
    ensures MergeText(m, format, "") == "\n" + MergeTextFixed(m, format, "")
  {
    var added := KeyLines(Keys(m), format);
    EmptyDestinationLines(m, format);
    FreshText(m, format);
    assert |added| >= 1;
    JoinCons("", added, '\n');
    assert "" + ['\n'] + Join(added, '\n') == "\n" + Join(added, '\n');
  }

  /** An empty destination splits into one empty line, kept ahead of every key line. */
  lemma EmptyDestinationLines(m: EnvMap, format: string)
    requires ValidEnvMap(m)
    ensures MergeLines(m, format, "") == [""] + KeyLines(Keys(m), format)
  {
    assert Trim("") == "";
    assert DestinationLines("") == [""];
    MergeSpec(m, format, [""]);
    EmptyLineKept(m, format);
    AbsentAll(m);
  }

  lemma SecondRunAfterEmpty(m: EnvMap, format: string)
    requires ValidEnvMap(m) && |m| > 0 && '\n' !in format && IsTrimmed(format)
    requires MergeText(m, format, "") == "\n" + MergeTextFixed(m, format, "")
    ensures MergeText(m, format, MergeText(m, format, "")) == MergeTextFixed(m, format, "")
  {
    var added := KeyLines(Keys(m), format);
    var text := Join(added, '\n');
    FreshText(m, format);
    TrimLeadingWhitespace('\n', text);
    assert "\n" + text == ['\n'] + text;
    assert DestinationLines("\n" + text) == Split(text, '\n');
    FreshMerge(m, format);
    MergeNoNewlines(m, format, []);
    SplitMerged(added);
    MergeLinesIdempotent(m, format, []);
  }

  // ---------------------------------------------------------------------------
  // Behaviour that differs from a natural reading
  // ---------------------------------------------------------------------------

  /**
   The placeholder is the format with its first `${key}` replaced by the
   lowercased key; a format without the token is used as it is.
   */
  lemma PlaceholderSpec(format: string, key: string)
    ensures (forall j :: !OccursAt(format, KeyToken, j)) ==> Placeholder(format, key) == format
    ensures forall i | OccursAt(format, KeyToken, i) && (forall j | 0 <= j < i :: !OccursAt(format, KeyToken, j)) ::
      Placeholder(format, key) == format[..i] + Lower(key) + format[i + |KeyToken|..]
  {
    ReplaceFirstSpec(format, KeyToken, Lower(key));
  }

  /** Two destination lines for the same key both stay, both rewritten. */
  lemma DuplicateKeyLinesKept(m: EnvMap, format: string, k: string, a: string, b: string)
    requires ValidEnvMap(m) && IsKeyName(k) && HasKey(m, k)
    ensures |MergeLinesOf(m, format, [k + "=" + a, k + "=" + b])| >= 2
    ensures MergeLinesOf(m, format, [k + "=" + a, k + "=" + b])[..2] == [KeyLine(k, format), KeyLine(k, format)]
  {
    var lines := [k + "=" + a, k + "=" + b];
    var kept := KeepAndRewrite(m, format, lines);
    assert kept == [KeyLine(k, format), KeyLine(k, format)] by {
      KeepBoth(m, format, k, a, b);
    }
    MergeSpec(m, format, lines);
    assert (kept + KeyLines(Absent(m, LineKeys(lines)), format))[..2] == kept;
  }

  lemma KeepBoth(m: EnvMap, format: string, k: string, a: string, b: string)
    requires IsKeyName(k) && HasKey(m, k)
    ensures KeepAndRewrite(m, format, [k + "=" + a, k + "=" + b]) == [KeyLine(k, format), KeyLine(k, format)]
  {
    var l1, l2 := k + "=" + a, k + "=" + b;
    KeepTwo(m, format, l1, l2);
    assert KeepOne(m, format, l1) == [KeyLine(k, format)] by {
      LineKeyOfPrefix(k, a);
    }
    assert KeepOne(m, format, l2) == [KeyLine(k, format)] by {
      LineKeyOfPrefix(k, b);
    }
  }

  lemma KeepTwo(m: EnvMap, format: string, l1: string, l2: string)
    ensures KeepAndRewrite(m, format, [l1, l2]) == KeepOne(m, format, l1) + KeepOne(m, format, l2)
  {
    assert [l1][..0] == [];
    assert KeepAndRewrite(m, format, [l1]) == KeepOne(m, format, l1);
    assert [l1, l2][..1] == [l1];
  }

  /** A `#` line is not a comment: its key is the whole trimmed line. */
  lemma CommentLineKey()
    ensures LineKey("# note") == "# note"
  {
    SplitNoSep("# note", '=');
    assert IsTrimmed("# note");
  }

  /** A `#` line whose text is no source key is dropped like any other unknown key. */
  lemma CommentLineDropped(m: EnvMap, format: string)
    requires ValidEnvMap(m) && !HasKey(m, "# note")
    ensures MergeLinesOf(m, format, ["# note"]) == KeyLines(Keys(m), format)
  {
    var line := "# note";
    CommentLineKey();
    assert KeepOne(m, format, line) == [];
    assert [line][..0] == [];
    assert KeepAndRewrite(m, format, [line]) == [];
    MergeSpec(m, format, [line]);
    FlatMapSingle(line, KeyOf);
    assert LineKeys([line]) == [line];
    forall i | 0 <= i < |m|
      ensures m[i].key in [line] <==> m[i].key in []
    {
      assert Keys(m)[i] == m[i].key;
    }
    AbsentCongruent(m, [line], []);
    AbsentAll(m);
  }
}
