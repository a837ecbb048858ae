/**
 Key extraction from the source environment files (`readSourceEnvFiles`).

 Every line of every existing source file is split on `=`; the trimmed text
 before the first `=` is the key and the trimmed text between the first and
 the second `=` is the value. Entries are folded into a JavaScript `Map`, which
 this module represents as an insertion-ordered list of entries with unique keys.
 */
module EnvFile {
  import opened Wrappers
  import opened Strings
  import opened Seqs

  /** One `KEY=VALUE` assignment read from a source file. */
  datatype Entry = Entry(key: string, value: string)

  /** What `line.split('=').map(trim)` destructured into `[key, value]` yields, when
      both are non-empty (a missing second part is `undefined`, which is falsy). */
  function ParseLine(line: string): Option<Entry>
  {
    var parts := Split(line, '=');
    var key := Trim(parts[0]);
    var value := if |parts| >= 2 then Trim(parts[1]) else "";
    if key != "" && value != "" then Some(Entry(key, value)) else None
  }

  /** A key as extraction produces it: non-empty, trimmed, free of `=` and of line breaks. */
  predicate IsKeyName(k: string) {
    k != "" && IsTrimmed(k) && '=' !in k
  }

  predicate ValidEntry(e: Entry) {
    IsKeyName(e.key) && '\n' !in e.key && e.value != "" && IsTrimmed(e.value)
  }

  // ---------------------------------------------------------------------------
  // The insertion-ordered map
  // ---------------------------------------------------------------------------

  /** A JavaScript `Map<string, string>`: entries in insertion order. */
  type EnvMap = seq<Entry>

  function Keys(m: seq<Entry>): (ks: seq<string>)
  {
    seq(|m|, i requires 0 <= i < |m| => m[i].key)
  }

  /** `map.has(k)`. */
  predicate HasKey(m: EnvMap, k: string) {
    k in Keys(m)
  }

  predicate NoDuplicates(ks: seq<string>) {
    forall i, j | 0 <= i < j < |ks| :: ks[i] != ks[j]
  }

  /** What extraction guarantees of the map it returns. */
  predicate ValidEnvMap(m: EnvMap) {
    NoDuplicates(Keys(m)) && forall i | 0 <= i < |m| :: ValidEntry(m[i])
  }

  /** `map.get(k)`. */
  function Get(m: EnvMap, k: string): (r: Option<string>)
    ensures r.Some? <==> HasKey(m, k)
  {
    if |m| == 0 then None
    else if m[0].key == k then
      assert Keys(m)[0] == k;
      Some(m[0].value)
    else
      KeysCons(m[0], m[1..]);
      assert m == [m[0]] + m[1..];
      Get(m[1..], k)
  }

  /**
   `map.set(k, v)`: an existing key keeps its position and takes the new value;
   a new key is appended. No other key changes.
   */
  function Put(m: EnvMap, k: string, v: string): (r: EnvMap)
    ensures Keys(r) == if HasKey(m, k) then Keys(m) else Keys(m) + [k]
    ensures Entry(k, v) in r
    ensures forall e | e in r :: e == Entry(k, v) || e in m
  {
    if |m| == 0 then [Entry(k, v)]
    else if m[0].key == k then
      var r := [Entry(k, v)] + m[1..];
      assert Keys(r) == Keys(m) by {
        assert forall i | 0 <= i < |m| :: Keys(r)[i] == Keys(m)[i];
      }
      assert Keys(m)[0] == k;
      r
    else
      var tail := Put(m[1..], k, v);
      var r := [m[0]] + tail;
      KeysCons(m[0], m[1..]);
      KeysCons(m[0], tail);
      assert m == [m[0]] + m[1..];
      assert r[0] == m[0] && r[1..] == tail;
      r
  }

  /** After `set(k, v)`, `get(k)` is `v` and every other key reads as before. */
  lemma {:induction false} PutGet(m: EnvMap, k: string, v: string, k': string)
    ensures Get(Put(m, k, v), k') == if k' == k then Some(v) else Get(m, k')
    decreases |m|
  {
    if |m| > 0 && m[0].key != k {
      var r := Put(m, k, v);
      assert r[0] == m[0] && r[1..] == Put(m[1..], k, v);
      PutGet(m[1..], k, v, k');
    }
  }

  lemma KeysCons(e: Entry, m: seq<Entry>)
    ensures Keys([e] + m) == [e.key] + Keys(m)
  {
  }

  lemma KeysSnoc(m: seq<Entry>, e: Entry)
    ensures Keys(m + [e]) == Keys(m) + [e.key]
  {
  }

  /** The keys of the entries before the last one. */
  lemma KeysInit(es: seq<Entry>)
    requires |es| > 0
    ensures Keys(es) == Keys(es[..|es| - 1]) + [es[|es| - 1].key]
  {
    KeysSnoc(es[..|es| - 1], es[|es| - 1]);
    assert es[..|es| - 1] + [es[|es| - 1]] == es;
  }

  /** Folds entries into an empty map with `set`, first to last. */
  function Build(es: seq<Entry>): EnvMap
  {
    if |es| == 0 then []
    else
      var e := es[|es| - 1];
      Put(Build(es[..|es| - 1]), e.key, e.value)
  }

  /** Each element kept at its first occurrence, in order. */
  function Dedup(ks: seq<string>): seq<string>
  {
    if |ks| == 0 then []
    else
      var init := ks[..|ks| - 1];
      Dedup(init) + (if ks[|ks| - 1] in init then [] else [ks[|ks| - 1]])
  }

  // ---------------------------------------------------------------------------
  // Reading the source files
  // ---------------------------------------------------------------------------

  function Present(e: Option<Entry>): seq<Entry> {
    match e
    case None => []
    case Some(x) => [x]
  }

  /** The entry one line yields, if any. */
  function LineEntries(line: string): seq<Entry> {
    Present(ParseLine(line))
  }

  /** The entries of one source file, split on `\n`. */
  function ContentEntries(content: string): seq<Entry> {
    FlatMap(Split(content, '\n'), LineEntries)
  }

  /** The entries one configured source contributes; `None` is a file that does not exist. */
  function Contribution(source: Option<string>): seq<Entry> {
    match source
    case None => []
    case Some(content) => ContentEntries(content)
  }

  /** The entries of the source files in configured order. */
  function SourceEntries(sources: seq<Option<string>>): seq<Entry> {
    FlatMap(sources, Contribution)
  }

  /**
   The loop of `readSourceEnvFiles`: for every existing source, in order, for
   every line, `set` the parsed entry.
   */
  method ReadSourceEnvFiles(sources: seq<Option<string>>) returns (envMap: EnvMap)
    ensures envMap == Build(SourceEntries(sources))
    ensures ValidEnvMap(envMap)
  {
    envMap := [];
    assert FlatMap(sources[..0], Contribution) == [];
    for i := 0 to |sources|
      invariant envMap == Build(FlatMap(sources[..i], Contribution))
    {
      FlatMapStep(sources, i, Contribution);
      ghost var done := FlatMap(sources[..i], Contribution);
      match sources[i]
      case None =>
        assert done + Contribution(None) == done;
      case Some(content) =>
        assert Contribution(Some(content)) == FlatMap(Split(content, '\n'), LineEntries);
        envMap := SetLines(envMap, Split(content, '\n'), done);
    }
    assert sources[..|sources|] == sources;
    SourceEntriesValid(sources);
    BuildValid(SourceEntries(sources));
  }

  /** The inner loop: `set` the entry of every line of one file, in order. */
  method SetLines(envMap: EnvMap, lines: seq<string>, ghost before: seq<Entry>) returns (r: EnvMap)
    requires envMap == Build(before)
    ensures r == Build(before + FlatMap(lines, LineEntries))
  {
    r := envMap;
    assert FlatMap(lines[..0], LineEntries) == [];
    assert before + [] == before;
    for j := 0 to |lines|
      invariant r == Build(before + FlatMap(lines[..j], LineEntries))
    {
      ghost var done := before + FlatMap(lines[..j], LineEntries);
      var parsed := LineEntries(lines[j]);
      SetStep(before, lines, j, parsed);
      if |parsed| == 1 {
        assert done + parsed == done + [parsed[0]];
        BuildSnoc(done, parsed[0]);
        r := Put(r, parsed[0].key, parsed[0].value);
      } else {
        assert done + parsed == done;
      }
    }
    assert lines[..|lines|] == lines;
  }

  lemma SetStep(before: seq<Entry>, lines: seq<string>, j: int, parsed: seq<Entry>)
    requires 0 <= j < |lines| && parsed == LineEntries(lines[j])
    ensures |parsed| <= 1
    ensures before + FlatMap(lines[..j + 1], LineEntries) == before + FlatMap(lines[..j], LineEntries) + parsed
  {
    FlatMapStep(lines, j, LineEntries);
  }

  lemma BuildSnoc(es: seq<Entry>, e: Entry)
    ensures Build(es + [e]) == Put(Build(es), e.key, e.value)
  {
    assert (es + [e])[..|es|] == es;
  }

  // ---------------------------------------------------------------------------
  // Properties of line parsing
  // ---------------------------------------------------------------------------

  /** A line without `=` yields no entry. */
  lemma ParseLineNoSeparator(line: string)
    requires '=' !in line
    ensures ParseLine(line) == None
  {
    SplitNoSep(line, '=');
  }

  /**
   Every line holding an `=` has the shape `k=v` followed by nothing or by
   another `=`: it yields an entry exactly when the trimmed `k` and the trimmed
   `v` are both non-empty, and whatever follows a second `=` is ignored.
   */
  lemma ParseLineShape(k: string, v: string, tail: string)
    requires '=' !in k && '=' !in v
    requires tail == [] || tail[0] == '='
    ensures ParseLine(k + "=" + v + tail) ==
              if Trim(k) != "" && Trim(v) != "" then Some(Entry(Trim(k), Trim(v))) else None
  {
    assert k + "=" + v + tail == k + ['='] + (v + tail);
    SplitAtSep(k, v + tail, '=');
    SplitFirstPart(v, tail, '=');
  }

  /** Entries parsed from a single line (no line break) are valid. */
  lemma ParseLineValid(line: string)
    requires '\n' !in line
    ensures ParseLine(line).Some? ==> ValidEntry(ParseLine(line).value)
  {
    var parts := Split(line, '=');
    SplitAvoids(line, '=', '\n');
    assert parts[0] in parts;
    if |parts| >= 2 {
      assert parts[1] in parts;
    }
  }

  /** Every entry read from the sources is valid. */
  lemma SourceEntriesValid(sources: seq<Option<string>>)
    ensures forall e | e in SourceEntries(sources) :: ValidEntry(e)
  {
    forall e | e in SourceEntries(sources)
      ensures ValidEntry(e)
    {
      FlatMapMember(sources, Contribution, e);
      var i :| 0 <= i < |sources| && e in Contribution(sources[i]);
      var content := sources[i].value;
      var lines := Split(content, '\n');
      FlatMapMember(lines, LineEntries, e);
      var j :| 0 <= j < |lines| && e in LineEntries(lines[j]);
      assert lines[j] in lines;
      ParseLineValid(lines[j]);
    }
  }

  // ---------------------------------------------------------------------------
  // Properties of the fold
  // ---------------------------------------------------------------------------

  /** The map holds exactly the keys that occur among the entries. */
  lemma {:induction false} BuildHasKey(es: seq<Entry>, k: string)
    ensures HasKey(Build(es), k) <==> k in Keys(es)
    decreases |es|
  {
    if |es| > 0 {
      var init := es[..|es| - 1];
      BuildHasKey(init, k);
      KeysInit(es);
    }
  }

  /** Keys appear in the order of their first insertion, each once. */
  lemma {:induction false} BuildKeys(es: seq<Entry>)
    ensures Keys(Build(es)) == Dedup(Keys(es))
    decreases |es|
  {
    if |es| > 0 {
      var init := es[..|es| - 1];
      BuildKeys(init);
      BuildHasKey(init, es[|es| - 1].key);
      KeysInit(es);
      assert Keys(es)[..|es| - 1] == Keys(init);
    }
  }

  ghost predicate IsLastFor(es: seq<Entry>, i: int) {
    0 <= i < |es| && forall j | i < j < |es| :: es[j].key != es[i].key
  }

  /** The value stored for a key is the one of its last entry. */
  lemma {:induction false} BuildLastWins(es: seq<Entry>, i: int)
    requires IsLastFor(es, i)
    ensures Get(Build(es), es[i].key) == Some(es[i].value)
    decreases |es|
  {
    var init := es[..|es| - 1];
    var last := es[|es| - 1];
    PutGet(Build(init), last.key, last.value, es[i].key);
    if i < |es| - 1 {
      assert IsLastFor(init, i);
      BuildLastWins(init, i);
    }
  }

  /** `set` keeps a valid map valid when the new entry is valid. */
  lemma PutValid(m: EnvMap, e: Entry)
    requires ValidEnvMap(m) && ValidEntry(e)
    ensures ValidEnvMap(Put(m, e.key, e.value))
  {
    var r := Put(m, e.key, e.value);
    assert forall i | 0 <= i < |r| :: r[i] in r;
    if !HasKey(m, e.key) {
      var ks := Keys(m);
      assert Keys(r) == ks + [e.key];
      forall i, j | 0 <= i < j < |ks| + 1
        ensures Keys(r)[i] != Keys(r)[j]
      {
        if j == |ks| {
          assert Keys(r)[i] == ks[i];
        }
      }
    }
  }

  /** Building preserves validity of its entries and never duplicates a key. */
  lemma {:induction false} BuildValid(es: seq<Entry>)
    requires forall e | e in es :: ValidEntry(e)
    ensures ValidEnvMap(Build(es))
    decreases |es|
  {
    if |es| > 0 {
      var init := es[..|es| - 1];
      assert forall x | x in init :: x in es;
      BuildValid(init);
      PutValid(Build(init), es[|es| - 1]);
    }
  }

  /**
   Folding more entries after `es1` keeps the keys of `es1` first, in their
   positions, and a key set again by `es2` takes the value from `es2`.
   */
  lemma {:induction false} BuildAppend(es1: seq<Entry>, es2: seq<Entry>, k: string)
    ensures Keys(Build(es1)) <= Keys(Build(es1 + es2))
    ensures Get(Build(es1 + es2), k) ==
              if HasKey(Build(es2), k) then Get(Build(es2), k) else Get(Build(es1), k)
    decreases |es2|
  {
    if |es2| == 0 {
      assert es1 + es2 == es1;
    } else {
      var init := es2[..|es2| - 1];
      var last := es2[|es2| - 1];
      assert (es1 + es2)[..|es1 + es2| - 1] == es1 + init;
      assert (es1 + es2)[|es1 + es2| - 1] == last;
      BuildAppend(es1, init, k);
      PutGet(Build(es1 + init), last.key, last.value, k);
      PutGet(Build(init), last.key, last.value, k);
      BuildHasKey(init, k);
      BuildHasKey(es2, k);
      KeysInit(es2);
    }
  }

  /** A source that does not exist contributes nothing. */
  lemma MissingSourceSkipped(a: seq<Option<string>>, b: seq<Option<string>>)
    ensures SourceEntries(a + [None] + b) == SourceEntries(a + b)
  {
    var none: seq<Option<string>> := [None];
    assert none[..0] == [];
    assert FlatMap(none, Contribution) == [];
    FlatMapAppend(a + none, b, Contribution);
    FlatMapAppend(a, none, Contribution);
    FlatMapAppend(a, b, Contribution);
  }

  /**
   A key that a later source file sets takes that file's value, whatever the
   earlier files said.
   */
  lemma LaterSourceWins(earlier: seq<Option<string>>, content: string, k: string)
    requires HasKey(Build(ContentEntries(content)), k)
    ensures Get(Build(SourceEntries(earlier + [Some(content)])), k) == Get(Build(ContentEntries(content)), k)
  {
    var one: seq<Option<string>> := [Some(content)];
    assert one[..0] == [];
    assert FlatMap(one, Contribution) == ContentEntries(content);
    FlatMapAppend(earlier, one, Contribution);
    BuildAppend(SourceEntries(earlier), ContentEntries(content), k);
  }
}
