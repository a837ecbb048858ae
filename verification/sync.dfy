/**
 One run of the sync command over a workspace: read the configured sources,
 choose the destination, rewrite it, write it back. The workspace is a map from
 relative path to file content; the workspace folder itself is the path `""`.
 */
module Sync {
  import opened Wrappers
  import opened Strings
  import opened Seqs
  import opened EnvFile
  import opened Template
  import opened MergeLaws

  /** The extension's settings that the sync reads. */
  datatype Config = Config(
    sourceFiles: seq<string>,
    destinationFiles: seq<string>,
    placeholderFormat: string,
    showNotifications: bool)

  /** Relative path to file content. */
  type Workspace = map<string, string>

  /** The path a relative name joins to when it is the workspace folder itself. */
  const Root: string := ""

  const IsDirectoryError: string := "EISDIR: illegal operation on a directory, read"
  const NoDestinationError: string := "The \"path\" argument must be of type string. Received undefined"

  /** `existsSync`: a file of the workspace, or the workspace folder. */
  predicate Exists(ws: Workspace, path: string) {
    path == Root || path in ws
  }

  /** `readFile`: reading the workspace folder throws. */
  function ReadFile(ws: Workspace, path: string): (r: Result<string>)
    requires Exists(ws, path)
    ensures r.Ok? <==> path != Root
    ensures r.Ok? ==> r.value == ws[path]
  {
    if path == Root then Err(IsDirectoryError) else Ok(ws[path])
  }

  // ---------------------------------------------------------------------------
  // Sources
  // ---------------------------------------------------------------------------

  /** What one configured source contributes: nothing when it does not exist. */
  function ReadSource(ws: Workspace, path: string): Result<Option<string>> {
    if Exists(ws, path) then
      var content :- ReadFile(ws, path);
      Ok(Some(content))
    else Ok(None)
  }

  /** Every source in configured order; the first one that cannot be read aborts the run. */
  function ReadSources(ws: Workspace, files: seq<string>): (r: Result<seq<Option<string>>>)
    ensures r.Err? <==> Root in files
    ensures r.Ok? ==> |r.value| == |files|
    ensures r.Ok? ==> forall i | 0 <= i < |files| ::
      r.value[i] == (if files[i] in ws then Some(ws[files[i]]) else None)
    decreases |files|
  {
    if |files| == 0 then Ok([])
    else
      var init := files[..|files| - 1];
      var last := files[|files| - 1];
      assert files == init + [last];
      var earlier :- ReadSources(ws, init);
      var one :- ReadSource(ws, last);
      Ok(earlier + [one])
  }

  /** Reading the sources depends only on the files they name. */
  lemma ReadSourcesFrame(ws: Workspace, ws': Workspace, files: seq<string>)
    requires forall p | p in files :: (p in ws <==> p in ws') && (p in ws ==> ws[p] == ws'[p])
    ensures ReadSources(ws, files) == ReadSources(ws', files)
  {
    var r := ReadSources(ws, files);
    var r' := ReadSources(ws', files);
    if r.Ok? {
      assert r'.Ok?;
      assert forall i | 0 <= i < |files| :: files[i] in files;
    }
  }

  // ---------------------------------------------------------------------------
  // Destination
  // ---------------------------------------------------------------------------

  /** `find` from index `i`: the first candidate that exists. */
  function FindExisting(ws: Workspace, cands: seq<string>, i: nat): (r: Option<nat>)
    requires i <= |cands|
    ensures r.Some? ==> i <= r.value < |cands| && Exists(ws, cands[r.value])
    ensures r.Some? ==> forall j | i <= j < r.value :: !Exists(ws, cands[j])
    ensures r.None? ==> forall j | i <= j < |cands| :: !Exists(ws, cands[j])
    decreases |cands| - i
  {
    if i == |cands| then None
    else if Exists(ws, cands[i]) then Some(i)
    else FindExisting(ws, cands, i + 1)
  }

  /**
   `existingDestFile || destinationFiles[0]`: the first existing candidate,
   unless none exists or it is the (falsy) empty name; an empty list makes the
   path join throw.
   */
  function ChooseDestination(ws: Workspace, cands: seq<string>): (r: Result<string>)
    ensures r.Err? <==> |cands| == 0
    ensures r.Ok? ==> r.value in cands
    ensures r.Ok? && r.value != cands[0] ==> Exists(ws, r.value) && r.value != Root
  {
    if |cands| == 0 then Err(NoDestinationError)
    else
      match FindExisting(ws, cands, 0)
      case Some(i) => if cands[i] != Root then Ok(cands[i]) else Ok(cands[0])
      case None => Ok(cands[0])
  }

  /** The first existing, non-empty candidate is chosen. */
  lemma ChooseFirstExisting(ws: Workspace, cands: seq<string>, i: nat)
    requires i < |cands| && Exists(ws, cands[i]) && cands[i] != Root
    requires forall j | 0 <= j < i :: !Exists(ws, cands[j])
    ensures ChooseDestination(ws, cands) == Ok(cands[i])
  {
    assert FindExisting(ws, cands, 0) == Some(i);
  }

  /** When no candidate other than the empty name exists, the first name is chosen. */
  lemma ChooseFallback(ws: Workspace, cands: seq<string>)
    requires |cands| > 0
    requires forall j | 0 <= j < |cands| :: !Exists(ws, cands[j]) || cands[j] == Root
    ensures ChooseDestination(ws, cands) == Ok(cands[0])
  {
    var f := FindExisting(ws, cands, 0);
    if f.Some? {
      assert cands[f.value] == Root;
    }
  }

  /**
   When the first existing candidate is the empty name, the first candidate is
   chosen, even if a later candidate exists.
   */
  lemma ChooseEmptyFirst(ws: Workspace, cands: seq<string>, i: nat)
    requires i < |cands| && cands[i] == Root
    requires forall j | 0 <= j < i :: !Exists(ws, cands[j])
    ensures ChooseDestination(ws, cands) == Ok(cands[0])
  {
    assert FindExisting(ws, cands, 0) == Some(i);
  }

  /** Once the chosen destination exists, the same one is chosen again. */
  lemma ChooseStable(ws: Workspace, cands: seq<string>, content: string)
    requires ChooseDestination(ws, cands).Ok?
    requires ChooseDestination(ws, cands).value != Root
    ensures ChooseDestination(ws[ChooseDestination(ws, cands).value := content], cands)
         == ChooseDestination(ws, cands)
  {
    var d := ChooseDestination(ws, cands).value;
    var ws' := ws[d := content];
    var f := FindExisting(ws, cands, 0);
    if f.Some? && cands[f.value] != Root {
      var i := f.value;
      forall j | 0 <= j < i
        ensures !Exists(ws', cands[j])
      {
        assert !Exists(ws, cands[j]);
      }
      ChooseFirstExisting(ws', cands, i);
    } else {
      assert d == cands[0];
      ChooseFirstExisting(ws', cands, 0);
    }
  }

  // ---------------------------------------------------------------------------
  // The command
  // ---------------------------------------------------------------------------

  /** The map the configured sources yield. */
  function SourceMap(sources: seq<Option<string>>): (m: EnvMap)
    ensures ValidEnvMap(m)
  {
    SourceEntriesValid(sources);
    BuildValid(SourceEntries(sources));
    Build(SourceEntries(sources))
  }

  /** A key is in the source map exactly when some source line carries it. */
  lemma SourceMapKeys(sources: seq<Option<string>>, k: string)
    ensures HasKey(SourceMap(sources), k) <==> k in Keys(SourceEntries(sources))
  {
    BuildHasKey(SourceEntries(sources), k);
  }

  /** The content the destination is rewritten from: empty when it does not exist yet. */
  function DestinationContent(ws: Workspace, dest: string): (r: Result<string>)
    ensures r.Err? <==> dest == Root
    ensures r.Ok? ==> r.value == if dest in ws then ws[dest] else ""
  {
    if Exists(ws, dest) then ReadFile(ws, dest) else Ok("")
  }

  /**
   One sync: read the sources, choose and read the destination, write the
   rewritten destination back. Returns the workspace after the write; an `Err`
   is the message the command shows, and nothing is written.
   */
  function SyncEnvFiles(cfg: Config, ws: Workspace): Result<Workspace> {
    var sources :- ReadSources(ws, cfg.sourceFiles);
    var dest :- ChooseDestination(ws, cfg.destinationFiles);
    var content :- DestinationContent(ws, dest);
    Ok(ws[dest := MergeText(SourceMap(sources), cfg.placeholderFormat, content)])
  }

  /** The sync fails exactly when a path names the workspace folder or no destination is configured. */
  lemma SyncFails(cfg: Config, ws: Workspace)
    ensures SyncEnvFiles(cfg, ws).Err? <==>
      Root in cfg.sourceFiles || |cfg.destinationFiles| == 0 ||
      ChooseDestination(ws, cfg.destinationFiles) == Ok(Root)
  {
  }

  /** A successful sync writes the chosen destination and no other file. */
  lemma SyncWritesDestinationOnly(cfg: Config, ws: Workspace)
    requires SyncEnvFiles(cfg, ws).Ok?
    ensures ChooseDestination(ws, cfg.destinationFiles).Ok?
    ensures var dest := ChooseDestination(ws, cfg.destinationFiles).value;
      var ws' := SyncEnvFiles(cfg, ws).value;
      ws'.Keys == ws.Keys + {dest} &&
      forall p | p in ws && p != dest :: ws'[p] == ws[p]
  {
    SyncReads(cfg, ws);
    var sources := ReadSources(ws, cfg.sourceFiles).value;
    var dest := ChooseDestination(ws, cfg.destinationFiles).value;
    var content := DestinationContent(ws, dest).value;
    SyncUnfold(cfg, ws, sources, dest, content);
    UpdateFrame(ws, dest, MergeText(SourceMap(sources), cfg.placeholderFormat, content));
  }

  lemma UpdateFrame(ws: Workspace, dest: string, text: string)
    ensures ws[dest := text].Keys == ws.Keys + {dest}
    ensures forall p | p in ws && p != dest :: ws[dest := text][p] == ws[p]
  {
  }

  /** The keys with a line in a rewritten text are exactly the keys of the map. */
  lemma TextKeys(m: EnvMap, format: string, content: string, k: string)
    requires ValidEnvMap(m) && '\n' !in format
    ensures k in LineKeys(Split(MergeText(m, format, content), '\n')) <==> HasKey(m, k)
  {
    var lines := DestinationLines(content);
    var out := MergeLinesOf(m, format, lines);
    MergeKeySet(m, format, lines, k);
    if |out| == 0 {
      assert Join(out, '\n') == "";
      assert Split("", '\n') == [""];
      EmptyLineKept(m, format);
      assert LineKeys(out) == [];
      NoKeysWithoutLines(m, format, lines);
    } else {
      DestinationNoNewlines(content);
      MergeNoNewlines(m, format, lines);
      SplitMerged(out);
    }
  }

  /**
   End to end: after a sync, a key has a line in the destination exactly when
   some existing source has a line with that key and a nonempty value.
   */
  lemma SyncKeys(cfg: Config, ws: Workspace, k: string)
    requires SyncEnvFiles(cfg, ws).Ok? && '\n' !in cfg.placeholderFormat
    ensures ReadSources(ws, cfg.sourceFiles).Ok? && ChooseDestination(ws, cfg.destinationFiles).Ok?
    ensures var dest := ChooseDestination(ws, cfg.destinationFiles).value;
      var sources := ReadSources(ws, cfg.sourceFiles).value;
      k in LineKeys(Split(SyncEnvFiles(cfg, ws).value[dest], '\n')) <==> k in Keys(SourceEntries(sources))
  {
    SyncReads(cfg, ws);
    var sources := ReadSources(ws, cfg.sourceFiles).value;
    var dest := ChooseDestination(ws, cfg.destinationFiles).value;
    var content := DestinationContent(ws, dest).value;
    TextKeys(SourceMap(sources), cfg.placeholderFormat, content, k);
    SourceMapKeys(sources, k);
  }

  /** Every line of a rewritten text that has a key is that key's placeholder line. */
  lemma TextRedacted(m: EnvMap, format: string, content: string)
    requires ValidEnvMap(m) && '\n' !in format
    ensures Redacted(Split(MergeText(m, format, content), '\n'), format)
  {
    var lines := DestinationLines(content);
    var out := MergeLinesOf(m, format, lines);
    if |out| == 0 {
      assert Join(out, '\n') == "";
      assert Split("", '\n') == [""];
      assert LineKey("") == "" by {
        assert Split("", '=') == [""];
      }
    } else {
      MergeShape(m, format, lines);
      DestinationNoNewlines(content);
      MergeNoNewlines(m, format, lines);
      SplitMerged(out);
    }
  }

  /** After a sync, no source value reaches the destination: every keyed line is a placeholder line. */
  lemma SyncRedacts(cfg: Config, ws: Workspace)
    requires SyncEnvFiles(cfg, ws).Ok? && '\n' !in cfg.placeholderFormat
    ensures ChooseDestination(ws, cfg.destinationFiles).Ok?
    ensures Redacted(Split(SyncEnvFiles(cfg, ws).value[ChooseDestination(ws, cfg.destinationFiles).value], '\n'),
                     cfg.placeholderFormat)
  {
    SyncReads(cfg, ws);
    var sources := ReadSources(ws, cfg.sourceFiles).value;
    var dest := ChooseDestination(ws, cfg.destinationFiles).value;
    var content := DestinationContent(ws, dest).value;
    TextRedacted(SourceMap(sources), cfg.placeholderFormat, content);
  }

  /**
   A second sync over the written workspace writes nothing new, provided the
   destination is not also a source and the first text has no whitespace at
   either end.
   */
  lemma SyncIdempotent(cfg: Config, ws: Workspace, dest: string, ws': Workspace)
    requires SyncEnvFiles(cfg, ws) == Ok(ws') && '\n' !in cfg.placeholderFormat
    requires ChooseDestination(ws, cfg.destinationFiles) == Ok(dest) && dest !in cfg.sourceFiles
    requires dest in ws' && IsTrimmed(ws'[dest])
    ensures SyncEnvFiles(cfg, ws') == Ok(ws')
  {
    SyncReads(cfg, ws);
    var sources := ReadSources(ws, cfg.sourceFiles).value;
    var content := DestinationContent(ws, dest).value;
    var text := MergeText(SourceMap(sources), cfg.placeholderFormat, content);
    assert ws' == ws[dest := text] by {
      SyncUnfold(cfg, ws, sources, dest, content);
    }
    SecondSync(cfg, ws, sources, dest, content);
  }

  /**
   A first sync into a destination that does not exist writes a blank first
   line before the key lines, and the next sync removes it: the file changes
   although no source did.
   */
  lemma SyncFreshDestination(cfg: Config, ws: Workspace, sources: seq<Option<string>>, dest: string)
    requires ReadSources(ws, cfg.sourceFiles) == Ok(sources)
    requires ChooseDestination(ws, cfg.destinationFiles) == Ok(dest)
    requires dest != Root && dest !in ws && dest !in cfg.sourceFiles
    requires |SourceMap(sources)| > 0 && '\n' !in cfg.placeholderFormat && IsTrimmed(cfg.placeholderFormat)
    ensures SyncEnvFiles(cfg, ws).Ok?
    ensures var ws' := SyncEnvFiles(cfg, ws).value;
      var keyText := Join(KeyLines(Keys(SourceMap(sources)), cfg.placeholderFormat), '\n');
      ws'[dest] == "\n" + keyText &&
      SyncEnvFiles(cfg, ws') == Ok(ws'[dest := keyText]) && ws'[dest := keyText] != ws'
  {
    var m := SourceMap(sources);
    var format := cfg.placeholderFormat;
    var text := MergeText(m, format, "");
    SyncUnfold(cfg, ws, sources, dest, "");
    EmptyDestinationDrift(m, format);
    FreshText(m, format);
    var ws' := ws[dest := text];
    SecondSyncReads(cfg, ws, sources, dest, text);
    SyncUnfold(cfg, ws', sources, dest, text);
    assert ws'[dest := MergeTextFixed(m, format, "")][dest] != ws'[dest];
  }

  /** A sync succeeds only when its three reads do. */
  lemma SyncReads(cfg: Config, ws: Workspace)
    requires SyncEnvFiles(cfg, ws).Ok?
    ensures ReadSources(ws, cfg.sourceFiles).Ok?
    ensures ChooseDestination(ws, cfg.destinationFiles).Ok?
    ensures DestinationContent(ws, ChooseDestination(ws, cfg.destinationFiles).value).Ok?
  {
  }

  /** The second sync, with the first one's reads named. */
  lemma SecondSync(cfg: Config, ws: Workspace, sources: seq<Option<string>>, dest: string, content: string)
    requires ReadSources(ws, cfg.sourceFiles) == Ok(sources)
    requires ChooseDestination(ws, cfg.destinationFiles) == Ok(dest)
    requires DestinationContent(ws, dest) == Ok(content)
    requires dest != Root && dest !in cfg.sourceFiles && '\n' !in cfg.placeholderFormat
    requires IsTrimmed(MergeText(SourceMap(sources), cfg.placeholderFormat, content))
    ensures var ws' := ws[dest := MergeText(SourceMap(sources), cfg.placeholderFormat, content)];
      SyncEnvFiles(cfg, ws') == Ok(ws')
  {
    var m := SourceMap(sources);
    var text := MergeText(m, cfg.placeholderFormat, content);
    var ws' := ws[dest := text];
    SecondSyncReads(cfg, ws, sources, dest, text);
    assert MergeText(m, cfg.placeholderFormat, text) == text by {
      MergeIdempotent(m, cfg.placeholderFormat, content);
    }
    SyncUnfold(cfg, ws', sources, dest, text);
    RewriteSame(ws', dest, text);
  }

  lemma RewriteSame(ws: Workspace, dest: string, text: string)
    requires dest in ws && ws[dest] == text
    ensures ws[dest := text] == ws
  {
  }

  /** After writing the destination, the next sync reads the same sources, the same destination and the written text. */
  lemma SecondSyncReads(cfg: Config, ws: Workspace, sources: seq<Option<string>>, dest: string, text: string)
    requires ReadSources(ws, cfg.sourceFiles) == Ok(sources)
    requires ChooseDestination(ws, cfg.destinationFiles) == Ok(dest)
    requires dest != Root && dest !in cfg.sourceFiles
    ensures ReadSources(ws[dest := text], cfg.sourceFiles) == Ok(sources)
    ensures ChooseDestination(ws[dest := text], cfg.destinationFiles) == Ok(dest)
    ensures DestinationContent(ws[dest := text], dest) == Ok(text)
  {
    ReadSourcesFrame(ws, ws[dest := text], cfg.sourceFiles);
    ChooseStable(ws, cfg.destinationFiles, text);
  }

  /** The sync's result once its three reads are known. */
  lemma SyncUnfold(cfg: Config, ws: Workspace, sources: seq<Option<string>>, dest: string, content: string)
    requires ReadSources(ws, cfg.sourceFiles) == Ok(sources)
    requires ChooseDestination(ws, cfg.destinationFiles) == Ok(dest)
    requires DestinationContent(ws, dest) == Ok(content)
    ensures SyncEnvFiles(cfg, ws) == Ok(ws[dest := MergeText(SourceMap(sources), cfg.placeholderFormat, content)])
  {
  }
}
