/** The transform as a whole (transform-workers.js lines 44-68 and
    146-202): collect the `.js` files below the source directory, gather
    the set of worker files they reference, read each worker file once into
    a registry, then rewrite every `.js` file against that registry.

    Console output becomes a returned log of diagnostics and
    `process.exit(1)` a returned exit status; the file system is a value
    that the run returns updated. */
module Pipeline {
  import opened Wrappers
  import opened Paths
  import opened Collector
  import opened Scanner
  import opened Rewriter

  // ---------------------------------------------------------------------
  // `findReferencedWorkers` (lines 49-68)

  /** `set.add(key)` on a JavaScript Set listed in insertion order: a new
      key goes at the end, a known key changes nothing. */
  function Add(ws: seq<Path>, key: Path): (r: seq<Path>)
  {
    if key in ws then ws else ws + [key]
  }

  /** Adds the keys one after the other. */
  function AddAll(ws: seq<Path>, keys: seq<Path>): seq<Path>
    decreases |keys|
  {
    if keys == [] then ws else AddAll(Add(ws, keys[0]), keys[1..])
  }

  /** Adding to the set is set union that keeps the first insertion order:
      no key is listed twice, the members are the old ones and the added
      ones, and the keys already present keep their place. */
  lemma {:induction false} AddAllIsUnion(ws: seq<Path>, keys: seq<Path>)
    ensures NoDuplicates(ws) ==> NoDuplicates(AddAll(ws, keys))
    ensures forall x :: x in AddAll(ws, keys) <==> x in ws || x in keys
    ensures ws <= AddAll(ws, keys)
    decreases |keys|
  {
    if keys != [] {
      var next := Add(ws, keys[0]);
      if NoDuplicates(ws) && keys[0] !in ws {
        assert NoDuplicates(next) by {
          forall i, j | 0 <= i < j < |next|
            ensures next[i] != next[j]
          {
            if j == |ws| {
              assert next[i] == ws[i];
            }
          }
        }
      }
      AddAllIsUnion(next, keys[1..]);
      assert forall x :: x in keys <==> x == keys[0] || x in keys[1..];
    }
  }

  /** The registry keys of the matches `ms` of the file `owner`. */
  function KeysOf(owner: Path, ms: seq<Match>): (keys: seq<Path>)
    ensures |keys| == |ms|
    ensures forall k | 0 <= k < |ms| :: keys[k] == WorkerKey(owner, ms[k].path)
  {
    if ms == [] then [] else [WorkerKey(owner, ms[0].path)] + KeysOf(owner, ms[1..])
  }

  /** The registry keys the scan of one file's text yields, in order. */
  function FileKeys(owner: Path, content: Text): seq<Path>
  {
    KeysOf(owner, Matches(content, 0))
  }

  /** `findReferencedWorkers` over the first files, where `keysOf` lists
      the keys one file's text references: the set so far, or the first
      file that could not be read (the exception escapes). The transform
      uses it with `keysOf` = FileKeys; the lemmas below hold for any. */
  function Gather(fs: FileSystem, files: seq<Path>, keysOf: (Path, Text) -> seq<Path>): Result<seq<Path>, Path>
    decreases |files|
  {
    if files == [] then Ok([])
    else
      match Gather(fs, files[..|files| - 1], keysOf)
      case Err(e) => Err(e)
      case Ok(ws) =>
        var f := files[|files| - 1];
        if f !in fs then Err(f) else Ok(AddAll(ws, keysOf(f, fs[f])))
  }

  /** The worker set of the transform. */
  function Referenced(fs: FileSystem, files: seq<Path>): Result<seq<Path>, Path>
  {
    Gather(fs, files, FileKeys)
  }

  /** Once a file fails to be read, the remaining files change nothing. */
  lemma {:induction false} GatherFailureStays(fs: FileSystem, keysOf: (Path, Text) -> seq<Path>, files: seq<Path>, n: nat)
    requires n <= |files| && Gather(fs, files[..n], keysOf).Err?
    ensures Gather(fs, files, keysOf) == Gather(fs, files[..n], keysOf)
    decreases |files| - n
  {
    if n < |files| {
      var init := files[..|files| - 1];
      assert init[..n] == files[..n];
      GatherFailureStays(fs, keysOf, init, n);
    } else {
      assert files[..n] == files;
    }
  }

  /** The scan fails exactly when some file cannot be read, and it reports
      the first such file. */
  lemma {:induction false} GatherFailsOnUnreadable(fs: FileSystem, keysOf: (Path, Text) -> seq<Path>, files: seq<Path>)
    ensures Gather(fs, files, keysOf).Err? <==> exists k | 0 <= k < |files| :: files[k] !in fs
    ensures Gather(fs, files, keysOf).Err? ==>
              exists k | 0 <= k < |files| :: files[k] == Gather(fs, files, keysOf).error && files[k] !in fs
                && forall j | 0 <= j < k :: files[j] in fs
    decreases |files|
  {
    if files != [] {
      var init := files[..|files| - 1];
      GatherFailsOnUnreadable(fs, keysOf, init);
      assert forall k | 0 <= k < |init| :: init[k] == files[k];
    }
  }

  /** On success the set holds no path twice. */
  lemma {:induction false} GatherNoDuplicates(fs: FileSystem, keysOf: (Path, Text) -> seq<Path>, files: seq<Path>)
    requires Gather(fs, files, keysOf).Ok?
    ensures NoDuplicates(Gather(fs, files, keysOf).value)
    decreases |files|
  {
    if files != [] {
      var init := files[..|files| - 1];
      var f := files[|files| - 1];
      GatherNoDuplicates(fs, keysOf, init);
      AddAllIsUnion(Gather(fs, init, keysOf).value, keysOf(f, fs[f]));
    }
  }

  /** The file `f` is readable and references `key`. */
  predicate RefersTo(fs: FileSystem, keysOf: (Path, Text) -> seq<Path>, f: Path, key: Path)
  {
    f in fs && key in keysOf(f, fs[f])
  }

  /** Some file among `files` is readable and references `key`. */
  predicate ReferencedBy(fs: FileSystem, keysOf: (Path, Text) -> seq<Path>, files: seq<Path>, key: Path)
  {
    exists k | 0 <= k < |files| :: RefersTo(fs, keysOf, files[k], key)
  }

  /** On success a path is in the set exactly when some scanned file
      references it. */
  lemma {:induction false} GatherExact(fs: FileSystem, keysOf: (Path, Text) -> seq<Path>, files: seq<Path>, key: Path)
    requires Gather(fs, files, keysOf).Ok?
    ensures key in Gather(fs, files, keysOf).value <==> ReferencedBy(fs, keysOf, files, key)
    decreases |files|
  {
    if files != [] {
      var init := files[..|files| - 1];
      var last := |files| - 1;
      var f := files[last];
      var ws := Gather(fs, init, keysOf).value;
      assert Gather(fs, files, keysOf).value == AddAll(ws, keysOf(f, fs[f]));
      GatherExact(fs, keysOf, init, key);
      AddAllIsUnion(ws, keysOf(f, fs[f]));
      if key in Gather(fs, files, keysOf).value {
        if key in ws {
          var k :| 0 <= k < |init| && RefersTo(fs, keysOf, init[k], key);
          assert files[k] == init[k];
        } else {
          assert RefersTo(fs, keysOf, files[last], key);
        }
      }
      if ReferencedBy(fs, keysOf, files, key) {
        var k :| 0 <= k < |files| && RefersTo(fs, keysOf, files[k], key);
        if k < last {
          assert init[k] == files[k];
          assert ReferencedBy(fs, keysOf, init, key);
        }
      }
    }
  }

  /** `findReferencedWorkers` (lines 49-68): for each file, read it, then
      run the `exec` loop and add each resolved path to the set. */
  method FindReferencedWorkers(fs: FileSystem, jsFiles: seq<Path>) returns (r: Result<seq<Path>, Path>)
    ensures r == Referenced(fs, jsFiles)
  {
    var workerPaths: seq<Path> := [];
    for i := 0 to |jsFiles|
      invariant Gather(fs, jsFiles[..i], FileKeys) == Ok(workerPaths)
    {
      var jsFile := jsFiles[i];
      assert jsFiles[..i + 1][..i] == jsFiles[..i];
      if jsFile !in fs {
        GatherFailureStays(fs, FileKeys, jsFiles, i + 1);
        return Err(jsFile);
      }
      var content := fs[jsFile];
      ghost var before := workerPaths;
      var lastIndex := 0;
      var next := NextMatch(content, lastIndex);
      while next.Some?
        invariant lastIndex <= |content|
        invariant next == NextMatch(content, lastIndex)
        invariant AddAll(workerPaths, KeysOf(jsFile, Matches(content, lastIndex)))
                  == AddAll(before, FileKeys(jsFile, content))
        decreases |content| - lastIndex
      {
        MatchesStep(content, lastIndex);
        var rest := Matches(content, next.value.end);
        assert KeysOf(jsFile, [next.value] + rest)
               == [WorkerKey(jsFile, next.value.path)] + KeysOf(jsFile, rest);
        var resolvedPath := WorkerKey(jsFile, next.value.path);
        workerPaths := Add(workerPaths, resolvedPath);
        lastIndex := next.value.end;
        next := NextMatch(content, lastIndex);
      }
      MatchesStep(content, lastIndex);
    }
    assert jsFiles[..|jsFiles|] == jsFiles;
    return Ok(workerPaths);
  }

  // ---------------------------------------------------------------------
  // Reading the worker files (lines 170-179)

  /** The registry after reading the first worker files: each readable one
      maps to its text, an unreadable one is skipped. */
  function RegistryOf(fs: FileSystem, workers: seq<Path>): map<Path, Text>
    decreases |workers|
  {
    if workers == [] then map[]
    else
      var registry := RegistryOf(fs, workers[..|workers| - 1]);
      var w := workers[|workers| - 1];
      if w in fs then registry[w := fs[w]] else registry
  }

  /** The worker files that could not be read, in order. */
  function UnreadableOf(fs: FileSystem, workers: seq<Path>): seq<Path>
    decreases |workers|
  {
    if workers == [] then []
    else
      var w := workers[|workers| - 1];
      UnreadableOf(fs, workers[..|workers| - 1]) + (if w in fs then [] else [w])
  }

  /** The read loop of `main` (lines 171-179): every worker file is read
      once; a failure is a warning and the loop goes on. */
  method ReadWorkers(fs: FileSystem, workerFiles: seq<Path>)
    returns (workerContents: map<Path, Text>, unreadable: seq<Path>)
    ensures workerContents == RegistryOf(fs, workerFiles)
    ensures unreadable == UnreadableOf(fs, workerFiles)
  {
    workerContents := map[];
    unreadable := [];
    for i := 0 to |workerFiles|
      invariant workerContents == RegistryOf(fs, workerFiles[..i])
      invariant unreadable == UnreadableOf(fs, workerFiles[..i])
    {
      assert workerFiles[..i + 1][..i] == workerFiles[..i];
      var workerFile := workerFiles[i];
      if workerFile in fs {
        workerContents := workerContents[workerFile := fs[workerFile]];
      } else {
        unreadable := unreadable + [workerFile];
      }
    }
    assert workerFiles[..|workerFiles|] == workerFiles;
  }

  /** The registry holds exactly the readable worker files, each with its
      text, and exactly the others are reported unreadable. */
  lemma {:induction false} RegistryExact(fs: FileSystem, workers: seq<Path>, key: Path)
    ensures key in RegistryOf(fs, workers) <==> key in workers && key in fs
    ensures key in RegistryOf(fs, workers) ==> RegistryOf(fs, workers)[key] == fs[key]
    ensures key in UnreadableOf(fs, workers) <==> key in workers && key !in fs
    decreases |workers|
  {
    if workers != [] {
      var init := workers[..|workers| - 1];
      RegistryExact(fs, init, key);
      assert workers == init + [workers[|workers| - 1]];
    }
  }

  // ---------------------------------------------------------------------
  // The transform loop of `main` (lines 181-189)

  /** What the run reports, in order. */
  datatype Diagnostic =
    | Banner                         // line 153
    | Scanning(count: nat)           // line 160
    | FoundWorkers(paths: seq<Path>) // lines 166-167
    | UnreadableWorker(path: Path)   // line 177
    | MissingWorker(path: Path)      // line 118
    | Transformed(path: Path)        // line 187
    | NoneTransformed                // line 193
    | TransformedTotal(count: nat)   // line 195
    | Failed                         // line 199

  /** Diagnostics printed while rewriting files. */
  predicate RewritePhase(d: Diagnostic)
  {
    d.MissingWorker? || d.Transformed?
  }

  function MissingWarnings(missing: seq<Path>): (ds: seq<Diagnostic>)
    ensures |ds| == |missing|
    ensures forall k | 0 <= k < |ds| :: ds[k] == MissingWorker(missing[k])
  {
    if missing == [] then [] else [MissingWorker(missing[0])] + MissingWarnings(missing[1..])
  }

  function ReadWarnings(unreadable: seq<Path>): (ds: seq<Diagnostic>)
    ensures |ds| == |unreadable|
    ensures forall k | 0 <= k < |ds| :: ds[k] == UnreadableWorker(unreadable[k])
  {
    if unreadable == [] then [] else [UnreadableWorker(unreadable[0])] + ReadWarnings(unreadable[1..])
  }

  /** The state of the transform loop: the files, the diagnostics so far,
      `transformedCount`, and whether an exception escaped. */
  datatype Phase = Phase(fs: FileSystem, log: seq<Diagnostic>, count: nat, failed: bool)

  function TransformStep(registry: map<Path, Text>, ph: Phase, file: Path): Phase
  {
    if ph.failed then ph
    else
      match TransformSpec(ph.fs, file, registry)
      case Err(_) => ph.(failed := true)
      case Ok(o) =>
        Phase(o.fs, ph.log + MissingWarnings(o.missing) + (if o.changed then [Transformed(file)] else []),
              ph.count + (if o.changed then 1 else 0), false)
  }

  /** The transform loop over the first files. */
  function TransformPhase(fs: FileSystem, registry: map<Path, Text>, files: seq<Path>): Phase
    decreases |files|
  {
    if files == [] then Phase(fs, [], 0, false)
    else TransformStep(registry, TransformPhase(fs, registry, files[..|files| - 1]), files[|files| - 1])
  }

  lemma {:induction false} FailedPhaseStays(fs: FileSystem, registry: map<Path, Text>, files: seq<Path>, n: nat)
    requires n <= |files| && TransformPhase(fs, registry, files[..n]).failed
    ensures TransformPhase(fs, registry, files) == TransformPhase(fs, registry, files[..n])
    decreases |files| - n
  {
    if n < |files| {
      var init := files[..|files| - 1];
      assert init[..n] == files[..n];
      FailedPhaseStays(fs, registry, init, n);
    } else {
      assert files[..n] == files;
    }
  }

  /** The transform loop of `main`: one `transformFile` per `.js` file,
      counting the files it reports as transformed. */
  method TransformAll(fs: FileSystem, registry: map<Path, Text>, jsFiles: seq<Path>) returns (ph: Phase)
    ensures ph == TransformPhase(fs, registry, jsFiles)
  {
    var files := fs;
    var log: seq<Diagnostic> := [];
    var transformedCount := 0;
    for i := 0 to |jsFiles|
      invariant TransformPhase(fs, registry, jsFiles[..i]) == Phase(files, log, transformedCount, false)
    {
      assert jsFiles[..i + 1][..i] == jsFiles[..i];
      var r := TransformFile(files, jsFiles[i], registry);
      if r.Err? {
        FailedPhaseStays(fs, registry, jsFiles, i + 1);
        return Phase(files, log, transformedCount, true);
      }
      log := log + MissingWarnings(r.value.missing);
      files := r.value.fs;
      if r.value.changed {
        transformedCount := transformedCount + 1;
        log := log + [Transformed(jsFiles[i])];
      }
    }
    assert jsFiles[..|jsFiles|] == jsFiles;
    return Phase(files, log, transformedCount, false);
  }

  /** The loop only ever rewrites the files it is given, and it never
      creates or removes a file. */
  lemma {:induction false} TransformPhaseFrame(fs: FileSystem, registry: map<Path, Text>, files: seq<Path>)
    ensures TransformPhase(fs, registry, files).fs.Keys == fs.Keys
    ensures forall g | g in fs && g !in files :: TransformPhase(fs, registry, files).fs[g] == fs[g]
    decreases |files|
  {
    if files != [] {
      var init := files[..|files| - 1];
      TransformPhaseFrame(fs, registry, init);
      assert forall g | g in init :: g in files;
    }
  }

  /** Every file the loop reaches was readable when scanned, and the loop
      keeps every file, so the transform loop never fails. */
  lemma {:induction false} TransformPhaseSucceeds(fs: FileSystem, registry: map<Path, Text>, files: seq<Path>)
    requires forall k | 0 <= k < |files| :: files[k] in fs
    ensures !TransformPhase(fs, registry, files).failed
    decreases |files|
  {
    if files != [] {
      var init := files[..|files| - 1];
      assert forall k | 0 <= k < |init| :: init[k] == files[k];
      TransformPhaseSucceeds(fs, registry, init);
      TransformPhaseFrame(fs, registry, init);
      assert files[|files| - 1] in fs;
    }
  }

  /** The files with at least one match of the idiom, in order. */
  function FilesWithMatches(fs: FileSystem, files: seq<Path>): (r: seq<Path>)
    ensures |r| <= |files|
    decreases |files|
  {
    if files == [] then []
    else
      var f := files[|files| - 1];
      FilesWithMatches(fs, files[..|files| - 1])
      + (if f in fs && Matches(fs[f], 0) != [] then [f] else [])
  }

  /** `transformedCount` counts the files with at least one match, whether
      or not any of their references resolved. */
  lemma {:induction false} CountIsFilesWithMatches(fs: FileSystem, registry: map<Path, Text>, files: seq<Path>)
    requires NoDuplicates(files)
    requires forall k | 0 <= k < |files| :: files[k] in fs
    ensures TransformPhase(fs, registry, files).count == |FilesWithMatches(fs, files)|
    decreases |files|
  {
    if files != [] {
      var init := files[..|files| - 1];
      var f := files[|files| - 1];
      assert forall k | 0 <= k < |init| :: init[k] == files[k];
      assert f !in init;
      CountIsFilesWithMatches(fs, registry, init);
      TransformPhaseSucceeds(fs, registry, init);
      TransformPhaseFrame(fs, registry, init);
    }
  }

  // ---------------------------------------------------------------------
  // `main` (lines 149-202)

  /** What a run leaves behind. */
  datatype Outcome = Outcome(fs: FileSystem, log: seq<Diagnostic>, exitCode: int)

  function Summary(count: nat): Diagnostic
  {
    if count == 0 then NoneTransformed else TransformedTotal(count)
  }

  /** A run of the transform on the source directory `srcDir`, whose
      directory tree is `tree`, over the files `fs`. */
  function RunSpec(srcDir: Path, tree: Listing, fs: FileSystem): Outcome
  {
    match AllFiles(srcDir, tree)
    case None => Outcome(fs, [Banner] + [Failed], 1)
    case Some(all) =>
      var js := JsFiles(all);
      var head := [Banner] + [Scanning(|js|)];
      match Referenced(fs, js)
      case Err(_) => Outcome(fs, head + [Failed], 1)
      case Ok(workers) =>
        var prologue := head + [FoundWorkers(workers)] + ReadWarnings(UnreadableOf(fs, workers));
        var ph := TransformPhase(fs, RegistryOf(fs, workers), js);
        if ph.failed then Outcome(ph.fs, prologue + ph.log + [Failed], 1)
        else Outcome(ph.fs, prologue + ph.log + [Summary(ph.count)], 0)
  }

  /** `main` (lines 149-202), the phases in order: collection, scan, reading
      the workers, rewriting; an exception anywhere ends the run with
      status 1. */
  method TransformWorkers(srcDir: Path, tree: Listing, fs: FileSystem) returns (o: Outcome)
    ensures o == RunSpec(srcDir, tree, fs)
  {
    var log := [Banner];
    var allFiles := AllFiles(srcDir, tree);
    if allFiles.None? {
      return Outcome(fs, log + [Failed], 1);
    }
    var jsFiles := JsFiles(allFiles.value);
    log := log + [Scanning(|jsFiles|)];
    var found := FindReferencedWorkers(fs, jsFiles);
    if found.Err? {
      return Outcome(fs, log + [Failed], 1);
    }
    var workerFiles := found.value;
    log := log + [FoundWorkers(workerFiles)];
    var workerContents, unreadable := ReadWorkers(fs, workerFiles);
    log := log + ReadWarnings(unreadable);
    var ph := TransformAll(fs, workerContents, jsFiles);
    if ph.failed {
      return Outcome(ph.fs, log + ph.log + [Failed], 1);
    }
    return Outcome(ph.fs, log + ph.log + [Summary(ph.count)], 0);
  }

  /** The `.js` files the run scans, when collection succeeds. */
  predicate ScanFails(srcDir: Path, tree: Listing, fs: FileSystem)
  {
    AllFiles(srcDir, tree).None?
    || exists k | 0 <= k < |JsFiles(AllFiles(srcDir, tree).value)| :: JsFiles(AllFiles(srcDir, tree).value)[k] !in fs
  }

  /** The run exits with status 1 exactly when a directory below the source
      directory or a `.js` file cannot be read; it then has written no file.
      Otherwise it exits normally. */
  lemma ExitStatus(srcDir: Path, tree: Listing, fs: FileSystem)
    ensures var o := RunSpec(srcDir, tree, fs);
            (o.exitCode == 1 <==> ScanFails(srcDir, tree, fs))
            && (o.exitCode == 0 <==> !ScanFails(srcDir, tree, fs))
            && (o.exitCode == 1 ==> o.fs == fs && o.log[|o.log| - 1] == Failed)
  {
    var all := AllFiles(srcDir, tree);
    if all.Some? {
      var js := JsFiles(all.value);
      GatherFailsOnUnreadable(fs, FileKeys, js);
      match Referenced(fs, js)
      case Err(_) =>
      case Ok(workers) =>
        TransformPhaseSucceeds(fs, RegistryOf(fs, workers), js);
    }
  }

  /** The rewrite of a file looks up the very key that its scan added to
      the worker set (both are WorkerKey of the file and the literal path),
      so a reference resolves exactly when its worker file was readable and
      not empty when the registry was built. */
  lemma ReferenceResolvesIffReadable(fs: FileSystem, files: seq<Path>, i: nat, j: nat)
    requires Referenced(fs, files).Ok?
    requires i < |files| && files[i] in fs && j < |References(fs[files[i]])|
    ensures var key := WorkerKey(files[i], References(fs[files[i]])[j].workerPath);
            Resolves(RegistryOf(fs, Referenced(fs, files).value), key) <==> key in fs && fs[key] != []
  {
    var f := files[i];
    var key := WorkerKey(f, References(fs[f])[j].workerPath);
    ReferencesAreMatches(fs[f]);
    assert key == FileKeys(f, fs[f])[j];
    assert RefersTo(fs, FileKeys, files[i], key);
    GatherExact(fs, FileKeys, files, key);
    RegistryExact(fs, Referenced(fs, files).value, key);
  }

  /** Every diagnostic of the transform loop reports a rewrite. */
  lemma {:induction false} PhaseLogIsRewrite(fs: FileSystem, registry: map<Path, Text>, files: seq<Path>)
    ensures forall k | 0 <= k < |TransformPhase(fs, registry, files).log| ::
              RewritePhase(TransformPhase(fs, registry, files).log[k])
    decreases |files|
  {
    if files != [] {
      PhaseLogIsRewrite(fs, registry, files[..|files| - 1]);
      StepLogIsRewrite(registry, TransformPhase(fs, registry, files[..|files| - 1]), files[|files| - 1]);
    }
  }

  lemma AppendRewrites(a: seq<Diagnostic>, b: seq<Diagnostic>)
    requires forall k | 0 <= k < |a| :: RewritePhase(a[k])
    requires forall k | 0 <= k < |b| :: RewritePhase(b[k])
    ensures forall k | 0 <= k < |a + b| :: RewritePhase((a + b)[k])
  {
    assert forall k | |a| <= k < |a + b| :: (a + b)[k] == b[k - |a|];
  }

  /** One file of the transform loop adds only rewrite diagnostics. */
  lemma StepLogIsRewrite(registry: map<Path, Text>, ph: Phase, file: Path)
    requires forall k | 0 <= k < |ph.log| :: RewritePhase(ph.log[k])
    ensures forall k | 0 <= k < |TransformStep(registry, ph, file).log| ::
              RewritePhase(TransformStep(registry, ph, file).log[k])
  {
    if !ph.failed {
      match TransformSpec(ph.fs, file, registry)
      case Err(_) =>
      case Ok(o) =>
        var added := MissingWarnings(o.missing) + (if o.changed then [Transformed(file)] else []);
        assert forall k | 0 <= k < |added| :: RewritePhase(added[k]);
        AppendRewrites(ph.log, added);
    }
  }

  /** A log made of diagnostics that are not rewrites, then rewrites,
      then one closing line lists every unreadable-worker warning before
      every rewrite diagnostic. */
  lemma {:induction false} OrderOfParts(prologue: seq<Diagnostic>, phaseLog: seq<Diagnostic>, last: Diagnostic)
    requires forall k | 0 <= k < |prologue| :: !RewritePhase(prologue[k])
    requires forall k | 0 <= k < |phaseLog| :: RewritePhase(phaseLog[k])
    requires last.Failed? || last.NoneTransformed? || last.TransformedTotal?
    ensures var log := prologue + phaseLog + [last];
            forall i, j | 0 <= i < |log| && 0 <= j < |log| && log[i].UnreadableWorker? && RewritePhase(log[j]) ::
              i < j
  {
    var log := prologue + phaseLog + [last];
    assert forall k | 0 <= k < |prologue| :: log[k] == prologue[k];
    assert forall k | |prologue| <= k < |prologue| + |phaseLog| :: log[k] == phaseLog[k - |prologue|];
  }

  /** What the run prints before the rewrite holds no rewrite diagnostic. */
  lemma PrologueHasNoRewrite(count: nat, workers: seq<Path>, unreadable: seq<Path>)
    ensures var prologue := [Banner] + [Scanning(count)] + [FoundWorkers(workers)] + ReadWarnings(unreadable);
            forall k | 0 <= k < |prologue| :: !RewritePhase(prologue[k])
  {
    var warnings := ReadWarnings(unreadable);
    var prologue := [Banner] + [Scanning(count)] + [FoundWorkers(workers)] + warnings;
    assert forall k | 3 <= k < |prologue| :: prologue[k] == warnings[k - 3];
  }

  /** Phase order: every warning about an unreadable worker file comes
      before every diagnostic of the rewrite, so all worker files have been
      read before the first file is transformed. */
  lemma ReadsBeforeRewrites(srcDir: Path, tree: Listing, fs: FileSystem)
    ensures var log := RunSpec(srcDir, tree, fs).log;
            forall i, j | 0 <= i < |log| && 0 <= j < |log| && log[i].UnreadableWorker? && RewritePhase(log[j]) ::
              i < j
  {
    var all := AllFiles(srcDir, tree);
    if all.Some? {
      var js := JsFiles(all.value);
      match Referenced(fs, js)
      case Err(_) =>
        OrderOfParts([Banner] + [Scanning(|js|)], [], Failed);
        assert [Banner] + [Scanning(|js|)] + [] == [Banner] + [Scanning(|js|)];
      case Ok(workers) =>
        var ph := TransformPhase(fs, RegistryOf(fs, workers), js);
        PhaseLogIsRewrite(fs, RegistryOf(fs, workers), js);
        PrologueHasNoRewrite(|js|, workers, UnreadableOf(fs, workers));
        var prologue := [Banner] + [Scanning(|js|)] + [FoundWorkers(workers)] + ReadWarnings(UnreadableOf(fs, workers));
        OrderOfParts(prologue, ph.log, if ph.failed then Failed else Summary(ph.count));
    } else {
      OrderOfParts([Banner], [], Failed);
      assert [Banner] + [] == [Banner];
    }
  }

  /** When every `.js` file is listed once, a run that gets past the scan
      exits normally and reports as transformed exactly the `.js` files
      with at least one match. */
  lemma TransformedCount(srcDir: Path, tree: Listing, fs: FileSystem)
    requires AllFiles(srcDir, tree).Some?
    requires NoDuplicates(JsFiles(AllFiles(srcDir, tree).value))
    requires !ScanFails(srcDir, tree, fs)
    ensures var o := RunSpec(srcDir, tree, fs);
            var js := JsFiles(AllFiles(srcDir, tree).value);
            o.exitCode == 0 && o.log[|o.log| - 1] == Summary(|FilesWithMatches(fs, js)|)
  {
    var js := JsFiles(AllFiles(srcDir, tree).value);
    GatherFailsOnUnreadable(fs, FileKeys, js);
    var workers := Referenced(fs, js).value;
    TransformPhaseSucceeds(fs, RegistryOf(fs, workers), js);
    CountIsFilesWithMatches(fs, RegistryOf(fs, workers), js);
  }
}
