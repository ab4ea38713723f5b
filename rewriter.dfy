/** Rewriting one source file (`transformFile`, transform-workers.js lines
    90-144): every reference the scan reports is looked up in the registry
    of worker sources; a resolvable one is replaced, at its first occurrence
    in the current text, by a self-invoking wrapper that carries the worker
    source in a template literal, and an unresolvable one is left as it is
    with one warning. The file is written back whenever the scan found at
    least one reference. */
module Rewriter {
  import opened Wrappers
  import opened Paths
  import opened Scanner
  import opened TemplateLiteral
  import opened Substitution

  /** The files the transform reads and writes: a path is readable exactly
      when it is a key. */
  type FileSystem = map<Path, Text>

  // ---------------------------------------------------------------------
  // The wrapper (lines 129-136). The template text of the source is laid
  // out line by line; each line ends in a line feed.

  /** The wrapper up to the template literal: the opening of the
      self-invoking function and the declaration of `__workerCode`. */
  const LiteralOpen: Text := "(function() {\n" + "    const " + "__workerCode = "

  /** What follows the template literal: the end of the declaration, then
      the lines that build the Blob, the object URL and the Worker. */
  const AfterLiteral: Text :=
    ";\n" + BlobLine + UrlLine + WorkerLine + RevokeLine + ReturnLine + "  })()"

  const BlobLine: Text :=
    "    const blob = " + "new Blob(" + "[__workerCode], " + "{ type: " + "'application/" + "javascript' });\n"
  const UrlLine: Text := "    const url = " + "URL.create" + "ObjectURL(blob);\n"
  const WorkerLine: Text := "    const worker = " + "new Worker(url);\n"
  const RevokeLine: Text := "    URL.revoke" + "ObjectURL(url);\n"
  const ReturnLine: Text := "    return worker;\n"

  /** Text in front of the escaped worker code, up to the opening backtick. */
  const WrapperHead: Text := LiteralOpen + "`"

  /** Text after the escaped worker code, from the closing backtick. */
  const WrapperTail: Text := "`" + AfterLiteral

  /** The inline worker for the given worker source: the escape chain of
      lines 123-126 between the two halves of the wrapper. */
  function InlineWorker(code: Text): Text
  {
    WrapperHead + EscapeChain(code) + WrapperTail
  }

  /** The template literal that the wrapper opens is read by a JavaScript
      engine as exactly the worker source (line terminators normalised),
      and it ends at the wrapper's own closing backtick, so the rest of the
      wrapper follows it unchanged. */
  lemma InlineWorkerEmbeds(code: Text)
    ensures InlineWorker(code) == LiteralOpen + "`" + (Escape(code) + "`" + AfterLiteral)
    ensures ReadBody(Escape(code) + "`" + AfterLiteral)
            == Closed(NormaliseLineEnds(code), |Escape(code)| + 1)
  {
    EscapeChainIsEscape(code);
    ReadEscaped(code, AfterLiteral);
  }

  // The letters `m` and `$` appear nowhere in the wrapper. Each line is
  // checked on its own to keep the proofs small.

  predicate Absent(c: char)
  {
    c == 'm' || c == '$'
  }

  lemma HeadLacks(c: char)
    requires Absent(c)
    ensures c !in WrapperHead
  {
    assert c !in "(function() {\n" && c !in "    const " && c !in "__workerCode = " && c !in "`";
  }

  lemma BlobLineLacks(c: char)
    requires Absent(c)
    ensures c !in BlobLine
  {
    BlobStartLacks(c);
    BlobEndLacks(c);
    assert BlobLine == ("    const blob = " + "new Blob(" + "[__workerCode], ")
                       + ("{ type: " + "'application/" + "javascript' });\n");
  }

  lemma BlobStartLacks(c: char)
    requires Absent(c)
    ensures c !in "    const blob = " + "new Blob(" + "[__workerCode], "
  {
    assert c !in "    const blob = ";
    assert c !in "new Blob(";
    assert c !in "[__workerCode], ";
  }

  lemma BlobEndLacks(c: char)
    requires Absent(c)
    ensures c !in "{ type: " + "'application/" + "javascript' });\n"
  {
    assert c !in "{ type: ";
    assert c !in "'application/";
    assert c !in "javascript' });\n";
  }

  lemma UrlAndWorkerLinesLack(c: char)
    requires Absent(c)
    ensures c !in UrlLine && c !in WorkerLine
  {
    assert c !in "    const url = " && c !in "URL.create" && c !in "ObjectURL(blob);\n";
    assert c !in "    const worker = " && c !in "new Worker(url);\n";
  }

  lemma LastLinesLack(c: char)
    requires Absent(c)
    ensures c !in RevokeLine && c !in ReturnLine && c !in ";\n" && c !in "  })()" && c !in "`"
  {
    assert c !in "    URL.revoke" && c !in "ObjectURL(url);\n";
  }

  lemma TailLacks(c: char)
    requires Absent(c)
    ensures c !in WrapperTail
  {
    BlobLineLacks(c);
    UrlAndWorkerLinesLack(c);
    LastLinesLack(c);
  }

  /** The wrapper skeleton holds no instance of the idiom: its only
      `new Worker(` is `new Worker(url)`, and it never spells
      `import.meta.url`. So the skeleton a rewrite inserts gives no later
      scan anything to find. */
  lemma SkeletonHasNoIdiom()
    ensures NoMatchIn(WrapperHead + WrapperTail, 0, |WrapperHead + WrapperTail| + 1)
  {
    HeadLacks('m');
    TailLacks('m');
    NoMetaNoMatch(WrapperHead + WrapperTail);
  }

  // ---------------------------------------------------------------------
  // References and the rewrite loop (lines 97-139)

  /** What the scan loop pushes for each match: the whole matched text
      (`match[0]`) and the literal path (`match[1]`). */
  datatype Reference = Reference(full: Text, workerPath: Text)

  /** Every match lies inside the text. */
  predicate Inside(content: Text, ms: seq<Match>)
  {
    forall k | 0 <= k < |ms| :: ms[k].start <= ms[k].end <= |content|
  }

  function ReferencesOf(content: Text, ms: seq<Match>): (refs: seq<Reference>)
    requires Inside(content, ms)
    ensures |refs| == |ms|
    ensures forall k | 0 <= k < |ms| ::
              refs[k] == Reference(content[ms[k].start..ms[k].end], ms[k].path)
  {
    if ms == [] then []
    else [Reference(content[ms[0].start..ms[0].end], ms[0].path)] + ReferencesOf(content, ms[1..])
  }

  /** The references the scan of `content` reports, in source order. */
  function References(content: Text): (refs: seq<Reference>)
  {
    MatchesInside(content, 0);
    ReferencesOf(content, Matches(content, 0))
  }

  /** Each reported reference is the text of a match of the expression,
      its path is a non-empty, quote-free literal, and there is a reference
      exactly when the expression matches somewhere. */
  lemma ReferencesAreMatches(content: Text)
    ensures var refs := References(content);
            var ms := Matches(content, 0);
            |refs| == |ms|
            && (refs == [] <==> NoMatchIn(content, 0, |content| + 1))
            && forall k | 0 <= k < |refs| ::
                 IsMatch(content, ms[k]) && refs[k].full == content[ms[k].start..ms[k].end]
                 && refs[k].workerPath == ms[k].path && IsPathLiteral(refs[k].workerPath)
  {
    var ms := Matches(content, 0);
    MatchesInside(content, 0);
    MatchesAreLeftmostScan(content, 0);
    LeftmostScanMatches(content, 0, ms);
    forall k | 0 <= k < |ms|
      ensures IsPathLiteral(ms[k].path)
    {
      MatchShape(content, ms[k]);
    }
    if ms != [] {
      var m := ms[0];
      assert IsMatch(content, m);
      assert !NoMatchIn(content, 0, |content| + 1) by {
        assert MatchAt(content, m.start).Some?;
      }
    }
  }

  /** `workerContents.get(resolvedPath)` is truthy: present and not the
      empty string. */
  predicate Resolves(registry: map<Path, Text>, key: Path)
  {
    key in registry && registry[key] != []
  }

  /** The state of the rewrite loop: the text so far and the resolved paths
      warned about so far. */
  datatype Progress = Progress(content: Text, missing: seq<Path>)

  /** One turn of the loop for the reference `ref` of the file `owner`. An
      unresolved reference leaves the text byte for byte as it is and adds
      one warning; a resolved one replaces the first occurrence of its
      matched text with the inline worker, keeping everything before and
      after it. */
  function RewriteStep(owner: Path, registry: map<Path, Text>, p: Progress, ref: Reference): (q: Progress)
    ensures var key := WorkerKey(owner, ref.workerPath);
            !Resolves(registry, key) ==> q == Progress(p.content, p.missing + [key])
    ensures var key := WorkerKey(owner, ref.workerPath);
            Resolves(registry, key) ==>
              var w := InlineWorker(registry[key]);
              q.missing == p.missing
              && (IndexOf(p.content, ref.full, 0).None? ==> q.content == p.content)
              && (IndexOf(p.content, ref.full, 0).Some? ==>
                    var i := IndexOf(p.content, ref.full, 0).value;
                    OccursAt(p.content, ref.full, i)
                    && |q.content| == |p.content| - |ref.full| + |w|
                    && q.content[..i] == p.content[..i]
                    && q.content[i..i + |w|] == w
                    && q.content[i + |w|..] == p.content[i + |ref.full|..])
  {
    var key := WorkerKey(owner, ref.workerPath);
    if !Resolves(registry, key) then Progress(p.content, p.missing + [key])
    else Progress(ReplaceFirst(p.content, ref.full, InlineWorker(registry[key])), p.missing)
  }

  /** The loop over the first references, one turn per reference. */
  function RewriteAll(owner: Path, registry: map<Path, Text>, start: Progress, refs: seq<Reference>): Progress
    decreases |refs|
  {
    if refs == [] then start
    else RewriteStep(owner, registry, RewriteAll(owner, registry, start, refs[..|refs| - 1]), refs[|refs| - 1])
  }

  /** The resolved paths of the references that do not resolve, in order. */
  function UnresolvedKeys(owner: Path, registry: map<Path, Text>, refs: seq<Reference>): (keys: seq<Path>)
    ensures |keys| <= |refs|
    decreases |refs|
  {
    if refs == [] then []
    else
      var key := WorkerKey(owner, refs[|refs| - 1].workerPath);
      UnresolvedKeys(owner, registry, refs[..|refs| - 1]) + (if Resolves(registry, key) then [] else [key])
  }

  /** The loop warns once for each unresolved reference, in order, and
      for no other. */
  lemma {:induction false} MissingAreUnresolved(owner: Path, registry: map<Path, Text>, start: Progress, refs: seq<Reference>)
    ensures RewriteAll(owner, registry, start, refs).missing
            == start.missing + UnresolvedKeys(owner, registry, refs)
    decreases |refs|
  {
    if refs != [] {
      MissingAreUnresolved(owner, registry, start, refs[..|refs| - 1]);
    }
  }

  /** When no reference resolves the text comes out byte for byte as it
      went in, with one warning per reference. */
  lemma {:induction false} NothingResolvedNothingChanged(owner: Path, registry: map<Path, Text>, start: Progress, refs: seq<Reference>)
    requires forall k | 0 <= k < |refs| :: !Resolves(registry, WorkerKey(owner, refs[k].workerPath))
    ensures RewriteAll(owner, registry, start, refs).content == start.content
    ensures |RewriteAll(owner, registry, start, refs).missing| == |start.missing| + |refs|
    decreases |refs|
  {
    if refs != [] {
      var init := refs[..|refs| - 1];
      assert forall k | 0 <= k < |init| :: init[k] == refs[k];
      NothingResolvedNothingChanged(owner, registry, start, init);
      assert !Resolves(registry, WorkerKey(owner, refs[|refs| - 1].workerPath));
    }
  }

  /** What `transformFile` does with a file: whether it returned true, the
      files afterwards and the warnings it printed. */
  datatype FileOutcome = FileOutcome(changed: bool, fs: FileSystem, missing: seq<Path>)

  /** `transformFile(file, registry)` as a function: a file that cannot be
      read fails (the exception escapes); a file without a match is neither
      written nor reported; a file with a match is written back, even when
      no reference resolved. Only `file` is ever written. */
  function TransformSpec(fs: FileSystem, file: Path, registry: map<Path, Text>): (r: Result<FileOutcome, Path>)
    ensures r.Err? <==> file !in fs
    ensures r.Err? ==> r.error == file
    ensures r.Ok? ==> (r.value.changed <==> Matches(fs[file], 0) != [])
    ensures r.Ok? && !r.value.changed ==> r.value.fs == fs && r.value.missing == []
    ensures r.Ok? ==> r.value.fs.Keys == fs.Keys
                           && forall g | g in fs && g != file :: r.value.fs[g] == fs[g]
  {
    if file !in fs then Err(file)
    else
      var content := fs[file];
      var refs := References(content);
      if refs == [] then Ok(FileOutcome(false, fs, []))
      else
        var p := RewriteAll(file, registry, Progress(content, []), refs);
        Ok(FileOutcome(true, fs[file := p.content], p.missing))
  }

  /** The rewrite loop of `transformFile` (lines 110-139): one turn per
      reference, in order, on the text as the previous turns left it. */
  method RewriteReferences(owner: Path, registry: map<Path, Text>, content: Text, matches: seq<Reference>)
    returns (newContent: Text, missing: seq<Path>)
    ensures Progress(newContent, missing) == RewriteAll(owner, registry, Progress(content, []), matches)
  {
    newContent := content;
    missing := [];
    for i := 0 to |matches|
      invariant Progress(newContent, missing) == RewriteAll(owner, registry, Progress(content, []), matches[..i])
    {
      assert matches[..i + 1][..i] == matches[..i];
      var key := WorkerKey(owner, matches[i].workerPath);
      if key !in registry || registry[key] == [] {
        missing := missing + [key];
        continue;
      }
      var escapedCode := EscapeChain(registry[key]);
      var inlineWorker := WrapperHead + escapedCode + WrapperTail;
      newContent := ReplaceFirst(newContent, matches[i].full, inlineWorker);
    }
    assert matches[..|matches|] == matches;
  }

  /** `transformFile` (lines 90-144): read the file (an exception when it
      cannot be read), scan it, return false when nothing matched, and
      otherwise rewrite and write it back. */
  method TransformFile(fs: FileSystem, file: Path, registry: map<Path, Text>) returns (r: Result<FileOutcome, Path>)
    ensures r == TransformSpec(fs, file, registry)
  {
    if file !in fs {
      return Err(file);
    }
    var content := fs[file];
    var ms := Scan(content);
    MatchesInside(content, 0);
    var matches := ReferencesOf(content, ms);
    if |matches| == 0 {
      return Ok(FileOutcome(false, fs, []));
    }
    var newContent, missing := RewriteReferences(file, registry, content, matches);
    return Ok(FileOutcome(true, fs[file := newContent], missing));
  }

  /** The scan of a text that is one occurrence of the idiom reports one
      reference: the whole text, with the path between the quotes, whatever
      the pair of quotes. */
  lemma SingleIdiomScan(open: char, path: Text, close: char)
    requires IsQuote(open) && IsQuote(close) && IsPathLiteral(path)
    ensures References(Idiom(open, path, close)) == [Reference(Idiom(open, path, close), path)]
  {
    var s := Idiom(open, path, close);
    IdiomMatches(open, path, close, []);
    assert s + [] == s;
    assert MatchAt(s, |s|).None?;
    assert Matches(s, |s|) == [];
    assert Matches(s, 0) == [Match(0, |s|, path)];
    assert s[0..|s|] == s;
  }

  // ---------------------------------------------------------------------
  // Line 138 as written. `newContent.replace(full, inlineWorker)` passes
  // the inline worker as a replacement template, so each `$&`, `$'`,
  // `` $` `` and `$$` in it is expanded (ECMA-262, 2024 edition, section
  // 22.1.3.19.1). The escape chain turns a `$` of the worker source into
  // `\$`, which leaves the `$` pattern intact.

  /** One turn of the loop with line 138 exactly as written. */
  function RewriteStepAsWritten(owner: Path, registry: map<Path, Text>, p: Progress, ref: Reference): (q: Progress)
    ensures var key := WorkerKey(owner, ref.workerPath);
            !Resolves(registry, key) ==> q == Progress(p.content, p.missing + [key])
    ensures var key := WorkerKey(owner, ref.workerPath);
            Resolves(registry, key) ==>
              q.missing == p.missing && (IndexOf(p.content, ref.full, 0).None? ==> q.content == p.content)
  {
    var key := WorkerKey(owner, ref.workerPath);
    if !Resolves(registry, key) then Progress(p.content, p.missing + [key])
    else Progress(ReplaceAsWritten(p.content, ref.full, InlineWorker(registry[key])), p.missing)
  }

  /** No `$&` and no `$'` anywhere in the code. */
  predicate NoDollarPair(code: Text)
  {
    forall i | 0 <= i < |code| - 1 :: code[i] == '$' ==> code[i + 1] != '&' && code[i + 1] != '\''
  }

  /** Worker source that the engine's replace copies literally once it is
      escaped and wrapped: no `$&`, no `$'`, and no `$` at the very end,
      whose escape `\$` would meet the wrapper's closing backtick. */
  predicate KeepsLiteral(code: Text)
  {
    NoDollarPair(code) && (code != [] ==> code[|code| - 1] != '$')
  }

  lemma NoDollarPairCons(c: char, rest: Text)
    ensures NoDollarPair([c] + rest) <==>
              NoDollarPair(rest) && !(c == '$' && rest != [] && (rest[0] == '&' || rest[0] == '\''))
  {
    var t := [c] + rest;
    if NoDollarPair(t) {
      forall i | 0 <= i < |rest| - 1 && rest[i] == '$' ensures rest[i + 1] != '&' && rest[i + 1] != '\'' {
        assert t[i + 1] == rest[i] && t[i + 2] == rest[i + 1];
      }
      if c == '$' && rest != [] {
        assert t[0] == c && t[1] == rest[0];
      }
    }
  }

  /** The escaped code holds a `$` pattern exactly when the code holds
      `$&` or `$'`: the escape puts a backslash after every other `$`. */
  lemma {:induction false} EscapePatterns(code: Text)
    ensures NoDollarPattern(Escape(code)) <==> NoDollarPair(code)
  {
    if code != [] {
      var c, rest := code[0], code[1..];
      EscapePatterns(rest);
      assert code == [c] + rest;
      NoDollarPairCons(c, rest);
      var e := EscapeChar(c);
      assert Escape(code) == e + Escape(rest);
      assert NoDollarPattern(e) && e[|e| - 1] == c;
      NoDollarPatternConcat(e, Escape(rest));
      if rest != [] {
        assert Escape(rest) == EscapeChar(rest[0]) + Escape(rest[1..]);
        assert Escape(rest)[0] == EscapeChar(rest[0])[0];
      }
    }
  }

  /** The inline worker gives the engine's replace nothing to expand
      exactly when the worker source keeps literal. */
  lemma InlineWorkerPatterns(code: Text)
    ensures NoDollarPattern(InlineWorker(code)) <==> KeepsLiteral(code)
  {
    EscapeChainIsEscape(code);
    var e := Escape(code);
    HeadLacks('$');
    TailLacks('$');
    assert NoDollarPattern(WrapperHead) && NoDollarPattern(WrapperTail);
    assert InlineWorker(code) == WrapperHead + (e + WrapperTail);
    assert WrapperTail[0] == '`';
    NoDollarPatternConcat(e, WrapperTail);
    NoDollarPatternConcat(WrapperHead, e + WrapperTail);
    EscapePatterns(code);
    if code != [] {
      EscapeLast(code);
    }
  }

  /** The step as written and the literal step agree whenever the worker
      source keeps literal. */
  lemma AsWrittenAgreesOnLiteralWorkers(owner: Path, registry: map<Path, Text>, p: Progress, ref: Reference)
    requires var key := WorkerKey(owner, ref.workerPath);
             key in registry ==> KeepsLiteral(registry[key])
    ensures RewriteStepAsWritten(owner, registry, p, ref) == RewriteStep(owner, registry, p, ref)
  {
    var key := WorkerKey(owner, ref.workerPath);
    if Resolves(registry, key) {
      InlineWorkerPatterns(registry[key]);
      AsWrittenIsLiteralWithoutPatterns(p.content, ref.full, InlineWorker(registry[key]));
    }
  }

  /** Every worker source in the registry keeps literal. */
  predicate LiteralWorkers(registry: map<Path, Text>)
  {
    forall key | key in registry :: KeepsLiteral(registry[key])
  }

  /** The rewrite loop with line 138 as written. */
  function RewriteAllAsWritten(owner: Path, registry: map<Path, Text>, start: Progress, refs: seq<Reference>): Progress
    decreases |refs|
  {
    if refs == [] then start
    else RewriteStepAsWritten(owner, registry, RewriteAllAsWritten(owner, registry, start, refs[..|refs| - 1]), refs[|refs| - 1])
  }

  /** `transformFile` with line 138 as written. */
  function TransformAsWritten(fs: FileSystem, file: Path, registry: map<Path, Text>): (r: Result<FileOutcome, Path>)
    ensures r.Err? <==> file !in fs
    ensures r.Ok? ==> (r.value.changed <==> Matches(fs[file], 0) != [])
    ensures r.Ok? ==> r.value.fs.Keys == fs.Keys
                           && forall g | g in fs && g != file :: r.value.fs[g] == fs[g]
  {
    if file !in fs then Err(file)
    else
      var content := fs[file];
      var refs := References(content);
      if refs == [] then Ok(FileOutcome(false, fs, []))
      else
        var p := RewriteAllAsWritten(file, registry, Progress(content, []), refs);
        Ok(FileOutcome(true, fs[file := p.content], p.missing))
  }

  lemma {:induction false} RewriteAllAgrees(owner: Path, registry: map<Path, Text>, start: Progress, refs: seq<Reference>)
    requires LiteralWorkers(registry)
    ensures RewriteAllAsWritten(owner, registry, start, refs) == RewriteAll(owner, registry, start, refs)
    decreases |refs|
  {
    if refs != [] {
      RewriteAllAgrees(owner, registry, start, refs[..|refs| - 1]);
      AsWrittenAgreesOnLiteralWorkers(owner, registry, RewriteAll(owner, registry, start, refs[..|refs| - 1]), refs[|refs| - 1]);
    }
  }

  /** When every worker source keeps literal, `transformFile` as written
      does exactly what the file specification says. */
  lemma TransformAgreesOnLiteralWorkers(fs: FileSystem, file: Path, registry: map<Path, Text>)
    requires LiteralWorkers(registry)
    ensures TransformAsWritten(fs, file, registry) == TransformSpec(fs, file, registry)
  {
    if file in fs {
      RewriteAllAgrees(file, registry, Progress(fs[file], []), References(fs[file]));
    }
  }

  /** The escape chain turns `$&` into `\\$&`. */
  lemma EscapeDollarAmpersand()
    ensures EscapeChain("$&") == "\\$&"
  {
    EscapeChainIsEscape("$&");
    assert Escape("&") == "&";
  }

  /** `\\$&` followed by text without `$` expands to a backslash, the
      matched text and that text. */
  lemma ExpandEscapedDollarAmpersand(tail: Text, matched: Text)
    requires '$' !in tail
    ensures Expand("\\$&" + tail, matched, [], []) == "\\" + matched + tail
  {
    var rest := "\\$&" + tail;
    assert rest[0] == '\\' && rest[1..] == "$&" + tail;
    ExpandMatched(tail, matched, [], []);
    ExpandNoDollar(tail, [], matched, [], []);
    assert tail + [] == tail;
  }

  /** The same between a head and a tail without `$`. */
  lemma ExpandBetween(head: Text, tail: Text, matched: Text)
    requires '$' !in head && '$' !in tail
    ensures Expand(head + "\\$&" + tail, matched, [], []) == head + "\\" + matched + tail
  {
    assert head + "\\$&" + tail == head + ("\\$&" + tail);
    ExpandNoDollar(head, "\\$&" + tail, matched, [], []);
    ExpandEscapedDollarAmpersand(tail, matched);
  }

  /** Expanding the inline worker of `$&` puts a backslash and the matched
      text where the worker source belongs. */
  lemma ExpandInlineDollarAmpersand(matched: Text)
    ensures Expand(InlineWorker("$&"), matched, [], []) == WrapperHead + "\\" + matched + WrapperTail
  {
    EscapeDollarAmpersand();
    HeadLacks('$');
    TailLacks('$');
    ExpandBetween(WrapperHead, WrapperTail, matched);
  }

  /** Replacing a whole text by `w`: the literal replace gives `w`, the
      engine's replace gives `w` expanded with nothing before or after. */
  lemma ReplaceWhole(full: Text, w: Text)
    ensures ReplaceFirst(full, full, w) == w
    ensures ReplaceAsWritten(full, full, w) == Expand(w, full, [], [])
  {
    assert full[0..|full|] == full;
    assert IndexOf(full, full, 0) == Some(0);
    assert full[..0] == [] && full[|full|..] == [];
  }

  /** The worker source `$&` is spliced into a file that holds one
      reference to it. The literal step embeds `\\$&`, which the engine
      reads back as `$&`; the step as written embeds a backslash followed
      by the whole matched reference instead. */
  lemma DollarAmpersandCorrupts(owner: Path, key: Path)
    requires key == WorkerKey(owner, "./w.js")
    ensures var content := Idiom('\'', "./w.js", '\'');
            var ref := Reference(content, "./w.js");
            var p := Progress(content, []);
            References(content) == [ref]
            && RewriteStep(owner, map[key := "$&"], p, ref).content == WrapperHead + "\\$&" + WrapperTail
            && RewriteStepAsWritten(owner, map[key := "$&"], p, ref).content
               == WrapperHead + "\\" + content + WrapperTail
            && RewriteStepAsWritten(owner, map[key := "$&"], p, ref) != RewriteStep(owner, map[key := "$&"], p, ref)
  {
    var content := Idiom('\'', "./w.js", '\'');
    assert IsPathLiteral("./w.js");
    SingleIdiomScan('\'', "./w.js", '\'');
    EscapeDollarAmpersand();
    ReplaceWhole(content, InlineWorker("$&"));
    ExpandInlineDollarAmpersand(content);
    assert |content| > 2;
  }

  /** The escape chain turns a lone `$` into `\\$`. */
  lemma EscapeDollar()
    ensures EscapeChain("$") == "\\$"
  {
    EscapeChainIsEscape("$");
  }

  /** `\\$` and a backtick, followed by text without `$`, expand to a
      backslash, the text before the match and that text. */
  lemma ExpandEscapedDollarBacktick(tail: Text, matched: Text, before: Text)
    requires '$' !in tail
    ensures Expand("\\$`" + tail, matched, before, []) == "\\" + before + tail
  {
    var rest := "\\$`" + tail;
    assert rest[0] == '\\' && rest[1..] == "$`" + tail;
    ExpandBefore(tail, matched, before, []);
    ExpandNoDollar(tail, [], matched, before, []);
    assert tail + [] == tail;
  }

  lemma AfterLiteralLacksDollar()
    ensures '$' !in AfterLiteral
  {
    TailLacks('$');
  }

  /** The same after a head without `$`. */
  lemma ExpandDollarBetween(head: Text, after: Text, matched: Text, before: Text)
    requires '$' !in head && '$' !in after
    ensures Expand(head + "\\$" + ("`" + after), matched, before, []) == head + "\\" + before + after
  {
    assert head + "\\$" + ("`" + after) == head + ("\\$`" + after);
    ExpandNoDollar(head, "\\$`" + after, matched, before, []);
    ExpandEscapedDollarBacktick(after, matched, before);
  }

  /** The inline worker of `$` holds its escape `\\$`. */
  lemma InlineDollar()
    ensures InlineWorker("$") == WrapperHead + "\\$" + WrapperTail
  {
    EscapeDollar();
  }

  /** Expanding the inline worker of `$` with nothing before the match:
      its escape `\\$` meets the closing backtick, and `` $` `` becomes
      the empty text before the match. */
  lemma ExpandInlineDollar(matched: Text)
    ensures Expand(InlineWorker("$"), matched, [], []) == WrapperHead + "\\" + AfterLiteral
  {
    InlineDollar();
    HeadLacks('$');
    AfterLiteralLacksDollar();
    ExpandDollarBetween(WrapperHead, AfterLiteral, matched, []);
    assert WrapperHead + "\\" + [] + AfterLiteral == WrapperHead + "\\" + AfterLiteral;
  }

  /** A file that is exactly one resolved reference: the literal step
      puts the inline worker in its place, the step as written its
      expansion with nothing before or after the match. */
  lemma WholeFileSteps(owner: Path, key: Path, code: Text, content: Text, path: Text)
    requires key == WorkerKey(owner, path) && code != []
    ensures var ref := Reference(content, path);
            var p := Progress(content, []);
            RewriteStep(owner, map[key := code], p, ref).content == InlineWorker(code)
            && RewriteStepAsWritten(owner, map[key := code], p, ref).content
               == Expand(InlineWorker(code), content, [], [])
  {
    ReplaceWhole(content, InlineWorker(code));
  }

  /** The worker source `$` is spliced into a file that holds one
      reference to it. The literal step embeds `\\$` before the closing
      backtick; the step as written drops that backtick, so the template
      literal is never closed. */
  lemma TrailingDollarCorrupts(owner: Path, key: Path)
    requires key == WorkerKey(owner, "./w.js")
    ensures var content := Idiom('\'', "./w.js", '\'');
            var ref := Reference(content, "./w.js");
            var p := Progress(content, []);
            References(content) == [ref]
            && RewriteStep(owner, map[key := "$"], p, ref).content == WrapperHead + "\\$" + WrapperTail
            && RewriteStepAsWritten(owner, map[key := "$"], p, ref).content
               == WrapperHead + "\\" + AfterLiteral
  {
    var content := Idiom('\'', "./w.js", '\'');
    assert IsPathLiteral("./w.js");
    SingleIdiomScan('\'', "./w.js", '\'');
    WholeFileSteps(owner, key, "$", content, "./w.js");
    InlineDollar();
    ExpandInlineDollar(content);
  }

  /** Running `transformFile` again on a file none of whose references
      resolve gives the same outcome: the file is written and reported
      again, with the same warnings, so re-running the transform is not a
      no-op. */
  lemma RerunRepeatsUnresolved(fs: FileSystem, file: Path, registry: map<Path, Text>)
    requires file in fs && References(fs[file]) != []
    requires forall k | 0 <= k < |References(fs[file])| ::
               !Resolves(registry, WorkerKey(file, References(fs[file])[k].workerPath))
    ensures TransformSpec(fs, file, registry).Ok? && TransformSpec(fs, file, registry).value.changed
    ensures TransformSpec(TransformSpec(fs, file, registry).value.fs, file, registry) == TransformSpec(fs, file, registry)
  {
    NothingResolvedNothingChanged(file, registry, Progress(fs[file], []), References(fs[file]));
    assert fs[file := fs[file]] == fs;
  }
}
