/** The worker reference scanner: the global regular expression
        new\s+Worker\s*\(\s*new\s+URL\s*\(\s*['"]([^'"]+)['"]\s*,\s*import\.meta\.url\s*\)\s*\)
    of transform-workers.js lines 53 and 95, and the `exec` loop that
    collects its matches (lines 59-64 and 98-104).

    The expression is matched by hand, left to right. Each repeated part is
    taken greedily. Every `\s*`, `\s+` and `[^'"]+` is followed by a
    character outside its own class, so giving back characters can never
    let the rest match: `Language.MatchAtIsTheMatch` proves the greedy matcher equal
    to the expression's language, and `Language.MatchIsUnique` that it
    admits one match at most, which is then what a backtracking engine
    finds. */
module Scanner {
  import opened Wrappers

  /** `\s`: WhiteSpace and LineTerminator code points. */
  predicate IsSpace(c: char)
  {
    var n := c as int;
    n == 0x09 || n == 0x0A || n == 0x0B || n == 0x0C || n == 0x0D || n == 0x20 || n == 0xA0
    || n == 0x1680 || (0x2000 <= n <= 0x200A) || n == 0x2028 || n == 0x2029 || n == 0x202F
    || n == 0x205F || n == 0x3000 || n == 0xFEFF
  }

  /** `['"]`. */
  predicate IsQuote(c: char)
  {
    c == '\'' || c == '"'
  }

  /** End of the longest run of `\s` starting at `i`. */
  function Spaces(s: Text, i: nat): (j: nat)
    requires i <= |s|
    ensures i <= j <= |s|
    ensures j == |s| || !IsSpace(s[j])
    decreases |s| - i
  {
    if i < |s| && IsSpace(s[i]) then Spaces(s, i + 1) else i
  }

  /** End of the longest run of `[^'"]` starting at `i`. */
  function PathEnd(s: Text, i: nat): (j: nat)
    requires i <= |s|
    ensures i <= j <= |s|
    ensures forall k | i <= k < j :: !IsQuote(s[k])
    ensures j == |s| || IsQuote(s[j])
    decreases |s| - i
  {
    if i < |s| && !IsQuote(s[i]) then PathEnd(s, i + 1) else i
  }

  /** `w` occurs in `s` at index `i`. */
  predicate HasAt(s: Text, i: nat, w: Text)
  {
    i + |w| <= |s| && s[i..i + |w|] == w
  }

  /** One element of the expression. */
  datatype Element =
    | Lit(w: Text)       // these characters, verbatim
    | Space(plus: bool)  // `\s+` when `plus`, otherwise `\s*`
    | Quote              // `['"]`
    | Group              // `([^'"]+)`, the one capture group

  /** Number of elements in the expression of lines 53 and 95. */
  const PatternLength: nat := 23

  /** Index of the capture group among the elements. */
  const GroupIndex: nat := 13

  /** Element `k` of the expression of lines 53 and 95. */
  function PatternAt(k: nat): (e: Element)
    ensures e.Group? <==> k == GroupIndex
  {
    if k == 0 then Lit("new") else if k == 1 then Space(true)
    else if k == 2 then Lit("Worker") else if k == 3 then Space(false)
    else if k == 4 then Lit("(") else if k == 5 then Space(false)
    else if k == 6 then Lit("new") else if k == 7 then Space(true)
    else if k == 8 then Lit("URL") else if k == 9 then Space(false)
    else if k == 10 then Lit("(") else if k == 11 then Space(false)
    else if k == 12 then Quote else if k == 13 then Group
    else if k == 14 then Quote else if k == 15 then Space(false)
    else if k == 16 then Lit(",") else if k == 17 then Space(false)
    else if k == 18 then Lit("import.meta.url") else if k == 19 then Space(false)
    else if k == 20 then Lit(")") else if k == 21 then Space(false)
    else Lit(")")
  }

  /** Where element `e`, taken greedily from index `i`, ends. */
  function Step(s: Text, i: nat, e: Element): (r: Option<nat>)
    requires i <= |s|
    ensures r.Some? ==> i <= r.value <= |s|
    ensures r.Some? && e.Lit? ==> HasAt(s, i, e.w) && r.value == i + |e.w|
    ensures r.Some? && e.Group? ==> i < r.value && forall k | i <= k < r.value :: !IsQuote(s[k])
  {
    match e
    case Lit(w) => if HasAt(s, i, w) then Some(i + |w|) else None
    case Space(plus) => var j := Spaces(s, i); if plus && j == i then None else Some(j)
    case Quote => if i < |s| && IsQuote(s[i]) then Some(i + 1) else None
    case Group => var j := PathEnd(s, i); if j == i then None else Some(j)
  }

  /** A match found at a given index: where it ends and what group 1 holds. */
  datatype Found = Found(end: nat, path: Text)

  /** A valid group 1: at least one character and no quote. */
  predicate IsPathLiteral(p: Text)
  {
    p != [] && forall k | 0 <= k < |p| :: !IsQuote(p[k])
  }

  /** Matches elements `k`, `k + 1`, ... of the expression one after the
      other from index `i`; `group` is what the capture group holds so far. */
  function Run(s: Text, i: nat, k: nat, group: Text): (r: Option<Found>)
    requires i <= |s|
    ensures r.Some? ==> i <= r.value.end <= |s|
    ensures r.Some? && k <= GroupIndex ==> IsPathLiteral(r.value.path)
    ensures r.Some? && k > GroupIndex ==> r.value.path == group
    ensures r.Some? && k < PatternLength && PatternAt(k).Lit? ==>
              HasAt(s, i, PatternAt(k).w) && i + |PatternAt(k).w| <= r.value.end
    decreases PatternLength - k
  {
    if k >= PatternLength then Some(Found(i, group))
    else
      match Step(s, i, PatternAt(k))
      case None => None
      case Some(j) => Run(s, j, k + 1, if k == GroupIndex then s[i..j] else group)
  }

  /** The expression anchored at index `i` (a sticky match). */
  function MatchAt(s: Text, i: nat): (r: Option<Found>)
    requires i <= |s|
    ensures r.Some? ==> i < r.value.end <= |s| && HasAt(s, i, "new")
    ensures r.Some? ==> IsPathLiteral(r.value.path)
  {
    Run(s, i, 0, [])
  }

  /** One reference found by the scan: where the matched text (group 0)
      starts and ends, and the literal path (group 1). */
  datatype Match = Match(start: nat, end: nat, path: Text)

  /** `m` is a match of the expression in `s`: its text is the slice of
      `s` at its start, and the expression anchored there finds exactly it. */
  predicate IsMatch(s: Text, m: Match)
  {
    m.start <= |s| && MatchAt(s, m.start) == Some(Found(m.end, m.path))
  }

  /** No match of the expression starts in `[from, to)`. */
  predicate NoMatchIn(s: Text, from: nat, to: nat)
  {
    forall p | from <= p < to && p <= |s| :: MatchAt(s, p).None?
  }

  /** One `exec` call on the global expression: the leftmost match that
      starts at or after `lastIndex`. */
  function NextMatch(s: Text, lastIndex: nat): (r: Option<Match>)
    requires lastIndex <= |s|
    ensures r.Some? ==> lastIndex <= r.value.start < r.value.end <= |s|
    decreases |s| - lastIndex
  {
    match MatchAt(s, lastIndex)
    case Some(f) => Some(Match(lastIndex, f.end, f.path))
    case None => if lastIndex == |s| then None else NextMatch(s, lastIndex + 1)
  }

  /** What `exec` reports is a match of the expression. */
  lemma {:induction false} NextMatchIsMatch(s: Text, lastIndex: nat)
    requires lastIndex <= |s|
    ensures NextMatch(s, lastIndex).Some? ==> IsMatch(s, NextMatch(s, lastIndex).value)
    decreases |s| - lastIndex
  {
    if MatchAt(s, lastIndex).None? && lastIndex < |s| {
      NextMatchIsMatch(s, lastIndex + 1);
    }
  }

  /** `exec` finds the leftmost match: none starts between `lastIndex` and
      the one it reports, and when it reports none, none starts at all. */
  lemma {:induction false} NextMatchIsLeftmost(s: Text, lastIndex: nat)
    requires lastIndex <= |s|
    ensures NextMatch(s, lastIndex).Some? ==> NoMatchIn(s, lastIndex, NextMatch(s, lastIndex).value.start)
    ensures NextMatch(s, lastIndex).None? ==> NoMatchIn(s, lastIndex, |s| + 1)
    decreases |s| - lastIndex
  {
    if MatchAt(s, lastIndex).None? && lastIndex < |s| {
      NextMatchIsLeftmost(s, lastIndex + 1);
      var r := NextMatch(s, lastIndex + 1);
      var to := if r.Some? then r.value.start else |s| + 1;
      forall p | lastIndex <= p < to && p <= |s|
        ensures MatchAt(s, p).None?
      {
        if p != lastIndex {
          assert lastIndex + 1 <= p;
        }
      }
    }
  }

  /** The reference definition of a global scan from `lastIndex`: each
      reported match is the leftmost one at or after the end of the one
      before, and after the last one no match starts. */
  predicate LeftmostScan(s: Text, lastIndex: nat, ms: seq<Match>)
    decreases ms
  {
    if ms == [] then NoMatchIn(s, lastIndex, |s| + 1)
    else
      lastIndex <= ms[0].start && IsMatch(s, ms[0]) && NoMatchIn(s, lastIndex, ms[0].start)
      && LeftmostScan(s, ms[0].end, ms[1..])
  }

  /** Every match the `exec` loop reports, starting from `lastIndex`. */
  function Matches(s: Text, lastIndex: nat): (ms: seq<Match>)
    requires lastIndex <= |s|
    decreases |s| - lastIndex
  {
    match NextMatch(s, lastIndex)
    case None => []
    case Some(m) => [m] + Matches(s, m.end)
  }

  /** The `exec` loop reports exactly the leftmost, non-overlapping matches. */
  lemma {:induction false} MatchesAreLeftmostScan(s: Text, lastIndex: nat)
    requires lastIndex <= |s|
    ensures LeftmostScan(s, lastIndex, Matches(s, lastIndex))
    decreases |s| - lastIndex
  {
    NextMatchIsLeftmost(s, lastIndex);
    NextMatchIsMatch(s, lastIndex);
    match NextMatch(s, lastIndex)
    case None =>
    case Some(m) =>
      MatchesAreLeftmostScan(s, m.end);
      var ms := Matches(s, lastIndex);
      assert ms[0] == m && ms[1..] == Matches(s, m.end);
  }

  /** Every reported match lies inside the text, after `lastIndex`. */
  lemma MatchesInside(s: Text, lastIndex: nat)
    requires lastIndex <= |s|
    ensures forall k | 0 <= k < |Matches(s, lastIndex)| ::
              lastIndex <= Matches(s, lastIndex)[k].start < Matches(s, lastIndex)[k].end <= |s|
  {
    var ms := Matches(s, lastIndex);
    MatchesAreLeftmostScan(s, lastIndex);
    LeftmostScanMatches(s, lastIndex, ms);
    forall k | 0 <= k < |ms|
      ensures lastIndex <= ms[k].start < ms[k].end <= |s|
    {
      MatchShape(s, ms[k]);
    }
  }

  /** One turn of the `exec` loop. */
  lemma MatchesStep(s: Text, lastIndex: nat)
    requires lastIndex <= |s|
    ensures NextMatch(s, lastIndex).None? ==> Matches(s, lastIndex) == []
    ensures NextMatch(s, lastIndex).Some? ==>
              var m := NextMatch(s, lastIndex).value;
              Matches(s, lastIndex) == [m] + Matches(s, m.end)
  {
  }

  /** The `exec` loop: call `exec` until it returns null, pushing each
      match (transform-workers.js lines 97-104). */
  method Scan(content: Text) returns (ms: seq<Match>)
    ensures ms == Matches(content, 0)
  {
    ms := [];
    var lastIndex := 0;
    var next := NextMatch(content, lastIndex);
    while next.Some?
      invariant lastIndex <= |content|
      invariant next == NextMatch(content, lastIndex)
      invariant ms + Matches(content, lastIndex) == Matches(content, 0)
      decreases |content| - lastIndex
    {
      MatchesStep(content, lastIndex);
      ms := ms + [next.value];
      lastIndex := next.value.end;
      next := NextMatch(content, lastIndex);
    }
  }

  /** Facts that follow from the reference definition, stated element by
      element: every reported match lies after `lastIndex` and inside `s`,
      its path is a non-empty, quote-free literal, and matches are reported
      in source order without overlapping. */
  lemma {:induction false} LeftmostScanMatches(s: Text, lastIndex: nat, ms: seq<Match>)
    requires LeftmostScan(s, lastIndex, ms)
    ensures forall k | 0 <= k < |ms| :: lastIndex <= ms[k].start && IsMatch(s, ms[k])
    decreases ms
  {
    if ms != [] {
      LeftmostScanMatches(s, ms[0].end, ms[1..]);
      forall k | 1 <= k < |ms|
        ensures lastIndex <= ms[k].start && IsMatch(s, ms[k])
      {
        assert ms[k] == ms[1..][k - 1];
      }
    }
  }

  /** A match found at `p` is the text `s[p..end]`, and its path is a
      non-empty, quote-free literal. */
  lemma MatchShape(s: Text, m: Match)
    requires IsMatch(s, m)
    ensures m.start < m.end <= |s| && HasAt(s, m.start, "new") && IsPathLiteral(m.path)
  {
    var r := MatchAt(s, m.start);
    assert r.Some? && r.value.end == m.end;
  }

  lemma {:induction false} LeftmostScanOrdered(s: Text, lastIndex: nat, ms: seq<Match>)
    requires LeftmostScan(s, lastIndex, ms)
    ensures forall k | 0 <= k < |ms| - 1 :: ms[k].end <= ms[k + 1].start
    decreases ms
  {
    if ms != [] {
      LeftmostScanOrdered(s, ms[0].end, ms[1..]);
      forall k | 0 <= k < |ms| - 1
        ensures ms[k].end <= ms[k + 1].start
      {
        assert ms[k + 1] == ms[1..][k];
        if k > 0 {
          assert ms[k] == ms[1..][k - 1];
        }
      }
    }
  }

  /** Every position where the expression matches lies inside a reported
      match: the scan misses nothing. */
  lemma {:induction false} LeftmostScanCovers(s: Text, lastIndex: nat, ms: seq<Match>, p: nat)
    requires LeftmostScan(s, lastIndex, ms)
    requires lastIndex <= p <= |s| && MatchAt(s, p).Some?
    ensures exists k | 0 <= k < |ms| :: ms[k].start <= p < ms[k].end
    decreases ms
  {
    if ms == [] {
      assert false;
    } else if p >= ms[0].end {
      LeftmostScanCovers(s, ms[0].end, ms[1..], p);
      var k :| 0 <= k < |ms[1..]| && ms[1..][k].start <= p < ms[1..][k].end;
      assert ms[k + 1] == ms[1..][k];
    } else if p < ms[0].start {
      assert false;
    } else {
      assert ms[0].start <= p < ms[0].end;
    }
  }


  /** The text before the path in the usual spelling of the idiom. */
  const IdiomHead: Text := "new Worker(new URL("

  /** The text after the path in the usual spelling of the idiom. */
  const IdiomTail: Text := "," + " " + "import.meta.url" + ")" + ")"

  /** The idiom in its usual spelling, with any pair of quotes. */
  function Idiom(open: char, path: Text, close: char): Text
  {
    IdiomHead + [open] + path + [close] + IdiomTail
  }

  /** A slice of a prefix of `s` is the same slice of `s`. */
  lemma SliceOfPrefix(s: Text, t: Text, i: nat, j: nat)
    requires |t| <= |s| && s[..|t|] == t && i <= j <= |t|
    ensures s[i..j] == t[i..j]
  {
    assert forall k | i <= k < j :: s[k] == t[k];
  }

  /** A literal element that is present is consumed. */
  lemma LitStep(s: Text, i: nat, k: nat, w: Text, g: Text)
    requires i <= |s| && k < PatternLength && PatternAt(k) == Lit(w) && HasAt(s, i, w)
    ensures Run(s, i, k, g) == Run(s, i + |w|, k + 1, g)
  {
    assert k != GroupIndex;
    assert Step(s, i, Lit(w)) == Some(i + |w|);
  }

  /** A quote element over a quote consumes it. */
  lemma QuoteStep(s: Text, i: nat, k: nat, g: Text)
    requires i < |s| && IsQuote(s[i]) && k < PatternLength && PatternAt(k) == Quote
    ensures Run(s, i, k, g) == Run(s, i + 1, k + 1, g)
  {
  }

  /** A `\s*` element before a character that is not a space consumes
      nothing. */
  lemma NoSpaceStep(s: Text, i: nat, k: nat, g: Text)
    requires i < |s| && !IsSpace(s[i]) && k < PatternLength && PatternAt(k) == Space(false)
    ensures Run(s, i, k, g) == Run(s, i, k + 1, g)
  {
  }

  /** A `\s*` or `\s+` element over exactly one space consumes it. */
  lemma OneSpaceStep(s: Text, i: nat, k: nat, plus: bool, g: Text)
    requires i + 1 < |s| && IsSpace(s[i]) && !IsSpace(s[i + 1]) && k < PatternLength && PatternAt(k) == Space(plus)
    ensures Run(s, i, k, g) == Run(s, i + 1, k + 1, g)
  {
    assert Spaces(s, i + 1) == i + 1;
  }

  /** The head of the idiom, piece by piece. */
  predicate HeadAt(s: Text)
  {
    |s| > 19 && HasAt(s, 0, "new") && s[3] == ' ' && HasAt(s, 4, "Worker") && HasAt(s, 10, "(")
    && HasAt(s, 11, "new") && s[14] == ' ' && HasAt(s, 15, "URL") && HasAt(s, 18, "(")
  }

  lemma HeadPieces(s: Text)
    requires |s| > 19 && s[..19] == IdiomHead
    ensures HeadAt(s)
  {
    var h := IdiomHead;
    assert h[0..3] == "new" && h[4..10] == "Worker" && h[10..11] == "(";
    assert h[11..14] == "new" && h[15..18] == "URL" && h[18..19] == "(";
    SliceOfPrefix(s, h, 0, 3);
    SliceOfPrefix(s, h, 4, 10);
    SliceOfPrefix(s, h, 10, 11);
    SliceOfPrefix(s, h, 11, 14);
    SliceOfPrefix(s, h, 15, 18);
    SliceOfPrefix(s, h, 18, 19);
    assert s[3] == h[3] && s[14] == h[14];
  }

  /** The elements before the opening quote consume the head exactly:
      `new\s+Worker\s*\(` ... */
  lemma RunHead(s: Text)
    requires HeadAt(s) && IsQuote(s[19])
    ensures Run(s, 0, 0, []) == Run(s, 19, 12, [])
  {
    RunNewWorker(s);
    assert s[15] == s[15..18][0];
    RunParenNew(s);
    RunUrlParen(s);
  }

  lemma RunNewWorker(s: Text)
    requires 10 <= |s| && HasAt(s, 0, "new") && s[3] == ' ' && HasAt(s, 4, "Worker")
    ensures Run(s, 0, 0, []) == Run(s, 10, 3, [])
  {
    assert s[4] == s[4..10][0];
    LitStep(s, 0, 0, "new", []);
    OneSpaceStep(s, 3, 1, true, []);
    LitStep(s, 4, 2, "Worker", []);
  }

  /** ... `\s*\(` ... */
  lemma RunParenNew(s: Text)
    requires 15 < |s| && HasAt(s, 10, "(") && HasAt(s, 11, "new") && s[14] == ' ' && s[15] == 'U'
    ensures Run(s, 10, 3, []) == Run(s, 15, 8, [])
  {
    assert s[10] == s[10..11][0];
    NoSpaceStep(s, 10, 3, []);
    LitStep(s, 10, 4, "(", []);
    RunNew(s);
  }

  /** ... `\s*new\s+` ... */
  lemma RunNew(s: Text)
    requires 15 < |s| && HasAt(s, 11, "new") && s[14] == ' ' && s[15] == 'U'
    ensures Run(s, 11, 5, []) == Run(s, 15, 8, [])
  {
    assert s[11] == s[11..14][0];
    NoSpaceStep(s, 11, 5, []);
    LitStep(s, 11, 6, "new", []);
    OneSpaceStep(s, 14, 7, true, []);
  }

  /** ... `URL\s*` ... */
  lemma RunUrlParen(s: Text)
    requires 19 < |s| && HasAt(s, 15, "URL") && HasAt(s, 18, "(") && IsQuote(s[19])
    ensures Run(s, 15, 8, []) == Run(s, 19, 12, [])
  {
    assert s[18] == s[18..19][0];
    LitStep(s, 15, 8, "URL", []);
    NoSpaceStep(s, 18, 9, []);
    RunParen(s);
  }

  /** ... `\(\s*`. */
  lemma RunParen(s: Text)
    requires 19 < |s| && HasAt(s, 18, "(") && IsQuote(s[19])
    ensures Run(s, 18, 10, []) == Run(s, 19, 12, [])
  {
    LitStep(s, 18, 10, "(", []);
    NoSpaceStep(s, 19, 11, []);
  }

  /** The tail of the idiom at `i`, piece by piece. */
  predicate TailAt(s: Text, i: nat)
  {
    i + 19 <= |s| && HasAt(s, i, ",") && s[i + 1] == ' ' && HasAt(s, i + 2, "import.meta.url")
    && HasAt(s, i + 17, ")") && HasAt(s, i + 18, ")")
  }

  lemma TailPieces(s: Text, i: nat)
    requires i + 19 <= |s| && s[i..i + 19] == IdiomTail
    ensures TailAt(s, i)
  {
    HasAtSplit(s, i, "," + " " + "import.meta.url" + ")", ")");
    HasAtSplit(s, i, "," + " " + "import.meta.url", ")");
    HasAtSplit(s, i, "," + " ", "import.meta.url");
    HasAtSplit(s, i, ",", " ");
    assert s[i + 1] == s[i + 1..i + 2][0];
  }

  /** `a + b` at `i` is `a` at `i` and `b` right after it. */
  lemma HasAtSplit(s: Text, i: nat, a: Text, b: Text)
    requires HasAt(s, i, a + b)
    ensures HasAt(s, i, a) && HasAt(s, i + |a|, b)
  {
    assert s[i..i + |a|] == (a + b)[..|a|];
    assert s[i + |a|..i + |a| + |b|] == (a + b)[|a|..];
  }

  /** The elements after the closing quote consume the tail exactly:
      `\s*,\s*import\.meta\.url` ... */
  lemma RunTail(s: Text, i: nat, g: Text)
    requires TailAt(s, i)
    ensures Run(s, i, 15, g) == Some(Found(i + 19, g))
  {
    RunCommaMeta(s, i, g);
    RunCloseClose(s, i, g);
  }

  lemma RunCommaMeta(s: Text, i: nat, g: Text)
    requires i + 17 <= |s| && HasAt(s, i, ",") && s[i + 1] == ' ' && HasAt(s, i + 2, "import.meta.url")
    ensures Run(s, i, 15, g) == Run(s, i + 17, 19, g)
  {
    assert s[i + 2] == s[i + 2..i + 17][0];
    RunComma(s, i, g);
    RunMeta(s, i + 2, g);
  }

  lemma RunMeta(s: Text, i: nat, g: Text)
    requires i + 15 <= |s| && HasAt(s, i, "import.meta.url")
    ensures Run(s, i, 18, g) == Run(s, i + 15, 19, g)
  {
    LitStep(s, i, 18, "import.meta.url", g);
  }

  lemma RunComma(s: Text, i: nat, g: Text)
    requires i + 2 < |s| && HasAt(s, i, ",") && s[i + 1] == ' ' && s[i + 2] == 'i'
    ensures Run(s, i, 15, g) == Run(s, i + 2, 18, g)
  {
    assert s[i] == s[i..i + 1][0];
    NoSpaceStep(s, i, 15, g);
    LitStep(s, i, 16, ",", g);
    OneSpaceStep(s, i + 1, 17, false, g);
  }

  /** ... `\s*\)\s*\)`. */
  lemma RunCloseClose(s: Text, i: nat, g: Text)
    requires i + 19 <= |s| && HasAt(s, i + 17, ")") && HasAt(s, i + 18, ")")
    ensures Run(s, i + 17, 19, g) == Some(Found(i + 19, g))
  {
    assert s[i + 17] == s[i + 17..i + 18][0] && s[i + 18] == s[i + 18..i + 19][0];
    NoSpaceStep(s, i + 17, 19, g);
    LitStep(s, i + 17, 20, ")", g);
    NoSpaceStep(s, i + 18, 21, g);
    LitStep(s, i + 18, 22, ")", g);
  }

  /** `[^'"]+` stops exactly at the closing quote. */
  lemma {:induction false} PathEndAtQuote(s: Text, i: nat, n: nat)
    requires i + n < |s| && IsQuote(s[i + n])
    requires forall k | i <= k < i + n :: !IsQuote(s[k])
    ensures PathEnd(s, i) == i + n
    decreases n
  {
    if n > 0 {
      PathEndAtQuote(s, i + 1, n - 1);
    }
  }

  /** Where the pieces of the idiom sit in `Idiom(...) + rest`. */
  lemma IdiomLayout(open: char, path: Text, close: char, rest: Text)
    ensures var s := Idiom(open, path, close) + rest;
            var n := |path|;
            |s| >= 40 + n && HeadAt(s) && s[19] == open && s[20..20 + n] == path
            && s[20 + n] == close && TailAt(s, 21 + n) && |Idiom(open, path, close)| == 40 + n
  {
    var s := Idiom(open, path, close) + rest;
    var n := |path|;
    assert s == IdiomHead + ([open] + path + [close] + IdiomTail + rest);
    assert s[..19] == IdiomHead;
    assert s[21 + n..21 + n + 19] == IdiomTail;
    HeadPieces(s);
    TailPieces(s, 21 + n);
  }

  /** The quotes and the capture group: `['"]([^'"]+)['"]`. */
  lemma RunQuotedPath(s: Text, n: nat)
    requires 21 + n <= |s| && IsQuote(s[19]) && IsQuote(s[20 + n]) && n > 0
    requires forall k | 20 <= k < 20 + n :: !IsQuote(s[k])
    ensures Run(s, 19, 12, []) == Run(s, 21 + n, 15, s[20..20 + n])
  {
    QuoteStep(s, 19, 12, []);
    RunGroup(s, n);
  }

  lemma RunGroup(s: Text, n: nat)
    requires 21 + n <= |s| && IsQuote(s[20 + n]) && n > 0
    requires forall k | 20 <= k < 20 + n :: !IsQuote(s[k])
    ensures Run(s, 20, 13, []) == Run(s, 21 + n, 15, s[20..20 + n])
  {
    PathEndAtQuote(s, 20, n);
    assert Run(s, 20, 13, []) == Run(s, 20 + n, 14, s[20..20 + n]);
    QuoteStep(s, 20 + n, 14, s[20..20 + n]);
  }

  /** A head, a quoted path and a tail in a row make a match at 0. */
  lemma MatchLaidOut(s: Text, n: nat)
    requires HeadAt(s) && TailAt(s, 21 + n) && n > 0
    requires IsQuote(s[19]) && IsQuote(s[20 + n])
    requires forall k | 20 <= k < 20 + n :: !IsQuote(s[k])
    ensures MatchAt(s, 0) == Some(Found(40 + n, s[20..20 + n]))
  {
    RunHead(s);
    RunQuotedPath(s, n);
    RunTail(s, 21 + n, s[20..20 + n]);
  }

  /** The idiom is recognised whatever the quotes (a double quote may even
      be closed by a single one) and whatever follows it, and group 1 is
      exactly the path between the quotes. */
  lemma IdiomMatches(open: char, path: Text, close: char, rest: Text)
    requires IsQuote(open) && IsQuote(close) && IsPathLiteral(path)
    ensures MatchAt(Idiom(open, path, close) + rest, 0)
            == Some(Found(|Idiom(open, path, close)|, path))
  {
    var s := Idiom(open, path, close) + rest;
    var n := |path|;
    IdiomLayout(open, path, close, rest);
    assert forall k | 20 <= k < 20 + n :: s[k] == path[k - 20];
    MatchLaidOut(s, n);
  }

  // ---------------------------------------------------------------------
  // Every match spells out `import.meta.url`, so a text without the
  // letter `m` holds no match at all.

  lemma {:induction false} RunNeedsMeta(s: Text, i: nat, k: nat, g: Text)
    requires i <= |s| && k <= 18 && Run(s, i, k, g).Some?
    ensures 'm' in s
    decreases 18 - k
  {
    if k == 18 {
      MetaAt(s, i, g);
    } else {
      var j := Step(s, i, PatternAt(k)).value;
      RunNeedsMeta(s, j, k + 1, if k == GroupIndex then s[i..j] else g);
    }
  }

  /** Element 18 is the literal `import.meta.url`. */
  lemma MetaAt(s: Text, i: nat, g: Text)
    requires i <= |s| && Run(s, i, 18, g).Some?
    ensures 'm' in s
  {
    LitNeeded(s, i, 18, "import.meta.url", g);
    assert s[i + 1] == s[i..i + 15][1] == 'm';
  }

  /** A run from a literal element needs that literal in place. */
  lemma LitNeeded(s: Text, i: nat, k: nat, w: Text, g: Text)
    requires i <= |s| && k < PatternLength && PatternAt(k) == Lit(w) && Run(s, i, k, g).Some?
    ensures HasAt(s, i, w)
  {
  }

  /** A text without the letter `m` holds no match. */
  lemma NoMetaNoMatch(s: Text)
    requires 'm' !in s
    ensures NoMatchIn(s, 0, |s| + 1)
  {
    forall p | 0 <= p <= |s|
      ensures MatchAt(s, p).None?
    {
      if MatchAt(s, p).Some? {
        RunNeedsMeta(s, p, 0, []);
      }
    }
  }
}
