/** The language of the worker reference expression of transform-workers.js
    lines 53 and 95, with no preference among the ways of splitting a text
    between its elements. A backtracking engine may try those ways in any
    order; the greedy matcher of `Scanner` finds a match exactly when some
    split exists, and there is never more than one. */
module Language {
  import opened Wrappers
  import opened Scanner

  /** `s[i..j]` is a piece of text in the language of element `e` alone. */
  predicate Spans(s: Text, i: nat, j: nat, e: Element)
  {
    i <= j <= |s| &&
    match e
    case Lit(w) => s[i..j] == w
    case Space(plus) => (plus ==> i < j) && forall k | i <= k < j :: IsSpace(s[k])
    case Quote => j == i + 1 && IsQuote(s[i])
    case Group => i < j && forall k | i <= k < j :: !IsQuote(s[k])
  }

  /** Elements `k`, `k + 1`, ... of the expression match exactly `s[i..j]`
      when element `k + n` ends at `ends[n]`, and group 1 then holds `g`;
      `group` is what it holds before element `k`. */
  predicate Splits(s: Text, i: nat, k: nat, ends: seq<nat>, j: nat, group: Text, g: Text)
    decreases PatternLength - k
  {
    i <= j <= |s| &&
    if k >= PatternLength then ends == [] && i == j && g == group
    else
      ends != [] && i <= ends[0] <= j && Spans(s, i, ends[0], PatternAt(k))
      && Splits(s, ends[0], k + 1, ends[1..], j, if k == GroupIndex then s[i..ends[0]] else group, g)
  }

  /** The expression matches exactly `s[i..j]` for some choice of where
      each element ends, with group 1 holding `g`. */
  ghost predicate Derives(s: Text, i: nat, j: nat, g: Text)
  {
    exists ends :: Splits(s, i, 0, ends, j, [], g)
  }

  /** `Spaces` takes nothing but spaces. */
  lemma {:induction false} SpacesAreSpaces(s: Text, i: nat)
    requires i <= |s|
    ensures forall k | i <= k < Spaces(s, i) :: IsSpace(s[k])
    decreases |s| - i
  {
    if i < |s| && IsSpace(s[i]) {
      SpacesAreSpaces(s, i + 1);
    }
  }

  /** A greedy step takes a piece of the element's language. */
  lemma StepSpans(s: Text, i: nat, e: Element)
    requires i <= |s| && Step(s, i, e).Some?
    ensures Spans(s, i, Step(s, i, e).value, e)
  {
    if e.Space? {
      SpacesAreSpaces(s, i);
    }
  }

  /** Every run the greedy matcher completes is a split of the language:
      the ends of its greedy steps. */
  lemma {:induction false} RunSplits(s: Text, i: nat, k: nat, group: Text) returns (ends: seq<nat>)
    requires i <= |s| && Run(s, i, k, group).Some?
    ensures Splits(s, i, k, ends, Run(s, i, k, group).value.end, group, Run(s, i, k, group).value.path)
    decreases PatternLength - k
  {
    if k < PatternLength {
      var m := Step(s, i, PatternAt(k)).value;
      StepSpans(s, i, PatternAt(k));
      var rest := RunSplits(s, m, k + 1, if k == GroupIndex then s[i..m] else group);
      ends := [m] + rest;
      assert ends[0] == m && ends[1..] == rest;
    } else {
      ends := [];
    }
  }

  /** A run of `\s` up to a non-space is what `Spaces` takes. */
  lemma {:induction false} SpacesUpTo(s: Text, i: nat, m: nat)
    requires i <= m <= |s| && forall k | i <= k < m :: IsSpace(s[k])
    requires m == |s| || !IsSpace(s[m])
    ensures Spaces(s, i) == m
    decreases m - i
  {
    if i < m {
      SpacesUpTo(s, i + 1, m);
    }
  }

  /** A run of non-quotes up to a quote is what `PathEnd` takes. */
  lemma {:induction false} PathEndUpTo(s: Text, i: nat, m: nat)
    requires i <= m <= |s| && forall k | i <= k < m :: !IsQuote(s[k])
    requires m == |s| || IsQuote(s[m])
    ensures PathEnd(s, i) == m
    decreases m - i
  {
    if i < m {
      PathEndUpTo(s, i + 1, m);
    }
  }

  /** What follows a repeated element: the capture group is followed by
      a quote, and every `\s*` or `\s+` by a quote or by a literal whose
      first character is not a space. */
  lemma AfterRepeat(k: nat)
    requires k < PatternLength && (PatternAt(k).Space? || PatternAt(k).Group?)
    ensures k + 1 < PatternLength
    ensures PatternAt(k).Group? ==> PatternAt(k + 1).Quote?
    ensures PatternAt(k + 1).Quote?
            || (PatternAt(k + 1).Lit? && PatternAt(k + 1).w != [] && !IsSpace(PatternAt(k + 1).w[0]))
  {
  }

  /** A split from `m` whose first element is a quote or a non-empty
      literal starts with that quote or the literal's first character. */
  lemma SplitsFirst(s: Text, m: nat, k: nat, ends: seq<nat>, j: nat, group: Text, g: Text)
    requires k < PatternLength && Splits(s, m, k, ends, j, group, g)
    requires PatternAt(k).Quote? || (PatternAt(k).Lit? && PatternAt(k).w != [])
    ensures m < |s|
    ensures PatternAt(k).Quote? ==> IsQuote(s[m])
    ensures PatternAt(k).Lit? ==> s[m] == PatternAt(k).w[0]
  {
    if PatternAt(k).Lit? {
      assert s[m..ends[0]][0] == s[m];
    }
  }

  /** In a split, what follows a repeated element starts with a
      character that is not a space, and a quote when that element is the
      capture group. */
  lemma StopsRepeat(s: Text, m: nat, k: nat, ends: seq<nat>, j: nat, group: Text, g: Text)
    requires k < PatternLength && (PatternAt(k).Space? || PatternAt(k).Group?)
    requires Splits(s, m, k + 1, ends, j, group, g)
    ensures m < |s| && !IsSpace(s[m])
    ensures PatternAt(k).Group? ==> IsQuote(s[m])
  {
    AfterRepeat(k);
    SplitsFirst(s, m, k + 1, ends, j, group, g);
  }

  /** A `\s*` or `\s+` stopped by a non-space ends where `Spaces` does. */
  lemma SpaceStep(s: Text, i: nat, m: nat, plus: bool)
    requires Spans(s, i, m, Space(plus)) && m < |s| && !IsSpace(s[m])
    ensures Step(s, i, Space(plus)) == Some(m)
  {
    SpacesUpTo(s, i, m);
  }

  /** The capture group stopped by a quote ends where `PathEnd` does. */
  lemma GroupStep(s: Text, i: nat, m: nat)
    requires Spans(s, i, m, Group) && m < |s| && IsQuote(s[m])
    ensures Step(s, i, Group) == Some(m)
  {
    PathEndUpTo(s, i, m);
  }

  /** A piece of an element's language ends where the greedy step ends
      when what follows a repetition is a character it cannot take. */
  lemma ElementStep(s: Text, i: nat, m: nat, e: Element)
    requires Spans(s, i, m, e)
    requires e.Space? || e.Group? ==> m < |s| && !IsSpace(s[m])
    requires e.Group? ==> m < |s| && IsQuote(s[m])
    ensures Step(s, i, e) == Some(m)
  {
    match e
    case Lit(w) => assert HasAt(s, i, w);
    case Space(plus) => SpaceStep(s, i, m, plus);
    case Quote =>
    case Group => GroupStep(s, i, m);
  }

  /** Where a split lets element `k` end, the greedy step ends too: the
      element after a repeated one always starts with a character the
      repetition cannot take. */
  lemma SpansStep(s: Text, i: nat, m: nat, k: nat, ends: seq<nat>, j: nat, group: Text, g: Text)
    requires k < PatternLength
    requires Spans(s, i, m, PatternAt(k)) && Splits(s, m, k + 1, ends, j, group, g)
    ensures Step(s, i, PatternAt(k)) == Some(m)
  {
    if PatternAt(k).Space? || PatternAt(k).Group? {
      StopsRepeat(s, m, k, ends, j, group, g);
    }
    ElementStep(s, i, m, PatternAt(k));
  }

  /** Every split of the language is the one the greedy matcher finds. */
  lemma {:induction false} SplitsRun(s: Text, i: nat, k: nat, ends: seq<nat>, j: nat, group: Text, g: Text)
    requires Splits(s, i, k, ends, j, group, g)
    ensures Run(s, i, k, group) == Some(Found(j, g))
    decreases PatternLength - k
  {
    if k < PatternLength {
      var m := ends[0];
      var g' := if k == GroupIndex then s[i..m] else group;
      SpansStep(s, i, m, k, ends[1..], j, g', g);
      SplitsRun(s, m, k + 1, ends[1..], j, g', g);
    }
  }

  /** The expression anchored at `i` matches `s[i..j]` with group 1 `g`
      exactly when `MatchAt` reports that match. */
  lemma MatchAtIsTheMatch(s: Text, i: nat, j: nat, g: Text)
    requires i <= |s|
    ensures Derives(s, i, j, g) <==> MatchAt(s, i) == Some(Found(j, g))
  {
    if Derives(s, i, j, g) {
      var ends :| Splits(s, i, 0, ends, j, [], g);
      SplitsRun(s, i, 0, ends, j, [], g);
    }
    if MatchAt(s, i) == Some(Found(j, g)) {
      var ends := RunSplits(s, i, 0, []);
    }
  }

  /** At any index the language admits at most one match, so the order in
      which a backtracking engine tries the splits cannot change what it
      finds. */
  lemma MatchIsUnique(s: Text, i: nat, j1: nat, g1: Text, j2: nat, g2: Text)
    requires Derives(s, i, j1, g1) && Derives(s, i, j2, g2)
    ensures j1 == j2 && g1 == g2
  {
    var ends1 :| Splits(s, i, 0, ends1, j1, [], g1);
    var ends2 :| Splits(s, i, 0, ends2, j2, [], g2);
    SplitsRun(s, i, 0, ends1, j1, [], g1);
    SplitsRun(s, i, 0, ends2, j2, [], g2);
  }
}
