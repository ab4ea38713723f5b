/** `String.prototype.replace` with a string pattern and a string
    replacement (ECMA-262, 2024 edition, section 22.1.3.19), which line 138
    of transform-workers.js uses to put each inline worker in place of the
    matched text, and the literal first-occurrence replacement it is meant
    to perform.

    With a string pattern the replacement is still a template: GetSubstitution
    (section 22.1.3.19.1) expands `$$`, `$&`, `` $` `` and `$'`. */
module Substitution {
  import opened Wrappers

  /** GetSubstitution for a string pattern: no captures and no named groups.
      `matched` is the found text, `before` and `after` the text around it.
      `$n`, `$nn` and `$<` stay as they are when there are no captures, so
      copying their `$` and going on with the next character gives the same
      text as copying the whole reference. */
  function Expand(template: Text, matched: Text, before: Text, after: Text): (r: Text)
  {
    if template == [] then []
    else if template[0] == '$' && |template| >= 2 && template[1] == '$' then
      "$" + Expand(template[2..], matched, before, after)
    else if template[0] == '$' && |template| >= 2 && template[1] == '`' then
      before + Expand(template[2..], matched, before, after)
    else if template[0] == '$' && |template| >= 2 && template[1] == '&' then
      matched + Expand(template[2..], matched, before, after)
    else if template[0] == '$' && |template| >= 2 && template[1] == '\'' then
      after + Expand(template[2..], matched, before, after)
    else [template[0]] + Expand(template[1..], matched, before, after)
  }

  /** True when `$` is nowhere followed by one of the four characters that
      make a `$` pattern. */
  predicate NoDollarPattern(t: Text)
  {
    forall i | 0 <= i < |t| - 1 :: t[i] == '$' ==> t[i + 1] !in "$`&'"
  }

  /** A template without `$` patterns expands to itself. */
  lemma {:induction false} ExpandLiteral(t: Text, matched: Text, before: Text, after: Text)
    requires NoDollarPattern(t)
    ensures Expand(t, matched, before, after) == t
  {
    if t != [] {
      assert NoDollarPattern(t[1..]) by {
        forall i | 0 <= i < |t[1..]| - 1 && t[1..][i] == '$' ensures t[1..][i + 1] !in "$`&'" {
          assert t[i + 1] == '$';
        }
      }
      if t[0] == '$' && |t| >= 2 {
        assert t[1] !in "$`&'";
      }
      ExpandLiteral(t[1..], matched, before, after);
      assert t == [t[0]] + t[1..];
    }
  }

  /** The three replacement strings of the escape chain have no `$`
      pattern; the lone `$` at the end of the third is copied as it is. */
  lemma EscapeReplacementsAreLiteral(matched: Text, before: Text, after: Text)
    ensures Expand("\\\\", matched, before, after) == "\\\\"
    ensures Expand("\\`", matched, before, after) == "\\`"
    ensures Expand("\\$", matched, before, after) == "\\$"
  {
    ExpandLiteral("\\\\", matched, before, after);
    ExpandLiteral("\\`", matched, before, after);
    ExpandLiteral("\\$", matched, before, after);
  }

  /** Text without `$` is copied through expansion unchanged, whatever
      follows it. */
  lemma {:induction false} ExpandNoDollar(a: Text, rest: Text, matched: Text, before: Text, after: Text)
    requires '$' !in a
    ensures Expand(a + rest, matched, before, after) == a + Expand(rest, matched, before, after)
  {
    if a != [] {
      var t := a + rest;
      assert t[0] == a[0] != '$' && t[1..] == a[1..] + rest;
      assert Expand(t, matched, before, after) == [a[0]] + Expand(t[1..], matched, before, after);
      ExpandNoDollar(a[1..], rest, matched, before, after);
      assert [a[0]] + (a[1..] + Expand(rest, matched, before, after)) == a + Expand(rest, matched, before, after);
    } else {
      assert a + rest == rest;
    }
  }

  /** `$&` expands to the matched text. */
  lemma ExpandMatched(rest: Text, matched: Text, before: Text, after: Text)
    ensures Expand("$&" + rest, matched, before, after) == matched + Expand(rest, matched, before, after)
  {
    var t := "$&" + rest;
    assert t[0] == '$' && t[1] == '&' && t[2..] == rest;
  }

  /** `` $` `` expands to the text before the match. */
  lemma ExpandBefore(rest: Text, matched: Text, before: Text, after: Text)
    ensures Expand("$`" + rest, matched, before, after) == before + Expand(rest, matched, before, after)
  {
    var t := "$`" + rest;
    assert t[0] == '$' && t[1] == '`' && t[2..] == rest;
  }

  /** A `$` pattern of a concatenation lies inside one of the parts or is
      made by a `$` at the end of the first and a pattern character at the
      start of the second. */
  lemma NoDollarPatternConcat(a: Text, b: Text)
    ensures NoDollarPattern(a + b) <==>
              NoDollarPattern(a) && NoDollarPattern(b)
              && !(a != [] && b != [] && a[|a| - 1] == '$' && b[0] in "$`&'")
  {
    var t := a + b;
    if NoDollarPattern(t) {
      forall i | 0 <= i < |a| - 1 && a[i] == '$' ensures a[i + 1] !in "$`&'" {
        assert t[i] == a[i] && t[i + 1] == a[i + 1];
      }
      forall i | 0 <= i < |b| - 1 && b[i] == '$' ensures b[i + 1] !in "$`&'" {
        assert t[|a| + i] == b[i] && t[|a| + i + 1] == b[i + 1];
      }
      if a != [] && b != [] && a[|a| - 1] == '$' {
        assert t[|a| - 1] == '$' && t[|a|] == b[0];
      }
    }
    if NoDollarPattern(a) && NoDollarPattern(b) && !(a != [] && b != [] && a[|a| - 1] == '$' && b[0] in "$`&'") {
      forall i | 0 <= i < |t| - 1 && t[i] == '$' ensures t[i + 1] !in "$`&'" {
        if i + 1 < |a| {
          assert a[i] == t[i] && a[i + 1] == t[i + 1];
        } else if i >= |a| {
          assert b[i - |a|] == t[i] && b[i - |a| + 1] == t[i + 1];
        } else {
          assert a[|a| - 1] == t[i] && b[0] == t[i + 1];
        }
      }
    }
  }

  /** `pat` occurs in `s` at index `p`. */
  predicate OccursAt(s: Text, pat: Text, p: nat)
  {
    p + |pat| <= |s| && s[p..p + |pat|] == pat
  }

  /** Index of the first occurrence of `pat` in `s` at or after `from`
      (StringIndexOf). */
  function IndexOf(s: Text, pat: Text, from: nat): (r: Option<nat>)
    requires from <= |s|
    ensures r.Some? ==> from <= r.value && OccursAt(s, pat, r.value)
    ensures r.Some? ==> forall p | from <= p < r.value :: !OccursAt(s, pat, p)
    ensures r.None? ==> forall p | from <= p :: !OccursAt(s, pat, p)
    decreases |s| - from
  {
    if from + |pat| > |s| then None
    else if s[from..from + |pat|] == pat then Some(from)
    else IndexOf(s, pat, from + 1)
  }

  /** `s.replace(pat, rep)` exactly as the engine runs it: the first
      occurrence of `pat` is replaced by `rep` after `$`-pattern expansion;
      with no occurrence `s` comes back unchanged. */
  function ReplaceAsWritten(s: Text, pat: Text, rep: Text): (r: Text)
  {
    match IndexOf(s, pat, 0)
    case None => s
    case Some(p) =>
      s[..p] + Expand(rep, pat, s[..p], s[p + |pat|..]) + s[p + |pat|..]
  }

  /** The literal first-occurrence replacement the transform intends
      (what `s.replace(pat, () => rep)` would do). */
  function ReplaceFirst(s: Text, pat: Text, rep: Text): (r: Text)
    ensures IndexOf(s, pat, 0).None? ==> r == s
    ensures IndexOf(s, pat, 0).Some? ==>
              var p := IndexOf(s, pat, 0).value;
              |r| == |s| - |pat| + |rep| && r[..p] == s[..p] && r[p..p + |rep|] == rep
              && r[p + |rep|..] == s[p + |pat|..]
  {
    match IndexOf(s, pat, 0)
    case None => s
    case Some(p) => s[..p] + rep + s[p + |pat|..]
  }

  /** Where the replacement has no `$` pattern, the engine's replace is
      the literal one. */
  lemma AsWrittenIsLiteralWithoutPatterns(s: Text, pat: Text, rep: Text)
    requires NoDollarPattern(rep)
    ensures ReplaceAsWritten(s, pat, rep) == ReplaceFirst(s, pat, rep)
  {
    var r := IndexOf(s, pat, 0);
    if r.Some? {
      ExpandLiteral(rep, pat, s[..r.value], s[r.value + |pat|..]);
    }
  }

  /** A `$&` in the replacement is turned into the matched text: the
      engine's replace and the literal one differ. */
  lemma DollarAmpersandExpands()
    ensures ReplaceAsWritten("ab", "b", "\\$&") == "a\\b"
    ensures ReplaceFirst("ab", "b", "\\$&") == "a\\$&"
  {
    var s := "ab";
    assert s[1..2] == ['b'];
    assert IndexOf(s, "b", 1) == Some(1);
    assert s[0..1] == ['a'] != "b";
    assert IndexOf(s, "b", 0) == IndexOf(s, "b", 1);
    var t := "\\$&";
    assert t[1..][1..][1..] == [];
    assert Expand(t[1..][1..][1..], "b", "a", "") == [];
  }
}
