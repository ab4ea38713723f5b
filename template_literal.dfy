/** Embedding worker source in a JavaScript template literal
    (transform-workers.js lines 122-126 and 130).

    The transform escapes the worker code with three global replaces —
    backslashes first, then backticks, then dollar signs — and places the
    result between two backticks. This module defines that chain, its
    one-pass equivalent, the inverse that undoes the three escapes, and the
    way a JavaScript engine reads a template literal body (ECMA-262, 2024
    edition, section 12.9.6) so that what the engine recovers can be stated. */
module TemplateLiteral {
  import opened Wrappers

  // ---------------------------------------------------------------------
  // The escape chain

  /** `s.replace(/c/g, rep)`: every occurrence of `c` replaced by `rep`.
      The three replacement strings of the chain ("\\\\", "\\`" and "\\$")
      contain no `$` pattern that String.prototype.replace would expand (the
      lone `$` closing the third is copied as it is), so a plain replacement
      is exact here; see Substitution.EscapeReplacementsAreLiteral. */
  function ReplaceAllChar(s: Text, c: char, rep: Text): (r: Text)
  {
    if s == [] then []
    else (if s[0] == c then rep else [s[0]]) + ReplaceAllChar(s[1..], c, rep)
  }

  /** The chain exactly as written: backslashes, then backticks, then `$`. */
  function EscapeChain(code: Text): (r: Text)
  {
    ReplaceAllChar(ReplaceAllChar(ReplaceAllChar(code, '\\', "\\\\"), '`', "\\`"), '$', "\\$")
  }

  /** The three characters a template literal body treats specially. */
  predicate IsSpecial(c: char)
  {
    c == '\\' || c == '`' || c == '$'
  }

  /** The characters `c` becomes in the escaped text. */
  function EscapeChar(c: char): (r: Text)
  {
    if IsSpecial(c) then ['\\', c] else [c]
  }

  /** One pass over the code: every special character gets exactly one
      backslash in front, and nothing else changes. */
  function Escape(code: Text): (r: Text)
  {
    if code == [] then [] else EscapeChar(code[0]) + Escape(code[1..])
  }

  /** Escaping keeps the last character of the code last. */
  lemma {:induction false} EscapeLast(code: Text)
    requires code != []
    ensures Escape(code) != [] && Escape(code)[|Escape(code)| - 1] == code[|code| - 1]
  {
    var e := EscapeChar(code[0]);
    assert Escape(code) == e + Escape(code[1..]);
    if code[1..] != [] {
      EscapeLast(code[1..]);
      assert code[1..][|code[1..]| - 1] == code[|code| - 1];
    } else {
      assert Escape(code) == e;
    }
  }

  lemma {:induction false} ReplaceAllCharConcat(a: Text, b: Text, c: char, rep: Text)
    ensures ReplaceAllChar(a + b, c, rep) == ReplaceAllChar(a, c, rep) + ReplaceAllChar(b, c, rep)
  {
    if a != [] {
      assert (a + b)[1..] == a[1..] + b;
      ReplaceAllCharConcat(a[1..], b, c, rep);
    } else {
      assert a + b == b;
    }
  }

  lemma ReplaceAllCharSingle(x: char, c: char, rep: Text)
    ensures ReplaceAllChar([x], c, rep) == if x == c then rep else [x]
  {
    assert [x][1..] == [];
  }

  lemma ReplaceAllCharPair(x: char, y: char, c: char, rep: Text)
    ensures ReplaceAllChar([x, y], c, rep) == ReplaceAllChar([x], c, rep) + ReplaceAllChar([y], c, rep)
  {
    ReplaceAllCharConcat([x], [y], c, rep);
    assert [x] + [y] == [x, y];
  }

  /** The chain applied to one character. */
  lemma EscapeChainChar(c: char)
    ensures EscapeChain([c]) == EscapeChar(c)
  {
    ReplaceAllCharSingle(c, '\\', "\\\\");
    if c == '\\' {
      ReplaceAllCharPair('\\', '\\', '`', "\\`");
      ReplaceAllCharSingle('\\', '`', "\\`");
      ReplaceAllCharPair('\\', '\\', '$', "\\$");
      ReplaceAllCharSingle('\\', '$', "\\$");
    } else {
      ReplaceAllCharSingle(c, '`', "\\`");
      if c == '`' {
        ReplaceAllCharPair('\\', '`', '$', "\\$");
        ReplaceAllCharSingle('\\', '$', "\\$");
        ReplaceAllCharSingle('`', '$', "\\$");
      } else {
        ReplaceAllCharSingle(c, '$', "\\$");
      }
    }
  }

  /** Because backslashes are escaped first, no backslash that a later step
      adds is escaped again: the chain is the one-pass escape. */
  lemma {:induction false} EscapeChainIsEscape(code: Text)
    ensures EscapeChain(code) == Escape(code)
  {
    if code != [] {
      var c, rest := code[0], code[1..];
      assert code == [c] + rest;
      var r1 := ReplaceAllChar([c], '\\', "\\\\");
      var r2 := ReplaceAllChar(r1, '`', "\\`");
      ReplaceAllCharConcat([c], rest, '\\', "\\\\");
      ReplaceAllCharConcat(r1, ReplaceAllChar(rest, '\\', "\\\\"), '`', "\\`");
      ReplaceAllCharConcat(r2, ReplaceAllChar(ReplaceAllChar(rest, '\\', "\\\\"), '`', "\\`"), '$', "\\$");
      EscapeChainChar(c);
      EscapeChainIsEscape(rest);
    }
  }

  /** Escaping adds backslashes only: code without a `$` escapes to text
      without a `$`. */
  lemma {:induction false} EscapeAddsNoDollar(code: Text)
    requires '$' !in code
    ensures '$' !in Escape(code)
  {
    if code != [] {
      assert code[0] != '$' && '$' !in code[1..];
      EscapeAddsNoDollar(code[1..]);
    }
  }

  /** The escaping order matters: with backticks escaped before
      backslashes, the backslash added for a backtick is doubled, and a
      lone backtick comes out as three characters instead of two. */
  lemma WrongOrderDoublesBackslash()
    ensures ReplaceAllChar(ReplaceAllChar("`", '`', "\\`"), '\\', "\\\\") == "\\\\`"
    ensures Escape("`") == "\\`"
  {
    assert ReplaceAllChar("`", '`', "\\`") == "\\`" + ReplaceAllChar([], '`', "\\`");
    var t := "\\`";
    assert t[1..] == "`" && t[1..][1..] == [];
  }

  // ---------------------------------------------------------------------
  // Undoing the three escapes

  /** Reads `\\`, `` \` `` and `\$` back as the character they stand for.
      Fails on a backslash followed by anything else and on an unescaped
      backtick or `$`: text of that kind is never produced by Escape. */
  function Unescape(e: Text): (r: Option<Text>)
  {
    if e == [] then Some([])
    else if e[0] == '\\' then
      if |e| >= 2 && IsSpecial(e[1]) then
        match Unescape(e[2..])
        case None => None
        case Some(t) => Some([e[1]] + t)
      else None
    else if IsSpecial(e[0]) then None
    else
      match Unescape(e[1..])
      case None => None
      case Some(t) => Some([e[0]] + t)
  }

  /** Round trip: un-escaping the escaped code gives back exactly the code. */
  lemma {:induction false} UnescapeEscape(code: Text)
    ensures Unescape(Escape(code)) == Some(code)
  {
    if code != [] {
      UnescapeEscape(code[1..]);
      var e := Escape(code);
      assert e == EscapeChar(code[0]) + Escape(code[1..]);
      if IsSpecial(code[0]) {
        assert e[0] == '\\' && e[1] == code[0];
        assert e[2..] == Escape(code[1..]);
        assert Unescape(e) == Some([code[0]] + code[1..]);
        assert [code[0]] + code[1..] == code;
      } else {
        assert e[0] == code[0];
        assert e[1..] == Escape(code[1..]);
        assert code == [code[0]] + code[1..];
      }
    }
  }

  /** The converse: any text that un-escapes to `code` is exactly the
      escaped code, so Escape is a bijection onto the texts Unescape accepts. */
  lemma {:induction false} EscapeUnescape(e: Text, code: Text)
    requires Unescape(e) == Some(code)
    ensures Escape(code) == e
    decreases |e|
  {
    if e != [] {
      if e[0] == '\\' {
        var t := Unescape(e[2..]).value;
        EscapeUnescape(e[2..], t);
        assert code == [e[1]] + t;
        assert e == ['\\', e[1]] + e[2..];
      } else {
        var t := Unescape(e[1..]).value;
        EscapeUnescape(e[1..], t);
        assert code == [e[0]] + t;
        assert e == [e[0]] + e[1..];
      }
    }
  }

  // ---------------------------------------------------------------------
  // How an engine reads a template literal body (ECMA-262 2024, 12.9.6)

  /** How reading a template body from just after its opening backtick ends. */
  datatype BodyRead =
    | Closed(value: Text, length: nat)  // the cooked value (TV) and the characters read, closing backtick included
    | Substitution                      // a `${` starts an interpolation here
    | Unterminated                      // input ended before a closing backtick
    | SyntaxError                       // an escape sequence a template literal forbids
    | NotModelled                       // a hexadecimal or Unicode escape sequence

  const LF: char := '\n'
  const CR: char := '\r'

  predicate IsDecimalDigit(c: char)
  {
    '0' <= c <= '9'
  }

  /** LineTerminator: LF, CR, LINE SEPARATOR and PARAGRAPH SEPARATOR. */
  predicate IsLineTerminator(c: char)
  {
    c == LF || c == CR || c == '\U{2028}' || c == '\U{2029}'
  }

  /** Value of a SingleEscapeCharacter (`' " \ b f n r t v`), if `c` is one. */
  function SingleEscape(c: char): (r: Option<char>)
  {
    if c == '\'' || c == '"' || c == '\\' then Some(c)
    else if c == 'b' then Some('\U{0008}')
    else if c == 'f' then Some('\U{000C}')
    else if c == 'n' then Some('\n')
    else if c == 'r' then Some('\r')
    else if c == 't' then Some('\t')
    else if c == 'v' then Some('\U{000B}')
    else None
  }

  /** Adds the characters read before `r` to a successful read. */
  function Prepend(value: Text, width: nat, r: BodyRead): BodyRead
  {
    match r
    case Closed(v, n) => Closed(value + v, width + n)
    case _ => r
  }

  /** Reads TemplateCharacters until the first unescaped backtick.
      A CR or CR LF line terminator sequence is cooked to LF; after a
      backslash, a line terminator sequence is a line continuation (cooked
      to nothing), a SingleEscapeCharacter or a NonEscapeCharacter is
      cooked to its value, `\0` not followed by a digit is NUL, other
      digits are forbidden, and `\x`/`\u` escapes are not modelled. */
  function ReadBody(t: Text): (r: BodyRead)
    ensures r.Closed? ==> 1 <= r.length <= |t| && t[r.length - 1] == '`'
  {
    if t == [] then Unterminated
    else if t[0] == '`' then Closed([], 1)
    else if t[0] == '$' then
      if |t| >= 2 && t[1] == '{' then Substitution else Prepend("$", 1, ReadBody(t[1..]))
    else if t[0] == CR then
      if |t| >= 2 && t[1] == LF then Prepend([LF], 2, ReadBody(t[2..]))
      else Prepend([LF], 1, ReadBody(t[1..]))
    else if t[0] != '\\' then Prepend([t[0]], 1, ReadBody(t[1..]))
    else if |t| < 2 then Unterminated
    else
      var c := t[1];
      if c == CR then
        if |t| >= 3 && t[2] == LF then Prepend([], 3, ReadBody(t[3..]))
        else Prepend([], 2, ReadBody(t[2..]))
      else if IsLineTerminator(c) then Prepend([], 2, ReadBody(t[2..]))
      else if SingleEscape(c).Some? then Prepend([SingleEscape(c).value], 2, ReadBody(t[2..]))
      else if c == '0' && !(|t| >= 3 && IsDecimalDigit(t[2])) then Prepend(['\0'], 2, ReadBody(t[2..]))
      else if IsDecimalDigit(c) then SyntaxError
      else if c == 'x' || c == 'u' then NotModelled
      else Prepend([c], 2, ReadBody(t[2..]))
  }

  /** The cooked value of text without escapes: CR LF and a lone CR become
      LF, as the template value of a LineTerminatorSequence does. */
  function NormaliseLineEnds(s: Text): (r: Text)
  {
    if s == [] then []
    else if s[0] == CR then
      if |s| >= 2 && s[1] == LF then [LF] + NormaliseLineEnds(s[2..]) else [LF] + NormaliseLineEnds(s[1..])
    else [s[0]] + NormaliseLineEnds(s[1..])
  }

  lemma ReadBodyEscape(t: Text)
    requires |t| >= 2 && t[0] == '\\' && IsSpecial(t[1])
    ensures ReadBody(t) == Prepend([t[1]], 2, ReadBody(t[2..]))
  {
  }

  lemma ReadBodyCRLF(t: Text)
    requires |t| >= 2 && t[0] == CR && t[1] == LF
    ensures ReadBody(t) == Prepend([LF], 2, ReadBody(t[2..]))
  {
  }

  lemma ReadBodyPlain(t: Text)
    requires |t| >= 2 && !IsSpecial(t[0]) && !(t[0] == CR && t[1] == LF)
    ensures ReadBody(t) == Prepend([if t[0] == CR then LF else t[0]], 1, ReadBody(t[1..]))
  {
  }

  /** Escaped code followed by a backtick is read as one template body that
      ends exactly at that backtick: the escaped code can neither close the
      literal early nor open a `${` interpolation, and the engine recovers
      the code itself, line terminators normalised. */
  lemma {:induction false} ReadEscaped(code: Text, rest: Text)
    ensures ReadBody(Escape(code) + "`" + rest) == Closed(NormaliseLineEnds(code), |Escape(code)| + 1)
    decreases |code|
  {
    if code == [] {
      assert (Escape(code) + "`" + rest)[0] == '`';
    } else if IsSpecial(code[0]) {
      ReadEscaped(code[1..], rest);
      ReadEscapedSpecial(code, rest);
    } else if code[0] == CR && |code| >= 2 && code[1] == LF {
      ReadEscaped(code[2..], rest);
      ReadEscapedCRLF(code, rest);
    } else {
      ReadEscaped(code[1..], rest);
      ReadEscapedPlain(code, rest);
    }
  }

  /** One step of ReadEscaped: a special character and its backslash. */
  lemma ReadEscapedSpecial(code: Text, rest: Text)
    requires code != [] && IsSpecial(code[0])
    requires ReadBody(Escape(code[1..]) + "`" + rest)
             == Closed(NormaliseLineEnds(code[1..]), |Escape(code[1..])| + 1)
    ensures ReadBody(Escape(code) + "`" + rest) == Closed(NormaliseLineEnds(code), |Escape(code)| + 1)
  {
    var c := code[0];
    var u := Escape(code[1..]) + "`" + rest;
    assert Escape(code) == ['\\', c] + Escape(code[1..]);
    assert Escape(code) + "`" + rest == ['\\', c] + u;
    SpecialStep(c, u);
    assert NormaliseLineEnds(code) == [c] + NormaliseLineEnds(code[1..]);
  }

  /** A backslash and a special character are read as that character. */
  lemma SpecialStep(c: char, u: Text)
    requires IsSpecial(c)
    ensures ReadBody(['\\', c] + u) == Prepend([c], 2, ReadBody(u))
  {
    var t := ['\\', c] + u;
    assert t[0] == '\\' && t[1] == c && t[2..] == u;
    ReadBodyEscape(t);
  }

  /** One step of ReadEscaped: a CR LF pair, cooked to one LF. */
  lemma ReadEscapedCRLF(code: Text, rest: Text)
    requires |code| >= 2 && code[0] == CR && code[1] == LF
    requires ReadBody(Escape(code[2..]) + "`" + rest)
             == Closed(NormaliseLineEnds(code[2..]), |Escape(code[2..])| + 1)
    ensures ReadBody(Escape(code) + "`" + rest) == Closed(NormaliseLineEnds(code), |Escape(code)| + 1)
  {
    var u := Escape(code[2..]) + "`" + rest;
    assert code[1..][1..] == code[2..];
    assert Escape(code[1..]) == [LF] + Escape(code[2..]);
    assert Escape(code) == [CR, LF] + Escape(code[2..]);
    assert Escape(code) + "`" + rest == [CR, LF] + u;
    CRLFStep(u);
    assert NormaliseLineEnds(code) == [LF] + NormaliseLineEnds(code[2..]);
  }

  /** A CR LF pair is read as one LF. */
  lemma CRLFStep(u: Text)
    ensures ReadBody([CR, LF] + u) == Prepend([LF], 2, ReadBody(u))
  {
    var t := [CR, LF] + u;
    assert t[0] == CR && t[1] == LF && t[2..] == u;
    ReadBodyCRLF(t);
  }

  /** One step of ReadEscaped: any other character, a lone CR cooked to LF. */
  lemma ReadEscapedPlain(code: Text, rest: Text)
    requires code != [] && !IsSpecial(code[0]) && !(code[0] == CR && |code| >= 2 && code[1] == LF)
    requires ReadBody(Escape(code[1..]) + "`" + rest)
             == Closed(NormaliseLineEnds(code[1..]), |Escape(code[1..])| + 1)
    ensures ReadBody(Escape(code) + "`" + rest) == Closed(NormaliseLineEnds(code), |Escape(code)| + 1)
  {
    var c := code[0];
    var u := Escape(code[1..]) + "`" + rest;
    var t := Escape(code) + "`" + rest;
    assert Escape(code) == [c] + Escape(code[1..]);
    assert t == [c] + u;
    assert c == CR ==> u[0] != LF by {
      if |code| >= 2 {
        assert Escape(code[1..]) == EscapeChar(code[1]) + Escape(code[2..]);
      }
    }
    PlainStep(c, u);
    var x := if c == CR then LF else c;
    assert NormaliseLineEnds(code) == [x] + NormaliseLineEnds(code[1..]);
  }

  /** A character that is not special, not followed by LF when it is a CR,
      is read as itself (a lone CR as LF). */
  lemma PlainStep(c: char, u: Text)
    requires !IsSpecial(c) && u != [] && (c == CR ==> u[0] != LF)
    ensures ReadBody([c] + u) == Prepend([if c == CR then LF else c], 1, ReadBody(u))
  {
    var t := [c] + u;
    assert t[0] == c && t[1] == u[0] && t[1..] == u;
    ReadBodyPlain(t);
  }

  /** For code without carriage returns the embedded literal evaluates to
      exactly the worker code. */
  lemma ReadEscapedExact(code: Text, rest: Text)
    requires CR !in code
    ensures ReadBody(Escape(code) + "`" + rest) == Closed(code, |Escape(code)| + 1)
  {
    ReadEscaped(code, rest);
    NoCRUnchanged(code);
  }

  lemma {:induction false} NoCRUnchanged(s: Text)
    requires CR !in s
    ensures NormaliseLineEnds(s) == s
  {
    if s != [] {
      assert s[0] != CR;
      assert CR !in s[1..] by { assert forall k | 0 <= k < |s[1..]| :: s[1..][k] == s[k + 1]; }
      NoCRUnchanged(s[1..]);
    }
  }
}
