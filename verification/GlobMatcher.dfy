/**
 The vendor-import patterns: a glob is compiled to the source text of a regular expression, and the
 text is what decides. The text is read back as an ECMAScript pattern and given its meaning.
 */
module GlobMatcher {
  import opened Options
  import opened Text

  // ----- what the rule computes

  predicate IsEscaped(c: char) {
    c in ".+?^${}()|[]\\"
  }

  function Escape(part: string): string {
    if part == "" then ""
    else (if IsEscaped(part[0]) then ['\\', part[0]] else [part[0]]) + Escape(part[1..])
  }

  function EscapeAll(parts: seq<string>): seq<string> {
    if parts == [] then [] else [Escape(parts[0])] + EscapeAll(parts[1..])
  }

  /** `toMatcher`: the source text of the anchored regular expression. */
  function MatcherSource(pattern: string): string {
    "^" + Join(EscapeAll(Split(pattern, '*')), ".*") + "$"
  }

  // ----- what a pattern is meant to accept

  predicate IsLineTerminator(c: char) {
    c == '\n' || c == '\r' || c == '\U{2028}' || c == '\U{2029}'
  }

  predicate OneLine(s: string) {
    forall i :: 0 <= i < |s| ==> !IsLineTerminator(s[i])
  }

  /** `*` stands for any run of characters, `/` included. */
  ghost predicate Glob(pattern: string, s: string) {
    if pattern == "" then s == ""
    else if pattern[0] == '*' then exists k :: 0 <= k <= |s| && Glob(pattern[1..], s[k..])
    else s != "" && s[0] == pattern[0] && Glob(pattern[1..], s[1..])
  }

  /** The same, but the run may not go past the end of a line. */
  ghost predicate LineGlob(pattern: string, s: string) {
    if pattern == "" then s == ""
    else if pattern[0] == '*' then
      exists k :: 0 <= k <= |s| && OneLine(s[..k]) && LineGlob(pattern[1..], s[k..])
    else s != "" && s[0] == pattern[0] && LineGlob(pattern[1..], s[1..])
  }

  // ----- the fragment of ECMAScript patterns that the texts fall into

  datatype Atom = Char(c: char) | Dot

  datatype Term = StartAnchor | EndAnchor | Single(atom: Atom) | Star(atom: Atom)

  predicate IsSyntaxCharacter(c: char) {
    c in "^$\\.*+?()[]{}|"
  }

  /** One atom and how many characters of the source it takes. */
  function ParseAtom(source: string): Option<(Atom, nat)>
    requires source != ""
  {
    if source[0] == '.' then Some((Dot, 1))
    else if source[0] == '\\' then
      // an escaped syntax character stands for itself; other escapes are outside the fragment
      if |source| > 1 && IsSyntaxCharacter(source[1]) then Some((Char(source[1]), 2)) else None
    else if IsSyntaxCharacter(source[0]) then None
    else Some((Char(source[0]), 1))
  }

  function AddTerm(term: Term, rest: Option<seq<Term>>): Option<seq<Term>> {
    if rest.None? then None else Some([term] + rest.value)
  }

  /** `None` for groups, classes, alternatives and other quantifiers: outside the fragment. */
  function Parse(source: string): Option<seq<Term>>
    decreases |source|
  {
    if source == "" then Some([])
    else if source[0] == '^' then AddTerm(StartAnchor, Parse(source[1..]))
    else if source[0] == '$' then AddTerm(EndAnchor, Parse(source[1..]))
    else
      var atom := ParseAtom(source);
      if atom.None? || |source| < atom.value.1 then None
      else
        var rest := source[atom.value.1..];
        if rest != "" && rest[0] == '*' then AddTerm(Star(atom.value.0), Parse(rest[1..]))
        else AddTerm(Single(atom.value.0), Parse(rest))
  }

  predicate Accepts(atom: Atom, c: char) {
    match atom
    case Char(d) => c == d
    case Dot => !IsLineTerminator(c)
  }

  /** Some way to match the terms from position i on. */
  predicate MatchesFrom(terms: seq<Term>, s: string, i: nat)
    requires i <= |s|
    decreases |terms|, |s| - i
  {
    terms == []
    || match terms[0]
       case StartAnchor => i == 0 && MatchesFrom(terms[1..], s, i)
       case EndAnchor => i == |s| && MatchesFrom(terms[1..], s, i)
       case Single(atom) => i < |s| && Accepts(atom, s[i]) && MatchesFrom(terms[1..], s, i + 1)
       case Star(atom) =>
         || MatchesFrom(terms[1..], s, i)
         || (i < |s| && Accepts(atom, s[i]) && MatchesFrom(terms, s, i + 1))
  }

  /** `RegExp.prototype.test`: a match anywhere. */
  predicate Test(terms: seq<Term>, s: string) {
    exists i :: 0 <= i <= |s| && MatchesFrom(terms, s, i)
  }

  // ----- the source text, character by character of the pattern

  function CompiledChar(c: char): string {
    if c == '*' then ".*" else Escape([c])
  }

  function Compiled(pattern: string): string {
    if pattern == "" then "" else CompiledChar(pattern[0]) + Compiled(pattern[1..])
  }

  lemma EscapeCons(c: char, part: string)
    ensures Escape([c] + part) == Escape([c]) + Escape(part)
  {
  }

  lemma EscapeAllCons(part: string, parts: seq<string>)
    ensures EscapeAll([part] + parts) == [Escape(part)] + EscapeAll(parts)
  {
  }

  lemma JoinCons(first: string, rest: seq<string>, separator: string)
    requires rest != []
    ensures Join([first] + rest, separator) == first + separator + Join(rest, separator)
  {
  }

  lemma JoinPrepend(prefix: string, parts: seq<string>, separator: string)
    requires parts != []
    ensures Join([prefix + parts[0]] + parts[1..], separator) == prefix + Join(parts, separator)
  {
  }

  /** Splitting, escaping the pieces and joining is compiling one character at a time. */
  lemma {:induction false} JoinedIsCompiled(pattern: string)
    ensures Join(EscapeAll(Split(pattern, '*')), ".*") == Compiled(pattern)
  {
    if pattern == "" {
      assert Split(pattern, '*') == [""] + [];
      EscapeAllCons("", []);
    } else {
      var rest := Split(pattern[1..], '*');
      JoinedIsCompiled(pattern[1..]);
      if pattern[0] == '*' {
        StarJoined(rest);
      } else {
        LiteralJoined(pattern[0], rest);
      }
    }
  }

  /** A star begins a new piece. */
  lemma StarJoined(rest: seq<string>)
    requires rest != []
    ensures Join(EscapeAll([""] + rest), ".*") == ".*" + Join(EscapeAll(rest), ".*")
  {
    EscapeAllCons("", rest);
    JoinCons(Escape(""), EscapeAll(rest), ".*");
  }

  /** Any other character goes before the first piece. */
  lemma LiteralJoined(c: char, rest: seq<string>)
    requires rest != []
    ensures Join(EscapeAll([[c] + rest[0]] + rest[1..]), ".*") == Escape([c]) + Join(EscapeAll(rest), ".*")
  {
    assert rest == [rest[0]] + rest[1..];
    EscapeAllCons(rest[0], rest[1..]);
    EscapeAllCons([c] + rest[0], rest[1..]);
    EscapeCons(c, rest[0]);
    JoinPrepend(Escape([c]), EscapeAll(rest), ".*");
  }

  // ----- reading the text back

  function Terms(pattern: string): seq<Term> {
    if pattern == "" then [EndAnchor]
    else [if pattern[0] == '*' then Star(Dot) else Single(Char(pattern[0]))] + Terms(pattern[1..])
  }

  /** What follows a compiled piece never begins with `*`, so no literal is ever repeated. */
  lemma {:induction false} CompiledStart(pattern: string)
    ensures (Compiled(pattern) + "$")[0] != '*'
  {
  }

  lemma {:induction false} CompiledParses(pattern: string)
    ensures Parse(Compiled(pattern) + "$") == Some(Terms(pattern))
  {
    if pattern == "" {
      assert Compiled(pattern) + "$" == "$";
      assert "$"[1..] == "";
      assert Parse("") == Some([]);
      assert [EndAnchor] + [] == [EndAnchor];
    } else {
      var tail := Compiled(pattern[1..]) + "$";
      var source := CompiledChar(pattern[0]) + tail;
      assert Compiled(pattern) + "$" == source;
      CompiledParses(pattern[1..]);
      CompiledStart(pattern[1..]);
      ParseCompiledChar(pattern[0], tail);
    }
  }

  lemma ParseCompiledChar(c: char, tail: string)
    requires tail != "" && tail[0] != '*'
    ensures Parse(CompiledChar(c) + tail)
         == AddTerm(if c == '*' then Star(Dot) else Single(Char(c)), Parse(tail))
  {
    if c == '*' {
      ParseStar(tail);
    } else if IsEscaped(c) {
      EscapeOne(c);
      ParseEscaped(c, tail);
    } else {
      EscapeOne(c);
      ParseLiteral(c, tail);
    }
  }

  lemma EscapeOne(c: char)
    ensures Escape([c]) == if IsEscaped(c) then ['\\', c] else [c]
  {
    assert [c][1..] == "" && Escape("") == "";
  }

  lemma ParseStar(tail: string)
    ensures Parse(".*" + tail) == AddTerm(Star(Dot), Parse(tail))
  {
    var source := ".*" + tail;
    assert source[1..][1..] == tail;
  }

  lemma ParseEscaped(c: char, tail: string)
    requires IsSyntaxCharacter(c) && tail != "" && tail[0] != '*'
    ensures Parse(['\\', c] + tail) == AddTerm(Single(Char(c)), Parse(tail))
  {
    var source := ['\\', c] + tail;
    assert source[2..] == tail;
  }

  lemma ParseLiteral(c: char, tail: string)
    requires !IsSyntaxCharacter(c) && tail != "" && tail[0] != '*'
    ensures Parse([c] + tail) == AddTerm(Single(Char(c)), Parse(tail))
  {
    var source := [c] + tail;
    assert source[1..] == tail;
  }

  // ----- the meaning

  lemma {:induction false} StarMatches(terms: seq<Term>, s: string, i: nat)
    requires i <= |s|
    ensures MatchesFrom([Star(Dot)] + terms, s, i)
       <==> exists k :: 0 <= k <= |s| - i && OneLine(s[i..][..k]) && MatchesFrom(terms, s, i + k)
    decreases |s| - i
  {
    var all := [Star(Dot)] + terms;
    assert all[1..] == terms;
    if i < |s| {
      StarMatches(terms, s, i + 1);
    }
    if MatchesFrom(all, s, i) {
      if MatchesFrom(terms, s, i) {
        assert OneLine(s[i..][..0]) && MatchesFrom(terms, s, i + 0);
      } else {
        var k :| 0 <= k <= |s| - (i + 1) && OneLine(s[i + 1..][..k]) && MatchesFrom(terms, s, i + 1 + k);
        assert s[i..][..k + 1] == [s[i]] + s[i + 1..][..k];
        assert OneLine(s[i..][..k + 1]) && MatchesFrom(terms, s, i + (k + 1));
      }
    }
    if k :| 0 <= k <= |s| - i && OneLine(s[i..][..k]) && MatchesFrom(terms, s, i + k) {
      if k > 0 {
        assert s[i] == s[i..][..k][0];
        assert s[i + 1..][..k - 1] == s[i..][..k][1..];
        assert OneLine(s[i + 1..][..k - 1]) && MatchesFrom(terms, s, i + 1 + (k - 1));
      }
    }
  }

  lemma {:induction false} TermsMatch(pattern: string, s: string, i: nat)
    requires i <= |s|
    ensures MatchesFrom(Terms(pattern), s, i) <==> LineGlob(pattern, s[i..])
    decreases pattern
  {
    if pattern == "" {
      assert [EndAnchor][1..] == [];
    } else if pattern[0] == '*' {
      var terms := Terms(pattern[1..]);
      StarMatches(terms, s, i);
      forall k | 0 <= k <= |s| - i
        ensures MatchesFrom(terms, s, i + k) <==> LineGlob(pattern[1..], s[i..][k..])
      {
        TermsMatch(pattern[1..], s, i + k);
        assert s[i..][k..] == s[i + k..];
      }
    } else {
      assert Terms(pattern)[1..] == Terms(pattern[1..]);
      if i < |s| {
        TermsMatch(pattern[1..], s, i + 1);
        assert s[i..][1..] == s[i + 1..];
      }
    }
  }

  /**
   For every pattern the text is a regular expression of the fragment, and it accepts exactly what
   the pattern matches with each `*` standing for a run within a line.
   */
  lemma MatcherMeaning(pattern: string, s: string)
    ensures Parse(MatcherSource(pattern)).Some?
    ensures Test(Parse(MatcherSource(pattern)).value, s) <==> LineGlob(pattern, s)
  {
    JoinedIsCompiled(pattern);
    CompiledParses(pattern);
    var source := MatcherSource(pattern);
    assert source == "^" + (Compiled(pattern) + "$");
    assert source[1..] == Compiled(pattern) + "$";
    var terms := [StartAnchor] + Terms(pattern);
    assert Parse(source) == Some(terms);
    assert terms[1..] == Terms(pattern);
    TermsMatch(pattern, s, 0);
    assert s[0..] == s;
    assert MatchesFrom(terms, s, 0) <==> LineGlob(pattern, s);
  }

  lemma {:induction false} LineGlobIsGlob(pattern: string, s: string)
    ensures LineGlob(pattern, s) ==> Glob(pattern, s)
    ensures OneLine(s) ==> (LineGlob(pattern, s) <==> Glob(pattern, s))
    decreases pattern
  {
    if pattern != "" {
      if pattern[0] == '*' {
        forall k | 0 <= k <= |s|
          ensures LineGlob(pattern[1..], s[k..]) ==> Glob(pattern[1..], s[k..])
          ensures OneLine(s) ==> (LineGlob(pattern[1..], s[k..]) <==> Glob(pattern[1..], s[k..]))
        {
          LineGlobIsGlob(pattern[1..], s[k..]);
        }
        assert OneLine(s) ==> forall k :: 0 <= k <= |s| ==> OneLine(s[..k]);
      } else if s != "" {
        LineGlobIsGlob(pattern[1..], s[1..]);
      }
    }
  }

  /** On specifiers without line terminators the compiled expression decides exactly the glob. */
  lemma MatcherDecidesGlob(pattern: string, s: string)
    requires OneLine(s)
    ensures Parse(MatcherSource(pattern)).Some?
    ensures Test(Parse(MatcherSource(pattern)).value, s) <==> Glob(pattern, s)
  {
    MatcherMeaning(pattern, s);
    LineGlobIsGlob(pattern, s);
  }

  /** The expression built for a pattern decides exactly what the pattern is documented to match. */
  ghost predicate DecidesGlob(pattern: string, s: string) {
    && Parse(MatcherSource(pattern)).Some?
    && (Test(Parse(MatcherSource(pattern)).value, s) <==> Glob(pattern, s))
  }

  lemma StarMatchesAll(s: string)
    ensures Glob("*", s)
    ensures LineGlob("*", s) <==> OneLine(s)
  {
    assert "*"[1..] == "" && s[|s|..] == "" && s[..|s|] == s;
    assert Glob("*"[1..], s[|s|..]);
    if OneLine(s) {
      assert OneLine(s[..|s|]) && LineGlob("*"[1..], s[|s|..]);
    }
    if LineGlob("*", s) {
      var k :| 0 <= k <= |s| && OneLine(s[..k]) && LineGlob("*"[1..], s[k..]);
      assert s[k..] == "" && s[..k] == s;
    }
  }

  /**
   All patterns mean on a specifier what they are documented to mean exactly when the specifier has
   no line terminator: where it has one, `*` alone already fails.
   */
  lemma DecidesGlobIffOneLine(s: string)
    ensures (forall c <- s :: c != '\n' && c != '\r' && c != '\U{2028}' && c != '\U{2029}')
       <==> forall pattern: string :: DecidesGlob(pattern, s)
  {
    if OneLine(s) {
      forall pattern: string
        ensures DecidesGlob(pattern, s)
      {
        MatcherDecidesGlob(pattern, s);
      }
    } else {
      var i :| 0 <= i < |s| && IsLineTerminator(s[i]);
      assert s[i] in s;
      StarMatchesAll(s);
      MatcherMeaning("*", s);
      assert !DecidesGlob("*", s);
    }
  }

  /** A specifier the documented `*` matches and the code does not. */
  lemma StarStopsAtLineEnd()
    ensures Glob("*", "a\nb") && !DecidesGlob("*", "a\nb")
  {
    StarMatchesAll("a\nb");
    assert IsLineTerminator("a\nb"[1]);
    MatcherMeaning("*", "a\nb");
  }
}
