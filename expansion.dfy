/** `expand_env_vars` (src/paths.rs:159-192): one left-to-right pass over a
    line that replaces each `$NAME` or `${NAME}` by the value of that
    environment variable when it is set and keeps the text as it is when it
    is not. The process environment is a map handed in by the caller, and
    the fixed pattern
        \$(?P<name>[a-zA-Z_][a-zA-Z0-9_]*|\{[a-zA-Z_][a-zA-Z0-9_]*\})
    is recognised by a hand-written scanner (TokenAt). */
module Expansion {
  import opened Strings

  /** One match of the pattern: `$NAME` or `${NAME}`. */
  datatype Token = Plain(name: string) | Braced(name: string)
  {
    /** The text the pattern matched. */
    function Text(): string
    {
      if Plain? then "$" + name else "${" + name + "}"
    }
  }

  predicate IsNameStart(c: char)
  {
    ('a' <= c <= 'z') || ('A' <= c <= 'Z') || c == '_'
  }

  predicate IsNameChar(c: char)
  {
    IsNameStart(c) || ('0' <= c <= '9')
  }

  /** `[a-zA-Z_][a-zA-Z0-9_]*` */
  predicate IsName(n: string)
  {
    |n| >= 1 && IsNameStart(n[0]) && forall i :: 1 <= i < |n| ==> IsNameChar(n[i])
  }

  /** The greedy `[a-zA-Z0-9_]*` starting at index `i`: the longest run of
      name characters there. */
  function NameRun(s: string, i: nat): (n: nat)
    requires i <= |s|
    ensures i + n <= |s|
    decreases |s| - i
  {
    if i < |s| && IsNameChar(s[i]) then 1 + NameRun(s, i + 1) else 0
  }

  /** The run is made of name characters and cannot be extended. */
  lemma {:induction false} NameRunSound(s: string, i: nat)
    requires i <= |s|
    ensures forall k :: i <= k < i + NameRun(s, i) ==> IsNameChar(s[k])
    ensures i + NameRun(s, i) == |s| || !IsNameChar(s[i + NameRun(s, i)])
    decreases |s| - i
  {
    if i < |s| && IsNameChar(s[i]) {
      NameRunSound(s, i + 1);
    }
  }

  lemma {:induction false} NameRunExact(s: string, i: nat, m: nat)
    requires i + m <= |s|
    requires forall k :: i <= k < i + m ==> IsNameChar(s[k])
    requires i + m == |s| || !IsNameChar(s[i + m])
    ensures NameRun(s, i) == m
    decreases m
  {
    if m > 0 {
      NameRunExact(s, i + 1, m - 1);
    }
  }

  /** The match of the pattern that begins at the first character of `s`,
      if there is one. The first alternative takes the longest name; the
      braced alternative needs the closing brace right after the name, so
      `${FOO` without it is no match. */
  function TokenAt(s: string): (t: Option<Token>)
    ensures t.Some? ==> 2 <= |t.value.Text()| <= |s|
  {
    if |s| >= 2 && s[0] == '$' && IsNameStart(s[1]) then
      Some(Plain(s[1..1 + NameRun(s, 1)]))
    else if |s| >= 3 && s[0] == '$' && s[1] == '{' && IsNameStart(s[2])
         && 2 + NameRun(s, 2) < |s| && s[2 + NameRun(s, 2)] == '}' then
      Some(Braced(s[2..2 + NameRun(s, 2)]))
    else
      None
  }

  /** The scanner finds only matches: a token it returns has a valid name,
      its text begins `s`, and a plain `$NAME` is not followed by another
      name character (the name is taken greedily). */
  lemma TokenAtSound(s: string)
    ensures var t := TokenAt(s);
      t.Some? ==>
        && IsName(t.value.name)
        && s[..|t.value.Text()|] == t.value.Text()
        && (t.value.Plain? ==> |t.value.Text()| == |s| || !IsNameChar(s[|t.value.Text()|]))
  {
    if |s| >= 2 && s[0] == '$' && IsNameStart(s[1]) {
      PlainSound(s);
    } else if |s| >= 3 && s[0] == '$' && s[1] == '{' && IsNameStart(s[2])
         && 2 + NameRun(s, 2) < |s| && s[2 + NameRun(s, 2)] == '}' {
      BracedSound(s);
    }
  }

  /** TokenAtSound for a plain match. A hint for the solver only. */
  lemma PlainSound(s: string)
    requires |s| >= 2 && s[0] == '$' && IsNameStart(s[1])
    ensures var t := Plain(s[1..1 + NameRun(s, 1)]);
      && IsName(t.name)
      && s[..|t.Text()|] == t.Text()
      && (|t.Text()| == |s| || !IsNameChar(s[|t.Text()|]))
  {
    var n := NameRun(s, 1);
    NameRunSound(s, 1);
    assert s[..1 + n] == "$" + s[1..1 + n];
  }

  /** TokenAtSound for a braced match. A hint for the solver only. */
  lemma BracedSound(s: string)
    requires |s| >= 3 && s[0] == '$' && s[1] == '{' && IsNameStart(s[2])
    requires 2 + NameRun(s, 2) < |s| && s[2 + NameRun(s, 2)] == '}'
    ensures var t := Braced(s[2..2 + NameRun(s, 2)]);
      IsName(t.name) && s[..|t.Text()|] == t.Text()
  {
    var n := NameRun(s, 2);
    NameRunSound(s, 2);
    assert s[..3 + n] == "${" + s[2..2 + n] + "}";
  }

  /** The scanner misses no match: whenever `s` begins with the text of a
      token (a plain one not followed by another name character), TokenAt
      returns exactly that token. With TokenAtSound, which gives the other
      direction, this says TokenAt recognises precisely the pattern's matches. */
  lemma TokenAtComplete(s: string, t: Token)
    requires IsName(t.name)
    requires |t.Text()| <= |s| && s[..|t.Text()|] == t.Text()
    requires t.Plain? ==> |t.Text()| == |s| || !IsNameChar(s[|t.Text()|])
    ensures TokenAt(s) == Some(t)
  {
    var m := |t.name|;
    if t.Plain? {
      assert s[0] == '$' && s[1] == t.name[0];
      assert forall k :: 1 <= k < 1 + m ==> s[k] == t.name[k - 1];
      NameRunExact(s, 1, m);
      assert s[1..1 + m] == t.name;
    } else {
      assert s[0] == '$' && s[1] == '{' && s[2] == t.name[0];
      assert forall k :: 2 <= k < 2 + m ==> s[k] == t.name[k - 2];
      assert s[2 + m] == '}';
      NameRunExact(s, 2, m);
      assert s[2..2 + m] == t.name;
    }
  }

  /** What one token becomes: the variable's value if it is set, otherwise
      the token's own text. */
  function Substitute(env: map<string, string>, t: Token): string
  {
    if t.name in env then env[t.name] else t.Text()
  }

  /** The result of `expand_env_vars`: text outside tokens is copied,
      each token is substituted, and scanning resumes after the token, so
      a substituted value is never scanned again. */
  function Expand(env: map<string, string>, s: string): string
    decreases |s|
  {
    if s == [] then ""
    else match TokenAt(s)
      case Some(t) => Substitute(env, t) + Expand(env, s[|t.Text()|..])
      case None => [s[0]] + Expand(env, s[1..])
  }

  /** Expansion of a text that begins with a token: one of `Expand`'s
      defining equations, a hint for the solver only. */
  lemma ExpandAtToken(env: map<string, string>, s: string, t: Token)
    requires TokenAt(s) == Some(t)
    ensures Expand(env, s) == Substitute(env, t) + Expand(env, s[|t.Text()|..])
  {
  }

  /** Expansion of a text that does not begin with a token: one of
      `Expand`'s defining equations, a hint for the solver only. */
  lemma ExpandAtLiteral(env: map<string, string>, s: string)
    requires s != [] && TokenAt(s) == None
    ensures Expand(env, s) == [s[0]] + Expand(env, s[1..])
  {
  }

  /** The loop invariant of ExpandEnvVars: `result` holds the expansion of
      `line[..last]`, the text from `last` to `i` holds no match start, so
      appending it and the expansion of the rest gives the whole expansion. */
  ghost predicate Scanned(env: map<string, string>, line: string, result: string, last: int, i: int)
  {
    0 <= last <= i <= |line| && result + line[last..i] + Expand(env, line[i..]) == Expand(env, line)
  }

  /** Nothing is scanned yet. */
  lemma ScannedStart(env: map<string, string>, line: string)
    ensures Scanned(env, line, "", 0, 0)
  {
    var e := Expand(env, line);
    assert line[0..] == line && line[0..0] == [];
    assert "" + [] + e == e;
  }

  /** The loop step at a match: the text since the previous match and the
      substitution are appended, and scanning resumes after the match. */
  lemma ScannedToken(env: map<string, string>, line: string, result: string, last: int, i: int, t: Token,
                     result': string, next: int)
    requires Scanned(env, line, result, last, i) && i < |line| && TokenAt(line[i..]) == Some(t)
    requires result' == result + line[last..i] + Substitute(env, t) && next == i + |t.Text()|
    ensures i + 2 <= next <= |line|
    ensures Scanned(env, line, result', next, next)
  {
    ExpandTokenIn(env, line, i, t, next);
    Reassemble(result + line[last..i], Substitute(env, t), Expand(env, line[next..]),
               Expand(env, line[i..]), Expand(env, line), result', line[next..next]);
  }

  /** ExpandAtToken at position `i` of `line`. A hint for the solver only. */
  lemma ExpandTokenIn(env: map<string, string>, line: string, i: nat, t: Token, next: int)
    requires i <= |line| && TokenAt(line[i..]) == Some(t) && next == i + |t.Text()|
    ensures next <= |line|
    ensures Expand(env, line[i..]) == Substitute(env, t) + Expand(env, line[next..])
  {
    var s := line[i..];
    assert s[|t.Text()|..] == line[next..];
    ExpandAtToken(env, s, t);
  }

  /** The text before a match, its substitution and the expansion after it
      still make up the whole. A hint for the solver only. */
  lemma Reassemble(a: string, b: string, c: string, x: string, whole: string, r: string, gap: string)
    requires a + x == whole && x == b + c
    requires r == a + b && |gap| == 0
    ensures r + gap + c == whole
  {
    assert gap == [];
    Regroup(a, b, c);
  }

  /** Sequence associativity, a hint for the solver only. */
  lemma Regroup(a: string, b: string, c: string)
    ensures a + (b + c) == (a + b) + [] + c
  {
  }

  /** The loop step where no match begins: the character stays in the
      pending text. */
  lemma ScannedLiteral(env: map<string, string>, line: string, result: string, last: int, i: int)
    requires Scanned(env, line, result, last, i) && i < |line| && TokenAt(line[i..]) == None
    ensures Scanned(env, line, result, last, i + 1)
  {
    ExpandLiteralIn(env, line, i, i + 1);
    ExtendSlice(line, last, i, i + 1);
    Regroup4(result, line[last..i], [line[i]], Expand(env, line[i + 1..]));
  }

  /** ExpandAtLiteral at position `i` of `line`. A hint for the solver only. */
  lemma ExpandLiteralIn(env: map<string, string>, line: string, i: nat, next: int)
    requires i < |line| && TokenAt(line[i..]) == None && next == i + 1
    ensures Expand(env, line[i..]) == [line[i]] + Expand(env, line[next..])
  {
    var s := line[i..];
    assert s[1..] == line[next..] && s[0] == line[i];
    ExpandAtLiteral(env, s);
  }

  /** A slice grows by the character at its end. A hint for the solver only. */
  lemma ExtendSlice(line: string, last: int, i: int, next: int)
    requires 0 <= last <= i < |line| && next == i + 1
    ensures line[last..next] == line[last..i] + [line[i]]
  {
  }

  /** Sequence associativity, a hint for the solver only. */
  lemma Regroup4(a: string, b: string, c: string, d: string)
    ensures a + b + (c + d) == a + (b + c) + d
  {
  }

  /** The end of the scan: the text after the last match is appended. */
  lemma ScannedFinish(env: map<string, string>, line: string, result: string, last: int)
    requires Scanned(env, line, result, last, |line|)
    ensures result + line[last..] == Expand(env, line)
  {
    assert line[|line|..] == [] && line[last..] == line[last..|line|];
    assert Expand(env, []) == [];
    Regroup(result + line[last..], [], []);
  }

  /** One round of the scan in `expand_env_vars`: at a match, the text
      since the previous match (`last`) and the substitution are appended
      and scanning resumes after the match; elsewhere the scan moves on by
      one character. */
  method ScanStep(env: map<string, string>, line: string, result: string, last: nat, i: nat)
    returns (result': string, last': nat, i': nat)
    requires Scanned(env, line, result, last, i) && i < |line|
    ensures i < i' <= |line|
    ensures Scanned(env, line, result', last', i')
  {
    var tok := TokenAt(line[i..]);
    if tok.Some? {
      var t := tok.value;
      result' := result + line[last..i] + Substitute(env, t);
      i' := i + |t.Text()|;
      last' := i';
      ScannedToken(env, line, result, last, i, t, result', i');
    } else {
      ScannedLiteral(env, line, result, last, i);
      result', last', i' := result, last, i + 1;
    }
  }

  /** `expand_env_vars` itself: the scan runs to the end of the line and
      the text after the last match is appended. */
  method ExpandEnvVars(env: map<string, string>, line: string) returns (result: string)
    ensures result == Expand(env, line)
  {
    result := "";
    var last, i := 0, 0;
    ScannedStart(env, line);
    while i < |line|
      invariant Scanned(env, line, result, last, i)
      decreases |line| - i
    {
      result, last, i := ScanStep(env, line, result, last, i);
    }
    ScannedFinish(env, line, result, last);
    result := result + line[last..];
  }

  /** No token of `s` names a variable set in `env`. */
  ghost predicate AllUnset(env: map<string, string>, s: string)
  {
    forall i :: 0 <= i < |s| && TokenAt(s[i..]).Some? ==> TokenAt(s[i..]).value.name !in env
  }

  lemma AllUnsetSuffix(env: map<string, string>, s: string, n: nat)
    requires n <= |s| && AllUnset(env, s)
    ensures AllUnset(env, s[n..])
  {
    forall i | 0 <= i < |s[n..]| && TokenAt(s[n..][i..]).Some?
      ensures TokenAt(s[n..][i..]).value.name !in env
    {
      assert s[n..][i..] == s[n + i..];
    }
  }

  lemma UnsetTokenKept(env: map<string, string>, s: string, t: Token)
    requires TokenAt(s) == Some(t) && AllUnset(env, s)
    ensures Expand(env, s) == s[..|t.Text()|] + Expand(env, s[|t.Text()|..])
  {
    assert s[0..] == s;
    TokenAtSound(s);
    ExpandAtToken(env, s, t);
  }

  /** Tokens whose variable is not set are kept literally: if no token of
      `s` names a variable in `env`, expansion changes nothing. */
  lemma {:induction false} ExpandKeepsUnsetTokens(env: map<string, string>, s: string)
    requires AllUnset(env, s)
    ensures Expand(env, s) == s
    decreases |s|
  {
    if s != [] {
      var tok := TokenAt(s);
      var n := if tok.Some? then |tok.value.Text()| else 1;
      AllUnsetSuffix(env, s, n);
      ExpandKeepsUnsetTokens(env, s[n..]);
      if tok.Some? {
        UnsetTokenKept(env, s, tok.value);
      } else {
        ExpandAtLiteral(env, s);
        assert [s[0]] == s[..n];
      }
      calc {
        Expand(env, s);
        s[..n] + Expand(env, s[n..]);
        s[..n] + s[n..];
        { SplitAt(s, n); }
        s;
      }
    }
  }

  /** Splitting a text at `n`, a hint for the solver only. */
  lemma SplitAt(s: string, n: nat)
    requires n <= |s|
    ensures s[..n] + s[n..] == s
  {
  }

  /** A line with no `$NAME` or `${NAME}` in it comes back unchanged. */
  lemma ExpandWithoutTokens(env: map<string, string>, s: string)
    requires forall i :: 0 <= i < |s| ==> TokenAt(s[i..]) == None
    ensures Expand(env, s) == s
  {
    ExpandKeepsUnsetTokens(env, s);
  }

  /** In particular a line without `$` comes back unchanged. */
  lemma ExpandWithoutDollar(env: map<string, string>, s: string)
    requires '$' !in s
    ensures Expand(env, s) == s
  {
    forall i | 0 <= i < |s| ensures TokenAt(s[i..]) == None {
      assert s[i..][0] == s[i];
    }
    ExpandWithoutTokens(env, s);
  }

  /** With an empty environment every token is kept: expansion is the identity. */
  lemma ExpandInEmptyEnvironment(s: string)
    ensures Expand(map[], s) == s
  {
    ExpandKeepsUnsetTokens(map[], s);
  }

  /** No match starts at position `i` of `s`. */
  predicate NoMatchAt(s: string, i: nat)
  {
    i <= |s| && TokenAt(s[i..]) == None
  }

  /** Text in which no match starts is copied verbatim, `$` included (a
      `$5`, a trailing `$`, an unclosed `${NAME`); the rest is expanded on
      its own. */
  lemma {:induction false} ExpandUnmatchedPrefix(env: map<string, string>, u: string, v: string)
    requires forall i :: 0 <= i < |u| ==> NoMatchAt(u + v, i)
    ensures Expand(env, u + v) == u + Expand(env, v)
    decreases |u|
  {
    if u != [] {
      var s := u + v;
      assert TokenAt(s) == None by {
        assert NoMatchAt(s, 0);
        assert s[0..] == s;
      }
      UnmatchedTail(u, v);
      ExpandUnmatchedPrefix(env, u[1..], v);
      UnmatchedCons(env, u, v, Expand(env, v));
    } else {
      assert u + v == v;
    }
  }

  /** The step of ExpandUnmatchedPrefix: the first character, where no
      match starts, goes in front of the expanded rest; `ev` stands for the
      expansion of `v`. A hint for the solver only. */
  lemma UnmatchedCons(env: map<string, string>, u: string, v: string, ev: string)
    requires u != [] && TokenAt(u + v) == None
    requires Expand(env, u[1..] + v) == u[1..] + ev
    ensures Expand(env, u + v) == u + ev
  {
    ExpandAtLiteral(env, u + v);
    SplitHead(u, v, ev);
  }

  /** Taking the head off `u + v`, and putting it back. A hint for the solver
      only. */
  lemma SplitHead(u: string, v: string, w: string)
    requires u != []
    ensures (u + v)[1..] == u[1..] + v
    ensures [(u + v)[0]] + (u[1..] + w) == u + w
  {
  }

  /** The hypothesis of ExpandUnmatchedPrefix moves one character along. A
      hint for the solver only. */
  lemma UnmatchedTail(u: string, v: string)
    requires u != [] && forall i :: 0 <= i < |u| ==> NoMatchAt(u + v, i)
    ensures forall i :: 0 <= i < |u[1..]| ==> NoMatchAt(u[1..] + v, i)
  {
    forall i | 0 <= i < |u[1..]| ensures NoMatchAt(u[1..] + v, i) {
      assert NoMatchAt(u + v, i + 1);
      assert (u[1..] + v)[i..] == (u + v)[i + 1..];
    }
  }

  /** Text before the first `$` is copied verbatim. */
  lemma ExpandLiteralPrefix(env: map<string, string>, u: string, v: string)
    requires '$' !in u
    ensures Expand(env, u + v) == u + Expand(env, v)
  {
    forall i | 0 <= i < |u| ensures NoMatchAt(u + v, i) {
      assert (u + v)[i..][0] == u[i];
    }
    ExpandUnmatchedPrefix(env, u, v);
  }

  /** A `$` and a digit followed by `$NAME` (say `$5$FOO`): the `$` that
      starts no match is copied with its digit, and the match after it is
      still replaced. */
  lemma ExpandAfterUnmatchedDollar(env: map<string, string>, d: char, n: string)
    requires '0' <= d <= '9' && IsName(n)
    ensures Expand(env, ['$', d] + ("$" + n))
         == ['$', d] + (if n in env then env[n] else "$" + n)
  {
    var u, v := ['$', d], "$" + n;
    assert NoMatchAt(u + v, 0) by {
      assert (u + v)[0..] == u + v;
      assert (u + v)[0] == '$' && (u + v)[1] == d;
    }
    assert NoMatchAt(u + v, 1) by {
      assert (u + v)[1..][0] == d;
    }
    ExpandUnmatchedPrefix(env, u, v);
    ExpandPlain(env, n, []);
    assert "$" + n + [] == v;
    assert Expand(env, []) == [];
    var x := if n in env then env[n] else "$" + n;
    assert x + [] == x;
  }


  /** A `${NAME}` occurrence becomes the value of NAME, inserted as it is
      (not scanned again), or stays `${NAME}` when NAME is not set; the rest
      of the line is expanded on its own. */
  lemma ExpandBraced(env: map<string, string>, n: string, rest: string)
    requires IsName(n)
    ensures Expand(env, "${" + n + "}" + rest)
         == (if n in env then env[n] else "${" + n + "}") + Expand(env, rest)
  {
    var s := "${" + n + "}" + rest;
    assert s[..|Braced(n).Text()|] == Braced(n).Text();
    TokenAtComplete(s, Braced(n));
    assert s[|Braced(n).Text()|..] == rest;
  }

  /** A `$NAME` occurrence, where NAME is the whole run of name characters,
      becomes the value of NAME inserted as it is, or stays `$NAME` when
      NAME is not set. */
  lemma ExpandPlain(env: map<string, string>, n: string, rest: string)
    requires IsName(n)
    requires rest == [] || !IsNameChar(rest[0])
    ensures Expand(env, "$" + n + rest)
         == (if n in env then env[n] else "$" + n) + Expand(env, rest)
  {
    var s := "$" + n + rest;
    assert s[..|Plain(n).Text()|] == Plain(n).Text();
    assert |Plain(n).Text()| < |s| ==> s[|Plain(n).Text()|] == rest[0];
    TokenAtComplete(s, Plain(n));
    assert s[|Plain(n).Text()|..] == rest;
  }

  /** `$FOO/baz` with FOO set: the token becomes FOO's value. */
  lemma ExpandExample(env: map<string, string>, line: string)
    requires line == "$FOO/baz" && env == map["FOO" := "bar"]
    ensures Expand(env, line) == "bar/baz"
  {
    ExpandFooBaz(env, line);
  }

  /** `$FOO/baz` with FOO unset: the token is kept as it is. */
  lemma ExpandUnsetExample(env: map<string, string>, line: string)
    requires line == "$FOO/baz" && "FOO" !in env
    ensures Expand(env, line) == "$FOO/baz"
  {
    ExpandFooBaz(env, line);
  }

  lemma ExpandFooBaz(env: map<string, string>, line: string)
    requires line == "$FOO/baz"
    ensures Expand(env, line) == Substitute(env, Plain("FOO")) + "/baz"
  {
    var t := Plain("FOO");
    assert IsName(t.name);
    assert line[..4] == t.Text() && line[4..] == "/baz";
    TokenAtComplete(line, t);
    ExpandAtToken(env, line, t);
    ExpandWithoutDollar(env, "/baz");
  }

  /** A substituted value is not expanded again: with FOO set to `$BAR` and
      BAR set to `x`, `${FOO}` becomes `$BAR`, not `x`. */
  lemma ExpandDoesNotRescan()
    ensures Expand(map["FOO" := "$BAR", "BAR" := "x"], "${FOO}") == "$BAR"
  {
    var env := map["FOO" := "$BAR", "BAR" := "x"];
    assert IsName("FOO");
    ExpandBraced(env, "FOO", "");
    assert "${FOO}" == "${" + "FOO" + "}" + "";
  }

  /** `${FOO` without its closing brace is not a match and stays as it is,
      even when FOO is set. */
  lemma ExpandUnclosedBrace()
    ensures Expand(map["FOO" := "bar"], "${FOO") == "${FOO"
  {
    var s := "${FOO";
    forall i | 0 <= i < |s| ensures TokenAt(s[i..]) == None {
      if i == 0 {
        assert NameRun(s, 2) == 3 by { NameRunExact(s, 2, 3); }
      }
    }
    ExpandWithoutTokens(map["FOO" := "bar"], s);
  }
}
