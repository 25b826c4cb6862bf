/**
 * The two reference patterns of the resolver and the scan that
 * `String.prototype.replace` performs with them (src/plugin.ts:15, 106,
 * 115-125). Both patterns use the identifier class `[\w\d-_]`, which
 * without the `u` flag is the ASCII letters, the digits, `_` and `-`.
 *   - bracketed `$(name)`: used in selectors, at-rule params and props;
 *   - bare `$name`: used in declaration values.
 * A global regex replace tries each position from left to right, replaces a
 * match and resumes after it; replacement text is not scanned again.
 */
module Substitution {
  import opened Options
  import opened ScopeStack

  datatype Pattern = Bracketed | Bare

  predicate IsIdentChar(c: char)
  {
    'A' <= c <= 'Z' || 'a' <= c <= 'z' || '0' <= c <= '9' || c == '_' || c == '-'
  }

  predicate IsIdent(s: string)
  {
    |s| > 0 && forall k :: 0 <= k < |s| ==> IsIdentChar(s[k])
  }

  /** The source text of a reference to `name`. */
  function RefText(name: string, p: Pattern): string
  {
    match p
    case Bracketed => "$(" + name + ")"
    case Bare => "$" + name
  }

  /** What an unresolved reference is replaced by: `$name`, for both patterns. */
  function Fallback(name: string): string
  {
    "$" + name
  }

  /** The replacement of a match: the top of the name's stack, or the fallback. */
  function Replacement(vars: Vars, name: string): (r: string)
    ensures Lookup(vars, name).Some? ==> r == Lookup(vars, name).value
    ensures Lookup(vars, name).None? ==> r == Fallback(name)
  {
    match Lookup(vars, name)
    case Some(v) => v
    case None => Fallback(name)
  }

  /** The length of the longest prefix of identifier characters (the greedy `+`). */
  function IdentLen(s: string): (n: nat)
    ensures n <= |s|
    ensures forall k :: 0 <= k < n ==> IsIdentChar(s[k])
    ensures n < |s| ==> !IsIdentChar(s[n])
  {
    if s == [] || !IsIdentChar(s[0]) then 0 else 1 + IdentLen(s[1..])
  }

  datatype Match = Match(name: string, len: nat)

  /**
   * The match of pattern `p` at the start of `s`, if any: the captured name
   * and the length of the matched text.
   */
  function MatchAt(s: string, p: Pattern): (m: Option<Match>)
    ensures m.Some? ==>
      IsIdent(m.value.name) && m.value.len == |RefText(m.value.name, p)| <= |s| &&
      s[..m.value.len] == RefText(m.value.name, p)
    ensures m.Some? && p == Bare ==> m.value.len == |s| || !IsIdentChar(s[m.value.len])
    ensures m.None? ==> forall name :: IsIdent(name) && |RefText(name, p)| <= |s| ==>
      s[..|RefText(name, p)|] != RefText(name, p)
  {
    match p
    case Bare => MatchBare(s)
    case Bracketed => MatchBracketed(s)
  }

  /** `/\$([\w\d-_]+)/` at the start of `s`: `$` and the longest identifier after it. */
  function MatchBare(s: string): (m: Option<Match>)
    ensures m.Some? ==>
      IsIdent(m.value.name) && m.value.len == |RefText(m.value.name, Bare)| <= |s| &&
      s[..m.value.len] == RefText(m.value.name, Bare)
    ensures m.Some? ==> m.value.len == |s| || !IsIdentChar(s[m.value.len])
    ensures m.None? ==> forall name :: IsIdent(name) && |RefText(name, Bare)| <= |s| ==>
      s[..|RefText(name, Bare)|] != RefText(name, Bare)
  {
    if |s| >= 2 && s[0] == '$' && IsIdentChar(s[1]) then
      var n := IdentLen(s[1..]);
      assert s[..1 + n] == "$" + s[1..1 + n];
      Some(Match(s[1..1 + n], 1 + n))
    else
      None
  }

  /** `/\$\(([\w\d-_]+)\)/` at the start of `s`: `$(`, an identifier and `)`. */
  function MatchBracketed(s: string): (m: Option<Match>)
    ensures m.Some? ==>
      IsIdent(m.value.name) && m.value.len == |RefText(m.value.name, Bracketed)| <= |s| &&
      s[..m.value.len] == RefText(m.value.name, Bracketed)
    ensures m.None? ==> forall name :: IsIdent(name) && |RefText(name, Bracketed)| <= |s| ==>
      s[..|RefText(name, Bracketed)|] != RefText(name, Bracketed)
  {
    if |s| >= 3 && s[0] == '$' && s[1] == '(' then
      var n := IdentLen(s[2..]);
      if 0 < n && 2 + n < |s| && s[2 + n] == ')' then
        assert forall k :: 0 <= k < n ==> s[2..2 + n][k] == s[2..][k];
        assert s[..3 + n] == "$(" + s[2..2 + n] + ")";
        Some(Match(s[2..2 + n], 3 + n))
      else
        NoBracketedRef(s);
        None
    else
      None
  }

  /** No bracketed reference starts where the identifier run after `$(` is not closed by `)`. */
  lemma NoBracketedRef(s: string)
    requires |s| >= 3 && s[0] == '$' && s[1] == '('
    requires var n := IdentLen(s[2..]); !(0 < n && 2 + n < |s| && s[2 + n] == ')')
    ensures forall name :: IsIdent(name) && |RefText(name, Bracketed)| <= |s| ==>
      s[..|RefText(name, Bracketed)|] != RefText(name, Bracketed)
  {
    forall name | IsIdent(name) && |RefText(name, Bracketed)| <= |s|
      ensures s[..|RefText(name, Bracketed)|] != RefText(name, Bracketed)
    {
      if s[..|RefText(name, Bracketed)|] == RefText(name, Bracketed) {
        var r := RefText(name, Bracketed);
        assert forall k :: 0 <= k < |name| ==> s[2 + k] == r[2 + k] == name[k];
        assert s[2 + |name|] == r[2 + |name|] == ')';
        IdentLenStops(s[2..], |name|);
        assert false;
      }
    }
  }

  /** A run of identifier characters followed by a non-identifier character is the greedy run. */
  lemma {:induction false} IdentLenStops(s: string, n: nat)
    requires n < |s| && !IsIdentChar(s[n])
    requires forall k :: 0 <= k < n ==> IsIdentChar(s[k])
    ensures IdentLen(s) == n
  {
    if n > 0 {
      IdentLenStops(s[1..], n - 1);
    }
  }

  /** An identifier run that reaches the end of the string. */
  lemma {:induction false} IdentLenAll(s: string)
    requires forall k :: 0 <= k < |s| ==> IsIdentChar(s[k])
    ensures IdentLen(s) == |s|
  {
    if s != [] {
      IdentLenAll(s[1..]);
    }
  }

  /** The output text of a scan, and the unresolved names in the order they were met. */
  datatype ScanResult = ScanResult(text: string, unresolved: seq<string>)

  /**
   * `s.replace(regex, callback)` where the callback returns the stack top,
   * or `$name` for an undefined or empty stack, and records `name` as
   * unresolved (the policy decides what that means).
   */
  function Scan(s: string, p: Pattern, vars: Vars): (r: ScanResult)
    ensures forall k :: 0 <= k < |r.unresolved| ==> Lookup(vars, r.unresolved[k]).None?
    decreases |s|
  {
    if s == [] then
      ScanResult([], [])
    else
      match MatchAt(s, p)
      case Some(m) =>
        var rest := Scan(s[m.len..], p, vars);
        var missing := if Lookup(vars, m.name).None? then [m.name] else [];
        ScanResult(Replacement(vars, m.name) + rest.text, missing + rest.unresolved)
      case None =>
        var rest := Scan(s[1..], p, vars);
        ScanResult([s[0]] + rest.text, rest.unresolved)
  }

  /** Text without `$` holds no reference: the scan returns it unchanged. */
  lemma {:induction false} ScanWithoutDollar(s: string, p: Pattern, vars: Vars)
    requires '$' !in s
    ensures Scan(s, p, vars) == ScanResult(s, [])
  {
    if s != [] {
      assert s[0] != '$';
      assert MatchAt(s, p).None?;
      ScanWithoutDollar(s[1..], p, vars);
      assert [s[0]] + s[1..] == s;
    }
  }

  // A reference definition of the scan: a text described as a sequence of
  // literal characters and references, and what replacing every reference
  // in it yields.

  datatype Piece = Chr(c: char) | Ref(name: string)

  function PieceText(x: Piece, p: Pattern): string
  {
    match x
    case Chr(c) => [c]
    case Ref(name) => RefText(name, p)
  }

  function Render(t: seq<Piece>, p: Pattern): string
  {
    if t == [] then [] else PieceText(t[0], p) + Render(t[1..], p)
  }

  /** The expected result: each reference replaced by its stack top or its fallback. */
  function Expand(t: seq<Piece>, vars: Vars): string
  {
    if t == [] then []
    else
      match t[0]
      case Chr(c) => [c] + Expand(t[1..], vars)
      case Ref(name) => Replacement(vars, name) + Expand(t[1..], vars)
  }

  /** The referenced names with no visible value, in document order. */
  function Unresolved(t: seq<Piece>, vars: Vars): seq<string>
  {
    if t == [] then []
    else
      match t[0]
      case Chr(_) => Unresolved(t[1..], vars)
      case Ref(name) => (if Lookup(vars, name).None? then [name] else []) + Unresolved(t[1..], vars)
  }

  /**
   * The pieces are read back as written: a literal `$` is one that starts
   * no reference of the pattern (as in `$$foo` or `[href$=".pdf"]`),
   * reference names are identifiers, and a bare reference is not followed
   * by an identifier character that would extend its name.
   */
  ghost predicate WellFormed(t: seq<Piece>, p: Pattern)
  {
    (forall i :: 0 <= i < |t| ==> t[i].Chr? && t[i].c == '$' ==> MatchAt(Render(t[i..], p), p).None?) &&
    (forall i :: 0 <= i < |t| ==> t[i].Ref? ==> IsIdent(t[i].name)) &&
    (p == Bare ==> forall i :: 1 <= i < |t| ==> (t[i - 1].Ref? && t[i].Chr? ==> !IsIdentChar(t[i].c)))
  }

  lemma WellFormedTail(t: seq<Piece>, p: Pattern)
    requires t != [] && WellFormed(t, p)
    ensures WellFormed(t[1..], p)
  {
    forall i | 0 <= i < |t[1..]|
      ensures t[1..][i] == t[i + 1] && t[1..][i..] == t[i + 1..]
    {
    }
    if p == Bare {
      forall i | 1 <= i < |t[1..]|
        ensures t[1..][i - 1].Ref? && t[1..][i].Chr? ==> !IsIdentChar(t[1..][i].c)
      {
        assert t[1..][i - 1] == t[i] && t[1..][i] == t[i + 1];
      }
    }
  }

  /** A bracketed or bare reference at the start of the text is matched with its name. */
  lemma MatchAtRef(name: string, rest: string, p: Pattern)
    requires IsIdent(name)
    requires p == Bare ==> rest == [] || !IsIdentChar(rest[0])
    ensures MatchAt(RefText(name, p) + rest, p) == Some(Match(name, |RefText(name, p)|))
  {
    match p
    case Bare => MatchAtBare(name, rest);
    case Bracketed => MatchAtBracketed(name, rest);
  }

  lemma MatchAtBare(name: string, rest: string)
    requires IsIdent(name)
    requires rest == [] || !IsIdentChar(rest[0])
    ensures MatchAt("$" + name + rest, Bare) == Some(Match(name, 1 + |name|))
  {
    var s := "$" + name + rest;
    assert s[1..] == name + rest;
    if rest == [] {
      assert name + rest == name;
      IdentLenAll(name);
    } else {
      assert (name + rest)[|name|] == rest[0];
      IdentLenStops(name + rest, |name|);
    }
    assert s[1] == name[0];
    assert s[1..1 + |name|] == name;
  }

  lemma MatchAtBracketed(name: string, rest: string)
    requires IsIdent(name)
    ensures MatchAt("$(" + name + ")" + rest, Bracketed) == Some(Match(name, 3 + |name|))
  {
    var s := "$(" + name + ")" + rest;
    assert s[2..] == name + ")" + rest;
    assert (name + ")" + rest)[|name|] == ')';
    IdentLenStops(name + ")" + rest, |name|);
    assert s[2 + |name|] == ')';
    assert s[2..2 + |name|] == name;
  }

  /** One step of the scan over a reference at the start of the text. */
  lemma ScanRef(name: string, rest: string, p: Pattern, vars: Vars)
    requires IsIdent(name)
    requires p == Bare ==> rest == [] || !IsIdentChar(rest[0])
    ensures Scan(RefText(name, p) + rest, p, vars) ==
      ScanResult(Replacement(vars, name) + Scan(rest, p, vars).text,
                 (if Lookup(vars, name).None? then [name] else []) + Scan(rest, p, vars).unresolved)
  {
    var s := RefText(name, p) + rest;
    MatchAtRef(name, rest, p);
    assert s[|RefText(name, p)|..] == rest;
  }

  /** One step of the scan over a character that starts no reference. */
  lemma ScanChr(c: char, rest: string, p: Pattern, vars: Vars)
    requires c != '$' || MatchAt([c] + rest, p).None?
    ensures Scan([c] + rest, p, vars) == ScanResult([c] + Scan(rest, p, vars).text, Scan(rest, p, vars).unresolved)
  {
    assert ([c] + rest)[1..] == rest;
  }

  /** Text without `$` in front of the rest is copied unchanged and reports nothing. */
  lemma {:induction false} ScanDollarFreePrefix(a: string, rest: string, p: Pattern, vars: Vars)
    requires '$' !in a
    ensures Scan(a + rest, p, vars) == ScanResult(a + Scan(rest, p, vars).text, Scan(rest, p, vars).unresolved)
  {
    if a == [] {
      assert a + rest == rest;
    } else {
      assert a[0] in a;
      SplitFirst(a, rest);
      ScanChr(a[0], a[1..] + rest, p, vars);
      ScanDollarFreePrefix(a[1..], rest, p, vars);
      SplitFirst(a, Scan(rest, p, vars).text);
    }
  }

  lemma SplitFirst(a: string, rest: string)
    requires a != []
    ensures a + rest == [a[0]] + (a[1..] + rest)
  {
  }

  /**
   * Every reference in the text is found and replaced, left to right and
   * without overlap; every other character is kept; the unresolved names
   * are reported in order.
   */
  lemma {:induction false} ScanRender(t: seq<Piece>, p: Pattern, vars: Vars)
    requires WellFormed(t, p)
    ensures Scan(Render(t, p), p, vars) == ScanResult(Expand(t, vars), Unresolved(t, vars))
  {
    if t != [] {
      WellFormedTail(t, p);
      ScanRender(t[1..], p, vars);
      var rest := Render(t[1..], p);
      assert Render(t, p) == PieceText(t[0], p) + rest;
      match t[0]
      case Chr(c) =>
        if c == '$' {
          assert t[0..] == t;
        }
        ScanChr(c, rest, p, vars);
      case Ref(name) =>
        if p == Bare && rest != [] {
          RenderHead(t[1..], p);
        }
        ScanRef(name, rest, p, vars);
    }
  }

  /**
   * A literal `$` right before a reference (`$$foo`, `$$(foo)`) starts no
   * match: it is copied, and the reference after it is still replaced.
   */
  lemma DollarBeforeReference(name: string, p: Pattern, vars: Vars)
    requires IsIdent(name)
    ensures Scan("$" + RefText(name, p), p, vars) ==
      ScanResult("$" + Replacement(vars, name), if Lookup(vars, name).None? then [name] else [])
  {
    var t := [Chr('$'), Ref(name)];
    var u := if Lookup(vars, name).None? then [name] else [];
    DollarRefWellFormed(name, p);
    ScanRender(t, p, vars);
    assert t[1..] == [Ref(name)];
    assert [Ref(name)][1..] == [];
    assert Expand([Ref(name)], vars) == Replacement(vars, name) + [];
    assert Unresolved([Ref(name)], vars) == u + [];
    assert Expand(t, vars) == "$" + Replacement(vars, name);
    assert Unresolved(t, vars) == u;
  }

  /** `$` followed by a reference, as pieces: its text, and it is well formed. */
  lemma DollarRefWellFormed(name: string, p: Pattern)
    requires IsIdent(name)
    ensures Render([Chr('$'), Ref(name)], p) == "$" + RefText(name, p)
    ensures WellFormed([Chr('$'), Ref(name)], p)
  {
    var t := [Chr('$'), Ref(name)];
    assert t[1..] == [Ref(name)];
    assert [Ref(name)][1..] == [];
    assert Render([Ref(name)], p) == RefText(name, p) + [];
    assert Render(t, p) == "$" + RefText(name, p);
    assert t[0..] == t;
    var s := "$" + RefText(name, p);
    assert s[1] == '$';
    if p == Bare {
      assert s[1..][0] == '$';
    }
  }

  /** The first character of a non-empty rendering, for the bare pattern. */
  lemma RenderHead(t: seq<Piece>, p: Pattern)
    requires t != [] && WellFormed(t, p) && p == Bare
    requires t[0].Chr? ==> !IsIdentChar(t[0].c)
    ensures Render(t, p) != [] && !IsIdentChar(Render(t, p)[0])
  {
    assert Render(t, p) == PieceText(t[0], p) + Render(t[1..], p);
  }
}
