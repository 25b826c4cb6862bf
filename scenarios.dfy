/**
 * The documents of the repository's own test cases (src/plugin.spec.ts,
 * test/plugin.ts) and what the walk makes of them, each proved from the
 * general lemmas one visit at a time. Names, values, props and selectors
 * are parameters, so each lemma covers every document of that shape. A
 * document is its tree after parsing; the results are the trees before
 * printing.
 */
module Scenarios {
  import opened Options
  import opened ScopeStack
  import opened Substitution
  import opened LogPolicy
  import opened Walker
  import opened WalkProperties

  // Small facts about the scope maps of the documents below.

  lemma PopNone(vars: Vars)
    ensures PopFrame(vars, {}) == vars
  {
  }

  lemma PopOne(vars: Vars, name: string)
    requires name in vars
    ensures PopFrame(vars, {name}) == vars[name := Pop(vars[name])]
  {
  }

  lemma UpdateTwice(vars: Vars, name: string, first: seq<string>, second: seq<string>)
    ensures vars[name := first][name := second] == vars[name := second]
  {
  }

  lemma UpdateSwap(vars: Vars, x: string, y: string, vx: seq<string>, vy: seq<string>)
    requires x != y
    ensures vars[x := vx][y := vy] == vars[y := vy][x := vx]
  {
  }

  lemma PopPair(x: string, y: string, vx: string, vy: string)
    requires x != y
    ensures PopFrame(map[x := [vx], y := [vy]], {x, y}) == map[x := [], y := []]
  {
    var r := PopFrame(map[x := [vx], y := [vy]], {x, y});
    assert Pop([vx]) == [] && Pop([vy]) == [];
    assert r[x] == [] && r[y] == [];
  }

  lemma PopSingleton(name: string, value: string)
    ensures PopFrame(map[name := [value]], {name}) == map[name := []]
  {
    PopOne(map[name := [value]], name);
    assert Pop([value]) == [];
  }

  /** A walk frame is the traversal of its children followed by the pops. */
  lemma WalkOfEach(nodes: seq<Node>, level: LogLevel, st: St, out: seq<Node>, frame: set<string>, st1: St)
    requires EachNodes(nodes, level, {}, st) == Done((out, frame), st1)
    ensures WalkFrame(nodes, level, st) == Done(out, st1.(vars := PopFrame(st1.vars, frame)))
  {
  }

  /** postcss's `each` over a one-child list. */
  lemma EachOne(n: Node, level: LogLevel, frame: set<string>, st: St)
    ensures var v := VisitNode(n, level, frame, st);
      EachNodes([n], level, frame, st) ==
        if v.Thrown? then Thrown(v.msg, v.st) else Done((Kept(v.val.0), v.val.1), v.st)
  {
    EachCons(n, [], level, frame, st);
    var v := VisitNode(n, level, frame, st);
    if v.Done? {
      assert Kept(v.val.0) + [] == Kept(v.val.0);
    }
  }

  /** `$foo: value` as the first child of the root: removed, and pushed as `foo`'s only entry. */
  lemma FirstDeclaration(foo: string, value: string)
    requires IsIdent(foo)
    ensures VisitNode(Decl("$" + foo, value), Error, {}, St(map[], [])) == Done((None, {foo}), St(map[foo := [value]], []))
  {
    var st0 := St(map[], []);
    FrameInvStart(st0.vars);
    DeclarationPushesOnce(foo, value, Error, st0.vars, {}, st0);
    assert {} + {foo} == {foo};
    assert Stack(st0.vars, foo) + [value] == [value];
    assert Declare(st0.vars, {}, foo, value).0 == map[foo := [value]];
  }

  /** `a { color: $foo }` met by the root frame after `$foo: value`. */
  lemma NestedRuleSeesValue(foo: string, value: string, prop: string, selector: string)
    requires IsIdent(foo) && '$' !in prop && '$' !in value && '$' !in selector
    ensures VisitNode(Rule(selector, [Decl(prop, "$" + foo)]), Error, {foo}, St(map[foo := [value]], [])) ==
      Done((Some(Rule(selector, [Decl(prop, value)])), {foo}), St(map[foo := [value]], []))
  {
    var st1 := St(map[foo := [value]], []);
    ReferenceWalk(foo, value, prop);
    VisitIdentity(Decl(prop, value), Error, {foo}, st1);
    EachOne(Decl(prop, value), Error, {foo}, st1);
    NoMarkerWithoutDollar(selector);
  }

  /** The walk of a single `color: $foo` while `foo` is visible as `value`. */
  lemma ReferenceWalk(foo: string, value: string, prop: string)
    requires IsIdent(foo) && '$' !in prop
    ensures WalkFrame([Decl(prop, "$" + foo)], Error, St(map[foo := [value]], [])) == Done([Decl(prop, value)], St(map[foo := [value]], []))
  {
    var st1 := St(map[foo := [value]], []);
    BareReference(prop, foo, Error, {}, st1);
    EachOne(Decl(prop, "$" + foo), Error, {}, st1);
    PopNone(st1.vars);
  }

  /**
   * `$foo: value; a { color: $foo }` under the default level: the nested
   * rule sees the root declaration, the declaration itself is removed, and
   * after the walk the name's scope is empty again.
   */
  lemma RootDeclarationReachesNestedRule(foo: string, value: string, prop: string, selector: string)
    requires IsIdent(foo) && '$' !in prop && '$' !in value && '$' !in selector
    ensures WalkFrame([Decl("$" + foo, value), Rule(selector, [Decl(prop, "$" + foo)])], Error, St(map[], [])) ==
      Done([Rule(selector, [Decl(prop, value)])], St(map[foo := []], []))
  {
    var rule := Rule(selector, [Decl(prop, "$" + foo)]);
    var st1 := St(map[foo := [value]], []);
    FirstDeclaration(foo, value);
    NestedRuleSeesValue(foo, value, prop, selector);
    EachOne(rule, Error, {foo}, st1);
    EachCons(Decl("$" + foo, value), [rule], Error, {}, St(map[], []));
    assert [] + [Rule(selector, [Decl(prop, value)])] == [Rule(selector, [Decl(prop, value)])];
    PopSingleton(foo, value);
  }

  /** The bracketed scan of a reference between two `$`-free texts. */
  lemma ScanBetween(a: string, name: string, b: string, vars: Vars)
    requires IsIdent(name) && '$' !in a && '$' !in b
    ensures Scan(a + (RefText(name, Bracketed) + b), Bracketed, vars) ==
      ScanResult(a + (Replacement(vars, name) + b), if Lookup(vars, name).None? then [name] else [])
  {
    var missing := if Lookup(vars, name).None? then [name] else [];
    ScanWithoutDollar(b, Bracketed, vars);
    ScanRef(name, b, Bracketed, vars);
    assert missing + [] == missing;
    ScanDollarFreePrefix(a, RefText(name, Bracketed) + b, Bracketed, vars);
  }

  lemma MarkerBetween(a: string, name: string, b: string)
    ensures HasBracketMarker(a + RefText(name, Bracketed) + b)
  {
    var text := a + RefText(name, Bracketed) + b;
    assert text[|a|] == '$' && text[|a| + 1] == '(';
  }

  /** A text with `$(` whose bracketed references are all visible is replaced by its scan. */
  lemma ResolveFullyResolved(text: string, result: string, level: LogLevel, st: St)
    requires HasBracketMarker(text) && Scan(text, Bracketed, st.vars) == ScanResult(result, [])
    ensures ResolveBracketed(text, level, st) == Done(result, st)
  {
    assert Messages([]) == [];
  }

  /** A visible bracketed reference `$(name)` between two `$`-free texts. */
  lemma BracketedBetween(a: string, name: string, b: string, value: string, level: LogLevel, st: St)
    requires IsIdent(name) && '$' !in a && '$' !in b
    requires Lookup(st.vars, name) == Some(value)
    ensures ResolveBracketed(a + RefText(name, Bracketed) + b, level, st) == Done(a + value + b, st)
  {
    ScanBetween(a, name, b, st.vars);
    assert a + RefText(name, Bracketed) + b == a + (RefText(name, Bracketed) + b);
    assert a + (value + b) == a + value + b;
    MarkerBetween(a, name, b);
    ResolveFullyResolved(a + RefText(name, Bracketed) + b, a + value + b, level, st);
  }

  /** `$bar: BAR; foo$(bar)baz {}` becomes `fooBARbaz {}`. */
  lemma RuleSelectorInterpolation(a: string, name: string, b: string, value: string)
    requires IsIdent(name) && '$' !in a && '$' !in b && '$' !in value
    ensures WalkFrame([Decl("$" + name, value), Rule(a + RefText(name, Bracketed) + b, [])], Error, St(map[], [])) ==
      Done([Rule(a + value + b, [])], St(map[name := []], []))
  {
    var rule := Rule(a + RefText(name, Bracketed) + b, []);
    var st1 := St(map[name := [value]], []);
    FirstDeclaration(name, value);
    BracketedBetween(a, name, b, value, Error, st1);
    WalkIdentity([], Error, st1);
    EachOne(rule, Error, {name}, st1);
    EachCons(Decl("$" + name, value), [rule], Error, {}, St(map[], []));
    assert [] + [Rule(a + value + b, [])] == [Rule(a + value + b, [])];
    PopSingleton(name, value);
  }

  /** `$bar: BAR; @a foo$(bar)baz {}` becomes `@a fooBARbaz {}`. */
  lemma AtRuleParamsInterpolation(atName: string, a: string, name: string, b: string, value: string)
    requires IsIdent(name) && '$' !in a && '$' !in b && '$' !in value
    ensures WalkFrame([Decl("$" + name, value), AtRule(atName, a + RefText(name, Bracketed) + b, [])], Error, St(map[], [])) ==
      Done([AtRule(atName, a + value + b, [])], St(map[name := []], []))
  {
    var at := AtRule(atName, a + RefText(name, Bracketed) + b, []);
    var st1 := St(map[name := [value]], []);
    FirstDeclaration(name, value);
    BracketedBetween(a, name, b, value, Error, st1);
    WalkIdentity([], Error, st1);
    EachOne(at, Error, {name}, st1);
    EachCons(Decl("$" + name, value), [at], Error, {}, St(map[], []));
    assert [] + [AtRule(atName, a + value + b, [])] == [AtRule(atName, a + value + b, [])];
    PopSingleton(name, value);
  }

  /**
   * `foo$(bar)baz: qux` with `bar` visible as `BAR` becomes
   * `fooBARbaz: qux`: the prop is substituted and, not starting with `$`,
   * stays an ordinary declaration.
   */
  lemma PropInterpolation(a: string, name: string, b: string, x: string, value: string, frame: set<string>, st: St)
    requires IsIdent(name) && a != [] && '$' !in a && '$' !in b && '$' !in value
    requires Lookup(st.vars, name) == Some(x)
    ensures VisitNode(Decl(a + RefText(name, Bracketed) + b, value), Error, frame, st) ==
      Done((Some(Decl(a + x + b, value)), frame), st)
  {
    BracketedBetween(a, name, b, x, Error, st);
    assert a[0] in a;
    assert (a + x + b)[0] == a[0];
  }

  /** `a { $foo: FOO }`, met by a frame that tracks nothing: the rule comes out empty and `foo`'s scope is popped. */
  lemma ScopedDeclaration(foo: string, value: string, selector: string, st: St)
    requires IsIdent(foo) && '$' !in selector && st == St(map[], [])
    ensures VisitNode(Rule(selector, [Decl("$" + foo, value)]), Error, {}, st) ==
      Done((Some(Rule(selector, [])), {}), St(map[foo := []], []))
  {
    var d := Decl("$" + foo, value);
    var st2 := St(map[foo := []], []);
    FirstDeclaration(foo, value);
    EachOne(d, Error, {}, st);
    assert EachNodes([d], Error, {}, st) == Done(([], {foo}), St(map[foo := [value]], []));
    PopSingleton(foo, value);
    assert WalkFrame([d], Error, st) == Done([], st2);
    NoMarkerWithoutDollar(selector);
    ScanWithoutDollar(selector, Bracketed, st.vars);
    assert ResolveBracketed(selector, Error, st) == Done(selector, st);
    assert EachNodes([], Error, {}, st2) == Done(([], {}), st2);
    assert VisitContainer(selector, [d], Error, {}, st) == Done((selector, [], {}), st2);
  }

  /** An unresolved `prop: $foo` one rule deep throws `Undefined variable: foo` under the default level. */
  lemma NestedUndefinedThrows(foo: string, prop: string, selector: string, frame: set<string>, st: St)
    requires IsIdent(foo) && '$' !in prop && '$' !in selector && Lookup(st.vars, foo).None?
    ensures VisitNode(Rule(selector, [Decl(prop, "$" + foo)]), Error, frame, st) == Thrown(UndefinedMessage(foo), st)
  {
    var d := Decl(prop, "$" + foo);
    BareReference(prop, foo, Error, {}, st);
    EachOne(d, Error, {}, st);
    assert EachNodes([d], Error, {}, st) == Thrown(UndefinedMessage(foo), st);
    assert WalkFrame([d], Error, st) == Thrown(UndefinedMessage(foo), st);
    NoMarkerWithoutDollar(selector);
    assert ResolveBracketed(selector, Error, st) == Done(selector, st);
    assert VisitContainer(selector, [d], Error, frame, st) == Thrown(UndefinedMessage(foo), st);
  }

  /**
   * `a { $foo: FOO } b { color: $foo }` throws `Undefined variable: foo`:
   * a variable is not visible outside the container that declares it.
   */
  lemma SiblingDoesNotSeeDeclaration(foo: string, value: string, s1: string, s2: string, prop: string)
    requires IsIdent(foo) && '$' !in s1 && '$' !in s2 && '$' !in prop
    ensures WalkFrame([Rule(s1, [Decl("$" + foo, value)]), Rule(s2, [Decl(prop, "$" + foo)])], Error, St(map[], [])) ==
      Thrown(UndefinedMessage(foo), St(map[foo := []], []))
  {
    var rule1 := Rule(s1, [Decl("$" + foo, value)]);
    var rule2 := Rule(s2, [Decl(prop, "$" + foo)]);
    var st2 := St(map[foo := []], []);
    ScopedDeclaration(foo, value, s1, St(map[], []));
    NestedUndefinedThrows(foo, prop, s2, {}, st2);
    EachOne(rule2, Error, {}, st2);
    EachCons(rule1, [rule2], Error, {}, St(map[], []));
  }

  /**
   * `$foo: FOO; color: $bar` under the default level throws, and the
   * entry pushed for `foo` is left on its stack: the pops run only when a
   * walk completes.
   */
  lemma ThrowLeavesPushes(foo: string, value: string, bar: string, prop: string)
    requires IsIdent(foo) && IsIdent(bar) && foo != bar && '$' !in prop
    ensures WalkFrame([Decl("$" + foo, value), Decl(prop, "$" + bar)], Error, St(map[], [])) ==
      Thrown(UndefinedMessage(bar), St(map[foo := [value]], []))
  {
    var st1 := St(map[foo := [value]], []);
    FirstDeclaration(foo, value);
    BareReference(prop, bar, Error, {foo}, st1);
    EachOne(Decl(prop, "$" + bar), Error, {foo}, st1);
    EachCons(Decl("$" + foo, value), [Decl(prop, "$" + bar)], Error, {}, St(map[], []));
  }

  /** `foo:$foo` with the global `foo: bar` becomes `foo:bar`. */
  lemma GlobalIsVisible(foo: string, value: string, prop: string)
    requires IsIdent(foo) && '$' !in prop
    ensures WalkFrame([Decl(prop, "$" + foo)], Error, St(Seed(map[foo := value]), [])) ==
      Done([Decl(prop, value)], St(Seed(map[foo := value]), []))
  {
    assert Seed(map[foo := value]) == map[foo := [value]];
    ReferenceWalk(foo, value, prop);
  }

  /** `foo:$foo` with nothing declared is kept under warn, with one warning. */
  lemma WarnKeepsReference(foo: string, prop: string)
    requires IsIdent(foo) && '$' !in prop
    ensures WalkFrame([Decl(prop, "$" + foo)], Warn, St(map[], [])) ==
      Done([Decl(prop, "$" + foo)], St(map[], [UndefinedMessage(foo)]))
  {
    var st := St(map[], []);
    BareReference(prop, foo, Warn, {}, st);
    EachOne(Decl(prop, "$" + foo), Warn, {}, st);
    PopNone(map[]);
  }

  /** `foo:$foo` with nothing declared is kept under silent, with no warning. */
  lemma SilentKeepsReference(foo: string, prop: string)
    requires IsIdent(foo) && '$' !in prop
    ensures WalkFrame([Decl(prop, "$" + foo)], Silent, St(map[], [])) ==
      Done([Decl(prop, "$" + foo)], St(map[], []))
  {
    var st := St(map[], []);
    BareReference(prop, foo, Silent, {}, st);
    EachOne(Decl(prop, "$" + foo), Silent, {}, st);
    PopNone(map[]);
  }

  /**
   * `a { color: $foo }` with nothing declared, under warn: the declaration
   * is visited by the rule's own walk and again by the outer walk, so the
   * same warning is recorded twice.
   */
  lemma NestedWarningRecordedTwice(foo: string, prop: string, selector: string)
    requires IsIdent(foo) && '$' !in prop && '$' !in selector
    ensures WalkFrame([Rule(selector, [Decl(prop, "$" + foo)])], Warn, St(map[], [])) ==
      Done([Rule(selector, [Decl(prop, "$" + foo)])], St(map[], [UndefinedMessage(foo), UndefinedMessage(foo)]))
  {
    var d := Decl(prop, "$" + foo);
    var st0 := St(map[], []);
    var st1 := St(map[], [UndefinedMessage(foo)]);
    var st2 := St(map[], [UndefinedMessage(foo), UndefinedMessage(foo)]);
    WarnKeepsReference(foo, prop);
    BareReference(prop, foo, Warn, {}, st1);
    assert st1.warnings + [UndefinedMessage(foo)] == st2.warnings;
    EachOne(d, Warn, {}, st1);
    NoMarkerWithoutDollar(selector);
    EachOne(Rule(selector, [d]), Warn, {}, st0);
    PopNone(map[]);
  }

  /**
   * A rule `b { color: $foo }` with nothing declared, visited under warn
   * by any frame: its own walk and the visiting frame's descent each warn.
   */
  lemma WarnedRuleVisit(foo: string, prop: string, selector: string, frame: set<string>, ws: seq<string>)
    requires IsIdent(foo) && '$' !in prop && '$' !in selector
    ensures var r := Rule(selector, [Decl(prop, "$" + foo)]);
      VisitNode(r, Warn, frame, St(map[], ws)) ==
        Done((Some(r), frame), St(map[], ws + [UndefinedMessage(foo), UndefinedMessage(foo)]))
  {
    var d := Decl(prop, "$" + foo);
    var m := UndefinedMessage(foo);
    var st0 := St(map[], ws);
    var st1 := St(map[], ws + [m]);
    NoMarkerWithoutDollar(selector);
    BareReference(prop, foo, Warn, {}, st0);
    EachOne(d, Warn, {}, st0);
    PopNone(map[]);
    assert WalkFrame([d], Warn, st0) == Done([d], st1);
    BareReference(prop, foo, Warn, frame, st1);
    assert st1.warnings + [m] == ws + [m, m];
    EachOne(d, Warn, frame, st1);
  }

  /**
   * `a { b { color: $foo } }` with nothing declared, under warn: the
   * declaration at depth 3 is visited four times (by `b`'s walk opened
   * from `a`'s walk, by `a`'s walk, by `b`'s walk opened from the root
   * walk, and by the root walk), so four warnings are recorded.
   */
  lemma DoublyNestedWarningRecordedFourTimes(foo: string, prop: string, sa: string, sb: string)
    requires IsIdent(foo) && '$' !in prop && '$' !in sa && '$' !in sb
    ensures var m := UndefinedMessage(foo);
      var doc := [Rule(sa, [Rule(sb, [Decl(prop, "$" + foo)])])];
      WalkFrame(doc, Warn, St(map[], [])) == Done(doc, St(map[], [m, m, m, m]))
  {
    var m := UndefinedMessage(foo);
    var rb := Rule(sb, [Decl(prop, "$" + foo)]);
    var ra := Rule(sa, [rb]);
    var st0 := St(map[], []);
    var st2 := St(map[], [m, m]);
    WarnedRuleVisit(foo, prop, sb, {}, []);
    EachOne(rb, Warn, {}, st0);
    PopNone(map[]);
    assert [] + [m, m] == [m, m];
    assert WalkFrame([rb], Warn, st0) == Done([rb], st2);
    WarnedRuleVisit(foo, prop, sb, {}, [m, m]);
    assert [m, m] + [m, m] == [m, m, m, m];
    EachOne(rb, Warn, {}, st2);
    NoMarkerWithoutDollar(sa);
    EachOne(ra, Warn, {}, st0);
  }

  /** One declaration `$foo: value` under the default level, in any frame and scope. */
  lemma DeclStep(foo: string, value: string, frame: set<string>, vars: Vars)
    requires IsIdent(foo)
    ensures VisitNode(Decl("$" + foo, value), Error, frame, St(vars, [])) ==
      Done((None, frame + {foo}), St(Declare(vars, frame, foo, value).0, []))
  {
    NoMarkerInDeclarationProp(foo);
    assert ("$" + foo)[1..] == foo;
  }

  /** `prop: $foo` followed by the rest of a child list, with `foo` visible as `value`. */
  lemma RefStep(prop: string, foo: string, value: string, rest: seq<Node>, frame: set<string>, vars: Vars)
    requires IsIdent(foo) && '$' !in prop && Lookup(vars, foo) == Some(value)
    ensures EachNodes([Decl(prop, "$" + foo)] + rest, Error, frame, St(vars, [])) ==
      Prepend([Decl(prop, value)], EachNodes(rest, Error, frame, St(vars, [])))
  {
    BareReference(prop, foo, Error, frame, St(vars, []));
    EachCons(Decl(prop, "$" + foo), rest, Error, frame, St(vars, []));
  }

  /** `baz: $foo` as the last child, with `foo` visible as `b`. */
  lemma LastRef(prop: string, foo: string, b: string, frame: set<string>, vars: Vars)
    requires IsIdent(foo) && '$' !in prop && Lookup(vars, foo) == Some(b)
    ensures EachNodes([Decl(prop, "$" + foo)], Error, frame, St(vars, [])) == Done(([Decl(prop, b)], frame), St(vars, []))
  {
    RefStep(prop, foo, b, [], frame, vars);
    assert [Decl(prop, "$" + foo)] + [] == [Decl(prop, "$" + foo)];
    assert [Decl(prop, b)] + [] == [Decl(prop, b)];
  }

  /** The children of `b { $foo: B; baz: $foo }` in a fresh frame while `foo` is visible as `A`. */
  lemma ShadowingEach(foo: string, a: string, b: string, p1: string)
    requires IsIdent(foo) && '$' !in p1
    ensures EachNodes([Decl("$" + foo, b), Decl(p1, "$" + foo)], Error, {}, St(map[foo := [a]], [])) ==
      Done(([Decl(p1, b)], {foo}), St(map[foo := [a, b]], []))
  {
    var vab: Vars := map[foo := [a, b]];
    var d := Decl("$" + foo, b);
    var r := Decl(p1, "$" + foo);
    var st0 := St(map[foo := [a]], []);
    assert Lookup(vab, foo) == Some(b) by {
      assert Stack(vab, foo) == [a, b];
    }
    LastRef(p1, foo, b, {foo}, vab);
    assert Declare(st0.vars, {}, foo, b).0 == vab by {
      assert Stack(st0.vars, foo) + [b] == [a, b];
    }
    assert VisitNode(d, Error, {}, st0) == Done((None, {foo}), St(vab, [])) by {
      DeclStep(foo, b, {}, st0.vars);
      assert {} + {foo} == {foo};
    }
    EachCons(d, [r], Error, {}, st0);
    assert [d] + [r] == [d, r];
    assert [] + [Decl(p1, b)] == [Decl(p1, b)];
  }

  /** The nested walk of `b { $foo: B; baz: $foo }` while `foo` is visible as `A`. */
  lemma ShadowingWalk(foo: string, a: string, b: string, p1: string)
    requires IsIdent(foo) && '$' !in p1
    ensures WalkFrame([Decl("$" + foo, b), Decl(p1, "$" + foo)], Error, St(map[foo := [a]], [])) ==
      Done([Decl(p1, b)], St(map[foo := [a]], []))
  {
    ShadowingEach(foo, a, b, p1);
    assert Pop([a, b]) == [a];
    PopOne(map[foo := [a, b]], foo);
    assert Pop([a, b]) == [a];
    UpdateTwice(map[], foo, [a, b], [a]);
  }

  /** `b { $foo: B; baz: $foo }` met by a frame that has declared `foo` as `A`. */
  lemma ShadowingRule(foo: string, a: string, b: string, p1: string, selector: string)
    requires IsIdent(foo) && '$' !in p1 && '$' !in b && '$' !in selector
    ensures VisitNode(Rule(selector, [Decl("$" + foo, b), Decl(p1, "$" + foo)]), Error, {foo}, St(map[foo := [a]], [])) ==
      Done((Some(Rule(selector, [Decl(p1, b)])), {foo}), St(map[foo := [a]], []))
  {
    var st1 := St(map[foo := [a]], []);
    ShadowingWalk(foo, a, b, p1);
    VisitIdentity(Decl(p1, b), Error, {foo}, st1);
    EachOne(Decl(p1, b), Error, {foo}, st1);
    NoMarkerWithoutDollar(selector);
  }

  /** `$c: $b; d: $c` in a fresh frame: `c` is declared with the raw text `$b`, which is what `d` receives. */
  lemma RawValueEach(b: string, c: string, p: string, vars: Vars)
    requires IsIdent(b) && IsIdent(c) && b != c && '$' !in p && c !in vars
    ensures EachNodes([Decl("$" + c, "$" + b), Decl(p, "$" + c)], Error, {}, St(vars, [])) ==
      Done(([Decl(p, "$" + b)], {c}), St(vars[c := ["$" + b]], []))
  {
    var d := Decl("$" + c, "$" + b);
    var r := Decl(p, "$" + c);
    var v1 := vars[c := ["$" + b]];
    assert Lookup(v1, c) == Some("$" + b);
    LastRef(p, c, "$" + b, {c}, v1);
    assert Declare(vars, {}, c, "$" + b).0 == v1 by {
      assert Stack(vars, c) + ["$" + b] == ["$" + b];
    }
    assert VisitNode(d, Error, {}, St(vars, [])) == Done((None, {c}), St(v1, [])) by {
      DeclStep(c, "$" + b, {}, vars);
      assert {} + {c} == {c};
    }
    EachCons(d, [r], Error, {}, St(vars, []));
    assert [d] + [r] == [d, r];
    assert [] + [Decl(p, "$" + b)] == [Decl(p, "$" + b)];
  }

  /** The rule `a { $c: $b; d: $c }` met by the root frame after `$b: B`. */
  lemma RawValueRule(b: string, c: string, bValue: string, p: string, selector: string)
    requires IsIdent(b) && IsIdent(c) && b != c && '$' !in p && '$' !in bValue && '$' !in selector
    ensures VisitNode(Rule(selector, [Decl("$" + c, "$" + b), Decl(p, "$" + c)]), Error, {b}, St(map[b := [bValue]], [])) ==
      Done((Some(Rule(selector, [Decl(p, bValue)])), {b}), St(map[b := [bValue], c := []], []))
  {
    var v2: Vars := map[b := [bValue], c := []];
    RawValueWalk(b, c, bValue, p);
    assert Lookup(v2, b) == Some(bValue);
    LastRef(p, b, bValue, {b}, v2);
    NoMarkerWithoutDollar(selector);
  }

  /** The nested walk of `a { $c: $b; d: $c }` while `b` is visible as `B`. */
  lemma RawValueWalk(b: string, c: string, bValue: string, p: string)
    requires IsIdent(b) && IsIdent(c) && b != c && '$' !in p
    ensures WalkFrame([Decl("$" + c, "$" + b), Decl(p, "$" + c)], Error, St(map[b := [bValue]], [])) ==
      Done([Decl(p, "$" + b)], St(map[b := [bValue], c := []], []))
  {
    var vars: Vars := map[b := [bValue]];
    var nodes := [Decl("$" + c, "$" + b), Decl(p, "$" + c)];
    RawValueEach(b, c, p, vars);
    WalkOfEach(nodes, Error, St(vars, []), [Decl(p, "$" + b)], {c}, St(vars[c := ["$" + b]], []));
    assert PopFrame(vars[c := ["$" + b]], {c}) == map[b := [bValue], c := []] by {
      PopOne(vars[c := ["$" + b]], c);
      assert Pop(["$" + b]) == [];
      UpdateTwice(vars, c, ["$" + b], []);
    }
  }

  /**
   * `$b: B; a { $c: $b; d: $c }` becomes `a { d: B }`: `c` holds the raw
   * text `$b`, which the rule's own walk puts into `d`, and the outer walk,
   * visiting `d` again, replaces it by the value of `b`.
   */
  lemma RawValueResolvedByOuterVisit(b: string, c: string, bValue: string, p: string, selector: string)
    requires IsIdent(b) && IsIdent(c) && b != c && '$' !in p && '$' !in bValue && '$' !in selector
    ensures WalkFrame([Decl("$" + b, bValue), Rule(selector, [Decl("$" + c, "$" + b), Decl(p, "$" + c)])], Error, St(map[], [])) ==
      Done([Rule(selector, [Decl(p, bValue)])], St(map[b := [], c := []], []))
  {
    var d := Decl("$" + b, bValue);
    var rule := Rule(selector, [Decl("$" + c, "$" + b), Decl(p, "$" + c)]);
    var v2: Vars := map[b := [bValue], c := []];
    FirstDeclaration(b, bValue);
    RawValueRule(b, c, bValue, p, selector);
    EachOne(rule, Error, {b}, St(map[b := [bValue]], []));
    EachCons(d, [rule], Error, {}, St(map[], []));
    assert [] + [Rule(selector, [Decl(p, bValue)])] == [Rule(selector, [Decl(p, bValue)])];
    assert PopFrame(v2, {b}) == map[b := [], c := []] by {
      PopOne(v2, b);
      assert Pop([bValue]) == [];
      UpdateSwap(map[b := [bValue]], c, b, [], []);
      UpdateTwice(map[], b, [bValue], []);
    }
  }

  /** `$c: $b; d: $c` in a frame that has already declared `b`. */
  lemma ChainedTail(b: string, c: string, bValue: string, p: string)
    requires IsIdent(b) && IsIdent(c) && b != c && '$' !in p
    ensures EachNodes([Decl("$" + c, "$" + b), Decl(p, "$" + c)], Error, {b}, St(map[b := [bValue]], [])) ==
      Done(([Decl(p, "$" + b)], {b, c}), St(map[b := [bValue], c := ["$" + b]], []))
  {
    var vars: Vars := map[b := [bValue]];
    var dc := Decl("$" + c, "$" + b);
    var r := Decl(p, "$" + c);
    var v1: Vars := map[b := [bValue], c := ["$" + b]];
    assert Lookup(v1, c) == Some("$" + b);
    LastRef(p, c, "$" + b, {b, c}, v1);
    assert Declare(vars, {b}, c, "$" + b).0 == v1 by {
      assert Stack(vars, c) + ["$" + b] == ["$" + b];
    }
    assert VisitNode(dc, Error, {b}, St(vars, [])) == Done((None, {b, c}), St(v1, [])) by {
      DeclStep(c, "$" + b, {b}, vars);
      assert {b} + {c} == {b, c};
    }
    EachCons(dc, [r], Error, {b}, St(vars, []));
    assert [dc] + [r] == [dc, r];
    assert [] + [Decl(p, "$" + b)] == [Decl(p, "$" + b)];
  }

  /** `$b: B; $c: $b; d: $c` in a fresh frame with nothing declared. */
  lemma ChainedEach(b: string, c: string, bValue: string, p: string)
    requires IsIdent(b) && IsIdent(c) && b != c && '$' !in p
    ensures EachNodes([Decl("$" + b, bValue), Decl("$" + c, "$" + b), Decl(p, "$" + c)], Error, {}, St(map[], [])) ==
      Done(([Decl(p, "$" + b)], {b, c}), St(map[b := [bValue], c := ["$" + b]], []))
  {
    var d := Decl("$" + b, bValue);
    var rest := [Decl("$" + c, "$" + b), Decl(p, "$" + c)];
    FirstDeclaration(b, bValue);
    ChainedTail(b, c, bValue, p);
    EachCons(d, rest, Error, {}, St(map[], []));
    assert [d] + rest == [d, Decl("$" + c, "$" + b), Decl(p, "$" + c)];
    assert [] + [Decl(p, "$" + b)] == [Decl(p, "$" + b)];
  }

  /**
   * `a { $b: B; $c: $b; d: $c }` throws `Undefined variable: b` under the
   * default level: the rule's own walk leaves `d: $b` and pops `b`; the
   * outer walk then visits `d` again and finds no value for `b`.
   */
  lemma ChainedDeclarationThrowsOnRevisit(b: string, c: string, bValue: string, p: string, selector: string)
    requires IsIdent(b) && IsIdent(c) && b != c && '$' !in p && '$' !in selector
    ensures WalkFrame([Rule(selector, [Decl("$" + b, bValue), Decl("$" + c, "$" + b), Decl(p, "$" + c)])], Error, St(map[], [])) ==
      Thrown(UndefinedMessage(b), St(map[b := [], c := []], []))
  {
    var kids := [Decl("$" + b, bValue), Decl("$" + c, "$" + b), Decl(p, "$" + c)];
    var v2: Vars := map[b := [], c := []];
    ChainedEach(b, c, bValue, p);
    PopPair(b, c, bValue, "$" + b);
    assert WalkFrame(kids, Error, St(map[], [])) == Done([Decl(p, "$" + b)], St(v2, []));
    BareReference(p, b, Error, {}, St(v2, []));
    EachOne(Decl(p, "$" + b), Error, {}, St(v2, []));
    NoMarkerWithoutDollar(selector);
    assert VisitNode(Rule(selector, kids), Error, {}, St(map[], [])) == Thrown(UndefinedMessage(b), St(v2, []));
    EachOne(Rule(selector, kids), Error, {}, St(map[], []));
  }
}
