/**
 * Whole documents of src/plugin.spec.ts, each as its root's child list,
 * and what the root walk makes of them under the default level. Names,
 * values, props and selectors are parameters; spaces between references
 * are separators that start with a non-identifier character. Each walk is
 * put together from the steps below, one container at a time, and the
 * visits of an enclosing frame into children that a nested walk has
 * already rewritten are covered by the identity of `$`-free trees.
 */
module Documents {
  import opened Options
  import opened ScopeStack
  import opened Substitution
  import opened LogPolicy
  import opened Walker
  import opened WalkProperties
  import opened Scenarios

  // ---------------------------------------------------------------------
  // Steps.

  /**
   * A container with a `$`-free selector or params whose nested walk
   * leaves `$`-free children: the enclosing frame's descent into those
   * children changes nothing.
   */
  lemma ContainerResolves(text: string, kids: seq<Node>, kids1: seq<Node>, level: LogLevel, frame: set<string>, st: St, st2: St)
    requires '$' !in text && WalkFrame(kids, level, st) == Done(kids1, st2) && DollarFree(kids1)
    ensures VisitContainer(text, kids, level, frame, st) == Done((text, kids1, frame), st2)
  {
    NoMarkerWithoutDollar(text);
    EachIdentity(kids1, level, frame, st2);
  }

  lemma RuleResolves(selector: string, kids: seq<Node>, kids1: seq<Node>, level: LogLevel, frame: set<string>, st: St, st2: St)
    requires '$' !in selector && WalkFrame(kids, level, st) == Done(kids1, st2) && DollarFree(kids1)
    ensures VisitNode(Rule(selector, kids), level, frame, st) == Done((Some(Rule(selector, kids1)), frame), st2)
  {
    ContainerResolves(selector, kids, kids1, level, frame, st, st2);
  }

  lemma AtRuleResolves(name: string, params: string, kids: seq<Node>, kids1: seq<Node>, level: LogLevel,
                       frame: set<string>, st: St, st2: St)
    requires '$' !in params && WalkFrame(kids, level, st) == Done(kids1, st2) && DollarFree(kids1)
    ensures VisitNode(AtRule(name, params, kids), level, frame, st) == Done((Some(AtRule(name, params, kids1)), frame), st2)
  {
    ContainerResolves(params, kids, kids1, level, frame, st, st2);
  }

  /** The walk of a one-child list whose child declares nothing. */
  lemma SoleChild(n: Node, n1: Node, level: LogLevel, st: St, st2: St)
    requires VisitNode(n, level, {}, st) == Done((Some(n1), {}), st2)
    ensures WalkFrame([n], level, st) == Done([n1], st2)
  {
    EachOne(n, level, {}, st);
    PopNone(st2.vars);
  }

  /** One child followed by the rest of the list. */
  lemma EachStep(n: Node, rest: seq<Node>, level: LogLevel, frame: set<string>, st: St,
                 kept: Option<Node>, frame1: set<string>, st1: St, out: seq<Node>, frame2: set<string>, st2: St)
    requires VisitNode(n, level, frame, st) == Done((kept, frame1), st1)
    requires EachNodes(rest, level, frame1, st1) == Done((out, frame2), st2)
    ensures EachNodes([n] + rest, level, frame, st) == Done((Kept(kept) + out, frame2), st2)
  {
    EachCons(n, rest, level, frame, st);
  }

  /** A declaration whose value holds `$` and whose references are all visible. */
  lemma ValueResolves(prop: string, value: string, result: string, level: LogLevel, frame: set<string>, st: St)
    requires '$' !in prop && '$' in value && Scan(value, Bare, st.vars) == ScanResult(result, [])
    ensures VisitNode(Decl(prop, value), level, frame, st) == Done((Some(Decl(prop, result)), frame), st)
  {
    NoMarkerWithoutDollar(prop);
    assert !IsDeclarationProp(prop) by {
      if |prop| >= 1 { assert prop[0] in prop; }
    }
    assert st.warnings + Messages([]) == st.warnings;
  }

  /** The walk of the one-child list `prop: $foo` with `foo` visible as `value`. */
  lemma ReferenceChild(prop: string, foo: string, value: string, vars: Vars)
    requires IsIdent(foo) && '$' !in prop && '$' !in value && Lookup(vars, foo) == Some(value)
    ensures WalkFrame([Decl(prop, "$" + foo)], Error, St(vars, [])) == Done([Decl(prop, value)], St(vars, []))
    ensures DollarFree([Decl(prop, value)])
  {
    var st := St(vars, []);
    BareReference(prop, foo, Error, {}, st);
    SoleChild(Decl(prop, "$" + foo), Decl(prop, value), Error, st, st);
    assert [Decl(prop, value)][1..] == [];
  }

  /** `s { prop: $foo }` with `foo` visible as `value`, met by any frame. */
  lemma NestedReference(prop: string, foo: string, value: string, selector: string, frame: set<string>, vars: Vars)
    requires IsIdent(foo) && '$' !in prop && '$' !in value && '$' !in selector && Lookup(vars, foo) == Some(value)
    ensures VisitNode(Rule(selector, [Decl(prop, "$" + foo)]), Error, frame, St(vars, [])) ==
      Done((Some(Rule(selector, [Decl(prop, value)])), frame), St(vars, []))
  {
    ReferenceChild(prop, foo, value, vars);
    RuleResolves(selector, [Decl(prop, "$" + foo)], [Decl(prop, value)], Error, frame, St(vars, []), St(vars, []));
  }

  lemma DollarFreeOne(n: Node)
    requires NodeDollarFree(n)
    ensures DollarFree([n])
  {
    assert [n][1..] == [];
  }

  lemma DollarFreePair(m: Node, n: Node)
    requires NodeDollarFree(m) && NodeDollarFree(n)
    ensures DollarFree([m, n])
  {
    DollarFreeOne(n);
    assert [m, n][1..] == [n];
  }

  // ---------------------------------------------------------------------
  // src/plugin.spec.ts:52-61: several references in one value.

  /** A bare reference followed by a `$`-free separator and the rest of the value. */
  lemma ScanRefThen(name: string, sep: string, rest: string, vars: Vars)
    requires IsIdent(name) && sep != [] && !IsIdentChar(sep[0]) && '$' !in sep
    ensures Scan(RefText(name, Bare) + (sep + rest), Bare, vars) ==
      ScanResult(Replacement(vars, name) + (sep + Scan(rest, Bare, vars).text),
                 (if Lookup(vars, name).None? then [name] else []) + Scan(rest, Bare, vars).unresolved)
  {
    assert (sep + rest)[0] == sep[0];
    ScanRef(name, sep + rest, Bare, vars);
    ScanDollarFreePrefix(sep, rest, Bare, vars);
  }

  /** A bare reference followed by a `$`-free tail that cannot extend its name. */
  lemma ScanRefLast(name: string, tail: string, vars: Vars)
    requires IsIdent(name) && (tail == [] || !IsIdentChar(tail[0])) && '$' !in tail
    ensures Scan(RefText(name, Bare) + tail, Bare, vars) ==
      ScanResult(Replacement(vars, name) + tail, if Lookup(vars, name).None? then [name] else [])
  {
    var missing := if Lookup(vars, name).None? then [name] else [];
    ScanRef(name, tail, Bare, vars);
    ScanWithoutDollar(tail, Bare, vars);
    assert missing + [] == missing;
  }

  /** `$foo $bar $foo baz` with both names visible. */
  lemma ThreeReferencesScan(foo: string, bar: string, sep: string, tail: string, fv: string, bv: string, vars: Vars)
    requires IsIdent(foo) && IsIdent(bar) && sep != [] && !IsIdentChar(sep[0]) && '$' !in sep
    requires (tail == [] || !IsIdentChar(tail[0])) && '$' !in tail
    requires Lookup(vars, foo) == Some(fv) && Lookup(vars, bar) == Some(bv)
    ensures Scan(RefText(foo, Bare) + (sep + (RefText(bar, Bare) + (sep + (RefText(foo, Bare) + tail)))), Bare, vars) ==
      ScanResult(fv + (sep + (bv + (sep + (fv + tail)))), [])
  {
    ScanRefLast(foo, tail, vars);
    ScanRefThen(bar, sep, RefText(foo, Bare) + tail, vars);
    ScanRefThen(foo, sep, RefText(bar, Bare) + (sep + (RefText(foo, Bare) + tail)), vars);
  }

  /** The scope after `$foo: fv; $bar: bv` in a fresh root frame. */
  lemma TwoDeclarations(foo: string, bar: string, fv: string, bv: string)
    requires IsIdent(foo) && IsIdent(bar) && foo != bar
    ensures VisitNode(Decl("$" + bar, bv), Error, {foo}, St(map[foo := [fv]], [])) ==
      Done((None, {foo, bar}), St(map[foo := [fv], bar := [bv]], []))
  {
    DeclStep(bar, bv, {foo}, map[foo := [fv]]);
    assert Stack(map[foo := [fv]], bar) + [bv] == [bv];
    assert {foo} + {bar} == {foo, bar};
  }

  /** `a { baz: $foo $bar $foo baz }` while both names are visible, met by the root frame. */
  lemma ThreeReferencesRule(foo: string, bar: string, fv: string, bv: string, sep: string, tail: string,
                            prop: string, selector: string, vars: Vars)
    requires IsIdent(foo) && IsIdent(bar) && sep != [] && !IsIdentChar(sep[0]) && '$' !in sep
    requires (tail == [] || !IsIdentChar(tail[0])) && '$' !in tail
    requires '$' !in fv && '$' !in bv && '$' !in prop && '$' !in selector
    requires Lookup(vars, foo) == Some(fv) && Lookup(vars, bar) == Some(bv)
    ensures var value := RefText(foo, Bare) + (sep + (RefText(bar, Bare) + (sep + (RefText(foo, Bare) + tail))));
      VisitNode(Rule(selector, [Decl(prop, value)]), Error, {foo, bar}, St(vars, [])) ==
      Done((Some(Rule(selector, [Decl(prop, fv + (sep + (bv + (sep + (fv + tail)))))])), {foo, bar}), St(vars, []))
  {
    var value := RefText(foo, Bare) + (sep + (RefText(bar, Bare) + (sep + (RefText(foo, Bare) + tail))));
    var result := fv + (sep + (bv + (sep + (fv + tail))));
    var st := St(vars, []);
    ThreeReferencesScan(foo, bar, sep, tail, fv, bv, vars);
    assert value[0] == '$';
    ValueResolves(prop, value, result, Error, {}, st);
    SoleChild(Decl(prop, value), Decl(prop, result), Error, st, st);
    DollarFreeOne(Decl(prop, result));
    RuleResolves(selector, [Decl(prop, value)], [Decl(prop, result)], Error, {foo, bar}, st, st);
  }

  /** `$bar: bv` and one more child, in a frame that has declared only `foo`. */
  lemma SecondDeclarationThen(foo: string, bar: string, fv: string, bv: string, n: Node, n1: Node)
    requires IsIdent(foo) && IsIdent(bar) && foo != bar
    requires VisitNode(n, Error, {foo, bar}, St(map[foo := [fv], bar := [bv]], [])) ==
      Done((Some(n1), {foo, bar}), St(map[foo := [fv], bar := [bv]], []))
    ensures EachNodes([Decl("$" + bar, bv), n], Error, {foo}, St(map[foo := [fv]], [])) ==
      Done(([n1], {foo, bar}), St(map[foo := [fv], bar := [bv]], []))
  {
    var st2 := St(map[foo := [fv], bar := [bv]], []);
    var d2 := Decl("$" + bar, bv);
    EachOne(n, Error, {foo, bar}, st2);
    TwoDeclarations(foo, bar, fv, bv);
    EachStep(d2, [n], Error, {foo}, St(map[foo := [fv]], []), None, {foo, bar}, st2, [n1], {foo, bar}, st2);
    assert [d2] + [n] == [d2, n];
    assert [] + [n1] == [n1];
  }

  /** `$foo: fv; $bar: bv` followed by one more child, in a fresh root frame. */
  lemma TwoDeclarationsThen(foo: string, bar: string, fv: string, bv: string, n: Node, n1: Node)
    requires IsIdent(foo) && IsIdent(bar) && foo != bar
    requires VisitNode(n, Error, {foo, bar}, St(map[foo := [fv], bar := [bv]], [])) ==
      Done((Some(n1), {foo, bar}), St(map[foo := [fv], bar := [bv]], []))
    ensures WalkFrame([Decl("$" + foo, fv), Decl("$" + bar, bv), n], Error, St(map[], [])) ==
      Done([n1], St(map[foo := [], bar := []], []))
  {
    var st2 := St(map[foo := [fv], bar := [bv]], []);
    var d1 := Decl("$" + foo, fv);
    var d2 := Decl("$" + bar, bv);
    SecondDeclarationThen(foo, bar, fv, bv, n, n1);
    FirstDeclaration(foo, fv);
    assert [] + [n1] == [n1];
    EachStep(d1, [d2, n], Error, {}, St(map[], []), None, {foo}, St(map[foo := [fv]], []), [n1], {foo, bar}, st2);
    assert [d1] + [d2, n] == [d1, d2, n];
    WalkOfEach([d1, d2, n], Error, St(map[], []), [n1], {foo, bar}, st2);
    PopPair(foo, bar, fv, bv);
  }

  /**
   * `$foo: FOO; $bar: BAR; a { baz: $foo $bar $foo baz }` becomes
   * `a { baz: FOO BAR FOO baz }`: every reference in a value is replaced,
   * the same name as often as it occurs.
   */
  lemma SameValueReferences(foo: string, bar: string, fv: string, bv: string, sep: string, tail: string,
                            prop: string, selector: string)
    requires IsIdent(foo) && IsIdent(bar) && foo != bar && sep != [] && !IsIdentChar(sep[0]) && '$' !in sep
    requires (tail == [] || !IsIdentChar(tail[0])) && '$' !in tail
    requires '$' !in fv && '$' !in bv && '$' !in prop && '$' !in selector
    ensures var value := RefText(foo, Bare) + (sep + (RefText(bar, Bare) + (sep + (RefText(foo, Bare) + tail))));
      WalkFrame([Decl("$" + foo, fv), Decl("$" + bar, bv), Rule(selector, [Decl(prop, value)])], Error, St(map[], [])) ==
      Done([Rule(selector, [Decl(prop, fv + (sep + (bv + (sep + (fv + tail)))))])], St(map[foo := [], bar := []], []))
  {
    var vars2: Vars := map[foo := [fv], bar := [bv]];
    assert Lookup(vars2, foo) == Some(fv) && Lookup(vars2, bar) == Some(bv);
    ThreeReferencesRule(foo, bar, fv, bv, sep, tail, prop, selector, vars2);
    var value := RefText(foo, Bare) + (sep + (RefText(bar, Bare) + (sep + (RefText(foo, Bare) + tail))));
    var result := fv + (sep + (bv + (sep + (fv + tail))));
    TwoDeclarationsThen(foo, bar, fv, bv, Rule(selector, [Decl(prop, value)]), Rule(selector, [Decl(prop, result)]));
  }

  // ---------------------------------------------------------------------
  // src/plugin.spec.ts:128-136: declared and used in the same rule.

  /** `a { $foo: FOO; bar: $foo }` becomes `a { bar: FOO }`. */
  lemma SameRuleDeclaration(foo: string, fv: string, prop: string, selector: string)
    requires IsIdent(foo) && '$' !in fv && '$' !in prop && '$' !in selector
    ensures WalkFrame([Rule(selector, [Decl("$" + foo, fv), Decl(prop, "$" + foo)])], Error, St(map[], [])) ==
      Done([Rule(selector, [Decl(prop, fv)])], St(map[foo := []], []))
  {
    var st0 := St(map[], []);
    var st1 := St(map[foo := [fv]], []);
    var d := Decl("$" + foo, fv);
    var r := Decl(prop, "$" + foo);
    FirstDeclaration(foo, fv);
    LastRef(prop, foo, fv, {foo}, st1.vars);
    EachStep(d, [r], Error, {}, st0, None, {foo}, st1, [Decl(prop, fv)], {foo}, st1);
    assert [d] + [r] == [d, r];
    assert [] + [Decl(prop, fv)] == [Decl(prop, fv)];
    WalkOfEach([d, r], Error, st0, [Decl(prop, fv)], {foo}, st1);
    PopSingleton(foo, fv);
    DollarFreeOne(Decl(prop, fv));
    RuleResolves(selector, [d, r], [Decl(prop, fv)], Error, {}, st0, St(map[foo := []], []));
    SoleChild(Rule(selector, [d, r]), Rule(selector, [Decl(prop, fv)]), Error, st0, St(map[foo := []], []));
  }

  // ---------------------------------------------------------------------
  // src/plugin.spec.ts:107-126: the outer value is back after the inner rule.

  /**
   * `a { $foo: FOO; b { $foo: BAR; baz: $foo } c { qux: $foo } }` becomes
   * `a { b { baz: BAR } c { qux: FOO } }`: the inner declaration shadows the
   * outer one only inside `b`.
   */
  lemma InnerShadowsThenRestores(foo: string, fv: string, bv: string, p1: string, p2: string, sa: string, sb: string, sc: string)
    requires IsIdent(foo) && '$' !in fv && '$' !in bv && '$' !in p1 && '$' !in p2
    requires '$' !in sa && '$' !in sb && '$' !in sc
    ensures WalkFrame([Rule(sa, [Decl("$" + foo, fv),
                                 Rule(sb, [Decl("$" + foo, bv), Decl(p1, "$" + foo)]),
                                 Rule(sc, [Decl(p2, "$" + foo)])])], Error, St(map[], [])) ==
      Done([Rule(sa, [Rule(sb, [Decl(p1, bv)]), Rule(sc, [Decl(p2, fv)])])], St(map[foo := []], []))
  {
    var st0 := St(map[], []);
    var st1 := St(map[foo := [fv]], []);
    var d := Decl("$" + foo, fv);
    var rb := Rule(sb, [Decl("$" + foo, bv), Decl(p1, "$" + foo)]);
    var rc := Rule(sc, [Decl(p2, "$" + foo)]);
    var rb1 := Rule(sb, [Decl(p1, bv)]);
    var rc1 := Rule(sc, [Decl(p2, fv)]);
    FirstDeclaration(foo, fv);
    ShadowingRule(foo, fv, bv, p1, sb);
    NestedRuleSeesValue(foo, fv, p2, sc);
    EachOne(rc, Error, {foo}, st1);
    EachStep(rb, [rc], Error, {foo}, st1, Some(rb1), {foo}, st1, [rc1], {foo}, st1);
    assert [rb] + [rc] == [rb, rc];
    assert Kept(Some(rb1)) + [rc1] == [rb1, rc1];
    EachStep(d, [rb, rc], Error, {}, st0, None, {foo}, st1, [rb1, rc1], {foo}, st1);
    assert [d] + [rb, rc] == [d, rb, rc];
    assert [] + [rb1, rc1] == [rb1, rc1];
    WalkOfEach([d, rb, rc], Error, st0, [rb1, rc1], {foo}, st1);
    PopSingleton(foo, fv);
    DollarFreeOne(Decl(p1, bv));
    DollarFreeOne(Decl(p2, fv));
    DollarFreePair(rb1, rc1);
    RuleResolves(sa, [d, rb, rc], [rb1, rc1], Error, {}, st0, St(map[foo := []], []));
    SoleChild(Rule(sa, [d, rb, rc]), Rule(sa, [rb1, rc1]), Error, st0, St(map[foo := []], []));
  }

  // ---------------------------------------------------------------------
  // src/plugin.spec.ts:160-177: the closest declaration wins.

  /** The nested walk of `@b { $foo: BAR; c { baz: $foo } }` while `foo` is visible as `FOO`. */
  lemma ClosestInnerWalk(foo: string, fv: string, bv: string, prop: string, sc: string)
    requires IsIdent(foo) && '$' !in bv && '$' !in prop && '$' !in sc
    ensures WalkFrame([Decl("$" + foo, bv), Rule(sc, [Decl(prop, "$" + foo)])], Error, St(map[foo := [fv]], [])) ==
      Done([Rule(sc, [Decl(prop, bv)])], St(map[foo := [fv]], []))
  {
    var st0 := St(map[foo := [fv]], []);
    var vfb: Vars := map[foo := [fv, bv]];
    var d := Decl("$" + foo, bv);
    var rc := Rule(sc, [Decl(prop, "$" + foo)]);
    var rc1 := Rule(sc, [Decl(prop, bv)]);
    assert VisitNode(d, Error, {}, st0) == Done((None, {foo}), St(vfb, [])) by {
      DeclStep(foo, bv, {}, st0.vars);
      assert Stack(st0.vars, foo) + [bv] == [fv, bv];
      assert {} + {foo} == {foo};
    }
    assert Lookup(vfb, foo) == Some(bv) by {
      assert Stack(vfb, foo) == [fv, bv];
    }
    NestedReference(prop, foo, bv, sc, {foo}, vfb);
    EachOne(rc, Error, {foo}, St(vfb, []));
    EachStep(d, [rc], Error, {}, st0, None, {foo}, St(vfb, []), [rc1], {foo}, St(vfb, []));
    assert [d] + [rc] == [d, rc];
    assert [] + [rc1] == [rc1];
    WalkOfEach([d, rc], Error, st0, [rc1], {foo}, St(vfb, []));
    assert PopFrame(vfb, {foo}) == st0.vars by {
      PopOne(vfb, foo);
      assert Pop([fv, bv]) == [fv];
      UpdateTwice(map[], foo, [fv, bv], [fv]);
    }
  }

  /**
   * `@a { $foo: FOO; @b { $foo: BAR; c { baz: $foo } } }` becomes
   * `@a { @b { c { baz: BAR } } }`.
   */
  lemma ClosestDeclarationWins(foo: string, fv: string, bv: string, prop: string, na: string, pa: string,
                               nb: string, pb: string, sc: string)
    requires IsIdent(foo) && '$' !in bv && '$' !in prop && '$' !in pa && '$' !in pb && '$' !in sc
    ensures WalkFrame([AtRule(na, pa, [Decl("$" + foo, fv),
                                       AtRule(nb, pb, [Decl("$" + foo, bv), Rule(sc, [Decl(prop, "$" + foo)])])])],
                      Error, St(map[], [])) ==
      Done([AtRule(na, pa, [AtRule(nb, pb, [Rule(sc, [Decl(prop, bv)])])])], St(map[foo := []], []))
  {
    var st0 := St(map[], []);
    var st1 := St(map[foo := [fv]], []);
    var d := Decl("$" + foo, fv);
    var bKids := [Decl("$" + foo, bv), Rule(sc, [Decl(prop, "$" + foo)])];
    var bKids1 := [Rule(sc, [Decl(prop, bv)])];
    var b := AtRule(nb, pb, bKids);
    var b1 := AtRule(nb, pb, bKids1);
    ClosestInnerWalk(foo, fv, bv, prop, sc);
    DollarFreeOne(Decl(prop, bv));
    DollarFreeOne(Rule(sc, [Decl(prop, bv)]));
    AtRuleResolves(nb, pb, bKids, bKids1, Error, {foo}, st1, st1);
    FirstDeclaration(foo, fv);
    EachOne(b, Error, {foo}, st1);
    EachStep(d, [b], Error, {}, st0, None, {foo}, st1, [b1], {foo}, st1);
    assert [d] + [b] == [d, b];
    assert [] + [b1] == [b1];
    WalkOfEach([d, b], Error, st0, [b1], {foo}, st1);
    PopSingleton(foo, fv);
    DollarFreeOne(b1);
    AtRuleResolves(na, pa, [d, b], [b1], Error, {}, st0, St(map[foo := []], []));
    SoleChild(AtRule(na, pa, [d, b]), AtRule(na, pa, [b1]), Error, st0, St(map[foo := []], []));
  }

  // ---------------------------------------------------------------------
  // src/plugin.spec.ts:138-158: a reference four containers deep.

  /** `@b { c { d { bar: $foo } } }` with `foo` visible as `FOO`, met by a frame that tracks `frame`. */
  lemma DeepInner(foo: string, fv: string, prop: string, nb: string, pb: string, sc: string, sd: string,
                  frame: set<string>, vars: Vars)
    requires IsIdent(foo) && '$' !in fv && '$' !in prop && '$' !in pb && '$' !in sc && '$' !in sd
    requires Lookup(vars, foo) == Some(fv)
    ensures VisitNode(AtRule(nb, pb, [Rule(sc, [Rule(sd, [Decl(prop, "$" + foo)])])]), Error, frame, St(vars, [])) ==
      Done((Some(AtRule(nb, pb, [Rule(sc, [Rule(sd, [Decl(prop, fv)])])])), frame), St(vars, []))
  {
    var st := St(vars, []);
    var rd := Rule(sd, [Decl(prop, "$" + foo)]);
    var rd1 := Rule(sd, [Decl(prop, fv)]);
    var rc := Rule(sc, [rd]);
    var rc1 := Rule(sc, [rd1]);
    NestedReference(prop, foo, fv, sd, {}, vars);
    SoleChild(rd, rd1, Error, st, st);
    DollarFreeOne(Decl(prop, fv));
    DollarFreeOne(rd1);
    RuleResolves(sc, [rd], [rd1], Error, {}, st, st);
    SoleChild(rc, rc1, Error, st, st);
    DollarFreeOne(rc1);
    AtRuleResolves(nb, pb, [rc], [rc1], Error, frame, st, st);
  }

  /**
   * `@a { $foo: FOO; @b { c { d { bar: $foo } } } }` becomes
   * `@a { @b { c { d { bar: FOO } } } }`: a declaration is visible at any
   * depth below its container.
   */
  lemma DeeplyNestedVar(foo: string, fv: string, prop: string, na: string, pa: string, nb: string, pb: string,
                        sc: string, sd: string)
    requires IsIdent(foo) && '$' !in fv && '$' !in prop && '$' !in pa && '$' !in pb && '$' !in sc && '$' !in sd
    ensures WalkFrame([AtRule(na, pa, [Decl("$" + foo, fv),
                                       AtRule(nb, pb, [Rule(sc, [Rule(sd, [Decl(prop, "$" + foo)])])])])],
                      Error, St(map[], [])) ==
      Done([AtRule(na, pa, [AtRule(nb, pb, [Rule(sc, [Rule(sd, [Decl(prop, fv)])])])])], St(map[foo := []], []))
  {
    var st0 := St(map[], []);
    var st1 := St(map[foo := [fv]], []);
    var d := Decl("$" + foo, fv);
    var b := AtRule(nb, pb, [Rule(sc, [Rule(sd, [Decl(prop, "$" + foo)])])]);
    var b1 := AtRule(nb, pb, [Rule(sc, [Rule(sd, [Decl(prop, fv)])])]);
    assert Lookup(st1.vars, foo) == Some(fv);
    DeepInner(foo, fv, prop, nb, pb, sc, sd, {foo}, st1.vars);
    FirstDeclaration(foo, fv);
    EachOne(b, Error, {foo}, st1);
    EachStep(d, [b], Error, {}, st0, None, {foo}, st1, [b1], {foo}, st1);
    assert [d] + [b] == [d, b];
    assert [] + [b1] == [b1];
    WalkOfEach([d, b], Error, st0, [b1], {foo}, st1);
    PopSingleton(foo, fv);
    DollarFreeOne(Decl(prop, fv));
    DollarFreeOne(Rule(sd, [Decl(prop, fv)]));
    DollarFreeOne(Rule(sc, [Rule(sd, [Decl(prop, fv)])]));
    DollarFreeOne(b1);
    AtRuleResolves(na, pa, [d, b], [b1], Error, {}, st0, St(map[foo := []], []));
    SoleChild(AtRule(na, pa, [d, b]), AtRule(na, pa, [b1]), Error, st0, St(map[foo := []], []));
  }

  // ---------------------------------------------------------------------
  // Steps inside one container's child list, for a single name `foo`.

  /** `prop: $foo` and then the rest of the list, while `foo` is visible as `v`. */
  lemma RefThen(prop: string, foo: string, v: string, rest: seq<Node>, frame: set<string>, vars: Vars,
                out: seq<Node>, frame2: set<string>, st2: St)
    requires IsIdent(foo) && '$' !in prop && Lookup(vars, foo) == Some(v)
    requires EachNodes(rest, Error, frame, St(vars, [])) == Done((out, frame2), st2)
    ensures EachNodes([Decl(prop, "$" + foo)] + rest, Error, frame, St(vars, [])) == Done(([Decl(prop, v)] + out, frame2), st2)
  {
    RefStep(prop, foo, v, rest, frame, vars);
  }

  /** `$foo: x` in a frame that has already declared `foo`: the top entry is overwritten. */
  lemma OverwriteThen(foo: string, y: string, x: string, rest: seq<Node>, frame: set<string>,
                      out: seq<Node>, frame2: set<string>, st2: St)
    requires IsIdent(foo) && foo in frame
    requires EachNodes(rest, Error, frame, St(map[foo := [x]], [])) == Done((out, frame2), st2)
    ensures EachNodes([Decl("$" + foo, x)] + rest, Error, frame, St(map[foo := [y]], [])) == Done((out, frame2), st2)
  {
    DeclStep(foo, x, frame, map[foo := [y]]);
    assert frame + {foo} == frame;
    assert Declare(map[foo := [y]], frame, foo, x).0 == map[foo := [x]] by {
      assert [y][..0] + [x] == [x];
      UpdateTwice(map[], foo, [y], [x]);
    }
    EachStep(Decl("$" + foo, x), rest, Error, frame, St(map[foo := [y]], []), None, frame,
             St(map[foo := [x]], []), out, frame2, st2);
    assert Kept(None) + out == out;
  }

  /** `$foo: x` as the first declaration of `foo` in this frame: a new entry is pushed. */
  lemma PushThen(foo: string, s: seq<string>, x: string, rest: seq<Node>, frame: set<string>,
                 out: seq<Node>, frame2: set<string>, st2: St)
    requires IsIdent(foo) && foo !in frame
    requires EachNodes(rest, Error, frame + {foo}, St(map[foo := s + [x]], [])) == Done((out, frame2), st2)
    ensures EachNodes([Decl("$" + foo, x)] + rest, Error, frame, St(map[foo := s], [])) == Done((out, frame2), st2)
  {
    DeclStep(foo, x, frame, map[foo := s]);
    assert Declare(map[foo := s], frame, foo, x).0 == map[foo := s + [x]] by {
      assert Stack(map[foo := s], foo) == s;
      UpdateTwice(map[], foo, s, s + [x]);
    }
    EachStep(Decl("$" + foo, x), rest, Error, frame, St(map[foo := s], []), None, frame + {foo},
             St(map[foo := s + [x]], []), out, frame2, st2);
    assert Kept(None) + out == out;
  }

  /** A node that the frame rewrites to `n1` without touching the state, then the rest of the list. */
  lemma NodeThen(n: Node, n1: Node, rest: seq<Node>, frame: set<string>, st: St, out: seq<Node>, frame2: set<string>, st2: St)
    requires VisitNode(n, Error, frame, st) == Done((Some(n1), frame), st)
    requires EachNodes(rest, Error, frame, st) == Done((out, frame2), st2)
    ensures EachNodes([n] + rest, Error, frame, st) == Done(([n1] + out, frame2), st2)
  {
    EachStep(n, rest, Error, frame, st, Some(n1), frame, st, out, frame2, st2);
  }

  lemma DollarFreeCons(n: Node, rest: seq<Node>)
    requires NodeDollarFree(n) && DollarFree(rest)
    ensures DollarFree([n] + rest)
  {
    assert ([n] + rest)[0] == n && ([n] + rest)[1..] == rest;
  }

  /**
   * The nested walk of `b { qux: $foo; $foo: z; corge: $foo }` while `foo`
   * has the stack `s`: `qux` gets the top of `s`, `corge` gets `z`, and the
   * entry pushed for `z` is popped again.
   */
  lemma RefPushRefWalk(foo: string, s: seq<string>, z: string, p3: string, p4: string)
    requires IsIdent(foo) && s != [] && '$' !in p3 && '$' !in p4
    ensures WalkFrame([Decl(p3, "$" + foo), Decl("$" + foo, z), Decl(p4, "$" + foo)], Error, St(map[foo := s], [])) ==
      Done([Decl(p3, s[|s| - 1]), Decl(p4, z)], St(map[foo := s], []))
  {
    var sz := s + [z];
    var vz: Vars := map[foo := sz];
    var r3 := Decl(p3, "$" + foo);
    var dz := Decl("$" + foo, z);
    var r4 := Decl(p4, "$" + foo);
    assert Lookup(vz, foo) == Some(z) by {
      assert Stack(vz, foo) == sz;
    }
    LastRef(p4, foo, z, {} + {foo}, vz);
    PushThen(foo, s, z, [r4], {}, [Decl(p4, z)], {} + {foo}, St(vz, []));
    assert Lookup(map[foo := s], foo) == Some(s[|s| - 1]) by {
      assert Stack(map[foo := s], foo) == s;
    }
    RefThen(p3, foo, s[|s| - 1], [dz] + [r4], {}, map[foo := s], [Decl(p4, z)], {} + {foo}, St(vz, []));
    assert [r3] + ([dz] + [r4]) == [r3, dz, r4];
    assert [Decl(p3, s[|s| - 1])] + [Decl(p4, z)] == [Decl(p3, s[|s| - 1]), Decl(p4, z)];
    assert {} + {foo} == {foo};
    WalkOfEach([r3, dz, r4], Error, St(map[foo := s], []), [Decl(p3, s[|s| - 1]), Decl(p4, z)], {foo}, St(vz, []));
    assert PopFrame(vz, {foo}) == map[foo := s] by {
      PopOne(vz, foo);
      assert Pop(sz) == s;
      UpdateTwice(map[], foo, sz, s);
    }
  }

  /** The rule `b { qux: $foo; $foo: z; corge: $foo }` met by a frame that has declared `foo`. */
  lemma RefPushRefRule(foo: string, s: seq<string>, z: string, p3: string, p4: string, sb: string, frame: set<string>)
    requires IsIdent(foo) && s != [] && '$' !in p3 && '$' !in p4 && '$' !in sb && '$' !in s[|s| - 1] && '$' !in z
    ensures VisitNode(Rule(sb, [Decl(p3, "$" + foo), Decl("$" + foo, z), Decl(p4, "$" + foo)]), Error, frame, St(map[foo := s], [])) ==
      Done((Some(Rule(sb, [Decl(p3, s[|s| - 1]), Decl(p4, z)])), frame), St(map[foo := s], []))
  {
    RefPushRefWalk(foo, s, z, p3, p4);
    DollarFreePair(Decl(p3, s[|s| - 1]), Decl(p4, z));
    RuleResolves(sb, [Decl(p3, "$" + foo), Decl("$" + foo, z), Decl(p4, "$" + foo)], [Decl(p3, s[|s| - 1]), Decl(p4, z)],
                 Error, frame, St(map[foo := s], []), St(map[foo := s], []));
  }

  // ---------------------------------------------------------------------
  // src/plugin.spec.ts:80-105: overriding in the same container.

  /** The children of `a` from `b { ... }` on, while `foo` is `B` in a's frame. */
  lemma OverrideRest(foo: string, bv: string, zv: string, qv: string, p3: string, p4: string, p5: string, p6: string, sb: string)
    requires IsIdent(foo) && '$' !in bv && '$' !in zv && '$' !in p3 && '$' !in p4 && '$' !in p5 && '$' !in p6 && '$' !in sb
    ensures EachNodes([Rule(sb, [Decl(p3, "$" + foo), Decl("$" + foo, zv), Decl(p4, "$" + foo)])] +
                      ([Decl(p5, "$" + foo)] + ([Decl("$" + foo, qv)] + [Decl(p6, "$" + foo)])),
                      Error, {foo}, St(map[foo := [bv]], [])) ==
      Done(([Rule(sb, [Decl(p3, bv), Decl(p4, zv)])] + ([Decl(p5, bv)] + [Decl(p6, qv)]), {foo}), St(map[foo := [qv]], []))
  {
    var mq: Vars := map[foo := [qv]];
    var mb: Vars := map[foo := [bv]];
    assert Lookup(mq, foo) == Some(qv);
    assert Lookup(mb, foo) == Some(bv);
    LastRef(p6, foo, qv, {foo}, mq);
    OverwriteThen(foo, bv, qv, [Decl(p6, "$" + foo)], {foo}, [Decl(p6, qv)], {foo}, St(mq, []));
    RefThen(p5, foo, bv, [Decl("$" + foo, qv)] + [Decl(p6, "$" + foo)], {foo}, mb, [Decl(p6, qv)], {foo}, St(mq, []));
    assert [bv][|[bv]| - 1] == bv;
    RefPushRefRule(foo, [bv], zv, p3, p4, sb, {foo});
    NodeThen(Rule(sb, [Decl(p3, "$" + foo), Decl("$" + foo, zv), Decl(p4, "$" + foo)]), Rule(sb, [Decl(p3, bv), Decl(p4, zv)]),
             [Decl(p5, "$" + foo)] + ([Decl("$" + foo, qv)] + [Decl(p6, "$" + foo)]), {foo}, St(mb, []),
             [Decl(p5, bv)] + [Decl(p6, qv)], {foo}, St(mq, []));
  }

  /** `$foo: x; bar: $foo` opening a fresh frame, then the rest of the list. */
  lemma DeclareRefThen(foo: string, x: string, p1: string, rest: seq<Node>, out: seq<Node>, st2: St)
    requires IsIdent(foo) && '$' !in p1
    requires EachNodes(rest, Error, {foo}, St(map[foo := [x]], [])) == Done((out, {foo}), st2)
    ensures EachNodes([Decl("$" + foo, x)] + ([Decl(p1, "$" + foo)] + rest), Error, {}, St(map[], [])) ==
      Done(([Decl(p1, x)] + out, {foo}), st2)
  {
    var mx: Vars := map[foo := [x]];
    assert Lookup(mx, foo) == Some(x);
    RefThen(p1, foo, x, rest, {foo}, mx, out, {foo}, st2);
    FirstDeclaration(foo, x);
    EachStep(Decl("$" + foo, x), [Decl(p1, "$" + foo)] + rest, Error, {}, St(map[], []), None, {foo}, St(mx, []),
             [Decl(p1, x)] + out, {foo}, st2);
    assert Kept(None) + ([Decl(p1, x)] + out) == [Decl(p1, x)] + out;
  }

  /** `$foo: x; baz: $foo` overwriting `foo`'s value `y` in its own frame, then the rest of the list. */
  lemma OverwriteRefThen(foo: string, y: string, x: string, p2: string, rest: seq<Node>, out: seq<Node>, st2: St)
    requires IsIdent(foo) && '$' !in p2
    requires EachNodes(rest, Error, {foo}, St(map[foo := [x]], [])) == Done((out, {foo}), st2)
    ensures EachNodes([Decl("$" + foo, x)] + ([Decl(p2, "$" + foo)] + rest), Error, {foo}, St(map[foo := [y]], [])) ==
      Done(([Decl(p2, x)] + out, {foo}), st2)
  {
    var mx: Vars := map[foo := [x]];
    assert Lookup(mx, foo) == Some(x);
    RefThen(p2, foo, x, rest, {foo}, mx, out, {foo}, st2);
    OverwriteThen(foo, y, x, [Decl(p2, "$" + foo)] + rest, {foo}, [Decl(p2, x)] + out, {foo}, st2);
  }

  /** A list written as a chain of one-element concatenations. */
  lemma Cons4<T>(a: T, b: T, c: T, e: T, f: T, g: T, h: T, k: T)
    ensures [a] + ([b] + ([c] + ([e] + ([f] + ([g] + ([h] + [k])))))) == [a, b, c, e, f, g, h, k]
  {
  }

  lemma Cons2<T>(a: T, b: T, c: T, e: T, f: T)
    ensures [a] + ([b] + ([c] + ([e] + [f]))) == [a, b, c, e, f]
  {
  }

  /** The nested walk of `a`'s children. */
  lemma OverrideWalk(foo: string, fv: string, bv: string, zv: string, qv: string,
                     p1: string, p2: string, p3: string, p4: string, p5: string, p6: string, sb: string)
    requires IsIdent(foo) && '$' !in bv && '$' !in zv
    requires '$' !in p1 && '$' !in p2 && '$' !in p3 && '$' !in p4 && '$' !in p5 && '$' !in p6 && '$' !in sb
    ensures WalkFrame([Decl("$" + foo, fv), Decl(p1, "$" + foo), Decl("$" + foo, bv), Decl(p2, "$" + foo),
                       Rule(sb, [Decl(p3, "$" + foo), Decl("$" + foo, zv), Decl(p4, "$" + foo)]),
                       Decl(p5, "$" + foo), Decl("$" + foo, qv), Decl(p6, "$" + foo)], Error, St(map[], [])) ==
      Done([Decl(p1, fv), Decl(p2, bv), Rule(sb, [Decl(p3, bv), Decl(p4, zv)]), Decl(p5, bv), Decl(p6, qv)],
           St(map[foo := []], []))
  {
    var b := Rule(sb, [Decl(p3, "$" + foo), Decl("$" + foo, zv), Decl(p4, "$" + foo)]);
    var b1 := Rule(sb, [Decl(p3, bv), Decl(p4, zv)]);
    var d5 := Decl(p5, "$" + foo);
    var dq := Decl("$" + foo, qv);
    var d6 := Decl(p6, "$" + foo);
    var kids := [Decl("$" + foo, fv), Decl(p1, "$" + foo), Decl("$" + foo, bv), Decl(p2, "$" + foo), b, d5, dq, d6];
    var kids1 := [Decl(p1, fv), Decl(p2, bv), b1, Decl(p5, bv), Decl(p6, qv)];
    var tail := [b] + ([d5] + ([dq] + [d6]));
    var out := [b1] + ([Decl(p5, bv)] + [Decl(p6, qv)]);
    OverrideRest(foo, bv, zv, qv, p3, p4, p5, p6, sb);
    OverwriteRefThen(foo, fv, bv, p2, tail, out, St(map[foo := [qv]], []));
    DeclareRefThen(foo, fv, p1, [Decl("$" + foo, bv)] + ([Decl(p2, "$" + foo)] + tail), [Decl(p2, bv)] + out, St(map[foo := [qv]], []));
    Cons4(Decl("$" + foo, fv), Decl(p1, "$" + foo), Decl("$" + foo, bv), Decl(p2, "$" + foo), b, d5, dq, d6);
    Cons2(Decl(p1, fv), Decl(p2, bv), b1, Decl(p5, bv), Decl(p6, qv));
    WalkOfEach(kids, Error, St(map[], []), kids1, {foo}, St(map[foo := [qv]], []));
    PopSingleton(foo, qv);
  }

  lemma OverrideResultDollarFree(fv: string, bv: string, zv: string, qv: string, p1: string, p2: string, p3: string,
                                 p4: string, p5: string, p6: string, sb: string)
    requires '$' !in fv && '$' !in bv && '$' !in zv && '$' !in qv
    requires '$' !in p1 && '$' !in p2 && '$' !in p3 && '$' !in p4 && '$' !in p5 && '$' !in p6 && '$' !in sb
    ensures DollarFree([Decl(p1, fv), Decl(p2, bv), Rule(sb, [Decl(p3, bv), Decl(p4, zv)]), Decl(p5, bv), Decl(p6, qv)])
  {
    var b1 := Rule(sb, [Decl(p3, bv), Decl(p4, zv)]);
    var out := [b1] + ([Decl(p5, bv)] + [Decl(p6, qv)]);
    DollarFreeOne(Decl(p6, qv));
    DollarFreeCons(Decl(p5, bv), [Decl(p6, qv)]);
    DollarFreePair(Decl(p3, bv), Decl(p4, zv));
    DollarFreeCons(b1, [Decl(p5, bv)] + [Decl(p6, qv)]);
    DollarFreeCons(Decl(p2, bv), out);
    DollarFreeCons(Decl(p1, fv), [Decl(p2, bv)] + out);
    assert [Decl(p1, fv)] + ([Decl(p2, bv)] + out) == [Decl(p1, fv), Decl(p2, bv), b1, Decl(p5, bv), Decl(p6, qv)];
  }

  /**
   * `a { $foo: FOO; bar: $foo; $foo: BAR; baz: $foo; b { qux: $foo; $foo: BAZ; corge: $foo }
   * garpley: $foo; $foo: QUX; waldo: $foo }` becomes `a { bar: FOO; baz: BAR;
   * b { qux: BAR; corge: BAZ } garpley: BAR; waldo: QUX }`: a second declaration in
   * the same container overwrites the visible value from that point on, and
   * one inside a nested rule shadows it only there.
   */
  lemma OverridesInSameContext(foo: string, fv: string, bv: string, zv: string, qv: string,
                               p1: string, p2: string, p3: string, p4: string, p5: string, p6: string, sa: string, sb: string)
    requires IsIdent(foo) && '$' !in fv && '$' !in bv && '$' !in zv && '$' !in qv
    requires '$' !in p1 && '$' !in p2 && '$' !in p3 && '$' !in p4 && '$' !in p5 && '$' !in p6 && '$' !in sa && '$' !in sb
    ensures WalkFrame([Rule(sa, [Decl("$" + foo, fv), Decl(p1, "$" + foo), Decl("$" + foo, bv), Decl(p2, "$" + foo),
                                 Rule(sb, [Decl(p3, "$" + foo), Decl("$" + foo, zv), Decl(p4, "$" + foo)]),
                                 Decl(p5, "$" + foo), Decl("$" + foo, qv), Decl(p6, "$" + foo)])], Error, St(map[], [])) ==
      Done([Rule(sa, [Decl(p1, fv), Decl(p2, bv), Rule(sb, [Decl(p3, bv), Decl(p4, zv)]), Decl(p5, bv), Decl(p6, qv)])],
           St(map[foo := []], []))
  {
    var kids := [Decl("$" + foo, fv), Decl(p1, "$" + foo), Decl("$" + foo, bv), Decl(p2, "$" + foo),
                 Rule(sb, [Decl(p3, "$" + foo), Decl("$" + foo, zv), Decl(p4, "$" + foo)]),
                 Decl(p5, "$" + foo), Decl("$" + foo, qv), Decl(p6, "$" + foo)];
    var kids1 := [Decl(p1, fv), Decl(p2, bv), Rule(sb, [Decl(p3, bv), Decl(p4, zv)]), Decl(p5, bv), Decl(p6, qv)];
    OverrideWalk(foo, fv, bv, zv, qv, p1, p2, p3, p4, p5, p6, sb);
    OverrideResultDollarFree(fv, bv, zv, qv, p1, p2, p3, p4, p5, p6, sb);
    RuleResolves(sa, kids, kids1, Error, {}, St(map[], []), St(map[foo := []], []));
    SoleChild(Rule(sa, kids), Rule(sa, kids1), Error, St(map[], []), St(map[foo := []], []));
  }

  // ---------------------------------------------------------------------
  // src/plugin.spec.ts:30-40: the interpolation example of the readme.

  /** `$(bar) {}`, or any selector with one bracketed reference, met by the root frame. */
  lemma InterpolatedEmptyRule(s1: string, bar: string, s2: string, bv: string, frame: set<string>, st: St)
    requires IsIdent(bar) && '$' !in s1 && '$' !in s2 && Lookup(st.vars, bar) == Some(bv)
    ensures VisitNode(Rule(s1 + RefText(bar, Bracketed) + s2, []), Error, frame, st) ==
      Done((Some(Rule(s1 + bv + s2, [])), frame), st)
  {
    BracketedBetween(s1, bar, s2, bv, Error, st);
    WalkIdentity([], Error, st);
  }

  /** `@media foo$(bar) { foo-$(bar)-baz: qux }` met by the root frame. */
  lemma InterpolatedAtRule(m: string, a: string, bar: string, b: string, c: string, e: string, q: string, bv: string,
                           frame: set<string>, st: St)
    requires IsIdent(bar) && '$' !in a && '$' !in b && c != [] && '$' !in c && '$' !in e && '$' !in q && '$' !in bv
    requires Lookup(st.vars, bar) == Some(bv)
    ensures VisitNode(AtRule(m, a + RefText(bar, Bracketed) + b, [Decl(c + RefText(bar, Bracketed) + e, q)]), Error, frame, st) ==
      Done((Some(AtRule(m, a + bv + b, [Decl(c + bv + e, q)])), frame), st)
  {
    var decl := Decl(c + RefText(bar, Bracketed) + e, q);
    var decl1 := Decl(c + bv + e, q);
    BracketedBetween(a, bar, b, bv, Error, st);
    PropInterpolation(c, bar, e, bv, q, {}, st);
    SoleChild(decl, decl1, Error, st, st);
    DollarFreeOne(decl1);
    EachIdentity([decl1], Error, frame, st);
  }

  /**
   * `$bar: BAR; $(bar) {} @media foo$(bar) { foo-$(bar)-baz: qux }` becomes
   * `BAR {} @media fooBAR { foo-BAR-baz: qux }`: bracketed references are
   * replaced in a selector, in at-rule params and in a nested prop.
   */
  lemma ReadmeInterpolation(bar: string, bv: string, s1: string, s2: string, m: string, a: string, b: string,
                            c: string, e: string, q: string)
    requires IsIdent(bar) && '$' !in bv && '$' !in s1 && '$' !in s2 && '$' !in a && '$' !in b
    requires c != [] && '$' !in c && '$' !in e && '$' !in q
    ensures WalkFrame([Decl("$" + bar, bv), Rule(s1 + RefText(bar, Bracketed) + s2, []),
                       AtRule(m, a + RefText(bar, Bracketed) + b, [Decl(c + RefText(bar, Bracketed) + e, q)])],
                      Error, St(map[], [])) ==
      Done([Rule(s1 + bv + s2, []), AtRule(m, a + bv + b, [Decl(c + bv + e, q)])], St(map[bar := []], []))
  {
    var st0 := St(map[], []);
    var st1 := St(map[bar := [bv]], []);
    var d := Decl("$" + bar, bv);
    var rule := Rule(s1 + RefText(bar, Bracketed) + s2, []);
    var rule1 := Rule(s1 + bv + s2, []);
    var at := AtRule(m, a + RefText(bar, Bracketed) + b, [Decl(c + RefText(bar, Bracketed) + e, q)]);
    var at1 := AtRule(m, a + bv + b, [Decl(c + bv + e, q)]);
    assert Lookup(st1.vars, bar) == Some(bv);
    InterpolatedEmptyRule(s1, bar, s2, bv, {bar}, st1);
    InterpolatedAtRule(m, a, bar, b, c, e, q, bv, {bar}, st1);
    EachOne(at, Error, {bar}, st1);
    NodeThen(rule, rule1, [at], {bar}, st1, [at1], {bar}, st1);
    FirstDeclaration(bar, bv);
    EachStep(d, [rule] + [at], Error, {}, st0, None, {bar}, st1, [rule1] + [at1], {bar}, st1);
    assert [d] + ([rule] + [at]) == [d, rule, at];
    assert Kept(None) + ([rule1] + [at1]) == [rule1, at1];
    WalkOfEach([d, rule, at], Error, st0, [rule1, at1], {bar}, st1);
    PopSingleton(bar, bv);
  }

  // ---------------------------------------------------------------------
  // src/plugin.spec.ts:6-28: the scoping example of the readme.

  /** The children of `a`, in a fresh frame while `color` is `red` from the root. */
  lemma ReadmeScopingEach(foo: string, red: string, white: string, blue: string,
                          p1: string, p2: string, p3: string, p4: string, p5: string, sb: string)
    requires IsIdent(foo) && '$' !in white && '$' !in blue
    requires '$' !in p1 && '$' !in p2 && '$' !in p3 && '$' !in p4 && '$' !in p5 && '$' !in sb
    ensures EachNodes([Decl(p1, "$" + foo)] + ([Decl("$" + foo, white)] + ([Decl(p2, "$" + foo)] +
                      ([Rule(sb, [Decl(p3, "$" + foo), Decl("$" + foo, blue), Decl(p4, "$" + foo)])] + [Decl(p5, "$" + foo)]))),
                      Error, {}, St(map[foo := [red]], [])) ==
      Done(([Decl(p1, red)] + ([Decl(p2, white)] + ([Rule(sb, [Decl(p3, white), Decl(p4, blue)])] + [Decl(p5, white)])), {foo}),
           St(map[foo := [red, white]], []))
  {
    var s := [red, white];
    var vrw: Vars := map[foo := s];
    var b := Rule(sb, [Decl(p3, "$" + foo), Decl("$" + foo, blue), Decl(p4, "$" + foo)]);
    var b1 := Rule(sb, [Decl(p3, white), Decl(p4, blue)]);
    var st2 := St(vrw, []);
    assert Lookup(vrw, foo) == Some(white) by {
      assert Stack(vrw, foo) == s;
    }
    LastRef(p5, foo, white, {foo}, vrw);
    assert s[|s| - 1] == white;
    RefPushRefRule(foo, s, blue, p3, p4, sb, {foo});
    NodeThen(b, b1, [Decl(p5, "$" + foo)], {foo}, st2, [Decl(p5, white)], {foo}, st2);
    RefThen(p2, foo, white, [b] + [Decl(p5, "$" + foo)], {foo}, vrw, [b1] + [Decl(p5, white)], {foo}, st2);
    assert {} + {foo} == {foo};
    assert [red] + [white] == s;
    PushThen(foo, [red], white, [Decl(p2, "$" + foo)] + ([b] + [Decl(p5, "$" + foo)]), {},
             [Decl(p2, white)] + ([b1] + [Decl(p5, white)]), {foo}, st2);
    assert Lookup(map[foo := [red]], foo) == Some(red);
    RefThen(p1, foo, red, [Decl("$" + foo, white)] + ([Decl(p2, "$" + foo)] + ([b] + [Decl(p5, "$" + foo)])), {},
            map[foo := [red]], [Decl(p2, white)] + ([b1] + [Decl(p5, white)]), {foo}, st2);
  }

  /** The rule `a { ... }` of the scoping example, met by the root frame after `$color: red`. */
  lemma ReadmeScopingRule(foo: string, red: string, white: string, blue: string,
                          p1: string, p2: string, p3: string, p4: string, p5: string, sa: string, sb: string)
    requires IsIdent(foo) && '$' !in red && '$' !in white && '$' !in blue
    requires '$' !in p1 && '$' !in p2 && '$' !in p3 && '$' !in p4 && '$' !in p5 && '$' !in sa && '$' !in sb
    ensures VisitNode(Rule(sa, [Decl(p1, "$" + foo), Decl("$" + foo, white), Decl(p2, "$" + foo),
                                Rule(sb, [Decl(p3, "$" + foo), Decl("$" + foo, blue), Decl(p4, "$" + foo)]), Decl(p5, "$" + foo)]),
                      Error, {foo}, St(map[foo := [red]], [])) ==
      Done((Some(Rule(sa, [Decl(p1, red), Decl(p2, white), Rule(sb, [Decl(p3, white), Decl(p4, blue)]), Decl(p5, white)])), {foo}),
           St(map[foo := [red]], []))
  {
    var b := Rule(sb, [Decl(p3, "$" + foo), Decl("$" + foo, blue), Decl(p4, "$" + foo)]);
    var b1 := Rule(sb, [Decl(p3, white), Decl(p4, blue)]);
    var kids := [Decl(p1, "$" + foo), Decl("$" + foo, white), Decl(p2, "$" + foo), b, Decl(p5, "$" + foo)];
    var kids1 := [Decl(p1, red), Decl(p2, white), b1, Decl(p5, white)];
    var st1 := St(map[foo := [red]], []);
    ReadmeScopingEach(foo, red, white, blue, p1, p2, p3, p4, p5, sb);
    Cons2(Decl(p1, "$" + foo), Decl("$" + foo, white), Decl(p2, "$" + foo), b, Decl(p5, "$" + foo));
    assert [Decl(p1, red)] + ([Decl(p2, white)] + ([b1] + [Decl(p5, white)])) == kids1;
    WalkOfEach(kids, Error, st1, kids1, {foo}, St(map[foo := [red, white]], []));
    assert PopFrame(map[foo := [red, white]], {foo}) == st1.vars by {
      PopOne(map[foo := [red, white]], foo);
      assert Pop([red, white]) == [red];
      UpdateTwice(map[], foo, [red, white], [red]);
    }
    assert DollarFree(kids1) by {
      DollarFreeOne(Decl(p5, white));
      DollarFreePair(Decl(p3, white), Decl(p4, blue));
      DollarFreeCons(b1, [Decl(p5, white)]);
      DollarFreeCons(Decl(p2, white), [b1] + [Decl(p5, white)]);
      DollarFreeCons(Decl(p1, red), [Decl(p2, white)] + ([b1] + [Decl(p5, white)]));
    }
    RuleResolves(sa, kids, kids1, Error, {foo}, st1, st1);
  }

  /**
   * `$color: red; a { color: $color; $color: white; color: $color;
   * b { color: $color; $color: blue; color: $color } color: $color }` becomes
   * `a { color: red; color: white; b { color: white; color: blue } color: white }`.
   */
  lemma ReadmeScoping(foo: string, red: string, white: string, blue: string,
                      p1: string, p2: string, p3: string, p4: string, p5: string, sa: string, sb: string)
    requires IsIdent(foo) && '$' !in red && '$' !in white && '$' !in blue
    requires '$' !in p1 && '$' !in p2 && '$' !in p3 && '$' !in p4 && '$' !in p5 && '$' !in sa && '$' !in sb
    ensures WalkFrame([Decl("$" + foo, red),
                       Rule(sa, [Decl(p1, "$" + foo), Decl("$" + foo, white), Decl(p2, "$" + foo),
                                 Rule(sb, [Decl(p3, "$" + foo), Decl("$" + foo, blue), Decl(p4, "$" + foo)]), Decl(p5, "$" + foo)])],
                      Error, St(map[], [])) ==
      Done([Rule(sa, [Decl(p1, red), Decl(p2, white), Rule(sb, [Decl(p3, white), Decl(p4, blue)]), Decl(p5, white)])],
           St(map[foo := []], []))
  {
    var st0 := St(map[], []);
    var st1 := St(map[foo := [red]], []);
    var d := Decl("$" + foo, red);
    var a := Rule(sa, [Decl(p1, "$" + foo), Decl("$" + foo, white), Decl(p2, "$" + foo),
                       Rule(sb, [Decl(p3, "$" + foo), Decl("$" + foo, blue), Decl(p4, "$" + foo)]), Decl(p5, "$" + foo)]);
    var a1 := Rule(sa, [Decl(p1, red), Decl(p2, white), Rule(sb, [Decl(p3, white), Decl(p4, blue)]), Decl(p5, white)]);
    ReadmeScopingRule(foo, red, white, blue, p1, p2, p3, p4, p5, sa, sb);
    EachOne(a, Error, {foo}, st1);
    FirstDeclaration(foo, red);
    EachStep(d, [a], Error, {}, st0, None, {foo}, st1, [a1], {foo}, st1);
    assert [d] + [a] == [d, a];
    assert Kept(None) + [a1] == [a1];
    WalkOfEach([d, a], Error, st0, [a1], {foo}, st1);
    PopSingleton(foo, red);
  }
}
