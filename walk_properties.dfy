/**
 * What the walk guarantees, proved over all trees by induction that follows
 * the mutual recursion of the walk (WalkFrame, EachNodes, VisitNode,
 * VisitContainer).
 */
module WalkProperties {
  import opened Options
  import opened ScopeStack
  import opened Substitution
  import opened LogPolicy
  import opened Walker

  // ---------------------------------------------------------------------
  // Scope discipline: a completed walk frame restores the scope stack.

  /**
   * When `walk` returns normally, every name has the stack it had on entry;
   * the only residue is names that were absent and now have an empty stack.
   * Declarations therefore never leak to siblings or ancestors.
   */
  lemma {:induction false} WalkRestoresScope(nodes: seq<Node>, level: LogLevel, st: St)
    ensures WalkFrame(nodes, level, st).Done? ==> Restored(st.vars, WalkFrame(nodes, level, st).st.vars)
    decreases SeqSize(nodes), 3
  {
    FrameInvStart(st.vars);
    EachKeepsFrameInv(nodes, level, st.vars, {}, st);
    var r := EachNodes(nodes, level, {}, st);
    if r.Done? {
      PopFrameRestores(st.vars, r.st.vars, r.val.1);
    }
  }

  lemma {:induction false} EachKeepsFrameInv(nodes: seq<Node>, level: LogLevel, entry: Vars, frame: set<string>, st: St)
    requires FrameInv(entry, st.vars, frame)
    ensures var r := EachNodes(nodes, level, frame, st);
      r.Done? ==> FrameInv(entry, r.st.vars, r.val.1) && frame <= r.val.1
    decreases SeqSize(nodes), 2
  {
    if nodes != [] {
      VisitKeepsFrameInv(nodes[0], level, entry, frame, st);
      var v := VisitNode(nodes[0], level, frame, st);
      if v.Done? {
        EachKeepsFrameInv(nodes[1..], level, entry, v.val.1, v.st);
      }
    }
  }

  lemma {:induction false} VisitKeepsFrameInv(n: Node, level: LogLevel, entry: Vars, frame: set<string>, st: St)
    requires FrameInv(entry, st.vars, frame)
    ensures var r := VisitNode(n, level, frame, st);
      r.Done? ==> FrameInv(entry, r.st.vars, r.val.1) && frame <= r.val.1
    decreases NodeSize(n), 1
  {
    match n
    case Rule(selector, kids) =>
      ContainerKeepsFrameInv(selector, kids, level, entry, frame, st);
    case AtRule(_, params, kids) =>
      ContainerKeepsFrameInv(params, kids, level, entry, frame, st);
    case Decl(prop, value) =>
      var p := ResolveBracketed(prop, level, st);
      if p.Done? && IsDeclarationProp(p.val) {
        DeclareKeepsFrameInv(entry, p.st.vars, frame, DeclaredName(p.val), value);
      }
    case Comment(_) =>
  }

  lemma {:induction false} ContainerKeepsFrameInv(text: string, kids: seq<Node>, level: LogLevel, entry: Vars,
                                                  frame: set<string>, st: St)
    requires FrameInv(entry, st.vars, frame)
    ensures var r := VisitContainer(text, kids, level, frame, st);
      r.Done? ==> FrameInv(entry, r.st.vars, r.val.2) && frame <= r.val.2
    decreases 1 + SeqSize(kids), 0
  {
    var t := ResolveBracketed(text, level, st);
    if t.Done? {
      WalkRestoresScope(kids, level, t.st);
      var w := WalkFrame(kids, level, t.st);
      if w.Done? {
        FrameInvAfterRestored(entry, st.vars, w.st.vars, frame);
        EachKeepsFrameInv(w.val, level, entry, frame, w.st);
      }
    }
  }

  // ---------------------------------------------------------------------
  // Policies: only the error policy throws, always with the undefined-variable
  // message; warn and silent compute the same tree and scope.

  /** A throw comes only from the error policy, with `Undefined variable: <name>`. */
  lemma {:induction false} WalkThrowsOnlyUndefined(nodes: seq<Node>, level: LogLevel, st: St)
    ensures var r := WalkFrame(nodes, level, st);
      r.Thrown? ==> level == Error && exists name :: r.msg == UndefinedMessage(name)
    decreases SeqSize(nodes), 3
  {
    EachThrowsOnlyUndefined(nodes, level, {}, st);
  }

  lemma {:induction false} EachThrowsOnlyUndefined(nodes: seq<Node>, level: LogLevel, frame: set<string>, st: St)
    ensures var r := EachNodes(nodes, level, frame, st);
      r.Thrown? ==> level == Error && exists name :: r.msg == UndefinedMessage(name)
    decreases SeqSize(nodes), 2
  {
    if nodes != [] {
      VisitThrowsOnlyUndefined(nodes[0], level, frame, st);
      var v := VisitNode(nodes[0], level, frame, st);
      if v.Done? {
        EachThrowsOnlyUndefined(nodes[1..], level, v.val.1, v.st);
      }
    }
  }

  lemma {:induction false} VisitThrowsOnlyUndefined(n: Node, level: LogLevel, frame: set<string>, st: St)
    ensures var r := VisitNode(n, level, frame, st);
      r.Thrown? ==> level == Error && exists name :: r.msg == UndefinedMessage(name)
    decreases NodeSize(n), 1
  {
    match n
    case Rule(selector, kids) =>
      ContainerThrowsOnlyUndefined(selector, kids, level, frame, st);
    case AtRule(_, params, kids) =>
      ContainerThrowsOnlyUndefined(params, kids, level, frame, st);
    case Decl(prop, value) =>
      var p := ResolveBracketed(prop, level, st);
      if p.Thrown? {
        ReplaceThrowsUndefined(prop, Bracketed, level, st);
      } else if !IsDeclarationProp(p.val) && '$' in value {
        ReplaceThrowsUndefined(value, Bare, level, p.st);
      }
    case Comment(_) =>
  }

  lemma {:induction false} ContainerThrowsOnlyUndefined(text: string, kids: seq<Node>, level: LogLevel,
                                                         frame: set<string>, st: St)
    ensures var r := VisitContainer(text, kids, level, frame, st);
      r.Thrown? ==> level == Error && exists name :: r.msg == UndefinedMessage(name)
    decreases 1 + SeqSize(kids), 0
  {
    var t := ResolveBracketed(text, level, st);
    if t.Thrown? {
      ReplaceThrowsUndefined(text, Bracketed, level, st);
    } else {
      WalkThrowsOnlyUndefined(kids, level, t.st);
      var w := WalkFrame(kids, level, t.st);
      if w.Done? {
        EachThrowsOnlyUndefined(w.val, level, frame, w.st);
      }
    }
  }

  lemma ReplaceThrowsUndefined(text: string, p: Pattern, level: LogLevel, st: St)
    ensures var r := ReplaceAllVars(text, p, level, st);
      r.Thrown? ==> level == Error && exists name :: r.msg == UndefinedMessage(name)
  {
    var r := ReplaceAllVars(text, p, level, st);
    if r.Thrown? {
      var name := Scan(text, p, st.vars).unresolved[0];
      assert r.msg == UndefinedMessage(name);
    }
  }

  /**
   * Warn and silent never throw and produce the same tree and the same scope;
   * silent adds no warning, warn only appends warnings.
   */
  lemma {:induction false} WalkWarnSilentAgree(nodes: seq<Node>, stW: St, stS: St)
    requires stW.vars == stS.vars
    ensures var w := WalkFrame(nodes, Warn, stW); var s := WalkFrame(nodes, Silent, stS);
      w.Done? && s.Done? && w.val == s.val && w.st.vars == s.st.vars &&
      s.st.warnings == stS.warnings && stW.warnings <= w.st.warnings
    decreases SeqSize(nodes), 3
  {
    EachWarnSilentAgree(nodes, {}, stW, stS);
  }

  lemma {:induction false} EachWarnSilentAgree(nodes: seq<Node>, frame: set<string>, stW: St, stS: St)
    requires stW.vars == stS.vars
    ensures var w := EachNodes(nodes, Warn, frame, stW); var s := EachNodes(nodes, Silent, frame, stS);
      w.Done? && s.Done? && w.val == s.val && w.st.vars == s.st.vars &&
      s.st.warnings == stS.warnings && stW.warnings <= w.st.warnings
    decreases SeqSize(nodes), 2
  {
    if nodes != [] {
      VisitWarnSilentAgree(nodes[0], frame, stW, stS);
      var w := VisitNode(nodes[0], Warn, frame, stW);
      var s := VisitNode(nodes[0], Silent, frame, stS);
      EachWarnSilentAgree(nodes[1..], w.val.1, w.st, s.st);
    }
  }

  lemma {:induction false} VisitWarnSilentAgree(n: Node, frame: set<string>, stW: St, stS: St)
    requires stW.vars == stS.vars
    ensures var w := VisitNode(n, Warn, frame, stW); var s := VisitNode(n, Silent, frame, stS);
      w.Done? && s.Done? && w.val == s.val && w.st.vars == s.st.vars &&
      s.st.warnings == stS.warnings && stW.warnings <= w.st.warnings
    decreases NodeSize(n), 1
  {
    match n
    case Rule(selector, kids) =>
      ContainerWarnSilentAgree(selector, kids, frame, stW, stS);
    case AtRule(_, params, kids) =>
      ContainerWarnSilentAgree(params, kids, frame, stW, stS);
    case Decl(prop, value) =>
      DeclarationWarnSilentAgree(prop, value, frame, stW, stS);
    case Comment(_) =>
  }

  lemma DeclarationWarnSilentAgree(prop: string, value: string, frame: set<string>, stW: St, stS: St)
    requires stW.vars == stS.vars
    ensures var w := ResolveDeclaration(prop, value, Warn, frame, stW); var s := ResolveDeclaration(prop, value, Silent, frame, stS);
      w.Done? && s.Done? && w.val == s.val && w.st.vars == s.st.vars &&
      s.st.warnings == stS.warnings && stW.warnings <= w.st.warnings
  {
    var pW := ResolveBracketed(prop, Warn, stW);
    var pS := ResolveBracketed(prop, Silent, stS);
    assert pW.Done? && pS.Done? && pW.val == pS.val;
    if !IsDeclarationProp(pW.val) && '$' in value {
      var vW := ReplaceAllVars(value, Bare, Warn, pW.st);
      var vS := ReplaceAllVars(value, Bare, Silent, pS.st);
      assert vW.Done? && vS.Done? && vW.val == vS.val;
    }
  }

  lemma {:induction false} ContainerWarnSilentAgree(text: string, kids: seq<Node>, frame: set<string>, stW: St, stS: St)
    requires stW.vars == stS.vars
    ensures var w := VisitContainer(text, kids, Warn, frame, stW); var s := VisitContainer(text, kids, Silent, frame, stS);
      w.Done? && s.Done? && w.val == s.val && w.st.vars == s.st.vars &&
      s.st.warnings == stS.warnings && stW.warnings <= w.st.warnings
    decreases 1 + SeqSize(kids), 0
  {
    var tW := ResolveBracketed(text, Warn, stW);
    var tS := ResolveBracketed(text, Silent, stS);
    WalkWarnSilentAgree(kids, tW.st, tS.st);
    var wW := WalkFrame(kids, Warn, tW.st);
    var wS := WalkFrame(kids, Silent, tS.st);
    EachWarnSilentAgree(wW.val, frame, wW.st, wS.st);
  }

  // ---------------------------------------------------------------------
  // The error policy against warn: from the same scope, the error walk
  // completes exactly when the warn walk records no warning, and then with
  // the same tree and scope; otherwise it throws the first warning the warn
  // walk records, that is, the undefined-variable message of the first
  // unresolved reference in document order.

  /**
   * `e` (error policy, from `stE`) and `w` (warn policy, from `stW`)
   * agree: warn completes and only appends; with nothing appended, error
   * completes with warn's result and scope; otherwise error throws warn's
   * first new warning.
   */
  ghost predicate ErrorAgrees<T>(e: Res<T>, w: Res<T>, stE: St, stW: St)
  {
    w.Done? && stW.warnings <= w.st.warnings &&
    if |w.st.warnings| == |stW.warnings| then e == Done(w.val, stE.(vars := w.st.vars))
    else e.Thrown? && e.msg == w.st.warnings[|stW.warnings|]
  }

  lemma PrefixChain(a: seq<string>, b: seq<string>, c: seq<string>)
    requires a <= b && b <= c
    ensures a <= c && (|a| < |b| ==> c[|a|] == b[|a|])
  {
  }

  lemma ReplaceErrorAgrees(text: string, p: Pattern, stE: St, stW: St)
    requires stE.vars == stW.vars
    ensures ErrorAgrees(ReplaceAllVars(text, p, Error, stE), ReplaceAllVars(text, p, Warn, stW), stE, stW)
  {
    var u := Scan(text, p, stW.vars).unresolved;
    if u == [] {
      assert stW.warnings + Messages(u) == stW.warnings;
    } else {
      assert (stW.warnings + Messages(u))[|stW.warnings|] == UndefinedMessage(u[0]);
    }
  }

  lemma BracketedErrorAgrees(text: string, stE: St, stW: St)
    requires stE.vars == stW.vars
    ensures ErrorAgrees(ResolveBracketed(text, Error, stE), ResolveBracketed(text, Warn, stW), stE, stW)
  {
    if HasBracketMarker(text) {
      ReplaceErrorAgrees(text, Bracketed, stE, stW);
    }
  }

  /** The error and warn walks of a child list (or a whole container) agree. */
  lemma {:induction false} WalkErrorAgrees(nodes: seq<Node>, stE: St, stW: St)
    requires stE.vars == stW.vars
    ensures ErrorAgrees(WalkFrame(nodes, Error, stE), WalkFrame(nodes, Warn, stW), stE, stW)
    decreases SeqSize(nodes), 3
  {
    EachErrorAgrees(nodes, {}, stE, stW);
  }

  lemma {:induction false} EachErrorAgrees(nodes: seq<Node>, frame: set<string>, stE: St, stW: St)
    requires stE.vars == stW.vars
    ensures ErrorAgrees(EachNodes(nodes, Error, frame, stE), EachNodes(nodes, Warn, frame, stW), stE, stW)
    decreases SeqSize(nodes), 2
  {
    if nodes != [] {
      VisitErrorAgrees(nodes[0], frame, stE, stW);
      var vE := VisitNode(nodes[0], Error, frame, stE);
      var vW := VisitNode(nodes[0], Warn, frame, stW);
      EachWarnSilentAgree(nodes[1..], vW.val.1, vW.st, vW.st);
      var rW := EachNodes(nodes[1..], Warn, vW.val.1, vW.st);
      PrefixChain(stW.warnings, vW.st.warnings, rW.st.warnings);
      if |vW.st.warnings| == |stW.warnings| {
        EachErrorAgrees(nodes[1..], vW.val.1, vE.st, vW.st);
      }
    }
  }

  lemma {:induction false} VisitErrorAgrees(n: Node, frame: set<string>, stE: St, stW: St)
    requires stE.vars == stW.vars
    ensures ErrorAgrees(VisitNode(n, Error, frame, stE), VisitNode(n, Warn, frame, stW), stE, stW)
    decreases NodeSize(n), 1
  {
    match n
    case Rule(selector, kids) =>
      ContainerErrorAgrees(selector, kids, frame, stE, stW);
    case AtRule(_, params, kids) =>
      ContainerErrorAgrees(params, kids, frame, stE, stW);
    case Decl(prop, value) =>
      DeclarationErrorAgrees(prop, value, frame, stE, stW);
    case Comment(_) =>
  }

  lemma DeclarationErrorAgrees(prop: string, value: string, frame: set<string>, stE: St, stW: St)
    requires stE.vars == stW.vars
    ensures ErrorAgrees(ResolveDeclaration(prop, value, Error, frame, stE), ResolveDeclaration(prop, value, Warn, frame, stW), stE, stW)
  {
    BracketedErrorAgrees(prop, stE, stW);
    var pE := ResolveBracketed(prop, Error, stE);
    var pW := ResolveBracketed(prop, Warn, stW);
    if !IsDeclarationProp(pW.val) && '$' in value {
      var vW := ReplaceAllVars(value, Bare, Warn, pW.st);
      PrefixChain(stW.warnings, pW.st.warnings, vW.st.warnings);
      if |pW.st.warnings| == |stW.warnings| {
        ReplaceErrorAgrees(value, Bare, pE.st, pW.st);
      }
    }
  }

  lemma {:induction false} ContainerErrorAgrees(text: string, kids: seq<Node>, frame: set<string>, stE: St, stW: St)
    requires stE.vars == stW.vars
    ensures ErrorAgrees(VisitContainer(text, kids, Error, frame, stE), VisitContainer(text, kids, Warn, frame, stW), stE, stW)
    decreases 1 + SeqSize(kids), 0
  {
    BracketedErrorAgrees(text, stE, stW);
    var tE := ResolveBracketed(text, Error, stE);
    var tW := ResolveBracketed(text, Warn, stW);
    WalkWarnSilentAgree(kids, tW.st, tW.st);
    var wW := WalkFrame(kids, Warn, tW.st);
    EachWarnSilentAgree(wW.val, frame, wW.st, wW.st);
    var eW := EachNodes(wW.val, Warn, frame, wW.st);
    PrefixChain(tW.st.warnings, wW.st.warnings, eW.st.warnings);
    PrefixChain(stW.warnings, tW.st.warnings, eW.st.warnings);
    if |tW.st.warnings| == |stW.warnings| {
      WalkErrorAgrees(kids, tE.st, tW.st);
      var wE := WalkFrame(kids, Error, tE.st);
      if |wW.st.warnings| == |tW.st.warnings| {
        EachErrorAgrees(wW.val, frame, wE.st, wW.st);
      }
    }
  }

  /**
   * Under the error policy the walk throws exactly when the warn walk from
   * the same state records a warning, and then with the first of them;
   * otherwise it gives the warn walk's tree and state.
   */
  lemma WalkErrorThrowsIffWarned(nodes: seq<Node>, st: St)
    ensures var e := WalkFrame(nodes, Error, st); var w := WalkFrame(nodes, Warn, st);
      w.Done? && (e.Thrown? <==> w.st.warnings != st.warnings) &&
      (e.Thrown? ==> st.warnings < w.st.warnings && e.msg == w.st.warnings[|st.warnings|]) &&
      (e.Done? ==> e == w)
  {
    WalkErrorAgrees(nodes, st, st);
  }

  // ---------------------------------------------------------------------
  // Content without variables passes through unchanged.

  /** No `$` in any selector, params, prop or value (comments may hold anything). */
  predicate NodeDollarFree(n: Node)
  {
    match n
    case Rule(selector, kids) => '$' !in selector && DollarFree(kids)
    case AtRule(_, params, kids) => '$' !in params && DollarFree(kids)
    case Decl(prop, value) => '$' !in prop && '$' !in value
    case Comment(_) => true
  }

  predicate DollarFree(nodes: seq<Node>)
  {
    nodes != [] ==> NodeDollarFree(nodes[0]) && DollarFree(nodes[1..])
  }

  lemma NoMarkerWithoutDollar(s: string)
    requires '$' !in s
    ensures !HasBracketMarker(s)
  {
  }

  /**
   * A tree without `$` outside comments is left exactly as it is: same
   * nodes, same scope stack, no warning, under every policy. Comment text
   * is never scanned, whatever it holds.
   */
  lemma {:induction false} WalkIdentity(nodes: seq<Node>, level: LogLevel, st: St)
    requires DollarFree(nodes)
    ensures WalkFrame(nodes, level, st) == Done(nodes, st)
    decreases SeqSize(nodes), 3
  {
    EachIdentity(nodes, level, {}, st);
    assert PopFrame(st.vars, {}) == st.vars;
  }

  lemma {:induction false} EachIdentity(nodes: seq<Node>, level: LogLevel, frame: set<string>, st: St)
    requires DollarFree(nodes)
    ensures EachNodes(nodes, level, frame, st) == Done((nodes, frame), st)
    decreases SeqSize(nodes), 2
  {
    if nodes != [] {
      VisitIdentity(nodes[0], level, frame, st);
      EachIdentity(nodes[1..], level, frame, st);
      assert [nodes[0]] + nodes[1..] == nodes;
    }
  }

  lemma {:induction false} VisitIdentity(n: Node, level: LogLevel, frame: set<string>, st: St)
    requires NodeDollarFree(n)
    ensures VisitNode(n, level, frame, st) == Done((Some(n), frame), st)
    decreases NodeSize(n), 1
  {
    match n
    case Rule(selector, kids) =>
      ContainerIdentity(selector, kids, level, frame, st);
    case AtRule(_, params, kids) =>
      ContainerIdentity(params, kids, level, frame, st);
    case Decl(prop, value) =>
      NoMarkerWithoutDollar(prop);
      assert !IsDeclarationProp(prop) by {
        if |prop| >= 1 { assert prop[0] in prop; }
      }
    case Comment(_) =>
  }

  lemma {:induction false} ContainerIdentity(text: string, kids: seq<Node>, level: LogLevel, frame: set<string>, st: St)
    requires '$' !in text && DollarFree(kids)
    ensures VisitContainer(text, kids, level, frame, st) == Done((text, kids, frame), st)
    decreases 1 + SeqSize(kids), 0
  {
    NoMarkerWithoutDollar(text);
    WalkIdentity(kids, level, st);
    EachIdentity(kids, level, frame, st);
  }

  // ---------------------------------------------------------------------
  // Only declarations are removed: rules, at-rules (with their names) and
  // comments (with their text) keep their places.

  datatype Shape = RuleShape(kids: seq<Shape>) | AtRuleShape(name: string, kids: seq<Shape>) | CommentShape(text: string)

  /** The tree with declarations dropped and selectors and params forgotten. */
  function NodeSkeleton(n: Node): seq<Shape>
  {
    match n
    case Rule(_, kids) => [RuleShape(Skeleton(kids))]
    case AtRule(name, _, kids) => [AtRuleShape(name, Skeleton(kids))]
    case Decl(_, _) => []
    case Comment(text) => [CommentShape(text)]
  }

  function Skeleton(nodes: seq<Node>): seq<Shape>
  {
    if nodes == [] then [] else NodeSkeleton(nodes[0]) + Skeleton(nodes[1..])
  }

  lemma SkeletonCons(n: Option<Node>, rest: seq<Node>)
    ensures Skeleton(Kept(n) + rest) == (if n.Some? then NodeSkeleton(n.value) else []) + Skeleton(rest)
  {
    if n.Some? {
      assert (Kept(n) + rest)[1..] == rest;
    } else {
      assert Kept(n) + rest == rest;
    }
  }

  /** The walk keeps the skeleton of the tree: only declaration nodes are removed or changed in kind. */
  lemma {:induction false} WalkKeepsSkeleton(nodes: seq<Node>, level: LogLevel, st: St)
    ensures var r := WalkFrame(nodes, level, st); r.Done? ==> Skeleton(r.val) == Skeleton(nodes)
    decreases SeqSize(nodes), 3
  {
    EachKeepsSkeleton(nodes, level, {}, st);
  }

  lemma {:induction false} EachKeepsSkeleton(nodes: seq<Node>, level: LogLevel, frame: set<string>, st: St)
    ensures var r := EachNodes(nodes, level, frame, st); r.Done? ==> Skeleton(r.val.0) == Skeleton(nodes)
    decreases SeqSize(nodes), 2
  {
    if nodes != [] {
      VisitKeepsSkeleton(nodes[0], level, frame, st);
      var v := VisitNode(nodes[0], level, frame, st);
      if v.Done? {
        EachKeepsSkeleton(nodes[1..], level, v.val.1, v.st);
        var e := EachNodes(nodes[1..], level, v.val.1, v.st);
        if e.Done? {
          SkeletonCons(v.val.0, e.val.0);
        }
      }
    }
  }

  lemma {:induction false} VisitKeepsSkeleton(n: Node, level: LogLevel, frame: set<string>, st: St)
    ensures var r := VisitNode(n, level, frame, st);
      r.Done? ==> (if r.val.0.Some? then NodeSkeleton(r.val.0.value) else []) == NodeSkeleton(n)
    decreases NodeSize(n), 1
  {
    match n
    case Rule(selector, kids) =>
      ContainerKeepsSkeleton(selector, kids, level, frame, st);
    case AtRule(_, params, kids) =>
      ContainerKeepsSkeleton(params, kids, level, frame, st);
    case Decl(prop, value) =>
    case Comment(_) =>
  }

  lemma {:induction false} ContainerKeepsSkeleton(text: string, kids: seq<Node>, level: LogLevel, frame: set<string>, st: St)
    ensures var r := VisitContainer(text, kids, level, frame, st); r.Done? ==> Skeleton(r.val.1) == Skeleton(kids)
    decreases 1 + SeqSize(kids), 0
  {
    var t := ResolveBracketed(text, level, st);
    if t.Done? {
      WalkKeepsSkeleton(kids, level, t.st);
      var w := WalkFrame(kids, level, t.st);
      if w.Done? {
        EachKeepsSkeleton(w.val, level, frame, w.st);
      }
    }
  }

  // ---------------------------------------------------------------------
  // Single declarations: what one `$name: value` and one `prop: $name` do.

  /**
   * The `/^\$(?!\()/` test: `$name` is a declaration prop, `$(name)` is
   * not, and no declaration prop starts with a bracketed reference.
   */
  lemma DeclarationPropShape(name: string, prop: string)
    requires IsIdent(name)
    ensures IsDeclarationProp("$" + name)
    ensures !IsDeclarationProp(RefText(name, Bracketed))
    ensures IsDeclarationProp(prop) ==> MatchAt(prop, Bracketed).None?
  {
    assert ("$" + name)[1] == name[0];
  }

  lemma NoMarkerInDeclarationProp(name: string)
    requires IsIdent(name)
    ensures !HasBracketMarker("$" + name)
  {
    var s := "$" + name;
    forall i | 0 <= i < |s| - 1
      ensures !(s[i] == '$' && s[i + 1] == '(')
    {
      assert s[i + 1] == name[i];
    }
  }

  /**
   * A declaration `$name: value` is removed and, whatever the policy, makes
   * its raw value the visible value of `name`; within one frame the stack of
   * `name` holds exactly one entry more than at frame entry, however many
   * times the frame declares it.
   */
  lemma DeclarationPushesOnce(name: string, value: string, level: LogLevel, entry: Vars, frame: set<string>, st: St)
    requires IsIdent(name) && FrameInv(entry, st.vars, frame)
    ensures var r := VisitNode(Decl("$" + name, value), level, frame, st);
      r.Done? && r.val == (None, frame + {name}) && r.st.warnings == st.warnings &&
      r.st.vars == Declare(st.vars, frame, name, value).0 &&
      FrameInv(entry, r.st.vars, frame + {name}) &&
      Lookup(r.st.vars, name) == Some(value) && |r.st.vars[name]| == |Stack(entry, name)| + 1
  {
    NoMarkerInDeclarationProp(name);
    assert ("$" + name)[1..] == name;
    DeclareKeepsFrameInv(entry, st.vars, frame, name, value);
  }

  /**
   * A reference `prop: $name` takes the visible value of `name`; with no
   * visible value the error policy throws `Undefined variable: <name>`, warn
   * keeps `$name` and records the message, silent keeps `$name`.
   */
  lemma BareReference(prop: string, name: string, level: LogLevel, frame: set<string>, st: St)
    requires '$' !in prop && IsIdent(name)
    ensures VisitNode(Decl(prop, "$" + name), level, frame, st) ==
      if Lookup(st.vars, name).Some? then Done((Some(Decl(prop, Lookup(st.vars, name).value)), frame), st)
      else match level
        case Error => Thrown(UndefinedMessage(name), st)
        case Warn => Done((Some(Decl(prop, "$" + name)), frame), st.(warnings := st.warnings + [UndefinedMessage(name)]))
        case Silent => Done((Some(Decl(prop, "$" + name)), frame), st)
  {
    NoMarkerWithoutDollar(prop);
    assert !IsDeclarationProp(prop) by {
      if |prop| >= 1 { assert prop[0] in prop; }
    }
    assert ("$" + name)[0] == '$';
    assert ResolveBracketed(prop, level, st) == Done(prop, st);
    BareReplace(name, level, st);
  }

  /** `replaceAllVars` on a value that is exactly one bare reference, under each policy. */
  lemma BareReplace(name: string, level: LogLevel, st: St)
    requires IsIdent(name)
    ensures ReplaceAllVars("$" + name, Bare, level, st) ==
      if Lookup(st.vars, name).Some? then Done(Lookup(st.vars, name).value, st)
      else match level
        case Error => Thrown(UndefinedMessage(name), st)
        case Warn => Done("$" + name, st.(warnings := st.warnings + [UndefinedMessage(name)]))
        case Silent => Done("$" + name, st)
  {
    BareScan(name, st.vars);
    assert Messages([name]) == [UndefinedMessage(name)];
  }

  /** The bare scan of a text that is exactly one reference. */
  lemma BareScan(name: string, vars: Vars)
    requires IsIdent(name)
    ensures Scan("$" + name, Bare, vars) ==
      ScanResult(Replacement(vars, name), if Lookup(vars, name).None? then [name] else [])
  {
    ScanRef(name, "", Bare, vars);
    AppendNil(RefText(name, Bare));
    AppendNil(Replacement(vars, name));
    AppendNil(if Lookup(vars, name).None? then [name] else []);
    assert Scan("", Bare, vars) == ScanResult([], []);
  }

  lemma AppendNil<T>(s: seq<T>)
    ensures s + [] == s
  {
  }

  /** postcss's `each` over a child list, one child at a time. */
  lemma EachCons(n: Node, rest: seq<Node>, level: LogLevel, frame: set<string>, st: St)
    ensures var v := VisitNode(n, level, frame, st);
      EachNodes([n] + rest, level, frame, st) ==
        if v.Thrown? then Thrown(v.msg, v.st) else Prepend(Kept(v.val.0), EachNodes(rest, level, v.val.1, v.st))
  {
    assert ([n] + rest)[0] == n && ([n] + rest)[1..] == rest;
  }
}
