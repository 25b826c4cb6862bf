/**
 * The plugin instance of src/plugin.ts:9-127 in imperative form. Setup
 * selects the policy and seeds the globals; the instance keeps the scope
 * stack (`globals`, passed to every run as `vars`) and the warnings of the
 * current run, and its methods update them in place as the source does.
 * Each method is proved to compute exactly what the corresponding function
 * of module Walker specifies.
 */
module NestedVarsPlugin {
  import opened Options
  import opened ScopeStack
  import opened Substitution
  import opened LogPolicy
  import opened Walker
  import WalkProperties

  /** A method's outputs and the new state, read as a result of the specification. */
  function Outcome<T>(val: T, thrown: Option<string>, st: St): Res<T>
  {
    if thrown.Some? then Thrown(thrown.value, st) else Done(val, st)
  }

  /**
   * The factory: `options.logLevel || 'error'` looked up in the policy
   * table, `Invalid logLevel: <value>` when it names none, then one
   * one-element stack per global.
   */
  method Setup(logLevel: Option<string>, globals: map<string, string>) returns (r: Result<NestedVars>)
    ensures SelectLogLevel(logLevel).Err? ==> r == Err(SelectLogLevel(logLevel).msg)
    ensures SelectLogLevel(logLevel).Ok? ==>
      r.Ok? && fresh(r.value) && r.value.level == SelectLogLevel(logLevel).value &&
      r.value.vars == Seed(globals) && r.value.warnings == []
  {
    var level := SelectLogLevel(logLevel);
    if level.Err? {
      return Err(level.msg);
    }
    var plugin := new NestedVars(level.value, globals);
    return Ok(plugin);
  }

  class NestedVars {
    /** The policy `log` chosen at setup. */
    const level: LogLevel
    /** The scope stack; it starts as the seeded globals and persists across runs. */
    var vars: Vars
    /** The warnings added to the current run's result. */
    var warnings: seq<string>

    function State(): St
      reads this
    {
      St(vars, warnings)
    }

    constructor (level: LogLevel, globals: map<string, string>)
      ensures this.level == level && vars == Seed(globals) && warnings == []
    {
      var seeded: Vars := map[];
      var keys := globals.Keys;
      while keys != {}
        invariant keys <= globals.Keys
        invariant seeded == map k | k in globals.Keys - keys :: [globals[k]]
        decreases keys
      {
        var key :| key in keys;
        seeded := seeded[key := [globals[key]]];
        keys := keys - {key};
      }
      this.level := level;
      vars := seeded;
      warnings := [];
    }

    /**
     * One run of the plugin over a root: a fresh result, then `walk(root)`.
     * A normal run leaves the scope as it found it; a throw (error policy
     * only) leaves the entries pushed so far for the next run.
     */
    method Run(root: seq<Node>) returns (out: seq<Node>, thrown: Option<string>)
      modifies this
      ensures Outcome(out, thrown, State()) == WalkFrame(root, level, St(old(vars), []))
      ensures thrown.None? ==> Restored(old(vars), vars)
      ensures thrown.Some? ==> level == Error && exists name :: thrown.value == UndefinedMessage(name)
    {
      warnings := [];
      out, thrown := Walk(root);
      WalkProperties.WalkRestoresScope(root, level, St(old(vars), []));
      WalkProperties.WalkThrowsOnlyUndefined(root, level, St(old(vars), []));
    }

    /** `walk(container)` over the container's children. */
    method Walk(nodes: seq<Node>) returns (out: seq<Node>, thrown: Option<string>)
      modifies this
      ensures Outcome(out, thrown, State()) == WalkFrame(nodes, level, old(State()))
      decreases SeqSize(nodes), 3
    {
      FrameInvStart(vars);
      WalkProperties.EachKeepsFrameInv(nodes, level, vars, {}, State());
      var frame;
      out, frame, thrown := Each(nodes, {});
      if thrown.None? {
        PopFrame(frame);
      }
    }

    /** `Object.keys(containerVars).forEach(varName => vars[varName].pop())` */
    method PopFrame(frame: set<string>)
      requires frame <= vars.Keys
      modifies this`vars
      ensures vars == ScopeStack.PopFrame(old(vars), frame)
    {
      var rest := frame;
      while rest != {}
        invariant rest <= frame
        invariant vars.Keys == old(vars).Keys
        invariant forall k :: k in vars ==> vars[k] == if k in frame - rest then Pop(old(vars)[k]) else old(vars)[k]
        decreases rest
      {
        var name :| name in rest;
        vars := vars[name := Pop(vars[name])];
        rest := rest - {name};
      }
    }

    /**
     * postcss's `each` loop over a child list with the callback of the frame
     * whose tracking set is `frame`. A removed declaration is simply not
     * emitted; the index moves on to its next sibling.
     */
    method Each(nodes: seq<Node>, frame: set<string>) returns (out: seq<Node>, frame': set<string>, thrown: Option<string>)
      modifies this
      ensures Outcome((out, frame'), thrown, State()) == EachNodes(nodes, level, frame, old(State()))
      decreases SeqSize(nodes), 2
    {
      out, frame', thrown := [], frame, None;
      var i := 0;
      assert nodes[i..] == nodes;
      PrependEmpty(EachNodes(nodes, level, frame, old(State())));
      while i < |nodes|
        invariant 0 <= i <= |nodes|
        invariant EachNodes(nodes, level, frame, old(State())) == Prepend(out, EachNodes(nodes[i..], level, frame', State()))
        decreases |nodes| - i
      {
        ElementSize(nodes, i);
        assert nodes[i..][0] == nodes[i] && nodes[i..][1..] == nodes[i + 1..];
        var kept, frame1, err := Visit(nodes[i], frame');
        if err.Some? {
          thrown := err;
          return;
        }
        PrependStep(out, kept, EachNodes(nodes[i + 1..], level, frame1, State()));
        out := out + Kept(kept);
        frame' := frame1;
        i := i + 1;
      }
      assert out + [] == out;
    }

    /** The callback on one node, then postcss's descent into its children. */
    method Visit(n: Node, frame: set<string>) returns (kept: Option<Node>, frame': set<string>, thrown: Option<string>)
      modifies this
      ensures Outcome((kept, frame'), thrown, State()) == VisitNode(n, level, frame, old(State()))
      decreases NodeSize(n), 1
    {
      match n
      case Rule(selector, kids) =>
        var selector1, kids1;
        selector1, kids1, frame', thrown := VisitContainer(selector, kids, frame);
        kept := Some(Rule(selector1, kids1));
      case AtRule(name, params, kids) =>
        var params1, kids1;
        params1, kids1, frame', thrown := VisitContainer(params, kids, frame);
        kept := Some(AtRule(name, params1, kids1));
      case Decl(prop, value) =>
        kept, frame', thrown := ResolveDeclaration(prop, value, frame);
      case Comment(_) =>
        kept, frame', thrown := Some(n), frame, None;
    }

    /**
     * `resolveContainer(node, prop)`: substitute the selector or params and
     * walk the container in a nested frame; then the enclosing frame
     * descends into the (already walked) children.
     */
    method VisitContainer(text: string, kids: seq<Node>, frame: set<string>)
      returns (text1: string, kids2: seq<Node>, frame': set<string>, thrown: Option<string>)
      modifies this
      ensures Outcome((text1, kids2, frame'), thrown, State()) == Walker.VisitContainer(text, kids, level, frame, old(State()))
      decreases 1 + SeqSize(kids), 0
    {
      kids2, frame' := kids, frame;
      text1, thrown := ResolveBracketed(text);
      if thrown.Some? {
        return;
      }
      var kids1;
      kids1, thrown := Walk(kids);
      if thrown.Some? {
        return;
      }
      kids2, frame', thrown := Each(kids1, frame);
    }

    /** `resolveDeclaration(decl)` */
    method ResolveDeclaration(prop: string, value: string, frame: set<string>)
      returns (kept: Option<Node>, frame': set<string>, thrown: Option<string>)
      modifies this
      ensures Outcome((kept, frame'), thrown, State()) == Walker.ResolveDeclaration(prop, value, level, frame, old(State()))
    {
      kept, frame' := None, frame;
      var prop1;
      prop1, thrown := ResolveBracketed(prop);
      if thrown.Some? {
        return;
      }
      if IsDeclarationProp(prop1) {
        frame' := Declare(DeclaredName(prop1), value, frame);
        return;
      }
      var value1 := value;
      if '$' in value {
        value1, thrown := ReplaceAllVars(value, Bare);
      }
      kept := Some(Decl(prop1, value1));
    }

    /**
     * The declaration branch of `resolveDeclaration`: create a missing stack,
     * push on the first declaration in this frame, overwrite the top afterwards.
     */
    method Declare(name: string, value: string, frame: set<string>) returns (frame': set<string>)
      modifies this`vars
      ensures (vars, frame') == ScopeStack.Declare(old(vars), frame, name, value)
    {
      var stack := if name in vars then vars[name] else [];
      if name !in vars {
        vars := vars[name := []];
      }
      if name !in frame {
        assert vars[name] == stack;
        frame' := frame + {name};
        vars := vars[name := stack + [value]];
        assert vars == old(vars)[name := stack + [value]];
      } else {
        frame' := frame;
        if stack != [] {
          vars := vars[name := stack[..|stack| - 1] + [value]];
        }
        assert vars == old(vars)[name := if stack == [] then stack else stack[..|stack| - 1] + [value]];
      }
    }

    /** A selector, params or prop: `replaceAllVars` with the bracketed pattern when the text holds `$(`. */
    method ResolveBracketed(text: string) returns (text1: string, thrown: Option<string>)
      modifies this`warnings
      ensures Outcome(text1, thrown, State()) == Walker.ResolveBracketed(text, level, old(State()))
    {
      if HasBracketMarker(text) {
        text1, thrown := ReplaceAllVars(text, Bracketed);
      } else {
        ScanWithoutMarker(text, vars);
        text1, thrown := text, None;
      }
    }

    /**
     * `replaceAllVars`: the replace callback calls `log` for every
     * unresolved match in order; the error policy throws at the first one,
     * before the field is assigned.
     */
    method ReplaceAllVars(text: string, p: Pattern) returns (text1: string, thrown: Option<string>)
      modifies this`warnings
      ensures Outcome(text1, thrown, State()) == Walker.ReplaceAllVars(text, p, level, old(State()))
    {
      var scan := Scan(text, p, vars);
      var i := 0;
      while i < |scan.unresolved|
        invariant 0 <= i <= |scan.unresolved|
        invariant level == Error ==> i == 0
        invariant vars == old(vars)
        invariant warnings == old(warnings) + (if level == Warn then Messages(scan.unresolved[..i]) else [])
      {
        var message := UndefinedMessage(scan.unresolved[i]);
        if level == Error {
          ReplaceThrows(text, p, State());
          return text, Some(message);
        } else if level == Warn {
          MessagesSnoc(scan.unresolved, i);
          warnings := warnings + [message];
        }
        i := i + 1;
      }
      assert scan.unresolved[..i] == scan.unresolved;
      ReplaceCompletes(text, p, level, old(State()), warnings);
      text1, thrown := scan.text, None;
    }
  }

  lemma ReplaceThrows(text: string, p: Pattern, st: St)
    requires Scan(text, p, st.vars).unresolved != []
    ensures Walker.ReplaceAllVars(text, p, Error, st) == Thrown(UndefinedMessage(Scan(text, p, st.vars).unresolved[0]), st)
  {
  }

  lemma ReplaceCompletes(text: string, p: Pattern, level: LogLevel, st: St, warnings: seq<string>)
    requires level == Error ==> Scan(text, p, st.vars).unresolved == []
    requires warnings == st.warnings + (if level == Warn then Messages(Scan(text, p, st.vars).unresolved) else [])
    ensures Walker.ReplaceAllVars(text, p, level, st) == Done(Scan(text, p, st.vars).text, St(st.vars, warnings))
  {
    if Scan(text, p, st.vars).unresolved == [] {
      assert Messages([]) == [];
    }
  }

  lemma MessagesSnoc(names: seq<string>, i: nat)
    requires i < |names|
    ensures Messages(names[..i + 1]) == Messages(names[..i]) + [UndefinedMessage(names[i])]
  {
    var ms := Messages(names[..i]) + [UndefinedMessage(names[i])];
    assert forall k :: 0 <= k < i + 1 ==> Messages(names[..i + 1])[k] == ms[k];
  }

  lemma PrependEmpty(r: Res<(seq<Node>, set<string>)>)
    ensures Prepend([], r) == r
  {
    if r.Done? {
      assert [] + r.val.0 == r.val.0;
    }
  }

  lemma PrependStep(out: seq<Node>, kept: Option<Node>, r: Res<(seq<Node>, set<string>)>)
    ensures Prepend(out, Prepend(Kept(kept), r)) == Prepend(out + Kept(kept), r)
  {
    if r.Done? {
      assert out + (Kept(kept) + r.val.0) == out + Kept(kept) + r.val.0;
    }
  }

  lemma ElementSize(nodes: seq<Node>, i: nat)
    requires i < |nodes|
    ensures NodeSize(nodes[i]) <= SeqSize(nodes)
  {
    if i > 0 {
      ElementSize(nodes[1..], i - 1);
    }
  }
}
