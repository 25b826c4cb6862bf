/**
 * The variable-resolution walk of src/plugin.ts:52-127 as functions over a
 * tree value: the specification that the methods of the plugin class
 * (plugin.dfy) are proved to follow.
 *
 * `walk(container)` runs postcss's `container.walk(callback)`: a pre-order
 * traversal of ALL descendants of the container. For a rule or at-rule the
 * callback substitutes its selector or params and then calls `walk` on it
 * (a nested frame); afterwards postcss descends into the same node's
 * children with the enclosing frame's callback. Each visit of a container
 * thus means one more nested walk of it plus the enclosing frame's own
 * descent, so a node at depth k (a child of the root has depth 1) is
 * visited 2^(k-1) times. For a declaration the callback substitutes
 * the prop, then either records a `$name` declaration and removes the node,
 * or substitutes bare references in the value. When the traversal is over,
 * the frame pops every name it declared.
 */
module Walker {
  import opened Options
  import opened ScopeStack
  import opened Substitution
  import opened LogPolicy

  /** The node kinds of a parsed style sheet; containers own their children in document order. */
  datatype Node =
    | Rule(selector: string, nodes: seq<Node>)
    | AtRule(name: string, params: string, nodes: seq<Node>)
    | Decl(prop: string, value: string)
    | Comment(text: string)

  function NodeSize(n: Node): nat
  {
    match n
    case Rule(_, kids) => 1 + SeqSize(kids)
    case AtRule(_, _, kids) => 1 + SeqSize(kids)
    case _ => 1
  }

  function SeqSize(s: seq<Node>): nat
  {
    if s == [] then 0 else NodeSize(s[0]) + SeqSize(s[1..])
  }

  function OptSize(n: Option<Node>): nat
  {
    if n.Some? then NodeSize(n.value) else 0
  }

  /** The node kept in its parent, or nothing when it was removed. */
  function Kept(n: Option<Node>): seq<Node>
  {
    if n.Some? then [n.value] else []
  }

  /** What the walk changes besides the tree: the scope stack and the result's warnings. */
  datatype St = St(vars: Vars, warnings: seq<string>)

  /**
   * A step either completes, or throws (error policy) with the message; the
   * state is the one reached. A throw carries no tree: the nodes that the
   * source had already rewritten in place before the throw are not kept.
   */
  datatype Res<T> = Done(val: T, st: St) | Thrown(msg: string, st: St)

  /** `s.indexOf('$(') !== -1` */
  predicate HasBracketMarker(s: string)
  {
    exists i :: 0 <= i < |s| - 1 && s[i] == '$' && s[i + 1] == '('
  }

  function Messages(names: seq<string>): (ms: seq<string>)
    ensures |ms| == |names|
    ensures forall k :: 0 <= k < |names| ==> ms[k] == UndefinedMessage(names[k])
  {
    if names == [] then [] else [UndefinedMessage(names[0])] + Messages(names[1..])
  }

  /**
   * `replaceAllVars`: the scan with the policy applied to every unresolved
   * name in order. Under the error policy the first one throws, before the
   * field is assigned; under warn each adds a warning; silent does nothing.
   */
  function ReplaceAllVars(text: string, p: Pattern, level: LogLevel, st: St): (r: Res<string>)
    ensures r.st.vars == st.vars
    ensures r.Thrown? <==> level == Error && Scan(text, p, st.vars).unresolved != []
    ensures r.Thrown? ==> r.st == st && r.msg == UndefinedMessage(Scan(text, p, st.vars).unresolved[0])
    ensures r.Done? ==> r.val == Scan(text, p, st.vars).text
    ensures r.Done? && level == Warn ==> r.st.warnings == st.warnings + Messages(Scan(text, p, st.vars).unresolved)
    ensures r.Done? && level != Warn ==> r.st.warnings == st.warnings
  {
    var scan := Scan(text, p, st.vars);
    if scan.unresolved == [] then
      Done(scan.text, st)
    else
      match level
      case Error => Thrown(UndefinedMessage(scan.unresolved[0]), st)
      case Warn => Done(scan.text, st.(warnings := st.warnings + Messages(scan.unresolved)))
      case Silent => Done(scan.text, st)
  }

  /** `/^\$(?!\()/.test(prop)`: a `$` at the start, not followed by `(`. */
  predicate IsDeclarationProp(prop: string)
  {
    |prop| >= 1 && prop[0] == '$' && (|prop| == 1 || prop[1] != '(')
  }

  /**
   * `m && m[1]` for `prop.match(/^\$([\w\d-_]+)$/)`, used as an object key:
   * the identifier after `$`, or "null" when the rest is not an identifier.
   */
  function DeclaredName(prop: string): (name: string)
    requires IsDeclarationProp(prop)
    ensures IsIdent(prop[1..]) ==> "$" + name == prop
    ensures !IsIdent(prop[1..]) ==> name == "null"
  {
    if IsIdent(prop[1..]) then prop[1..] else "null"
  }

  /** The bracketed substitution of a selector, params or prop, under its `$(` guard. */
  function ResolveBracketed(text: string, level: LogLevel, st: St): (r: Res<string>)
    ensures r.st.vars == st.vars
    ensures r.Done? ==> r.val == Scan(text, Bracketed, st.vars).text
  {
    if HasBracketMarker(text) then
      ReplaceAllVars(text, Bracketed, level, st)
    else
      ScanWithoutMarker(text, st.vars);
      Done(text, st)
  }

  /** Without `$(` the bracketed scan finds nothing. */
  lemma {:induction false} ScanWithoutMarker(s: string, vars: Vars)
    requires !HasBracketMarker(s)
    ensures Scan(s, Bracketed, vars) == ScanResult(s, [])
  {
    if s != [] {
      assert MatchAt(s, Bracketed).None? by {
        if |s| >= 3 && s[0] == '$' { assert s[1] != '('; }
      }
      ScanWithoutMarker(s[1..], vars);
      assert [s[0]] + s[1..] == s;
    }
  }

  /**
   * `resolveDeclaration`: substitute the prop; a `$name` prop then declares
   * the raw (unsubstituted) value and removes the node; any other
   * declaration gets its bare references substituted when its value holds a `$`.
   */
  function ResolveDeclaration(prop: string, value: string, level: LogLevel, frame: set<string>, st: St)
    : (r: Res<(Option<Node>, set<string>)>)
    ensures r.Done? ==> OptSize(r.val.0) <= 1
  {
    match ResolveBracketed(prop, level, st)
    case Thrown(msg, st1) => Thrown(msg, st1)
    case Done(prop1, st1) =>
      if IsDeclarationProp(prop1) then
        var (vars1, frame1) := Declare(st1.vars, frame, DeclaredName(prop1), value);
        Done((None, frame1), st1.(vars := vars1))
      else if '$' in value then
        match ReplaceAllVars(value, Bare, level, st1)
        case Thrown(msg, st2) => Thrown(msg, st2)
        case Done(value1, st2) => Done((Some(Decl(prop1, value1)), frame), st2)
      else
        Done((Some(Decl(prop1, value)), frame), st1)
  }

  /**
   * `walk(container)`: a fresh tracking set, the traversal of all
   * descendants, then one pop per tracked name. The pops happen only when
   * the traversal completes; a throw leaves the pushed entries in place.
   */
  function WalkFrame(nodes: seq<Node>, level: LogLevel, st: St): (r: Res<seq<Node>>)
    ensures r.Done? ==> SeqSize(r.val) <= SeqSize(nodes)
    decreases SeqSize(nodes), 3
  {
    match EachNodes(nodes, level, {}, st)
    case Thrown(msg, st1) => Thrown(msg, st1)
    case Done((out, frame), st1) => Done(out, st1.(vars := PopFrame(st1.vars, frame)))
  }

  /**
   * postcss's `each` over a child list with the callback of the frame whose
   * tracking set is `frame`: each child is visited (and its subtree
   * descended) in document order; a removed declaration is not emitted and
   * its next sibling is still visited.
   */
  function EachNodes(nodes: seq<Node>, level: LogLevel, frame: set<string>, st: St)
    : (r: Res<(seq<Node>, set<string>)>)
    ensures r.Done? ==> SeqSize(r.val.0) <= SeqSize(nodes)
    decreases SeqSize(nodes), 2
  {
    if nodes == [] then
      Done(([], frame), st)
    else
      match VisitNode(nodes[0], level, frame, st)
      case Thrown(msg, st1) => Thrown(msg, st1)
      case Done((kept, frame1), st1) =>
        match EachNodes(nodes[1..], level, frame1, st1)
        case Thrown(msg, st2) => Thrown(msg, st2)
        case Done((rest, frame2), st2) =>
          SeqSizeCons(kept, rest);
          Done((Kept(kept) + rest, frame2), st2)
  }

  /** One step of postcss's `walk`: the callback on the node, then the descent into its children. */
  function VisitNode(n: Node, level: LogLevel, frame: set<string>, st: St): (r: Res<(Option<Node>, set<string>)>)
    ensures r.Done? ==> OptSize(r.val.0) <= NodeSize(n)
    decreases NodeSize(n), 1
  {
    match n
    case Rule(selector, kids) =>
      (match VisitContainer(selector, kids, level, frame, st)
       case Thrown(msg, st1) => Thrown(msg, st1)
       case Done((selector1, kids1, frame1), st1) => Done((Some(Rule(selector1, kids1)), frame1), st1))
    case AtRule(name, params, kids) =>
      (match VisitContainer(params, kids, level, frame, st)
       case Thrown(msg, st1) => Thrown(msg, st1)
       case Done((params1, kids1, frame1), st1) => Done((Some(AtRule(name, params1, kids1)), frame1), st1))
    case Decl(prop, value) =>
      ResolveDeclaration(prop, value, level, frame, st)
    case Comment(_) =>
      Done((Some(n), frame), st)
  }

  /**
   * A rule or at-rule met by the frame with tracking set `frame`:
   * `resolveContainer` (substitute the selector or params, then a nested
   * `walk` of the container), followed by postcss's descent into the
   * container's children with this frame's callback.
   */
  function VisitContainer(text: string, kids: seq<Node>, level: LogLevel, frame: set<string>, st: St)
    : (r: Res<(string, seq<Node>, set<string>)>)
    ensures r.Done? ==> SeqSize(r.val.1) <= SeqSize(kids)
    decreases 1 + SeqSize(kids), 0
  {
    match ResolveBracketed(text, level, st)
    case Thrown(msg, st1) => Thrown(msg, st1)
    case Done(text1, st1) =>
      match WalkFrame(kids, level, st1)
      case Thrown(msg, st2) => Thrown(msg, st2)
      case Done(kids1, st2) =>
        match EachNodes(kids1, level, frame, st2)
        case Thrown(msg, st3) => Thrown(msg, st3)
        case Done((kids2, frame1), st3) => Done((text1, kids2, frame1), st3)
  }

  /** The rest of a child list, done after `prefix` was emitted. */
  function Prepend(prefix: seq<Node>, r: Res<(seq<Node>, set<string>)>): Res<(seq<Node>, set<string>)>
  {
    match r
    case Done((rest, frame), st) => Done((prefix + rest, frame), st)
    case Thrown(msg, st) => r
  }

  lemma SeqSizeCons(kept: Option<Node>, rest: seq<Node>)
    ensures SeqSize(Kept(kept) + rest) == OptSize(kept) + SeqSize(rest)
  {
    if kept.Some? {
      assert (Kept(kept) + rest)[1..] == rest;
    } else {
      assert Kept(kept) + rest == rest;
    }
  }
}
