# postcss-nested-vars: variable resolution, modelled and proved in Dafny

postcss-nested-vars is a postcss plugin for Sass-like variables in nested CSS.
- A declaration `$name: value` defines a variable for its container and everything nested in it.
- `$name` in a declaration value refers to a variable.
- `$(name)` refers to one inside a selector, at-rule params or a declaration prop.

This project models the resolution pass of `src/plugin.ts`. `lib/plugin.ts` is an older copy of the same algorithm. It differs in layout, typing and export form, not in behaviour.

The model has three layers.

- **Specification functions** (modules `ScopeStack`, `Substitution`, `LogPolicy`, `Walker`). The parsed stylesheet is a value: `Rule`, `AtRule`, `Decl` and `Comment` nodes with ordered children. A walk maps a tree and a state to a new tree and state, or to a thrown message. The state is the scope stack `vars` (a name maps to a stack of values) plus the warnings added to the run's result.
- **The plugin instance** (module `NestedVarsPlugin`). Class `NestedVars` holds `vars` and `warnings` as fields and updates them in place, as the source does. It has the `containerVars` push/overwrite/pop discipline, postcss's `each` loop over the child list, and the policy loop of `replaceAllVars`. Every method is proved to give exactly the specification function's result and new state.
- **Properties** (modules `WalkProperties`, `Scenarios`, `Documents`). `WalkProperties` holds lemmas over all trees: scope restoration, the error policy's messages and its agreement with warn, warn/silent agreement, identity on `$`-free input and shape preservation. `Documents` works out whole test documents of `src/plugin.spec.ts` as written: lines 6-28, 30-40, 52-61, 80-105, 107-126, 128-136, 138-158 and 160-177. `Scenarios` holds smaller documents: the remaining single-reference tests of `src/plugin.spec.ts` (lines 42-50, 63-78, 179-197, 204-208, 221-235) and the documents that show the effects of the repeated visits. Names, values and selectors are parameters, so each document lemma covers every document of that shape.

The traversal is modelled as written. postcss's `container.walk` visits all descendants in pre-order. The callback on a rule or at-rule substitutes its selector or params and then calls a nested `walk` on it. After that, the enclosing frame also descends into the same (already rewritten) children.
- So every visit of a container opens one more nested walk of it, and the enclosing frame then descends into it as well. The visits double per level: a node at depth k (a child of the root has depth 1) is visited 2^(k-1) times. A declaration `$name: value` is removed at its first visit, by the walk of its own container.
- Usually the later visits change nothing. They do change output in two cases, each proved as a lemma in `Scenarios`:
  - A reference kept by warn is warned again at every later visit: twice at depth 2, four times at depth 3 (`a { b { p: $foo } }` gives four warnings).
  - A variable whose raw value is `$other` is resolved again by the outer frame. This either completes the substitution (`$b: B; a { $c: $b; d: $c }` gives `d: B`) or throws, once the inner frame has popped `other` (`a { $b: B; $c: $b; d: $c }` throws `Undefined variable: b`).

Environment of the model:
- The log level and the globals are parameters of `Setup`.
- The postcss tree is a parameter of `Run`.
- The thrown postcss error is its message.
- A warning is its message.

## Model

| member | source | states |
|---|---|---|
| LogPolicy.SelectLogLevel | src/plugin.ts:12-39 | a policy is selected exactly when `logLevel \|\| 'error'` is `error`, `warn` or `silent`, and its name is the option; any other value gives `Invalid logLevel: <value>`; a missing option selects error |
| LogPolicy.SelectLevelName | src/plugin.ts:17-35 | naming each policy selects that policy (the table lookup round-trips) |
| ScopeStack.Lookup | src/plugin.ts:118-123 | a name has a visible value exactly when its stack exists and is non-empty, and that value is the last element |
| ScopeStack.Seed | src/plugin.ts:41-46 | every global, and nothing else, starts as a one-element stack whose visible value is the global's value |
| ScopeStack.Declare | src/plugin.ts:92-101 | a missing stack is created; the first declaration in a frame pushes the value and adds the name to the frame; a later one replaces the top without changing the stack's length or the entries below it; no other name changes; the declared value is visible whenever the stack was non-empty or the name was new to the frame; an overwrite of an empty stack leaves it empty |
| ScopeStack.PopFrame | src/plugin.ts:74-76 | exactly the tracked names lose their last entry; all other stacks and the set of names are unchanged |
| ScopeStack.DeclareKeepsFrameInv | src/plugin.ts:96-101 | a declaration keeps the frame invariant (each tracked name has exactly one entry above its stack at frame entry), makes the value visible, and leaves the declared name exactly one entry above its stack at entry |
| ScopeStack.PopFrameRestores | src/plugin.ts:57-76 | under the frame invariant, the pops give back every stack the frame found on entry; the only residue is newly created, empty stacks |
| ScopeStack.RestoredTrans | src/plugin.ts:74-76 | restoration composes, so nested frames that each restore leave their parent restored |
| ScopeStack.RestoredLookup | src/plugin.ts:118-123 | a restored scope shows every name with the same stack and visible value as before |
| ScopeStack.FrameInvAfterRestored | src/plugin.ts:82 | a nested walk that restores its scope keeps the enclosing frame's invariant |
| Substitution.IdentLen | src/plugin.ts:106 | the greedy `[\w\d-_]+` run: all counted characters are identifier characters and the next one is not |
| Substitution.IdentLenStops | src/plugin.ts:106 | a run of identifier characters ended by a non-identifier character is exactly the greedy run |
| Substitution.IdentLenAll | src/plugin.ts:106 | a text of identifier characters only is one greedy run |
| Substitution.Replacement | src/plugin.ts:118-123 | the replacement is the visible value, or `$name` when there is none (for `$(name)` too, dropping the parentheses) |
| Substitution.MatchAt | src/plugin.ts:15 | a match at the start of the text is `$(` identifier `)` or a greedy `$` identifier, and its length is that text's length; no match means no reference of the pattern starts there |
| Substitution.MatchBare | src/plugin.ts:106 | `/\$([\w\d-_]+)/` at the start: the match is `$` plus the longest identifier; none means no `$`-reference starts there |
| Substitution.MatchBracketed | src/plugin.ts:15 | `/\$\(([\w\d-_]+)\)/` at the start: the match is `$(`, an identifier and `)`; none means no such reference starts there |
| Substitution.NoBracketedRef | src/plugin.ts:15 | when the identifier run after `$(` is empty or not closed by `)`, no bracketed reference starts there |
| Substitution.Scan | src/plugin.ts:115-125 | every name reported as unresolved has no visible value |
| Substitution.ScanRender | src/plugin.ts:115-125 | for a text made of literal characters (including a `$` that starts no reference, as in `$$foo` or `[href$=".pdf"]`) and references, every reference is replaced left to right without overlap by its visible value or `$name`, every other character is kept, and exactly the names without a visible value are reported, in order |
| Substitution.ScanWithoutDollar | src/plugin.ts:105-107 | a text without `$` is returned unchanged with nothing unresolved |
| Substitution.ScanDollarFreePrefix | src/plugin.ts:115-125 | text without `$` in front of the rest is copied, and the rest is scanned on its own |
| Substitution.ScanRef | src/plugin.ts:117-123 | a reference at the start is replaced by its value or `$name`, reported when unresolved, and the scan goes on after it |
| Substitution.ScanChr | src/plugin.ts:115-125 | a character at which no reference starts, `$` included, is copied and the scan goes on after it |
| Substitution.DollarBeforeReference | src/plugin.ts:115-125 | in `$$name` the first `$` starts no match and is kept, and the reference after it is replaced |
| Walker.Messages | src/plugin.ts:120 | one `Undefined variable: <name>` message per unresolved name, in order |
| Walker.ReplaceAllVars | src/plugin.ts:110-126 | error throws exactly when some name is unresolved, with the first such name's message and the state unchanged; otherwise the text is the scan's text; warn appends one message per unresolved name, in order; silent adds none; the scope never changes |
| Walker.ScanWithoutMarker | src/plugin.ts:79-87 | without `$(` the bracketed scan finds nothing, so the `indexOf('$(')` guard changes no result |
| Walker.ResolveBracketed | src/plugin.ts:79-88 | the guarded substitution of a selector, params or prop gives the bracketed scan's text whenever it does not throw, and never changes the scope |
| Walker.WalkFrame | src/plugin.ts:52-76 | the definition of `walk` that `NestedVars.Walk` is proved equal to: the traversal with a fresh tracking set, then the pops; never grows the tree; its properties are the `WalkProperties.Walk*` lemmas |
| Walker.EachNodes | src/plugin.ts:59-72 | the definition of postcss's child loop that `NestedVars.Each` is proved equal to; never grows the list; properties in the `WalkProperties.Each*` lemmas |
| Walker.VisitNode | src/plugin.ts:59-72 | the definition of the callback dispatch that `NestedVars.Visit` is proved equal to; never grows the node; properties in the `WalkProperties.Visit*` lemmas |
| Walker.VisitContainer | src/plugin.ts:78-83 | the definition of `resolveContainer` plus the enclosing frame's descent that `NestedVars.VisitContainer` is proved equal to; never grows the children; properties in the `WalkProperties.Container*` lemmas |
| Walker.ResolveDeclaration | src/plugin.ts:85-108 | the definition of `resolveDeclaration` that `NestedVars.ResolveDeclaration` is proved equal to; properties in `WalkProperties.DeclarationPushesOnce`, `BareReference` and `DeclarationWarnSilentAgree` |
| WalkProperties.DeclarationPropShape | src/plugin.ts:89 | the `/^\$(?!\()/` test of `Walker.IsDeclarationProp`: `$name` passes it, `$(name)` does not, and no prop that passes starts with a bracketed reference |
| Scenarios.MarkerBetween | src/plugin.ts:79 | the `indexOf('$(')` guard of `Walker.HasBracketMarker` holds for every text containing a bracketed reference; with `Walker.ScanWithoutMarker` the guard changes no result |
| Walker.DeclaredName | src/plugin.ts:89-91 | the key of a `$` declaration is the identifier after `$` when the prop is exactly `$` plus an identifier, and `"null"` otherwise |
| WalkProperties.WalkRestoresScope | src/plugin.ts:52-76 | a walk that completes leaves every name's stack and visible value as it found them; the only residue is new, empty stacks |
| WalkProperties.EachKeepsFrameInv | src/plugin.ts:59-72 | the frame's traversal of a child list keeps the frame invariant and only grows the tracking set |
| WalkProperties.VisitKeepsFrameInv | src/plugin.ts:59-108 | one visit, including the descent into the node's children, keeps the frame invariant |
| WalkProperties.ContainerKeepsFrameInv | src/plugin.ts:78-83 | `resolveContainer` plus the enclosing frame's descent keeps the frame invariant, since the nested walk restores the scope |
| WalkProperties.WalkThrowsOnlyUndefined | src/plugin.ts:118-121 | a walk throws only under the error policy, and only `Undefined variable: <name>` |
| WalkProperties.EachThrowsOnlyUndefined | src/plugin.ts:59-72 | the same for the traversal of a child list |
| WalkProperties.VisitThrowsOnlyUndefined | src/plugin.ts:59-72 | the same for one visit |
| WalkProperties.ContainerThrowsOnlyUndefined | src/plugin.ts:78-83 | the same for a rule or at-rule |
| WalkProperties.WalkErrorThrowsIffWarned | src/plugin.ts:24-33 | from the same state, the error walk throws exactly when the warn walk records a warning, and then throws warn's first new message; otherwise it gives warn's tree and state |
| WalkProperties.WalkErrorAgrees | src/plugin.ts:52-76 | error and warn walks from the same scope agree: error completes with warn's tree and scope when warn adds no warning, and otherwise throws warn's first new warning |
| WalkProperties.EachErrorAgrees | src/plugin.ts:59-72 | the same for the traversal of a child list |
| WalkProperties.VisitErrorAgrees | src/plugin.ts:59-72 | the same for one visit |
| WalkProperties.ContainerErrorAgrees | src/plugin.ts:78-83 | the same for a rule or at-rule |
| WalkProperties.DeclarationErrorAgrees | src/plugin.ts:85-108 | the same for `resolveDeclaration` |
| WalkProperties.ReplaceErrorAgrees | src/plugin.ts:110-126 | the same for `replaceAllVars` |
| WalkProperties.ReplaceThrowsUndefined | src/plugin.ts:110-126 | `replaceAllVars` throws only under error, with an `Undefined variable` message |
| WalkProperties.WalkWarnSilentAgree | src/plugin.ts:24-33 | warn and silent never throw and give the same tree and scope; silent records no warning; warn only appends |
| WalkProperties.EachWarnSilentAgree | src/plugin.ts:59-72 | the same for the traversal of a child list |
| WalkProperties.VisitWarnSilentAgree | src/plugin.ts:59-72 | the same for one visit |
| WalkProperties.ContainerWarnSilentAgree | src/plugin.ts:78-83 | the same for a rule or at-rule |
| WalkProperties.DeclarationWarnSilentAgree | src/plugin.ts:85-108 | the same for `resolveDeclaration` |
| WalkProperties.WalkIdentity | src/plugin.ts:78-108 | a tree with no `$` in any selector, params, prop or value comes out unchanged with an unchanged state, whatever its comments hold |
| WalkProperties.EachIdentity | src/plugin.ts:59-72 | the same for the traversal of a child list |
| WalkProperties.VisitIdentity | src/plugin.ts:59-72 | the same for one node |
| WalkProperties.ContainerIdentity | src/plugin.ts:78-83 | the same for a rule or at-rule |
| WalkProperties.WalkKeepsSkeleton | src/plugin.ts:59-102 | a completed walk keeps every rule, at-rule (with its name) and comment (with its text), in order and with the same nesting; only declarations can be removed |
| WalkProperties.EachKeepsSkeleton | src/plugin.ts:59-102 | the same for the traversal of a child list, so no node after a removed declaration is lost |
| WalkProperties.VisitKeepsSkeleton | src/plugin.ts:59-72 | the same for one node |
| WalkProperties.ContainerKeepsSkeleton | src/plugin.ts:78-83 | the same for a rule or at-rule |
| WalkProperties.NoMarkerInDeclarationProp | src/plugin.ts:86-89 | the prop `$name` holds no `$(`, so it is not substituted and is a declaration prop |
| WalkProperties.DeclarationPushesOnce | src/plugin.ts:89-103 | `$name: value` is removed, under any policy, with no warning; its raw value becomes `name`'s visible value; the name joins the frame, whose invariant is kept; the stack is one entry above its height at frame entry, however often the frame declares the name |
| WalkProperties.BareReference | src/plugin.ts:105-123 | `prop: $name` takes the visible value of `name`; with none, error throws `Undefined variable: <name>`, warn keeps `$name` and adds that warning, and silent keeps `$name` |
| WalkProperties.BareReplace | src/plugin.ts:110-126 | `replaceAllVars` on a value that is exactly `$name`, under each policy |
| WalkProperties.BareScan | src/plugin.ts:115-125 | the bare scan of exactly `$name` |
| WalkProperties.EachCons | src/plugin.ts:59 | postcss's `each` visits the first child and then the rest with the updated frame and state; a throw stops it |
| NestedVarsPlugin.Setup | src/plugin.ts:12-46 | an invalid level fails with its `Invalid logLevel` message; a valid one gives a fresh instance with that level, the seeded globals and no warnings |
| NestedVarsPlugin.NestedVars.constructor | src/plugin.ts:41-46 | the seeding loop over the globals leaves exactly their one-element stacks |
| NestedVarsPlugin.NestedVars.Run | src/plugin.ts:48-50 | a run gives the walk's result from the current scope with a fresh result; a completed run restores the scope; a throw happens only under error, with an `Undefined variable` message, and leaves the entries pushed so far for the next run |
| NestedVarsPlugin.NestedVars.Walk | src/plugin.ts:52-76 | `walk` computes `WalkFrame`: the traversal with a fresh tracking set, then the pops, which only a completed traversal reaches |
| NestedVarsPlugin.NestedVars.PopFrame | src/plugin.ts:74-76 | the pop loop leaves the scope of `ScopeStack.PopFrame` |
| NestedVarsPlugin.NestedVars.Each | src/plugin.ts:59-72 | the child loop computes `EachNodes`: kept nodes in order, the tracking set and state after the last visit, or the first throw |
| NestedVarsPlugin.NestedVars.Visit | src/plugin.ts:59-72 | the callback dispatch on node type computes `VisitNode`; comments are untouched |
| NestedVarsPlugin.NestedVars.VisitContainer | src/plugin.ts:78-83 | `resolveContainer` and the enclosing frame's descent compute `Walker.VisitContainer` |
| NestedVarsPlugin.NestedVars.ResolveDeclaration | src/plugin.ts:85-108 | computes `Walker.ResolveDeclaration`: the prop is substituted, then the node is a declaration that is recorded and removed, or has its value substituted when it holds a `$`, or is kept as is |
| NestedVarsPlugin.NestedVars.Declare | src/plugin.ts:92-101 | updates the scope and the tracking set in place exactly as `ScopeStack.Declare` says |
| NestedVarsPlugin.NestedVars.ResolveBracketed | src/plugin.ts:79-88 | computes `Walker.ResolveBracketed` |
| NestedVarsPlugin.NestedVars.ReplaceAllVars | src/plugin.ts:110-126 | the policy loop over the unresolved names computes `Walker.ReplaceAllVars`: error throws at the first, warn appends each message, silent does nothing |
| Scenarios.RootDeclarationReachesNestedRule | src/plugin.spec.ts:42-50 | `$foo: V; a { p: $foo }` gives `a { p: V }`; after the walk `foo`'s stack is empty |
| Scenarios.RuleSelectorInterpolation | src/plugin.spec.ts:179-182 | `$bar: V; x$(bar)y {}` gives `xVy {}` |
| Scenarios.AtRuleParamsInterpolation | src/plugin.spec.ts:184-187 | `$bar: V; @a x$(bar)y {}` gives `@a xVy {}` |
| Scenarios.PropInterpolation | src/plugin.spec.ts:189-197 | `x$(bar)y: v`, with `bar` visible as `V`, gives the ordinary declaration `xVy: v` |
| Scenarios.ScopedDeclaration | src/plugin.ts:82-103 | `a { $foo: V }` comes out as the empty rule `a {}`, with `foo`'s entry already popped |
| Scenarios.NestedUndefinedThrows | src/plugin.spec.ts:63-68 | `a { p: $foo }` with no visible `foo` throws `Undefined variable: foo` under error |
| Scenarios.SiblingDoesNotSeeDeclaration | src/plugin.spec.ts:70-78 | `a { $foo: V } b { p: $foo }` throws `Undefined variable: foo`: a variable is not visible outside its container |
| Scenarios.GlobalIsVisible | src/plugin.spec.ts:204-208 | `p: $foo` with the global `foo: V` gives `p: V` |
| Scenarios.WarnKeepsReference | src/plugin.spec.ts:221-235 | under warn, `p: $foo` with nothing declared is kept, with the one warning `Undefined variable: foo` |
| Scenarios.SilentKeepsReference | src/plugin.spec.ts:221-235 | under silent, `p: $foo` is kept with no warning |
| Scenarios.ThrowLeavesPushes | src/plugin.ts:74-120 | `$foo: V; p: $bar` throws `Undefined variable: bar`, and `foo`'s entry stays on its stack |
| Scenarios.NestedWarningRecordedTwice | src/plugin.ts:59-82 | under warn, `a { p: $foo }` is visited by the rule's walk and again by the root walk, so the warning is recorded twice |
| Scenarios.WarnedRuleVisit | src/plugin.ts:59-82 | under warn, any frame's visit of `b { p: $foo }` with nothing declared records the warning twice and keeps the rule |
| Scenarios.DoublyNestedWarningRecordedFourTimes | src/plugin.ts:59-82 | under warn, `a { b { p: $foo } }` is kept and records the warning four times: the declaration at depth 3 is visited 2^2 times |
| Scenarios.RawValueResolvedByOuterVisit | src/plugin.ts:82-107 | `$b: B; a { $c: $b; d: $c }` gives `a { d: B }`: `c` holds the raw `$b`, and the root walk's second visit of `d` resolves it |
| Scenarios.ChainedDeclarationThrowsOnRevisit | src/plugin.ts:74-98 | `a { $b: B; $c: $b; d: $c }` throws `Undefined variable: b`: the rule's walk leaves `d: $b` and pops `b`, and the root walk's second visit of `d` finds no `b` |
| Documents.ReadmeScoping | src/plugin.spec.ts:6-28 | the readme's scoping document gives `a { color: red; color: white; b { color: white; color: blue } color: white }` and leaves `color`'s stack empty |
| Documents.ReadmeInterpolation | src/plugin.spec.ts:30-40 | `$bar: BAR; $(bar) {} @media foo$(bar) { foo-$(bar)-baz: qux }` gives `BAR {} @media fooBAR { foo-BAR-baz: qux }` |
| Documents.SameValueReferences | src/plugin.spec.ts:52-61 | `$foo: FOO; $bar: BAR; a { baz: $foo $bar $foo baz }` gives `a { baz: FOO BAR FOO baz }` |
| Documents.OverridesInSameContext | src/plugin.spec.ts:80-105 | the whole override document: a later declaration in the same container overwrites the visible value from there on, one in a nested rule shadows it only there, giving `a { bar: FOO; baz: BAR; b { qux: BAR; corge: BAZ } garpley: BAR; waldo: QUX }` |
| Documents.InnerShadowsThenRestores | src/plugin.spec.ts:107-126 | `a { $foo: FOO; b { $foo: BAR; baz: $foo } c { qux: $foo } }` gives `a { b { baz: BAR } c { qux: FOO } }`: the outer value is back after the inner rule |
| Documents.SameRuleDeclaration | src/plugin.spec.ts:128-136 | `a { $foo: FOO; bar: $foo }` gives `a { bar: FOO }` |
| Documents.DeeplyNestedVar | src/plugin.spec.ts:138-158 | `@a { $foo: FOO; @b { c { d { bar: $foo } } } }` gives `bar: FOO` at depth 4: a declaration is visible at any depth below its container |
| Documents.ClosestDeclarationWins | src/plugin.spec.ts:160-177 | `@a { $foo: FOO; @b { $foo: BAR; c { baz: $foo } } }` gives `@a { @b { c { baz: BAR } } }`: the closest declaration wins |
| Scenarios.BracketedBetween | src/plugin.ts:115-125 | `x$(name)y`, with `$`-free `x` and `y` and `name` visible as `V`, becomes `xVy` under any policy, with the state unchanged |

## Left out

- Parsing and printing of CSS, and the `postcss.plugin` registration wrapper. The tree is an abstract value. A `Comment` node stands for every node type the callback ignores.
- postcss diagnostics. `node.error(message, errorContext)` and `node.warn(result, message)` build objects with source locations. The model keeps only the message: a thrown message, or a warning appended to the warnings list.
- Node identity and aliasing. The tree is a value and the walk returns a rewritten copy. In-place field assignment and `decl.remove()` are therefore modelled by what they produce. postcss's guarantee that its iterator does not skip the sibling after a removed node is built into `EachNodes` and `NestedVars.Each`.
- Globals that are not strings. The `any` values of `options.globals` are modelled as strings.
- JavaScript object-key quirks. `vars`, `containerVars` and the policy table are plain objects. So names such as `constructor` or `__proto__` behave differently in JavaScript, and a `logLevel` such as `toString` would pass the `!log` check. Maps have no such keys, so the model treats every name as an ordinary key.
- `options.logLevel` values that are not strings. The option is an optional string, and the empty string counts as missing, as with `||`.
- Multiple plugin instances. One `NestedVars` object is one instance. Its scope persists across `Run` calls, as the shared `globals` object does. Interleaved or concurrent runs are not modelled.
- ScopeStack.Declare: two cases of the overwrite differ from JavaScript, and neither can arise in a walk, because a name tracked by a frame always has that frame's entry on its stack (`WalkProperties.DeclarationPushesOnce`). On an empty stack the model leaves the stack empty, while JavaScript writes the array property `-1`, which no later read sees. When the name is tracked but has no stack at all, `src/plugin.ts:100` would throw a `TypeError` on the undefined `stack`, while the model creates an empty stack and leaves it empty.
- The tree after a throw. Before the error, the source has already rewritten some nodes in place and removed some declarations. A `Thrown` result carries only the message and the scope, so that partially rewritten tree is not modelled; only the scope entries left pushed are (`Scenarios.ThrowLeavesPushes`, `NestedVars.Run`).
