/**
 * The scope stack of the resolver (`vars` in src/plugin.ts): every variable
 * name maps to a stack of values whose last element is the visible value.
 * A walk frame records in its tracking set (`containerVars`) the names it has
 * pushed; a later declaration of such a name in the same frame overwrites the
 * top instead of pushing, and the frame pops each tracked name once on exit.
 */
module ScopeStack {
  import opened Options

  type Vars = map<string, seq<string>>

  /** The stack of `name`; a name the map does not hold has an empty stack. */
  function Stack(vars: Vars, name: string): seq<string>
  {
    if name in vars then vars[name] else []
  }

  /** The visible value of `name`: the top of its stack, if there is one. */
  function Lookup(vars: Vars, name: string): (r: Option<string>)
    ensures r.None? <==> Stack(vars, name) == []
    ensures r.Some? ==> r.value == Stack(vars, name)[|Stack(vars, name)| - 1]
  {
    var s := Stack(vars, name);
    if s == [] then None else Some(s[|s| - 1])
  }

  /** `Array.prototype.pop` on the stack: removes the last element; a no-op on []. */
  function Pop(s: seq<string>): seq<string>
  {
    if s == [] then [] else s[..|s| - 1]
  }

  /**
   * The initial scope: every global becomes a one-element stack.
   */
  function Seed(globals: map<string, string>): (vars: Vars)
    ensures vars.Keys == globals.Keys
    ensures forall k :: k in globals ==> vars[k] == [globals[k]] && Lookup(vars, k) == Some(globals[k])
  {
    map k | k in globals :: [globals[k]]
  }

  /**
   * A declaration `$name: value` seen by a walk frame whose tracking set is
   * `frame`. A missing stack is first created empty. If the frame has not yet
   * declared `name`, the value is pushed and `name` joins the tracking set;
   * otherwise the top of the stack is replaced (on an empty stack the write
   * goes to index -1 and leaves the elements alone). A tracked name with no
   * stack, where the source would fail on the undefined `stack`, gets an
   * empty one; walks never reach these two cases.
   */
  function Declare(vars: Vars, frame: set<string>, name: string, value: string): (r: (Vars, set<string>))
    ensures r.0.Keys == vars.Keys + {name}
    ensures r.1 == frame + {name}
    ensures forall k :: k in r.0 && k != name ==> r.0[k] == vars[k]
    ensures name !in frame ==> r.0[name] == Stack(vars, name) + [value]
    ensures name in frame && Stack(vars, name) != [] ==>
      |r.0[name]| == |Stack(vars, name)| && Pop(r.0[name]) == Pop(Stack(vars, name))
    ensures name !in frame || Stack(vars, name) != [] ==> Lookup(r.0, name) == Some(value)
    ensures name in frame && Stack(vars, name) == [] ==> r.0[name] == []
  {
    var stack := Stack(vars, name);
    if name !in frame then
      (vars[name := stack + [value]], frame + {name})
    else if stack == [] then
      (vars[name := stack], frame)
    else
      (vars[name := stack[..|stack| - 1] + [value]], frame)
  }

  /** Frame exit: one pop for every name in the tracking set. */
  function PopFrame(vars: Vars, frame: set<string>): (r: Vars)
    ensures r.Keys == vars.Keys
    ensures forall k :: k in vars ==> r[k] == if k in frame then Pop(vars[k]) else vars[k]
  {
    map k | k in vars :: if k in frame then Pop(vars[k]) else vars[k]
  }

  /**
   * `after` is `before` restored: no name was dropped, and every name has
   * the stack it had (a name that was absent may now be present, with an
   * empty stack).
   */
  ghost predicate Restored(before: Vars, after: Vars)
  {
    before.Keys <= after.Keys &&
    forall k :: k in after ==> after[k] == Stack(before, k)
  }

  /**
   * The invariant of a walk frame that started from `entry` and whose
   * tracking set is `frame`: each tracked name carries exactly one extra
   * entry on top of its stack at entry, every other name has its stack at entry.
   */
  ghost predicate FrameInv(entry: Vars, cur: Vars, frame: set<string>)
  {
    entry.Keys <= cur.Keys && frame <= cur.Keys &&
    forall k :: k in cur ==>
      if k in frame then |cur[k]| > 0 && Pop(cur[k]) == Stack(entry, k)
      else cur[k] == Stack(entry, k)
  }

  lemma RestoredRefl(vars: Vars)
    ensures Restored(vars, vars)
  {
  }

  lemma RestoredTrans(a: Vars, b: Vars, c: Vars)
    requires Restored(a, b) && Restored(b, c)
    ensures Restored(a, c)
  {
    forall k | k in c
      ensures c[k] == Stack(a, k)
    {
      if k !in b {
        assert k !in a;
      }
    }
  }

  /** A restored scope shows every name with the value it showed before. */
  lemma RestoredLookup(before: Vars, after: Vars, name: string)
    requires Restored(before, after)
    ensures Lookup(after, name) == Lookup(before, name)
    ensures Stack(after, name) == Stack(before, name)
  {
  }

  /** A fresh frame (empty tracking set) starts with the invariant. */
  lemma FrameInvStart(vars: Vars)
    ensures FrameInv(vars, vars, {})
  {
  }

  /**
   * A declaration keeps the frame invariant: the first declaration of a name
   * in a frame pushes exactly one entry, later ones overwrite that entry, and
   * in both cases the declared value becomes visible.
   */
  lemma DeclareKeepsFrameInv(entry: Vars, cur: Vars, frame: set<string>, name: string, value: string)
    requires FrameInv(entry, cur, frame)
    ensures FrameInv(entry, Declare(cur, frame, name, value).0, Declare(cur, frame, name, value).1)
    ensures Lookup(Declare(cur, frame, name, value).0, name) == Some(value)
    ensures |Declare(cur, frame, name, value).0[name]| == |Stack(entry, name)| + 1
  {
    var (v, f) := Declare(cur, frame, name, value);
    if name !in frame {
      assert Stack(cur, name) == Stack(entry, name);
      assert Pop(v[name]) == Stack(entry, name);
    } else {
      assert Stack(cur, name) != [];
    }
  }

  /** A nested frame that restored the scope leaves the enclosing invariant intact. */
  lemma FrameInvAfterRestored(entry: Vars, cur: Vars, next: Vars, frame: set<string>)
    requires FrameInv(entry, cur, frame) && Restored(cur, next)
    ensures FrameInv(entry, next, frame)
  {
    forall k | k in next
      ensures if k in frame then |next[k]| > 0 && Pop(next[k]) == Stack(entry, k)
              else next[k] == Stack(entry, k)
    {
      if k !in cur {
        assert k !in entry && k !in frame;
      }
    }
  }

  /** Popping every tracked name at frame exit restores the scope of frame entry. */
  lemma PopFrameRestores(entry: Vars, cur: Vars, frame: set<string>)
    requires FrameInv(entry, cur, frame)
    ensures Restored(entry, PopFrame(cur, frame))
  {
  }
}
