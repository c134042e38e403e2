/**
 * The per-session action (trigger) store, `ActionData` in
 * lyntin/modules/action.py.
 *
 * The store is a dict from the literal trigger text to the tuple
 * `(trigger, compiled, response, priority, onetime)`. The regular-expression
 * compiler, the matcher, the session-variable expansion, the response
 * expansion, the glob selection and the ANSI/carriage-return filters live in
 * modules outside this model; they are parameters here. The compiled regexp
 * is represented by the text that was handed to the compiler.
 */
module ActionStore {
  import opened Common
  import opened ActionText

  /** One stored action: `(trigger, compiled, response, priority, onetime)`. */
  datatype Action = Action(trigger: string, pattern: string, response: string, priority: int, onetime: bool)

  /** What makes an operation raise instead of completing. */
  datatype Failure =
    | RegexError(pattern: string)   // `utils.compile_regexp` rejects the pattern
    | KeyError(key: string)         // a `del d[k]` or `d[k]` on a key the dict does not hold

  /** `exported.expand_ses_vars(trigger, ses)` for the store's session. */
  type Expander = string -> string
  /** Whether `utils.compile_regexp(pattern, 1)` accepts the pattern. */
  type Compiler = string -> bool
  /** `compiled.search(line)`: the capture groups 1, 2, ... of a match, if there is one. */
  type Matcher = (string, string) -> Option<seq<string>>
  /** `utils.expand_vars(response, varvals)`. */
  type Substitution = (string, map<string, string>) -> string

  /** The text the trigger is compiled from: its expansion, or the trigger itself when that is empty. */
  function PatternOf(trigger: string, expand: Expander): (p: string)
    ensures p != [] ==> p == expand(trigger) || p == trigger
    ensures p == [] <==> expand(trigger) == [] && trigger == []
  {
    if expand(trigger) == [] then trigger else expand(trigger)
  }

  /** The store's invariant: every entry is filed under its own trigger. */
  predicate WellKeyed(m: map<string, Action>)
  {
    forall t | t in m :: m[t].trigger == t
  }

  // ---------------------------------------------------------------------
  // `_recompileRegexps`

  /** The store after every pattern was compiled again from the current expansion. */
  function Recompiled(m: map<string, Action>, expand: Expander): (r: map<string, Action>)
    ensures r.Keys == m.Keys
    ensures forall t | t in r ::
      && r[t].trigger == m[t].trigger && r[t].response == m[t].response
      && r[t].priority == m[t].priority && r[t].onetime == m[t].onetime
      && r[t].pattern == PatternOf(m[t].trigger, expand)
    ensures WellKeyed(m) ==> WellKeyed(r)
  {
    map t | t in m :: m[t].(pattern := PatternOf(m[t].trigger, expand))
  }

  // ---------------------------------------------------------------------
  // `removeActions`

  /** What `removeActions` returns, or the error it raises, and the dict it leaves behind. */
  datatype Removal = Removal(result: Result<seq<(string, string)>, Failure>, rest: map<string, Action>)

  /** The `removeActions` loop over the selected keys: report `(trigger, response)`, then `del`. */
  function Remove(m: map<string, Action>, selected: seq<string>): Removal
    decreases |selected|
  {
    if selected == [] then Removal(Ok([]), m)
    else if selected[0] !in m then Removal(Err(KeyError(selected[0])), m)
    else
      var a := m[selected[0]];
      After([(a.trigger, a.response)], Remove(m - {selected[0]}, selected[1..]))
  }

  /** The pairs already reported, in front of what the rest of the loop produces. */
  function After(done: seq<(string, string)>, out: Removal): Removal
  {
    Removal(if out.result.Ok? then Ok(done + out.result.value) else out.result, out.rest)
  }

  lemma {:induction false} AfterAfter(d1: seq<(string, string)>, d2: seq<(string, string)>, out: Removal)
    ensures After(d1, After(d2, out)) == After(d1 + d2, out)
  {
    if out.result.Ok? {
      assert d1 + (d2 + out.result.value) == (d1 + d2) + out.result.value;
    }
  }

  lemma {:induction false} AfterNothing(out: Removal)
    ensures After([], out) == out
  {
    if out.result.Ok? {
      assert [] + out.result.value == out.result.value;
    }
  }

  predicate Distinct(s: seq<string>)
  {
    forall i, j | 0 <= i < j < |s| :: s[i] != s[j]
  }

  /** The set of the elements of a sequence. */
  function Elements(s: seq<string>): set<string>
  {
    set t | t in s
  }

  /** Every element of `s` is a key of `m`. */
  predicate AllIn(s: seq<string>, m: map<string, Action>)
  {
    forall x | x in s :: x in m
  }

  lemma {:induction false} DistinctCons(s: seq<string>)
    requires s != []
    ensures Distinct(s) <==> s[0] !in s[1..] && Distinct(s[1..])
  {
    if s[0] !in s[1..] && Distinct(s[1..]) {
      forall i, j | 0 <= i < j < |s| ensures s[i] != s[j] {
        assert s[j] == s[1..][j - 1];
        if i > 0 {
          assert s[i] == s[1..][i - 1];
        }
      }
    }
    if Distinct(s) {
      forall i, j | 0 <= i < j < |s[1..]| ensures s[1..][i] != s[1..][j] {
        assert s[1..][i] == s[i + 1] && s[1..][j] == s[j + 1];
      }
    }
  }

  /** Removal succeeds exactly when every selected key is in the store, once. */
  lemma {:induction false} RemoveSucceeds(m: map<string, Action>, selected: seq<string>)
    ensures Remove(m, selected).result.Ok? <==> AllIn(selected, m) && Distinct(selected)
    decreases |selected|
  {
    if selected != [] {
      var x, tail := selected[0], selected[1..];
      assert selected == [x] + tail;
      DistinctCons(selected);
      if x in m {
        RemoveSucceeds(m - {x}, tail);
        assert AllIn(selected, m) && x !in tail <==> AllIn(tail, m - {x}) && x !in tail;
      }
    }
  }

  /** A successful removal reports each selected trigger with its response, in selection order. */
  lemma {:induction false} RemoveReports(m: map<string, Action>, selected: seq<string>, k: nat)
    requires WellKeyed(m) && k < |selected|
    requires Remove(m, selected).result.Ok?
    ensures |Remove(m, selected).result.value| == |selected|
    ensures selected[k] in m && Remove(m, selected).result.value[k] == (selected[k], m[selected[k]].response)
    decreases |selected|
  {
    var x, tail := selected[0], selected[1..];
    var out' := Remove(m - {x}, tail);
    if tail == [] {
      assert out'.result.value == [];
    } else {
      RemoveReports(m - {x}, tail, if k == 0 then 0 else k - 1);
      if k > 0 {
        assert selected[k] == tail[k - 1];
      }
    }
  }

  /** A successful removal leaves the store without exactly the selected keys. */
  lemma {:induction false} RemoveLeaves(m: map<string, Action>, selected: seq<string>)
    requires Remove(m, selected).result.Ok?
    ensures Remove(m, selected).rest == m - Elements(selected)
    decreases |selected|
  {
    if selected != [] {
      var x, tail := selected[0], selected[1..];
      RemoveLeaves(m - {x}, tail);
      assert Elements(selected) == {x} + Elements(tail) by {
        assert selected == [x] + tail;
      }
      assert m - {x} - Elements(tail) == m - ({x} + Elements(tail));
    }
  }

  /**
   * Removal succeeds exactly when every selected key is in the store, once;
   * it then reports each selected trigger with its response, in selection
   * order, and leaves the store without those keys.
   */
  lemma {:induction false} RemoveSelected(m: map<string, Action>, selected: seq<string>)
    requires WellKeyed(m)
    ensures var out := Remove(m, selected);
      out.result.Ok? <==> AllIn(selected, m) && Distinct(selected)
    ensures var out := Remove(m, selected);
      out.result.Ok? ==>
        && |out.result.value| == |selected|
        && (forall k | 0 <= k < |selected| :: out.result.value[k] == (selected[k], m[selected[k]].response))
        && out.rest == m - Elements(selected)
  {
    RemoveSucceeds(m, selected);
    var out := Remove(m, selected);
    if out.result.Ok? {
      if selected != [] {
        RemoveReports(m, selected, 0);
      }
      forall k | 0 <= k < |selected| ensures out.result.value[k] == (selected[k], m[selected[k]].response) {
        RemoveReports(m, selected, k);
      }
      RemoveLeaves(m, selected);
    }
  }

  /** Whatever happens, removal only deletes: it changes no entry, and every unselected entry stays. */
  lemma {:induction false} RemoveOnlyDeletes(m: map<string, Action>, selected: seq<string>)
    ensures var out := Remove(m, selected);
      && (forall t | t in out.rest :: t in m && out.rest[t] == m[t])
      && (forall t | t in m && t !in selected :: t in out.rest)
    decreases |selected|
  {
    if selected != [] && selected[0] in m {
      RemoveOnlyDeletes(m - {selected[0]}, selected[1..]);
      assert forall t | t in m && t !in selected :: t !in selected[1..] && t != selected[0];
    }
  }

  // ---------------------------------------------------------------------
  // `getActions`

  predicate IsLeast(x: string, s: set<string>)
  {
    x in s && forall y | y in s && y != x :: LexLt(x, y)
  }

  lemma {:induction false} LeastExists(s: set<string>)
    requires s != {}
    ensures exists x :: IsLeast(x, s)
    decreases s
  {
    var y :| y in s;
    if s == {y} {
      assert IsLeast(y, s);
    } else {
      LeastExists(s - {y});
      var x :| IsLeast(x, s - {y});
      LexLtTotal(x, y);
      if LexLt(x, y) {
        assert IsLeast(x, s);
      } else {
        forall z | z in s && z != y ensures LexLt(y, z) {
          if z != x {
            LexLtTransitive(y, x, z);
          }
        }
        assert IsLeast(y, s);
      }
    }
  }

  lemma {:induction false} LeastUnique(s: set<string>)
    ensures forall x, y | IsLeast(x, s) && IsLeast(y, s) :: x == y
  {
    forall x, y | IsLeast(x, s) && IsLeast(y, s) ensures x == y {
      LexLtTotal(x, y);
    }
  }

  /** `listing.sort()` on the keys of a dict: the keys in ascending order, each once. */
  function SortedKeys(s: set<string>): (r: seq<string>)
    ensures |r| == |s|
    ensures forall x :: x in r <==> x in s
    ensures Ascending(r)
    decreases s
  {
    if s == {} then []
    else
      LeastExists(s);
      LeastUnique(s);
      var x :| IsLeast(x, s);
      var rest := SortedKeys(s - {x});
      assert forall j | 0 <= j < |rest| :: rest[j] in s - {x};
      [x] + rest
  }

  // ---------------------------------------------------------------------
  // `checkActions`

  /** What one action does with a line: nothing, submit a command, or raise IndexError. */
  datatype Firing = Silent | Fired(command: string) | Crash

  /** The matching context of one `checkActions` call. */
  datatype Env = Env(line: string, search: Matcher, subst: Substitution)

  /** `varvals[actionvars[i]] = match.group(i+1)`, for i from 0 up: a later duplicate name wins. */
  function Bindings(names: seq<string>, groups: seq<string>): (b: map<string, string>)
    requires |names| <= |groups|
    ensures b.Keys == set k | 0 <= k < |names| :: names[k]
    decreases |names|
  {
    if names == [] then map[]
    else
      var n := |names| - 1;
      var b := Bindings(names[..n], groups);
      assert forall k | 0 <= k < n :: names[..n][k] == names[k];
      b[names[n] := groups[n]]
  }

  /** The name of the i-th placeholder is bound to capture group i+1, unless a later placeholder has the same name. */
  lemma {:induction false} BindingsMeans(names: seq<string>, groups: seq<string>, k: nat)
    requires |names| <= |groups| && k < |names|
    requires forall j | k < j < |names| :: names[j] != names[k]
    ensures Bindings(names, groups)[names[k]] == groups[k]
    decreases |names|
  {
    var n := |names| - 1;
    if k < n {
      BindingsMeans(names[..n], groups, k);
    }
  }

  /** The variables a firing action expands its response with: the placeholders and `a`. */
  function Variables(names: seq<string>, groups: seq<string>, line: string): map<string, string>
    requires |names| <= |groups|
  {
    Bindings(names, groups)["a" := Neutralize(line)]
  }

  /** One action tried against the line. */
  function Fire(a: Action, env: Env): Firing
  {
    match env.search(a.pattern, env.line)
    case None => Silent
    case Some(groups) =>
      var names := OrderedVars(a.trigger);
      if |names| > |groups| then Crash
      else Fired(env.subst(a.response, Variables(names, groups, env.line)))
  }

  /** The outcome of a `checkActions` pass: commands submitted and triggers deleted, in order, and whether it raised. */
  datatype Pass = Pass(commands: seq<string>, deleted: seq<string>, crashed: bool)

  /** The `checkActions` loop over the snapshot; an IndexError ends it, keeping what was done before. */
  function RunPass(snapshot: seq<Action>, env: Env): Pass
    decreases |snapshot|
  {
    if snapshot == [] then Pass([], [], false)
    else Step(snapshot[0], env, RunPass(snapshot[1..], env))
  }

  /** One action of the pass, in front of the rest: a fired onetime action is deleted after its command. */
  function Step(a: Action, env: Env, rest: Pass): Pass
  {
    match Fire(a, env)
    case Silent => rest
    case Crash => Pass([], [], true)
    case Fired(command) => Then(Pass([command], if a.onetime then [a.trigger] else [], false), rest)
  }

  /** What was done before the rest of the pass. */
  function Then(done: Pass, rest: Pass): Pass
  {
    Pass(done.commands + rest.commands, done.deleted + rest.deleted, rest.crashed)
  }

  lemma {:induction false} ThenNothing(p: Pass)
    ensures Then(Pass([], [], false), p) == p
  {
    assert [] + p.commands == p.commands && [] + p.deleted == p.deleted;
  }

  lemma {:induction false} ThenThen(a: Pass, b: Pass, c: Pass)
    ensures Then(a, Then(b, c)) == Then(Then(a, b), c)
  {
    assert a.commands + (b.commands + c.commands) == (a.commands + b.commands) + c.commands;
    assert a.deleted + (b.deleted + c.deleted) == (a.deleted + b.deleted) + c.deleted;
  }

  /** The pass from position i on, unfolded by one action. */
  lemma {:induction false} PassStep(s: seq<Action>, i: nat, env: Env)
    requires i < |s|
    ensures RunPass(s[i..], env) == Step(s[i], env, RunPass(s[i + 1..], env))
  {
    assert s[i..][0] == s[i] && s[i..][1..] == s[i + 1..];
  }

  /** The commands the firing actions submit, crash or not: a reference for the commands of a pass. */
  function FiredCommands(snapshot: seq<Action>, env: Env): seq<string>
    decreases |snapshot|
  {
    if snapshot == [] then []
    else (if Fire(snapshot[0], env).Fired? then [Fire(snapshot[0], env).command] else [])
         + FiredCommands(snapshot[1..], env)
  }

  /** The position of the first action that raises, or the length of the snapshot. */
  function FirstCrash(snapshot: seq<Action>, env: Env): (c: nat)
    ensures c <= |snapshot|
    ensures forall k | 0 <= k < c :: !Fire(snapshot[k], env).Crash?
    ensures c < |snapshot| ==> Fire(snapshot[c], env).Crash?
    decreases |snapshot|
  {
    if snapshot == [] || Fire(snapshot[0], env).Crash? then 0
    else 1 + FirstCrash(snapshot[1..], env)
  }

  /**
   * A pass raises exactly when some action's trigger has more placeholders
   * than its match has groups; up to that point every matching action
   * submits its command, in snapshot order.
   */
  lemma {:induction false} RunPassCommands(snapshot: seq<Action>, env: Env)
    ensures var p := RunPass(snapshot, env); var c := FirstCrash(snapshot, env);
      && (p.crashed <==> c < |snapshot|)
      && p.commands == FiredCommands(snapshot[..c], env)
    decreases |snapshot|
  {
    if snapshot != [] {
      var c := FirstCrash(snapshot, env);
      if Fire(snapshot[0], env).Crash? {
        assert snapshot[..c] == [];
      } else {
        RunPassCommands(snapshot[1..], env);
        assert snapshot[..c][1..] == snapshot[1..][..c - 1];
      }
    }
  }

  /** Only a onetime action that fired is deleted, and, unless the pass raised, every such action is. */
  lemma {:induction false} RunPassDeletes(snapshot: seq<Action>, env: Env)
    ensures var p := RunPass(snapshot, env);
      forall t | t in p.deleted ::
        exists k | 0 <= k < |snapshot| :: snapshot[k].trigger == t && snapshot[k].onetime && Fire(snapshot[k], env).Fired?
    ensures var p := RunPass(snapshot, env);
      !p.crashed ==>
        forall k | 0 <= k < |snapshot| && snapshot[k].onetime && Fire(snapshot[k], env).Fired? :: snapshot[k].trigger in p.deleted
    decreases |snapshot|
  {
    if snapshot != [] {
      RunPassDeletes(snapshot[1..], env);
      var p := RunPass(snapshot, env);
      var p' := RunPass(snapshot[1..], env);
      forall t | t in p.deleted
        ensures exists k | 0 <= k < |snapshot| :: snapshot[k].trigger == t && snapshot[k].onetime && Fire(snapshot[k], env).Fired?
      {
        if t in p'.deleted {
          var k :| 0 <= k < |snapshot[1..]| && snapshot[1..][k].trigger == t && snapshot[1..][k].onetime && Fire(snapshot[1..][k], env).Fired?;
          assert snapshot[k + 1] == snapshot[1..][k];
        } else {
          assert snapshot[0].trigger == t;
        }
      }
      if !p.crashed {
        forall k | 0 <= k < |snapshot| && snapshot[k].onetime && Fire(snapshot[k], env).Fired?
          ensures snapshot[k].trigger in p.deleted
        {
          if k > 0 {
            assert snapshot[1..][k - 1] == snapshot[k];
          }
        }
      }
    }
  }

  /** An action that did not fire, or is not onetime, stays in the store (triggers of a snapshot are distinct). */
  lemma {:induction false} RunPassKeeps(snapshot: seq<Action>, env: Env, k: nat)
    requires k < |snapshot|
    requires forall i, j | 0 <= i < j < |snapshot| :: snapshot[i].trigger != snapshot[j].trigger
    requires !snapshot[k].onetime || !Fire(snapshot[k], env).Fired?
    ensures snapshot[k].trigger !in RunPass(snapshot, env).deleted
  {
    RunPassDeletes(snapshot, env);
  }

  /** A snapshot of the store's entries in nondecreasing priority order, each entry once (any order among equal priorities). */
  predicate PriorityOrder(s: seq<Action>, m: map<string, Action>)
  {
    && (forall i | 0 <= i < |s| :: s[i].trigger in m && m[s[i].trigger] == s[i])
    && (forall i, j | 0 <= i < j < |s| :: s[i].trigger != s[j].trigger && s[i].priority <= s[j].priority)
    && (forall t | t in m :: m[t] in s)
  }

  predicate LeastPriority(t: string, keys: set<string>, m: map<string, Action>)
    requires keys <= m.Keys
  {
    t in keys && forall u | u in keys :: m[t].priority <= m[u].priority
  }

  lemma {:induction false} LeastPriorityExists(keys: set<string>, m: map<string, Action>)
    requires keys <= m.Keys && keys != {}
    ensures exists t :: LeastPriority(t, keys, m)
    decreases keys
  {
    var y :| y in keys;
    if keys != {y} {
      LeastPriorityExists(keys - {y}, m);
      var t :| LeastPriority(t, keys - {y}, m);
      if m[y].priority < m[t].priority {
        assert LeastPriority(y, keys, m);
      } else {
        assert LeastPriority(t, keys, m);
      }
    } else {
      assert LeastPriority(y, keys, m);
    }
  }

  /** A stable sort by priority exists for every store: the witness the snapshot is chosen against. */
  ghost function ByPriority(keys: set<string>, m: map<string, Action>): (s: seq<Action>)
    requires keys <= m.Keys && WellKeyed(m)
    ensures forall i | 0 <= i < |s| :: s[i].trigger in keys && m[s[i].trigger] == s[i]
    ensures forall i, j | 0 <= i < j < |s| :: s[i].trigger != s[j].trigger && s[i].priority <= s[j].priority
    ensures forall t | t in keys :: m[t] in s
    decreases keys
  {
    if keys == {} then []
    else
      LeastPriorityExists(keys, m);
      var t :| LeastPriority(t, keys, m);
      var rest := ByPriority(keys - {t}, m);
      assert forall i | 0 <= i < |rest| :: m[t].priority <= rest[i].priority;
      [m[t]] + rest
  }

  // ---------------------------------------------------------------------
  // `getInfo`

  /** `"%saction {%s} {%s} priority={%d} onetime={%s}" % (commandchar, escape(mem), escape(response), priority, onetime)`. */
  function InfoLine(commandChar: string, escape: Expander, a: Action): string
  {
    commandChar + "action {" + escape(a.trigger) + "} {" + escape(a.response)
    + "} priority={" + IntToString(a.priority) + "} onetime={" + BoolText(a.onetime) + "}"
  }

  /** The lines of the listed entries, or a KeyError at the first listed key the store lacks. */
  function InfoLines(listing: seq<string>, m: map<string, Action>, commandChar: string, escape: Expander): (r: Result<seq<string>, Failure>)
    ensures r.Ok? ==> |r.value| == |listing|
    ensures r.Ok? <==> forall k | 0 <= k < |listing| :: listing[k] in m
    decreases |listing|
  {
    if listing == [] then Ok([])
    else if listing[0] !in m then Err(KeyError(listing[0]))
    else
      var rest := InfoLines(listing[1..], m, commandChar, escape);
      assert forall k | 1 <= k < |listing| :: listing[k] == listing[1..][k - 1];
      if rest.Err? then rest else Ok([InfoLine(commandChar, escape, m[listing[0]])] + rest.value)
  }

  /** Each line describes the listed entry at the same position: its trigger, response, priority and flag. */
  lemma {:induction false} InfoLinesDescribe(listing: seq<string>, m: map<string, Action>, commandChar: string, escape: Expander, k: nat)
    requires k < |listing|
    requires InfoLines(listing, m, commandChar, escape).Ok?
    ensures InfoLines(listing, m, commandChar, escape).value[k] == InfoLine(commandChar, escape, m[listing[k]])
    decreases k
  {
    if k > 0 {
      InfoLinesDescribe(listing[1..], m, commandChar, escape, k - 1);
    }
  }

  /** Some order of the keys: what `dict.keys()` returns. */
  predicate KeyOrder(listing: seq<string>, keys: set<string>)
  {
    && |listing| == |keys|
    && (forall i | 0 <= i < |listing| :: listing[i] in keys)
    && (forall x | x in keys :: x in listing)
  }

  // ---------------------------------------------------------------------
  // The store.

  class ActionData {
    var actions: map<string, Action>

    ghost predicate Valid()
      reads this
    {
      WellKeyed(actions)
    }

    constructor ()
      ensures Valid() && actions == map[]
    {
      actions := map[];
    }

    /** Compiles the pattern and files the action under its literal trigger, replacing any previous one. */
    method AddAction(trigger: string, response: string, priority: int, onetime: bool, expand: Expander, compiles: Compiler)
      returns (r: Result<int, Failure>)
      requires Valid()
      modifies this
      ensures Valid()
      ensures var p := PatternOf(trigger, expand);
        if compiles(p) then
          r == Ok(1) && actions == old(actions)[trigger := Action(trigger, p, response, priority, onetime)]
        else
          r == Err(RegexError(p)) && actions == old(actions)
    {
      var expansion := expand(trigger);
      if expansion == [] {
        expansion := trigger;
      }
      if !compiles(expansion) {
        return Err(RegexError(expansion));
      }
      actions := actions[trigger := Action(trigger, expansion, response, priority, onetime)];
      return Ok(1);
    }

    /**
     * Compiles every pattern again, in dict order. A pattern the compiler
     * rejects raises, leaving the entries visited so far recompiled; the
     * failing pattern is that of a stored trigger not yet recompiled.
     */
    method RecompileRegexps(expand: Expander, compiles: Compiler) returns (r: Result<(), Failure>)
      requires Valid()
      modifies this
      ensures Valid()
      ensures actions.Keys == old(actions).Keys
      ensures r.Ok? ==> actions == Recompiled(old(actions), expand)
      ensures r.Ok? <==> forall t | t in old(actions) :: compiles(PatternOf(t, expand))
      ensures r.Err? ==>
        && r.error.RegexError? && !compiles(r.error.pattern)
        && forall t | t in actions :: actions[t] == old(actions)[t] || actions[t] == Recompiled(old(actions), expand)[t]
      ensures r.Err? ==> exists t | t in old(actions) ::
        actions[t] == old(actions)[t] && r.error == RegexError(PatternOf(t, expand))
    {
      var todo := actions.Keys;
      while todo != {}
        invariant Valid() && actions.Keys == old(actions).Keys && todo <= actions.Keys
        invariant forall t | t in actions ::
          actions[t] == if t in todo then old(actions)[t] else Recompiled(old(actions), expand)[t]
        invariant forall t | t in old(actions) && t !in todo :: compiles(PatternOf(t, expand))
        decreases todo
      {
        var mem :| mem in todo;
        var a := actions[mem];
        var expansion := expand(a.trigger);
        if expansion == [] {
          expansion := a.trigger;
        }
        if !compiles(expansion) {
          assert actions[mem] == old(actions)[mem] && expansion == PatternOf(mem, expand);
          return Err(RegexError(expansion));
        }
        actions := actions[a.trigger := a.(pattern := expansion)];
        todo := todo - {mem};
      }
      return Ok(());
    }

    method Clear()
      modifies this
      ensures Valid() && actions == map[]
    {
      actions := map[];
    }

    /**
     * Deletes the selected triggers (what `utils.expand_text` picked out of
     * the keys), reporting `(trigger, response)` for each; a key that is
     * not there (again) raises KeyError.
     */
    method RemoveActions(selected: seq<string>) returns (r: Result<seq<(string, string)>, Failure>)
      requires Valid()
      modifies this
      ensures Valid()
      ensures Remove(old(actions), selected) == Removal(r, actions)
    {
      var ret: seq<(string, string)> := [];
      assert selected[0..] == selected;
      AfterNothing(Remove(actions, selected));
      var i := 0;
      while i < |selected|
        invariant 0 <= i <= |selected| && Valid()
        invariant Remove(old(actions), selected) == After(ret, Remove(actions, selected[i..]))
      {
        var mem := selected[i];
        if mem !in actions {
          return Err(KeyError(mem));
        }
        assert selected[i..][1..] == selected[i + 1..];
        var pair := (actions[mem].trigger, actions[mem].response);
        AfterAfter(ret, [pair], Remove(actions - {mem}, selected[i + 1..]));
        ret := ret + [pair];
        actions := actions - {mem};
        i := i + 1;
      }
      assert selected[i..] == [] && ret + [] == ret;
      return Ok(ret);
    }

    /** The triggers, sorted. */
    function GetActions(): (listing: seq<string>)
      reads this
      ensures Ascending(listing)
      ensures forall t :: t in listing <==> t in actions
    {
      SortedKeys(actions.Keys)
    }

    /** `"%d action(s)." % len(actions)`: the count in decimal, then the words. */
    function GetStatus(): (s: string)
      reads this
      ensures var n := |s| - |" action(s)."|;
        n > 0 && s[n..] == " action(s)." && AllDigits(s[..n]) && ParseNat(s[..n]) == |actions|
      ensures s[0] == '0' ==> |actions| == 0
    {
      StatusLineParses(|actions|);
      StatusLine(|actions|)
    }

    /** The number of actions: as many as `getActions` lists. */
    function GetCount(): (n: nat)
      reads this
      ensures n == |GetActions()|
    {
      |actions|
    }

    /**
     * Tries every action against the filtered line, in a snapshot sorted by
     * priority, submitting the expanded response of each one that matches
     * and deleting the onetime ones that fired. `order` is the snapshot.
     */
    method CheckActions(text: string, filter: Expander, search: Matcher, subst: Substitution)
      returns (commands: seq<string>, crashed: bool, order: seq<Action>)
      requires Valid()
      modifies this
      ensures Valid()
      ensures PriorityOrder(order, old(actions))
      ensures var p := RunPass(order, Env(filter(text), search, subst));
        commands == p.commands && crashed == p.crashed
        && actions == old(actions) - Elements(p.deleted)
    {
      order := Snapshot();
      commands, crashed := RunActions(order, text, filter, search, subst);
    }

    /** The loop of `checkActions` over the snapshot. */
    method RunActions(order: seq<Action>, text: string, filter: Expander, search: Matcher, subst: Substitution)
      returns (commands: seq<string>, crashed: bool)
      requires Valid()
      requires forall i, j | 0 <= i < j < |order| :: order[i].trigger != order[j].trigger
      requires forall k | 0 <= k < |order| :: order[k].trigger in actions
      modifies this
      ensures Valid()
      ensures var p := RunPass(order, Env(filter(text), search, subst));
        commands == p.commands && crashed == p.crashed
        && actions == old(actions) - Elements(p.deleted)
    {
      ghost var env := Env(filter(text), search, subst);
      commands, crashed := [], false;
      ghost var deleted: seq<string> := [];
      assert order[0..] == order;
      ThenNothing(RunPass(order, env));
      var i := 0;
      while i < |order|
        invariant 0 <= i <= |order| && Valid() && !crashed
        invariant RunPass(order, env) == Then(Pass(commands, deleted, false), RunPass(order[i..], env))
        invariant actions == old(actions) - Elements(deleted)
        invariant forall k | i <= k < |order| :: order[k].trigger in actions
      {
        var a := order[i];
        var line := filter(text);
        PassStep(order, i, env);
        var f := TryAction(a, line, search, subst);
        if f.Crash? {
          crashed := true;
          assert commands + [] == commands && deleted + [] == deleted;
          return;
        }
        if f.Fired? {
          ghost var gone: seq<string> := if a.onetime then [a.trigger] else [];
          ThenThen(Pass(commands, deleted, false), Pass([f.command], gone, false), RunPass(order[i + 1..], env));
          commands := commands + [f.command];
          if a.onetime {
            actions := actions - {a.trigger};
          }
          assert Elements(deleted + gone) == Elements(deleted) + Elements(gone);
          deleted := deleted + gone;
        }
        i := i + 1;
      }
      assert order[i..] == [];
      assert commands + [] == commands && deleted + [] == deleted;
    }

    /** One action against the line: no match, the expanded response, or IndexError from too few groups. */
    static method TryAction(a: Action, line: string, search: Matcher, subst: Substitution) returns (f: Firing)
      ensures f == Fire(a, Env(line, search, subst))
    {
      var m := search(a.pattern, line);
      if m.None? {
        return Silent;
      }
      var names := OrderedVars(a.trigger);
      var varvals := BindPlaceholders(names, m.value);
      if varvals.None? {
        return Crash;
      }
      var response := subst(a.response, varvals.value["a" := Neutralize(line)]);
      return Fired(response);
    }

    /** `values()` sorted by priority: the entries in nondecreasing priority order, equal priorities in any order. */
    method Snapshot() returns (order: seq<Action>)
      requires Valid()
      ensures PriorityOrder(order, actions)
    {
      ghost var byPriority := ByPriority(actions.Keys, actions);
      assert PriorityOrder(byPriority, actions);
      order :| PriorityOrder(order, actions);
    }

    /** The `varvals` loop: the i-th placeholder name gets group i+1, or IndexError when the match has too few groups. */
    static method BindPlaceholders(names: seq<string>, groups: seq<string>) returns (r: Option<map<string, string>>)
      ensures |names| <= |groups| ==> r == Some(Bindings(names, groups))
      ensures |names| > |groups| ==> r == None
    {
      var varvals: map<string, string> := map[];
      var i := 0;
      while i < |names|
        invariant 0 <= i <= |names| && i <= |groups|
        invariant varvals == Bindings(names[..i], groups)
      {
        if i >= |groups| {
          return None;
        }
        assert names[..i + 1][..i] == names[..i];
        varvals := varvals[names[i] := groups[i]];
        i := i + 1;
      }
      assert names[..i] == names;
      return Some(varvals);
    }

    /**
     * The description of the listed entries, one line each, or `''` for an
     * empty store. With no text the listing is every trigger in dict order;
     * otherwise it is what `utils.expand_text` selected. `listing` is that
     * order.
     */
    method GetInfo(text: string, selected: seq<string>, commandChar: string, escape: Expander)
      returns (r: Result<string, Failure>, listing: seq<string>)
      requires Valid()
      ensures |actions| == 0 ==> r == Ok("")
      ensures |actions| > 0 && text == "" ==> KeyOrder(listing, actions.Keys)
      ensures |actions| > 0 && text != "" ==> listing == selected
      ensures |actions| > 0 ==>
        var lines := InfoLines(listing, actions, commandChar, escape);
        r == if lines.Ok? then Ok(JoinLines(lines.value)) else Err(lines.error)
    {
      if |actions| == 0 {
        return Ok(""), [];
      }
      if text == "" {
        ghost var sorted := SortedKeys(actions.Keys);
        assert KeyOrder(sorted, actions.Keys);
        listing :| KeyOrder(listing, actions.Keys);
      } else {
        listing := selected;
      }
      var lines := Describe(listing, commandChar, escape);
      if lines.Err? {
        return Err(lines.error), listing;
      }
      return Ok(JoinLines(lines.value)), listing;
    }

    /** The `getInfo` loop: one line per listed entry, or KeyError at the first key the store lacks. */
    method Describe(listing: seq<string>, commandChar: string, escape: Expander) returns (r: Result<seq<string>, Failure>)
      ensures r == InfoLines(listing, actions, commandChar, escape)
    {
      var data: seq<string> := [];
      assert listing[0..] == listing;
      if InfoLines(listing, actions, commandChar, escape).Ok? {
        assert [] + InfoLines(listing, actions, commandChar, escape).value == InfoLines(listing, actions, commandChar, escape).value;
      }
      var i := 0;
      while i < |listing|
        invariant 0 <= i <= |listing|
        invariant InfoLines(listing[i..], actions, commandChar, escape).Err? ==>
          InfoLines(listing, actions, commandChar, escape) == InfoLines(listing[i..], actions, commandChar, escape)
        invariant InfoLines(listing[i..], actions, commandChar, escape).Ok? ==>
          InfoLines(listing, actions, commandChar, escape)
            == Ok(data + InfoLines(listing[i..], actions, commandChar, escape).value)
      {
        var mem := listing[i];
        assert listing[i..][1..] == listing[i + 1..];
        if mem !in actions {
          return Err(KeyError(mem));
        }
        var actup := actions[mem];
        ghost var rest := InfoLines(listing[i + 1..], actions, commandChar, escape);
        if rest.Ok? {
          assert data + ([InfoLine(commandChar, escape, actup)] + rest.value)
              == (data + [InfoLine(commandChar, escape, actup)]) + rest.value;
        }
        data := data + [InfoLine(commandChar, escape, actup)];
        i := i + 1;
      }
      assert listing[i..] == [] && data + [] == data;
      return Ok(data);
    }
  }
}
