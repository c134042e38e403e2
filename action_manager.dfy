/**
 * `ActionManager` in lyntin/modules/action.py: one `ActionData` store per
 * session, created on the first `addAction` for that session. Every query
 * on a session without a store answers as an empty store would.
 */
module ActionSessions {
  import opened Common
  import opened ActionText
  import opened ActionStore

  /** A session, known to the manager by its name. */
  type Session = string

  /** What `addSession` copies: a base action re-filed under the same trigger, compiled from the new session's expansion. */
  function Copied(base: map<string, Action>, keys: set<string>, expand: Expander): (r: map<string, Action>)
    requires keys <= base.Keys
    ensures r.Keys == keys
    ensures forall t | t in r ::
      && r[t].trigger == t && r[t].pattern == PatternOf(t, expand)
      && r[t].response == base[t].response && r[t].priority == base[t].priority && r[t].onetime == base[t].onetime
  {
    map t | t in keys :: Action(t, PatternOf(t, expand), base[t].response, base[t].priority, base[t].onetime)
  }

  /** Copying one more key: the copy made so far, updated by `addAction` for that key. */
  lemma {:induction false} CopiedStep(base: map<string, Action>, todo: set<string>, mem: string, expand: Expander, prior: map<string, Action>)
    requires todo <= base.Keys && mem in todo
    ensures (prior + Copied(base, base.Keys - todo, expand))[mem := Action(mem, PatternOf(mem, expand), base[mem].response, base[mem].priority, base[mem].onetime)]
      == prior + Copied(base, base.Keys - (todo - {mem}), expand)
  {
    assert base.Keys - (todo - {mem}) == (base.Keys - todo) + {mem};
  }

  /**
   * The `addSession` loop on the new session's store: `addAction` for each
   * base trigger, in dict order, until a pattern fails to compile.
   */
  method CopyInto(data: ActionData, acdata: map<string, Action>, expand: Expander, compiles: Compiler)
    returns (r: Result<(), Failure>)
    requires data.Valid()
    modifies data
    ensures data.Valid()
    ensures r.Ok? <==> forall t | t in acdata :: compiles(PatternOf(t, expand))
    ensures r.Err? ==> r.error.RegexError? && !compiles(r.error.pattern)
    ensures r.Err? ==> exists done, t ::
      && done <= acdata.Keys && t in acdata && t !in done && r.error == RegexError(PatternOf(t, expand))
      && data.actions == old(data.actions) + Copied(acdata, done, expand)
    ensures r.Ok? ==> data.actions == old(data.actions) + Copied(acdata, acdata.Keys, expand)
  {
    var todo := acdata.Keys;
    assert data.actions == old(data.actions) + Copied(acdata, acdata.Keys - todo, expand);
    while todo != {}
      invariant data.Valid() && todo <= acdata.Keys
      invariant forall t | t in acdata && t !in todo :: compiles(PatternOf(t, expand))
      invariant data.actions == old(data.actions) + Copied(acdata, acdata.Keys - todo, expand)
      decreases todo
    {
      var mem :| mem in todo;
      var added := data.AddAction(mem, acdata[mem].response, acdata[mem].priority, acdata[mem].onetime, expand, compiles);
      if added.Err? {
        assert added.error == RegexError(PatternOf(mem, expand));
        return Err(added.error);
      }
      CopiedStep(acdata, todo, mem, expand, old(data.actions));
      todo := todo - {mem};
    }
    assert acdata.Keys - todo == acdata.Keys;
    return Ok(());
  }

  class ActionManager {
    var stores: map<Session, ActionData>

    /** Each session has a store of its own, and every store keeps its invariant. */
    ghost predicate Valid()
      reads this, stores.Values
    {
      && (forall s | s in stores :: stores[s].Valid())
      && (forall s, s' | s in stores && s' in stores && s != s' :: stores[s] != stores[s'])
    }

    /** The actions of a session; none when it has no store. */
    function Store(ses: Session): map<string, Action>
      reads this, stores.Values
    {
      if ses in stores then stores[ses].actions else map[]
    }

    constructor ()
      ensures Valid() && stores == map[]
    {
      stores := map[];
    }

    /** Creates the session's store if it has none, then adds the action to it. */
    method AddAction(ses: Session, trigger: string, response: string, priority: int, onetime: bool, expand: Expander, compiles: Compiler)
      returns (r: Result<int, Failure>)
      requires Valid()
      modifies this, if ses in stores then {stores[ses]} else {}
      ensures Valid()
      ensures stores.Keys == old(stores).Keys + {ses}
      ensures forall s | s in old(stores) :: stores[s] == old(stores)[s]
      ensures ses !in old(stores) ==> fresh(stores[ses])
      ensures forall s | s != ses :: Store(s) == old(Store(s))
      ensures var p := PatternOf(trigger, expand);
        if compiles(p) then
          r == Ok(1) && Store(ses) == old(Store(ses))[trigger := Action(trigger, p, response, priority, onetime)]
        else
          r == Err(RegexError(p)) && Store(ses) == old(Store(ses))
    {
      var data := StoreFor(ses);
      r := data.AddAction(trigger, response, priority, onetime, expand, compiles);
    }

    /** The session's store, created empty when the session has none. */
    method StoreFor(ses: Session) returns (data: ActionData)
      requires Valid()
      modifies this
      ensures Valid()
      ensures stores.Keys == old(stores).Keys + {ses} && data == stores[ses]
      ensures forall s | s in old(stores) :: stores[s] == old(stores)[s]
      ensures ses !in old(stores) ==> fresh(data)
      ensures forall s | s in stores && s != ses :: stores[s] != data
      ensures forall s :: Store(s) == old(Store(s))
    {
      if ses !in stores {
        var created := new ActionData();
        stores := stores[ses := created];
      }
      data := stores[ses];
    }

    method Clear(ses: Session)
      requires Valid()
      modifies if ses in stores then {stores[ses]} else {}
      ensures Valid()
      ensures Store(ses) == map[]
      ensures forall s | s != ses :: Store(s) == old(Store(s))
    {
      if ses in stores {
        stores[ses].Clear();
      }
    }

    /** Removes the selected actions of the session; a session without a store reports `[]`. */
    method RemoveActions(ses: Session, selected: seq<string>) returns (r: Result<seq<(string, string)>, Failure>)
      requires Valid()
      modifies if ses in stores then {stores[ses]} else {}
      ensures Valid()
      ensures ses in stores ==> Remove(old(Store(ses)), selected) == Removal(r, Store(ses))
      ensures ses !in stores ==> r == Ok([])
      ensures forall s | s != ses :: Store(s) == old(Store(s))
    {
      if ses in stores {
        r := stores[ses].RemoveActions(selected);
      } else {
        r := Ok([]);
      }
    }

    /** The session's triggers, sorted; `[]` for a session without a store. */
    function GetActions(ses: Session): (listing: seq<string>)
      reads this, stores.Values
      ensures Ascending(listing)
      ensures forall t :: t in listing <==> t in Store(ses)
    {
      if ses in stores then stores[ses].GetActions() else []
    }

    /** Runs the session's actions on the text; nothing happens for a session without a store. */
    method CheckActions(ses: Session, text: string, filter: Expander, search: Matcher, subst: Substitution)
      returns (commands: seq<string>, crashed: bool, order: seq<Action>)
      requires Valid()
      modifies if ses in stores then {stores[ses]} else {}
      ensures Valid()
      ensures PriorityOrder(order, old(Store(ses)))
      ensures var p := RunPass(order, Env(filter(text), search, subst));
        commands == p.commands && crashed == p.crashed
        && Store(ses) == old(Store(ses)) - Elements(p.deleted)
      ensures forall s | s != ses :: Store(s) == old(Store(s))
    {
      if ses in stores {
        commands, crashed, order := stores[ses].CheckActions(text, filter, search, subst);
      } else {
        commands, crashed, order := [], false, [];
      }
    }

    /** The description of the session's actions; `""` for a session without a store. */
    method GetInfo(ses: Session, text: string, selected: seq<string>, commandChar: string, escape: Expander)
      returns (r: Result<string, Failure>, listing: seq<string>)
      requires Valid()
      ensures |Store(ses)| == 0 ==> r == Ok("")
      ensures |Store(ses)| > 0 && text == "" ==> KeyOrder(listing, Store(ses).Keys)
      ensures |Store(ses)| > 0 && text != "" ==> listing == selected
      ensures |Store(ses)| > 0 ==>
        var lines := InfoLines(listing, Store(ses), commandChar, escape);
        r == if lines.Ok? then Ok(JoinLines(lines.value)) else Err(lines.error)
    {
      if ses in stores {
        r, listing := stores[ses].GetInfo(text, selected, commandChar, escape);
      } else {
        r, listing := Ok(""), [];
      }
    }

    /**
     * Copies every action of the base session into the new one, through
     * `addAction`: the same trigger, response, priority and flag, compiled
     * from the new session's expansion. A pattern the compiler rejects
     * raises, leaving the copies made so far: those of some of the base
     * triggers, not including the one that failed.
     */
    method AddSession(newSession: Session, baseSession: Option<Session>, expand: Expander, compiles: Compiler)
      returns (r: Result<(), Failure>)
      requires Valid()
      modifies this, if newSession in stores then {stores[newSession]} else {}
      ensures Valid()
      ensures stores.Keys <= old(stores).Keys + {newSession}
      ensures forall s | s in old(stores) && s != newSession :: s in stores && stores[s] == old(stores)[s]
      ensures forall s | s != newSession :: Store(s) == old(Store(s))
      ensures r.Ok? <==> baseSession.None? || forall t | t in old(Store(baseSession.value)) :: compiles(PatternOf(t, expand))
      ensures r.Err? ==> r.error.RegexError? && !compiles(r.error.pattern)
      ensures r.Err? ==> baseSession.Some? && exists done, t ::
        && done <= old(Store(baseSession.value)).Keys && t in old(Store(baseSession.value)) && t !in done
        && r.error == RegexError(PatternOf(t, expand))
        && Store(newSession) == old(Store(newSession)) + Copied(old(Store(baseSession.value)), done, expand)
      ensures r.Ok? && baseSession.Some? ==>
        Store(newSession) == old(Store(newSession)) + Copied(old(Store(baseSession.value)), old(Store(baseSession.value)).Keys, expand)
      ensures baseSession.None? ==> r.Ok? && Store(newSession) == old(Store(newSession))
    {
      if baseSession.None? || baseSession.value !in stores {
        return Ok(());
      }
      var acdata := stores[baseSession.value].actions;
      r := CopyActions(newSession, acdata, expand, compiles);
    }

    /**
     * The `addSession` loop: `addAction` on the new session for each base
     * trigger, in dict order. Without base triggers no store is created.
     */
    method CopyActions(newSession: Session, acdata: map<string, Action>, expand: Expander, compiles: Compiler)
      returns (r: Result<(), Failure>)
      requires Valid()
      modifies this, if newSession in stores then {stores[newSession]} else {}
      ensures Valid()
      ensures stores.Keys <= old(stores).Keys + {newSession}
      ensures forall s | s in old(stores) && s != newSession :: s in stores && stores[s] == old(stores)[s]
      ensures forall s | s != newSession :: Store(s) == old(Store(s))
      ensures r.Ok? <==> forall t | t in acdata :: compiles(PatternOf(t, expand))
      ensures r.Err? ==> r.error.RegexError? && !compiles(r.error.pattern)
      ensures r.Err? ==> exists done, t ::
        && done <= acdata.Keys && t in acdata && t !in done && r.error == RegexError(PatternOf(t, expand))
        && Store(newSession) == old(Store(newSession)) + Copied(acdata, done, expand)
      ensures r.Ok? ==> Store(newSession) == old(Store(newSession)) + Copied(acdata, acdata.Keys, expand)
    {
      if acdata == map[] {
        return Ok(());
      }
      // The first `addAction` creates the new session's store; every later one finds it there.
      var data := StoreFor(newSession);
      r := CopyInto(data, acdata, expand, compiles);
    }

    /** Forgets the session's store. */
    method RemoveSession(ses: Session)
      requires Valid()
      modifies this
      ensures Valid()
      ensures stores == old(stores) - {ses}
      ensures Store(ses) == map[]
      ensures forall s | s != ses :: Store(s) == old(Store(s))
    {
      stores := stores - {ses};
    }

    /** `"%d action(s)."` of the session's count: `"0 action(s)."` for a session without a store. */
    function GetStatus(ses: Session): (s: string)
      reads this, stores.Values
      ensures var n := |s| - |" action(s)."|;
        n > 0 && s[n..] == " action(s)." && AllDigits(s[..n]) && ParseNat(s[..n]) == |Store(ses)|
      ensures s[0] == '0' ==> |Store(ses)| == 0
    {
      if ses in stores then stores[ses].GetStatus()
      else
        assert StatusLine(0) == "0 action(s).";
        StatusLineParses(0);
        "0 action(s)."
    }
  }
}
