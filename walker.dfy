/**
 * The chain walker (`find_recursive`): resolve the command, and while the
 * answer is an alias, resolve its target next, keeping the names in an
 * append-only list of `(name, done)` nodes and giving up on a name that an
 * earlier, completed step already had. What the program prints becomes a
 * sequence of events.
 */
module Walker {
  import opened Opt
  import opened ShellReply
  import opened PathSearch
  import opened Resolver

  /**
   * What the process gets from outside: PATH, SHELL, the lines the shell
   * prints for `type <name>` (a name the table does not hold gets an empty
   * reply), and the path names that exist with the owner-execute bit set.
   */
  datatype Env = Env(path: string, shell: string,
                     replies: map<string, seq<string>>, executables: set<string>)

  function Reply(env: Env, name: string): seq<string> {
    if name in env.replies then env.replies[name] else []
  }

  /**
   * The two lookups the walk makes through `find`, and a finite set of names
   * outside which the shell reports no alias (the walk's termination measure).
   */
  datatype Lookups = Lookups(typeOf: string -> Option<TypeMatch>,
                             pathOf: string -> Option<string>,
                             aliased: set<string>)

  /** `find(name, 0)`: no lookup banned. */
  function Resolve(o: Lookups, name: string): Resolution {
    Find(name, 0, o.typeOf, o.pathOf)
  }

  /** The alias the shell reports for `name`, if it reports one. */
  function AliasOf(o: Lookups, name: string): Option<AliasMatch> {
    match o.typeOf(name)
    case Some(tm) => tm.aliasMatch
    case None => None
  }

  /** The name that alias stands for. */
  function AliasTarget(o: Lookups, name: string): Option<string> {
    match AliasOf(o, name)
    case Some(am) => Some(am.aliasFor)
    case None => None
  }

  /** Only the names in `aliased` can be aliases. */
  ghost predicate Bounded(o: Lookups) {
    forall name :: AliasOf(o, name).Some? ==> name in o.aliased
  }

  /**
   * `find_type` and `find_in_path` over a process environment. A name the
   * shell table does not hold gets an empty reply, hence no alias.
   */
  function LookupsOf(env: Env): (o: Lookups)
    ensures Bounded(o)
  {
    var o := Lookups(name => Classify(env.shell, Reply(env, name)),
                     name => SearchPath(env.path, name, env.executables),
                     env.replies.Keys);
    assert forall name :: name !in env.replies ==> AliasOf(o, name).None? by {
      forall name | name !in env.replies
        ensures AliasOf(o, name).None?
      {
        assert Reply(env, name) == [];
      }
    }
    o
  }

  /* ---------- The list of names ---------- */

  /** `struct cmd`: a name and whether its lookup has completed. */
  datatype Cmd = Cmd(name: string, done: bool)

  /** `mk_cmd`: a fresh node, not yet done. */
  function MkCmd(name: string): (c: Cmd)
    ensures c.name == name && !c.done
  {
    Cmd(name, false)
  }

  /** `maybe_mk_cmd`: no node for a NULL name. */
  function MaybeMkCmd(name: Option<string>): (c: Option<Cmd>)
    ensures c.Some? <==> name.Some?
    ensures c.Some? ==> c.value == MkCmd(name.value)
  {
    match name
    case None => None
    case Some(n) => Some(MkCmd(n))
  }

  /** The nodes a possibly-NULL `next` pointer adds to the list. */
  function Listed(c: Option<Cmd>): seq<Cmd> {
    if c.Some? then [c.value] else []
  }

  /** The names of the nodes marked done. */
  function DoneNames(chain: seq<Cmd>): set<string> {
    set i | 0 <= i < |chain| && chain[i].done :: chain[i].name
  }

  /** The walk is still going: its current node is the last one and is not done. */
  predicate Pending(chain: seq<Cmd>) {
    |chain| > 0 && !chain[|chain| - 1].done
  }

  /** `current->done = 1; current->next = maybe_mk_cmd(next_name, NULL)`. */
  function Advance(chain: seq<Cmd>, next: Option<string>): seq<Cmd>
    requires |chain| > 0
  {
    var last := |chain| - 1;
    chain[last := chain[last].(done := true)] + Listed(MaybeMkCmd(next))
  }

  /**
   * The list `find_recursive` builds. The source links nodes through `next`
   * pointers and only ever links a new node after the last one, so the list is
   * its sequence of nodes.
   */
  class Chain {
    var cmds: seq<Cmd>

    /** `first = mk_cmd(command, NULL)`. */
    constructor (command: string)
      ensures cmds == [MkCmd(command)]
    {
      cmds := [MkCmd(command)];
    }

    /** `already_seen(first, name)`: some node has this name and is done. */
    method AlreadySeen(name: string) returns (seen: bool)
      ensures seen <==> exists i :: 0 <= i < |cmds| && cmds[i].name == name && cmds[i].done
    {
      var i := 0;
      while i < |cmds|
        invariant 0 <= i <= |cmds|
        invariant forall j :: 0 <= j < i ==> !(cmds[j].name == name && cmds[j].done)
      {
        if cmds[i].name == name && cmds[i].done {
          return true;
        }
        i := i + 1;
      }
      return false;
    }

    /** `current->done = 1`. */
    method MarkDone(i: nat)
      requires i < |cmds|
      modifies this
      ensures cmds == old(cmds)[i := old(cmds)[i].(done := true)]
    {
      cmds := cmds[i := cmds[i].(done := true)];
    }

    /** `current->next = next` on the last node. */
    method Link(next: Option<Cmd>)
      modifies this
      ensures cmds == old(cmds) + Listed(next)
    {
      if next.Some? {
        cmds := cmds + [next.value];
      }
    }
  }

  /* ---------- What the walk prints ---------- */

  /** The lines `find_recursive` prints, as values. */
  datatype Event =
    | LookingFor(name: string)
    | AlreadySearched(name: string)
    | NoMatch
    | IsAlias(name: string, aliasFor: string, shell: string, declaration: string)
    | IsBuiltin(name: string)
    | IsExecutable(name: string, path: string)
    | Done

  /** The report for one found match, and the name to look up next. */
  function Report(name: string, m: Match): (out: (seq<Event>, Option<string>))
    ensures out.1.Some? <==> m.typeMatch.Some? && m.typeMatch.value.aliasMatch.Some?
    ensures out.1.Some? ==> out.1.value == m.typeMatch.value.aliasMatch.value.aliasFor
  {
    if m.typeMatch.Some? then
      var tm := m.typeMatch.value;
      if tm.aliasMatch.Some? then
        var am := tm.aliasMatch.value;
        ([IsAlias(name, am.aliasFor, am.shell, am.declaration)], Some(am.aliasFor))
      else if tm.builtinMatch != 0 then ([IsBuiltin(name)], None)
      else ([], None)
    else if m.pathMatch.Some? then ([IsExecutable(name, m.pathMatch.value)], None)
    else ([], None)
  }

  /* ---------- The walk ---------- */

  /** The list, the printed events and the lookups made, so far. */
  datatype Trace = Trace(chain: seq<Cmd>, events: seq<Event>, consulted: seq<Lookup>)

  /** Marking the current node done adds its name to the done names, nothing else. */
  lemma DoneNamesAdvance(chain: seq<Cmd>, next: Option<string>)
    requires Pending(chain)
    ensures DoneNames(Advance(chain, next)) == DoneNames(chain) + {chain[|chain| - 1].name}
  {
    var last := |chain| - 1;
    var c := Advance(chain, next);
    assert forall i :: 0 <= i < last ==> c[i] == chain[i];
    assert c[last] == chain[last].(done := true);
    assert |c| == last + 1 ==> true;
    assert |c| > last + 1 ==> !c[last + 1].done;
    forall x | x in DoneNames(c) ensures x in DoneNames(chain) + {chain[last].name} {
      var i :| 0 <= i < |c| && c[i].done && c[i].name == x;
    }
    forall x | x in DoneNames(chain) ensures x in DoneNames(c) {
      var i :| 0 <= i < |chain| && chain[i].done && chain[i].name == x;
      assert c[i].done && c[i].name == x;
    }
    assert c[last].done;
  }

  /**
   * The name the walk follows after a found match is exactly the alias target
   * the shell reports; and following an alias never consulted PATH.
   */
  lemma ResolveAlias(o: Lookups, name: string)
    ensures var r := Resolve(o, name);
      && (r.found.None? ==> AliasTarget(o, name).None?)
      && (r.found.Some? ==> AliasTarget(o, name) == Report(name, r.found.value).1)
      && (AliasTarget(o, name).Some? ==> r.consulted == [TypeLookup])
  {
  }

  /** The name the current pass looks up: the last node's. */
  function Current(t: Trace): string
    requires |t.chain| > 0
  {
    t.chain[|t.chain| - 1].name
  }

  /** One pass of the loop body of `find_recursive`; it only appends. */
  function Step(o: Lookups, t: Trace): (u: Trace)
    requires Pending(t.chain)
    ensures |t.chain| <= |u.chain| && t.events < u.events && t.consulted <= u.consulted
    ensures forall i :: 0 <= i < |t.chain| - 1 ==> u.chain[i] == t.chain[i]
    ensures forall i :: 0 <= i < |t.chain| ==> u.chain[i].name == t.chain[i].name
  {
    var name := Current(t);
    var events := t.events + [LookingFor(name)];
    if name in DoneNames(t.chain) then
      Trace(t.chain, events + [AlreadySearched(name)], t.consulted)
    else
      var r := Resolve(o, name);
      if r.found.None? then
        Trace(t.chain, events + [NoMatch], t.consulted + r.consulted)
      else
        var (report, next) := Report(name, r.found.value);
        var printed := if next.None? then events + report + [Done] else events + report;
        Trace(Advance(t.chain, next), printed, t.consulted + r.consulted)
  }

  /** The loop goes on after this pass: the name is new and the shell calls it an alias. */
  predicate Follows(o: Lookups, t: Trace)
    requires |t.chain| > 0
  {
    Current(t) !in DoneNames(t.chain) && AliasTarget(o, Current(t)).Some?
  }

  /**
   * A pass that follows an alias marks the name done, links its target as the
   * new current node, prints the alias, and asks only the shell.
   */
  lemma StepFollows(o: Lookups, t: Trace)
    requires Pending(t.chain) && Follows(o, t)
    ensures var u := Step(o, t);
      var name := Current(t);
      var m := AliasOf(o, name).value;
      && u.chain == Advance(t.chain, Some(m.aliasFor))
      && Pending(u.chain) && Current(u) == m.aliasFor
      && DoneNames(u.chain) == DoneNames(t.chain) + {name}
      && u.events == t.events + [LookingFor(name), IsAlias(name, m.aliasFor, m.shell, m.declaration)]
      && u.consulted == t.consulted + [TypeLookup]
  {
    var name := Current(t);
    var m := AliasOf(o, name).value;
    ResolveAlias(o, name);
    var r := Resolve(o, name);
    assert r.found == Some(Match(o.typeOf(name), None));
    assert Report(name, r.found.value) == ([IsAlias(name, m.aliasFor, m.shell, m.declaration)], Some(m.aliasFor));
    DoneNamesAdvance(t.chain, Some(m.aliasFor));
  }

  /** The walk: passes until one does not follow an alias. */
  function WalkFrom(o: Lookups, t: Trace): (w: Trace)
    requires Bounded(o) && Pending(t.chain)
    ensures |t.chain| <= |w.chain| && t.events < w.events && t.consulted <= w.consulted
    ensures forall i :: 0 <= i < |t.chain| ==> w.chain[i].name == t.chain[i].name
    decreases o.aliased - DoneNames(t.chain)
  {
    var u := Step(o, t);
    if Follows(o, t) then
      StepFollows(o, t);
      WalkFrom(o, u)
    else
      u
  }

  /** The whole walk from the command named on the command line. */
  function Walk(o: Lookups, command: string): Trace
    requires Bounded(o)
  {
    WalkFrom(o, Trace([MkCmd(command)], [], []))
  }

  /** `find_recursive`: the loop over the list, updating it in place. */
  method FindRecursive(o: Lookups, command: string) returns (t: Trace)
    requires Bounded(o)
    ensures t == Walk(o, command)
  {
    var first := new Chain(command);
    var current: Option<nat> := Some(0);
    var events: seq<Event> := [];
    var consulted: seq<Lookup> := [];
    while current.Some?
      invariant current.Some? ==>
        && current.value == |first.cmds| - 1 && Pending(first.cmds)
        && WalkFrom(o, Trace(first.cmds, events, consulted)) == Walk(o, command)
      invariant current.None? ==> Trace(first.cmds, events, consulted) == Walk(o, command)
      decreases current.Some?, o.aliased - DoneNames(first.cmds)
    {
      ghost var before := Trace(first.cmds, events, consulted);
      var name := first.cmds[current.value].name;
      events := events + [LookingFor(name)];
      var seen := first.AlreadySeen(name);
      assert seen <==> name in DoneNames(before.chain) by {
        if seen {
          var i :| 0 <= i < |before.chain| && before.chain[i].name == name && before.chain[i].done;
        }
      }
      if seen {
        events := events + [AlreadySearched(name)];
        StepStopsHere(o, before);
        break;
      }
      var r := Find(name, 0, o.typeOf, o.pathOf);
      consulted := consulted + r.consulted;
      if r.found.None? {
        events := events + [NoMatch];
        StepStopsHere(o, before);
        break;
      }
      var (report, nextName) := Report(name, r.found.value);
      events := events + report;
      if nextName.None? {
        events := events + [Done];
      }
      first.MarkDone(current.value);
      var next := MaybeMkCmd(nextName);
      first.Link(next);
      StepFound(o, before);
      assert first.cmds == Advance(before.chain, nextName);
      if next.Some? {
        StepFollows(o, before);
        current := Some(current.value + 1);
      } else {
        current := None;
      }
    }
    t := Trace(first.cmds, events, consulted);
  }

  /** A pass that stops before any report: the walk ends with it. */
  lemma StepStopsHere(o: Lookups, t: Trace)
    requires Bounded(o) && Pending(t.chain)
    requires Current(t) !in DoneNames(t.chain) ==> Resolve(o, Current(t)).found.None?
    ensures WalkFrom(o, t) == Step(o, t)
  {
    ResolveAlias(o, Current(t));
  }

  /** A pass that found a match: the report, then the link to the next name. */
  lemma StepFound(o: Lookups, t: Trace)
    requires Bounded(o) && Pending(t.chain)
    requires Current(t) !in DoneNames(t.chain) && Resolve(o, Current(t)).found.Some?
    ensures var name := Current(t);
      var r := Resolve(o, name);
      var (report, next) := Report(name, r.found.value);
      var events := t.events + [LookingFor(name)] + report;
      && Step(o, t) == Trace(Advance(t.chain, next),
                             if next.None? then events + [Done] else events,
                             t.consulted + r.consulted)
      && (Follows(o, t) <==> next.Some?)
      && WalkFrom(o, t) == if next.Some? then WalkFrom(o, Step(o, t)) else Step(o, t)
  {
    ResolveAlias(o, Current(t));
  }

  /* ---------- Properties of the walk ---------- */

  /**
   * The shape of the list at every step: non-empty, every node before the last
   * is done, each node's successor is its alias target, and no two done nodes
   * share a name.
   */
  predicate Linked(o: Lookups, chain: seq<Cmd>) {
    && |chain| > 0
    && (forall i :: 0 <= i < |chain| - 1 ==> chain[i].done)
    && (forall i :: 0 <= i < |chain| - 1 ==> AliasTarget(o, chain[i].name) == Some(chain[i + 1].name))
    && (forall i, j :: 0 <= i < j < |chain| && chain[i].done && chain[j].done ==>
                         chain[i].name != chain[j].name)
  }

  /** One step keeps the list's shape. */
  lemma AdvanceLinked(o: Lookups, chain: seq<Cmd>, next: Option<string>)
    requires Pending(chain) && Linked(o, chain)
    requires chain[|chain| - 1].name !in DoneNames(chain)
    requires next.Some? ==> AliasTarget(o, chain[|chain| - 1].name) == next
    ensures Linked(o, Advance(chain, next))
  {
    var last := |chain| - 1;
    var c := Advance(chain, next);
    assert forall i :: 0 <= i < last ==> c[i] == chain[i];
    forall i, j | 0 <= i < j < |c| && c[i].done && c[j].done
      ensures c[i].name != c[j].name
    {
      if j == last {
        assert chain[i].done && chain[i].name in DoneNames(chain);
      }
    }
  }

  /** One pass keeps the list's shape and every name already in it. */
  lemma StepLinked(o: Lookups, t: Trace)
    requires Pending(t.chain) && Linked(o, t.chain)
    ensures var u := Step(o, t);
      && Linked(o, u.chain)
      && (forall i :: 0 <= i < |t.chain| ==> u.chain[i].name == t.chain[i].name)
  {
    var name := Current(t);
    if name !in DoneNames(t.chain) {
      var r := Resolve(o, name);
      if r.found.Some? {
        var next := Report(name, r.found.value).1;
        ResolveAlias(o, name);
        AdvanceLinked(o, t.chain, next);
      }
    }
  }

  /**
   * The walk only appends: it keeps every node's name and keeps the list's
   * shape.
   */
  lemma {:induction false} WalkFromLinked(o: Lookups, t: Trace)
    requires Bounded(o) && Pending(t.chain) && Linked(o, t.chain)
    ensures var w := WalkFrom(o, t);
      && Linked(o, w.chain)
      && (forall i :: 0 <= i < |t.chain| ==> w.chain[i].name == t.chain[i].name)
    decreases o.aliased - DoneNames(t.chain)
  {
    StepLinked(o, t);
    if Follows(o, t) {
      StepFollows(o, t);
      assert WalkFrom(o, t) == WalkFrom(o, Step(o, t));
      WalkFromLinked(o, Step(o, t));
    }
  }

  /** The list `find_recursive` leaves starts at the command and has the shape of `Linked`. */
  lemma WalkLinked(o: Lookups, command: string)
    requires Bounded(o)
    ensures Linked(o, Walk(o, command).chain)
    ensures Walk(o, command).chain[0].name == command
  {
    WalkFromLinked(o, Trace([MkCmd(command)], [], []));
  }

  /** The last event printed. */
  function LastEvent(w: Trace): Event
    requires |w.events| > 0
  {
    w.events[|w.events| - 1]
  }

  /**
   * The walk ends with "done", "already searched" or "no match". "done" is the
   * last event exactly when the last node is done, which needs the name found
   * and not an alias, and which a name not done earlier that is found and is
   * no alias always gets; "done" appears nowhere before.
   */
  predicate DoneRule(o: Lookups, w: Trace) {
    && |w.chain| > 0 && |w.events| > 0
    && var last := w.chain[|w.chain| - 1];
      && (LastEvent(w) == Done || LastEvent(w) == AlreadySearched(last.name) || LastEvent(w) == NoMatch)
      && Done !in w.events[..|w.events| - 1]
      && (LastEvent(w) == Done <==> last.done)
      && (last.done ==> Resolve(o, last.name).found.Some? && AliasTarget(o, last.name).None?)
      && (&& last.name !in DoneNames(w.chain[..|w.chain| - 1])
          && Resolve(o, last.name).found.Some? && AliasTarget(o, last.name).None?
          ==> LastEvent(w) == Done)
  }

  /**
   * "already searched" is the last event exactly when the last name was done
   * before; "no match" exactly when it was not and both lookups came back empty.
   */
  predicate StopRule(o: Lookups, w: Trace) {
    && |w.chain| > 0 && |w.events| > 0
    && var last := w.chain[|w.chain| - 1];
      && (LastEvent(w) == AlreadySearched(last.name) <==> !last.done && last.name in DoneNames(w.chain))
      && (LastEvent(w) == NoMatch <==>
            !last.done && last.name !in DoneNames(w.chain) && Resolve(o, last.name).found.None?)
  }

  /**
   * A last pass prints "done" exactly when it marks its node done, which it
   * does exactly when the name was found and is no alias; "done" is its last
   * event and appears nowhere before.
   */
  lemma StepDone(o: Lookups, t: Trace)
    requires Pending(t.chain) && !Follows(o, t) && Done !in t.events
    ensures DoneRule(o, Step(o, t))
  {
    var name := Current(t);
    var events := t.events + [LookingFor(name)];
    var u := Step(o, t);
    if name in DoneNames(t.chain) {
      assert u.events[..|u.events| - 1] == events;
    } else {
      var r := Resolve(o, name);
      ResolveAlias(o, name);
      if r.found.None? {
        assert u.events[..|u.events| - 1] == events;
      } else {
        var report := Report(name, r.found.value).0;
        assert Done !in report;
        assert u.events == events + report + [Done];
        assert u.events[..|u.events| - 1] == events + report;
      }
    }
  }

  /** "done" is printed exactly at the end of a walk that found a non-alias. */
  lemma {:induction false} WalkFromDone(o: Lookups, t: Trace)
    requires Bounded(o) && Pending(t.chain) && Done !in t.events
    ensures DoneRule(o, WalkFrom(o, t))
    decreases o.aliased - DoneNames(t.chain)
  {
    if Follows(o, t) {
      StepFollows(o, t);
      assert WalkFrom(o, t) == WalkFrom(o, Step(o, t));
      WalkFromDone(o, Step(o, t));
    } else {
      StepDone(o, t);
    }
  }

  /**
   * The other two ways a last pass ends: "already searched" exactly when its
   * name was done before, "no match" exactly when it was not and both lookups
   * came back empty.
   */
  lemma StepStops(o: Lookups, t: Trace)
    requires Pending(t.chain) && !Follows(o, t)
    ensures StopRule(o, Step(o, t))
  {
    var name := Current(t);
    if name !in DoneNames(t.chain) {
      var r := Resolve(o, name);
      if r.found.Some? {
        var next := Report(name, r.found.value).1;
        var chain := Advance(t.chain, next);
        ResolveAlias(o, name);
        assert next.None?;
        assert chain[|chain| - 1].done;
      }
    }
  }

  /** How the walk stops: "already searched" or "no match" as `StepStops` says. */
  lemma {:induction false} WalkFromStops(o: Lookups, t: Trace)
    requires Bounded(o) && Pending(t.chain)
    ensures StopRule(o, WalkFrom(o, t))
    decreases o.aliased - DoneNames(t.chain)
  {
    if Follows(o, t) {
      StepFollows(o, t);
      assert WalkFrom(o, t) == WalkFrom(o, Step(o, t));
      WalkFromStops(o, Step(o, t));
    } else {
      StepStops(o, t);
    }
  }

  /** How `find_recursive` stops, from the command line. */
  lemma WalkEnds(o: Lookups, command: string)
    requires Bounded(o)
    ensures DoneRule(o, Walk(o, command)) && StopRule(o, Walk(o, command))
  {
    WalkFromDone(o, Trace([MkCmd(command)], [], []));
    WalkFromStops(o, Trace([MkCmd(command)], [], []));
  }

  /**
   * PATH is searched at most once per walk, and only as the very last lookup:
   * every earlier step followed an alias, which the shell lookup alone decides.
   * `find_in_path` tokenizes PATH in place, so this is why the truncated PATH
   * it leaves behind is never read again.
   */
  lemma {:induction false} WalkFromSearchesPathLast(o: Lookups, t: Trace)
    requires Bounded(o) && Pending(t.chain) && PathLookup !in t.consulted
    ensures var w := WalkFrom(o, t);
      PathLookup in w.consulted ==>
        && w.consulted[|w.consulted| - 1] == PathLookup
        && PathLookup !in w.consulted[..|w.consulted| - 1]
    decreases o.aliased - DoneNames(t.chain)
  {
    if Follows(o, t) {
      StepFollows(o, t);
      assert WalkFrom(o, t) == WalkFrom(o, Step(o, t));
      WalkFromSearchesPathLast(o, Step(o, t));
    } else {
      StepSearchesPathLast(o, t);
    }
  }

  /** A last pass adds at most one path search, as its last lookup. */
  lemma StepSearchesPathLast(o: Lookups, t: Trace)
    requires Pending(t.chain) && PathLookup !in t.consulted
    ensures var u := Step(o, t);
      PathLookup in u.consulted ==>
        && u.consulted[|u.consulted| - 1] == PathLookup
        && PathLookup !in u.consulted[..|u.consulted| - 1]
  {
    var name := Current(t);
    if name !in DoneNames(t.chain) {
      var r := Resolve(o, name);
      if PathLookup in r.consulted {
        assert r.consulted[|r.consulted| - 1] == PathLookup;
        assert PathLookup !in r.consulted[..|r.consulted| - 1];
        var c := t.consulted + r.consulted;
        assert c[..|c| - 1] == t.consulted + r.consulted[..|r.consulted| - 1];
      }
    }
  }

  /** PATH is searched at most once, last, in every run. */
  lemma WalkSearchesPathLast(o: Lookups, command: string)
    requires Bounded(o)
    ensures var w := Walk(o, command);
      PathLookup in w.consulted ==>
        && w.consulted[|w.consulted| - 1] == PathLookup
        && PathLookup !in w.consulted[..|w.consulted| - 1]
  {
    WalkFromSearchesPathLast(o, Trace([MkCmd(command)], [], []));
  }

  /* ---------- Termination bound ---------- */

  lemma {:induction false} DistinctNamesCount(cs: seq<Cmd>)
    requires forall i, j :: 0 <= i < j < |cs| ==> cs[i].name != cs[j].name
    ensures |set i | 0 <= i < |cs| :: cs[i].name| == |cs|
  {
    if |cs| > 0 {
      var init := cs[..|cs| - 1];
      DistinctNamesCount(init);
      var last := cs[|cs| - 1].name;
      assert (set i | 0 <= i < |cs| :: cs[i].name) ==
             (set i | 0 <= i < |init| :: init[i].name) + {last};
      assert last !in (set i | 0 <= i < |init| :: init[i].name);
    }
  }

  lemma {:induction false} SubsetSize<T>(a: set<T>, b: set<T>)
    requires a <= b
    ensures |a| <= |b|
    decreases a
  {
    if a != {} {
      var x :| x in a;
      SubsetSize(a - {x}, b - {x});
    }
  }

  /**
   * Every node but the last is a distinct alias, so the list is at most one
   * longer than the number of names the shell can report as aliases.
   */
  lemma WalkLength(o: Lookups, command: string)
    requires Bounded(o)
    ensures |Walk(o, command).chain| <= |o.aliased| + 1
  {
    WalkLinked(o, command);
    var c := Walk(o, command).chain;
    var init := c[..|c| - 1];
    forall i, j | 0 <= i < j < |init| ensures init[i].name != init[j].name {
      assert c[i].done && c[j].done;
    }
    DistinctNamesCount(init);
    forall i | 0 <= i < |init| ensures init[i].name in o.aliased {
      assert init[i] == c[i];
      assert AliasTarget(o, c[i].name) == Some(c[i + 1].name);
      assert AliasOf(o, c[i].name).Some?;
    }
    SubsetSize(set i | 0 <= i < |init| :: init[i].name, o.aliased);
  }

  /* ---------- Runs ---------- */

  /** A builtin: one shell lookup, then "done". */
  lemma WalkBuiltin(o: Lookups, a: string, k: nat)
    requires Bounded(o) && o.typeOf(a) == Some(TypeMatch(None, k)) && k != 0
    ensures Walk(o, a) == Trace([Cmd(a, true)], [LookingFor(a), IsBuiltin(a), Done], [TypeLookup])
  {
  }

  /** Neither the shell nor PATH knows the name: both lookups, then "no match". */
  lemma WalkNotFound(o: Lookups, a: string)
    requires Bounded(o) && o.typeOf(a) == None && o.pathOf(a) == None
    ensures Walk(o, a) == Trace([Cmd(a, false)], [LookingFor(a), NoMatch], [TypeLookup, PathLookup])
  {
  }

  /** An alias for a program on PATH: two names, PATH searched once, for the second. */
  lemma WalkAliasToExecutable(o: Lookups, a: string, b: string, ma: AliasMatch, p: string)
    requires Bounded(o) && a != b
    requires AliasOf(o, a) == Some(ma) && ma.aliasFor == b
    requires o.typeOf(b) == None && o.pathOf(b) == Some(p)
    ensures Walk(o, a) ==
      Trace([Cmd(a, true), Cmd(b, true)],
            [LookingFor(a), IsAlias(a, b, ma.shell, ma.declaration),
             LookingFor(b), IsExecutable(b, p), Done],
            [TypeLookup, TypeLookup, PathLookup])
  {
    var t0 := Trace([MkCmd(a)], [], []);
    assert DoneNames(t0.chain) == {};
    assert Current(t0) == a;
    StepFollows(o, t0);
    var t1 := Step(o, t0);
    assert Advance(t0.chain, Some(b)) == [Cmd(a, true), Cmd(b, false)];
    assert !Follows(o, t1);
    assert Walk(o, a) == WalkFrom(o, t1);
    assert WalkFrom(o, t1) == Step(o, t1);
    assert Resolve(o, b) == Resolution(Some(Match(None, Some(p))), [TypeLookup, PathLookup]);
    assert Advance(t1.chain, None) == [Cmd(a, true), Cmd(b, true)];
  }

  /** Two aliases for each other: `a`, `b`, then `a` again, already searched. */
  lemma WalkTwoCycle(o: Lookups, a: string, b: string, ma: AliasMatch, mb: AliasMatch)
    requires Bounded(o) && a != b
    requires AliasOf(o, a) == Some(ma) && ma.aliasFor == b
    requires AliasOf(o, b) == Some(mb) && mb.aliasFor == a
    ensures Walk(o, a) ==
      Trace([Cmd(a, true), Cmd(b, true), Cmd(a, false)],
            [LookingFor(a), IsAlias(a, b, ma.shell, ma.declaration),
             LookingFor(b), IsAlias(b, a, mb.shell, mb.declaration),
             LookingFor(a), AlreadySearched(a)],
            [TypeLookup, TypeLookup])
  {
    var t0 := Trace([MkCmd(a)], [], []);
    assert DoneNames(t0.chain) == {};
    assert Current(t0) == a;
    StepFollows(o, t0);
    var t1 := Step(o, t0);
    assert Advance(t0.chain, Some(b)) == [Cmd(a, true), Cmd(b, false)];
    assert Current(t1) == b;
    StepFollows(o, t1);
    var t2 := Step(o, t1);
    assert Advance(t1.chain, Some(a)) == [Cmd(a, true), Cmd(b, true), Cmd(a, false)];
    assert !Follows(o, t2);
    assert Walk(o, a) == WalkFrom(o, t1);
    assert WalkFrom(o, t1) == WalkFrom(o, t2);
    assert WalkFrom(o, t2) == Step(o, t2);
  }

  /** A name aliased to itself: the second step finds it already searched. */
  lemma WalkSelfAlias(o: Lookups, a: string, ma: AliasMatch)
    requires Bounded(o)
    requires AliasOf(o, a) == Some(ma) && ma.aliasFor == a
    ensures Walk(o, a) ==
      Trace([Cmd(a, true), Cmd(a, false)],
            [LookingFor(a), IsAlias(a, a, ma.shell, ma.declaration),
             LookingFor(a), AlreadySearched(a)],
            [TypeLookup])
  {
    var t0 := Trace([MkCmd(a)], [], []);
    assert DoneNames(t0.chain) == {};
    assert Current(t0) == a;
    StepFollows(o, t0);
    var t1 := Step(o, t0);
    assert Advance(t0.chain, Some(a)) == [Cmd(a, true), Cmd(a, false)];
    assert !Follows(o, t1);
    assert Walk(o, a) == WalkFrom(o, t1);
    assert WalkFrom(o, t1) == Step(o, t1);
  }

  /**
   * bash with `alias ls='ls --color=auto -la'` answers `type ls` with one alias
   * line whose target is `ls` itself, so the walk stops on its second step.
   */
  lemma SelfAliasedLs(path: string, shell: string, executables: set<string>, t: string, r: string)
    requires t == "ls" && r == "--color=auto -la"
    ensures var env := Env(path, shell, map[t := [AliasReply(t, t + [Space] + r)]], executables);
      Walk(LookupsOf(env), t).events ==
        [LookingFor(t), IsAlias(t, t, shell, t + [Space] + r), LookingFor(t), AlreadySearched(t)]
  {
    var body := t + [Space] + r;
    var line := AliasReply(t, body);
    var env := Env(path, shell, map[t := [line]], executables);
    FirstWordIsTarget(shell, t, r);
    assert Reply(env, t) == [line];
    assert Classify(shell, [line]) == ClassifyLine(shell, line);
    WalkSelfAlias(LookupsOf(env), t, AliasMatch(shell, body, t));
  }
}
