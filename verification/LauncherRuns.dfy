/**
  The launcher over every sequence of events.

  `Session` adds the last redraw to the view: its height and the rows it drew. `RunGood`
  is what holds after any run, `ActsExactly` says what an input does outside, and
  `RunsHighlighted` that Return runs the entry highlighted on the screen. A run acts at
  most once, at its end (`OneAction`).
 */
module LauncherRuns {
  import opened Basics
  import opened Unicode
  import opened NameOrder
  import opened AppOrder
  import opened Launcher

  /** An input, what a level would load at that moment, and the window's height then. */
  datatype Event = Event(input: Input, world: World, height: int)

  datatype Session = Session(view: View, height: int, screen: seq<Row>)

  ghost predicate InWindow(v: View, height: int)
  {
    var n, visible := |Matching(v.apps, v.query)|, Visible(height);
    0 <= v.scroll <= (if n < visible then 0 else n - visible) && v.scroll <= v.selected < v.scroll + visible
  }

  ghost predicate Good(s: Session)
  {
    && |s.view.apps| <= MAX_APPS && |s.view.query| < QUERY_SIZE - 1
    && SelectionOk(s.view) && s.view.scroll >= 0
    && (s.view.running ==> InWindow(s.view, s.height) && s.screen == Drawn(s.view, s.height))
  }

  ghost function Opened(menu: bool, w: World, height: int): Session
  {
    var v := Entered(View([], [], 0, 0, menu, RootLevel, true), if menu then RootLevel else AppsLevel, w);
    Redrawn(v, height)
  }

  ghost function Redrawn(v: View, height: int): Session
    requires SelectionOk(v) && v.scroll >= 0
  {
    WindowHolds(v, height);
    var r := Scrolled(v, height);
    Session(r, height, Drawn(r, height))
  }

  ghost function Turn(s: Session, e: Event): Session
    requires Good(s)
  {
    ReactGood(s, e.input, e.world);
    var o := React(s.view, e.input, e.world);
    if o.dirty && o.view.running then Redrawn(o.view, e.height) else Session(o.view, s.height, s.screen)
  }

  lemma {:induction false} ReactGood(s: Session, input: Input, w: World)
    requires Good(s)
    ensures var o := React(s.view, input, w);
            && |o.view.apps| <= MAX_APPS && |o.view.query| < QUERY_SIZE - 1 && SelectionOk(o.view) && o.view.scroll >= 0
            && (o.view.running && !o.dirty ==> o.view == s.view)
  {
    hide Matching, Entries, Chars;
  }

  lemma {:induction false} RedrawGood(v: View, height: int)
    requires |v.apps| <= MAX_APPS && |v.query| < QUERY_SIZE - 1 && SelectionOk(v) && v.scroll >= 0
    ensures Good(Redrawn(v, height))
  {
    WindowHolds(v, height);
    hide Matching, Drawn;
  }

  lemma {:induction false} TurnGood(s: Session, e: Event)
    requires Good(s)
    ensures Good(Turn(s, e))
    ensures Turn(s, e).view.running && React(s.view, e.input, e.world).dirty ==> Turn(s, e).height == e.height
  {
    ReactGood(s, e.input, e.world);
    var o := React(s.view, e.input, e.world);
    hide React, Matching, Redrawn;
    RedrawGood(o.view, e.height);
  }

  lemma {:induction false} OpenedGood(menu: bool, w: World, height: int)
    ensures Good(Opened(menu, w, height))
  {
  }

  // ---- whole runs --------------------------------------------------------

  datatype Trace = Trace(last: Session, actions: seq<Action>)

  /** Events are taken until the launcher stops. */
  ghost function Run(s: Session, events: seq<Event>): (t: Trace)
    requires Good(s)
    ensures Good(t.last) && |t.actions| <= |events|
    decreases events
  {
    if !s.view.running || events == [] then Trace(s, [])
    else
      TurnGood(s, events[0]);
      var rest := Run(Turn(s, events[0]), events[1..]);
      Trace(rest.last, [React(s.view, events[0].input, events[0].world).action] + rest.actions)
  }

  /**
    After any run from a fresh start: at most 32 entries and 62 query bytes, the
    selection is a match or 0, and while the launcher runs its row is in the window.
   */
  lemma {:induction false} RunGood(menu: bool, w: World, height: int, events: seq<Event>)
    ensures Good(Opened(menu, w, height))
    ensures Good(Run(Opened(menu, w, height), events).last)
  {
  }

  /**
    Only Return acts, outside the root menu, and exactly when something matches: on the
    entry at the selected place of the match list, whose name contains the query.
   */
  lemma {:induction false} ActsExactly(v: View, input: Input, w: World)
    requires SelectionOk(v)
    ensures var o, m := React(v, input, w), Matching(v.apps, v.query);
            && (o.action != NoAction <==> input.Return? && m != [] && !v.level.RootLevel?)
            && (o.action != NoAction ==>
                  && v.selected < |m| && Contains(v.apps[m[v.selected]].name, v.query)
                  && o.action == if v.level.AppsLevel? then Execute(v.apps[m[v.selected]].value)
                                 else SwitchTheme(v.apps[m[v.selected]].name))
  {
    hide Contains, Entries, Chars;
    var m := Matching(v.apps, v.query);
    if m != [] {
      MatchingExact(v.apps, v.query);
      assert m[v.selected] in m;
    }
  }

  /** The launcher stops on Close, on Escape outside a submenu, and on Return unless that opens one. */
  lemma {:induction false} StopsExactly(v: View, input: Input, w: World)
    requires SelectionOk(v) && v.running
    ensures !React(v, input, w).view.running
            <==> || input.Close? || (input.Escape? && !(v.menu && !v.level.RootLevel?))
                 || (input.Return? && !(v.level.RootLevel? && Matching(v.apps, v.query) != []))
  {
    hide Matching, Entries, Chars;
  }

  /**
    After any run of a launcher that still runs, Return does what the screen shows: the
    row highlighted there is the entry it runs or the theme it switches to. Some row is
    highlighted whenever something matches and a row fits.
   */
  lemma {:induction false} RunsHighlighted(menu: bool, w: World, height: int, events: seq<Event>, later: World)
    ensures Good(Opened(menu, w, height))
    ensures var s := Run(Opened(menu, w, height), events).last;
            && SelectionOk(s.view)
            && var a := React(s.view, Return, later).action;
               s.view.running ==>
                 && (forall k :: 0 <= k < |s.screen| && s.screen[k].selected ==>
                       && (s.view.level.AppsLevel? ==> a == Execute(s.screen[k].app.value))
                       && (s.view.level.ThemesLevel? ==> a == SwitchTheme(s.screen[k].app.name)))
                 && (forall i, j :: 0 <= i < j < |s.screen| ==> !(s.screen[i].selected && s.screen[j].selected))
                 && ((exists k :: 0 <= k < |s.screen| && s.screen[k].selected)
                     <==> Matching(s.view.apps, s.view.query) != [] && s.height >= PROMPT_HEIGHT + 4 + ROW_HEIGHT)
  {
    OpenedGood(menu, w, height);
    var s := Run(Opened(menu, w, height), events).last;
    hide Run, Opened;
    ActsExactly(s.view, Return, later);
    if s.view.running {
      DrawnExact(s.view, s.height);
      hide Matching, React, Drawn, Scrolled, Contains;
      ScrollSettled(s.view, s.height);
    }
  }

  /** In the window already: a redraw leaves the scroll position alone. */
  lemma {:induction false} ScrollSettled(v: View, height: int)
    requires InWindow(v, height)
    ensures Scrolled(v, height) == v
  {
    hide Matching;
  }

  /** Only the last event can have acted, and the launcher has then stopped. */
  ghost predicate ActsLast(t: Trace)
  {
    forall i :: 0 <= i < |t.actions| && t.actions[i] != NoAction ==> i == |t.actions| - 1 && !t.last.view.running
  }

  lemma {:induction false} ActsLastCons(a: Action, rest: Trace)
    requires ActsLast(rest) && (a != NoAction ==> rest.actions == [] && !rest.last.view.running)
    ensures ActsLast(Trace(rest.last, [a] + rest.actions))
  {
  }

  /** A run acts at most once, on its last event. */
  lemma {:induction false} OneAction(s: Session, events: seq<Event>)
    requires Good(s)
    ensures ActsLast(Run(s, events))
    decreases events
  {
    hide React, SelectionOk, InWindow, Matching, Drawn, Contains;
    if s.view.running && events != [] {
      ActsExactly(s.view, events[0].input, events[0].world);
      StopsExactly(s.view, events[0].input, events[0].world);
      TurnGood(s, events[0]);
      var o, next := React(s.view, events[0].input, events[0].world), Turn(s, events[0]);
      OneAction(next, events[1..]);
      ActsLastCons(o.action, Run(next, events[1..]));
    }
  }

  // ---- what undoes what --------------------------------------------------

  /** A longer query matches no more. */
  lemma {:induction false} TypingNarrows(apps: seq<App>, query: JsString, text: JsString, i: nat)
    requires i in Matching(apps, query + text)
    ensures i in Matching(apps, query)
  {
    MatchingExact(apps, query + text);
    MatchingExact(apps, query);
    var name, q := apps[i].name, query + text;
    var k :| ContainsAt(name, q, k);
    assert forall j :: 0 <= j < |query| ==> q[j] == query[j] && name[k..k + |q|][j] == name[k..k + |query|][j];
    assert ContainsAt(name, query, k);
  }

  /** Backspace takes back one typed byte, and with it the whole match list. */
  lemma {:induction false} BackspaceUndoesByte(v: View, c: Unit, w: World)
    requires SelectionOk(v) && Accepted(v.query, [c])
    ensures var typed := React(v, Text([c]), w).view;
            var back := React(typed, Backspace, w).view;
            SelectionOk(typed) && typed.query == v.query + [c] && back.query == v.query && back.apps == v.apps
  {
    hide Matching;
    assert (v.query + [c])[..|v.query|] == v.query;
  }

  lemma {:induction false} UpUndoesDown(v: View, w: World)
    requires SelectionOk(v) && v.selected + 1 < |Matching(v.apps, v.query)|
    ensures var down := React(v, Down, w).view;
            SelectionOk(down) && Chosen(down) == v.apps[Matching(v.apps, v.query)[v.selected + 1]]
            && React(down, Up, w).view == v
  {
  }

  lemma {:induction false} EmptyQueryMatchesAll(apps: seq<App>)
    ensures |Matching(apps, [])| == |apps| && forall i :: 0 <= i < |apps| ==> Matching(apps, [])[i] == i
  {
    if apps != [] {
      var last := |apps| - 1;
      EmptyQueryMatchesAll(apps[..last]);
      assert ContainsAt(apps[last].name, [], 0);
    }
  }

  /**
    From the root menu, Return opens the level of the selected row: the applications
    from the first, the themes from the second. Escape leads back to a fresh root menu.
   */
  lemma {:induction false} MenuRoundTrip(v: View, w: World, later: World, again: World)
    requires v.menu && v.running && v.level.RootLevel? && v.apps == Entries(RootLevel, w) && v.query == []
    requires v.selected == 0 || v.selected == 1
    ensures SelectionOk(v)
    ensures var inside := React(v, Return, later).view;
            && inside.level == (if v.selected == 0 then AppsLevel else ThemesLevel)
            && inside.apps == Entries(inside.level, later) && inside.query == [] && inside.selected == 0
            && SelectionOk(inside)
            && React(inside, Escape, again).view == Entered(v, RootLevel, again)
  {
    EmptyQueryMatchesAll(v.apps);
    EmptyQueryMatchesAll(Entries(AppsLevel, later));
    EmptyQueryMatchesAll(Entries(ThemesLevel, later));
    RootNames(w);
    hide Matching, Entries, Chars;
  }

  lemma {:induction false} RootNames(w: World)
    ensures var r := Entries(RootLevel, w); |r| == 2 && r[0].name != Chars("Theme") && r[1].name == Chars("Theme")
  {
  }

  /** The main loop of the program follows `Run`. */
  method RunMenu(menu: bool, first: World, height: int, events: seq<Event>)
    returns (m: Menu, actions: seq<Action>, screen: seq<Row>)
    ensures fresh(m) && m.Valid()
    ensures m.State() == Run(Opened(menu, first, height), events).last.view
    ensures actions == Run(Opened(menu, first, height), events).actions
    ensures screen == Run(Opened(menu, first, height), events).last.screen
  {
    hide Matching, Scrolled, Entered, Run, Good, React, SelectionOk;
    m := new Menu(menu);
    m.EnterLevel(if menu then RootLevel else AppsLevel, first);
    screen := m.Render(height);
    ghost var s := Opened(menu, first, height);
    OpenedGood(menu, first, height);
    ghost var whole := Run(s, events);
    hide Opened;
    actions := [];
    var i := 0;
    while m.running && i < |events|
      invariant i <= |events| && m.Valid() && fresh(m) && fresh(m.apps) && fresh(m.found)
      invariant Good(s) && m.State() == s.view && screen == s.screen
      invariant Run(s, events[i..]).last == whole.last
      invariant actions + Run(s, events[i..]).actions == whole.actions
    {
      RunStep(s, events, i);
      var action, dirty := m.Handle(events[i].input, events[i].world);
      if dirty && m.running {
        screen := m.Render(events[i].height);
      }
      s := Turn(s, events[i]);
      Assoc(actions, [action], Run(s, events[i + 1..]).actions);
      actions := actions + [action];
      i := i + 1;
    }
    RunEnd(s, events[i..]);
  }

  lemma {:induction false} RunStep(s: Session, events: seq<Event>, i: nat)
    requires Good(s) && s.view.running && i < |events|
    ensures Good(Turn(s, events[i]))
    ensures var rest := Run(Turn(s, events[i]), events[i + 1..]);
            Run(s, events[i..])
            == Trace(rest.last, [React(s.view, events[i].input, events[i].world).action] + rest.actions)
  {
    TurnGood(s, events[i]);
    hide React, Good, Turn;
    assert events[i..][0] == events[i] && events[i..][1..] == events[i + 1..];
  }

  lemma {:induction false} RunEnd(s: Session, events: seq<Event>)
    requires Good(s) && (!s.view.running || events == [])
    ensures Run(s, events) == Trace(s, [])
  {
  }
}
