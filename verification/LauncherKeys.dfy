/**
  The launcher's keys, each by what it does to the user.

  Up and Down move within the list and stop at its ends, typing filters and erasing
  takes it back, letters match in either case, and the list scrolls as little as
  possible.
 */
module LauncherKeys {
  import opened Basics
  import opened Unicode
  import opened NameOrder
  import opened AppOrder
  import opened Launcher
  import opened LauncherRuns

  // ---- moving ------------------------------------------------------------

  /** The view after `k` presses of one key. */
  ghost function Pressed(v: View, key: Input, k: nat, w: World): (r: View)
    requires SelectionOk(v) && (key.Up? || key.Down? || key.Backspace?)
    ensures SelectionOk(r)
  {
    if k == 0 then v
    else
      var before := Pressed(v, key, k - 1, w);
      PressKeeps(before, key, w);
      React(before, key, w).view
  }

  lemma {:induction false} PressKeeps(v: View, key: Input, w: World)
    requires SelectionOk(v) && (key.Up? || key.Down? || key.Backspace?)
    ensures SelectionOk(React(v, key, w).view)
  {
    hide Matching, Entries, Chars;
  }

  /** Down goes on to the last match and stays there; nothing else changes. */
  lemma {:induction false} DownReaches(v: View, k: nat, w: World)
    requires SelectionOk(v)
    ensures var n := |Matching(v.apps, v.query)|;
            Pressed(v, Down, k, w) == v.(selected := if n == 0 then 0 else if v.selected + k < n then v.selected + k else n - 1)
  {
    hide Matching;
    if k > 0 {
      DownReaches(v, k - 1, w);
    }
  }

  /** Up goes back to the first match and stays there. */
  lemma {:induction false} UpReaches(v: View, k: nat, w: World)
    requires SelectionOk(v)
    ensures Pressed(v, Up, k, w) == v.(selected := if v.selected < k then 0 else v.selected - k)
  {
    hide Matching;
    if k > 0 {
      UpReaches(v, k - 1, w);
    }
  }

  // ---- typing ------------------------------------------------------------

  /** The selection stays where it is, or goes to the last match when the list became too short. */
  ghost predicate SelectionFollows(v: View, r: View)
  {
    var n := |Matching(r.apps, r.query)|;
    r.selected == if v.selected < n then v.selected else if n == 0 then 0 else n - 1
  }

  /**
    Text that starts with a printable ASCII byte and fits is appended as a whole, and the
    selection follows. Any other text and any other key change nothing.
   */
  lemma {:induction false} TypingAppends(v: View, text: JsString, w: World)
    requires SelectionOk(v)
    ensures var o := React(v, Text(text), w);
            && (text != [] && 32 <= text[0] < 128 && |v.query| + |text| <= 62 ==>
                  && o.view == v.(query := v.query + text, selected := o.view.selected) && SelectionFollows(v, o.view)
                  && o.dirty)
            && (!(text != [] && 32 <= text[0] < 128 && |v.query| + |text| <= 62) ==> o.view == v && !o.dirty)
    ensures React(v, OtherKey, w).view == v && React(v, Resize, w) == Outcome(v, NoAction, true)
  {
    hide Matching;
  }

  lemma {:induction false} ErasingStep(v: View, w: World)
    requires SelectionOk(v)
    ensures var r := React(v, Backspace, w).view;
            && r == v.(query := r.query, selected := r.selected) && SelectionFollows(v, r)
            && r.query == if v.query == [] then [] else v.query[..|v.query| - 1]
  {
    hide Matching;
  }

  /** `k` backspaces take the last `k` bytes of the query. */
  lemma {:induction false} ErasingTakes(v: View, k: nat, w: World)
    requires SelectionOk(v)
    ensures var r := Pressed(v, Backspace, k, w);
            && r == v.(query := r.query, selected := r.selected)
            && r.query == if k <= |v.query| then v.query[..|v.query| - k] else []
  {
    hide Matching, React, SelectionOk;
    if k == 0 {
      assert v.query[..|v.query|] == v.query;
    } else {
      ErasingTakes(v, k - 1, w);
      ErasingStep(Pressed(v, Backspace, k - 1, w), w);
    }
  }

  /** As many backspaces as were typed give back the query and its list. */
  lemma {:induction false} ErasingUndoesTyping(v: View, text: JsString, w: World)
    requires SelectionOk(v) && text != [] && 32 <= text[0] < 128 && |v.query| + |text| <= 62
    ensures var typed := React(v, Text(text), w).view;
            && SelectionOk(typed)
            && var back := Pressed(typed, Backspace, |text|, w);
               back.query == v.query && back.apps == v.apps && back.level == v.level && back.running == v.running
  {
    TypingAppends(v, text, w);
    var typed := React(v, Text(text), w).view;
    hide Matching, React;
    ErasingTakes(typed, |text|, w);
    assert (v.query + text)[..|v.query|] == v.query;
  }

  // ---- letters in either case --------------------------------------------

  /** The same unit, or the two cases of one letter A to Z. */
  predicate SameLetter(x: Unit, y: Unit)
  {
    x == y || (65 <= x <= 90 && y == x + 32) || (65 <= y <= 90 && x == y + 32)
  }

  predicate SameLetters(a: JsString, b: JsString)
  {
    |a| == |b| && forall i :: 0 <= i < |a| ==> SameLetter(a[i], b[i])
  }

  /** Letters are compared in either case, and everything else as it is. */
  lemma {:induction false} LowerExact(x: Unit, y: Unit)
    ensures LowerUnit(x) == LowerUnit(y) <==> SameLetter(x, y)
  {
  }

  lemma {:induction false} SameTextExact(a: JsString, b: JsString)
    ensures SameText(a, b) <==> SameLetters(a, b)
  {
    forall i | 0 <= i < |a| && i < |b|
      ensures LowerUnit(a[i]) == LowerUnit(b[i]) <==> SameLetter(a[i], b[i])
    {
      LowerExact(a[i], b[i]);
    }
    hide LowerUnit, SameLetter;
  }

  /** An entry matches if and only if a part of its name is the query, in either case. */
  lemma {:induction false} ContainsExact(name: JsString, query: JsString)
    ensures Contains(name, query)
            <==> exists before, part, after :: name == before + part + after && SameLetters(part, query)
  {
    hide SameText, SameLetters;
    if i :| ContainsAt(name, query, i) {
      var before, part, after := name[..i], name[i..i + |query|], name[i + |query|..];
      SameTextExact(part, query);
      assert name == before + part + after;
    }
    if before, part, after :| name == before + part + after && SameLetters(part, query) {
      SameTextExact(part, query);
      PartLength(part, query);
      assert name[|before|..|before| + |query|] == part;
      assert ContainsAt(name, query, |before|);
    }
  }

  lemma {:induction false} PartLength(a: JsString, b: JsString)
    requires SameLetters(a, b)
    ensures |a| == |b|
  {
  }

  // ---- scrolling ---------------------------------------------------------

  function Distance(a: int, b: int): nat { if a < b then b - a else a - b }

  /** A redraw moves the list as little as it can to have the selected row in the window. */
  lemma {:induction false} ScrollsLeast(v: View, height: int, other: int)
    requires SelectionOk(v) && v.scroll >= 0 && InWindow(v.(scroll := other), height)
    ensures InWindow(Scrolled(v, height), height) && Scrolled(v, height) == v.(scroll := Scrolled(v, height).scroll)
    ensures Distance(Scrolled(v, height).scroll, v.scroll) <= Distance(other, v.scroll)
  {
    hide Matching;
  }

  // ---- levels ------------------------------------------------------------

  /** In the root menu, Return on a match opens the themes for the entry "Theme", else the applications. */
  lemma {:induction false} ReturnOpens(v: View, w: World)
    requires SelectionOk(v) && v.level.RootLevel? && Matching(v.apps, v.query) != []
    ensures var r, chosen := React(v, Return, w).view, v.apps[Matching(v.apps, v.query)[v.selected]];
            && r.level == (if chosen.name == Chars("Theme") then ThemesLevel else AppsLevel)
            && r.apps == (if chosen.name == Chars("Theme") then Stored(w.themes) else LoadedApps(w.apps))
            && r.query == [] && r.selected == 0 && r.scroll == 0 && r.menu == v.menu && r.running == v.running
  {
    hide Matching, Chars, LoadedApps, Stored;
  }

  /** In a submenu Escape goes back to a fresh root menu, whatever was typed there. */
  lemma {:induction false} EscapeGoesBack(v: View, w: World)
    requires SelectionOk(v) && v.menu && !v.level.RootLevel?
    ensures var r := React(v, Escape, w).view;
            && r.level.RootLevel? && r.query == [] && r.selected == 0 && r.scroll == 0 && r.menu && r.running == v.running
            && |r.apps| == 2 && r.apps[0].name == Chars("Apps") && r.apps[1].name == Chars("Theme")
  {
    hide Matching, Chars;
  }

  /** With "--menu" the launcher starts in the root menu, otherwise in the applications. */
  lemma {:induction false} StartsFresh(menu: bool, w: World, height: int)
    ensures var s := Opened(menu, w, height);
            && s.view.level == (if menu then RootLevel else AppsLevel) && s.view.menu == menu && s.view.running
            && s.view.query == [] && s.view.selected == 0 && s.height == height
            && (menu ==> |s.view.apps| == 2 && s.view.apps[0].name == Chars("Apps") && s.view.apps[1].name == Chars("Theme"))
            && (!menu ==> s.view.apps == LoadedApps(w.apps))
  {
    hide Matching, Chars, LoadedApps, Drawn;
  }
}
