/**
  The launcher's menu: entries, filter, selection and scroll position.

  `View` is the state without its buffers, and `React` and `Scrolled` say what an
  input and a redraw make of it. The class keeps the fixed-size tables that the
  program keeps and is proved to follow them. What holds over every run is in
  LauncherRuns.
 */
module Launcher {
  import opened Basics
  import opened Unicode
  import opened NameOrder
  import opened AppOrder

  const QUERY_SIZE: nat := 64
  const PROMPT_HEIGHT: nat := 54
  const ROW_HEIGHT: nat := 40

  datatype Level = RootLevel | AppsLevel | ThemesLevel

  /** What a level would load: application files in readdir order, and the themes. */
  datatype World = World(apps: seq<App>, themes: seq<App>)

  datatype Input = Close | Resize | Escape | Up | Down | Backspace | Return | OtherKey | Text(utf8: JsString)

  datatype Action = NoAction | SwitchTheme(name: JsString) | Execute(command: JsString)

  datatype View = View(
    apps: seq<App>,
    query: JsString,
    selected: int,
    scroll: int,
    menu: bool,
    level: Level,
    running: bool)

  // ---- matching ----------------------------------------------------------

  function LowerUnit(c: Unit): Unit { if 65 <= c <= 90 then c + 32 else c }

  predicate SameText(a: JsString, b: JsString)
  {
    |a| == |b| && forall i :: 0 <= i < |a| ==> LowerUnit(a[i]) == LowerUnit(b[i])
  }

  predicate ContainsAt(name: JsString, query: JsString, i: int)
  {
    0 <= i <= |name| - |query| && SameText(name[i..i + |query|], query)
  }

  /** Case-insensitive substring. */
  ghost predicate Contains(name: JsString, query: JsString)
  {
    exists i :: ContainsAt(name, query, i)
  }

  method Matches(name: JsString, query: JsString) returns (found: bool)
    ensures found <==> Contains(name, query)
  {
    if query == [] {
      assert ContainsAt(name, query, 0);
      return true;
    }
    var p := 0;
    while p < |name|
      invariant p <= |name|
      invariant forall i :: 0 <= i < p ==> !ContainsAt(name, query, i)
    {
      var k := 0;
      while p + k < |name| && k < |query| && LowerUnit(name[p + k]) == LowerUnit(query[k])
        invariant p + k <= |name| && k <= |query|
        invariant forall j :: 0 <= j < k ==> LowerUnit(name[p..][j]) == LowerUnit(query[j])
      {
        k := k + 1;
      }
      if k == |query| {
        assert ContainsAt(name, query, p);
        return true;
      }
      assert p <= |name| - |query| ==> name[p..p + |query|][k] == name[p + k];
      p := p + 1;
    }
    return false;
  }

  /** The indices of the entries that match. */
  ghost function Matching(apps: seq<App>, query: JsString): (r: seq<nat>)
    ensures |r| <= |apps| && forall k :: 0 <= k < |r| ==> r[k] < |apps|
  {
    if apps == [] then []
    else
      var last := |apps| - 1;
      Matching(apps[..last], query) + (if Contains(apps[last].name, query) then [last] else [])
  }

  /** They are strictly ascending, and exactly the matching ones. */
  lemma {:induction false} MatchingExact(apps: seq<App>, query: JsString)
    ensures var m := Matching(apps, query);
            && (forall i, j :: 0 <= i < j < |m| ==> m[i] < m[j])
            && (forall i: nat :: i in m <==> i < |apps| && Contains(apps[i].name, query))
  {
    hide Contains;
    if apps != [] {
      var last := |apps| - 1;
      MatchingExact(apps[..last], query);
      assert forall i :: 0 <= i < last ==> apps[..last][i] == apps[i];
    }
  }

  // ---- what inputs do ----------------------------------------------------

  function Clamped(selected: int, n: nat): int
  {
    if selected >= n then (if n > 0 then n - 1 else 0) else selected
  }

  ghost function Refiltered(v: View): View
  {
    v.(selected := Clamped(v.selected, |Matching(v.apps, v.query)|))
  }

  function Chars(s: string): JsString
  {
    seq(|s|, i requires 0 <= i < |s| => if (s[i] as int) < 0x10000 then s[i] as int else 0)
  }

  function Entries(level: Level, w: World): (r: seq<App>)
    ensures |r| <= MAX_APPS
  {
    match level
    case RootLevel => [Named(Chars("Apps"), Chars("browse applications")), Named(Chars("Theme"), Chars("switch theme"))]
    case AppsLevel => SortLength(Stored(w.apps)); LoadedApps(w.apps)
    case ThemesLevel => Stored(w.themes)
  }

  ghost function Entered(v: View, level: Level, w: World): View
  {
    Refiltered(v.(level := level, apps := Entries(level, w), query := [], selected := 0, scroll := 0))
  }

  /** Text is taken when it starts with a printable ASCII byte and fits with room to spare. */
  predicate Accepted(query: JsString, utf8: JsString)
  {
    utf8 != [] && 32 <= utf8[0] < 128 && |query| + |utf8| < QUERY_SIZE - 1
  }

  datatype Outcome = Outcome(view: View, action: Action, dirty: bool)

  ghost function Chosen(v: View): App
    requires 0 <= v.selected < |Matching(v.apps, v.query)|
  {
    v.apps[Matching(v.apps, v.query)[v.selected]]
  }

  ghost predicate SelectionOk(v: View)
  {
    var n := |Matching(v.apps, v.query)|;
    0 <= v.selected && (v.selected < n || (n == 0 && v.selected == 0))
  }

  ghost function React(v: View, input: Input, w: World): Outcome
    requires SelectionOk(v)
  {
    var n := |Matching(v.apps, v.query)|;
    match input
    case Close => Outcome(v.(running := false), NoAction, false)
    case Resize => Outcome(v, NoAction, true)
    case Escape =>
      if v.menu && !v.level.RootLevel? then Outcome(Entered(v, RootLevel, w), NoAction, true)
      else Outcome(v.(running := false), NoAction, false)
    case Up => Outcome(if v.selected > 0 then v.(selected := v.selected - 1) else v, NoAction, true)
    case Down => Outcome(if v.selected + 1 < n then v.(selected := v.selected + 1) else v, NoAction, true)
    case Backspace =>
      var q := if v.query == [] then [] else v.query[..|v.query| - 1];
      Outcome(Refiltered(v.(query := q)), NoAction, true)
    case Return =>
      if n == 0 then Outcome(v.(running := false), NoAction, false)
      else (
        match v.level
        case RootLevel =>
          Outcome(Entered(v, if Chosen(v).name == Chars("Theme") then ThemesLevel else AppsLevel, w), NoAction, true)
        case ThemesLevel => Outcome(v.(running := false), SwitchTheme(Chosen(v).name), false)
        case AppsLevel => Outcome(v.(running := false), Execute(Chosen(v).value), false))
    case OtherKey => Outcome(v, NoAction, false)
    case Text(utf8) =>
      if Accepted(v.query, utf8) then Outcome(Refiltered(v.(query := v.query + utf8)), NoAction, true)
      else Outcome(v, NoAction, false)
  }

  function Visible(height: int): int
  {
    var rows := (height - (PROMPT_HEIGHT + 4)) / ROW_HEIGHT;
    if rows < 1 then 1 else rows
  }

  /** The scroll position after a redraw in a window of this height. */
  ghost function Scrolled(v: View, height: int): View
  {
    var visible := Visible(height);
    var room := |Matching(v.apps, v.query)| - visible;
    var most := if room < 0 then 0 else room;
    var a := if v.scroll > most then most else v.scroll;
    var b := if a > v.selected then v.selected else a;
    v.(scroll := if b < v.selected - visible + 1 then v.selected - visible + 1 else b)
  }

  /** After a redraw the selected row is in the window, and the window is not past the list. */
  lemma {:induction false} WindowHolds(v: View, height: int)
    requires SelectionOk(v) && v.scroll >= 0
    ensures var r, n, visible := Scrolled(v, height), |Matching(v.apps, v.query)|, Visible(height);
            && 0 <= r.scroll <= (if n < visible then 0 else n - visible)
            && r.scroll <= r.selected < r.scroll + visible
  {
  }

  /** How many rows fit below the prompt. */
  function Fit(height: int): nat
  {
    if height < 98 then 0 else (height - 58) / 40
  }

  /** A drawn row: its entry, and whether it is highlighted. */
  datatype Row = Row(app: App, selected: bool)

  /** What a redraw puts on the screen, from top to bottom. */
  ghost function Drawn(v: View, height: int): (rows: seq<Row>)
    requires v.scroll >= 0
  {
    var m := Matching(v.apps, v.query);
    var left := if |m| < v.scroll then 0 else |m| - v.scroll;
    seq(if left < Fit(height) then left else Fit(height),
        k requires 0 <= k && v.scroll + k < |m| => Row(v.apps[m[v.scroll + k]], v.scroll + k == v.selected))
  }

  /**
    The screen shows consecutive matches from the scroll position, as many as fit. One
    of them is highlighted, the selected one, exactly when a row fits at all.
   */
  lemma {:induction false} DrawnExact(v: View, height: int)
    requires SelectionOk(v) && v.scroll >= 0
    ensures var r, m := Scrolled(v, height), Matching(v.apps, v.query); var rows := Drawn(r, height);
            && r.scroll >= 0 && |rows| <= Fit(height) && r.scroll + |rows| <= |m|
            && (|rows| < Fit(height) ==> r.scroll + |rows| == |m|)
            && (forall k :: 0 <= k < |rows| ==> rows[k] == Row(v.apps[m[r.scroll + k]], r.scroll + k == v.selected))
            && (forall k :: 0 <= k < |rows| && rows[k].selected ==> v.selected < |m| && rows[k].app == v.apps[m[v.selected]])
            && ((exists k :: 0 <= k < |rows| && rows[k].selected) <==> m != [] && height >= PROMPT_HEIGHT + 4 + ROW_HEIGHT)
  {
    WindowHolds(v, height);
    var r, m := Scrolled(v, height), Matching(v.apps, v.query);
    var rows := Drawn(r, height);
    hide Matching;
    if m != [] && height >= PROMPT_HEIGHT + 4 + ROW_HEIGHT {
      assert rows[v.selected - r.scroll].selected;
    }
  }

  // ---- the sort in place -------------------------------------------------

  lemma {:induction false} InsertAt(x: App, s: seq<App>, j: nat)
    requires Ordered(s) && j <= |s|
    requires j > 0 ==> !Less(x.name, s[j - 1].name)
    requires forall k :: j <= k < |s| ==> Less(x.name, s[k].name)
    ensures Insert(x, s) == s[..j] + [x] + s[j..]
  {
    hide Less;
    if j > 0 {
      if Less(x.name, s[0].name) {
        BehindGreater(x, s);
      }
      InsertAt(x, s[1..], j - 1);
      BehindFirst(s, x, j);
    }
  }

  lemma {:induction false} BehindFirst<T>(s: seq<T>, x: T, j: nat)
    requires 0 < j <= |s|
    ensures [s[0]] + (s[1..][..j - 1] + [x] + s[1..][j - 1..]) == s[..j] + [x] + s[j..]
  {
    assert s[1..][..j - 1] == s[1..j] && s[1..][j - 1..] == s[j..];
  }

  lemma {:induction false} Shifted(t: seq<App>, s: seq<App>, x: App, j: nat)
    requires j <= |s| && |t| == |s| + 1 && t[j] == x
    requires forall k :: 0 <= k < j ==> t[k] == s[k]
    requires forall k :: j < k < |t| ==> t[k] == s[k - 1]
    ensures t == s[..j] + [x] + s[j..]
  {
  }

  /** Moves the entries below `i` that are greater than `x` up by one; the gap is at `j`. */
  method ShiftGreater(a: array<App>, i: nat, x: App) returns (j: nat)
    requires i < a.Length
    modifies a
    ensures j <= i && (j > 0 ==> !Less(x.name, old(a[j - 1]).name))
    ensures forall k :: 0 <= k < j || i < k < a.Length ==> a[k] == old(a[k])
    ensures forall k :: j < k <= i ==> a[k] == old(a[k - 1])
    ensures forall k :: j <= k < i ==> Less(x.name, old(a[k]).name)
  {
    hide Less;
    j := i;
    while j > 0 && Less(x.name, a[j - 1].name)
      invariant j <= i
      invariant forall k :: 0 <= k < j || i < k < a.Length ==> a[k] == old(a[k])
      invariant forall k :: j < k <= i ==> a[k] == old(a[k - 1])
      invariant forall k :: j <= k < i ==> Less(x.name, old(a[k]).name)
    {
      a[j] := a[j - 1];
      j := j - 1;
    }
  }

  /** Moves the greater entries up and puts entry `i` into the gap. */
  method InsertInto(a: array<App>, i: nat)
    requires i < a.Length && Ordered(a[..i])
    modifies a
    ensures a[..i + 1] == Insert(old(a[i]), old(a[..i]))
    ensures forall k :: i < k < a.Length ==> a[k] == old(a[k])
  {
    hide Less, Ordered, Insert;
    ghost var s := a[..i];
    var x := a[i];
    var j := ShiftGreater(a, i, x);
    a[j] := x;
    InsertAt(x, s, j);
    Shifted(a[..i + 1], s, x, j);
  }

  /** The sort at the end of `load_apps`. */
  method SortApps(a: array<App>, n: nat)
    requires n <= a.Length
    modifies a
    ensures a[..n] == Sort(old(a[..n]))
    ensures forall k :: n <= k < a.Length ==> a[k] == old(a[k])
  {
    ghost var s := a[..n];
    if n == 0 {
      return;
    }
    var i := 1;
    SortOne(s[0]);
    assert s[..1] == [s[0]] && a[..1] == [s[0]];
    while i < n
      invariant 1 <= i <= n
      invariant a[..i] == Sort(s[..i])
      invariant forall k :: i <= k < n ==> a[k] == s[k]
      invariant forall k :: n <= k < a.Length ==> a[k] == old(a[k])
    {
      SortStable(s[..i]);
      InsertInto(a, i);
      assert s[..i + 1][..i] == s[..i];
      i := i + 1;
    }
    assert s[..n] == s;
  }

  lemma {:induction false} SortOne(x: App)
    ensures Sort([x]) == [x]
  {
  }

  lemma {:induction false} MatchingStep(s: seq<App>, i: nat, query: JsString)
    requires i < |s|
    ensures Matching(s[..i + 1], query)
            == if Contains(s[i].name, query) then Matching(s[..i], query) + [i] else Matching(s[..i], query)
  {
    assert s[..i + 1][..i] == s[..i];
    assert Matching(s[..i], query) + [] == Matching(s[..i], query);
  }

  /** The filter loop. */
  method FillMatches(apps: array<App>, n: nat, query: JsString, found: array<nat>) returns (m: nat)
    requires n <= apps.Length && n <= found.Length
    modifies found
    ensures m <= n && found[..m] == Matching(apps[..n], query)
  {
    hide Matching, Contains;
    ghost var s := apps[..n];
    m := 0;
    assert s[..0] == [];
    EmptyMatches(query);
    for i := 0 to n
      invariant m <= i && found[..m] == Matching(s[..i], query)
    {
      MatchingStep(s, i, query);
      var hit := Matches(apps[i].name, query);
      if hit {
        found[m] := i;
        m := m + 1;
      }
    }
    assert s[..n] == s;
  }

  lemma {:induction false} EmptyMatches(query: JsString)
    ensures Matching([], query) == []
  {
  }

  // ---- the program -------------------------------------------------------

  class Menu {
    const apps: array<App>
    var nApps: nat
    const found: array<nat>
    var nFound: nat
    var selected: int
    var scroll: int
    var query: JsString
    var menu: bool
    var level: Level
    var running: bool

    /** Empty tables; `main` then enters the first level. */
    constructor (menu: bool)
      ensures Tables() && fresh(apps) && fresh(found)
      ensures State() == View([], [], 0, 0, menu, RootLevel, true)
    {
      this.menu, level, running := menu, RootLevel, true;
      nApps, nFound, selected, scroll, query := 0, 0, 0, 0, [];
      apps := new App[MAX_APPS](_ => Named([], []));
      found := new nat[MAX_APPS];
    }

    ghost predicate Tables()
      reads this
    {
      apps.Length == MAX_APPS && found.Length == MAX_APPS && nApps <= MAX_APPS && nFound <= MAX_APPS
    }

    ghost function State(): View
      requires Tables()
      reads this, apps
    {
      View(apps[..nApps], query, selected, scroll, menu, level, running)
    }

    /** The stored match table is that of the current entries and query. */
    ghost predicate Valid()
      reads this, apps, found
    {
      Tables() && found[..nFound] == Matching(apps[..nApps], query) && SelectionOk(State()) && scroll >= 0
    }

    method Refilter()
      requires Tables() && selected >= 0 && scroll >= 0
      modifies this, found
      ensures Valid() && State() == Refiltered(old(State()))
    {
      hide Matching;
      nFound := FillMatches(apps, nApps, query, found);
      if selected >= nFound {
        selected := if nFound > 0 then nFound - 1 else 0;
      }
    }

    /** Stores entries until the table is full. */
    method Store(entries: seq<App>)
      requires Tables()
      modifies this`nApps, apps
      ensures Tables() && apps[..nApps] == Stored(entries)
    {
      nApps := 0;
      while nApps < |entries| && nApps < MAX_APPS
        invariant nApps <= |entries| && Tables() && apps[..nApps] == entries[..nApps]
      {
        apps[nApps] := entries[nApps];
        nApps := nApps + 1;
      }
      assert nApps == |entries| ==> entries[..nApps] == entries;
    }

    method EnterLevel(lvl: Level, w: World)
      requires Tables()
      modifies this, apps, found
      ensures Valid() && State() == Entered(old(State()), lvl, w)
    {
      hide Sort, Matching, Chars;
      level := lvl;
      query, selected, scroll := [], 0, 0;
      match lvl {
        case RootLevel => Store(Entries(RootLevel, w));
        case AppsLevel =>
          Store(w.apps);
          SortApps(apps, nApps);
        case ThemesLevel => Store(w.themes);
      }
      Refilter();
    }

    /** The return key. */
    method Choose(w: World) returns (action: Action, dirty: bool)
      requires Valid()
      modifies this, apps, found
      ensures Valid() && Outcome(State(), action, dirty) == React(old(State()), Return, w)
    {
      hide Matching, Entries, Chars;
      action, dirty := NoAction, false;
      if nFound == 0 {
        running := false;
      } else if level.RootLevel? {
        EnterLevel(if apps[found[selected]].name == Chars("Theme") then ThemesLevel else AppsLevel, w);
        dirty := true;
      } else if level.ThemesLevel? {
        action := SwitchTheme(apps[found[selected]].name);
        running := false;
      } else {
        action := Execute(apps[found[selected]].value);
        running := false;
      }
    }

    /** One event. */
    method Handle(input: Input, w: World) returns (action: Action, dirty: bool)
      requires Valid()
      modifies this, apps, found
      ensures Valid() && Outcome(State(), action, dirty) == React(old(State()), input, w)
    {
      hide Matching, Entries, Chars;
      action, dirty := NoAction, false;
      match input {
        case Close => running := false;
        case Resize => dirty := true;
        case Escape =>
          if menu && !level.RootLevel? {
            EnterLevel(RootLevel, w);
            dirty := true;
          } else {
            running := false;
          }
        case Up =>
          if selected > 0 { selected := selected - 1; }
          dirty := true;
        case Down =>
          if selected + 1 < nFound { selected := selected + 1; }
          dirty := true;
        case Backspace =>
          if query != [] { query := query[..|query| - 1]; }
          Refilter();
          dirty := true;
        case Return => action, dirty := Choose(w);
        case OtherKey =>
        case Text(utf8) =>
          if utf8 != [] && 32 <= utf8[0] < 128 && |query| + |utf8| < QUERY_SIZE - 1 {
            query := query + utf8;
            Refilter();
            dirty := true;
          }
      }
    }

    /** The first half of a redraw: where the list starts. */
    method ScrollTo(height: int)
      requires Valid()
      modifies this`scroll
      ensures Valid() && State() == Scrolled(old(State()), height)
    {
      hide Matching;
      var visible := (height - (PROMPT_HEIGHT + 4)) / ROW_HEIGHT;
      if visible < 1 { visible := 1; }
      var most := nFound - visible;
      if most < 0 { most := 0; }
      if scroll > most { scroll := most; }
      if scroll > selected { scroll := selected; }
      if scroll < selected - visible + 1 { scroll := selected - visible + 1; }
    }

    /** The loop that draws the rows. */
    method DrawRows(height: int) returns (rows: seq<Row>)
      requires Valid()
      ensures rows == Drawn(State(), height)
    {
      hide Matching;
      rows := [];
      var i, y := scroll, PROMPT_HEIGHT + 4;
      while i < nFound && y + ROW_HEIGHT <= height
        invariant scroll <= i && |rows| == i - scroll && y == 58 + 40 * |rows|
        invariant |rows| > 0 ==> i <= nFound
        invariant |rows| <= Fit(height)
        invariant forall k :: 0 <= k < |rows| ==> rows[k] == Row(apps[found[scroll + k]], scroll + k == selected)
      {
        rows := rows + [Row(apps[found[i]], i == selected)];
        i := i + 1;
        y := y + ROW_HEIGHT;
      }
      assert forall i :: 0 <= i < nFound ==> found[i] == found[..nFound][i];
    }

    /** A redraw; returns the rows drawn from top to bottom. */
    method Render(height: int) returns (rows: seq<Row>)
      requires Valid()
      modifies this`scroll
      ensures Valid() && State() == Scrolled(old(State()), height) && rows == Drawn(State(), height)
    {
      hide Matching;
      ScrollTo(height);
      rows := DrawRows(height);
    }
  }
}
