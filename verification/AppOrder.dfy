/**
  The launcher's application list and the order of the directory it is read from.

  Entries are read until 32 are stored and then sorted by name. The list is said not
  to depend on readdir. `OrderIndependentIff` gives the exact condition: at most 32
  entries and no two different ones of one name, or all entries equal.
 */
module AppOrder {
  import opened Basics
  import opened Unicode
  import opened NameOrder

  const MAX_APPS: nat := 32

  /** A C string is a sequence of unsigned bytes; `value` is the command. */
  type App = Named<JsString>

  /** At most 32 entries are stored. */
  function Stored(a: seq<App>): (r: seq<App>)
    ensures r <= a && |r| == if |a| < MAX_APPS then |a| else MAX_APPS
  {
    if |a| <= MAX_APPS then a else a[..MAX_APPS]
  }

  /** The list for the entries in readdir order. */
  function LoadedApps(a: seq<App>): (r: seq<App>)
  {
    Sort(Stored(a))
  }

  predicate TiesEqual(a: seq<App>)
  {
    forall i, j :: 0 <= i < |a| && 0 <= j < |a| && a[i].name == a[j].name ==> a[i] == a[j]
  }

  predicate AllEqual(a: seq<App>)
  {
    forall i, j :: 0 <= i < |a| && 0 <= j < |a| ==> a[i] == a[j]
  }

  ghost predicate OrderIndependent(a: seq<App>)
  {
    forall b, c :: multiset(b) == multiset(a) && multiset(c) == multiset(a) ==> LoadedApps(b) == LoadedApps(c)
  }

  // ---- the condition is enough -------------------------------------------

  lemma {:induction false} SameElement(a: seq<App>, b: seq<App>, i: nat) returns (j: nat)
    requires multiset(a) == multiset(b) && i < |a|
    ensures j < |b| && b[j] == a[i]
  {
    var x := a[i];
    assert x in multiset(a) && x in multiset(b);
    j :| 0 <= j < |b| && b[j] == x;
  }

  lemma {:induction false} TiesCarryOver(a: seq<App>, b: seq<App>)
    requires multiset(a) == multiset(b) && TiesEqual(a)
    ensures TiesEqual(b)
  {
    forall i, j | 0 <= i < |b| && 0 <= j < |b| && b[i].name == b[j].name ensures b[i] == b[j] {
      var k := SameElement(b, a, i);
      var l := SameElement(b, a, j);
    }
  }

  lemma {:induction false} LeastFirst(a: seq<App>, b: seq<App>)
    requires Ordered(a) && Ordered(b) && multiset(a) == multiset(b) && TiesEqual(a) && a != [] && b != []
    ensures a[0] == b[0]
  {
    var i := SameElement(a, b, 0);
    var j := SameElement(b, a, 0);
    LessTotal(a[0].name, b[0].name);
    assert i == 0 || !Less(b[i].name, b[0].name);
    assert j == 0 || !Less(a[j].name, a[0].name);
  }

  lemma {:induction false} TailKeeps(a: seq<App>)
    requires Ordered(a) && a != []
    ensures Ordered(a[1..]) && (TiesEqual(a) ==> TiesEqual(a[1..]))
    ensures multiset(a[1..]) == multiset(a) - multiset{a[0]}
  {
    hide Less;
    assert a == [a[0]] + a[1..];
  }

  lemma {:induction false} OrderedUnique(a: seq<App>, b: seq<App>)
    requires Ordered(a) && Ordered(b) && multiset(a) == multiset(b) && TiesEqual(a)
    ensures a == b
  {
    hide Ordered, TiesEqual;
    SameLength(a, b);
    if a != [] {
      LeastFirst(a, b);
      TailKeeps(a);
      TailKeeps(b);
      OrderedUnique(a[1..], b[1..]);
      assert a == [a[0]] + a[1..] && b == [b[0]] + b[1..];
    }
  }

  lemma {:induction false} TiesSuffice(a: seq<App>, b: seq<App>, c: seq<App>)
    requires |a| <= MAX_APPS && TiesEqual(a) && multiset(b) == multiset(a) && multiset(c) == multiset(a)
    ensures LoadedApps(b) == LoadedApps(c)
  {
    SameLength(a, b);
    SameLength(a, c);
    SortStable(b);
    SortStable(c);
    SortPermutes(b);
    SortPermutes(c);
    TiesCarryOver(a, Sort(b));
    OrderedUnique(Sort(b), Sort(c));
  }

  lemma {:induction false} AllEqualSuffices(a: seq<App>, b: seq<App>, c: seq<App>)
    requires AllEqual(a) && multiset(b) == multiset(a) && multiset(c) == multiset(a)
    ensures b == c
  {
    SameLength(a, b);
    SameLength(a, c);
    forall i | 0 <= i < |b| ensures b[i] == c[i] {
      var j := SameElement(b, a, i);
      var k := SameElement(c, a, i);
    }
  }

  // ---- and it is needed --------------------------------------------------

  function Without(a: seq<App>, i: nat, j: nat): seq<App>
    requires i < j < |a|
  {
    a[..i] + a[i + 1..j] + a[j + 1..]
  }

  /** `x` and `y` side by side in the middle of the others. */
  function Placed(rest: seq<App>, k: nat, x: App, y: App): seq<App>
    requires k <= |rest|
  {
    rest[..k] + [x] + [y] + rest[k..]
  }

  lemma {:induction false} PlacedPermutes(a: seq<App>, i: nat, j: nat, k: nat)
    requires i < j < |a| && k <= |a| - 2
    ensures multiset(Placed(Without(a, i, j), k, a[i], a[j])) == multiset(a)
    ensures multiset(Placed(Without(a, i, j), k, a[j], a[i])) == multiset(a)
  {
    var rest := Without(a, i, j);
    assert a == a[..i] + [a[i]] + a[i + 1..j] + [a[j]] + a[j + 1..];
    assert rest == rest[..k] + rest[k..];
    assert multiset(a) == multiset(rest) + multiset{a[i], a[j]};
  }

  lemma {:induction false} CutDiffers(rest: seq<App>, x: App, y: App)
    requires |rest| >= MAX_APPS - 1 && x != y
    ensures LoadedApps(Placed(rest, MAX_APPS - 1, x, y)) != LoadedApps(Placed(rest, MAX_APPS - 1, y, x))
  {
    var b, c := Placed(rest, MAX_APPS - 1, x, y), Placed(rest, MAX_APPS - 1, y, x);
    var r := rest[..MAX_APPS - 1];
    assert Stored(b) == r + [x] && Stored(c) == r + [y];
    SortPermutes(r + [x]);
    SortPermutes(r + [y]);
    assert multiset(r + [x])[x] == multiset(r)[x] + 1;
    assert multiset(r + [y])[x] == multiset(r)[x];
  }

  lemma {:induction false} TieDiffers(rest: seq<App>, x: App, y: App)
    requires |rest| + 2 <= MAX_APPS && x != y && x.name == y.name
    ensures LoadedApps(Placed(rest, 0, x, y)) != LoadedApps(Placed(rest, 0, y, x))
  {
    var b, c := Placed(rest, 0, x, y), Placed(rest, 0, y, x);
    SortStable(b);
    SortStable(c);
    FirstWith(rest, x, y);
    FirstWith(rest, y, x);
  }

  lemma {:induction false} FirstWith(rest: seq<App>, x: App, y: App)
    ensures var w := With(Placed(rest, 0, x, y), x.name); |w| > 0 && w[0] == x
  {
    var tail := [y] + rest;
    assert Placed(rest, 0, x, y) == [x] + tail;
    WithAppend([x], tail, x.name);
    WithOne(x, x.name);
  }

  lemma {:induction false} Witness(a: seq<App>, i: nat, j: nat, k: nat)
    requires i < j < |a| && k <= |a| - 2
    requires LoadedApps(Placed(Without(a, i, j), k, a[i], a[j])) != LoadedApps(Placed(Without(a, i, j), k, a[j], a[i]))
    ensures !OrderIndependent(a)
  {
    hide LoadedApps, Placed, Without;
    PlacedPermutes(a, i, j, k);
  }

  lemma {:induction false} ConditionNeeded(a: seq<App>)
    requires !(|a| <= MAX_APPS && TiesEqual(a)) && !AllEqual(a)
    ensures !OrderIndependent(a)
  {
    hide OrderIndependent, LoadedApps, Placed;
    if |a| > MAX_APPS {
      var i, j :| 0 <= i < j < |a| && a[i] != a[j];
      CutDiffers(Without(a, i, j), a[i], a[j]);
      Witness(a, i, j, MAX_APPS - 1);
    } else {
      var i, j :| 0 <= i < j < |a| && a[i].name == a[j].name && a[i] != a[j];
      TieDiffers(Without(a, i, j), a[i], a[j]);
      Witness(a, i, j, 0);
    }
  }

  /** Exactly when the list does not depend on the order of the directory. */
  lemma {:induction false} OrderIndependentIff(a: seq<App>)
    ensures OrderIndependent(a) <==> (|a| <= MAX_APPS && TiesEqual(a)) || AllEqual(a)
  {
    hide LoadedApps, TiesEqual, AllEqual;
    if |a| <= MAX_APPS && TiesEqual(a) {
      forall b, c | multiset(b) == multiset(a) && multiset(c) == multiset(a) ensures LoadedApps(b) == LoadedApps(c) {
        TiesSuffice(a, b, c);
      }
    } else if AllEqual(a) {
      forall b, c | multiset(b) == multiset(a) && multiset(c) == multiset(a) ensures LoadedApps(b) == LoadedApps(c) {
        AllEqualSuffices(a, b, c);
      }
    } else {
      ConditionNeeded(a);
    }
  }

  /** Two files that give one name to different commands are listed in readdir order. */
  lemma {:induction false} ReaddirOrderCanShow()
    ensures !OrderIndependent([Named([65], [1]), Named([65], [2])])
  {
    var a: seq<App> := [Named([65], [1]), Named([65], [2])];
    assert a[0].name == a[1].name && a[0] != a[1];
    OrderIndependentIff(a);
  }
}
