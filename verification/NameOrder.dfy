/**
  Directory listings sorted by name.

  `Sort` is the stable sort that JavaScript's `Array.prototype.sort` computes with a
  comparator on names. `SortIgnoresOrder` is the law that makes the two directory
  walks independent of the order in which entries were listed.
 */
module NameOrder {
  import opened Basics
  import opened Unicode

  /** JavaScript's `<` on strings: by UTF-16 unit. */
  predicate Less(a: JsString, b: JsString)
  {
    b != [] && (a == [] || a[0] < b[0] || (a[0] == b[0] && Less(a[1..], b[1..])))
  }

  lemma {:induction false} LessIrreflexive(a: JsString)
    ensures !Less(a, a)
  {
    if a != [] {
      LessIrreflexive(a[1..]);
    }
  }

  lemma {:induction false} LessTotal(a: JsString, b: JsString)
    ensures Less(a, b) || a == b || Less(b, a)
    ensures !(Less(a, b) && Less(b, a))
  {
    if a != [] && b != [] {
      LessTotal(a[1..], b[1..]);
      assert a == [a[0]] + a[1..] && b == [b[0]] + b[1..];
    }
  }

  lemma {:induction false} LessTransitive(a: JsString, b: JsString, c: JsString)
    requires Less(a, b) && Less(b, c)
    ensures Less(a, c)
  {
    if a != [] && a[0] == b[0] == c[0] {
      LessTransitive(a[1..], b[1..], c[1..]);
    }
  }

  /** At the first difference the smaller unit comes first, and a name before those it begins. */
  lemma {:induction false} LessExact(a: JsString, b: JsString)
    ensures Less(a, b) <==> exists k :: DiffersAt(a, b, k) && (k == |a| || a[k] < b[k])
  {
    if a != [] && b != [] && a[0] == b[0] {
      LessExact(a[1..], b[1..]);
      assert a == [a[0]] + a[1..] && b == [b[0]] + b[1..];
      if k :| DiffersAt(a[1..], b[1..], k) && (k == |a| - 1 || a[1..][k] < b[1..][k]) {
        assert a[..k + 1] == [a[0]] + a[1..][..k] && b[..k + 1] == [b[0]] + b[1..][..k];
        assert DiffersAt(a, b, k + 1);
      }
      if k :| DiffersAt(a, b, k) && (k == |a| || a[k] < b[k]) {
        assert k > 0;
        assert a[1..][..k - 1] == a[..k][1..] && b[1..][..k - 1] == b[..k][1..];
        assert DiffersAt(a[1..], b[1..], k - 1);
      }
    } else {
      assert b != [] && (a == [] || a[0] != b[0]) ==> DiffersAt(a, b, 0);
    }
  }

  /** The names agree before place `k`; there `b` goes on, and `a` has ended or has another unit. */
  predicate DiffersAt(a: JsString, b: JsString, k: int)
  {
    0 <= k <= |a| && k < |b| && a[..k] == b[..k] && (k == |a| || a[k] != b[k])
  }

  // ---- listings ----------------------------------------------------------

  datatype Named<T> = Named(name: JsString, value: T)

  predicate Distinct<T>(s: seq<Named<T>>)
  {
    forall i, j :: 0 <= i < j < |s| ==> s[i].name != s[j].name
  }

  predicate Ascending<T>(s: seq<Named<T>>)
  {
    forall i, j :: 0 <= i < j < |s| ==> Less(s[i].name, s[j].name)
  }

  ghost predicate SameEntries<T(!new)>(a: seq<Named<T>>, b: seq<Named<T>>)
  {
    forall x :: x in a <==> x in b
  }

  /** `x` goes behind every entry that is not greater. */
  function Insert<T>(x: Named<T>, s: seq<Named<T>>): seq<Named<T>>
  {
    if s == [] || Less(x.name, s[0].name) then [x] + s else [s[0]] + Insert(x, s[1..])
  }

  function Sort<T>(s: seq<Named<T>>): seq<Named<T>>
  {
    if s == [] then [] else Insert(s[|s| - 1], Sort(s[..|s| - 1]))
  }

  lemma {:induction false} InsertMembers<T>(x: Named<T>, s: seq<Named<T>>, y: Named<T>)
    ensures y in Insert(x, s) <==> y == x || y in s
  {
    if s != [] && !Less(x.name, s[0].name) {
      InsertMembers(x, s[1..], y);
      assert s == [s[0]] + s[1..];
    }
  }

  lemma {:induction false} InsertAscending<T(!new)>(x: Named<T>, s: seq<Named<T>>)
    requires Ascending(s) && forall y :: y in s ==> y.name != x.name
    ensures Ascending(Insert(x, s))
  {
    if s == [] {
    } else if Less(x.name, s[0].name) {
      forall j | 0 <= j < |s| ensures Less(x.name, s[j].name) {
        if j > 0 {
          LessTransitive(x.name, s[0].name, s[j].name);
        }
      }
    } else {
      var r := Insert(x, s[1..]);
      assert s[0] in s;
      LessTotal(x.name, s[0].name);
      assert forall y :: y in s[1..] ==> y in s;
      InsertAscending(x, s[1..]);
      forall j | 0 <= j < |r| ensures Less(s[0].name, r[j].name) {
        var y := r[j];
        assert y in r;
        InsertMembers(x, s[1..], y);
      }
    }
  }

  /** Sorting keeps the entries, and distinct names come out strictly ascending. */
  lemma {:induction false} SortCorrect<T(!new)>(s: seq<Named<T>>)
    requires Distinct(s)
    ensures Ascending(Sort(s)) && SameEntries(Sort(s), s)
  {
    if s != [] {
      var x, front := s[|s| - 1], s[..|s| - 1];
      SortCorrect(front);
      assert s == front + [x];
      forall y | y in Sort(front) ensures y.name != x.name {
        assert y in front;
      }
      InsertAscending(x, Sort(front));
      forall y ensures y in Sort(s) <==> y in s {
        InsertMembers(x, Sort(front), y);
      }
    }
  }

  lemma {:induction false} HeadIsLeast<T(!new)>(a: seq<Named<T>>, b: seq<Named<T>>)
    requires Ascending(a) && Ascending(b) && SameEntries(a, b) && a != [] && b != []
    ensures a[0] == b[0]
  {
    var x, y := a[0], b[0];
    assert x in a && y in b;
    var i :| 0 <= i < |b| && b[i] == x;
    var j :| 0 <= j < |a| && a[j] == y;
    LessTotal(x.name, y.name);
  }

  lemma {:induction false} AscendingUnique<T(!new)>(a: seq<Named<T>>, b: seq<Named<T>>)
    requires Ascending(a) && Ascending(b) && SameEntries(a, b)
    ensures a == b
  {
    assert a != [] ==> a[0] in a;
    assert b != [] ==> b[0] in b;
    if a != [] && b != [] {
      HeadIsLeast(a, b);
      TailMembers(a);
      TailMembers(b);
      AscendingUnique(a[1..], b[1..]);
      assert a == [a[0]] + a[1..] && b == [b[0]] + b[1..];
    }
  }

  lemma {:induction false} TailMembers<T(!new)>(a: seq<Named<T>>)
    requires Ascending(a) && a != []
    ensures Ascending(a[1..]) && forall x :: x in a[1..] <==> x in a && x != a[0]
  {
    LessIrreflexive(a[0].name);
    assert a == [a[0]] + a[1..];
  }

  /** Two listings of the same distinct entries sort to the same list. */
  lemma {:induction false} SortIgnoresOrder<T(!new)>(a: seq<Named<T>>, b: seq<Named<T>>)
    requires Distinct(a) && Distinct(b) && SameEntries(a, b)
    ensures Sort(a) == Sort(b)
  {
    SortCorrect(a);
    SortCorrect(b);
    AscendingUnique(Sort(a), Sort(b));
  }

  // ---- listings whose names may repeat -----------------------------------

  /** Never descending. */
  predicate Ordered<T>(s: seq<Named<T>>)
  {
    forall i, j :: 0 <= i < j < |s| ==> !Less(s[j].name, s[i].name)
  }

  /** The entries of one name, in order. */
  function With<T>(s: seq<Named<T>>, name: JsString): seq<Named<T>>
  {
    if s == [] then [] else With(s[..|s| - 1], name) + (if s[|s| - 1].name == name then [s[|s| - 1]] else [])
  }

  lemma {:induction false} WithAppend<T>(a: seq<Named<T>>, b: seq<Named<T>>, name: JsString)
    ensures With(a + b, name) == With(a, name) + With(b, name)
    decreases b
  {
    if b == [] {
      assert a + b == a;
    } else {
      WithAppend(a, b[..|b| - 1], name);
      assert (a + b)[..|a + b| - 1] == a + b[..|b| - 1];
    }
  }

  lemma {:induction false} WithOne<T>(x: Named<T>, name: JsString)
    ensures With([x], name) == if x.name == name then [x] else []
  {
  }

  lemma {:induction false} WithNone<T>(s: seq<Named<T>>, name: JsString)
    requires forall i :: 0 <= i < |s| ==> s[i].name != name
    ensures With(s, name) == []
  {
    if s != [] {
      WithNone(s[..|s| - 1], name);
    }
  }

  lemma {:induction false} BehindGreater<T>(x: Named<T>, s: seq<Named<T>>)
    requires Ordered(s) && s != [] && Less(x.name, s[0].name)
    ensures forall i :: 0 <= i < |s| ==> Less(x.name, s[i].name) && s[i].name != x.name
  {
    forall i | 0 <= i < |s| ensures Less(x.name, s[i].name) && s[i].name != x.name {
      LessTotal(s[0].name, s[i].name);
      if Less(s[0].name, s[i].name) {
        LessTransitive(x.name, s[0].name, s[i].name);
      }
      LessIrreflexive(x.name);
    }
  }

  lemma {:induction false} InsertOrdered<T(!new)>(x: Named<T>, s: seq<Named<T>>)
    requires Ordered(s)
    ensures Ordered(Insert(x, s))
  {
    if s == [] {
    } else if Less(x.name, s[0].name) {
      BehindGreater(x, s);
      forall i | 0 <= i < |s| ensures !Less(s[i].name, x.name) {
        LessTotal(x.name, s[i].name);
      }
    } else {
      var r := Insert(x, s[1..]);
      InsertOrdered(x, s[1..]);
      forall j | 0 <= j < |r| ensures !Less(r[j].name, s[0].name) {
        var y := r[j];
        assert y in r;
        InsertMembers(x, s[1..], y);
      }
    }
  }

  lemma {:induction false} InsertStable<T>(x: Named<T>, s: seq<Named<T>>, name: JsString)
    requires Ordered(s)
    ensures With(Insert(x, s), name) == With(s + [x], name)
  {
    hide With, Less;
    WithOne(x, name);
    WithAppend(s, [x], name);
    if s == [] {
      assert Insert(x, s) == s + [x];
    } else if Less(x.name, s[0].name) {
      WithAppend([x], s, name);
      BehindGreater(x, s);
      if name == x.name {
        WithNone(s, name);
      }
    } else {
      InsertStable(x, s[1..], name);
      assert s == [s[0]] + s[1..];
      assert Insert(x, s) == [s[0]] + Insert(x, s[1..]);
      hide Insert, Ordered;
      WithAppend([s[0]], Insert(x, s[1..]), name);
      WithAppend([s[0]], s[1..], name);
      WithAppend(s[1..], [x], name);
      Assoc(With([s[0]], name), With(s[1..], name), With([x], name));
    }
  }

  /** Sorting never leaves a descent and keeps entries of equal name in their order. */
  lemma {:induction false} SortStable<T(!new)>(s: seq<Named<T>>)
    ensures Ordered(Sort(s)) && forall name :: With(Sort(s), name) == With(s, name)
  {
    if s != [] {
      var x, front := s[|s| - 1], s[..|s| - 1];
      SortStable(front);
      InsertOrdered(x, Sort(front));
      forall name ensures With(Sort(s), name) == With(s, name) {
        InsertStable(x, Sort(front), name);
        WithAppend(Sort(front), [x], name);
        WithAppend(front, [x], name);
        assert s == front + [x];
      }
    }
  }

  lemma {:induction false} InsertPermutes<T>(x: Named<T>, s: seq<Named<T>>)
    ensures multiset(Insert(x, s)) == multiset(s) + multiset{x}
  {
    if s != [] && !Less(x.name, s[0].name) {
      InsertPermutes(x, s[1..]);
      assert s == [s[0]] + s[1..];
    }
  }

  lemma {:induction false} SortPermutes<T>(s: seq<Named<T>>)
    ensures multiset(Sort(s)) == multiset(s)
  {
    if s != [] {
      SortPermutes(s[..|s| - 1]);
      InsertPermutes(s[|s| - 1], Sort(s[..|s| - 1]));
      assert s == s[..|s| - 1] + [s[|s| - 1]];
    }
  }

  lemma {:induction false} SortLength<T>(s: seq<Named<T>>)
    ensures |Sort(s)| == |s|
  {
    SortPermutes(s);
    SameLength(Sort(s), s);
  }

  lemma {:induction false} SortMembers<T>(s: seq<Named<T>>, x: Named<T>)
    ensures x in Sort(s) <==> x in s
    decreases s
  {
    if s != [] {
      var n := |s| - 1;
      assert s == s[..n] + [s[n]];
      SortMembers(s[..n], x);
      InsertMembers(s[n], Sort(s[..n]), x);
    }
  }
}
