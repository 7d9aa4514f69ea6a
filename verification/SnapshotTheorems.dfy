/**
  What a persistence snapshot says.

  It does not depend on listing order although the budgets are spent greedily, and
  it stays within its budgets.
 */
module SnapshotTheorems {
  import opened Basics
  import opened Unicode
  import opened NameOrder
  import opened DirectoryTree
  import opened Snapshot

  /** No directory lists a name twice. */
  ghost predicate Proper(host: Host)
  {
    forall d :: d in host.dirs ==> Distinct(host.dirs[d])
  }

  // ---- listing order -----------------------------------------------------

  ghost predicate SameMachine(h: Host, k: Host)
  {
    && h.root == k.root && h.files == k.files && h.dirs.Keys == k.dirs.Keys
    && forall d :: d in h.dirs ==> SameEntries(h.dirs[d], k.dirs[d])
  }

  lemma {:induction false} VisitIgnoresOrder(h: Host, k: Host, st: State)
    requires Proper(h) && Proper(k) && SameMachine(h, k) && |st.result| <= MAX_ENTRIES
    ensures Visit(h, st) == Visit(k, st)
    decreases MAX_ENTRIES - |st.result| + |st.queue|
  {
    hide VisitAll, Sort, SameEntries, Distinct;
    if st.queue != [] && st.queue[0] in h.dirs {
      var d := st.queue[0];
      SortIgnoresOrder(h.dirs[d], k.dirs[d]);
      var next := VisitAll(h.files, d, Sort(h.dirs[d]), st.(queue := st.queue[1..]));
      if next.Some? {
        VisitIgnoresOrder(h, k, next.value);
      }
    }
  }

  /** The snapshot, or the failure to take one, is a function of the tree alone. */
  lemma {:induction false} ListingOrderIrrelevant(h: Host, k: Host)
    requires Proper(h) && Proper(k) && SameMachine(h, k)
    ensures Inspect(h) == Inspect(k)
  {
    hide Visit, Sort;
    if h.root.Some? {
      VisitIgnoresOrder(h, k, Start(h.root.value));
    }
  }

  // ---- budgets -----------------------------------------------------------

  function HashedBytes(s: seq<FixtureEntry>): nat
  {
    if s == [] then 0 else HashedBytes(s[..|s| - 1]) + HashCost(s[|s| - 1])
  }

  function SampledBytes(s: seq<FixtureEntry>): nat
  {
    if s == [] then 0 else SampledBytes(s[..|s| - 1]) + SampleCostOf(s[|s| - 1])
  }

  function HashCost(e: FixtureEntry): nat { if e.value.sha.Some? then |e.value.sha.value| else 0 }
  function SampleCostOf(e: FixtureEntry): nat { if e.value.sample.Some? then |e.value.sample.value| else 0 }

  /** Bytes fed to digests and bytes left always add up to the two limits. */
  predicate Conserved(st: State)
  {
    && HashedBytes(st.result) + st.left.file == MAX_TOTAL_FILE_BYTES
    && SampledBytes(st.result) + st.left.sample == MAX_TOTAL_SAMPLE_BYTES
  }

  lemma {:induction false} SamplesLength(files: Files, path: JsString, offsets: seq<nat>, length: nat)
    requires Samples(files, path, offsets, length).Some?
    ensures |Samples(files, path, offsets, length).value| == |offsets| * length
  {
    if offsets != [] {
      var front := offsets[..|offsets| - 1];
      SamplesLength(files, path, front, length);
      assert |offsets| * length == |front| * length + length;
    }
  }

  lemma {:induction false} DescribeConserves(files: Files, path: JsString, stat: Stat, b: Budgets)
    requires Describe(files, path, stat, b).Some?
    ensures var d := Describe(files, path, stat, b).value; var e := Named(path, d.meta);
            HashCost(e) + d.left.file == b.file && SampleCostOf(e) + d.left.sample == b.sample
  {
    hide Offsets, Samples;
    if IsRegular(stat.mode) && stat.size > b.file && SampleCost(stat.size) <= b.sample {
      SamplesLength(files, path, Offsets(stat.size), SampleLength(stat.size));
    }
  }

  lemma {:induction false} CostSnoc(s: seq<FixtureEntry>, e: FixtureEntry)
    ensures HashedBytes(s + [e]) == HashedBytes(s) + HashCost(e)
    ensures SampledBytes(s + [e]) == SampledBytes(s) + SampleCostOf(e)
  {
    hide HashCost, SampleCostOf;
    assert (s + [e])[..|s|] == s;
  }

  lemma {:induction false} ChildConserves(files: Files, dir: JsString, child: Named<Stat>, st: State)
    requires Conserved(st) && VisitChild(files, dir, child, st).Some?
    ensures Conserved(VisitChild(files, dir, child, st).value)
  {
    hide Describe, HashCost, SampleCostOf, HashedBytes, SampledBytes, Join, BadName, IsDirectory;
    var path := Join(dir, child.name);
    DescribeConserves(files, path, child.value, st.left);
    CostSnoc(st.result, Named(path, Describe(files, path, child.value, st.left).value.meta));
  }

  lemma {:induction false} AllConserve(files: Files, dir: JsString, items: seq<Named<Stat>>, st: State)
    requires Conserved(st) && |st.result| <= MAX_ENTRIES && VisitAll(files, dir, items, st).Some?
    ensures Conserved(VisitAll(files, dir, items, st).value)
    decreases items
  {
    hide Conserved, VisitChild;
    if items != [] {
      ChildConserves(files, dir, items[0], st);
      AllConserve(files, dir, items[1..], VisitChild(files, dir, items[0], st).value);
    }
  }

  lemma {:induction false} VisitConserves(host: Host, st: State)
    requires Conserved(st) && |st.result| <= MAX_ENTRIES && Visit(host, st).Some?
    ensures Conserved(Visit(host, st).value)
    decreases MAX_ENTRIES - |st.result| + |st.queue|
  {
    hide VisitAll, Sort;
    if st.queue != [] {
      var d, popped := st.queue[0], st.(queue := st.queue[1..]);
      assert Conserved(popped);
      hide Conserved;
      AllConserve(host.files, d, Sort(host.dirs[d]), popped);
      VisitConserves(host, VisitAll(host.files, d, Sort(host.dirs[d]), popped).value);
    }
  }

  lemma {:induction false} InsertCost(x: FixtureEntry, s: seq<FixtureEntry>)
    ensures HashedBytes(Insert(x, s)) == HashedBytes(s) + HashCost(x)
    ensures SampledBytes(Insert(x, s)) == SampledBytes(s) + SampleCostOf(x)
  {
    hide HashCost, SampleCostOf, Less;
    if s == [] || Less(x.name, s[0].name) {
      CostAppend([x], s);
    } else {
      InsertCost(x, s[1..]);
      CostAppend([s[0]], Insert(x, s[1..]));
      CostAppend([s[0]], s[1..]);
      assert s == [s[0]] + s[1..];
    }
  }

  lemma {:induction false} CostAppend(a: seq<FixtureEntry>, b: seq<FixtureEntry>)
    ensures HashedBytes(a + b) == HashedBytes(a) + HashedBytes(b)
    ensures SampledBytes(a + b) == SampledBytes(a) + SampledBytes(b)
    ensures |a| == 1 ==> HashedBytes(a) == HashCost(a[0]) && SampledBytes(a) == SampleCostOf(a[0])
    decreases b
  {
    hide HashCost, SampleCostOf;
    assert |a| == 1 ==> a[..0] == [];
    if b == [] {
      assert a + b == a;
    } else {
      CostAppend(a, b[..|b| - 1]);
      assert (a + b)[..|a + b| - 1] == a + b[..|b| - 1];
    }
  }

  lemma {:induction false} SortCost(s: seq<FixtureEntry>)
    ensures HashedBytes(Sort(s)) == HashedBytes(s) && SampledBytes(Sort(s)) == SampledBytes(s)
  {
    hide HashCost, SampleCostOf;
    if s != [] {
      SortCost(s[..|s| - 1]);
      InsertCost(s[|s| - 1], Sort(s[..|s| - 1]));
    }
  }

  /** A snapshot never digests more than 32 MiB of whole files and 8 MiB of samples. */
  lemma {:induction false} WithinBudgets(host: Host)
    requires Inspect(host).Some?
    ensures HashedBytes(Inspect(host).value) <= MAX_TOTAL_FILE_BYTES
    ensures SampledBytes(Inspect(host).value) <= MAX_TOTAL_SAMPLE_BYTES
  {
    hide Visit, Sort, Root;
    var start := Start(host.root.value);
    CostAppend(start.result, []);
    assert Conserved(start);
    VisitConserves(host, start);
    SortCost(Visit(host, start).value.result);
  }
}
