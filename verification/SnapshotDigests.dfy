/**
  Which entries a snapshot digests.

  The budgets are spent greedily in visiting order: a regular file is hashed whole
  exactly while it fits what the files before it left of 32 MiB, and otherwise sampled
  exactly while its samples fit what is left of 8 MiB. `GreedyExact` is that rule over
  every run. When all files together fit 32 MiB, equal snapshots mean equal contents.
 */
module SnapshotDigests {
  import opened Basics
  import opened Unicode
  import opened NameOrder
  import opened DirectoryTree
  import opened Snapshot
  import opened SnapshotTheorems
  import opened SnapshotTree

  // ---- the samples of a file ---------------------------------------------

  /** How many bytes are sampled: the whole of a small file, else up to three blocks. */
  function SampledSize(size: nat): nat
  {
    if size <= 4096 then size else if size == 4097 then 8192 else 12288
  }

  /** The samples are taken at the start, in the middle and at the end. */
  lemma {:induction false} OffsetsExact(size: nat)
    ensures SampleCost(size) == SampledSize(size)
    ensures Offsets(size) == if size <= 4096 then [0] else if size == 4097 then [0, 1]
                             else [0, (size - 4096) / 2, size - 4096]
  {
    hide Dedup;
    var room: nat := size - SampleLength(size);
    DedupThree(room / 2, room);
  }

  /** They are fed to the digest one after the other. */
  lemma {:induction false} SamplesAre(files: Files, path: JsString, offsets: seq<nat>, length: nat)
    ensures Samples(files, path, offsets, length).Some?
            <==> forall i :: 0 <= i < |offsets| ==> path in files && offsets[i] + length <= |files[path]|
    ensures Samples(files, path, offsets, length).Some? && |offsets| > 0 ==>
              var n := |offsets| - 1;
              Samples(files, path, offsets, length).value
              == Samples(files, path, offsets[..n], length).value + files[path][offsets[n]..offsets[n] + length]
  {
    if offsets != [] {
      var n := |offsets| - 1;
      SamplesAre(files, path, offsets[..n], length);
      assert forall i :: 0 <= i < n ==> offsets[..n][i] == offsets[i];
    }
  }

  // ---- the rule ----------------------------------------------------------

  /** What is recorded of `e` when the entries of `before` were visited first. */
  predicate Fed(before: seq<FixtureEntry>, e: FixtureEntry)
  {
    var m, size := e.value, e.value.stat.size;
    var fits := size <= MAX_TOTAL_FILE_BYTES - HashedBytes(before);
    var sampled := size > 0 && SampledSize(size) <= MAX_TOTAL_SAMPLE_BYTES - SampledBytes(before);
    if !IsRegular(m.stat.mode) then m.sha.None? && m.sample.None?
    else if fits then m.sha.Some? && m.sample.None?
    else m.sha.None? && (m.sample.Some? <==> sampled)
  }

  ghost predicate AllFed(result: seq<FixtureEntry>)
  {
    forall i :: 0 <= i < |result| ==> Fed(result[..i], result[i])
  }

  lemma {:induction false} DescribeFed(files: Files, path: JsString, stat: Stat, before: seq<FixtureEntry>, b: Budgets)
    requires HashedBytes(before) + b.file == MAX_TOTAL_FILE_BYTES
    requires SampledBytes(before) + b.sample == MAX_TOTAL_SAMPLE_BYTES
    requires Describe(files, path, stat, b).Some?
    ensures Fed(before, Named(path, Describe(files, path, stat, b).value.meta))
  {
    OffsetsExact(stat.size);
    hide Offsets, Samples, HashedBytes, SampledBytes, Whole;
  }

  lemma {:induction false} FedSnoc(result: seq<FixtureEntry>, e: FixtureEntry)
    requires AllFed(result) && Fed(result, e)
    ensures AllFed(result + [e])
  {
    hide Fed;
    var all := result + [e];
    forall i | 0 <= i < |all|
      ensures Fed(all[..i], all[i])
    {
      assert i < |result| ==> all[..i] == result[..i];
      assert i == |result| ==> all[..i] == result;
    }
  }

  lemma {:induction false} ChildFed(files: Files, dir: JsString, child: Named<Stat>, st: State)
    requires Conserved(st) && AllFed(st.result) && VisitChild(files, dir, child, st).Some?
    ensures AllFed(VisitChild(files, dir, child, st).value.result)
  {
    hide Describe, Fed, AllFed, Join, BadName, IsDirectory, HashedBytes, SampledBytes;
    var path := Join(dir, child.name);
    DescribeFed(files, path, child.value, st.result, st.left);
    FedSnoc(st.result, Named(path, Describe(files, path, child.value, st.left).value.meta));
  }

  lemma {:induction false} ItemsFed(files: Files, dir: JsString, items: seq<Named<Stat>>, st: State)
    requires Conserved(st) && AllFed(st.result) && |st.result| <= MAX_ENTRIES && VisitAll(files, dir, items, st).Some?
    ensures AllFed(VisitAll(files, dir, items, st).value.result)
    decreases items
  {
    hide Conserved, VisitChild, AllFed;
    if items != [] {
      ChildConserves(files, dir, items[0], st);
      ChildFed(files, dir, items[0], st);
      ItemsFed(files, dir, items[1..], VisitChild(files, dir, items[0], st).value);
    }
  }

  lemma {:induction false} VisitFed(host: Host, st: State)
    requires Conserved(st) && AllFed(st.result) && |st.result| <= MAX_ENTRIES && Visit(host, st).Some?
    ensures AllFed(Visit(host, st).value.result)
    decreases MAX_ENTRIES - |st.result| + |st.queue|
  {
    hide VisitAll, Sort, AllFed;
    if st.queue != [] {
      var d, popped := st.queue[0], st.(queue := st.queue[1..]);
      assert Conserved(popped);
      hide Conserved;
      AllConserve(host.files, d, Sort(host.dirs[d]), popped);
      ItemsFed(host.files, d, Sort(host.dirs[d]), popped);
      VisitFed(host, VisitAll(host.files, d, Sort(host.dirs[d]), popped).value);
    }
  }

  /** The entries in the order in which they were visited. */
  ghost function Visited(host: Host): seq<FixtureEntry>
    requires Inspect(host).Some?
  {
    Visit(host, Start(host.root.value)).value.result
  }

  lemma {:induction false} VisitedFed(host: Host)
    requires Inspect(host).Some?
    ensures Inspect(host) == Some(Sort(Visited(host))) && AllFed(Visited(host))
  {
    hide Visit, Sort, Root;
    var start := Start(host.root.value);
    CostAppend(start.result, []);
    assert Conserved(start) && AllFed(start.result);
    hide Conserved, AllFed;
    VisitFed(host, start);
  }

  /** Over every run, each entry has exactly the digest that the greedy rule gives it. */
  lemma {:induction false} GreedyExact(host: Host, i: nat)
    requires Inspect(host).Some? && i < |Visited(host)|
    ensures Inspect(host) == Some(Sort(Visited(host)))
    ensures Fed(Visited(host)[..i], Visited(host)[i])
  {
    VisitedFed(host);
    hide Inspect, Visited, AllFed, Fed;
    FedAt(Visited(host), i);
  }

  lemma {:induction false} FedAt(result: seq<FixtureEntry>, i: nat)
    requires i < |result|
    ensures AllFed(result) ==> Fed(result[..i], result[i])
  {
  }

  // ---- when everything fits ----------------------------------------------

  function SizeOf(e: FixtureEntry): nat { if IsRegular(e.value.stat.mode) then e.value.stat.size else 0 }

  /** The sizes of the regular files, added up. */
  function RegularBytes(s: seq<FixtureEntry>): nat
  {
    if s == [] then 0 else RegularBytes(s[..|s| - 1]) + SizeOf(s[|s| - 1])
  }

  lemma {:induction false} RegularAppend(a: seq<FixtureEntry>, b: seq<FixtureEntry>)
    ensures RegularBytes(a + b) == RegularBytes(a) + RegularBytes(b)
    ensures |a| == 1 ==> RegularBytes(a) == SizeOf(a[0])
    decreases b
  {
    hide SizeOf;
    assert |a| == 1 ==> a[..0] == [];
    if b == [] {
      assert a + b == a;
    } else {
      RegularAppend(a, b[..|b| - 1]);
      assert (a + b)[..|a + b| - 1] == a + b[..|b| - 1];
    }
  }

  lemma {:induction false} RegularInsert(x: FixtureEntry, s: seq<FixtureEntry>)
    ensures RegularBytes(Insert(x, s)) == RegularBytes(s) + SizeOf(x)
  {
    hide SizeOf, Less;
    if s == [] || Less(x.name, s[0].name) {
      RegularAppend([x], s);
    } else {
      RegularInsert(x, s[1..]);
      RegularAppend([s[0]], Insert(x, s[1..]));
      RegularAppend([s[0]], s[1..]);
      assert s == [s[0]] + s[1..];
    }
  }

  lemma {:induction false} RegularSort(s: seq<FixtureEntry>)
    ensures RegularBytes(Sort(s)) == RegularBytes(s)
  {
    hide SizeOf;
    if s != [] {
      RegularSort(s[..|s| - 1]);
      RegularInsert(s[|s| - 1], Sort(s[..|s| - 1]));
    }
  }

  /** What was hashed is at most what there was to hash. */
  lemma {:induction false} HashedAtMost(files: Files, s: seq<FixtureEntry>)
    requires AllFaithful(files, s) && AllFed(s)
    ensures HashedBytes(s) <= RegularBytes(s)
  {
    if s != [] {
      var n := |s| - 1;
      assert Faithful(files, s[n]) && Fed(s[..n], s[n]);
      AllFedPrefix(s, n);
      FaithfulPrefix(files, s[..n], s);
      hide AllFed, AllFaithful;
      HashedAtMost(files, s[..n]);
    }
  }

  lemma {:induction false} AllFedPrefix(s: seq<FixtureEntry>, n: nat)
    requires n <= |s| && AllFed(s)
    ensures AllFed(s[..n])
  {
    hide Fed;
    forall i | 0 <= i < n
      ensures Fed(s[..n][..i], s[..n][i])
    {
      assert s[..n][..i] == s[..i];
      assert Fed(s[..i], s[i]);
    }
  }

  lemma {:induction false} RegularPrefix(s: seq<FixtureEntry>, i: nat)
    requires i < |s|
    ensures RegularBytes(s[..i]) + SizeOf(s[i]) <= RegularBytes(s)
  {
    hide SizeOf, RegularBytes;
    assert s == s[..i] + ([s[i]] + s[i + 1..]);
    RegularAppend(s[..i], [s[i]] + s[i + 1..]);
    RegularAppend([s[i]], s[i + 1..]);
  }

  lemma {:induction false} FittingHashed(files: Files, s: seq<FixtureEntry>, i: nat)
    requires AllFaithful(files, s) && AllFed(s) && RegularBytes(s) <= MAX_TOTAL_FILE_BYTES && i < |s|
    ensures IsRegular(s[i].value.stat.mode) ==> s[i].value.sha.Some?
  {
    AllFedPrefix(s, i);
    FaithfulPrefix(files, s[..i], s);
    HashedAtMost(files, s[..i]);
    RegularPrefix(s, i);
    assert Fed(s[..i], s[i]);
  }

  /** If the regular files together fit 32 MiB, every one of them is hashed whole. */
  lemma {:induction false} AllHashed(host: Host, e: FixtureEntry)
    requires Proper(host) && Inspect(host).Some? && e in Inspect(host).value
    requires RegularBytes(Inspect(host).value) <= MAX_TOTAL_FILE_BYTES
    ensures IsRegular(e.value.stat.mode) ==> e.value.sha.Some?
  {
    VisitedFed(host);
    VisitedFaithful(host);
    hide *;
    var s := Visited(host);
    RegularSort(s);
    SortMembers(s, e);
    var i :| 0 <= i < |s| && s[i] == e;
    FittingHashed(host.files, s, i);
  }

  lemma {:induction false} VisitedFaithful(host: Host)
    requires Proper(host) && Inspect(host).Some?
    ensures AllFaithful(host.files, Visited(host))
  {
    hide Visit, Sort, Root;
    VisitFaithful(host, Start(host.root.value));
  }

  /** The first `size` bytes of a file are there, and these. */
  predicate Holds(files: Files, path: JsString, size: nat, bytes: Bytes)
  {
    |bytes| == size && (size > 0 ==> path in files && size <= |files[path]| && files[path][..size] == bytes)
  }

  /**
    If the regular files fit 32 MiB, an equal snapshot later means that every file is
    still there with the same bytes.
   */
  lemma {:induction false} EqualSnapshotsEqualContents(h: Host, k: Host, names: seq<JsString>, stat: Stat) returns (bytes: Bytes)
    requires Proper(h) && Proper(k) && Inspect(h).Some? && Inspect(k) == Inspect(h)
    requires RegularBytes(Inspect(h).value) <= MAX_TOTAL_FILE_BYTES
    requires At(h, names, stat) && IsRegular(stat.mode)
    ensures Holds(h.files, PathOf(names), stat.size, bytes) && Holds(k.files, PathOf(names), stat.size, bytes)
  {
    hide Inspect, At, Faithful, IsRegular;
    SnapshotExact(h, PathOf(names), stat);
    var i :| 0 <= i < |Inspect(h).value| && Inspect(h).value[i].name == PathOf(names)
             && Inspect(h).value[i].value.stat == stat;
    var e := Inspect(h).value[i];
    assert e in Inspect(h).value && e in Inspect(k).value;
    AllHashed(h, e);
    DigestsFaithful(h, e);
    DigestsFaithful(k, e);
    bytes := e.value.sha.value;
    FaithfulHolds(h.files, e);
    FaithfulHolds(k.files, e);
  }

  lemma {:induction false} FaithfulHolds(files: Files, e: FixtureEntry)
    requires Faithful(files, e) && e.value.sha.Some?
    ensures Holds(files, e.name, e.value.stat.size, e.value.sha.value)
  {
  }
}
