/**
  `inspectPersistentFixture`: a breadth-first snapshot of a directory tree under two
  byte budgets.

  Files are hashed whole while the first budget lasts, and sampled at up to three
  places while the second lasts. Hashes are modelled by the bytes they were fed.
  None stands for a thrown error.
 */
module Snapshot {
  import opened Basics
  import opened Unicode
  import opened NameOrder
  import opened DirectoryTree

  const MAX_ENTRIES: nat := 10_000
  const MAX_TOTAL_FILE_BYTES: nat := 33554432
  const MAX_TOTAL_SAMPLE_BYTES: nat := 8388608
  const READ_CHUNK_BYTES: nat := 1048576
  const SAMPLE_BYTES: nat := 4096

  datatype Stat = Stat(mode: nat, size: nat, uid: nat, gid: nat, target: Option<JsString>)

  /** `sha` and `sample` are what the two digests were fed, when they were made. */
  datatype Meta = Meta(stat: Stat, sha: Option<Bytes>, sample: Option<Bytes>)

  type FixtureEntry = Named<Meta>

  type Files = map<JsString, Bytes>

  /** The machine inspected: the root's stat, listings by path, contents by path. */
  datatype Host = Host(root: Option<Stat>, dirs: map<JsString, seq<Named<Stat>>>, files: Files)

  predicate IsDirectory(mode: nat) { mode / 4096 % 16 == 4 }
  predicate IsRegular(mode: nat) { mode / 4096 % 16 == 8 }

  /** "/var/lib/kandelo-tests/runner" */
  function Root(): (r: JsString)
    ensures r != []
  {
    var s := "/var/lib/kandelo-tests/runner";
    seq(|s|, i requires 0 <= i < |s| => if (s[i] as int) < 128 then s[i] as int else 0)
  }

  predicate BadName(n: JsString)
  {
    n == [] || n == [46] || n == [46, 46] || 47 in n || 0 in n
  }

  // ---- reading a file ----------------------------------------------------

  /** A range read that must come back whole. */
  function Range(files: Files, path: JsString, offset: nat, length: nat): Option<Bytes>
  {
    if path in files && offset + length <= |files[path]|
    then Some(files[path][offset..offset + length]) else None
  }

  /** What the digest of a whole file is fed. */
  function Whole(files: Files, path: JsString, size: nat): Option<Bytes>
  {
    if size == 0 then Some([]) else Range(files, path, 0, size)
  }

  function SampleLength(size: nat): nat { if size < SAMPLE_BYTES then size else SAMPLE_BYTES }

  /** A list without its repetitions, in order of first occurrence. */
  function Dedup(s: seq<nat>): seq<nat>
  {
    if s == [] then []
    else
      var front := Dedup(s[..|s| - 1]);
      if s[|s| - 1] in front then front else front + [s[|s| - 1]]
  }

  function Offsets(size: nat): seq<nat>
  {
    var room: nat := size - SampleLength(size);
    Dedup([0, room / 2, room])
  }

  /** The samples are in bounds and distinct, and they touch both ends of the file. */
  lemma {:induction false} OffsetsSound(size: nat)
    ensures var o := Offsets(size);
            && 1 <= |o| <= 3 && o[0] == 0 && o[|o| - 1] == size - SampleLength(size)
            && (forall i, j :: 0 <= i < j < |o| ==> o[i] < o[j])
            && (forall i :: 0 <= i < |o| ==> o[i] + SampleLength(size) <= size)
  {
    hide Dedup;
    var room: nat := size - SampleLength(size);
    DedupThree(room / 2, room);
  }

  lemma {:induction false} DedupThree(half: nat, room: nat)
    requires half <= room && (half == room ==> room == 0)
    ensures Dedup([0, half, room]) == if room == 0 then [0] else if half == 0 then [0, room] else [0, half, room]
  {
    var s: seq<nat> := [0, half, room];
    var two: seq<nat> := [0, half];
    assert s[..2] == two && two[..1] == [0];
    DedupOne();
    assert Dedup(two) == if half == 0 then [0] else [0, half];
  }

  lemma {:induction false} DedupOne()
    ensures Dedup([0]) == [0]
  {
  }

  /** The samples one after the other. */
  function Samples(files: Files, path: JsString, offsets: seq<nat>, length: nat): Option<Bytes>
  {
    if offsets == [] then Some([])
    else
      var front := Samples(files, path, offsets[..|offsets| - 1], length);
      var last := Range(files, path, offsets[|offsets| - 1], length);
      if front.None? || last.None? then None else Some(front.value + last.value)
  }

  /** A range read asked of the machine. */
  datatype Ask = Ask(offset: nat, length: nat)

  /** Every read asked for at least one byte, at most `limit`, within the reported size. */
  predicate InBounds(asks: seq<Ask>, limit: nat, size: nat)
  {
    forall i :: 0 <= i < |asks| ==> 0 < asks[i].length <= limit && asks[i].offset + asks[i].length <= size
  }

  /** Hashing in chunks feeds the digest the whole file, and never asks for bytes beyond its size. */
  method HashWhole(files: Files, path: JsString, size: nat) returns (r: Option<Bytes>, ghost asks: seq<Ask>)
    ensures r == Whole(files, path, size)
    ensures InBounds(asks, READ_CHUNK_BYTES, size)
  {
    var digest: Bytes := [];
    var offset: nat := 0;
    asks := [];
    while offset < size
      invariant offset <= size
      invariant Some(digest) == Whole(files, path, offset)
      invariant InBounds(asks, READ_CHUNK_BYTES, size)
    {
      var length := if size - offset < READ_CHUNK_BYTES then size - offset else READ_CHUNK_BYTES;
      asks := asks + [Ask(offset, length)];
      var bytes := Range(files, path, offset, length);
      if bytes.None? {
        r := None;
        return;
      }
      assert files[path][..offset] + files[path][offset..offset + length] == files[path][..offset + length];
      digest := digest + bytes.value;
      offset := offset + length;
    }
    r := Some(digest);
  }

  /** The same for the samples. */
  method HashSamples(files: Files, path: JsString, size: nat) returns (r: Option<Bytes>, ghost asks: seq<Ask>)
    requires size > 0
    ensures r == Samples(files, path, Offsets(size), SampleLength(size))
    ensures InBounds(asks, SAMPLE_BYTES, size) && |asks| <= 3
  {
    hide Samples, Offsets;
    var offsets, length := Offsets(size), SampleLength(size);
    OffsetsSound(size);
    var digest: Bytes := [];
    var i := 0;
    asks := [];
    NoSamples(files, path, length);
    while i < |offsets|
      invariant i <= |offsets| && |asks| == i
      invariant Some(digest) == Samples(files, path, offsets[..i], length)
      invariant InBounds(asks, SAMPLE_BYTES, size)
    {
      OneMoreSample(files, path, offsets, length, i);
      asks := asks + [Ask(offsets[i], length)];
      var bytes := Range(files, path, offsets[i], length);
      if bytes.None? {
        SamplesFail(files, path, offsets, length, i + 1);
        r := None;
        return;
      }
      digest := digest + bytes.value;
      i := i + 1;
    }
    assert offsets[..i] == offsets;
    r := Some(digest);
  }

  lemma {:induction false} NoSamples(files: Files, path: JsString, length: nat)
    ensures Samples(files, path, [], length) == Some([])
  {
  }

  lemma {:induction false} OneMoreSample(files: Files, path: JsString, offsets: seq<nat>, length: nat, i: nat)
    requires i < |offsets|
    ensures var front, last := Samples(files, path, offsets[..i], length), Range(files, path, offsets[i], length);
            Samples(files, path, offsets[..i + 1], length)
            == if front.Some? && last.Some? then Some(front.value + last.value) else None
  {
    hide Range;
    assert offsets[..i + 1][..i] == offsets[..i];
  }

  lemma {:induction false} SamplesFail(files: Files, path: JsString, offsets: seq<nat>, length: nat, n: nat)
    requires n <= |offsets| && Samples(files, path, offsets[..n], length).None?
    ensures Samples(files, path, offsets, length).None?
  {
    if n == |offsets| {
      assert offsets[..n] == offsets;
    } else {
      var front := offsets[..|offsets| - 1];
      assert front[..n] == offsets[..n];
      SamplesFail(files, path, front, length, n);
    }
  }

  // ---- one entry ---------------------------------------------------------

  datatype Budgets = Budgets(file: nat, sample: nat)

  datatype Described = Described(meta: Meta, left: Budgets)

  function SampleCost(size: nat): nat { |Offsets(size)| * SampleLength(size) }

  /** What is recorded about an entry, and what is left of the budgets. */
  function Describe(files: Files, path: JsString, stat: Stat, b: Budgets): Option<Described>
  {
    if !IsRegular(stat.mode) then Some(Described(Meta(stat, None, None), b))
    else if stat.size <= b.file then
      var whole := Whole(files, path, stat.size);
      if whole.None? then None else Some(Described(Meta(stat, whole, None), b.(file := b.file - stat.size)))
    else if SampleCost(stat.size) <= b.sample then
      var samples := Samples(files, path, Offsets(stat.size), SampleLength(stat.size));
      if samples.None? then None
      else Some(Described(Meta(stat, None, samples), b.(sample := b.sample - SampleCost(stat.size))))
    else Some(Described(Meta(stat, None, None), b))
  }

  method Inspected(files: Files, path: JsString, stat: Stat, b: Budgets) returns (r: Option<Described>)
    ensures r == Describe(files, path, stat, b)
  {
    var meta, left := Meta(stat, None, None), b;
    if IsDirectory(stat.mode) {
    } else if IsRegular(stat.mode) {
      if stat.size <= left.file {
        var whole, _ := HashWhole(files, path, stat.size);
        if whole.None? {
          return None;
        }
        meta := meta.(sha := whole);
        left := left.(file := left.file - stat.size);
      } else if stat.size > 0 {
        var sampledBytes := |Offsets(stat.size)| * SampleLength(stat.size);
        if sampledBytes <= left.sample {
          var samples, _ := HashSamples(files, path, stat.size);
          if samples.None? {
            return None;
          }
          meta := meta.(sample := samples);
          left := left.(sample := left.sample - sampledBytes);
        }
      }
    }
    return Some(Described(meta, left));
  }

  // ---- the breadth-first walk --------------------------------------------

  datatype State = State(result: seq<FixtureEntry>, queue: seq<JsString>, left: Budgets)

  function VisitChild(files: Files, dir: JsString, child: Named<Stat>, st: State): (r: Option<State>)
    ensures r.Some? ==> |r.value.result| == |st.result| + 1 <= MAX_ENTRIES && |r.value.queue| <= |st.queue| + 1
  {
    if BadName(child.name) || |st.result| >= MAX_ENTRIES then None
    else
      var path := Join(dir, child.name);
      var d := Describe(files, path, child.value, st.left);
      if d.None? then None
      else Some(State(st.result + [Named(path, d.value.meta)],
                      st.queue + (if IsDirectory(child.value.mode) then [path] else []), d.value.left))
  }

  function VisitAll(files: Files, dir: JsString, items: seq<Named<Stat>>, st: State): (r: Option<State>)
    requires |st.result| <= MAX_ENTRIES
    ensures r.Some? ==> |r.value.result| <= MAX_ENTRIES
    ensures r.Some? ==> |r.value.queue| - |r.value.result| <= |st.queue| - |st.result|
    decreases items
  {
    if items == [] then Some(st)
    else
      var next := VisitChild(files, dir, items[0], st);
      if next.None? then None else VisitAll(files, dir, items[1..], next.value)
  }

  /** Each round removes a directory, and each entry adds at most one and uses up one of the 10000. */
  function Visit(host: Host, st: State): (r: Option<State>)
    requires |st.result| <= MAX_ENTRIES
    ensures r.Some? ==> r.value.queue == [] && |r.value.result| <= MAX_ENTRIES
    decreases MAX_ENTRIES - |st.result| + |st.queue|
  {
    if st.queue == [] then Some(st)
    else if st.queue[0] !in host.dirs then None
    else
      var next := VisitAll(host.files, st.queue[0], Sort(host.dirs[st.queue[0]]), st.(queue := st.queue[1..]));
      if next.None? then None else Visit(host, next.value)
  }

  function Start(root: Stat): State
  {
    State([Named(Root(), Meta(root, None, None))], [Root()], Budgets(MAX_TOTAL_FILE_BYTES, MAX_TOTAL_SAMPLE_BYTES))
  }

  function Inspect(host: Host): Option<seq<FixtureEntry>>
  {
    if host.root.None? || !IsDirectory(host.root.value.mode) then None
    else
      var end := Visit(host, Start(host.root.value));
      if end.None? then None else Some(Sort(end.value.result))
  }

  method InspectPersistentFixture(host: Host) returns (r: Option<seq<FixtureEntry>>)
    ensures r == Inspect(host)
  {
    hide Sort, Describe, Root, BadName;
    if host.root.None? || !IsDirectory(host.root.value.mode) {
      return None;
    }
    ghost var start := Start(host.root.value);
    var result, directories := [Named(Root(), Meta(host.root.value, None, None))], [Root()];
    var left := Budgets(MAX_TOTAL_FILE_BYTES, MAX_TOTAL_SAMPLE_BYTES);
    while directories != []
      invariant |result| <= MAX_ENTRIES
      invariant Visit(host, State(result, directories, left)) == Visit(host, start)
      decreases MAX_ENTRIES - |result| + |directories|
    {
      var directory := directories[0];
      directories := directories[1..];
      if directory !in host.dirs {
        return None;
      }
      ghost var popped := State(result, directories, left);
      var sortedChildren := Sort(host.dirs[directory]);
      var i := 0;
      while i < |sortedChildren|
        invariant i <= |sortedChildren| && |result| <= MAX_ENTRIES
        invariant |directories| - |result| <= |popped.queue| - |popped.result|
        invariant VisitAll(host.files, directory, sortedChildren[i..], State(result, directories, left))
                  == VisitAll(host.files, directory, sortedChildren, popped)
      {
        var child := sortedChildren[i];
        assert sortedChildren[i..][0] == child && sortedChildren[i..][1..] == sortedChildren[i + 1..];
        if BadName(child.name) || |result| >= MAX_ENTRIES {
          return None;
        }
        var path := Join(directory, child.name);
        var d := Inspected(host.files, path, child.value, left);
        if d.None? {
          return None;
        }
        assert directories + [] == directories;
        if IsDirectory(child.value.mode) {
          directories := directories + [path];
        }
        result := result + [Named(path, d.value.meta)];
        left := d.value.left;
        i := i + 1;
      }
    }
    return Some(Sort(result));
  }

  /**
    `assertPersistentFixtureUnchanged` passes exactly when the snapshots are equal,
    and otherwise names the first index where they differ.
   */
  method FirstChange(before: seq<FixtureEntry>, after: seq<FixtureEntry>) returns (r: Option<nat>)
    ensures r.None? <==> before == after
    ensures r.Some? ==>
              var k := r.value;
              && k <= |before| && k <= |after| && before[..k] == after[..k]
              && !(k < |before| && k < |after| && before[k] == after[k])
  {
    if before == after {
      return None;
    }
    var count := if |before| < |after| then |after| else |before|;
    for index: nat := 0 to count
      invariant index <= |before| && index <= |after| && before[..index] == after[..index]
    {
      if index >= |before| || index >= |after| || before[index] != after[index] {
        return Some(index);
      }
    }
    return None;
  }

  /** The file type is the four bits above the twelve permission bits. */
  lemma {:induction false} TypeBits(kind: nat, permissions: nat)
    requires kind < 16 && permissions < 4096
    ensures IsDirectory(kind * 4096 + permissions) <==> kind == 4
    ensures IsRegular(kind * 4096 + permissions) <==> kind == 8
  {
    assert (kind * 4096 + permissions) / 4096 == kind;
  }

  /** A good name is one that a directory can list, and not one of the two dots. */
  lemma {:induction false} GoodNameExact(n: JsString)
    ensures !BadName(n) <==> ValidName(n) && n != [46] && n != [46, 46]
  {
    assert 47 in n || 0 in n <==> exists i :: 0 <= i < |n| && (n[i] == 47 || n[i] == 0);
  }
}
