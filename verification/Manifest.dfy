/**
  The manifest bun-extract writes for a fresh cache: entry, format and loaders.

  The loaders object is accumulated in a growing buffer while the modules are
  walked. `BuildManifest` is proved to print a text that a JSON reader turns back
  into exactly the facts of the module table. The buffer's capacity is a 32-bit
  `size_t`: `Stop` says exactly which module, if any, ends the loop early or is
  written outside the buffer.
 */
module Manifest {
  import opened Basics
  import opened Json
  import ReplaceAll
  import opened SafePath

  const MAX_NAME := 4096
  const ENTRY_BUFFER := 4400

  /** A row of the module table; the name is read as raw bytes. */
  datatype Module = Module(bytes: string, loader: nat, format: nat) {
    function Name(): string { UpTo(bytes, '\0') }
  }

  /** loader_class; the empty string for an unknown loader. */
  function LoaderClass(loader: nat): (r: string)
    ensures |r| <= 4 && Safe(r) && (r == "" <==> loader !in {1, 5, 6, 10, 13})
  {
    match loader
    case 1 => "js"
    case 13 => "text"
    case 5 => "file"
    case 6 => "json"
    case 10 => "napi"
    case _ => ""
  }

  /** The class of each loader byte, so the manifest tells the known ones apart. */
  lemma {:induction false} ClassesExact(loader: nat)
    ensures LoaderClass(loader) == "js" <==> loader == 1
    ensures LoaderClass(loader) == "file" <==> loader == 5
    ensures LoaderClass(loader) == "json" <==> loader == 6
    ensures LoaderClass(loader) == "napi" <==> loader == 10
    ensures LoaderClass(loader) == "text" <==> loader == 13
    ensures LoaderClass(loader) == "" <==> loader !in {1, 5, 6, 10, 13}
  {
  }

  /** The loop's three refusals, negated. */
  predicate Accepted(m: Module)
  {
    |m.bytes| <= MAX_NAME && Safe(m.Name()) && !HasDotDotSegment(StripPrefix(m.Name()))
  }

  function RelOut(m: Module, isEntry: bool): string
  {
    var rel := StripPrefix(m.Name());
    if isEntry && !EndsWith(rel, ".mjs") then rel + ".mjs" else rel
  }

  /** Modules that are neither the entry nor js, and whose loader is known. */
  predicate Listed(modules: seq<Module>, entry: nat, i: nat)
    requires i < |modules|
  {
    i != entry && modules[i].loader != 1 && LoaderClass(modules[i].loader) != ""
  }

  function LoaderMember(m: Module): Member
  {
    Member(RelOut(m, false), Str(LoaderClass(m.loader)))
  }

  /** The loaders of the first `n` modules, in table order. */
  function Loaders(modules: seq<Module>, entry: nat, n: nat): seq<Member>
    requires n <= |modules|
  {
    if n == 0 then []
    else if Listed(modules, entry, n - 1) then Loaders(modules, entry, n - 1) + [LoaderMember(modules[n - 1])]
    else Loaders(modules, entry, n - 1)
  }

  /** What the manifest says about a module table. */
  function Facts(modules: seq<Module>, entry: nat): Value
    requires entry < |modules|
  {
    Obj([Member("entry", Str(RelOut(modules[entry], true))),
         Member("format", Num(modules[entry].format)),
         Member("loaders", Obj(Loaders(modules, entry, |modules|)))])
  }

  // ---- the growing buffer ------------------------------------------------

  /** `OutOfBounds` stands for a memcpy past the buffer, which the program does not notice. */
  datatype Appended = Done | NoMemory | OutOfBounds

  class Buffer {
    var buf: array<char>
    var len: nat

    ghost predicate Valid()
      reads this, buf
    {
      && buf.Length <= SIZE_MAX
      && (buf.Length == 0 == len || (len < buf.Length && buf[len] == '\0'))
    }

    ghost function Text(): string
      reads this, buf
      requires Valid()
    {
      buf[..len]
    }

    constructor ()
      ensures Valid() && Text() == "" && buf.Length == 0 && fresh(buf)
    {
      buf, len := new char[0], 0;
    }

    /** realloc to the wrapped capacity; it may be smaller than before. */
    method Grow(cap: nat)
      requires Valid() && cap <= SIZE_MAX
      modifies this`buf
      ensures fresh(buf) && buf.Length == cap && len == old(len)
      ensures len <= cap ==> buf[..len] == old(buf[..len])
    {
      var grown := new char[cap](_ => '\0');
      forall i | 0 <= i < len && i < cap {
        grown[i] := buf[i];
      }
      buf := grown;
    }

    /**
      Grow when needed, copy, and terminate; `memory` is realloc's answer. The write
      stays in the block if and only if there is room already or twice the need fits
      `size_t`.
     */
    method Append(entry: string, memory: bool) returns (r: Appended)
      requires Valid() && |entry| < ENTRY_BUFFER
      modifies this, buf
      ensures buf == old(buf) || fresh(buf)
      ensures r == AppendResult(Room(old(len), old(buf.Length)), |entry|, memory)
      ensures r.Done? ==> Valid() && Text() == old(Text()) + entry
      ensures r.Done? ==> Room(len, buf.Length) == Grown(Room(old(len), old(buf.Length)), |entry|)
    {
      var m := |entry|;
      var need := Wrapped(len + m + 1);
      var twice := Wrapped(need * 2);
      NeedWraps(Room(len, buf.Length), m);
      hide Wrapped;
      if need > buf.Length {
        if !memory {
          return NoMemory;
        }
        Grow(twice);
      }
      if len + m + 1 > buf.Length {
        return OutOfBounds;
      }
      Store(entry);
      r := Done;
    }

    method Store(entry: string)
      requires len + |entry| < buf.Length <= SIZE_MAX
      modifies this`len, buf
      ensures Valid() && len == old(len) + |entry| && buf[..len] == old(buf[..len]) + entry
    {
      len := ReplaceAll.Copy(buf, len, entry);
      ghost var text := buf[..len];
      buf[len] := '\0';
      assert buf[..len] == text;
    }
  }

  /** Bytes used and bytes allocated. */
  datatype Room = Room(len: nat, cap: nat)

  /** The room after an entry of `m` bytes, were there no limit. */
  function Grown(r: Room, m: nat): Room
  {
    Room(r.len + m, if r.len + m + 1 > r.cap then 2 * (r.len + m + 1) else r.cap)
  }

  /** An unsigned 32-bit result. */
  function Wrapped(n: nat): nat { n % (SIZE_MAX + 1) }

  lemma {:induction false} NeedWraps(r: Room, m: nat)
    requires r.cap <= SIZE_MAX && (r.len < r.cap || r.len == 0 == r.cap) && m < ENTRY_BUFFER
    ensures var need := r.len + m + 1;
            && (Wrapped(need) > r.cap <==> r.cap < need <= SIZE_MAX)
            && Wrapped(Wrapped(need) * 2) <= SIZE_MAX
            && (need <= SIZE_MAX && 2 * need > SIZE_MAX ==> Wrapped(Wrapped(need) * 2) < need)
            && (2 * need <= SIZE_MAX ==> Wrapped(Wrapped(need) * 2) == 2 * need)
  {
  }

  /** realloc is asked only when the need itself fits `size_t`. */
  function AppendResult(r: Room, m: nat, memory: bool): Appended
  {
    var need := r.len + m + 1;
    if need <= r.cap then Done
    else if need <= SIZE_MAX && !memory then NoMemory
    else if 2 * need > SIZE_MAX then OutOfBounds
    else Done
  }

  // ---- the loop ----------------------------------------------------------

  lemma {:induction false} PrintAppend(ms: seq<Member>, m: Member)
    ensures PrintMembers(ms + [m]) == PrintMembers(ms) + (if ms == [] then "" else ",") + PrintMember(m)
  {
    hide PrintMember;
    if ms == [] {
      assert ms + [m] == [m];
    } else {
      assert (ms + [m])[0] == ms[0] && (ms + [m])[1..] == ms[1..] + [m];
      PrintAppend(ms[1..], m);
    }
  }

  /** How many bytes module `i` adds to the loaders. */
  function PieceLength(modules: seq<Module>, entry: nat, i: nat): nat
    requires i < |modules|
  {
    |Piece(Loaders(modules, entry, i) != [], RelOut(modules[i], false), LoaderClass(modules[i].loader))|
  }

  /** The room the loaders of the first `n` modules have. */
  function RoomAt(modules: seq<Module>, entry: nat, n: nat): Room
    requires n <= |modules|
  {
    if n == 0 then Room(0, 0)
    else if Listed(modules, entry, n - 1) then Grown(RoomAt(modules, entry, n - 1), PieceLength(modules, entry, n - 1))
    else RoomAt(modules, entry, n - 1)
  }

  /** What becomes of the loop at module `i`; `memory(i)` is realloc's answer there. */
  datatype Step = Go | Refuse | Starve | Overrun

  function Stop(modules: seq<Module>, entry: nat, memory: nat -> bool, i: nat): Step
    requires i < |modules|
  {
    if !Accepted(modules[i]) then Refuse
    else if !Listed(modules, entry, i) then Go
    else match AppendResult(RoomAt(modules, entry, i), PieceLength(modules, entry, i), memory(i))
      case Done => Go
      case NoMemory => Starve
      case OutOfBounds => Overrun
  }

  /** One module of the loop: its piece of the loaders object, if it has one. */
  method AddLoader(out: Buffer, modules: seq<Module>, entry: nat, memory: nat -> bool, i: nat) returns (r: Appended)
    requires i < |modules| && Accepted(modules[i])
    requires out.Valid() && out.Text() == PrintMembers(Loaders(modules, entry, i))
    requires Room(out.len, out.buf.Length) == RoomAt(modules, entry, i)
    modifies out, out.buf
    ensures out.buf == old(out.buf) || fresh(out.buf)
    ensures Stop(modules, entry, memory, i) == match r case Done => Go case NoMemory => Starve case OutOfBounds => Overrun
    ensures r.Done? ==> out.Valid() && out.Text() == PrintMembers(Loaders(modules, entry, i + 1))
    ensures r.Done? ==> Room(out.len, out.buf.Length) == RoomAt(modules, entry, i + 1)
  {
    ghost var so, m := Loaders(modules, entry, i), LoaderMember(modules[i]);
    SeparatorTest(so);
    PrintAppend(so, m);
    PieceFits(so, modules[i]);
    hide PrintMembers, PrintMember, RelOut, Piece, Accepted, AppendResult, Grown;
    r := Done;
    if i != entry && modules[i].loader != 1 {
      var cls := LoaderClass(modules[i].loader);
      if cls != "" {
        var piece := Piece(out.len != 0, RelOut(modules[i], false), cls);
        assert |piece| < ENTRY_BUFFER;
        assert out.Text() + piece == PrintMembers(so + [m]);
        r := out.Append(piece, memory(i));
      }
    }
  }

  /** The snprintf of one entry, with a comma when the buffer is not empty. */
  function Piece(comma: bool, rel: string, cls: string): string
  {
    (if comma then "," else "") + "\"" + rel + "\":\"" + cls + "\""
  }

  lemma {:induction false} PieceText(comma: bool, rel: string, cls: string)
    ensures Piece(comma, rel, cls) == (if comma then "," else "") + PrintMember(Member(rel, Str(cls)))
    ensures |Piece(comma, rel, cls)| <= |rel| + |cls| + 6
  {
  }

  /** An accepted name fits the entry buffer, so "entry too long" cannot happen. */
  lemma {:induction false} PieceFits(so: seq<Member>, m: Module)
    requires Accepted(m)
    ensures var piece := Piece(so != [], RelOut(m, false), LoaderClass(m.loader));
            && |piece| < ENTRY_BUFFER
            && PrintMembers(so) + piece
               == PrintMembers(so) + (if so == [] then "" else ",") + PrintMember(LoaderMember(m))
  {
    StripShortens(m.Name(), 0);
    PieceText(so != [], RelOut(m, false), LoaderClass(m.loader));
    hide PrintMembers, StripFrom, PrintMember, Piece, HasDotDotSegment, Safe;
    Assoc(PrintMembers(so), if so == [] then "" else ",", PrintMember(LoaderMember(m)));
  }

  lemma {:induction false} SeparatorTest(ms: seq<Member>)
    ensures PrintMembers(ms) == "" <==> ms == []
  {
  }

  lemma {:induction false} StripShortens(name: string, k: nat)
    requires k <= 4
    ensures |StripFrom(name, k)| <= |name| && StripFrom(name, k) == name[|name| - |StripFrom(name, k)|..]
    decreases 4 - k
  {
    if k < 4 {
      StripShortens(name, k + 1);
    } else {
      SkipShortens(name);
    }
  }

  lemma {:induction false} SkipShortens(name: string)
    ensures |SkipSlashes(name)| <= |name| && SkipSlashes(name) == name[|name| - |SkipSlashes(name)|..]
  {
    if name != [] && name[0] == '/' {
      SkipShortens(name[1..]);
    }
  }

  lemma {:induction false} SafeRel(m: Module, isEntry: bool)
    requires Accepted(m)
    ensures Safe(RelOut(m, isEntry))
  {
    StripShortens(m.Name(), 0);
    assert Safe(".mjs");
    var name, rel := m.Name(), StripPrefix(m.Name());
    hide Safe, StripFrom, HasDotDotSegment;
    SafeSuffix(name, |name| - |rel|);
    SafeJoin(rel, ".mjs");
  }

  lemma {:induction false} SafeSuffix(s: string, k: nat)
    requires Safe(s) && k <= |s|
    ensures Safe(s[k..])
  {
  }

  lemma {:induction false} SafeJoin(a: string, b: string)
    requires Safe(a) && Safe(b)
    ensures Safe(a + b)
  {
  }

  lemma {:induction false} SafeLoaders(modules: seq<Module>, entry: nat, n: nat)
    requires n <= |modules| && forall i :: 0 <= i < n ==> Accepted(modules[i])
    ensures SafeValue(Obj(Loaders(modules, entry, n)))
  {
    hide Accepted, RelOut, LoaderClass, Safe;
    if n > 0 {
      SafeLoaders(modules, entry, n - 1);
      SafeRel(modules[n - 1], false);
    }
  }

  /** The printed facts are read back as they are, to the newline after them. */
  lemma {:induction false} FactsReadBack(modules: seq<Module>, entry: nat)
    requires entry < |modules| && forall i :: 0 <= i < |modules| ==> Accepted(modules[i])
    ensures ReadValue(Print(Facts(modules, entry)) + "\n") == Some(Read(Facts(modules, entry), "\n"))
  {
    hide *;
    FactsSafe(modules, entry);
    NewlineNoDigit();
    ReadPrinted(Facts(modules, entry), "\n");
  }

  lemma {:induction false} NewlineNoDigit()
    ensures !StartsWithDigit("\n")
  {
  }

  lemma {:induction false} KeysSafe()
    ensures Safe("entry") && Safe("format") && Safe("loaders")
  {
  }

  lemma {:induction false} FactsSafe(modules: seq<Module>, entry: nat)
    requires entry < |modules| && forall i :: 0 <= i < |modules| ==> Accepted(modules[i])
    ensures SafeValue(Facts(modules, entry))
  {
    hide Accepted, RelOut, Loaders, Safe;
    SafeRel(modules[entry], true);
    SafeLoaders(modules, entry, |modules|);
    KeysSafe();
  }

  /** The manifest's fprintf, in its three members. */
  function ManifestText(entry: string, format: nat, loaders: string): string
  {
    "{" + (EntryText(entry) + "," + FormatText(format) + "," + LoadersText(loaders)) + "}" + "\n"
  }

  function EntryText(entry: string): string
  {
    "\"entry\":\"" + entry + "\""
  }

  function FormatText(format: nat): string
  {
    "\"format\":" + PrintNum(format)
  }

  function LoadersText(loaders: string): string
  {
    "\"loaders\":{" + loaders + "}"
  }

  lemma {:induction false} MemberTexts(e: string, f: nat, l: seq<Member>)
    ensures PrintMember(Member("entry", Str(e))) == EntryText(e)
    ensures PrintMember(Member("format", Num(f))) == FormatText(f)
    ensures PrintMember(Member("loaders", Obj(l))) == LoadersText(PrintMembers(l))
  {
  }

  lemma {:induction false} ThreeMembers(a: Member, b: Member, c: Member)
    ensures PrintMembers([a, b, c]) == PrintMember(a) + "," + PrintMember(b) + "," + PrintMember(c)
  {
    hide PrintMember;
    assert [a, b, c][1..] == [b, c] && [b, c][1..] == [c];
    assert PrintMembers([c]) == PrintMember(c);
    assert PrintMembers([b, c]) == PrintMember(b) + "," + PrintMember(c);
    assert PrintMembers([a, b, c]) == PrintMember(a) + "," + (PrintMember(b) + "," + PrintMember(c));
    Assoc4(PrintMember(a) + ",", PrintMember(b), ",", PrintMember(c));
  }

  lemma {:induction false} TextOfFacts(modules: seq<Module>, entry: nat)
    requires entry < |modules|
    ensures ManifestText(RelOut(modules[entry], true), modules[entry].format, PrintMembers(Loaders(modules, entry, |modules|)))
            == Print(Facts(modules, entry)) + "\n"
  {
    var e, f, l := RelOut(modules[entry], true), modules[entry].format, Loaders(modules, entry, |modules|);
    hide RelOut, Loaders;
    MemberTexts(e, f, l);
    hide EntryText, FormatText, LoadersText, PrintMembers, PrintMember;
    ThreeMembers(Member("entry", Str(e)), Member("format", Num(f)), Member("loaders", Obj(l)));
  }

  /** The buffer holds the loaders of the first `n` modules. */
  ghost predicate Written(out: Buffer, modules: seq<Module>, entry: nat, n: nat)
    requires n <= |modules|
    reads out, out.buf
  {
    && out.Valid() && out.Text() == PrintMembers(Loaders(modules, entry, n))
    && Room(out.len, out.buf.Length) == RoomAt(modules, entry, n)
  }

  method WrittenText(out: Buffer, modules: seq<Module>, entry: nat, n: nat) returns (s: string)
    requires n <= |modules| && Written(out, modules, entry, n)
    ensures s == PrintMembers(Loaders(modules, entry, n))
  {
    s := out.buf[..out.len];
  }

  /** The loop's body for module `i`: its refusals, and its piece of the loaders. */
  method OneModule(out: Buffer, modules: seq<Module>, entry: nat, memory: nat -> bool, i: nat) returns (step: Step)
    requires i < |modules|
    requires Written(out, modules, entry, i)
    modifies out, out.buf
    ensures out.buf == old(out.buf) || fresh(out.buf)
    ensures step == Stop(modules, entry, memory, i)
    ensures step == Go ==> Written(out, modules, entry, i + 1)
  {
    hide Loaders, PrintMembers, RoomAt, AppendResult, Accepted;
    if !Accepted(modules[i]) {
      return Refuse;
    }
    var a := AddLoader(out, modules, entry, memory, i);
    step := if a == Done then Go else if a == NoMemory then Starve else Overrun;
  }

  datatype Walked =
    | Whole(entryRel: string, entryFormat: nat, loaders: string)
    | Stopped(step: Step)

  /** The module loop: it runs to the end, or to the first module that stops it. */
  method WalkModules(modules: seq<Module>, entry: nat, memory: nat -> bool) returns (r: Walked)
    ensures r.Whole? <==> forall i :: 0 <= i < |modules| ==> Stop(modules, entry, memory, i) == Go
    ensures r.Stopped? ==> r.step != Go && exists i :: 0 <= i < |modules| && FirstStop(modules, entry, memory, i, r.step)
    ensures r.Whole? ==> r.loaders == PrintMembers(Loaders(modules, entry, |modules|))
    ensures r.Whole? && entry < |modules| ==>
              r.entryRel == RelOut(modules[entry], true) && r.entryFormat == modules[entry].format
  {
    var out := new Buffer();
    var entryRel, entryFormat := "", 0;
    var i := 0;
    NoLoaders(modules, entry);
    assert Written(out, modules, entry, 0);
    hide RelOut, Loaders, PrintMembers, RoomAt, Stop, Written;
    while i < |modules|
      invariant 0 <= i <= |modules| && fresh(out) && fresh(out.buf) && Written(out, modules, entry, i)
      invariant forall k :: 0 <= k < i ==> Stop(modules, entry, memory, k) == Go
      invariant entry < i ==> entryRel == RelOut(modules[entry], true) && entryFormat == modules[entry].format
    {
      var step := OneModule(out, modules, entry, memory, i);
      if step != Go {
        assert FirstStop(modules, entry, memory, i, step);
        return Stopped(step);
      }
      if i == entry {
        entryRel, entryFormat := RelOut(modules[i], true), modules[i].format;
      }
      i := i + 1;
    }
    var loaders := WrittenText(out, modules, entry, i);
    r := Whole(entryRel, entryFormat, loaders);
  }

  ghost predicate FirstStop(modules: seq<Module>, entry: nat, memory: nat -> bool, i: nat, step: Step)
    requires i < |modules|
  {
    Stop(modules, entry, memory, i) == step && forall k :: 0 <= k < i ==> Stop(modules, entry, memory, k) == Go
  }

  datatype Manifest = Printed(text: string) | NoEntry | Ended(step: Step)

  /**
    The module loop and the manifest, for a cache miss: it is written exactly when no
    module stops the loop and the entry exists, and then a JSON reader recovers the
    table's facts from the text.
   */
  method BuildManifest(modules: seq<Module>, entry: nat, memory: nat -> bool) returns (r: Manifest)
    ensures r.Printed? <==>
              entry < |modules| && forall i :: 0 <= i < |modules| ==> Stop(modules, entry, memory, i) == Go
    ensures r.NoEntry? <==>
              entry >= |modules| && forall i :: 0 <= i < |modules| ==> Stop(modules, entry, memory, i) == Go
    ensures r.Ended? ==> exists i :: 0 <= i < |modules| && FirstStop(modules, entry, memory, i, r.step)
    ensures r.Printed? ==> ReadValue(r.text) == Some(Read(Facts(modules, entry), "\n"))
  {
    hide *;
    var w := WalkModules(modules, entry, memory);
    if w.Stopped? {
      return Ended(w.step);
    }
    if entry >= |modules| {
      return NoEntry;
    }
    AllAccepted(modules, entry, memory);
    TextOfFacts(modules, entry);
    FactsReadBack(modules, entry);
    r := Printed(ManifestText(w.entryRel, w.entryFormat, w.loaders));
  }

  lemma {:induction false} AllAccepted(modules: seq<Module>, entry: nat, memory: nat -> bool)
    requires forall i :: 0 <= i < |modules| ==> Stop(modules, entry, memory, i) == Go
    ensures forall i :: 0 <= i < |modules| ==> Accepted(modules[i])
  {
    hide Accepted, AppendResult, RoomAt, PieceLength;
    forall i | 0 <= i < |modules|
      ensures Accepted(modules[i])
    {
      assert Stop(modules, entry, memory, i) == Go;
    }
  }

  lemma {:induction false} NoLoaders(modules: seq<Module>, entry: nat)
    ensures PrintMembers(Loaders(modules, entry, 0)) == "" && RoomAt(modules, entry, 0) == Room(0, 0)
  {
  }

  // ---- which tables overrun ----------------------------------------------

  ghost predicate NeverOverruns(modules: seq<Module>, entry: nat, n: nat)
    requires n <= |modules|
  {
    forall i :: 0 <= i < n && Listed(modules, entry, i) ==>
      !AppendResult(RoomAt(modules, entry, i), PieceLength(modules, entry, i), true).OutOfBounds?
  }

  /** The length in the model of the buffer is that of the printed loaders. */
  lemma {:induction false} RoomIsText(modules: seq<Module>, entry: nat, n: nat)
    requires n <= |modules|
    ensures RoomAt(modules, entry, n).len == |PrintMembers(Loaders(modules, entry, n))|
  {
    hide RelOut, LoaderClass, Piece, PrintMember;
    if n > 0 {
      RoomIsText(modules, entry, n - 1);
      var so, m := Loaders(modules, entry, n - 1), modules[n - 1];
      PieceText(so != [], RelOut(m, false), LoaderClass(m.loader));
      PrintAppend(so, LoaderMember(m));
    }
  }

  lemma {:induction false} RoomGrows(modules: seq<Module>, entry: nat, i: nat, n: nat)
    requires i <= n <= |modules|
    ensures RoomAt(modules, entry, i).len <= RoomAt(modules, entry, n).len
    ensures i < n && Listed(modules, entry, i) ==>
              RoomAt(modules, entry, i).len + PieceLength(modules, entry, i) <= RoomAt(modules, entry, n).len
    decreases n - i
  {
    hide PieceLength, Listed;
    if i < n {
      RoomGrows(modules, entry, i + 1, n);
    }
  }

  /** Loaders that print in at most 2^31 - 2 bytes never leave the buffer. */
  lemma {:induction false} SmallTableFits(modules: seq<Module>, entry: nat)
    requires 2 * (|PrintMembers(Loaders(modules, entry, |modules|))| + 1) <= SIZE_MAX
    ensures NeverOverruns(modules, entry, |modules|)
  {
    hide PieceLength, Listed, RoomAt, Loaders, PrintMembers;
    RoomIsText(modules, entry, |modules|);
    forall i | 0 <= i < |modules| && Listed(modules, entry, i)
      ensures !AppendResult(RoomAt(modules, entry, i), PieceLength(modules, entry, i), true).OutOfBounds?
    {
      RoomGrows(modules, entry, i, |modules|);
    }
  }

  lemma {:induction false} RoomBounded(modules: seq<Module>, entry: nat, n: nat)
    requires n <= |modules| && NeverOverruns(modules, entry, n)
    ensures var r := RoomAt(modules, entry, n); r.cap <= SIZE_MAX && (r.len < r.cap || r.len == 0 == r.cap)
  {
    hide PieceLength, Listed;
    if n > 0 {
      RoomBounded(modules, entry, n - 1);
    }
  }

  /** Loaders that print in 2^32 - 1 bytes or more always do. */
  lemma {:induction false} LargeTableOverruns(modules: seq<Module>, entry: nat)
    requires |PrintMembers(Loaders(modules, entry, |modules|))| >= SIZE_MAX
    ensures !NeverOverruns(modules, entry, |modules|)
  {
    hide RoomAt, NeverOverruns, Loaders, PrintMembers;
    RoomIsText(modules, entry, |modules|);
    if NeverOverruns(modules, entry, |modules|) {
      RoomBounded(modules, entry, |modules|);
    }
  }

  /** The table that repeats one text asset; its first row is the entry. */
  function Repeated(name: string, n: nat): seq<Module>
  {
    seq(n, _ => Module(name, 13, 0))
  }

  lemma {:induction false} RepeatedLength(name: string, n: nat, k: nat)
    requires 0 < k <= n && '\0' !in name && StripPrefix(name) == name
    ensures |PrintMembers(Loaders(Repeated(name, n), 0, k))| >= (k - 1) * |name|
  {
    hide StripPrefix, PrintMember;
    var modules := Repeated(name, n);
    if k > 1 {
      RepeatedLength(name, n, k - 1);
      var so, m := Loaders(modules, 0, k - 1), Module(name, 13, 0);
      assert modules[k - 1] == m && Listed(modules, 0, k - 1);
      UpToAll(name);
      assert RelOut(m, false) == name;
      PrintAppend(so, LoaderMember(m));
      MemberLonger(LoaderMember(m));
      assert (k - 1) * |name| == (k - 2) * |name| + |name|;
    }
  }

  lemma {:induction false} UpToAll(name: string)
    requires '\0' !in name
    ensures UpTo(name, '\0') == name
  {
  }

  lemma {:induction false} MemberLonger(m: Member)
    ensures |PrintMember(m)| >= |m.key|
  {
  }

  /** A table of a million and more rows with one accepted 4096-byte name is written outside the buffer. */
  lemma {:induction false} RepeatedOverruns(name: string, n: nat, memory: nat -> bool)
    requires '\0' !in name && StripPrefix(name) == name && |name| == MAX_NAME && Accepted(Module(name, 13, 0))
    requires n > 0x10_0000 && forall i :: memory(i)
    ensures var modules := Repeated(name, n);
            exists i :: 0 <= i < |modules| && Stop(modules, 0, memory, i) == Overrun
  {
    hide StripPrefix, Loaders, PrintMembers, Accepted, RoomAt, PieceLength, AppendResult;
    var modules := Repeated(name, n);
    RepeatedLength(name, n, n);
    assert (n - 1) * 4096 >= SIZE_MAX;
    LargeTableOverruns(modules, 0);
    var i :| 0 <= i < n && Listed(modules, 0, i)
             && AppendResult(RoomAt(modules, 0, i), PieceLength(modules, 0, i), true).OutOfBounds?;
    assert memory(i) && Stop(modules, 0, memory, i) == Overrun;
  }

  // ---- what the manifest lists -------------------------------------------

  /** The modules among the first `n` that the manifest lists: assets of a known class, the entry apart. */
  function Assets(modules: seq<Module>, entry: nat, n: nat): (r: seq<nat>)
    requires n <= |modules|
    ensures forall j :: 0 <= j < |r| ==> r[j] < n
  {
    if n == 0 then []
    else if n - 1 != entry && modules[n - 1].loader in {5, 6, 10, 13} then Assets(modules, entry, n - 1) + [n - 1]
    else Assets(modules, entry, n - 1)
  }

  lemma {:induction false} AssetsExact(modules: seq<Module>, entry: nat, n: nat)
    requires n <= |modules|
    ensures var r := Assets(modules, entry, n);
            && (forall i, j :: 0 <= i < j < |r| ==> r[i] < r[j])
            && (forall i: nat :: i in r <==> i < n && i != entry && modules[i].loader in {5, 6, 10, 13})
  {
    if n > 0 {
      AssetsExact(modules, entry, n - 1);
    }
  }

  /** By its stripped name and its class. */
  predicate ListedAs(m: Module, l: Member)
  {
    l == Member(StripPrefix(UpTo(m.bytes, '\0')), Str(LoaderClass(m.loader)))
  }

  /** The manifest lists exactly those, in table order, each by its stripped name and its class. */
  lemma {:induction false} LoadersInOrder(modules: seq<Module>, entry: nat, n: nat, j: nat)
    requires n <= |modules|
    ensures |Loaders(modules, entry, n)| == |Assets(modules, entry, n)|
    ensures j < |Assets(modules, entry, n)| ==>
              ListedAs(modules[Assets(modules, entry, n)[j]], Loaders(modules, entry, n)[j])
  {
    hide Listed, LoaderMember, ListedAs;
    if n > 0 {
      ListedExact(modules, entry, n - 1);
      MemberIs(modules[n - 1]);
      LoadersInOrder(modules, entry, n - 1, j);
    }
  }

  lemma {:induction false} ListedExact(modules: seq<Module>, entry: nat, i: nat)
    requires i < |modules|
    ensures Listed(modules, entry, i) <==> i != entry && modules[i].loader in {5, 6, 10, 13}
  {
    ClassesExact(modules[i].loader);
    hide LoaderClass;
  }

  lemma {:induction false} MemberIs(m: Module)
    ensures ListedAs(m, LoaderMember(m))
  {
  }

  /** The entry's file ends in ".mjs": the suffix is added unless the name has it. */
  lemma {:induction false} EntryNamed(m: Module)
    ensures var rel, out := StripPrefix(UpTo(m.bytes, '\0')), RelOut(m, true);
            EndsWith(out, ".mjs") && (out == rel || (out == rel + ".mjs" && !EndsWith(rel, ".mjs")))
    ensures RelOut(m, false) == StripPrefix(UpTo(m.bytes, '\0'))
  {
    hide StripPrefix;
    var rel := StripPrefix(UpTo(m.bytes, '\0'));
    assert (rel + ".mjs")[|rel|..] == ".mjs";
  }
}
