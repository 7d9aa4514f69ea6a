/**
  The byte stream `fingerprintDirectory` feeds to its hash.

  Each record is a kind, a path and, for files, a decimal length and the raw bytes,
  all NUL-separated. Names are JavaScript strings (UTF-16 units) written as UTF-8.
  The stream is uniquely decodable although file bytes may hold anything.
 */
module Transcript {
  import opened Basics
  import opened Unicode
  import Decimal

  datatype Kind = Cycle | Directory | SymlinkDirectory | File | SymlinkFile | Other | SymlinkOther

  /** `bytes` is the content for the two file kinds and empty for the others. */
  datatype Record = Record(kind: Kind, path: JsString, bytes: Bytes)

  predicate IsFile(k: Kind) { k.File? || k.SymlinkFile? }

  predicate NoNul(s: JsString)
  {
    forall i :: 0 <= i < |s| ==> s[i] != 0
  }

  /** Paths hold no NUL, and only files have content. */
  predicate WellFormed(r: Record)
  {
    NoNul(r.path) && (!IsFile(r.kind) ==> r.bytes == [])
  }

  function Ascii(s: string): (b: Bytes)
    requires forall i :: 0 <= i < |s| ==> 0 < s[i] as int < 128
    ensures |b| == |s| && forall i :: 0 <= i < |s| ==> b[i] == s[i] as int
  {
    seq(|s|, i requires 0 <= i < |s| => s[i] as int)
  }

  function KindName(k: Kind): (s: string)
    ensures forall i :: 0 <= i < |s| ==> 0 < s[i] as int < 128
  {
    match k
    case Cycle => "cycle"
    case Directory => "directory"
    case SymlinkDirectory => "symlink-directory"
    case File => "file"
    case SymlinkFile => "symlink-file"
    case Other => "other"
    case SymlinkOther => "symlink-other"
  }

  function KindBytes(k: Kind): Bytes
  {
    Ascii(KindName(k))
  }

  /** hash.update of a string. */
  function Text(s: JsString): Bytes
  {
    EncodeUtf8(CodePoints(s))
  }

  function Length(n: nat): (b: Bytes)
    ensures b != [] && forall i :: 0 <= i < |b| ==> b[i] != 0
  {
    var ds := Decimal.Digits(n);
    seq(|ds|, i requires 0 <= i < |ds| => 48 + ds[i] as int)
  }

  function Encode(r: Record): Bytes
  {
    var head := KindBytes(r.kind) + [0] + (Text(r.path) + [0]);
    if IsFile(r.kind) then head + (Length(|r.bytes|) + [0] + (r.bytes + [0])) else head
  }

  function EncodeAll(rs: seq<Record>): Bytes
  {
    if rs == [] then [] else Encode(rs[0]) + EncodeAll(rs[1..])
  }

  // ---- the reader --------------------------------------------------------

  datatype Field = Field(bytes: Bytes, rest: Bytes)

  /** The bytes up to the next NUL. */
  function ReadField(b: Bytes): (r: Option<Field>)
    ensures r.Some? ==> |r.value.rest| < |b|
  {
    if b == [] then None
    else if b[0] == 0 then Some(Field([], b[1..]))
    else match ReadField(b[1..])
      case None => None
      case Some(f) => Some(Field([b[0]] + f.bytes, f.rest))
  }

  predicate NoZero(b: Bytes)
  {
    forall i :: 0 <= i < |b| ==> b[i] != 0
  }

  lemma {:induction false} ReadFieldOf(field: Bytes, rest: Bytes)
    requires NoZero(field)
    ensures ReadField(field + [0] + rest) == Some(Field(field, rest))
  {
    var b := field + [0] + rest;
    if field == [] {
      assert b[1..] == rest;
    } else {
      assert b[1..] == field[1..] + [0] + rest;
      ReadFieldOf(field[1..], rest);
      assert [field[0]] + field[1..] == field;
    }
  }

  function KindOf(b: Bytes): Option<Kind>
  {
    if b == KindBytes(Cycle) then Some(Cycle)
    else if b == KindBytes(Directory) then Some(Directory)
    else if b == KindBytes(SymlinkDirectory) then Some(SymlinkDirectory)
    else if b == KindBytes(File) then Some(File)
    else if b == KindBytes(SymlinkFile) then Some(SymlinkFile)
    else if b == KindBytes(Other) then Some(Other)
    else if b == KindBytes(SymlinkOther) then Some(SymlinkOther)
    else None
  }

  lemma {:induction false} KindRoundTrip(k: Kind)
    ensures KindOf(KindBytes(k)) == Some(k) && NoZero(KindBytes(k))
  {
    assert KindBytes(Cycle)[0] == 99 && KindBytes(Other)[0] == 111;
  }

  function PathOf(b: Bytes): Option<JsString>
  {
    match DecodeUtf8(b)
    case None => None
    case Some(cs) => Some(EncodeUtf16(cs))
  }

  lemma {:induction false} PathRoundTrip(s: JsString)
    ensures PathOf(Text(s)) == Some(s)
  {
    Utf8RoundTrip(CodePoints(s));
    Utf16RoundTrip(s);
  }

  lemma {:induction false} TextNoZero(s: JsString)
    requires NoNul(s)
    ensures NoZero(Text(s))
    decreases |s|
  {
    if s != [] {
      var c, n := CodePoints(s)[0], if PairAhead(s) then 2 else 1;
      assert CodePoints(s)[1..] == CodePoints(s[n..]);
      TextNoZero(s[n..]);
      OneNoZero(c);
    }
  }

  lemma {:induction false} OneNoZero(c: CodePoint)
    requires c != 0
    ensures NoZero(EncodeOne(c))
  {
  }

  function LengthOf(b: Bytes): Option<nat>
  {
    if forall i :: 0 <= i < |b| ==> 48 <= b[i] <= 57
    then Some(Decimal.Value(seq(|b|, i requires 0 <= i < |b| => DigitOf(b[i]))))
    else None
  }

  function DigitOf(x: byte): Decimal.Digit
  {
    if 48 <= x <= 57 then x as int - 48 else 0
  }

  lemma {:induction false} LengthRoundTrip(n: nat)
    ensures LengthOf(Length(n)) == Some(n)
  {
    var b, ds := Length(n), Decimal.Digits(n);
    assert seq(|b|, i requires 0 <= i < |b| => DigitOf(b[i])) == ds;
    Decimal.ValueOfDigits(n);
  }

  datatype Step = Step(record: Record, rest: Bytes)

  /** One record off the stream. */
  function DecodeOneRecord(b: Bytes): (r: Option<Step>)
    ensures r.Some? ==> |r.value.rest| < |b|
  {
    match ReadField(b)
    case None => None
    case Some(k) =>
      match ReadField(k.rest)
      case None => None
      case Some(p) =>
        if KindOf(k.bytes).None? || PathOf(p.bytes).None? then None
        else if !IsFile(KindOf(k.bytes).value) then
          Some(Step(Record(KindOf(k.bytes).value, PathOf(p.bytes).value, []), p.rest))
        else
          match ReadField(p.rest)
          case None => None
          case Some(l) =>
            if LengthOf(l.bytes).None? || LengthOf(l.bytes).value >= |l.rest| || l.rest[LengthOf(l.bytes).value] != 0 then None
            else
              var n := LengthOf(l.bytes).value;
              Some(Step(Record(KindOf(k.bytes).value, PathOf(p.bytes).value, l.rest[..n]), l.rest[n + 1..]))
  }

  function Decode(b: Bytes): Option<seq<Record>>
    decreases |b|
  {
    if b == [] then Some([])
    else match DecodeOneRecord(b)
      case None => None
      case Some(s) =>
        match Decode(s.rest)
        case None => None
        case Some(rs) => Some([s.record] + rs)
  }

  lemma {:induction false} DecodeEncoded(r: Record, rest: Bytes)
    requires WellFormed(r)
    ensures DecodeOneRecord(Encode(r) + rest) == Some(Step(r, rest)) && Encode(r) != []
  {
    KindRoundTrip(r.kind);
    PathRoundTrip(r.path);
    TextNoZero(r.path);
    hide KindOf, KindBytes, PathOf, Text, ReadField;
    if IsFile(r.kind) {
      FileTail(r, rest);
    } else {
      var tail := Text(r.path) + [0] + rest;
      assert Encode(r) + rest == KindBytes(r.kind) + [0] + tail;
      ReadFieldOf(KindBytes(r.kind), tail);
      ReadFieldOf(Text(r.path), rest);
    }
  }

  lemma {:induction false} FileLayout(kind: Bytes, path: Bytes, length: Bytes, content: Bytes, rest: Bytes)
    ensures kind + [0] + (path + [0]) + (length + [0] + (content + [0])) + rest
            == kind + [0] + (path + [0] + (length + [0] + (content + [0] + rest)))
  {
  }

  /** Three fields and a content make a file's record. */
  lemma {:induction false} FileRecord(b: Bytes, k: Field, p: Field, l: Field, r: Record, rest: Bytes)
    requires ReadField(b) == Some(k) && ReadField(k.rest) == Some(p) && ReadField(p.rest) == Some(l)
    requires IsFile(r.kind) && KindOf(k.bytes) == Some(r.kind) && PathOf(p.bytes) == Some(r.path)
    requires LengthOf(l.bytes) == Some(|r.bytes|) && l.rest == r.bytes + [0] + rest
    ensures DecodeOneRecord(b) == Some(Step(r, rest))
  {
    hide KindOf, PathOf, ReadField, LengthOf;
    assert l.rest[..|r.bytes|] == r.bytes && l.rest[|r.bytes| + 1..] == rest;
  }

  lemma {:induction false} FileTail(r: Record, rest: Bytes)
    requires IsFile(r.kind) && KindOf(KindBytes(r.kind)) == Some(r.kind) && PathOf(Text(r.path)) == Some(r.path)
    requires NoZero(KindBytes(r.kind)) && NoZero(Text(r.path))
    ensures DecodeOneRecord(Encode(r) + rest) == Some(Step(r, rest))
  {
    var n := |r.bytes|;
    LengthRoundTrip(n);
    var content := r.bytes + [0] + rest;
    var tail := Length(n) + [0] + content;
    var path := Text(r.path) + [0] + tail;
    FileLayout(KindBytes(r.kind), Text(r.path), Length(n), r.bytes, rest);
    hide KindOf, KindBytes, PathOf, Text, ReadField, Length, LengthOf, DecodeOneRecord;
    ReadFieldOf(KindBytes(r.kind), path);
    ReadFieldOf(Text(r.path), tail);
    ReadFieldOf(Length(n), content);
    FileRecord(Encode(r) + rest, Field(KindBytes(r.kind), path), Field(Text(r.path), tail), Field(Length(n), content), r, rest);
  }

  /** The stream is uniquely decodable: the reader recovers the record list. */
  lemma {:induction false} DecodeAll(rs: seq<Record>)
    requires forall i :: 0 <= i < |rs| ==> WellFormed(rs[i])
    ensures Decode(EncodeAll(rs)) == Some(rs)
  {
    hide DecodeOneRecord, Encode, WellFormed;
    if rs != [] {
      DecodeEncoded(rs[0], EncodeAll(rs[1..]));
      DecodeAll(rs[1..]);
      assert rs == [rs[0]] + rs[1..];
    }
  }

  /** One record in full: a three-byte file "a". */
  lemma {:induction false} KnownRecord()
    ensures Encode(Record(File, [97], [7, 0, 9])) == [102, 105, 108, 101, 0, 97, 0, 51, 0, 7, 0, 9, 0]
    ensures KindName(Cycle) == "cycle" && KindName(SymlinkDirectory) == "symlink-directory"
  {
    assert KindBytes(File) == [102, 105, 108, 101];
    assert CodePoints([97]) == [97] by {
      assert [97][1..] == [];
    }
    assert EncodeUtf8([97]) == [97] by {
      assert [97][1..] == [];
      assert EncodeOne(97) == [97];
    }
    assert Text([97]) == [97];
    assert Decimal.Digits(3) == [3];
    assert Length(3) == [51];
  }
}
