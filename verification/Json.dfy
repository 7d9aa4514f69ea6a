/**
  The JSON bun-extract prints, and a reader for it.

  The program prints strings without escaping them. The reader follows RFC 8259
  (strings as in its section 7, escapes included) for objects, strings and
  non-negative integers. The theorems say that unescaped printing is read back
  correctly for every value whose strings pass the program's filter, and for a
  string exactly then.
 */
module Json {
  import opened Basics
  import Decimal
  import Unicode

  datatype Value = Str(s: string) | Num(n: nat) | Obj(members: seq<Member>)
  datatype Member = Member(key: string, value: Value)

  datatype Read<T> = Read(value: T, rest: string)

  // ---- strings -----------------------------------------------------------

  predicate SafeChar(c: char)
  {
    c != '"' && c != '\\' && c as int >= 0x20
  }

  /** has_json_unsafe_byte, negated. */
  predicate Safe(s: string)
  {
    forall i :: 0 <= i < |s| ==> SafeChar(s[i])
  }

  function HexDigit(c: char): Option<nat>
  {
    if '0' <= c <= '9' then Some(c as int - 48)
    else if 'a' <= c <= 'f' then Some(c as int - 87)
    else if 'A' <= c <= 'F' then Some(c as int - 55)
    else None
  }

  /** The four hex digits of a \\u escape. */
  function Hex4(s: string): Option<nat>
  {
    if |s| < 4 || HexDigit(s[0]).None? || HexDigit(s[1]).None? || HexDigit(s[2]).None? || HexDigit(s[3]).None? then None
    else Some(((HexDigit(s[0]).value * 16 + HexDigit(s[1]).value) * 16 + HexDigit(s[2]).value) * 16 + HexDigit(s[3]).value)
  }

  function Utf8Chars(c: Unicode.CodePoint): (r: string)
    ensures |r| <= 4
  {
    var b := Unicode.EncodeOne(c);
    seq(|b|, i requires 0 <= i < |b| => b[i] as char)
  }

  /** What an escape stands for, and how many characters it takes after the backslash. */
  function Escape(s: string): (r: Option<Read<string>>)
    ensures r.Some? ==> |r.value.rest| < |s| && |r.value.value| <= |s| - |r.value.rest|
  {
    if s == [] then None
    else match s[0]
      case '"' => Some(Read("\"", s[1..]))
      case '\\' => Some(Read("\\", s[1..]))
      case '/' => Some(Read("/", s[1..]))
      case 'b' => Some(Read([8 as char], s[1..]))
      case 'f' => Some(Read([12 as char], s[1..]))
      case 'n' => Some(Read("\n", s[1..]))
      case 'r' => Some(Read("\r", s[1..]))
      case 't' => Some(Read("\t", s[1..]))
      case 'u' =>
        if |s| < 5 || Hex4(s[1..]).None? || Hex4(s[1..]).value >= 0x10000 then None
        else Some(Read(Utf8Chars(Hex4(s[1..]).value), s[5..]))
      case _ => None
  }

  /** The characters up to the closing quote. */
  function ReadChars(s: string): (r: Option<Read<string>>)
    ensures r.Some? ==> |r.value.value| < |s| - |r.value.rest| <= |s|
    decreases |s|
  {
    if s == [] || s[0] as int < 0x20 then None
    else if s[0] == '"' then Some(Read("", s[1..]))
    else if s[0] == '\\' then
      match Escape(s[1..])
      case None => None
      case Some(e) =>
        match ReadChars(e.rest)
        case None => None
        case Some(t) => Some(Read(e.value + t.value, t.rest))
    else
      match ReadChars(s[1..])
      case None => None
      case Some(t) => Some(Read([s[0]] + t.value, t.rest))
  }

  /** Safe characters are read as themselves. */
  lemma {:induction false} ReadSafe(s: string, rest: string)
    requires Safe(s)
    ensures ReadChars(s + "\"" + rest) == Some(Read(s, rest))
  {
    var t := s + "\"" + rest;
    if s == [] {
      assert t[1..] == rest;
    } else {
      assert t[1..] == s[1..] + "\"" + rest;
      ReadSafe(s[1..], rest);
      assert [s[0]] + s[1..] == s;
    }
  }

  /** Reading back as many characters as were written means no escape was met. */
  lemma {:induction false} ReadWithoutEscape(s: string)
    requires ReadChars(s).Some? && |ReadChars(s).value.value| + 1 == |s| - |ReadChars(s).value.rest|
    ensures var r := ReadChars(s).value;
            Safe(r.value) && |r.value| <= |s| && r.value == s[..|r.value|]
    decreases |s|
  {
    if s[0] != '"' {
      var t := ReadChars(s[1..]).value;
      ReadWithoutEscape(s[1..]);
      assert s[..|t.value| + 1] == [s[0]] + s[1..][..|t.value|];
    }
  }

  /** The filter is exact: a string survives unescaped printing if and only if it is safe. */
  lemma {:induction false} FilterExact(s: string)
    ensures ReadChars(s + "\"") == Some(Read(s, "")) <==> Safe(s)
  {
    if Safe(s) {
      ReadSafe(s, "");
      assert s + "\"" + "" == s + "\"";
    }
    if ReadChars(s + "\"") == Some(Read(s, "")) {
      ReadWithoutEscape(s + "\"");
    }
  }

  // ---- numbers -----------------------------------------------------------

  predicate IsDigit(c: char) { '0' <= c <= '9' }

  function PrintNum(n: nat): (r: string)
    ensures r != [] && forall i :: 0 <= i < |r| ==> IsDigit(r[i])
  {
    var ds := Decimal.Digits(n);
    seq(|ds|, i requires 0 <= i < |ds| => (48 + ds[i] as int) as char)
  }

  /** How many digits `s` begins with. */
  function DigitSpan(s: string): (k: nat)
    ensures k <= |s| && forall i :: 0 <= i < k ==> IsDigit(s[i])
  {
    if s != [] && IsDigit(s[0]) then 1 + DigitSpan(s[1..]) else 0
  }

  function DigitOf(c: char): Decimal.Digit
    requires IsDigit(c)
  {
    c as int - 48
  }

  function DigitValues(s: string): (r: seq<Decimal.Digit>)
    requires forall i :: 0 <= i < |s| ==> IsDigit(s[i])
    ensures |r| == |s| && forall i :: 0 <= i < |s| ==> r[i] == s[i] as int - 48
  {
    seq(|s|, i requires 0 <= i < |s| => DigitOf(s[i]))
  }

  function ReadNum(s: string): Read<nat>
  {
    var k := DigitSpan(s);
    Read(Decimal.Value(DigitValues(s[..k])), s[k..])
  }

  predicate StartsWithDigit(s: string) { s != [] && IsDigit(s[0]) }

  lemma {:induction false} SpanOfDigits(ds: string, rest: string)
    requires (forall i :: 0 <= i < |ds| ==> IsDigit(ds[i])) && !StartsWithDigit(rest)
    ensures DigitSpan(ds + rest) == |ds|
  {
    if ds == [] {
      assert ds + rest == rest;
    } else {
      assert (ds + rest)[1..] == ds[1..] + rest;
      SpanOfDigits(ds[1..], rest);
    }
  }

  lemma {:induction false} ReadPrintedNum(n: nat, rest: string)
    requires !StartsWithDigit(rest)
    ensures ReadNum(PrintNum(n) + rest) == Read(n, rest)
  {
    var p := PrintNum(n);
    SpanOfDigits(p, rest);
    assert (p + rest)[..|p|] == p && (p + rest)[|p|..] == rest;
    assert DigitValues(p) == Decimal.Digits(n);
    Decimal.ValueOfDigits(n);
  }

  // ---- values ------------------------------------------------------------

  function Print(v: Value): (r: string)
    ensures r != []
    decreases v, 0
  {
    match v
    case Str(s) => "\"" + s + "\""
    case Num(n) => PrintNum(n)
    case Obj(ms) => "{" + PrintMembers(ms) + "}"
  }

  function PrintMember(m: Member): string
    decreases m, 1
  {
    "\"" + m.key + "\":" + Print(m.value)
  }

  function PrintMembers(ms: seq<Member>): string
    decreases ms, 2
  {
    if ms == [] then ""
    else if |ms| == 1 then PrintMember(ms[0])
    else PrintMember(ms[0]) + "," + PrintMembers(ms[1..])
  }

  function ReadValue(s: string): (r: Option<Read<Value>>)
    ensures r.Some? ==> |r.value.rest| < |s|
    decreases |s|, 1
  {
    if s == [] then None
    else if s[0] == '"' then
      match ReadChars(s[1..])
      case None => None
      case Some(t) => Some(Read(Str(t.value), t.rest))
    else if IsDigit(s[0]) then
      var t := ReadNum(s);
      Some(Read(Num(t.value), t.rest))
    else if s[0] == '{' then
      if |s| > 1 && s[1] == '}' then Some(Read(Obj([]), s[2..]))
      else
        match ReadMembers(s[1..])
        case None => None
        case Some(t) => if t.rest != [] && t.rest[0] == '}' then Some(Read(Obj(t.value), t.rest[1..])) else None
    else None
  }

  function ReadMember(s: string): (r: Option<Read<Member>>)
    ensures r.Some? ==> |r.value.rest| < |s|
    decreases |s|, 0
  {
    if s == [] || s[0] != '"' then None
    else
      match ReadChars(s[1..])
      case None => None
      case Some(k) =>
        if k.rest == [] || k.rest[0] != ':' then None
        else
          match ReadValue(k.rest[1..])
          case None => None
          case Some(v) => Some(Read(Member(k.value, v.value), v.rest))
  }

  /** One member or more, separated by commas. */
  function ReadMembers(s: string): (r: Option<Read<seq<Member>>>)
    ensures r.Some? ==> |r.value.rest| < |s|
    decreases |s|, 1
  {
    match ReadMember(s)
    case None => None
    case Some(m) =>
      if m.rest == [] || m.rest[0] != ',' then Some(Read([m.value], m.rest))
      else
        match ReadMembers(m.rest[1..])
        case None => None
        case Some(ms) => Some(Read([m.value] + ms.value, ms.rest))
  }

  predicate SafeValue(v: Value)
    decreases v, 0
  {
    match v
    case Str(s) => Safe(s)
    case Num(_) => true
    case Obj(ms) => forall i :: 0 <= i < |ms| ==> Safe(ms[i].key) && SafeValue(ms[i].value)
  }

  /** Reading what was printed, whatever follows it (but no further digit). */
  lemma {:induction false} ReadPrinted(v: Value, rest: string)
    requires SafeValue(v) && !StartsWithDigit(rest)
    ensures ReadValue(Print(v) + rest) == Some(Read(v, rest))
    decreases v, 0
  {
    match v
    case Str(s) =>
      ReadSafe(s, rest);
      hide ReadChars, ReadNum, ReadMembers;
      assert (Print(v) + rest)[1..] == s + "\"" + rest;
    case Num(n) =>
      ReadPrintedNum(n, rest);
      hide ReadChars, ReadNum, ReadMembers, PrintNum;
      assert (Print(v) + rest)[0] == PrintNum(n)[0];
    case Obj(ms) =>
      if ms != [] {
        ReadPrintedMembers(ms, "}" + rest);
      }
      ReadPrintedObject(ms, rest);
  }

  lemma {:induction false} ReadPrintedObject(ms: seq<Member>, rest: string)
    requires ms != [] ==> ReadMembers(PrintMembers(ms) + ("}" + rest)) == Some(Read(ms, "}" + rest))
    ensures ReadValue(Print(Obj(ms)) + rest) == Some(Read(Obj(ms), rest))
  {
    hide ReadChars, ReadNum, ReadMembers;
    var text := Print(Obj(ms)) + rest;
    if ms == [] {
      assert text[2..] == rest;
    } else {
      MembersStart(ms);
      hide PrintMembers;
      var inner := PrintMembers(ms);
      assert text[1..] == inner + ("}" + rest);
      assert text[1] == inner[0];
      assert ("}" + rest)[1..] == rest;
    }
  }

  lemma {:induction false} MembersStart(ms: seq<Member>)
    requires ms != []
    ensures PrintMembers(ms) != [] && PrintMembers(ms)[0] == '"'
  {
  }

  lemma {:induction false} ReadPrintedMember(m: Member, rest: string)
    requires Safe(m.key) && SafeValue(m.value) && !StartsWithDigit(rest)
    ensures ReadMember(PrintMember(m) + rest) == Some(Read(m, rest))
    decreases m, 1
  {
    var text := PrintMember(m) + rest;
    var tail := ":" + Print(m.value) + rest;
    assert text[1..] == m.key + "\"" + tail;
    ReadSafe(m.key, tail);
    assert tail[1..] == Print(m.value) + rest;
    ReadPrinted(m.value, rest);
  }

  lemma {:induction false} ReadPrintedMembers(ms: seq<Member>, rest: string)
    requires ms != [] && (forall i :: 0 <= i < |ms| ==> Safe(ms[i].key) && SafeValue(ms[i].value))
    requires rest != [] && rest[0] == '}'
    ensures ReadMembers(PrintMembers(ms) + rest) == Some(Read(ms, rest))
    decreases ms, 2
  {
    if |ms| == 1 {
      ReadPrintedMember(ms[0], rest);
      ReadMembersOne(ms[0], PrintMember(ms[0]), rest);
      assert ms == [ms[0]];
    } else {
      var more := PrintMembers(ms[1..]);
      ReadPrintedMember(ms[0], "," + more + rest);
      ReadPrintedMembers(ms[1..], rest);
      ReadMembersCons(ms[0], PrintMember(ms[0]), ms[1..], more, rest);
      assert ms == [ms[0]] + ms[1..];
    }
  }

  lemma {:induction false} ReadMembersOne(first: Member, head: string, rest: string)
    requires ReadMember(head + rest) == Some(Read(first, rest)) && rest != [] && rest[0] == '}'
    ensures ReadMembers(head + rest) == Some(Read([first], rest))
  {
  }

  lemma {:induction false} ReadMembersCons(first: Member, head: string, more: seq<Member>, text: string, rest: string)
    requires ReadMember(head + ("," + text + rest)) == Some(Read(first, "," + text + rest))
    requires ReadMembers(text + rest) == Some(Read(more, rest))
    ensures ReadMembers(head + "," + text + rest) == Some(Read([first] + more, rest))
  {
    hide ReadMember;
    var tail := "," + text + rest;
    assert head + "," + text + rest == head + tail;
    assert tail[1..] == text + rest;
  }

  /** One value in full. */
  lemma {:induction false} KnownText()
    ensures Print(Obj([Member("a", Str("b")), Member("n", Num(7))])) == "{\"a\":\"b\",\"n\":7}"
  {
    var a, n := Member("a", Str("b")), Member("n", Num(7));
    assert Decimal.Digits(7) == [7];
    assert PrintNum(7) == "7";
    assert PrintMember(a) == "\"a\":\"b\"" && PrintMember(n) == "\"n\":7";
    assert [a, n][1..] == [n];
    assert PrintMembers([n]) == PrintMember(n);
  }
}
