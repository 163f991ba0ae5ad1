/** JSON error messages: escaping a byte string and reading it back by the string rules of
    section 7 of RFC 8259. */
module JsonError {

  import opened Prelude

  const QUOTE: Byte := 0x22
  const BACKSLASH: Byte := 0x5C

  // ----- writing ----------------------------------------------------------------------------

  function HexDigit(d: nat): (b: Byte)
    requires d < 16
  {
    if d < 10 then 0x30 + d else 0x61 + (d - 10)
  }

  /** What one byte is written as. */
  function EscapeByte(c: Byte): (s: Bytes)
  {
    if c == QUOTE then [BACKSLASH, QUOTE]
    else if c == BACKSLASH then [BACKSLASH, BACKSLASH]
    else if c == 0x08 then [BACKSLASH, 0x62]
    else if c == 0x0C then [BACKSLASH, 0x66]
    else if c == 0x0A then [BACKSLASH, 0x6E]
    else if c == 0x0D then [BACKSLASH, 0x72]
    else if c == 0x09 then [BACKSLASH, 0x74]
    else if c <= 0x1F then [BACKSLASH, 0x75, 0x30, 0x30, HexDigit(c / 16), HexDigit(c % 16)]
    else [c]
  }

  function Escaped(message: Bytes): (s: Bytes)
  {
    if message == [] then [] else EscapeByte(message[0]) + Escaped(message[1..])
  }

  // ----- reading ----------------------------------------------------------------------------

  function HexValue(b: Byte): (d: Option<nat>)
  {
    if 0x30 <= b <= 0x39 then Some(b - 0x30)
    else if 0x41 <= b <= 0x46 then Some(b - 0x41 + 10)
    else if 0x61 <= b <= 0x66 then Some(b - 0x61 + 10)
    else None
  }

  /** Four hexadecimal digits of either case. */
  function CodeUnit(s: Bytes): (n: Option<nat>)
    requires |s| == 4
  {
    match (HexValue(s[0]), HexValue(s[1]), HexValue(s[2]), HexValue(s[3]))
    case (Some(a), Some(b), Some(c), Some(d)) => Some(4096 * a + 256 * b + 16 * c + d)
    case _ => None
  }

  /** A code unit as bytes; surrogates are encoded one by one. */
  function CodeUnitBytes(n: nat): (s: Bytes)
  {
    if n < 0x80 then [n]
    else if n < 0x800 then [0xC0 + n / 64, 0x80 + n % 64]
    else [0xE0 + n / 4096 % 16, 0x80 + n / 64 % 64, 0x80 + n % 64]
  }

  /** The character after a backslash, with the number of bytes read. */
  function ReadEscape(s: Bytes): (r: Option<(Bytes, nat)>)
    requires s != []
    ensures r.Some? ==> 0 < r.value.1 <= |s|
  {
    if s[0] == QUOTE || s[0] == BACKSLASH || s[0] == 0x2F then Some(([s[0]], 1))
    else if s[0] == 0x62 then Some(([0x08], 1))
    else if s[0] == 0x66 then Some(([0x0C], 1))
    else if s[0] == 0x6E then Some(([0x0A], 1))
    else if s[0] == 0x72 then Some(([0x0D], 1))
    else if s[0] == 0x74 then Some(([0x09], 1))
    else if s[0] == 0x75 && |s| >= 5 then
      match CodeUnit(s[1..5])
      case None => None
      case Some(n) => Some((CodeUnitBytes(n), 5))
    else None
  }

  /** Read a string after its opening quote: its value, and what follows the closing quote. */
  function ReadString(s: Bytes): (r: Option<(Bytes, Bytes)>)
    decreases |s|
  {
    if s == [] then None
    else if s[0] == QUOTE then Some(([], s[1..]))
    else if s[0] == BACKSLASH then
      if |s| == 1 then None else
      match ReadEscape(s[1..])
      case None => None
      case Some((c, n)) => Prepend(c, ReadString(s[1 + n..]))
    else if s[0] < 0x20 then None
    else Prepend([s[0]], ReadString(s[1..]))
  }

  function Prepend(c: Bytes, r: Option<(Bytes, Bytes)>): (q: Option<(Bytes, Bytes)>)
  {
    match r
    case None => None
    case Some((value, rest)) => Some((c + value, rest))
  }

  // ----- there and back ---------------------------------------------------------------------

  lemma HexBack(c: Byte)
    requires c <= 0x1F
    ensures CodeUnit([0x30, 0x30, HexDigit(c / 16), HexDigit(c % 16)]) == Some(c)
  {
  }

  /** A control byte written with four digits. */
  lemma ControlBack(c: Byte, digits: Bytes, rest: Bytes)
    requires c <= 0x1F && digits == [0x30, 0x30, HexDigit(c / 16), HexDigit(c % 16)]
    ensures ReadEscape([0x75] + digits + rest) == Some(([c], 5))
  {
    HexBack(c);
    assert ([0x75] + digits + rest)[1..5] == digits;
  }

  /** An escape is read back together with what follows it. */
  lemma AfterEscape(c: Byte, escape: Bytes, rest: Bytes)
    requires escape != [] && ReadEscape(escape + rest) == Some(([c], |escape|))
    ensures ReadString([BACKSLASH] + escape + rest) == Prepend([c], ReadString(rest))
  {
    var s := [BACKSLASH] + escape + rest;
    assert s[1..] == escape + rest && s[1 + |escape|..] == rest;
  }

  lemma ByteBack(c: Byte, rest: Bytes)
    ensures ReadString(EscapeByte(c) + rest) == Prepend([c], ReadString(rest))
  {
    var escaped := EscapeByte(c);
    if escaped[0] == BACKSLASH {
      var escape := escaped[1..];
      if |escape| == 5 {
        ControlBack(c, escape[1..], rest);
        assert [0x75] + escape[1..] + rest == escape + rest;
      }
      AfterEscape(c, escape, rest);
      assert [BACKSLASH] + escape + rest == escaped + rest;
    } else {
      assert (escaped + rest)[1..] == rest;
    }
  }

  /** Whatever is escaped and followed by a quote is read back, up to exactly that quote. */
  lemma {:induction false} EscapeRoundTrip(message: Bytes, rest: Bytes)
    ensures ReadString(Escaped(message) + [QUOTE] + rest) == Some((message, rest))
  {
    if message == [] {
      assert Escaped(message) + [QUOTE] + rest == [QUOTE] + rest;
    } else {
      var tail := Escaped(message[1..]) + [QUOTE] + rest;
      assert Escaped(message) + [QUOTE] + rest == EscapeByte(message[0]) + tail;
      ByteBack(message[0], tail);
      EscapeRoundTrip(message[1..], rest);
      assert [message[0]] + message[1..] == message;
    }
  }

  /** Different messages stay different. */
  lemma EscapeInjective(a: Bytes, b: Bytes)
    requires Escaped(a) == Escaped(b)
    ensures a == b
  {
    EscapeRoundTrip(a, []);
    EscapeRoundTrip(b, []);
  }

  /** How many backslashes stand directly in front of position `i`. */
  function Backslashes(s: Bytes, i: nat): (n: nat)
    requires i <= |s|
    ensures n <= i
  {
    if i == 0 || s[i - 1] != BACKSLASH then 0 else 1 + Backslashes(s, i - 1)
  }

  lemma {:induction false} BackslashesIn(s: Bytes, t: Bytes, i: nat)
    requires i <= |s|
    ensures Backslashes(s + t, i) == Backslashes(s, i)
  {
    if i > 0 {
      BackslashesIn(s, t, i - 1);
    }
  }

  lemma {:induction false} BackslashesAfter(s: Bytes, t: Bytes, i: nat)
    requires i <= |t|
    ensures Backslashes(s + t, |s| + i) == Backslashes(t, i) + if Backslashes(t, i) == i then Backslashes(s, |s|) else 0
  {
    if i > 0 {
      BackslashesAfter(s, t, i - 1);
    } else {
      BackslashesIn(s, t, |s|);
    }
  }

  /** What a byte is written as ends in no backslash or in two. */
  lemma EscapeEndsEven(c: Byte)
    ensures Backslashes(EscapeByte(c), |EscapeByte(c)|) % 2 == 0
  {
    var s := EscapeByte(c);
    if c == BACKSLASH {
      assert Backslashes(s, 1) == 1 + Backslashes(s, 0);
      assert Backslashes(s, 2) == 1 + Backslashes(s, 1);
    }
  }

  lemma ParityAfter(c: Byte, t: Bytes, i: nat)
    requires i <= |t|
    ensures Backslashes(EscapeByte(c) + t, |EscapeByte(c)| + i) % 2 == Backslashes(t, i) % 2
  {
    EscapeEndsEven(c);
    BackslashesAfter(EscapeByte(c), t, i);
  }

  lemma NoBareByte(c: Byte, t: Bytes, i: nat)
    requires i < |EscapeByte(c)|
    ensures EscapeByte(c)[i] >= 0x20
    ensures EscapeByte(c)[i] == QUOTE ==> Backslashes(EscapeByte(c) + t, i) % 2 == 1
  {
    var s := EscapeByte(c);
    BackslashesIn(s, t, i);
    if s[i] == QUOTE {
      assert Backslashes(s, 1) == 1 + Backslashes(s, 0);
    }
  }

  /** No control byte, and every quote is behind an odd number of backslashes. */
  lemma {:induction false} NoBareBytes(message: Bytes, i: nat)
    requires i < |Escaped(message)|
    ensures Escaped(message)[i] >= 0x20
    ensures Escaped(message)[i] == QUOTE ==> Backslashes(Escaped(message), i) % 2 == 1
  {
    var c, rest := message[0], Escaped(message[1..]);
    if i < |EscapeByte(c)| {
      NoBareByte(c, rest, i);
    } else {
      NoBareBytes(message[1..], i - |EscapeByte(c)|);
      ParityAfter(c, rest, i - |EscapeByte(c)|);
    }
  }

  lemma {:induction false} EscapedEndsEven(message: Bytes)
    ensures Backslashes(Escaped(message), |Escaped(message)|) % 2 == 0
  {
    if message != [] {
      EscapedEndsEven(message[1..]);
      ParityAfter(message[0], Escaped(message[1..]), |Escaped(message[1..])|);
    }
  }

  /** A quote that no backslash escapes. */
  predicate BareQuote(s: Bytes, i: nat)
  {
    i < |s| && s[i] == QUOTE && Backslashes(s, i) % 2 == 0
  }

  /** The quote written behind the message is bare, and no earlier one is. */
  lemma ClosingQuoteIsFirst(message: Bytes, rest: Bytes)
    ensures var s := Escaped(message) + [QUOTE] + rest;
      BareQuote(s, |Escaped(message)|) && forall i :: 0 <= i < |Escaped(message)| ==> !BareQuote(s, i)
  {
    var escaped := Escaped(message);
    var s := escaped + ([QUOTE] + rest);
    assert escaped + [QUOTE] + rest == s;
    EscapedEndsEven(message);
    BackslashesIn(escaped, [QUOTE] + rest, |escaped|);
    forall i | 0 <= i < |escaped| ensures !BareQuote(s, i) {
      NoBareBytes(message, i);
      BackslashesIn(escaped, [QUOTE] + rest, i);
    }
  }

  // ----- nothing shorter --------------------------------------------------------------------

  /** `e` is read as the one byte `c`. */
  predicate ReadsAs(e: Bytes, c: Byte)
  {
    ReadString(e + [QUOTE]) == Some(([c], []))
  }

  lemma FirstRead(p: Bytes, r: Option<(Bytes, Bytes)>, c: Byte)
    requires p != [] && Prepend(p, r) == Some(([c], []))
    ensures p[0] == c
  {
    assert (p + r.value.0)[0] == p[0];
  }

  /** A quote alone ends the string, and a backslash in front of it starts one that does not end. */
  lemma NothingRead(c: Byte)
    ensures !ReadsAs([], c) && !ReadsAs([BACKSLASH], c)
  {
    assert ([] + [QUOTE])[1..] == [];
    var s := [BACKSLASH] + [QUOTE];
    assert s[1..] == [QUOTE] && s[2..] == [];
    assert ReadEscape(s[1..]) == Some(([QUOTE], 1));
    assert ReadString(s) == Prepend([QUOTE], ReadString(s[2..]));
  }

  lemma FourDigits(e: Bytes)
    requires |e| < 6 && |e| > 1 && e[1] == 0x75
    ensures ReadEscape((e + [QUOTE])[1..]).None?
  {
    var s := (e + [QUOTE])[1..];
    assert |e| == 5 ==> s[1..5][3] == QUOTE;
  }

  /** What reads as `c` is `c` itself, if it may stand for itself, or starts with a backslash. */
  lemma FirstIsByte(e: Bytes, c: Byte)
    requires ReadsAs(e, c)
    ensures e != [] && (e[0] == BACKSLASH || (e[0] == c && EscapeByte(c) == [c]))
    ensures e[0] == BACKSLASH ==> |e| > 1 && ReadEscape((e + [QUOTE])[1..]).Some? && c == EscapedByte(e)
  {
    NothingRead(c);
    var s := e + [QUOTE];
    assert e != [] && e != [BACKSLASH];
    if e[0] == BACKSLASH {
      var r := ReadEscape(s[1..]);
      assert ReadString(s) == Prepend(r.value.0, ReadString(s[1 + r.value.1..]));
      FirstRead(r.value.0, ReadString(s[1 + r.value.1..]), c);
    } else {
      assert ReadString(s) == Prepend([s[0]], ReadString(s[1..]));
      FirstRead([s[0]], ReadString(s[1..]), c);
    }
  }

  /** The byte that an escape sequence starts with. */
  function EscapedByte(e: Bytes): (c: int)
  {
    var r := if e == [] then None else ReadEscape((e + [QUOTE])[1..]);
    if r.Some? && r.value.0 != [] then r.value.0[0] else -1
  }

  lemma LongEscape(e: Bytes, c: Byte)
    requires ReadsAs(e, c) && |EscapeByte(c)| == 6
    ensures |e| >= 6
  {
    FirstIsByte(e, c);
    assert (e + [QUOTE])[1..][0] == e[1];
    if |e| < 6 && e[1] == 0x75 {
      FourDigits(e);
    }
  }

  /** No shorter way to write a byte reads back as that byte. */
  lemma ShortestEscape(e: Bytes, c: Byte)
    requires ReadsAs(e, c)
    ensures ReadsAs(EscapeByte(c), c) && |EscapeByte(c)| <= |e|
  {
    EscapeRoundTrip([c], []);
    assert Escaped([c]) == EscapeByte(c) by { assert [c][1..] == []; }
    assert EscapeByte(c) + [QUOTE] + [] == EscapeByte(c) + [QUOTE];
    FirstIsByte(e, c);
    if |EscapeByte(c)| == 6 {
      LongEscape(e, c);
    }
  }

  /** Control bytes without a letter of their own are written with small hexadecimal digits. */
  lemma SmallDigits(c: Byte)
    requires |EscapeByte(c)| == 6
    ensures forall i :: 2 <= i < 6 ==> 0x30 <= EscapeByte(c)[i] <= 0x39 || 0x61 <= EscapeByte(c)[i] <= 0x66
  {
  }

  // ----- the code ---------------------------------------------------------------------------

  lemma EscapedStep(message: Bytes, i: nat, o: Bytes, todo: Bytes)
    requires i < |message| && todo == Escaped(message[i + 1..])
    ensures o + Escaped(message[i..]) == (o + EscapeByte(message[i])) + todo
  {
    assert message[i..][1..] == message[i + 1..];
    Associate(o, EscapeByte(message[i]), todo);
  }

  /** Byte by byte onto a stream. */
  method EscapeString(message: Bytes) returns (o: Bytes)
    ensures o == Escaped(message)
  {
    o := [];
    ghost var all, todo := Escaped(message), Escaped(message);
    assert message[0..] == message;
    var i := 0;
    while i < |message|
      invariant 0 <= i <= |message| && todo == Escaped(message[i..]) && all == o + todo
    {
      todo := Escaped(message[i + 1..]);
      EscapedStep(message, i, o, todo);
      o := o + EscapeByte(message[i]);
      i := i + 1;
    }
  }

  function Decimal(n: nat): (s: Bytes)
  {
    (if n < 10 then [] else Decimal(n / 10)) + [0x30 + n % 10]
  }

  function AsBytes(s: string): (b: Bytes)
    requires forall i :: 0 <= i < |s| ==> s[i] < 128 as char
  {
    seq(|s|, i requires 0 <= i < |s| => s[i] as int)
  }

  /** Everything before the message. */
  function Opening(code: nat): (s: Bytes)
  {
    AsBytes("{\"error_code\": ") + Decimal(code) + AsBytes(", \"error_message\": \"")
  }

  /** What closes the object, behind the quote that closes the message. */
  const CLOSING: Bytes := [0x7D, 0x0A]

  // ----- the whole object -------------------------------------------------------------------

  predicate IsDigit(b: Byte) { 0x30 <= b <= 0x39 }

  /** Read a number in base ten, `value` being what its digits so far amount to. */
  function ReadNumber(s: Bytes, value: nat): (r: (nat, Bytes))
  {
    if s != [] && IsDigit(s[0]) then ReadNumber(s[1..], 10 * value + (s[0] - 0x30)) else (value, s)
  }

  lemma {:induction false} NumberGoesOn(n: nat, rest: Bytes)
    ensures ReadNumber(Decimal(n) + rest, 0) == ReadNumber(rest, n)
  {
    var last := [0x30 + n % 10] + rest;
    assert ReadNumber(last, n / 10) == ReadNumber(rest, n) by {
      assert last[1..] == rest;
    }
    if n < 10 {
      assert Decimal(n) + rest == last;
    } else {
      assert Decimal(n) + rest == Decimal(n / 10) + last;
      NumberGoesOn(n / 10, last);
    }
  }

  /** The digits of the error code, read in base ten, are the error code, and there is no leading
      zero in front of other digits. */
  lemma {:induction false} DecimalReadsBack(n: nat, rest: Bytes)
    requires rest == [] || !IsDigit(rest[0])
    ensures ReadNumber(Decimal(n) + rest, 0) == (n, rest)
    ensures n > 0 ==> Decimal(n)[0] != 0x30
  {
    NumberGoesOn(n, rest);
    if n >= 10 {
      DecimalReadsBack(n / 10, []);
    }
  }

  /** The bytes behind an expected one. */
  function Behind(s: Bytes, b: Byte): (r: Option<Bytes>)
  {
    if s != [] && s[0] == b then Some(s[1..]) else None
  }

  /** A string, a colon and a space. */
  function ReadKey(s: Bytes): (r: Option<(Bytes, Bytes)>)
  {
    match Behind(s, QUOTE)
    case None => None
    case Some(t) =>
      match ReadString(t)
      case None => None
      case Some((key, u)) =>
        if |u| >= 2 && u[0] == 0x3A && u[1] == 0x20 then Some((key, u[2..])) else None
  }

  /** A member whose value is a number, with what follows. */
  function ReadNumberMember(s: Bytes): (r: Option<(Bytes, nat, Bytes)>)
  {
    match ReadKey(s)
    case None => None
    case Some((key, t)) => var (n, u) := ReadNumber(t, 0); Some((key, n, u))
  }

  /** A member whose value is a string, with what follows. */
  function ReadStringMember(s: Bytes): (r: Option<(Bytes, Bytes, Bytes)>)
  {
    match ReadKey(s)
    case None => None
    case Some((key, t)) =>
      match Behind(t, QUOTE)
      case None => None
      case Some(u) =>
        match ReadString(u)
        case None => None
        case Some((value, rest)) => Some((key, value, rest))
  }

  /** An object with a number and then a string, and a newline: keys and values. */
  ghost predicate IsObject(s: Bytes, key: Bytes, number: nat, key': Bytes, text: Bytes)
  {
    exists a, b :: Behind(s, 0x7B) == Some(a) && ReadNumberMember(a) == Some((key, number, [0x2C, 0x20] + b))
      && ReadStringMember(b) == Some((key', text, [0x7D, 0x0A]))
  }

  /** Bytes that are written as they are. */
  predicate IsPlain(s: Bytes)
  {
    forall i :: 0 <= i < |s| ==> s[i] >= 0x20 && s[i] != QUOTE && s[i] != BACKSLASH
  }

  lemma {:induction false} PlainEscaped(s: Bytes)
    requires IsPlain(s)
    ensures Escaped(s) == s
  {
    if s != [] {
      PlainEscaped(s[1..]);
      assert EscapeByte(s[0]) == [s[0]] && s == [s[0]] + s[1..];
    }
  }

  /** A key as it stands in front of its value. */
  function KeyText(key: Bytes): (s: Bytes) { [QUOTE] + key + [QUOTE, 0x3A, 0x20] }

  lemma PlainReadsBack(s: Bytes, rest: Bytes)
    requires IsPlain(s)
    ensures ReadString(s + [QUOTE] + rest) == Some((s, rest))
  {
    PlainEscaped(s);
    EscapeRoundTrip(s, rest);
  }

  lemma KeyReadsBack(key: Bytes, rest: Bytes)
    requires IsPlain(key)
    ensures ReadKey(KeyText(key) + rest) == Some((key, rest))
  {
    var s, after := KeyText(key) + rest, [0x3A, 0x20] + rest;
    assert s[1..] == key + [QUOTE] + after;
    PlainReadsBack(key, after);
    assert after[2..] == rest;
  }

  lemma NumberMemberReadsBack(key: Bytes, n: nat, rest: Bytes)
    requires IsPlain(key) && rest != [] && !IsDigit(rest[0])
    ensures ReadNumberMember(KeyText(key) + (Decimal(n) + rest)) == Some((key, n, rest))
  {
    KeyReadsBack(key, Decimal(n) + rest);
    DecimalReadsBack(n, rest);
  }

  lemma StringMemberReadsBack(key: Bytes, text: Bytes, rest: Bytes)
    requires IsPlain(key)
    ensures ReadStringMember(KeyText(key) + ([QUOTE] + (Escaped(text) + [QUOTE] + rest))) == Some((key, text, rest))
  {
    var value := Escaped(text) + [QUOTE] + rest;
    KeyReadsBack(key, [QUOTE] + value);
    assert ([QUOTE] + value)[1..] == value;
    EscapeRoundTrip(text, rest);
  }

  const CODE_KEY: Bytes := [0x65, 0x72, 0x72, 0x6F, 0x72, 0x5F, 0x63, 0x6F, 0x64, 0x65]

  const MESSAGE_KEY: Bytes := [0x65, 0x72, 0x72, 0x6F, 0x72, 0x5F, 0x6D, 0x65, 0x73, 0x73, 0x61, 0x67, 0x65]

  lemma CodeOpening()
    ensures AsBytes("error_code") == CODE_KEY && AsBytes("{\"error_code\": ") == [0x7B] + KeyText(CODE_KEY)
  {
  }

  lemma MessageOpening()
    ensures AsBytes("error_message") == MESSAGE_KEY
    ensures AsBytes(", \"error_message\": \"") == [0x2C, 0x20] + KeyText(MESSAGE_KEY) + [QUOTE]
  {
  }

  /** Parts one after the other, however they are grouped. */
  lemma Grouped(a: Bytes, b: Bytes, c: Bytes, d: Bytes, e: Bytes, f: Bytes, g: Bytes)
    ensures ((a + b) + c + (d + e + f)) + g == a + (b + (c + (d + (e + (f + g)))))
  {
    Associate(a + b + c, d + e + f, g);
    Associate(d + e, f, g);
    Associate(d, e, f + g);
    Associate(a + b, c, d + (e + (f + g)));
    Associate(a, b, c + (d + (e + (f + g))));
  }

  lemma ObjectReadsBack(code: nat, key: Bytes, key': Bytes, text: Bytes, s: Bytes)
    requires IsPlain(key) && IsPlain(key')
    requires var b := KeyText(key') + ([QUOTE] + (Escaped(text) + [QUOTE] + CLOSING));
      s == [0x7B] + (KeyText(key) + (Decimal(code) + ([0x2C, 0x20] + b)))
    ensures IsObject(s, key, code, key', text)
  {
    var b := KeyText(key') + ([QUOTE] + (Escaped(text) + [QUOTE] + CLOSING));
    var a := KeyText(key) + (Decimal(code) + ([0x2C, 0x20] + b));
    assert Behind(s, 0x7B) == Some(a) by { assert s[1..] == a; }
    assert ReadNumberMember(a) == Some((key, code, [0x2C, 0x20] + b)) by {
      NumberMemberReadsBack(key, code, [0x2C, 0x20] + b);
    }
    StringMemberReadsBack(key', text, CLOSING);
  }

  lemma ErrorParts(code: nat, message: Bytes)
    ensures var b := KeyText(MESSAGE_KEY) + ([QUOTE] + (Escaped(message) + [QUOTE] + CLOSING));
      Opening(code) + (Escaped(message) + [QUOTE] + CLOSING)
        == [0x7B] + (KeyText(CODE_KEY) + (Decimal(code) + ([0x2C, 0x20] + b)))
  {
    CodeOpening();
    MessageOpening();
    Grouped([0x7B], KeyText(CODE_KEY), Decimal(code), [0x2C, 0x20], KeyText(MESSAGE_KEY), [QUOTE],
            Escaped(message) + [QUOTE] + CLOSING);
  }

  /** The error object: read back, it has the code and the message under their keys and nothing
      else. */
  method CreateJsonError(code: nat, message: Bytes) returns (s: Bytes)
    ensures IsObject(s, AsBytes("error_code"), code, AsBytes("error_message"), message)
  {
    var escaped := EscapeString(message);
    s := Opening(code) + (escaped + [QUOTE] + CLOSING);
    ErrorParts(code, message);
    ObjectReadsBack(code, CODE_KEY, MESSAGE_KEY, message, s);
    CodeOpening();
    MessageOpening();
  }
}
