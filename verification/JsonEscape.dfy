/** String escaping of the chrome trace writer, against a reader of JSON string literals
    written from RFC 8259, section 7. */
module JsonEscape {
  import opened Wrappers

  type Byte = b: int | 0 <= b < 256

  const QUOTE: Byte := 0x22
  const BACKSLASH: Byte := 0x5C

  function HexDigit(d: nat): Byte
    requires d < 16
  {
    if d < 10 then 0x30 + d else 0x61 + d - 10
  }

  /** What `json_escape` writes for one byte: a short escape, `\u` and four lower-case hex
      digits for the other control bytes, the byte itself otherwise. */
  function EscapeByte(c: Byte): seq<Byte> {
    if c == QUOTE then [BACKSLASH, QUOTE]
    else if c == BACKSLASH then [BACKSLASH, BACKSLASH]
    else if c == 0x0A then [BACKSLASH, 0x6E]
    else if c == 0x0D then [BACKSLASH, 0x72]
    else if c == 0x09 then [BACKSLASH, 0x74]
    else if c < 0x20 then [BACKSLASH, 0x75, HexDigit(0), HexDigit(0), HexDigit(c / 16), HexDigit(c % 16)]
    else [c]
  }

  function Escape(s: seq<Byte>): seq<Byte> {
    if s == [] then [] else Escape(s[..|s| - 1]) + EscapeByte(s[|s| - 1])
  }

  datatype Literal = Literal(value: seq<Byte>, rest: seq<Byte>)

  function HexValue(b: Byte): Option<nat> {
    if 0x30 <= b <= 0x39 then Some(b - 0x30)
    else if 0x41 <= b <= 0x46 then Some(b - 0x41 + 10)
    else if 0x61 <= b <= 0x66 then Some(b - 0x61 + 10)
    else None
  }

  /** The code unit of four hex digits. */
  function FourHex(s: seq<Byte>): Option<nat>
    requires |s| >= 4
  {
    var a, b, c, d := HexValue(s[0]), HexValue(s[1]), HexValue(s[2]), HexValue(s[3]);
    if a.None? || b.None? || c.None? || d.None? then None
    else Some(((a.value * 16 + b.value) * 16 + c.value) * 16 + d.value)
  }

  /** UTF-8 of a code unit; halves of a surrogate pair are encoded one by one. */
  function Utf8(u: nat): seq<Byte>
    requires u < 0x10000
  {
    if u < 0x80 then [u]
    else if u < 0x800 then [0xC0 + u / 64, 0x80 + u % 64]
    else [0xE0 + u / 4096, 0x80 + u / 64 % 64, 0x80 + u % 64]
  }

  /** The byte a two-character escape stands for. */
  function ShortEscape(b: Byte): Option<Byte> {
    if b == QUOTE || b == BACKSLASH || b == 0x2F then Some(b)
    else if b == 0x62 then Some(0x08)
    else if b == 0x66 then Some(0x0C)
    else if b == 0x6E then Some(0x0A)
    else if b == 0x72 then Some(0x0D)
    else if b == 0x74 then Some(0x09)
    else None
  }

  function Prepend(value: seq<Byte>, r: Option<Literal>): Option<Literal> {
    if r.None? then None else Some(Literal(value + r.value.value, r.value.rest))
  }

  lemma HexBound(s: seq<Byte>)
    requires |s| >= 4 && FourHex(s).Some?
    ensures FourHex(s).value < 0x10000
  {
  }

  /** Reads a string literal whose opening quote has been consumed: its value, and what follows
      the first unescaped quote. Raw control bytes and unknown escapes are errors. */
  function ReadString(input: seq<Byte>): Option<Literal>
    decreases |input|
  {
    if input == [] || input[0] < 0x20 then None
    else if input[0] == QUOTE then Some(Literal([], input[1..]))
    else if input[0] != BACKSLASH then Prepend([input[0]], ReadString(input[1..]))
    else if |input| < 2 then None
    else if input[1] == 0x75 then
      if |input| < 6 || FourHex(input[2..]).None? then None
      else
        HexBound(input[2..]);
        Prepend(Utf8(FourHex(input[2..]).value), ReadString(input[6..]))
    else if ShortEscape(input[1]).None? then None
    else Prepend([ShortEscape(input[1]).value], ReadString(input[2..]))
  }

  lemma HexReadsBack(c: Byte, s: seq<Byte>)
    requires c < 0x20 && |s| >= 4
    requires s[0] == HexDigit(0) && s[1] == HexDigit(0) && s[2] == HexDigit(c / 16) && s[3] == HexDigit(c % 16)
    ensures FourHex(s) == Some(c)
  {
    assert c == c / 16 * 16 + c % 16;
  }

  lemma ByteReadsBack(c: Byte, tail: seq<Byte>)
    ensures ReadString(EscapeByte(c) + tail) == Prepend([c], ReadString(tail))
  {
    var e := EscapeByte(c);
    var input := e + tail;
    assert input[|e|..] == tail;
    assert forall k | 0 <= k < |e| :: input[k] == e[k];
    if |e| == 6 { HexReadsBack(c, input[2..]); }
  }

  lemma {:induction false} PrefixReadsBack(s: seq<Byte>, tail: seq<Byte>)
    ensures ReadString(Escape(s) + tail) == Prepend(s, ReadString(tail))
  {
    hide EscapeByte, ReadString;
    if s == [] {
      assert Escape(s) + tail == tail;
      var r := ReadString(tail);
      assert r.Some? ==> [] + r.value.value == r.value.value;
    } else {
      var front, c := s[..|s| - 1], s[|s| - 1];
      assert Escape(s) + tail == Escape(front) + (EscapeByte(c) + tail);
      PrefixReadsBack(front, EscapeByte(c) + tail);
      ByteReadsBack(c, tail);
      var r := ReadString(tail);
      assert r.Some? ==> front + ([c] + r.value.value) == s + r.value.value;
    }
  }

  /** Reading the escaped string up to a closing quote gives back the string and stops there, so
      the contents can neither end the literal early nor run past its end. */
  lemma {:induction false} EscapeReadsBack(s: seq<Byte>, rest: seq<Byte>)
    ensures ReadString(Escape(s) + [QUOTE] + rest) == Some(Literal(s, rest))
  {
    var input := [QUOTE] + rest;
    assert Escape(s) + [QUOTE] + rest == Escape(s) + input;
    assert input[1..] == rest;
    PrefixReadsBack(s, input);
    assert s + [] == s;
  }

  lemma {:induction false} NothingRaw(s: seq<Byte>)
    ensures forall k | 0 <= k < |Escape(s)| :: Escape(s)[k] >= 0x20
  {
    if s != [] { NothingRaw(s[..|s| - 1]); }
  }

  method JsonEscape(s: seq<Byte>) returns (out: seq<Byte>)
    ensures out == Escape(s)
    ensures forall rest :: ReadString(out + [QUOTE] + rest) == Some(Literal(s, rest))
    ensures forall k | 0 <= k < |out| :: out[k] >= 0x20
  {
    out := [];
    for i := 0 to |s|
      invariant out == Escape(s[..i])
    {
      assert s[..i + 1][..i] == s[..i];
      out := out + EscapeByte(s[i]);
    }
    assert s[..|s|] == s;
    forall rest ensures ReadString(out + [QUOTE] + rest) == Some(Literal(s, rest)) { EscapeReadsBack(s, rest); }
    NothingRaw(s);
  }

  // ---- RFC 8259, section 7 ----

  // ---- the two agree ----

  /** Different strings never look the same in the trace. */
  lemma EscapeIsInjective(s: seq<Byte>, t: seq<Byte>)
    requires Escape(s) == Escape(t)
    ensures s == t
  {
    EscapeReadsBack(s, []);
    EscapeReadsBack(t, []);
  }
}
