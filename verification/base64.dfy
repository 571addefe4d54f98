/** Base64 as section 4 of RFC 4648 defines it: base64_encode, and the
    decoding of well-formed input by base64_decode. */
module Base64 {
  import opened PhpStrings

  /** A 6-bit group, the value one symbol stands for. */
  type Sextet = v: int | 0 <= v < 64

  /** The symbol of a value: `A`-`Z`, `a`-`z`, `0`-`9`, `+`, `/` (table 1 of RFC 4648). */
  function Symbol(v: Sextet): Byte {
    if v < 26 then ('A' as int + v) as char
    else if v < 52 then ('a' as int + v - 26) as char
    else if v < 62 then ('0' as int + v - 52) as char
    else if v == 62 then '+'
    else '/'
  }

  /** The value of a symbol, or None for a byte outside the alphabet (`=` included). */
  function SymbolValue(c: Byte): (r: Option<Sextet>)
    ensures r.Some? ==> Symbol(r.value) == c
  {
    if 'A' <= c <= 'Z' then Some(c as int - 'A' as int)
    else if 'a' <= c <= 'z' then Some(c as int - 'a' as int + 26)
    else if '0' <= c <= '9' then Some(c as int - '0' as int + 52)
    else if c == '+' then Some(62)
    else if c == '/' then Some(63)
    else None
  }

  /** Each value has its own symbol, and reading the symbol gives the value back. */
  lemma {:induction false} SymbolValueOfSymbol(v: Sextet)
    ensures SymbolValue(Symbol(v)) == Some(v)
    ensures Symbol(v) != '='
  {
  }

  /** Three bytes as four symbols. */
  function EncodeTriple(b0: Byte, b1: Byte, b2: Byte): seq<Byte> {
    var (x, y, z) := (b0 as int, b1 as int, b2 as int);
    [Symbol(x / 4), Symbol(x % 4 * 16 + y / 16), Symbol(y % 16 * 4 + z / 64), Symbol(z % 64)]
  }

  /** base64_encode: whole groups of three bytes, then one or two bytes left
      over padded with `=` to a group of four symbols. */
  function Encode(s: seq<Byte>): (r: seq<Byte>)
    ensures |r| == (|s| + 2) / 3 * 4
    decreases |s|
  {
    if |s| == 0 then []
    else if |s| == 1 then
      var x := s[0] as int;
      [Symbol(x / 4), Symbol(x % 4 * 16), '=', '=']
    else if |s| == 2 then
      var (x, y) := (s[0] as int, s[1] as int);
      [Symbol(x / 4), Symbol(x % 4 * 16 + y / 16), Symbol(y % 16 * 4), '=']
    else EncodeTriple(s[0], s[1], s[2]) + Encode(s[3..])
  }

  /** Four symbol values as three bytes. */
  function DecodeQuad(v0: Sextet, v1: Sextet, v2: Sextet, v3: Sextet): seq<Byte> {
    [(v0 * 4 + v1 / 16) as char, (v1 % 16 * 16 + v2 / 4) as char, (v2 % 4 * 64 + v3) as char]
  }

  /** One group of four symbols: three bytes, or, in the last group only,
      two bytes before `=` or one byte before `==`. */
  function DecodeGroup(c0: Byte, c1: Byte, c2: Byte, c3: Byte, last: bool): Option<seq<Byte>> {
    match (SymbolValue(c0), SymbolValue(c1), SymbolValue(c2), SymbolValue(c3))
    case (Some(v0), Some(v1), Some(v2), Some(v3)) => Some(DecodeQuad(v0, v1, v2, v3))
    case (Some(v0), Some(v1), Some(v2), None) =>
      if last && c3 == '=' then Some(DecodeQuad(v0, v1, v2, 0)[..2]) else None
    case (Some(v0), Some(v1), None, None) =>
      if last && c2 == '=' && c3 == '=' then Some(DecodeQuad(v0, v1, 0, 0)[..1]) else None
    case _ => None
  }

  /** The decoding of well-formed Base64: groups of four symbols, where only
      the last group may end in `=` or `==`. Anything else is None. */
  function Decode(t: seq<Byte>): (r: Option<seq<Byte>>)
    decreases |t|
  {
    if |t| == 0 then Some([])
    else if |t| < 4 then None
    else
      match DecodeGroup(t[0], t[1], t[2], t[3], |t| == 4)
      case None => None
      case Some(group) =>
        match Decode(t[4..])
        case None => None
        case Some(rest) => Some(group + rest)
  }

  /** Putting a high and a low digit together in base 4 or base 16 and taking them apart again. */
  lemma {:induction false} DigitsOf(hi: int, lo: int, m: int)
    requires m == 4 || m == 16
    requires 0 <= lo < m
    ensures (hi * m + lo) / m == hi && (hi * m + lo) % m == lo
  {
    if m == 4 {
      assert (hi * 4 + lo) / 4 == hi;
    } else {
      assert (hi * 16 + lo) / 16 == hi;
    }
  }

  /** The four values one group stands for give the three bytes back. */
  lemma {:induction false} DecodeQuadOfBytes(x: int, y: int, z: int)
    requires 0 <= x < 256 && 0 <= y < 256 && 0 <= z < 256
    ensures DecodeQuad(x / 4, x % 4 * 16 + y / 16, y % 16 * 4 + z / 64, z % 64)
         == [x as char, y as char, z as char]
  {
    DigitsOf(x % 4, y / 16, 16);
    DigitsOf(y % 16, z / 64, 4);
  }

  /** A full group decodes to the three bytes it was made from. */
  lemma {:induction false} DecodeTriple(b0: Byte, b1: Byte, b2: Byte, last: bool)
    ensures var e := EncodeTriple(b0, b1, b2);
      DecodeGroup(e[0], e[1], e[2], e[3], last) == Some([b0, b1, b2])
  {
    var (x, y, z) := (b0 as int, b1 as int, b2 as int);
    SymbolValueOfSymbol(x / 4);
    SymbolValueOfSymbol(x % 4 * 16 + y / 16);
    SymbolValueOfSymbol(y % 16 * 4 + z / 64);
    SymbolValueOfSymbol(z % 64);
    DecodeQuadOfBytes(x, y, z);
  }

  /** The group `xy=` decodes to the two bytes it was made from. */
  lemma {:induction false} DecodePair(b0: Byte, b1: Byte)
    ensures var (x, y) := (b0 as int, b1 as int);
      DecodeGroup(Symbol(x / 4), Symbol(x % 4 * 16 + y / 16), Symbol(y % 16 * 4), '=', true) == Some([b0, b1])
  {
    var (x, y) := (b0 as int, b1 as int);
    SymbolValueOfSymbol(x / 4);
    SymbolValueOfSymbol(x % 4 * 16 + y / 16);
    SymbolValueOfSymbol(y % 16 * 4);
    DigitsOf(x % 4, y / 16, 16);
    DigitsOf(y % 16, 0, 4);
    var q := DecodeQuad(x / 4, x % 4 * 16 + y / 16, y % 16 * 4, 0);
    assert q[0] == b0 && q[1] == b1;
    assert q[..2] == [b0, b1];
  }

  /** The group `x==` decodes to the one byte it was made from. */
  lemma {:induction false} DecodeSingle(b0: Byte)
    ensures var x := b0 as int;
      DecodeGroup(Symbol(x / 4), Symbol(x % 4 * 16), '=', '=', true) == Some([b0])
  {
    var x := b0 as int;
    SymbolValueOfSymbol(x / 4);
    SymbolValueOfSymbol(x % 4 * 16);
    DigitsOf(x % 4, 0, 16);
    var q := DecodeQuad(x / 4, x % 4 * 16, 0, 0);
    assert q[0] == b0;
    assert q[..1] == [b0];
  }

  /** Four symbols alone are decoded as a last group. */
  lemma {:induction false} DecodeLast(t: seq<Byte>)
    requires |t| == 4
    ensures Decode(t) == DecodeGroup(t[0], t[1], t[2], t[3], true)
  {
    assert t[4..] == [];
    assert Decode(t[4..]) == Some([]);
    match DecodeGroup(t[0], t[1], t[2], t[3], true)
    case None =>
    case Some(g) => assert g + [] == g;
  }

  /** The one or two bytes of a last, padded group come back. */
  lemma {:induction false} DecodeEncodeShort(s: seq<Byte>)
    requires 1 <= |s| <= 2
    ensures Decode(Encode(s)) == Some(s)
  {
    var e := Encode(s);
    if |s| == 1 {
      DecodeSingle(s[0]);
      assert s == [s[0]];
    } else {
      DecodePair(s[0], s[1]);
      assert s == [s[0], s[1]];
    }
    DecodeLast(e);
  }

  /** Decode inverts Encode: base64_decode(base64_encode($s)) === $s. */
  lemma {:induction false} DecodeEncode(s: seq<Byte>)
    ensures Decode(Encode(s)) == Some(s)
    decreases |s|
  {
    if 1 <= |s| <= 2 {
      DecodeEncodeShort(s);
    } else if |s| >= 3 {
      var e := Encode(s);
      var t := EncodeTriple(s[0], s[1], s[2]);
      assert e == t + Encode(s[3..]);
      assert e[0] == t[0] && e[1] == t[1] && e[2] == t[2] && e[3] == t[3];
      DecodeTriple(s[0], s[1], s[2], |e| == 4);
      assert [s[0], s[1], s[2]] == s[..3];
      DecodeEncode(s[3..]);
      assert e[4..] == Encode(s[3..]);
      assert s == s[..3] + s[3..];
    }
  }

  /** Encode writes alphabet symbols, then at most two `=` at the very end. */
  lemma {:induction false} EncodeUsesAlphabet(s: seq<Byte>)
    ensures forall i :: 0 <= i < |Encode(s)| ==>
      SymbolValue(Encode(s)[i]).Some? || (Encode(s)[i] == '=' && i >= |Encode(s)| - 2)
    decreases |s|
  {
    var e := Encode(s);
    if |s| >= 3 {
      EncodeUsesAlphabet(s[3..]);
      var t := EncodeTriple(s[0], s[1], s[2]);
      forall i | 0 <= i < |e|
        ensures SymbolValue(e[i]).Some? || (e[i] == '=' && i >= |e| - 2)
      {
        if i < 4 {
          SymbolValueOfSymbol(if i == 0 then s[0] as int / 4 else if i == 1 then s[0] as int % 4 * 16 + s[1] as int / 16
                              else if i == 2 then s[1] as int % 16 * 4 + s[2] as int / 64 else s[2] as int % 64);
        } else {
          assert e[i] == Encode(s[3..])[i - 4];
        }
      }
    } else if |s| == 1 {
      SymbolValueOfSymbol(s[0] as int / 4);
      SymbolValueOfSymbol(s[0] as int % 4 * 16);
    } else if |s| == 2 {
      SymbolValueOfSymbol(s[0] as int / 4);
      SymbolValueOfSymbol(s[0] as int % 4 * 16 + s[1] as int / 16);
      SymbolValueOfSymbol(s[1] as int % 16 * 4);
    }
  }
}
