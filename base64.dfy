/** Base64 as defined in section 4 of RFC 4648: the standard alphabet, 4 characters
    per 3 octets, `=` padding. The decoder is strict: only the canonical output of
    the encoder is accepted.

    The codec works in two layers. The arithmetic turns octets into symbols (a 6-bit
    digit or the pad) and back; the alphabet of Table 1 of RFC 4648 then turns each
    symbol into one character and back, position by position. */
module Base64 {
  import opened Wrappers

  type sextet = x: int | 0 <= x < 64

  const Pad: char := '='

  /** One position of the encoded text: a 6-bit value, or the pad. */
  datatype Symbol = Digit(value: sextet) | PadSymbol

  /** Characters of the alphabet (Table 1 of RFC 4648). */
  predicate IsAlphabetChar(c: char) {
    ('A' <= c <= 'Z') || ('a' <= c <= 'z') || ('0' <= c <= '9') || c == '+' || c == '/'
  }

  /** Characters that may appear in encoded text. */
  predicate IsEncodingChar(c: char) {
    IsAlphabetChar(c) || c == Pad
  }

  /** The character that encodes a 6-bit value. */
  function CharOf(v: sextet): (c: char)
    ensures IsAlphabetChar(c)
  {
    if v < 26 then ('A' as int + v) as char
    else if v < 52 then ('a' as int + (v - 26)) as char
    else if v < 62 then ('0' as int + (v - 52)) as char
    else if v == 62 then '+'
    else '/'
  }

  /** The 6-bit value an alphabet character encodes; the inverse of `CharOf`. */
  function ValueOf(c: char): (v: sextet)
    requires IsAlphabetChar(c)
    ensures CharOf(v) == c
  {
    if 'A' <= c <= 'Z' then c as int - 'A' as int
    else if 'a' <= c <= 'z' then c as int - 'a' as int + 26
    else if '0' <= c <= '9' then c as int - '0' as int + 52
    else if c == '+' then 62
    else 63
  }

  lemma {:induction false} ValueOfCharOf(v: sextet)
    ensures ValueOf(CharOf(v)) == v
  {
  }

  function SymbolChar(x: Symbol): (c: char)
    ensures IsEncodingChar(c)
  {
    match x
    case Digit(v) => CharOf(v)
    case PadSymbol => Pad
  }

  function CharSymbol(c: char): (x: Symbol)
    requires IsEncodingChar(c)
    ensures SymbolChar(x) == c
  {
    if c == Pad then PadSymbol else Digit(ValueOf(c))
  }

  /** The text of a sequence of symbols. */
  function Render(xs: seq<Symbol>): (s: string)
    ensures |s| == |xs|
    ensures forall i :: 0 <= i < |s| ==> s[i] == SymbolChar(xs[i]) && IsEncodingChar(s[i])
  {
    seq(|xs|, i requires 0 <= i < |xs| => SymbolChar(xs[i]))
  }

  /** The symbols of a text made of encoding characters. */
  function Symbols(s: string): (xs: seq<Symbol>)
    requires forall i :: 0 <= i < |s| ==> IsEncodingChar(s[i])
    ensures |xs| == |s|
    ensures forall i :: 0 <= i < |s| ==> xs[i] == CharSymbol(s[i])
  {
    seq(|s|, i requires 0 <= i < |s| => CharSymbol(s[i]))
  }

  /** Every symbol is read back from its character. */
  lemma {:induction false} SymbolsRender(xs: seq<Symbol>)
    ensures Symbols(Render(xs)) == xs
  {
    var s := Render(xs);
    forall i | 0 <= i < |xs|
      ensures CharSymbol(s[i]) == xs[i]
    {
      match xs[i]
      case Digit(v) =>
        ValueOfCharOf(v);
      case PadSymbol =>
    }
  }

  /** Every encoding character is rendered back from its symbol. */
  lemma {:induction false} RenderSymbols(s: string)
    requires forall i :: 0 <= i < |s| ==> IsEncodingChar(s[i])
    ensures Render(Symbols(s)) == s
  {
  }

  /** Four symbols for three octets. */
  function EncodeGroup(b0: byte, b1: byte, b2: byte): (xs: seq<Symbol>)
    ensures |xs| == 4 && forall i :: 0 <= i < 4 ==> xs[i].Digit?
  {
    [Digit(b0 / 4), Digit((b0 % 4) * 16 + b1 / 16), Digit((b1 % 16) * 4 + b2 / 64), Digit(b2 % 64)]
  }

  /** Four symbols for two final octets: three digits and one pad. */
  function EncodeTwo(b0: byte, b1: byte): seq<Symbol> {
    [Digit(b0 / 4), Digit((b0 % 4) * 16 + b1 / 16), Digit((b1 % 16) * 4), PadSymbol]
  }

  /** Four symbols for one final octet: two digits and two pads. */
  function EncodeOne(b0: byte): seq<Symbol> {
    [Digit(b0 / 4), Digit((b0 % 4) * 16), PadSymbol, PadSymbol]
  }

  /** The symbols of the encoding of `b`, one group of four per three octets. */
  function EncodeSymbols(b: seq<byte>): (xs: seq<Symbol>)
    ensures |xs| == 4 * ((|b| + 2) / 3)
    decreases |b|
  {
    if |b| == 0 then []
    else if |b| == 1 then EncodeOne(b[0])
    else if |b| == 2 then EncodeTwo(b[0], b[1])
    else
      assert (|b| + 2) / 3 == (|b[3..]| + 2) / 3 + 1;
      EncodeGroup(b[0], b[1], b[2]) + EncodeSymbols(b[3..])
  }

  /** `Convert.ToBase64String`. */
  function Encode(b: seq<byte>): (s: string)
    ensures |s| == 4 * ((|b| + 2) / 3)
    ensures |s| % 4 == 0 && (s == [] <==> b == [])
    ensures forall i :: 0 <= i < |s| ==> IsEncodingChar(s[i])
  {
    var xs := EncodeSymbols(b);
    assert |b| > 0 ==> (|b| + 2) / 3 > 0;
    Render(xs)
  }

  /** Three octets from four digits. */
  function DecodeGroup(v0: sextet, v1: sextet, v2: sextet, v3: sextet): (g: seq<byte>)
    ensures |g| == 3
  {
    [v0 * 4 + v1 / 16, (v1 % 16) * 16 + v2 / 4, (v2 % 4) * 64 + v3]
  }

  /** Two octets from three digits before one pad; the two unused bits must be zero
      (section 3.5 of RFC 4648). */
  function DecodeTwo(v0: sextet, v1: sextet, v2: sextet): (r: Option<seq<byte>>)
    ensures r.Some? <==> v2 % 4 == 0
    ensures r.Some? ==> |r.value| == 2
  {
    if v2 % 4 != 0 then None else Some([v0 * 4 + v1 / 16, (v1 % 16) * 16 + v2 / 4])
  }

  /** One octet from two digits before two pads; the four unused bits must be zero. */
  function DecodeOne(v0: sextet, v1: sextet): (r: Option<seq<byte>>)
    ensures r.Some? <==> v1 % 16 == 0
    ensures r.Some? ==> |r.value| == 1
  {
    if v1 % 16 != 0 then None else Some([v0 * 4 + v1 / 16])
  }

  /** The last group of four symbols. */
  function DecodeFinal(x0: Symbol, x1: Symbol, x2: Symbol, x3: Symbol): (r: Option<seq<byte>>)
  {
    match (x0, x1, x2, x3)
    case (Digit(v0), Digit(v1), Digit(v2), Digit(v3)) => Some(DecodeGroup(v0, v1, v2, v3))
    case (Digit(v0), Digit(v1), Digit(v2), PadSymbol) => DecodeTwo(v0, v1, v2)
    case (Digit(v0), Digit(v1), PadSymbol, PadSymbol) => DecodeOne(v0, v1)
    case _ => None
  }

  /** Octets from symbols: groups of four, the pad only in the last group. */
  function DecodeSymbols(xs: seq<Symbol>): (r: Option<seq<byte>>)
    decreases |xs|
  {
    if |xs| == 0 then Some([])
    else if |xs| < 4 then None
    else if |xs| == 4 then DecodeFinal(xs[0], xs[1], xs[2], xs[3])
    else if !(xs[0].Digit? && xs[1].Digit? && xs[2].Digit? && xs[3].Digit?) then None
    else
      var rest := DecodeSymbols(xs[4..]);
      if rest.None? then None
      else Some(DecodeGroup(xs[0].value, xs[1].value, xs[2].value, xs[3].value) + rest.value)
  }

  /** `Convert.FromBase64String`, strict: `None` where the library throws `FormatException`. */
  function Decode(s: string): (r: Option<seq<byte>>)
    ensures r.Some? ==> forall i :: 0 <= i < |s| ==> IsEncodingChar(s[i])
  {
    if forall i :: 0 <= i < |s| ==> IsEncodingChar(s[i]) then DecodeSymbols(Symbols(s))
    else None
  }

  /** Splitting a number into a high part and a low part of `d` values, for the
      three group sizes the codec uses. */
  lemma {:induction false} Place(hi: int, lo: int, d: int)
    requires d == 4 || d == 16 || d == 64
    requires 0 <= lo < d
    ensures (hi * d + lo) / d == hi && (hi * d + lo) % d == lo
  {
    if d == 4 {
      assert hi * d == hi * 4;
    } else if d == 16 {
      assert hi * d == hi * 16;
    } else {
      assert hi * d == hi * 64;
    }
  }

  lemma {:induction false} DecodeEncodeGroup(b0: byte, b1: byte, b2: byte)
    ensures var e := EncodeGroup(b0, b1, b2);
      DecodeGroup(e[0].value, e[1].value, e[2].value, e[3].value) == [b0, b1, b2]
  {
    Place(b0 % 4, b1 / 16, 16);
    Place(b1 % 16, b2 / 64, 4);
  }

  lemma {:induction false} DecodeEncodeTwo(b0: byte, b1: byte)
    ensures var e := EncodeTwo(b0, b1); DecodeTwo(e[0].value, e[1].value, e[2].value) == Some([b0, b1])
  {
    Place(b0 % 4, b1 / 16, 16);
    Place(b1 % 16, 0, 4);
  }

  lemma {:induction false} DecodeEncodeOne(b0: byte)
    ensures var e := EncodeOne(b0); DecodeOne(e[0].value, e[1].value) == Some([b0])
  {
    Place(b0 % 4, 0, 16);
  }

  lemma {:induction false} DecodePrepend(head: seq<Symbol>, rest: seq<Symbol>)
    requires |head| == 4 && forall i :: 0 <= i < 4 ==> head[i].Digit?
    ensures DecodeSymbols(head + rest) ==
      if DecodeSymbols(rest).None? then None
      else Some(DecodeGroup(head[0].value, head[1].value, head[2].value, head[3].value) + DecodeSymbols(rest).value)
  {
    var xs := head + rest;
    assert xs[4..] == rest;
    assert xs[0] == head[0] && xs[1] == head[1] && xs[2] == head[2] && xs[3] == head[3];
    if rest == [] {
      var g := DecodeGroup(head[0].value, head[1].value, head[2].value, head[3].value);
      assert g + [] == g;
    }
  }

  lemma {:induction false} DecodeEncodeShort(b: seq<byte>)
    requires 1 <= |b| <= 2
    ensures DecodeSymbols(EncodeSymbols(b)) == Some(b)
  {
    if |b| == 1 {
      var e := EncodeOne(b[0]);
      assert EncodeSymbols(b) == e;
      DecodeEncodeOne(b[0]);
      assert DecodeSymbols(e) == DecodeOne(e[0].value, e[1].value);
      assert b == [b[0]];
    } else {
      var e := EncodeTwo(b[0], b[1]);
      assert EncodeSymbols(b) == e;
      DecodeEncodeTwo(b[0], b[1]);
      assert DecodeSymbols(e) == DecodeTwo(e[0].value, e[1].value, e[2].value);
      assert b == [b[0], b[1]];
    }
  }

  lemma {:induction false} DecodeEncodeStep(b: seq<byte>)
    requires |b| >= 3
    requires DecodeSymbols(EncodeSymbols(b[3..])) == Some(b[3..])
    ensures DecodeSymbols(EncodeSymbols(b)) == Some(b)
  {
    var head := EncodeGroup(b[0], b[1], b[2]);
    DecodeEncodeGroup(b[0], b[1], b[2]);
    DecodePrepend(head, EncodeSymbols(b[3..]));
    assert b == [b[0], b[1], b[2]] + b[3..];
  }

  lemma {:induction false} DecodeEncodeSymbols(b: seq<byte>)
    ensures DecodeSymbols(EncodeSymbols(b)) == Some(b)
    decreases |b|
  {
    if 1 <= |b| <= 2 {
      DecodeEncodeShort(b);
    } else if |b| >= 3 {
      DecodeEncodeSymbols(b[3..]);
      DecodeEncodeStep(b);
    }
  }

  /** Decoding undoes encoding. */
  lemma {:induction false} DecodeEncode(b: seq<byte>)
    ensures Decode(Encode(b)) == Some(b)
  {
    SymbolsRender(EncodeSymbols(b));
    DecodeEncodeSymbols(b);
  }

  /** The arithmetic of a group: re-splitting the three octets built from four
      digits gives the digits back. */
  lemma {:induction false} EncodeDecodeGroup(v0: sextet, v1: sextet, v2: sextet, v3: sextet)
    ensures var g := DecodeGroup(v0, v1, v2, v3);
      EncodeGroup(g[0], g[1], g[2]) == [Digit(v0), Digit(v1), Digit(v2), Digit(v3)]
  {
    var g := DecodeGroup(v0, v1, v2, v3);
    var g0: int, g1: int, g2: int := v0 * 4 + v1 / 16, (v1 % 16) * 16 + v2 / 4, (v2 % 4) * 64 + v3;
    assert g[0] == g0 && g[1] == g1 && g[2] == g2;
    Place(v0, v1 / 16, 4);
    Place(v1 % 16, v2 / 4, 16);
    Place(v2 % 4, v3, 64);
    assert (g0 % 4) * 16 + g1 / 16 == v1 by {
      assert v1 == (v1 / 16) * 16 + v1 % 16;
    }
    assert (g1 % 16) * 4 + g2 / 64 == v2 by {
      assert v2 == (v2 / 4) * 4 + v2 % 4;
    }
  }

  lemma {:induction false} EncodeDecodeTwo(v0: sextet, v1: sextet, v2: sextet)
    requires DecodeTwo(v0, v1, v2).Some?
    ensures var g := DecodeTwo(v0, v1, v2).value;
      EncodeTwo(g[0], g[1]) == [Digit(v0), Digit(v1), Digit(v2), PadSymbol]
  {
    var g := DecodeTwo(v0, v1, v2).value;
    Place(v0, v1 / 16, 4);
    Place(v1 % 16, v2 / 4, 16);
    assert g[0] / 4 == v0 && g[0] % 4 == v1 / 16;
    assert g[1] / 16 == v1 % 16 && g[1] % 16 == v2 / 4;
    assert (g[0] % 4) * 16 + g[1] / 16 == v1;
    assert (g[1] % 16) * 4 == v2;
  }

  lemma {:induction false} EncodeDecodeOne(v0: sextet, v1: sextet)
    requires DecodeOne(v0, v1).Some?
    ensures var g := DecodeOne(v0, v1).value; EncodeOne(g[0]) == [Digit(v0), Digit(v1), PadSymbol, PadSymbol]
  {
    var g := DecodeOne(v0, v1).value;
    Place(v0, v1 / 16, 4);
    assert g[0] / 4 == v0 && g[0] % 4 == v1 / 16;
    assert (g[0] % 4) * 16 == v1;
  }

  lemma {:induction false} EncodeDecodeFinal(x0: Symbol, x1: Symbol, x2: Symbol, x3: Symbol)
    requires DecodeFinal(x0, x1, x2, x3).Some?
    ensures EncodeSymbols(DecodeFinal(x0, x1, x2, x3).value) == [x0, x1, x2, x3]
  {
    var g := DecodeFinal(x0, x1, x2, x3).value;
    if x2.Digit? && x3.Digit? {
      EncodeDecodeGroup(x0.value, x1.value, x2.value, x3.value);
      assert g[3..] == [];
    } else if x2.Digit? {
      EncodeDecodeTwo(x0.value, x1.value, x2.value);
    } else {
      EncodeDecodeOne(x0.value, x1.value);
    }
  }

  lemma {:induction false} EncodePrepend(g: seq<byte>, rest: seq<byte>)
    requires |g| == 3
    ensures EncodeSymbols(g + rest) == EncodeGroup(g[0], g[1], g[2]) + EncodeSymbols(rest)
  {
    assert (g + rest)[3..] == rest;
    assert (g + rest)[0] == g[0] && (g + rest)[1] == g[1] && (g + rest)[2] == g[2];
  }

  lemma {:induction false} EncodeDecodeStep(xs: seq<Symbol>)
    requires |xs| > 4 && DecodeSymbols(xs).Some?
    requires DecodeSymbols(xs[4..]).Some? ==> EncodeSymbols(DecodeSymbols(xs[4..]).value) == xs[4..]
    ensures EncodeSymbols(DecodeSymbols(xs).value) == xs
  {
    var g := DecodeGroup(xs[0].value, xs[1].value, xs[2].value, xs[3].value);
    var rest := DecodeSymbols(xs[4..]).value;
    EncodeDecodeGroup(xs[0].value, xs[1].value, xs[2].value, xs[3].value);
    EncodePrepend(g, rest);
    assert xs[..4] == [xs[0], xs[1], xs[2], xs[3]];
    assert xs == xs[..4] + xs[4..];
  }

  lemma {:induction false} EncodeDecodeSymbols(xs: seq<Symbol>)
    requires DecodeSymbols(xs).Some?
    ensures EncodeSymbols(DecodeSymbols(xs).value) == xs
    decreases |xs|
  {
    if |xs| == 4 {
      EncodeDecodeFinal(xs[0], xs[1], xs[2], xs[3]);
      assert xs == [xs[0], xs[1], xs[2], xs[3]];
    } else if |xs| > 4 {
      assert DecodeSymbols(xs[4..]).Some?;
      EncodeDecodeSymbols(xs[4..]);
      EncodeDecodeStep(xs);
    }
  }

  /** Encoding undoes decoding: only canonical text decodes. */
  lemma {:induction false} EncodeDecode(s: string)
    requires Decode(s).Some?
    ensures Encode(Decode(s).value) == s
  {
    EncodeDecodeSymbols(Symbols(s));
    RenderSymbols(s);
  }

  /** Text decodes to `b` exactly when it is the encoding of `b`. */
  lemma {:induction false} DecodeIffEncode(s: string, b: seq<byte>)
    ensures Decode(s) == Some(b) <==> s == Encode(b)
  {
    if Decode(s) == Some(b) {
      EncodeDecode(s);
    }
    if s == Encode(b) {
      DecodeEncode(b);
    }
  }
}
