/** The base64 encoding of section 4 of RFC 4648 (the alphabet of its Table 1,
    with `=` padding), as Python's `base64.b64encode` produces it, and a strict
    decoder for it.

    Both directions are split in two layers: the regrouping of bytes into 6-bit
    symbols (pure arithmetic), and the rendering of each symbol as one
    character of the alphabet. */
module Base64 {
  import opened Wrappers

  type byte = x: int | 0 <= x < 256
  type sextet = x: int | 0 <= x < 64

  /** One output position: a 6-bit value or the pad `=`. */
  datatype Sym = Digit(v: sextet) | PadSym

  const Pad: char := '='

  /** Table 1 of RFC 4648: the character that encodes a 6-bit value. */
  function CharOf(v: sextet): (c: char)
    ensures ValueOf(c) == Some(v)
  {
    if v < 26 then ('A' as int + v) as char
    else if v < 52 then ('a' as int + (v - 26)) as char
    else if v < 62 then ('0' as int + (v - 52)) as char
    else if v == 62 then '+'
    else '/'
  }

  /** The 6-bit value a character of the alphabet stands for; `None` for any
      other character, the pad included. */
  function ValueOf(c: char): Option<sextet>
  {
    if 'A' <= c <= 'Z' then Some(c as int - 'A' as int)
    else if 'a' <= c <= 'z' then Some(c as int - 'a' as int + 26)
    else if '0' <= c <= '9' then Some(c as int - '0' as int + 52)
    else if c == '+' then Some(62)
    else if c == '/' then Some(63)
    else None
  }

  /** The character of one symbol. */
  function Render1(x: Sym): (c: char)
    ensures SymOf(c) == Some(x)
  {
    match x
    case Digit(v) => CharOf(v)
    case PadSym => Pad
  }

  /** The symbol one character stands for, `None` outside the alphabet and pad. */
  function SymOf(c: char): Option<Sym>
  {
    if c == Pad then Some(PadSym)
    else match ValueOf(c)
      case Some(v) => Some(Digit(v))
      case None => None
  }

  lemma Render1SymOf(c: char)
    requires SymOf(c).Some?
    ensures Render1(SymOf(c).value) == c
  {
  }

  /** A character that may appear in an encoding: the alphabet or the pad. */
  predicate IsEncodingChar(c: char)
  {
    SymOf(c).Some?
  }

  function Render(xs: seq<Sym>): (s: string)
    ensures |s| == |xs|
    ensures forall i :: 0 <= i < |s| ==> IsEncodingChar(s[i])
  {
    seq(|xs|, i requires 0 <= i < |xs| => Render1(xs[i]))
  }

  /** The symbols of a text; `None` if some character is neither in the
      alphabet nor the pad. */
  function Lex(s: string): Option<seq<Sym>>
  {
    if forall i :: 0 <= i < |s| ==> SymOf(s[i]).Some? then
      Some(seq(|s|, i requires 0 <= i < |s| && SymOf(s[i]).Some? => SymOf(s[i]).value))
    else None
  }

  lemma LexRender(xs: seq<Sym>)
    ensures Lex(Render(xs)) == Some(xs)
  {
    var s := Render(xs);
    assert forall i :: 0 <= i < |s| ==> SymOf(s[i]) == Some(xs[i]);
    var ys := seq(|s|, i requires 0 <= i < |s| && SymOf(s[i]).Some? => SymOf(s[i]).value);
    assert ys == xs;
  }

  lemma RenderLex(s: string)
    requires Lex(s).Some?
    ensures Render(Lex(s).value) == s
  {
    forall i | 0 <= i < |s| ensures Render(Lex(s).value)[i] == s[i] {
      Render1SymOf(s[i]);
    }
  }

  /** Three bytes, 24 bits, as four 6-bit values, most significant first. */
  function Split3(b0: byte, b1: byte, b2: byte): seq<Sym>
  {
    [Digit(b0 / 4), Digit((b0 % 4) * 16 + b1 / 16), Digit((b1 % 16) * 4 + b2 / 64), Digit(b2 % 64)]
  }

  /** The final group of one byte: two values, zero-filled, and two pads. */
  function Split1(b0: byte): seq<Sym>
  {
    [Digit(b0 / 4), Digit((b0 % 4) * 16), PadSym, PadSym]
  }

  /** The final group of two bytes: three values, zero-filled, and one pad. */
  function Split2(b0: byte, b1: byte): seq<Sym>
  {
    [Digit(b0 / 4), Digit((b0 % 4) * 16 + b1 / 16), Digit((b1 % 16) * 4), PadSym]
  }

  /** The symbols of the encoding of `bs`: four per started group of three. */
  function Symbols(bs: seq<byte>): (r: seq<Sym>)
    ensures |r| == (|bs| + 2) / 3 * 4
    decreases |bs|
  {
    if |bs| == 0 then []
    else if |bs| == 1 then Split1(bs[0])
    else if |bs| == 2 then Split2(bs[0], bs[1])
    else Split3(bs[0], bs[1], bs[2]) + Symbols(bs[3..])
  }

  /** `base64.b64encode`: every character it produces is in the alphabet or the
      pad, so the `.strip()` and `.decode('ascii')` that the listeners apply to
      it change nothing. */
  function Encode(bs: seq<byte>): (r: string)
    ensures |r| == (|bs| + 2) / 3 * 4
    ensures forall i :: 0 <= i < |r| ==> IsEncodingChar(r[i])
  {
    Render(Symbols(bs))
  }

  /** Four 6-bit values back to three bytes. */
  function Join3(x0: Sym, x1: Sym, x2: Sym, x3: Sym): Option<seq<byte>>
  {
    if x0.Digit? && x1.Digit? && x2.Digit? && x3.Digit? then
      Some([x0.v * 4 + x1.v / 16, (x1.v % 16) * 16 + x2.v / 4, (x2.v % 4) * 64 + x3.v])
    else None
  }

  /** The final group, which may end in one or two pads; the bits a pad leaves
      over must be zero (section 3.5 of RFC 4648), so that every accepted text
      is the one encoding of what it decodes to. */
  function JoinLast(x0: Sym, x1: Sym, x2: Sym, x3: Sym): Option<seq<byte>>
  {
    if x2.PadSym? && x3.PadSym? then
      if x0.Digit? && x1.Digit? && x1.v % 16 == 0 then Some([x0.v * 4 + x1.v / 16])
      else None
    else if x3.PadSym? then
      if x0.Digit? && x1.Digit? && x2.Digit? && x2.v % 4 == 0 then
        Some([x0.v * 4 + x1.v / 16, (x1.v % 16) * 16 + x2.v / 4])
      else None
    else Join3(x0, x1, x2, x3)
  }

  /** Symbols back to bytes: `None` unless they form whole groups, padded only
      in the last one. */
  function Bytes(xs: seq<Sym>): Option<seq<byte>>
    decreases |xs|
  {
    if |xs| == 0 then Some([])
    else if |xs| < 4 then None
    else if |xs| == 4 then JoinLast(xs[0], xs[1], xs[2], xs[3])
    else
      match Join3(xs[0], xs[1], xs[2], xs[3])
      case None => None
      case Some(g) =>
        match Bytes(xs[4..])
        case None => None
        case Some(rest) => Some(g + rest)
  }

  /** Strict decoding of a base64 text. */
  function Decode(s: string): Option<seq<byte>>
  {
    match Lex(s)
    case None => None
    case Some(xs) => Bytes(xs)
  }

  /** Splitting three bytes into 6-bit values and joining them back loses nothing. */
  lemma SplitJoin(b0: int, b1: int, b2: int)
    requires 0 <= b0 < 256 && 0 <= b1 < 256 && 0 <= b2 < 256
    ensures (b0 / 4) * 4 + ((b0 % 4) * 16 + b1 / 16) / 16 == b0
    ensures (((b0 % 4) * 16 + b1 / 16) % 16) * 16 + ((b1 % 16) * 4 + b2 / 64) / 4 == b1
    ensures (((b1 % 16) * 4 + b2 / 64) % 4) * 64 + b2 % 64 == b2
  {
  }

  /** Joining four 6-bit values into three bytes and splitting them back loses nothing. */
  lemma JoinSplit(v0: int, v1: int, v2: int, v3: int)
    requires 0 <= v0 < 64 && 0 <= v1 < 64 && 0 <= v2 < 64 && 0 <= v3 < 64
    ensures (v0 * 4 + v1 / 16) / 4 == v0
    ensures ((v0 * 4 + v1 / 16) % 4) * 16 + ((v1 % 16) * 16 + v2 / 4) / 16 == v1
    ensures (((v1 % 16) * 16 + v2 / 4) % 16) * 4 + ((v2 % 4) * 64 + v3) / 64 == v2
    ensures ((v2 % 4) * 64 + v3) % 64 == v3
  {
  }

  lemma Split1Joins(b0: byte)
    ensures var g := Split1(b0); JoinLast(g[0], g[1], g[2], g[3]) == Some([b0])
  {
    SplitJoin(b0, 0, 0);
  }

  lemma Split2Joins(b0: byte, b1: byte)
    ensures var g := Split2(b0, b1); JoinLast(g[0], g[1], g[2], g[3]) == Some([b0, b1])
  {
    SplitJoin(b0, b1, 0);
  }

  lemma Split3Joins(b0: byte, b1: byte, b2: byte)
    ensures var g := Split3(b0, b1, b2); Join3(g[0], g[1], g[2], g[3]) == Some([b0, b1, b2])
    ensures var g := Split3(b0, b1, b2); JoinLast(g[0], g[1], g[2], g[3]) == Some([b0, b1, b2])
  {
    SplitJoin(b0, b1, b2);
  }

  lemma BytesSymbolsShort(bs: seq<byte>)
    requires |bs| <= 2
    ensures Bytes(Symbols(bs)) == Some(bs)
  {
    if |bs| == 1 {
      var xs := Symbols(bs);
      assert xs == Split1(bs[0]);
      assert Bytes(xs) == JoinLast(xs[0], xs[1], xs[2], xs[3]);
      Split1Joins(bs[0]);
      assert [bs[0]] == bs;
    } else if |bs| == 2 {
      var xs := Symbols(bs);
      assert xs == Split2(bs[0], bs[1]);
      assert Bytes(xs) == JoinLast(xs[0], xs[1], xs[2], xs[3]);
      Split2Joins(bs[0], bs[1]);
      assert [bs[0], bs[1]] == bs;
    }
  }

  lemma BytesOfGroup(g: seq<Sym>, rest: seq<Sym>, b: seq<byte>, bs: seq<byte>)
    requires |g| == 4 && |rest| > 0
    requires Join3(g[0], g[1], g[2], g[3]) == Some(b)
    requires Bytes(rest) == Some(bs)
    ensures Bytes(g + rest) == Some(b + bs)
  {
    var xs := g + rest;
    assert xs[0] == g[0] && xs[1] == g[1] && xs[2] == g[2] && xs[3] == g[3];
    assert xs[4..] == rest;
  }

  lemma SymbolsOfGroup(bs: seq<byte>)
    requires |bs| >= 3
    ensures Symbols(bs) == Split3(bs[0], bs[1], bs[2]) + Symbols(bs[3..])
  {
  }

  lemma BytesSymbolsLastGroup(b0: byte, b1: byte, b2: byte)
    ensures Bytes(Symbols([b0, b1, b2])) == Some([b0, b1, b2])
  {
    var bs := [b0, b1, b2];
    var g := Split3(b0, b1, b2);
    assert Symbols(bs) == g by {
      SymbolsOfGroup(bs);
      assert bs[3..] == [];
    }
    Split3Joins(b0, b1, b2);
  }

  lemma BytesSymbolsGroup(bs: seq<byte>, tail: seq<byte>)
    requires |bs| > 3 && tail == bs[3..]
    requires Bytes(Symbols(tail)) == Some(tail)
    ensures Bytes(Symbols(bs)) == Some(bs)
  {
    var b := [bs[0], bs[1], bs[2]];
    var rest := Symbols(tail);
    var g := Split3(bs[0], bs[1], bs[2]);
    assert |rest| > 0;
    SymbolsOfGroup(bs);
    Split3Joins(bs[0], bs[1], bs[2]);
    BytesOfGroup(g, rest, b, tail);
    assert b + tail == bs;
  }

  /** Regrouping undoes splitting. */
  lemma {:induction false} BytesSymbols(bs: seq<byte>)
    ensures Bytes(Symbols(bs)) == Some(bs)
    decreases |bs|
  {
    if |bs| <= 2 {
      BytesSymbolsShort(bs);
    } else if |bs| == 3 {
      BytesSymbolsLastGroup(bs[0], bs[1], bs[2]);
      assert [bs[0], bs[1], bs[2]] == bs;
    } else {
      BytesSymbols(bs[3..]);
      BytesSymbolsGroup(bs, bs[3..]);
    }
  }

  lemma Join3Splits(x0: Sym, x1: Sym, x2: Sym, x3: Sym)
    requires Join3(x0, x1, x2, x3).Some?
    ensures var g := Join3(x0, x1, x2, x3).value;
      |g| == 3 && Split3(g[0], g[1], g[2]) == [x0, x1, x2, x3]
  {
    JoinSplit(x0.v, x1.v, x2.v, x3.v);
  }

  lemma JoinLastSplits(x0: Sym, x1: Sym, x2: Sym, x3: Sym)
    requires JoinLast(x0, x1, x2, x3).Some?
    ensures Symbols(JoinLast(x0, x1, x2, x3).value) == [x0, x1, x2, x3]
  {
    var bs := JoinLast(x0, x1, x2, x3).value;
    if x2.PadSym? && x3.PadSym? {
      JoinSplit(x0.v, x1.v, 0, 0);
      assert Symbols(bs) == Split1(bs[0]);
    } else if x3.PadSym? {
      JoinSplit(x0.v, x1.v, x2.v, 0);
      assert Symbols(bs) == Split2(bs[0], bs[1]);
    } else {
      Join3Splits(x0, x1, x2, x3);
      assert bs[3..] == [];
      assert Symbols(bs) == Split3(bs[0], bs[1], bs[2]) + Symbols([]);
    }
  }

  /** Every symbol sequence that regroups is the splitting of what it yields. */
  lemma {:induction false} SymbolsBytes(xs: seq<Sym>)
    requires Bytes(xs).Some?
    ensures Symbols(Bytes(xs).value) == xs
    decreases |xs|
  {
    if |xs| == 0 {
    } else if |xs| == 4 {
      JoinLastSplits(xs[0], xs[1], xs[2], xs[3]);
      assert [xs[0], xs[1], xs[2], xs[3]] == xs;
    } else {
      var g := Join3(xs[0], xs[1], xs[2], xs[3]).value;
      var rest := Bytes(xs[4..]).value;
      var bs := Bytes(xs).value;
      assert bs == g + rest;
      Join3Splits(xs[0], xs[1], xs[2], xs[3]);
      SymbolsBytes(xs[4..]);
      assert bs[0] == g[0] && bs[1] == g[1] && bs[2] == g[2];
      assert bs[3..] == rest;
      assert Symbols(bs) == Split3(bs[0], bs[1], bs[2]) + Symbols(bs[3..]);
      assert [xs[0], xs[1], xs[2], xs[3]] + xs[4..] == xs;
    }
  }

  /** Decoding undoes encoding, for every byte string. */
  lemma DecodeEncode(bs: seq<byte>)
    ensures Decode(Encode(bs)) == Some(bs)
  {
    LexRender(Symbols(bs));
    BytesSymbols(bs);
  }

  /** Every text the decoder accepts is the encoding of what it yields. */
  lemma EncodeDecode(s: string)
    requires Decode(s).Some?
    ensures Encode(Decode(s).value) == s
  {
    RenderLex(s);
    SymbolsBytes(Lex(s).value);
  }

  /** The decoder accepts exactly the encodings, and inverts the encoder. */
  lemma DecodeIffEncode(s: string, bs: seq<byte>)
    ensures Decode(s) == Some(bs) <==> s == Encode(bs)
  {
    if Decode(s) == Some(bs) {
      EncodeDecode(s);
    }
    if s == Encode(bs) {
      DecodeEncode(bs);
    }
  }
}
