/** Texts: sequences of 16-bit units, of code points and of bytes, and the transcoding
    between them. */
module UtfText {
  import opened Common
  import opened UtfCodec

  predicate IsHi(c: nat) { c / 0x400 == 0xD800 / 0x400 }
  predicate IsLo(c: nat) { c / 0x400 == 0xDC00 / 0x400 }

  function FromSurrogate(hi: Unit, lo: Unit): Word32 { 65536 + 1024 * (hi as int % 1024) + lo as int % 1024 }

  function HiOf(c: nat): Unit
    requires 0x1_0000 <= c < 0x11_0000
  {
    c / 0x400 - 0x1_0000 / 0x400 + 0xD800
  }

  function LoOf(c: nat): Unit { c % 0x400 + 0xDC00 }

  /** Surrogate pairs stand for the code points from U+10000, one pair each, in this order. */
  lemma SurrogatesExact(hi: Unit, lo: Unit, c: nat)
    requires 0x1_0000 <= c < 0x11_0000
    ensures (IsHi(hi) <==> 0xD800 <= hi <= 0xDBFF) && (IsLo(lo) <==> 0xDC00 <= lo <= 0xDFFF)
    ensures IsHi(hi) && IsLo(lo) ==> FromSurrogate(hi, lo) == 0x1_0000 + (hi - 0xD800) * 0x400 + (lo - 0xDC00)
    ensures IsHi(HiOf(c)) && IsLo(LoOf(c)) && FromSurrogate(HiOf(c), LoOf(c)) == c
    ensures IsHi(hi) && IsLo(lo) ==>
      0x1_0000 <= FromSurrogate(hi, lo) < 0x11_0000 && HiOf(FromSurrogate(hi, lo)) == hi
        && LoOf(FromSurrogate(hi, lo)) == lo
  {
  }

  type CodePoint = c: nat | c < 0x11_0000

  // ----- units and code points -----

  /** The code points of a 16-bit string: pairs joined, lone surrogates kept. */
  function CodePoints(u: seq<Unit>): seq<CodePoint>
    decreases |u|
  {
    if u == [] then []
    else if IsHi(u[0]) && |u| > 1 && IsLo(u[1]) then
      assert FromSurrogate(u[0], u[1]) < 0x11_0000;
      [FromSurrogate(u[0], u[1])] + CodePoints(u[2..])
    else [u[0]] + CodePoints(u[1..])
  }

  function UnitsOf(c: CodePoint): seq<Unit> { if c > 0xFFFF then [HiOf(c), LoOf(c)] else [c] }

  function Units(cs: seq<CodePoint>): seq<Unit> { if cs == [] then [] else UnitsOf(cs[0]) + Units(cs[1..]) }

  lemma UnitsCons(c: CodePoint, cs: seq<CodePoint>)
    ensures Units([c] + cs) == UnitsOf(c) + Units(cs)
  {
    assert ([c] + cs)[1..] == cs;
  }

  lemma UnitsOfPair(hi: Unit, lo: Unit)
    requires IsHi(hi) && IsLo(lo)
    ensures FromSurrogate(hi, lo) < 0x11_0000 && UnitsOf(FromSurrogate(hi, lo)) == [hi, lo]
  {
    hide HiOf;
    hide LoOf;
    hide FromSurrogate;
    hide IsHi;
    hide IsLo;
    SurrogatesExact(hi, lo, 0x1_0000);
  }

  lemma {:induction false} UnitsOfCodePoints(u: seq<Unit>)
    ensures Units(CodePoints(u)) == u
    decreases |u|
  {
    hide IsHi;
    hide IsLo;
    hide FromSurrogate;
    hide Units;
    if u == [] {
      assert Units([]) == [] by { NoUnits(); }
    } else if IsHi(u[0]) && |u| > 1 && IsLo(u[1]) {
      UnitsOfCodePoints(u[2..]);
      UnitsOfPair(u[0], u[1]);
      UnitsCons(FromSurrogate(u[0], u[1]), CodePoints(u[2..]));
      assert u == [u[0], u[1]] + u[2..];
    } else {
      UnitsOfCodePoints(u[1..]);
      UnitsCons(u[0], CodePoints(u[1..]));
      assert u == [u[0]] + u[1..];
    }
  }

  lemma NoUnits()
    ensures Units([]) == []
  {
  }

  /** No pair of surrogates stands where one code point should. */
  predicate Unpaired(cs: seq<CodePoint>) { forall i :: 0 < i < |cs| ==> !(IsHi(cs[i - 1]) && IsLo(cs[i])) }

  lemma {:induction false} CodePointsUnpaired(u: seq<Unit>)
    ensures Unpaired(CodePoints(u))
    ensures u != [] ==> CodePoints(u) != [] && (IsLo(CodePoints(u)[0]) ==> IsLo(u[0]))
    decreases |u|
  {
    if u != [] {
      var rest := if IsHi(u[0]) && |u| > 1 && IsLo(u[1]) then u[2..] else u[1..];
      CodePointsUnpaired(rest);
      var cs := CodePoints(u);
      assert cs[1..] == CodePoints(rest);
      forall i | 0 < i < |cs| ensures !(IsHi(cs[i - 1]) && IsLo(cs[i])) {
        if i > 1 { assert cs[i - 1] == CodePoints(rest)[i - 2] && cs[i] == CodePoints(rest)[i - 1]; }
      }
    }
  }

  lemma {:induction false} CodePointsOfUnits(cs: seq<CodePoint>)
    requires Unpaired(cs)
    ensures CodePoints(Units(cs)) == cs
    decreases |cs|
  {
    if cs != [] {
      assert Unpaired(cs[1..]) by {
        forall i | 0 < i < |cs[1..]| ensures !(IsHi(cs[1..][i - 1]) && IsLo(cs[1..][i])) {
          assert i + 1 < |cs| && !(IsHi(cs[i + 1 - 1]) && IsLo(cs[i + 1]));
        }
      }
      CodePointsOfUnits(cs[1..]);
      var u := Units(cs);
      if cs[0] > 0xFFFF {
        SurrogatesExact(0, 0, cs[0]);
        assert u[2..] == Units(cs[1..]);
      } else {
        assert u[1..] == Units(cs[1..]);
        if |cs| > 1 {
          assert u[1] == UnitsOf(cs[1])[0];
          if cs[1] > 0xFFFF { SurrogatesExact(0, 0, cs[1]); }
        }
      }
      assert cs == [cs[0]] + cs[1..];
    }
  }

  // ----- bytes -----

  function Bytes(cs: seq<CodePoint>): seq<Byte> { if cs == [] then [] else Utf8(cs[0]) + Bytes(cs[1..]) }

  /** The characters of any bytes, an error giving U+FFFD for one byte. */
  function Characters(b: seq<Byte>): seq<CodePoint>
    decreases |b|
  {
    if b == [] then []
    else
      DecodeExact(b, 0, 0);
      [DecodeLen(b).c] + Characters(b[DecodeLen(b).used..])
  }

  /** No byte of `b` is part of an error. */
  predicate WellFormed(b: seq<Byte>)
    decreases |b|
  {
    b == [] || (DecodeExact(b, 0, 0); Good(b, DecodeLen(b)) && WellFormed(b[DecodeLen(b).used..]))
  }

  lemma BytesCons(c: CodePoint, cs: seq<CodePoint>)
    ensures Bytes([c] + cs) == Utf8(c) + Bytes(cs)
  {
    assert ([c] + cs)[1..] == cs;
  }

  lemma CharactersCons(b: seq<Byte>)
    requires b != []
    ensures var d := DecodeLen(b);
            && 1 <= d.used <= |b| && d.c < 0x11_0000
            && Characters(b) == [d.c] + Characters(b[d.used..])
  {
    DecodeExact(b, 0, 0);
  }

  lemma {:induction false} CharactersOfBytes(cs: seq<CodePoint>)
    ensures Characters(Bytes(cs)) == cs && WellFormed(Bytes(cs))
    decreases |cs|
  {
    if cs != [] {
      var b := Bytes(cs);
      Utf8IsForm(cs[0]);
      DecodeEncoded(cs[0], Bytes(cs[1..]));
      CharactersOfBytes(cs[1..]);
      assert b[EncodeLen(cs[0])..] == Bytes(cs[1..]);
      assert cs == [cs[0]] + cs[1..];
    }
  }

  lemma {:induction false} BytesOfCharacters(b: seq<Byte>)
    requires WellFormed(b)
    ensures Bytes(Characters(b)) == b
    decreases |b|
  {
    hide DecodeLen;
    hide Utf8;
    hide Bytes;
    hide Characters;
    if b == [] {
      NoBytes();
    } else {
      var d := DecodeLen(b);
      CharactersCons(b);
      EncodeDecoded(b);
      BytesOfCharacters(b[d.used..]);
      BytesCons(d.c, Characters(b[d.used..]));
      assert b == b[..d.used] + b[d.used..];
    }
  }

  lemma NoBytes()
    ensures Bytes([]) == [] && Characters([]) == []
  {
  }

  /** Bytes are well-formed exactly when they are the encoding of some code points. */
  lemma WellFormedExact(b: seq<Byte>)
    ensures WellFormed(b) <==> Bytes(Characters(b)) == b
  {
    if WellFormed(b) { BytesOfCharacters(b); }
    CharactersOfBytes(Characters(b));
  }

  // ----- 16-bit strings and bytes -----

  function Encode16(u: seq<Unit>): seq<Byte> { Bytes(CodePoints(u)) }

  function Decode16(b: seq<Byte>): seq<Unit> { Units(Characters(b)) }

  /** Any 16-bit string, lone surrogates included, survives the way to UTF-8 and back. */
  lemma RoundTrip16(u: seq<Unit>)
    ensures Decode16(Encode16(u)) == u
  {
    CharactersOfBytes(CodePoints(u));
    UnitsOfCodePoints(u);
  }

  /** Bytes survive the way to 16-bit units and back exactly when they hold no encoding
      error and no surrogate pair in two three-byte forms. */
  lemma RoundTripBytes(b: seq<Byte>)
    ensures Encode16(Decode16(b)) == b <==> WellFormed(b) && Unpaired(Characters(b))
  {
    var cs := Characters(b);
    if WellFormed(b) && Unpaired(cs) {
      CodePointsOfUnits(cs);
      BytesOfCharacters(b);
    }
    if Encode16(Decode16(b)) == b {
      CharactersOfBytes(CodePoints(Units(cs)));
      CodePointsUnpaired(Units(cs));
    }
  }

  // ----- 8-bit strings -----

  /** The low bytes of the characters: what is stored for an 8-bit string. */
  function LowBytes(cs: seq<CodePoint>): (s: seq<Byte>)
    ensures |s| == |cs| && forall i :: 0 <= i < |s| ==> s[i] == cs[i] % 0x100
  {
    seq(|cs|, i requires 0 <= i < |cs| => cs[i] % 0x100)
  }

  function Latin1(s: seq<Byte>): (cs: seq<CodePoint>)
    ensures |s| == |cs| && forall i :: 0 <= i < |s| ==> cs[i] == s[i]
  {
    seq(|s|, i requires 0 <= i < |s| => s[i] as CodePoint)
  }

  function Encode8(s: seq<Byte>): seq<Byte> { Bytes(Latin1(s)) }

  function Decode8(b: seq<Byte>): seq<Byte> { LowBytes(Characters(b)) }

  /** The bytes hold no character from U+0800 and no error: what the 8-bit decoder asks for. */
  predicate Narrow(b: seq<Byte>) { forall c :: c in Characters(b) ==> c < 0x800 }

  lemma RoundTrip8(s: seq<Byte>)
    ensures Decode8(Encode8(s)) == s && Narrow(Encode8(s))
  {
    CharactersOfBytes(Latin1(s));
  }

  lemma UnitsOfNarrow(c: CodePoint)
    requires UnitsOf(c)[0] <= 0xFF
    ensures c <= 0xFF
  {
  }

  lemma {:induction false} UnitsNarrow(cs: seq<CodePoint>)
    requires forall c :: c in Units(cs) ==> c <= 0xFF
    ensures Units(cs) == cs && forall c :: c in cs ==> c <= 0xFF
    decreases |cs|
  {
    if cs != [] {
      var u := Units(cs);
      assert u[0] == UnitsOf(cs[0])[0] && u[0] in u;
      UnitsOfNarrow(cs[0]);
      assert u[1..] == Units(cs[1..]);
      forall c | c in Units(cs[1..]) ensures c <= 0xFF { assert c in u[1..] && c in u; }
      UnitsNarrow(cs[1..]);
      assert cs == [cs[0]] + cs[1..];
    }
  }

  /** When every unit fits in a byte, the 8-bit decoder is allowed, and gives the same units
      as the 16-bit decoder. */
  lemma NarrowAgrees(b: seq<Byte>)
    requires forall c :: c in Decode16(b) ==> c <= 0xFF
    ensures Narrow(b) && WellFormed(b)
    ensures |Decode8(b)| == |Decode16(b)| && forall i :: 0 <= i < |Decode8(b)| ==> Decode8(b)[i] == Decode16(b)[i]
  {
    hide Characters;
    hide WellFormed;
    hide Units;
    var cs := Characters(b);
    UnitsNarrow(cs);
    NarrowWellFormed(b);
    forall i | 0 <= i < |cs| ensures Decode8(b)[i] == Decode16(b)[i] { assert cs[i] in cs; }
  }

  lemma {:induction false} NarrowWellFormed(b: seq<Byte>)
    requires Narrow(b)
    ensures WellFormed(b)
    decreases |b|
  {
    if b != [] {
      DecodeExact(b, 0, 0);
      assert Characters(b)[0] in Characters(b);
      var rest := b[DecodeLen(b).used..];
      assert Characters(b)[1..] == Characters(rest);
      forall c | c in Characters(rest) ensures c < 0x800 { assert c in Characters(b)[1..] && c in Characters(b); }
      NarrowWellFormed(rest);
    }
  }

  // ----- what fits in a buffer -----

  /** The encoding of the longest run of whole characters that leaves a byte of `room` for
      the terminator. */
  function Kept(cs: seq<CodePoint>, room: int): seq<Byte>
    decreases |cs|
  {
    if cs == [] || |Utf8(cs[0])| >= room then [] else Utf8(cs[0]) + Kept(cs[1..], room - |Utf8(cs[0])|)
  }

  /** `Kept` is the encoding of a prefix; it leaves room for the terminator; and it is the
      whole encoding unless the next character would not fit. */
  lemma {:induction false} KeptLongest(cs: seq<CodePoint>, room: int) returns (n: nat)
    ensures n <= |cs| && Kept(cs, room) == Bytes(cs[..n])
    ensures Kept(cs, room) == [] || |Kept(cs, room)| < room
    ensures n < |cs| ==> |Bytes(cs[..n + 1])| >= room
    ensures room > 0 ==> (n == |cs| <==> |Bytes(cs)| < room)
    decreases |cs|
  {
    hide Utf8;
    if cs == [] {
      return 0;
    }
    var first := |Utf8(cs[0])|;
    if first >= room {
      n := 0;
      assert cs[..1] == [cs[0]] + [];
      BytesCons(cs[0], []);
    } else {
      var m := KeptLongest(cs[1..], room - first);
      n := m + 1;
      assert cs[..n] == [cs[0]] + cs[1..][..m];
      BytesCons(cs[0], cs[1..][..m]);
      if n < |cs| {
        assert cs[..n + 1] == [cs[0]] + cs[1..][..m + 1];
        BytesCons(cs[0], cs[1..][..m + 1]);
      }
    }
  }
}
