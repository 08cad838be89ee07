/** The buffer functions: scanning UTF-8, decoding it into 8-bit or 16-bit units and encoding
    such units, each into a destination of limited size. */
module UtfBuffers {
  import opened Common
  import opened UtfCodec
  import opened UtfText
  import opened DtoaArith

  /** The result bits of the scan. */
  datatype Kind = Kind(nonAscii: bool, has16Bit: bool, hasNonBmp1: bool, hasErrors: bool)

  const PLAIN_ASCII: Kind := Kind(false, false, false, false)

  ghost predicate Above(s: seq<nat>, limit: nat) { exists i :: 0 <= i < |s| && s[i] > limit }

  /** What the bits promise about the bytes. */
  ghost function KindOf(b: seq<Byte>): Kind {
    Kind(Above(b, 0x7F), Above(Decode16(b), 0xFF), Above(Characters(b), 0xFFFF), !WellFormed(b))
  }

  // ----- one character at a time -----

  lemma AboveAppend(s: seq<nat>, t: seq<nat>, limit: nat)
    ensures Above(s + t, limit) <==> Above(s, limit) || Above(t, limit)
  {
    if Above(s, limit) {
      var i :| 0 <= i < |s| && s[i] > limit;
      assert (s + t)[i] > limit;
    }
    if Above(t, limit) {
      var i :| 0 <= i < |t| && t[i] > limit;
      assert (s + t)[|s| + i] > limit;
    }
  }

  /** The first character of a text and the rest of it. */
  lemma Step(b: seq<Byte>)
    requires b != []
    ensures var d := DecodeLen(b);
            && 1 <= d.used <= |b| && d.c < 0x11_0000
            && (b[0] < 0x80 ==> d == Decoded(b[0], 1))
            && Characters(b) == [d.c] + Characters(b[d.used..])
            && Decode16(b) == UnitsOf(d.c) + Decode16(b[d.used..])
            && (WellFormed(b) <==> Good(b, d) && WellFormed(b[d.used..]))
  {
    DecodeExact(b, 0, 0);
    CharactersCons(b);
    UnitsCons(DecodeLen(b).c, Characters(b[DecodeLen(b).used..]));
  }

  lemma UnitsOfAbove(c: CodePoint)
    ensures Above(UnitsOf(c), 0xFF) <==> c > 0xFF
    ensures Above([c], 0xFFFF) <==> c > 0xFFFF
    ensures |UnitsOf(c)| == if c > 0xFFFF then 2 else 1
  {
    if c > 0xFF {
      assert UnitsOf(c)[0] > 0xFF;
    }
    assert [c][0] == c;
  }

  /** How the bits of a text come from its first character and the rest. */
  lemma StepKind(b: seq<Byte>)
    requires b != []
    ensures var d := DecodeLen(b);
            && 1 <= d.used <= |b|
            && KindOf(b).has16Bit == (d.c > 0xFF || KindOf(b[d.used..]).has16Bit)
            && KindOf(b).hasNonBmp1 == (d.c > 0xFFFF || KindOf(b[d.used..]).hasNonBmp1)
            && KindOf(b).hasErrors == (!Good(b, d) || KindOf(b[d.used..]).hasErrors)
            && |Decode16(b)| == (if d.c > 0xFFFF then 2 else 1) + |Decode16(b[d.used..])|
  {
    hide DecodeLen;
    hide Characters;
    hide WellFormed;
    hide Decode16;
    hide UnitsOf;
    hide Above;
    hide Good;
    Step(b);
    var d := DecodeLen(b);
    UnitsOfAbove(d.c);
    AboveAppend(UnitsOf(d.c), Decode16(b[d.used..]), 0xFF);
    AboveAppend([d.c], Characters(b[d.used..]), 0xFFFF);
  }

  lemma NothingLeft()
    ensures KindOf([]) == PLAIN_ASCII && Decode16([]) == []
  {
  }

  /** Plain ASCII decodes to itself. */
  lemma {:induction false} AsciiKind(b: seq<Byte>)
    requires !Above(b, 0x7F)
    ensures KindOf(b) == PLAIN_ASCII && Decode16(b) == b
    decreases |b|
  {
    hide KindOf;
    hide Decode16;
    hide DecodeLen;
    hide Above;
    if b == [] {
      NothingLeft();
    } else {
      assert b == [b[0]] + b[1..];
      AboveAppend([b[0]], b[1..], 0x7F);
      AsciiHead(b);
      Step(b);
      AsciiKind(b[1..]);
      StepKind(b);
      KindParts(b);
    }
  }

  lemma KindParts(b: seq<Byte>)
    requires !Above(b, 0x7F)
    ensures !KindOf(b).nonAscii
  {
  }

  lemma AsciiHead(b: seq<Byte>)
    requires b != [] && !Above(b, 0x7F)
    ensures b[0] < 0x80 && DecodeLen(b) == Decoded(b[0], 1) && Good(b, DecodeLen(b))
  {
  }

  // ----- the scan -----

  /** A fold of bitwise ors has its top bit set exactly when one of the bytes has. */
  lemma {:induction false} OrTop(x: nat, y: nat, k: nat)
    requires x < Pow(2, k + 1) && y < Pow(2, k + 1)
    ensures BitOr(x, y) < Pow(2, k + 1)
    ensures BitOr(x, y) >= Pow(2, k) <==> x >= Pow(2, k) || y >= Pow(2, k)
    decreases k
  {
    if x != 0 && y != 0 {
      if k == 0 {
        assert Pow(2, 1) == 2 * Pow(2, 0);
        assert x == 1 && y == 1 && BitOr(0, 0) == 0;
      } else {
        OrTop(x / 2, y / 2, k - 1);
        assert Pow(2, k + 1) == 2 * Pow(2, k) && Pow(2, k) == 2 * Pow(2, k - 1);
      }
    } else {
      assert Pow(2, k + 1) == 2 * Pow(2, k);
    }
  }

  lemma OrByte(x: Byte, y: Byte)
    ensures BitOr(x, y) < 0x100 && (BitOr(x, y) >= 0x80 <==> x >= 0x80 || y >= 0x80)
  {
    OrTop(x, y, 7);
    assert Pow(2, 1) == 2 && Pow(2, 2) == 4 && Pow(2, 3) == 8 && Pow(2, 4) == 16 && Pow(2, 5) == 32 && Pow(2, 6) == 64
      && Pow(2, 7) == 128;
    assert Pow(2, 8) == 256;
  }

  /** The scan reports exactly the content bits, and counts exactly the units that the 16-bit
      decoder produces. */
  method Utf8Scan(buf: seq<Byte>) returns (kind: Kind, len: nat)
    ensures kind == KindOf(buf) && len == |Decode16(buf)|
  {
    hide KindOf;
    hide Decode16;
    kind := PLAIN_ASCII;
    var cbits: Byte := 0;
    len := |buf|;
    for i := 0 to |buf|
      invariant cbits >= 0x80 <==> Above(buf[..i], 0x7F)
    {
      OrByte(cbits, buf[i]);
      cbits := BitOr(cbits, buf[i]);
      AboveAppend(buf[..i], [buf[i]], 0x7F);
      assert buf[..i + 1] == buf[..i] + [buf[i]];
      assert Above([buf[i]], 0x7F) <==> buf[i] >= 0x80 by { assert [buf[i]][0] == buf[i]; }
    }
    assert buf[..|buf|] == buf;
    if cbits >= 0x80 {
      kind, len := ScanWide(buf);
    } else {
      AsciiKind(buf);
    }
  }

  /** The part of the scan for a buffer that is not plain ASCII. */
  method ScanWide(buf: seq<Byte>) returns (kind: Kind, len: nat)
    requires Above(buf, 0x7F)
    ensures kind == KindOf(buf) && len == |Decode16(buf)|
  {
    hide Above;
    hide Decode16;
    hide DecodeLen;
    hide Characters;
    hide WellFormed;
    kind := PLAIN_ASCII.(nonAscii := true);
    len := 0;
    var p := 0;
    while p < |buf|
      invariant p <= |buf| && kind.nonAscii
      invariant |Decode16(buf)| == len + |Decode16(buf[p..])|
      invariant KindOf(buf).has16Bit == (kind.has16Bit || KindOf(buf[p..]).has16Bit)
      invariant KindOf(buf).hasNonBmp1 == (kind.hasNonBmp1 || KindOf(buf[p..]).hasNonBmp1)
      invariant KindOf(buf).hasErrors == (kind.hasErrors || KindOf(buf[p..]).hasErrors)
    {
      Step(buf[p..]);
      StepKind(buf[p..]);
      ghost var d := DecodeLen(buf[p..]);
      assert buf[p..][d.used..] == buf[p + d.used..];
      len := len + 1;
      p := p + 1;
      if buf[p - 1] >= 0x80 {
        var next := DecodeLen(buf[p - 1..]);
        if next.used == 1 {
          kind := kind.(hasErrors := true);
        }
        p := p - 1 + next.used;
        if next.c > 0xFF {
          kind := kind.(has16Bit := true);
          if next.c > 0xFFFF {
            len := len + 1;
            kind := kind.(hasNonBmp1 := true);
          }
        }
      }
    }
    assert buf[p..] == [];
    NothingLeft();
    KindNonAscii(buf);
  }

  lemma KindNonAscii(b: seq<Byte>)
    ensures KindOf(b).nonAscii == Above(b, 0x7F)
  {
  }

  // ----- decoding -----

  predicate SameFrom<T(==)>(before: seq<T>, after: seq<T>, k: nat) {
    |before| == |after| && forall i :: k <= i < |after| ==> after[i] == before[i]
  }

  /** As much of `full` as there is room for, and nothing past it. */
  predicate Stored<T(==)>(after: seq<T>, before: seq<T>, full: seq<T>, room: nat)
    requires room <= |after|
  {
    (forall i :: 0 <= i < |full| && i < room ==> after[i] == full[i])
    && SameFrom(before, after, if |full| < room then |full| else room)
  }

  lemma StoreNone<T>(now: seq<T>, room: nat)
    requires room <= |now|
    ensures Stored(now, now, [], room)
  {
  }

  lemma StoreNext<T>(now: seq<T>, before: seq<T>, out: seq<T>, c: T, room: nat)
    requires room <= |now| && Stored(now, before, out, room)
    ensures if |out| < room then Stored(now[|out| := c], before, out + [c], room)
      else Stored(now, before, out + [c], room)
  {
  }

  /** What is left to decode after the character at `p`. */
  lemma DecodeNext(src: seq<Byte>, p: nat, out: seq<Unit>)
    requires p < |src| && Decode16(src) == out + Decode16(src[p..])
    ensures var d := DecodeLen(src[p..]);
            && 1 <= d.used && p + d.used <= |src| && d.c < 0x11_0000 && (src[p] < 0x80 ==> d == Decoded(src[p], 1))
            && Decode16(src) == out + UnitsOf(d.c) + Decode16(src[p + d.used..])
  {
    hide DecodeLen;
    hide Characters;
    hide WellFormed;
    hide Decode16;
    hide UnitsOf;
    Step(src[p..]);
    assert src[p..][DecodeLen(src[p..]).used..] == src[p + DecodeLen(src[p..]).used..];
  }

  lemma OutUnits(out: seq<Unit>, c: CodePoint)
    ensures out + UnitsOf(c) == if c > 0xFFFF then out + [HiOf(c)] + [LoOf(c)] else out + [c]
  {
  }

  /** The 16-bit decoder returns the number of units of the whole text, also when only the
      first `destLen` of them fit. */
  method Utf8DecodeBuf16(dest: array<Unit>, destLen: nat, src: seq<Byte>) returns (n: nat)
    requires destLen <= dest.Length
    modifies dest
    ensures n == |Decode16(src)|
    ensures Stored(dest[..], old(dest[..]), Decode16(src), destLen)
  {
    hide Decode16;
    hide DecodeLen;
    hide UnitsOf;
    hide HiOf;
    hide LoOf;
    hide Stored;
    var p, i := 0, 0;
    StoreNone(dest[..], destLen);
    ghost var out: seq<Unit> := [];
    assert src[0..] == src;
    while p < |src|
      invariant p <= |src| && |out| == i
      invariant Decode16(src) == out + Decode16(src[p..])
      invariant Stored(dest[..], old(dest[..]), out, destLen)
    {
      DecodeNext(src, p, out);
      OutUnits(out, DecodeLen(src[p..]).c);
      var c: nat := src[p];
      p := p + 1;
      if c >= 0x80 {
        var next := DecodeLen(src[p - 1..]);
        c, p := next.c, p - 1 + next.used;
        if c > 0xFFFF {
          StoreUnit(dest, destLen, i, HiOf(c), old(dest[..]), out);
          out, i := out + [HiOf(c)], i + 1;
          c := LoOf(c);
        }
      }
      StoreUnit(dest, destLen, i, c, old(dest[..]), out);
      out, i := out + [c], i + 1;
    }
    NothingLeft();
    assert src[p..] == [];
    assert Decode16(src) == out;
    n := i;
  }

  /** One unit is stored if there is room for it. */
  method StoreUnit<T>(dest: array<T>, destLen: nat, i: nat, c: T, ghost was: seq<T>, ghost out: seq<T>)
    requires destLen <= dest.Length && |out| == i && Stored(dest[..], was, out, destLen)
    modifies dest
    ensures Stored(dest[..], was, out + [c], destLen)
  {
    StoreNext(dest[..], was, out, c, destLen);
    if i < destLen { dest[i] := c; }
  }

  /** A text that the 8-bit decoder accepts starts with an ASCII byte or a two-byte form. */
  lemma NarrowStep(b: seq<Byte>)
    requires b != [] && Narrow(b)
    ensures var d := DecodeLen(b);
            && 1 <= d.used <= |b|
            && Decode8(b) == [d.c % 0x100] + Decode8(b[d.used..]) && Narrow(b[d.used..])
            && (b[0] < 0xC0 ==> d == Decoded(b[0], 1))
            && (b[0] >= 0xC0 ==> |b| >= 2 && d.used == 2 && d.c == b[0] as int * 64 + b[1] as int - (0xC0 * 64 + 0x80))
  {
    hide WellFormed;
    hide Decode16;
    Step(b);
    var d := DecodeLen(b);
    var rest := Characters(b[d.used..]);
    assert Characters(b)[0] in Characters(b);
    forall c | c in rest ensures c < 0x800 { assert c in Characters(b); }
    NarrowForm(b);
  }

  lemma NarrowForm(b: seq<Byte>)
    requires b != [] && DecodeLen(b).c < 0x800
    ensures var d := DecodeLen(b);
            && (b[0] < 0xC0 ==> d == Decoded(b[0], 1))
            && (b[0] >= 0xC0 ==> |b| >= 2 && d.used == 2 && d.c == b[0] as int * 64 + b[1] as int - (0xC0 * 64 + 0x80))
  {
  }

  /** The 8-bit decoder, for the texts it is meant for: the same, and a terminating zero
      within the buffer, which takes the place of the last unit if there is no room. */
  method Utf8DecodeBuf8(dest: array<Byte>, destLen: nat, src: seq<Byte>) returns (n: nat)
    requires destLen <= dest.Length && Narrow(src)
    modifies dest
    ensures n == |Decode8(src)|
    ensures destLen > 0 ==>
      Stored(dest[..], old(dest[..]), (if n < destLen then Decode8(src) else Decode8(src)[..destLen - 1]) + [0],
        destLen)
    ensures destLen == 0 ==> dest[..] == old(dest[..])
  {
    hide Decode8;
    hide DecodeLen;
    hide Narrow;
    var p, i := 0, 0;
    ghost var out: seq<Byte> := [];
    assert src[0..] == src;
    while p < |src|
      invariant p <= |src| && |out| == i && Narrow(src[p..])
      invariant Decode8(src) == out + Decode8(src[p..])
      invariant Stored(dest[..], old(dest[..]), out, destLen)
    {
      NarrowStep(src[p..]);
      ghost var d := DecodeLen(src[p..]);
      assert src[p..][d.used..] == src[p + d.used..];
      var c: nat := src[p];
      p := p + 1;
      if c >= 0xC0 {
        c := c * 64 + src[p] as int - (0xC0 * 64 + 0x80);
        p := p + 1;
      }
      StoreUnit(dest, destLen, i, c % 0x100, old(dest[..]), out);
      out := out + [c % 0x100];
      i := i + 1;
    }
    assert src[p..] == [];
    assert Decode8([]) == [] by { Nothing8(); }
    if i < destLen {
      dest[i] := 0;
    } else if destLen > 0 {
      dest[destLen - 1] := 0;
    }
    n := i;
  }

  lemma Nothing8()
    ensures Decode8([]) == []
  {
  }

  const JS_STRING_LEN_MAX: nat := 0x3FFF_FFFF

  /** A string of 8-bit or of 16-bit units, or none because it would be too long. */
  datatype JSString = Str8(chars8: seq<Byte>) | Str16(chars16: seq<Unit>) | InvalidLength

  /** A string is made of any bytes: the scan chooses the decoder and the size of the buffer,
      and the string holds the units of the text, as bytes exactly when they all fit. */
  method NewStringLen(buf: seq<Byte>) returns (str: JSString)
    ensures str.InvalidLength? <==> |Decode16(buf)| > JS_STRING_LEN_MAX
    ensures str.Str8? ==> str.chars8 == Decode16(buf) && !Above(Decode16(buf), 0xFF)
    ensures str.Str16? ==> str.chars16 == Decode16(buf) && Above(Decode16(buf), 0xFF)
  {
    hide Decode16;
    hide Decode8;
    hide Narrow;
    hide Above;
    if |buf| <= 0 {
      NothingLeft();
      NarrowBits(buf);
      return Str8([]);
    }
    var kind, len := Utf8Scan(buf);
    NarrowBits(buf);
    if len > JS_STRING_LEN_MAX { return InvalidLength; }
    if kind == PLAIN_ASCII {
      AsciiKind(buf);
      str := Str8(buf);
    } else if kind == PLAIN_ASCII.(nonAscii := true) {
      var chars := new Byte[len + 1];
      var n := Utf8DecodeBuf8(chars, len + 1, buf);
      FullStore(chars[..], Decode8(buf));
      str := Str8(chars[..len]);
    } else {
      var chars := new Unit[len];
      var n := Utf8DecodeBuf16(chars, len, buf);
      FullStore(chars[..], Decode16(buf));
      str := Str16(chars[..]);
    }
  }

  lemma FullStore<T>(after: seq<T>, full: seq<T>)
    requires forall i :: 0 <= i < |full| && i < |after| ==> after[i] == full[i]
    ensures |full| <= |after| ==> after[..|full|] == full
  {
  }

  /** Without a wide unit there is neither an error nor a pair, and the 8-bit decoder gives
      the units of the text. */
  lemma NarrowBits(b: seq<Byte>)
    ensures KindOf(b).has16Bit == Above(Decode16(b), 0xFF)
    ensures !Above(Decode16(b), 0xFF) ==>
      !KindOf(b).hasErrors && !KindOf(b).hasNonBmp1 && Narrow(b) && Decode8(b) == Decode16(b)
  {
    if !Above(Decode16(b), 0xFF) {
      forall c | c in Decode16(b) ensures c <= 0xFF {}
      NarrowAgrees(b);
      UnitsNarrow(Characters(b));
    }
  }

  // ----- encoding -----

  /** The bytes that fit, a terminator if there is a buffer at all, and the rest untouched. */
  predicate Written(after: seq<Byte>, before: seq<Byte>, kept: seq<Byte>, room: nat)
    requires room <= |before|
  {
    if room == 0 then after == before
    else |kept| < room && after == kept + [0] + before[|kept| + 1..]
  }

  lemma PairIsWide(hi: Unit, lo: Unit)
    ensures 0xFFFF < FromSurrogate(hi, lo) < 0x11_0000
  {
  }

  /** The first character of a 16-bit string, and how many units it takes. */
  function First(u: seq<Unit>): (c: CodePoint)
    requires u != []
    ensures c > 0xFFFF <==> IsHi(u[0]) && |u| > 1 && IsLo(u[1])
  {
    if IsHi(u[0]) && |u| > 1 && IsLo(u[1]) then
      PairIsWide(u[0], u[1]);
      FromSurrogate(u[0], u[1])
    else u[0]
  }

  lemma CodePointsStep(u: seq<Unit>)
    requires u != []
    ensures var used := if First(u) > 0xFFFF then 2 else 1;
            && CodePoints(u) == [First(u)] + CodePoints(u[used..])
            && Encode16(u) == Utf8(First(u)) + Encode16(u[used..])
  {
    hide Bytes;
    hide Utf8;
    hide IsHi;
    hide IsLo;
    hide FromSurrogate;
    BytesCons(First(u), CodePoints(u[if First(u) > 0xFFFF then 2 else 1..]));
  }

  lemma KeptStep(c: CodePoint, cs: seq<CodePoint>, room: int)
    ensures Kept([c] + cs, room) == if |Utf8(c)| >= room then [] else Utf8(c) + Kept(cs, room - |Utf8(c)|)
  {
    assert ([c] + cs)[1..] == cs;
  }

  /** One character, read as the encoder reads it. */
  method ReadUnits(src: seq<Unit>, start: nat) returns (c: Word32, i: nat)
    requires start < |src|
    ensures c == First(src[start..]) && i == start + (if c > 0xFFFF then 2 else 1) <= |src|
    ensures src[start..][if c > 0xFFFF then 2 else 1..] == src[i..]
  {
    c, i := src[start], start + 1;
    if c >= 0x80 {
      if IsHi(c) && i < |src| && IsLo(src[i]) {
        c, i := FromSurrogate(src[i - 1], src[i]), i + 1;
      }
    }
  }

  /** `out` has been written over the beginning of `was`. */
  predicate Over(now: seq<Byte>, was: seq<Byte>, out: seq<Byte>) { |out| <= |was| && now == out + was[|out|..] }

  lemma OverNext(now: seq<Byte>, next: seq<Byte>, was: seq<Byte>, out: seq<Byte>, b: seq<Byte>)
    requires Over(now, was, out) && |out| + |b| <= |was|
    requires next == now[..|out|] + b + now[|out| + |b|..]
    ensures Over(next, was, out + b)
  {
  }

  lemma OverTwo(now: seq<Byte>, j: nat, x: Byte, y: Byte)
    requires j < |now|
    ensures now[j := x] == now[..j] + [x] + now[j + 1..]
    ensures j + 1 < |now| ==> now[j := x][j + 1 := y] == now[..j] + [x, y] + now[j + 2..]
  {
  }

  lemma OverEnd(now: seq<Byte>, was: seq<Byte>, out: seq<Byte>, room: nat)
    requires Over(now, was, out) && room <= |was| && (out == [] || |out| < room)
    ensures Written(if |out| < room then now[|out| := 0] else now, was, out, room)
  {
  }

  /** What is left to encode after the character at `start`, and whether it is kept. */
  lemma EncodeNext(src: seq<Unit>, start: nat, i: nat, c: CodePoint, out: seq<Byte>, room: int)
    requires start < i <= |src| && c == First(src[start..]) && src[start..][if c > 0xFFFF then 2 else 1..] == src[i..]
    requires Encode16(src) == out + Encode16(src[start..])
    requires Kept(CodePoints(src), room) == out + Kept(CodePoints(src[start..]), room - |out|)
    ensures |out| + EncodeLen(c) >= room ==> Kept(CodePoints(src), room) == out
    ensures |out| + EncodeLen(c) < room ==>
      Kept(CodePoints(src), room) == out + Utf8(c) + Kept(CodePoints(src[i..]), room - |out + Utf8(c)|)
    ensures Encode16(src) == out + Utf8(c) + Encode16(src[i..])
  {
    hide Encode16;
    hide Kept;
    hide CodePoints;
    hide Utf8;
    hide First;
    hide EncodeLen;
    CodePointsStep(src[start..]);
    KeptStep(c, CodePoints(src[i..]), room - |out|);
    Utf8Length(c);
  }

  /** The 16-bit encoder stores the longest run of whole characters that leaves room for the
      terminator, and returns the length of the whole encoding. */
  method Utf8EncodeBuf16(dest: array<Byte>, destLen: nat, src: seq<Unit>) returns (n: nat)
    requires destLen <= dest.Length
    modifies dest
    ensures n == |Encode16(src)|
    ensures Written(dest[..], old(dest[..]), Kept(CodePoints(src), destLen), destLen)
  {
    hide Encode16;
    hide Kept;
    hide CodePoints;
    hide Over;
    hide Written;
    var i, j := StoreCharacters(dest, destLen, src);
    OverEnd(dest[..], old(dest[..]), Kept(CodePoints(src), destLen), destLen);
    ghost var now := dest[..];
    if j < destLen { dest[j] := 0; }
    assert dest[..] == if j < destLen then now[j := 0] else now;
    n := Utf8Count16(src, i);
    n := j + n;
  }

  /** The loop of the encoder, up to the end or to the first character that does not fit. */
  method StoreCharacters(dest: array<Byte>, destLen: nat, src: seq<Unit>) returns (i: nat, j: nat)
    requires destLen <= dest.Length
    modifies dest
    ensures i <= |src| && j == |Kept(CodePoints(src), destLen)| && (j == 0 || j < destLen)
    ensures Encode16(src) == Kept(CodePoints(src), destLen) + Encode16(src[i..])
    ensures Over(dest[..], old(dest[..]), Kept(CodePoints(src), destLen))
  {
    hide Encode16;
    hide Kept;
    hide CodePoints;
    hide Utf8;
    hide First;
    hide Over;
    hide EncodeLen;
    i, j := 0, 0;
    ghost var out: seq<Byte> := [];
    OverNone(dest[..]);
    assert src[0..] == src;
    while i < |src|
      invariant i <= |src| && |out| == j && (j == 0 || j < destLen)
      invariant Encode16(src) == out + Encode16(src[i..])
      invariant Kept(CodePoints(src), destLen) == out + Kept(CodePoints(src[i..]), destLen - j)
      invariant Over(dest[..], old(dest[..]), out)
    {
      ghost var start := i;
      var c;
      c, i := ReadUnits(src, i);
      EncodeNext(src, start, i, c, out, destLen);
      if j + EncodeLen(c) >= destLen {
        i := i - (1 + if c > 0xFFFF then 1 else 0);
        return;
      }
      ghost var now := dest[..];
      assert now[..j] == dest[..j] && now[j + EncodeLen(c)..] == dest[j + EncodeLen(c)..];
      var k := Utf8Encode(dest, j, c);
      Utf8Length(c);
      OverNext(now, dest[..], old(dest[..]), out, Utf8(c));
      out := out + Utf8(c);
      j := j + k;
    }
    assert src[i..] == [];
    NothingToEncode(destLen - j);
    assert Kept(CodePoints(src), destLen) == out;
  }

  lemma OverNone(now: seq<Byte>)
    ensures Over(now, now, [])
  {
  }

  /** The rest of the encoding is only counted. */
  method Utf8Count16(src: seq<Unit>, start: nat) returns (n: nat)
    requires start <= |src|
    ensures n == |Encode16(src[start..])|
  {
    hide Encode16;
    hide CodePoints;
    hide Utf8;
    hide First;
    var i := start;
    n := 0;
    while i < |src|
      invariant start <= i <= |src|
      invariant |Encode16(src[start..])| == n + |Encode16(src[i..])|
    {
      CodePointsStep(src[i..]);
      var c;
      c, i := ReadUnits(src, i);
      Utf8Length(c);
      n := n + EncodeLen(c);
    }
    assert src[i..] == [];
    NothingToEncode(0);
  }

  lemma NothingToEncode(room: int)
    ensures Encode16([]) == [] && Kept(CodePoints([]), room) == []
  {
  }

  lemma Utf8Length(c: Word32)
    ensures |Utf8(c)| == EncodeLen(c)
  {
  }

  /** The same for an 8-bit string. */
  lemma Encode8Next(src: seq<Byte>, i: nat, out: seq<Byte>, room: int)
    requires i < |src|
    requires Encode8(src) == out + Encode8(src[i..])
    requires Kept(Latin1(src), room) == out + Kept(Latin1(src[i..]), room - |out|)
    ensures var b := if src[i] < 0x80 then [src[i]] else [src[i] / 64 + 0xC0, src[i] % 64 + 0x80];
            && (|out| + |b| >= room ==> Kept(Latin1(src), room) == out)
            && (|out| + |b| < room ==>
              Kept(Latin1(src), room) == out + b + Kept(Latin1(src[i + 1..]), room - |out + b|))
            && Encode8(src) == out + b + Encode8(src[i + 1..])
  {
    hide Encode8;
    hide Kept;
    hide Utf8;
    hide Latin1;
    Latin1Step(src[i..]);
    assert src[i..][1..] == src[i + 1..];
    KeptStep(src[i], Latin1(src[i + 1..]), room - |out|);
    Utf8Low(src[i]);
  }

  /** The 8-bit encoder, likewise. */
  method Utf8EncodeBuf8(dest: array<Byte>, destLen: nat, src: seq<Byte>) returns (n: nat)
    requires destLen <= dest.Length
    modifies dest
    ensures n == |Encode8(src)|
    ensures Written(dest[..], old(dest[..]), Kept(Latin1(src), destLen), destLen)
  {
    hide Encode8;
    hide Kept;
    hide Latin1;
    hide Over;
    hide Written;
    var i, j := StoreBytes(dest, destLen, src);
    OverEnd(dest[..], old(dest[..]), Kept(Latin1(src), destLen), destLen);
    ghost var now := dest[..];
    if j < destLen { dest[j] := 0; }
    assert dest[..] == if j < destLen then now[j := 0] else now;
    n := Utf8Count8(src, i);
    n := j + n;
  }

  method StoreOne(dest: array<Byte>, j: nat, x: Byte, ghost was: seq<Byte>, ghost out: seq<Byte>)
    requires j < dest.Length && |out| == j && Over(dest[..], was, out)
    modifies dest
    ensures Over(dest[..], was, out + [x])
  {
    ghost var now := dest[..];
    OverTwo(now, j, x, x);
    dest[j] := x;
    OverNext(now, dest[..], was, out, [x]);
  }

  method StoreTwo(dest: array<Byte>, j: nat, x: Byte, y: Byte, ghost was: seq<Byte>, ghost out: seq<Byte>)
    requires j + 1 < dest.Length && |out| == j && Over(dest[..], was, out)
    modifies dest
    ensures Over(dest[..], was, out + [x, y])
  {
    ghost var now := dest[..];
    OverTwo(now, j, x, y);
    dest[j] := x;
    dest[j + 1] := y;
    OverNext(now, dest[..], was, out, [x, y]);
  }

  method StoreBytes(dest: array<Byte>, destLen: nat, src: seq<Byte>) returns (i: nat, j: nat)
    requires destLen <= dest.Length
    modifies dest
    ensures i <= |src| && j == |Kept(Latin1(src), destLen)| && (j == 0 || j < destLen)
    ensures Encode8(src) == Kept(Latin1(src), destLen) + Encode8(src[i..])
    ensures Over(dest[..], old(dest[..]), Kept(Latin1(src), destLen))
  {
    hide Encode8;
    hide Kept;
    hide Latin1;
    hide Over;
    i, j := 0, 0;
    ghost var out: seq<Byte> := [];
    OverNone(dest[..]);
    assert src[0..] == src;
    while i < |src|
      invariant i <= |src| && |out| == j && (j == 0 || j < destLen)
      invariant Encode8(src) == out + Encode8(src[i..])
      invariant Kept(Latin1(src), destLen) == out + Kept(Latin1(src[i..]), destLen - j)
      invariant Over(dest[..], old(dest[..]), out)
    {
      Encode8Next(src, i, out, destLen);
      var c := src[i];
      if c < 0x80 {
        if j + 1 >= destLen { return; }
        StoreOne(dest, j, c, old(dest[..]), out);
        out, j := out + [c], j + 1;
      } else {
        if j + 2 >= destLen { return; }
        StoreTwo(dest, j, c / 64 + 0xC0, c % 64 + 0x80, old(dest[..]), out);
        out, j := out + [c / 64 + 0xC0, c % 64 + 0x80], j + 2;
      }
      i := i + 1;
    }
    assert src[i..] == [];
    Nothing8ToEncode(destLen - j);
    assert Kept(Latin1(src), destLen) == out;
  }

  method Utf8Count8(src: seq<Byte>, start: nat) returns (n: nat)
    requires start <= |src|
    ensures n == |Encode8(src[start..])|
  {
    hide Encode8;
    hide Latin1;
    hide Utf8;
    var i := start;
    n := 0;
    while i < |src|
      invariant start <= i <= |src|
      invariant |Encode8(src[start..])| == n + |Encode8(src[i..])|
    {
      Latin1Step(src[i..]);
      assert src[i..][1..] == src[i + 1..];
      Utf8Low(src[i]);
      n := n + 1 + if src[i] >= 0x80 then 1 else 0;
      i := i + 1;
    }
    assert src[i..] == [];
    Nothing8ToEncode(0);
  }

  lemma Latin1Step(s: seq<Byte>)
    requires s != []
    ensures Latin1(s) == [s[0]] + Latin1(s[1..]) && Encode8(s) == Utf8(s[0]) + Encode8(s[1..])
  {
    BytesCons(s[0], Latin1(s[1..]));
    assert Latin1(s) == [s[0]] + Latin1(s[1..]);
  }

  lemma Utf8Low(c: Word32)
    requires c < 0x100
    ensures Utf8(c) == if c < 0x80 then [c] else [c / 64 + 0xC0, c % 64 + 0x80]
  {
  }

  lemma Nothing8ToEncode(room: int)
    ensures Encode8([]) == [] && Kept(Latin1([]), room) == []
  {
  }
}
