/** UTF-8 forms, one code point at a time. `IsForm` is the definition of the encoding; the
    encoders and decoders of `cutils.h` are proved against it. */
module UtfCodec {
  import opened Common

  type Unit = x: int | 0 <= x < 0x1_0000

  // ----- the definition: a lead byte, continuation bytes, the shortest form -----

  /** The first lead byte of a form of `n` bytes, */
  function Lead(n: nat): nat
    requires 2 <= n <= 7
  {
    match n case 2 => 0xC0 case 3 => 0xE0 case 4 => 0xF0 case 5 => 0xF8 case 6 => 0xFC case 7 => 0xFE
  }

  /** and the least code point that needs `n` bytes. */
  function Least(n: nat): nat
    requires 1 <= n <= 7
  {
    match n case 1 => 0 case 2 => 0x80 case 3 => 0x800 case 4 => 0x1_0000 case 5 => 0x20_0000 case 6 => 0x400_0000
    case 7 => 0x8000_0000
  }

  predicate Continuation(x: Byte) { 0x80 <= x < 0xC0 }

  /** Six more bits for every continuation byte. */
  function Payload(head: nat, tail: seq<Byte>): nat
    requires forall i :: 0 <= i < |tail| ==> Continuation(tail[i])
    decreases |tail|
  {
    if tail == [] then head
    else
      var last := tail[|tail| - 1];
      assert Continuation(last);
      Payload(head, tail[..|tail| - 1]) * 64 + (last as int - 0x80)
  }

  predicate Shaped(b: seq<Byte>) {
    2 <= |b| <= 6 && Lead(|b|) <= b[0] < Lead(|b| + 1) && forall i :: 1 <= i < |b| ==> Continuation(b[i])
  }

  predicate IsForm(b: seq<Byte>, c: int) {
    if |b| == 1 then b[0] == c && c < 0x80
    else Shaped(b) && Payload(b[0] - Lead(|b|), b[1..]) == c && Least(|b|) <= c
  }

  lemma Payload1(h: nat, x: Byte)
    requires Continuation(x)
    ensures Payload(h, [x]) == h * 64 + (x as int - 0x80)
  {
    assert [x][..0] == [];
  }

  lemma Payload2(h: nat, x: Byte, y: Byte)
    requires Continuation(x) && Continuation(y)
    ensures Payload(h, [x, y]) == (h * 64 + (x as int - 0x80)) * 64 + (y as int - 0x80)
  {
    assert [x, y][..1] == [x];
    Payload1(h, x);
  }

  lemma Payload3(h: nat, x: Byte, y: Byte, z: Byte)
    requires Continuation(x) && Continuation(y) && Continuation(z)
    ensures Payload(h, [x, y, z]) == ((h * 64 + (x as int - 0x80)) * 64 + (y as int - 0x80)) * 64 + (z as int - 0x80)
  {
    assert [x, y, z][..2] == [x, y];
    Payload2(h, x, y);
  }

  /** Table 3-6 of the Unicode Standard: the bits of a code point in bytes of each form. */
  lemma FormTable(c: nat)
    requires c < 0x20_0000
    ensures c < 0x80 ==> IsForm([c], c)
    ensures 0x80 <= c < 0x800 ==> IsForm([0xC0 + c / 64, 0x80 + c % 64], c)
    ensures 0x800 <= c < 0x1_0000 ==> IsForm([0xE0 + c / 4096, 0x80 + c / 64 % 64, 0x80 + c % 64], c)
    ensures 0x1_0000 <= c ==>
              IsForm([0xF0 + c / 262144, 0x80 + c / 4096 % 64, 0x80 + c / 64 % 64, 0x80 + c % 64], c)
  {
    hide Payload;
    if 0x80 <= c < 0x800 {
      TableTwo(c);
    } else if 0x800 <= c < 0x1_0000 {
      TableThree(c);
    } else if 0x1_0000 <= c {
      TableFour(c);
    }
  }

  lemma TableTwo(c: nat)
    requires 0x80 <= c < 0x800
    ensures IsForm([0xC0 + c / 64, 0x80 + c % 64], c)
  {
    var b: seq<Byte> := [0xC0 + c / 64, 0x80 + c % 64];
    assert b[1..] == [b[1]];
    Payload1(c / 64, b[1]);
  }

  lemma TableThree(c: nat)
    requires 0x800 <= c < 0x1_0000
    ensures IsForm([0xE0 + c / 4096, 0x80 + c / 64 % 64, 0x80 + c % 64], c)
  {
    var b: seq<Byte> := [0xE0 + c / 4096, 0x80 + c / 64 % 64, 0x80 + c % 64];
    assert b[1..] == [b[1], b[2]];
    Payload2(c / 4096, b[1], b[2]);
  }

  lemma TableFour(c: nat)
    requires 0x1_0000 <= c < 0x20_0000
    ensures IsForm([0xF0 + c / 262144, 0x80 + c / 4096 % 64, 0x80 + c / 64 % 64, 0x80 + c % 64], c)
  {
    hide Payload;
    var b: seq<Byte> := [0xF0 + c / 262144, 0x80 + c / 4096 % 64, 0x80 + c / 64 % 64, 0x80 + c % 64];
    assert b[1..] == [b[1], b[2], b[3]];
    Payload3(c / 262144, b[1], b[2], b[3]);
    Sextets(c);
  }

  lemma Sextets(c: nat)
    ensures ((c / 262144 * 64 + c / 4096 % 64) * 64 + c / 64 % 64) * 64 + c % 64 == c
  {
    var x := c / 64;
    var y := x / 64;
    assert c / 4096 == y && c / 262144 == y / 64;
    assert c == x * 64 + c % 64 && x == y * 64 + x % 64 && y == y / 64 * 64 + y % 64;
  }

  /** Head and payload bits are both read off the payload. */
  lemma {:induction false} PayloadInjective(h: nat, t: seq<Byte>, g: nat, s: seq<Byte>)
    requires |t| == |s|
    requires forall i :: 0 <= i < |t| ==> Continuation(t[i])
    requires forall i :: 0 <= i < |s| ==> Continuation(s[i])
    requires Payload(h, t) == Payload(g, s)
    ensures h == g && t == s
    decreases |t|
  {
    if t != [] {
      var k := |t| - 1;
      PayloadInjective(h, t[..k], g, s[..k]);
      assert t == t[..k] + [t[k]] && s == s[..k] + [s[k]];
    }
  }

  /** A form of `n` bytes has room for no more than the code points below the next one. */
  lemma {:induction false} PayloadBelow(h: nat, t: seq<Byte>, end: nat)
    requires forall i :: 0 <= i < |t| ==> Continuation(t[i])
    requires h < end
    ensures Payload(h, t) < end * Power64(|t|)
    decreases |t|
  {
    if t != [] {
      PayloadBelow(h, t[..|t| - 1], end);
      var p := Payload(h, t[..|t| - 1]);
      var q := end * Power64(|t| - 1);
      assert p + 1 <= q;
      assert end * (64 * Power64(|t| - 1)) == 64 * q;
    }
  }

  function Power64(n: nat): nat { if n == 0 then 1 else 64 * Power64(n - 1) }

  lemma FormBelow(b: seq<Byte>, c: int)
    requires IsForm(b, c)
    ensures 1 <= |b| <= 6 && Least(|b|) <= c < Least(|b| + 1)
  {
    if |b| > 1 {
      var end := Lead(|b| + 1) - Lead(|b|);
      PayloadBelow(b[0] - Lead(|b|), b[1..], end);
      Powers64();
    }
  }

  lemma Powers64()
    ensures Power64(1) == 0x40 && Power64(2) == 0x1000 && Power64(3) == 0x4_0000 && Power64(4) == 0x100_0000
      && Power64(5) == 0x4000_0000
  {
    assert Power64(2) == 64 * Power64(1);
    assert Power64(3) == 64 * Power64(2);
    assert Power64(4) == 64 * Power64(3);
    assert Power64(5) == 64 * Power64(4);
  }

  /** A code point has one form, */
  lemma FormUnique(a: seq<Byte>, b: seq<Byte>, c: int)
    requires IsForm(a, c) && IsForm(b, c)
    ensures a == b
  {
    FormBelow(a, c);
    FormBelow(b, c);
    assert |a| == |b|;
    if |a| > 1 {
      PayloadInjective(a[0] - Lead(|a|), a[1..], b[0] - Lead(|a|), b[1..]);
      assert a == [a[0]] + a[1..] && b == [b[0]] + b[1..];
    }
  }

  /** and no form is the beginning of another. */
  lemma FormPrefix(p: seq<Byte>, m: nat, c: int, n: nat, d: int)
    requires m <= |p| && n <= |p| && IsForm(p[..m], c) && IsForm(p[..n], d)
    ensures m == n && c == d
  {
    hide Payload;
    assert p[..m][0] == p[0] && p[..n][0] == p[0];
  }

  // ----- the encoder -----

  function EncodeLen(c: Word32): (n: nat) {
    if c < 0x80 then 1 else if c < 0x800 then 2 else if c < 0x1_0000 then 3 else if c < 0x11_0000 then 4 else 3
  }

  /** What is encoded for `c`: a word that is no code point becomes U+FFFD. */
  function Repair(c: Word32): nat { if c < 0x11_0000 then c else 0xFFFD }

  /** The bytes that the encoder writes. */
  function Utf8(c: Word32): (b: seq<Byte>) {
    if c < 0x80 then [c]
    else if c < 0x800 then [c / 64 + 0xC0, c % 64 + 0x80]
    else if c < 0x1_0000 then [c / 0x1000 + 0xE0, c / 64 % 64 + 0x80, c % 64 + 0x80]
    else if c < 0x11_0000 then [c / 0x4_0000 + 0xF0, c / 0x1000 % 64 + 0x80, c / 64 % 64 + 0x80, c % 64 + 0x80]
    else [0xFFFD / 0x1000 + 0xE0, 0xFFFD / 64 % 64 + 0x80, 0xFFFD % 64 + 0x80]
  }

  lemma Split2(c: nat)
    requires c < 0x1_0000
    ensures (c / 0x1000 * 64 + c / 64 % 64) * 64 + c % 64 == c
  {
  }

  lemma Split3(c: nat)
    requires c < 0x11_0000
    ensures ((c / 0x4_0000 * 64 + c / 0x1000 % 64) * 64 + c / 64 % 64) * 64 + c % 64 == c
  {
  }

  /** The encoder writes the form of the code point, of the length that was announced. */
  lemma Utf8IsForm(c: Word32)
    ensures IsForm(Utf8(c), if c < 0x11_0000 then c else 0xFFFD) && |Utf8(c)| == EncodeLen(c)
  {
    var d := Repair(c);
    var b := Utf8(c);
    hide Payload;
    assert b == Utf8(d);
    if 0x80 <= d < 0x800 {
      assert b[1..] == [b[1]];
      Payload1(b[0] - 0xC0, b[1]);
    } else if 0x800 <= d < 0x1_0000 {
      assert b[1..] == [b[1], b[2]];
      Payload2(b[0] - 0xE0, b[1], b[2]);
      Split2(d);
    } else if d >= 0x1_0000 {
      assert b[1..] == [b[1], b[2], b[3]];
      Payload3(b[0] - 0xF0, b[1], b[2], b[3]);
      Split3(d);
    }
  }

  /** The encoder stores its bytes in place and nothing else. */
  method Utf8Encode(buf: array<Byte>, at: nat, c: Word32) returns (n: nat)
    requires at + EncodeLen(c) <= buf.Length
    modifies buf
    ensures n == |Utf8(c)| && at + n <= buf.Length
    ensures buf[..] == old(buf[..at]) + Utf8(c) + old(buf[at + |Utf8(c)|..])
  {
    if c < 0x80 {
      buf[at] := c;
      return 1;
    }
    if c < 0x800 {
      buf[at] := c / 64 + 0xC0;
      buf[at + 1] := c % 64 + 0x80;
      return 2;
    }
    if c < 0x1_0000 {
      buf[at] := c / 0x1000 + 0xE0;
      buf[at + 1] := c / 64 % 64 + 0x80;
      buf[at + 2] := c % 64 + 0x80;
      return 3;
    }
    if c < 0x11_0000 {
      buf[at] := c / 0x4_0000 + 0xF0;
      buf[at + 1] := c / 0x1000 % 64 + 0x80;
      buf[at + 2] := c / 64 % 64 + 0x80;
      buf[at + 3] := c % 64 + 0x80;
      return 4;
    }
    buf[at] := 0xFFFD / 0x1000 + 0xE0;
    buf[at + 1] := 0xFFFD / 64 % 64 + 0x80;
    buf[at + 2] := 0xFFFD % 64 + 0x80;
    return 3;
  }

  // ----- the decoder -----

  datatype Decoded = Decoded(c: nat, used: nat)

  /** An error gives U+FFFD and consumes one byte. */
  const ERROR: Decoded := Decoded(0xFFFD, 1)

  /** What the decoder asks of the memory after `p`: enough bytes for the lead byte, or a
      terminating zero. */
  predicate Readable(p: seq<Byte>) {
    p != [] && (|p| >= 4 || 0 in p || p[0] < 0x80 || (p[0] < 0xE0 && |p| >= 2) || (p[0] < 0xF0 && |p| >= 3))
  }

  function Decode(p: seq<Byte>): Decoded
    requires Readable(p)
  {
    var c := p[0];
    if c < 0x80 then Decoded(c, 1)
    else if 0xC2 <= c < 0xE0 then
      if Continuation(p[1]) then Decoded((c as int - 0xC0) * 64 + (p[1] as int - 0x80), 2) else ERROR
    else if 0xE0 <= c < 0xF0 then
      var lower := if c == 0xE0 then 0xA0 else 0x80;
      if lower <= p[1] <= 0xBF && Continuation(p[2]) then
        Decoded((c as int - 0xE0) * 0x1000 + (p[1] as int - 0x80) * 64 + (p[2] as int - 0x80), 3)
      else ERROR
    else if 0xF0 <= c < 0xF5 then
      var lower, upper := if c == 0xF0 then 0x90 else 0x80, if c == 0xF4 then 0x8F else 0xBF;
      if lower <= p[1] <= upper && Continuation(p[2]) && Continuation(p[3]) then
        Decoded((c as int - 0xF0) * 0x4_0000 + (p[1] as int - 0x80) * 0x1000 + (p[2] as int - 0x80) * 64
          + (p[3] as int - 0x80), 4)
      else ERROR
    else ERROR
  }

  /** The decoder for the rest `p` of a buffer: it looks at no byte past its end. */
  function DecodeLen(p: seq<Byte>): Decoded {
    if |p| == 0 then Decoded(0xFFFD, 0)
    else if (|p| == 1 && p[0] >= 0x80) || (|p| == 2 && p[0] >= 0xE0) || (|p| == 3 && p[0] >= 0xF0) then ERROR
    else Decode(p)
  }

  /** The caller's test for an error: one byte was consumed, and it is not plain ASCII. */
  predicate Good(p: seq<Byte>, d: Decoded) { p != [] && !(d.used == 1 && p[0] >= 0x80) }

  /** A decoded character is the form of a code point, */
  lemma DecodeSound(p: seq<Byte>)
    requires Readable(p) && Good(p, Decode(p))
    ensures var d := Decode(p); d.used <= |p| && IsForm(p[..d.used], d.c) && d.c < 0x11_0000
  {
    var d := Decode(p);
    hide Payload;
    var b := p[..d.used];
    if d.used == 2 {
      assert b[1..] == [p[1]];
      Payload1(p[0] - 0xC0, p[1]);
    } else if d.used == 3 {
      assert b[1..] == [p[1], p[2]];
      Payload2(p[0] - 0xE0, p[1], p[2]);
    } else if d.used == 4 {
      assert b[1..] == [p[1], p[2], p[3]];
      Payload3(p[0] - 0xF0, p[1], p[2], p[3]);
    }
  }

  /** and every form of a code point is decoded. */
  lemma DecodeComplete(p: seq<Byte>, c: int, n: nat)
    requires Readable(p) && n <= |p| && IsForm(p[..n], c) && c < 0x11_0000
    ensures Decode(p) == Decoded(c, n) && Good(p, Decode(p))
  {
    var b := p[..n];
    FormBelow(b, c);
    hide Payload;
    assert n <= 4;
    if n == 2 {
      assert b[1..] == [p[1]] && Continuation(b[1]);
      Payload1(p[0] - 0xC0, p[1]);
    } else if n == 3 {
      assert b[1..] == [p[1], p[2]] && Continuation(b[1]) && Continuation(b[2]);
      Payload2(p[0] - 0xE0, p[1], p[2]);
    } else if n == 4 {
      assert b[1..] == [p[1], p[2], p[3]] && Continuation(b[1]) && Continuation(b[2]) && Continuation(b[3]);
      Payload3(p[0] - 0xF0, p[1], p[2], p[3]);
    }
  }

  /** The lead bytes tell how long a form is. */
  lemma FormNeeds(p: seq<Byte>, n: nat, c: int)
    requires n <= |p| && IsForm(p[..n], c)
    ensures p != [] && (p[0] >= 0x80 ==> n >= 2) && (p[0] >= 0xE0 ==> n >= 3) && (p[0] >= 0xF0 ==> n >= 4)
  {
    hide Payload;
    assert p[..n][0] == p[0];
  }

  /** On any bytes, the decoder reports `c` in `n` bytes without an error exactly when these
      are the form of the code point `c`; and it always moves on. */
  lemma DecodeExact(p: seq<Byte>, c: nat, n: nat)
    requires p != []
    ensures (DecodeLen(p) == Decoded(c, n) && Good(p, DecodeLen(p)))
      <==> (n <= |p| && IsForm(p[..n], c) && c < 0x11_0000)
    ensures 1 <= DecodeLen(p).used <= |p| && DecodeLen(p).c < 0x11_0000
    ensures !Good(p, DecodeLen(p)) ==> DecodeLen(p) == Decoded(0xFFFD, 1)
  {
    hide IsForm;
    if Readable(p) {
      if Good(p, Decode(p)) { DecodeSound(p); }
      if n <= |p| && IsForm(p[..n], c) && c < 0x11_0000 { DecodeComplete(p, c, n); }
    }
    if n <= |p| && IsForm(p[..n], c) { FormNeeds(p, n, c); }
  }

  /** A character that was encoded is decoded, whatever follows it. */
  lemma DecodeEncoded(c: Word32, rest: seq<Byte>)
    ensures DecodeLen(Utf8(c) + rest) == Decoded(Repair(c), EncodeLen(c))
      && Good(Utf8(c) + rest, DecodeLen(Utf8(c) + rest))
  {
    hide IsForm;
    Utf8IsForm(c);
    var p := Utf8(c) + rest;
    assert p[..EncodeLen(c)] == Utf8(c);
    DecodeExact(p, Repair(c), EncodeLen(c));
  }

  /** A character that was decoded without an error is encoded as the bytes it came from. */
  lemma EncodeDecoded(p: seq<Byte>)
    requires p != [] && Good(p, DecodeLen(p))
    ensures var d := DecodeLen(p); d.used <= |p| && Utf8(d.c) == p[..d.used]
  {
    var d := DecodeLen(p);
    DecodeExact(p, d.c, d.used);
    Utf8IsForm(d.c);
    FormUnique(Utf8(d.c), p[..d.used], d.c);
  }
}
