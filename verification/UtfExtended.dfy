/** The codec of the Unix build, for all words below 2^31: forms of up to six bytes. */
module UtfExtended {
  import opened Common
  import opened UtfCodec

  method UnicodeToUtf8(buf: array<Byte>, c: Word32) returns (n: nat)
    requires buf.Length >= 6
    modifies buf
    ensures c < 0x8000_0000 ==> 1 <= n <= 6 && IsForm(buf[..n], c)
    ensures c >= 0x8000_0000 ==> n == 0
    ensures forall i :: n <= i < buf.Length ==> buf[i] == old(buf[i])
  {
    hide IsForm;
    n := 0;
    if c < 0x80 {
      buf[0] := c;
      n := 1;
    } else {
      if c < 0x800 {
        buf[0] := c / 0x40 + 0xC0;
        n := 1;
      } else {
        if c < 0x1_0000 {
          buf[0] := c / 0x1000 + 0xE0;
          n := 1;
        } else {
          if c < 0x20_0000 {
            buf[0] := c / 0x4_0000 + 0xF0;
            n := 1;
          } else {
            if c < 0x400_0000 {
              buf[0] := c / 0x100_0000 + 0xF8;
              n := 1;
            } else if c < 0x8000_0000 {
              buf[0] := c / 0x4000_0000 + 0xFC;
              buf[1] := c / 0x100_0000 % 64 + 0x80;
              n := 2;
            } else {
              return 0;
            }
            buf[n] := c / 0x4_0000 % 64 + 0x80;
            n := n + 1;
          }
          buf[n] := c / 0x1000 % 64 + 0x80;
          n := n + 1;
        }
        buf[n] := c / 0x40 % 64 + 0x80;
        n := n + 1;
      }
      buf[n] := c % 64 + 0x80;
      n := n + 1;
    }
    LongForms(c);
    assert buf[..n] == LongForm(c);
  }

  /** The bytes for `c`, by length. */
  function LongForm(c: Word32): (b: seq<Byte>)
    requires c < 0x8000_0000
  {
    if c < 0x80 then [c]
    else if c < 0x800 then [c / 0x40 + 0xC0, c % 64 + 0x80]
    else if c < 0x1_0000 then [c / 0x1000 + 0xE0, c / 0x40 % 64 + 0x80, c % 64 + 0x80]
    else if c < 0x20_0000 then [c / 0x4_0000 + 0xF0, c / 0x1000 % 64 + 0x80, c / 0x40 % 64 + 0x80, c % 64 + 0x80]
    else if c < 0x400_0000 then
      [c / 0x100_0000 + 0xF8, c / 0x4_0000 % 64 + 0x80, c / 0x1000 % 64 + 0x80, c / 0x40 % 64 + 0x80, c % 64 + 0x80]
    else
      [c / 0x4000_0000 + 0xFC, c / 0x100_0000 % 64 + 0x80, c / 0x4_0000 % 64 + 0x80, c / 0x1000 % 64 + 0x80,
       c / 0x40 % 64 + 0x80, c % 64 + 0x80]
  }

  lemma Halves(c: nat)
    ensures c / 0x40 * 64 + c % 64 == c
    ensures c / 0x1000 * 64 + c / 0x40 % 64 == c / 0x40
    ensures c / 0x4_0000 * 64 + c / 0x1000 % 64 == c / 0x1000
    ensures c / 0x100_0000 * 64 + c / 0x4_0000 % 64 == c / 0x4_0000
    ensures c / 0x4000_0000 * 64 + c / 0x100_0000 % 64 == c / 0x100_0000
  {
  }

  lemma PayloadMore(h: nat, tail: seq<Byte>, x: Byte)
    requires forall i :: 0 <= i < |tail| ==> Continuation(tail[i])
    requires Continuation(x)
    ensures Payload(h, tail + [x]) == Payload(h, tail) * 64 + (x as int - 0x80)
  {
    assert (tail + [x])[..|tail|] == tail;
  }

  lemma LongForms(c: Word32)
    ensures c < 0x8000_0000 ==> IsForm(LongForm(c), c)
  {
    if 0x80 <= c < 0x8000_0000 {
      hide Payload;
      var b := LongForm(c);
      LongShaped(c);
      Halves(c);
      PayloadNone(b[0] - Lead(|b|));
      LongPayload(c, b);
    }
  }

  lemma PayloadNone(h: nat)
    ensures Payload(h, []) == h
  {
  }

  lemma LongShaped(c: Word32)
    requires 0x80 <= c < 0x8000_0000
    ensures Shaped(LongForm(c)) && Least(|LongForm(c)|) <= c
  {
  }

  /** Every continuation byte adds its six bits to what the bytes before it say. */
  lemma LongPayload(c: Word32, b: seq<Byte>)
    requires 0x80 <= c < 0x8000_0000 && b == LongForm(c) && Shaped(b)
    ensures Payload(b[0] - Lead(|b|), b[1..]) == c
  {
    hide Payload;
    hide LongForm;
    hide Above;
    hide Lead;
    LongLead(c, b);
    var h: nat := b[0] - Lead(|b|);
    var n := |b| - 1;
    PayloadNone(h);
    assert b[1..1] == [];
    for i := 0 to n
      invariant Payload(h, b[1..i + 1]) == Above(c, n - i)
    {
      LongByte(c, b, i);
      AboveStep(c, n - 1 - i);
      assert b[1..i + 2] == b[1..i + 1] + [b[i + 1]];
      PayloadMore(h, b[1..i + 1], b[i + 1]);
    }
    assert b[1..n + 1] == b[1..];
    AboveNone(c);
  }

  /** The bits of `c` above its lowest `6 k`. */
  function Above(c: Word32, k: nat): nat
    requires k <= 5
  {
    match k case 0 => c case 1 => c / 0x40 case 2 => c / 0x1000 case 3 => c / 0x4_0000
    case 4 => c / 0x100_0000 case 5 => c / 0x4000_0000
  }

  lemma AboveNone(c: Word32)
    ensures Above(c, 0) == c
  {
  }

  lemma AboveStep(c: Word32, k: nat)
    requires k <= 4
    ensures Above(c, k + 1) * 64 + Above(c, k) % 64 == Above(c, k)
  {
    Halves(c);
  }

  /** The byte after the lead byte and `i` others. */
  lemma LongByte(c: Word32, b: seq<Byte>, i: nat)
    requires 0x80 <= c < 0x8000_0000 && b == LongForm(c) && i < |b| - 1
    ensures |b| <= 6 && b[i + 1] as int - 0x80 == Above(c, |b| - 2 - i) % 64
  {
  }

  lemma LongLead(c: Word32, b: seq<Byte>)
    requires 0x80 <= c < 0x8000_0000 && b == LongForm(c)
    ensures 2 <= |b| <= 6 && b[0] as int - Lead(|b|) == Above(c, |b| - 1)
  {
  }

  /** The number of continuation bytes that a lead byte asks for; 0 if it is no lead byte. */
  function Tail(lead: Byte): (l: nat)
    ensures l <= 5
    ensures l > 0 <==> 0xC0 <= lead < 0xFE
    ensures l > 0 ==> Lead(l + 1) <= lead < Lead(l + 2)
  {
    if 0xC0 <= lead < 0xE0 then 1
    else if 0xE0 <= lead < 0xF0 then 2
    else if 0xF0 <= lead < 0xF8 then 3
    else if 0xF8 <= lead < 0xFC then 4
    else if 0xFC <= lead < 0xFE then 5
    else 0
  }

  predicate NoForm(p: seq<Byte>, maxLen: nat)
    requires maxLen <= |p|
  {
    forall n: nat :: n <= maxLen ==>
      !(|p[..n]| == 1 && p[0] < 0x80) && !(Shaped(p[..n]) && Payload(p[0] - Lead(n), p[1..n]) >= Least(n))
  }

  lemma NoFormMeans(p: seq<Byte>, maxLen: nat, n: nat, d: int)
    requires 1 <= maxLen <= |p| && NoForm(p, maxLen) && n <= maxLen
    ensures !IsForm(p[..n], d)
  {
    if Shaped(p[..n]) { assert p[..n][1..] == p[1..n]; }
  }

  /** A shaped sequence has the length that its lead byte tells. */
  lemma ShapedTail(p: seq<Byte>, n: nat)
    requires n <= |p| && Shaped(p[..n])
    ensures n == Tail(p[0]) + 1
  {
    assert p[..n][0] == p[0];
  }

  lemma NoFormBy(p: seq<Byte>, maxLen: nat)
    requires 1 <= maxLen <= |p| && p[0] >= 0x80
    requires var n := Tail(p[0]) + 1; n > maxLen || !Shaped(p[..n]) || Payload(p[0] - Lead(n), p[1..n]) < Least(n)
    ensures NoForm(p, maxLen)
  {
    hide Shaped;
    hide Payload;
    hide Lead;
    hide Least;
    hide Tail;
    forall n: nat | n <= maxLen && Shaped(p[..n]) ensures n == Tail(p[0]) + 1 { ShapedTail(p, n); }
  }

  lemma BadByte(p: seq<Byte>, n: nat, k: nat)
    requires 1 <= k < n <= |p| && !Continuation(p[k])
    ensures !Shaped(p[..n])
  {
    assert p[..n][k] == p[k];
  }

  lemma GoodBytes(p: seq<Byte>, n: nat)
    requires 2 <= n <= |p| && n == Tail(p[0]) + 1 && forall k :: 1 <= k < n ==> Continuation(p[k])
    ensures Shaped(p[..n]) && p[..n][1..] == p[1..n]
  {
  }

  lemma FormHere(p: seq<Byte>, n: nat, c: int)
    requires 2 <= n <= |p| && Shaped(p[..n]) && p[..n][1..] == p[1..n]
    requires Payload(p[0] - Lead(n), p[1..n]) == c >= Least(n)
    ensures IsForm(p[..n], c)
  {
  }

  /** The result for the bytes at `p`, of which `maxLen` may be read: the code point whose form
      they begin with, or -1. */
  method UnicodeFromUtf8(p: seq<Byte>, maxLen: nat) returns (c: int, used: nat)
    requires 1 <= maxLen <= |p|
    ensures c != -1 ==> 1 <= used <= maxLen && IsForm(p[..used], c)
    ensures c == -1 ==> forall n: nat, d: nat :: n <= maxLen ==> !IsForm(p[..n], d)
  {
    hide Payload;
    hide Shaped;
    hide NoForm;
    hide IsForm;
    hide Lead;
    hide Least;
    hide Tail;
    var lead: Byte := p[0];
    if lead < 0x80 { SmallForm(p); return lead, 1; }
    var l := Tail(lead);
    if l == 0 { LeadOnly(p, maxLen); NoneAtAll(p, maxLen); return -1, 0; }
    if l > maxLen - 1 { NoFormBy(p, maxLen); NoneAtAll(p, maxLen); return -1, 0; }
    c := lead as int - Lead(l + 1);
    ghost var head: nat := c;
    PayloadNone(head);
    assert p[1..1] == [];
    for i := 0 to l
      invariant forall k :: 1 <= k < i + 1 ==> Continuation(p[k])
      invariant Payload(head, p[1..i + 1]) == c >= 0
    {
      var b := p[i + 1];
      if b < 0x80 || b >= 0xC0 { BadByte(p, l + 1, i + 1); NoFormBy(p, maxLen); NoneAtAll(p, maxLen); return -1, 0; }
      assert p[1..i + 2] == p[1..i + 1] + [b];
      PayloadMore(head, p[1..i + 1], b);
      c := c * 64 + b as int % 64;
    }
    GoodBytes(p, l + 1);
    if c < Least(l + 1) { NoFormBy(p, maxLen); NoneAtAll(p, maxLen); return -1, 0; }
    used := l + 1;
    FormHere(p, used, c);
  }

  lemma SmallForm(p: seq<Byte>)
    requires p != [] && p[0] < 0x80
    ensures IsForm(p[..1], p[0])
  {
  }

  lemma LeadOnly(p: seq<Byte>, maxLen: nat)
    requires 1 <= maxLen <= |p| && p[0] >= 0x80 && Tail(p[0]) == 0
    ensures NoForm(p, maxLen)
  {
    assert !Shaped(p[..1]);
    NoFormBy(p, maxLen);
  }

  lemma NoneAtAll(p: seq<Byte>, maxLen: nat)
    requires 1 <= maxLen <= |p| && NoForm(p, maxLen)
    ensures forall n: nat, d: nat :: n <= maxLen ==> !IsForm(p[..n], d)
  {
    hide NoForm;
    hide IsForm;
    forall n: nat, d: nat | n <= maxLen ensures !IsForm(p[..n], d) { NoFormMeans(p, maxLen, n, d); }
  }
}
