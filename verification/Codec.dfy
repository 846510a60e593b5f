/** Reading integers out of the file and writing them back, in both byte orders. */
module Codec {
  import opened Bytes
  import opened Records

  /** 2^(8 w): the number of values that fit into `w` bytes. */
  function Values(w: nat): (v: nat)
    ensures 0 < v
  {
    if w == 0 then 1 else 256 * Values(w - 1)
  }

  /** The number that the bytes spell, most significant byte first. */
  function FromBig(bs: seq<byte>): nat {
    if bs == [] then 0 else FromBig(bs[..|bs| - 1]) * 256 + bs[|bs| - 1] as nat
  }

  /** The number that the bytes spell, least significant byte first. */
  function FromLittle(bs: seq<byte>): nat {
    if bs == [] then 0 else bs[0] as nat + 256 * FromLittle(bs[1..])
  }

  /** The lowest `w` bytes of `v`, most significant first. */
  function ToBig(v: nat, w: nat): (bs: seq<byte>)
    ensures |bs| == w
  {
    if w == 0 then [] else ToBig(v / 256, w - 1) + [(v % 256) as byte]
  }

  /** The lowest `w` bytes of `v`, least significant first. */
  function ToLittle(v: nat, w: nat): (bs: seq<byte>)
    ensures |bs| == w
  {
    if w == 0 then [] else [(v % 256) as byte] + ToLittle(v / 256, w - 1)
  }

  function Decode(bs: seq<byte>, order: ByteOrder): nat {
    if order.BigEndian? then FromBig(bs) else FromLittle(bs)
  }

  function Encode(v: nat, w: nat, order: ByteOrder): (bs: seq<byte>)
    ensures |bs| == w
  {
    if order.BigEndian? then ToBig(v, w) else ToLittle(v, w)
  }

  /** The two's-complement reading of a `w`-byte value: `int64(int16(u))` and its kin. */
  function Signed(v: nat, w: nat): int {
    if 2 * v >= Values(w) then v - Values(w) else v
  }

  /** It is the two's-complement reading: half the values are negative, and it is congruent to
      the raw value. */
  lemma SignedLaw(v: nat, w: nat)
    requires 0 < w && v < Values(w)
    ensures 0 <= 2 * Signed(v, w) + Values(w) && 2 * Signed(v, w) < Values(w)
    ensures Signed(v, w) == v || Signed(v, w) == v - Values(w)
  {
  }

  /** The numbers of values of the widths in use. */
  lemma ValuesOfWidths()
    ensures Values(1) == 0x100 && Values(2) == 0x1_0000 && Values(4) == 0x1_0000_0000
    ensures Values(8) == 0x1_0000_0000_0000_0000
  {
    assert Values(0) == 1 && Values(1) == 0x100 && Values(3) == 0x100_0000;
    assert Values(5) == 0x100_0000_0000 && Values(6) == 0x1_0000_0000_0000 && Values(7) == 0x100_0000_0000_0000;
  }

  lemma {:induction false} BigOfParts(a: seq<byte>, b: seq<byte>)
    ensures FromBig(a + b) == FromBig(a) * Values(|b|) + FromBig(b)
  {
    if b == [] {
      assert a + b == a;
    } else {
      var n := |b| - 1;
      var c := b[..n];
      assert (a + b)[..|a + b| - 1] == a + c && (a + b)[|a + b| - 1] == b[n];
      BigOfParts(a, c);
      ShiftIn(FromBig(a), Values(n), FromBig(c), b[n] as nat);
    }
  }

  lemma ShiftIn(x: nat, v: nat, y: nat, d: nat)
    ensures (x * v + y) * 256 + d == x * (256 * v) + (y * 256 + d)
  {
    assert (x * v) * 256 == x * (256 * v);
  }

  lemma Regroup(v: nat, y: nat)
    ensures 256 * (v * y) == (256 * v) * y
  {
  }

  lemma {:induction false} LittleOfParts(a: seq<byte>, b: seq<byte>)
    ensures FromLittle(a + b) == FromLittle(a) + Values(|a|) * FromLittle(b)
  {
    if a == [] {
      assert a + b == b;
    } else {
      assert (a + b)[0] == a[0] && (a + b)[1..] == a[1..] + b;
      LittleOfParts(a[1..], b);
      Regroup(Values(|a| - 1), FromLittle(b));
    }
  }

  /** What byte order means, for every width: a byte is worth itself, and of two parts the
      first one is worth more in big-endian order, the second one in little-endian order. */
  lemma DecodeParts(a: seq<byte>, b: seq<byte>, x: byte)
    ensures Decode([x], BigEndian) == x as nat == Decode([x], LittleEndian)
    ensures Decode(a + b, BigEndian) == Decode(a, BigEndian) * Values(|b|) + Decode(b, BigEndian)
    ensures Decode(a + b, LittleEndian) == Decode(a, LittleEndian) + Values(|a|) * Decode(b, LittleEndian)
  {
    BigOfParts(a, b);
    LittleOfParts(a, b);
    assert [x][..0] == [] && [x][1..] == [];
  }

  /** `uint64(s)` */
  function ToUint64(s: int): nat
    requires -0x8000_0000_0000_0000 <= s
  {
    if s < 0 then s + 0x1_0000_0000_0000_0000 else s
  }

  lemma {:induction false} ModShift(v: nat, w: nat)
    ensures v % Values(w + 1) == v % 256 + 256 * ((v / 256) % Values(w))
  {
    var q, m := v / 256, Values(w);
    var k, r := q / m, q % m;
    assert v == 256 * q + v % 256;
    assert q == m * k + r;
    assert v == (256 * m) * k + (256 * r + v % 256) by {
      assert 256 * (m * k) == (256 * m) * k;
    }
    ModUnique(v, 256 * m, k, 256 * r + v % 256);
  }

  lemma ModUnique(v: nat, d: nat, k: nat, r: nat)
    requires 0 < d && r < d && v == d * k + r
    ensures v % d == r
  {
    var diff := v / d - k;
    assert d * diff == r - v % d;
    if diff >= 1 {
      MulAtLeast(d, diff);
    } else if diff <= -1 {
      MulAtLeast(d, -diff);
    }
  }

  lemma MulAtLeast(d: nat, n: nat)
    requires 1 <= n
    ensures d <= d * n
  {
  }

  lemma {:induction false} DecodeEncodeBig(v: nat, w: nat)
    ensures FromBig(ToBig(v, w)) == v % Values(w)
  {
    if w != 0 {
      var bs := ToBig(v, w);
      assert bs[..w - 1] == ToBig(v / 256, w - 1);
      DecodeEncodeBig(v / 256, w - 1);
      ModShift(v, w - 1);
    }
  }

  lemma {:induction false} DecodeEncodeLittle(v: nat, w: nat)
    ensures FromLittle(ToLittle(v, w)) == v % Values(w)
  {
    if w != 0 {
      var bs := ToLittle(v, w);
      assert bs[1..] == ToLittle(v / 256, w - 1);
      DecodeEncodeLittle(v / 256, w - 1);
      ModShift(v, w - 1);
    }
  }

  /** Reading back what was written gives the value modulo 2^(8 w). */
  lemma DecodeEncode(v: nat, w: nat, order: ByteOrder)
    ensures Decode(Encode(v, w, order), order) == v % Values(w)
  {
    DecodeEncodeBig(v, w);
    DecodeEncodeLittle(v, w);
  }

  lemma {:induction false} EncodeDecodeBig(bs: seq<byte>)
    ensures ToBig(FromBig(bs), |bs|) == bs
  {
    if bs != [] {
      var d, rest := bs[|bs| - 1] as nat, FromBig(bs[..|bs| - 1]);
      EncodeDecodeBig(bs[..|bs| - 1]);
      assert (rest * 256 + d) % 256 == d && (rest * 256 + d) / 256 == rest;
      assert bs == bs[..|bs| - 1] + [bs[|bs| - 1]];
    }
  }

  lemma {:induction false} EncodeDecodeLittle(bs: seq<byte>)
    ensures ToLittle(FromLittle(bs), |bs|) == bs
  {
    if bs != [] {
      var d, rest := bs[0] as nat, FromLittle(bs[1..]);
      EncodeDecodeLittle(bs[1..]);
      assert FromLittle(bs) == d + 256 * rest;
      assert (d + 256 * rest) % 256 == d && (d + 256 * rest) / 256 == rest;
      assert bs == [bs[0]] + bs[1..];
    }
  }

  /** Writing back what was read restores the bytes. */
  lemma EncodeDecode(bs: seq<byte>, order: ByteOrder)
    ensures Encode(Decode(bs, order), |bs|, order) == bs
  {
    EncodeDecodeBig(bs);
    EncodeDecodeLittle(bs);
  }

  lemma {:induction false} DecodeBound(bs: seq<byte>, order: ByteOrder)
    ensures Decode(bs, order) < Values(|bs|)
  {
    DecodeEncode(Decode(bs, order), |bs|, order);
    EncodeDecode(bs, order);
  }

  /** `buf` with the `|bs|` bytes at `pos` overwritten. */
  function Overwrite(buf: seq<byte>, pos: nat, bs: seq<byte>): (r: seq<byte>)
    requires pos + |bs| <= |buf|
    ensures |r| == |buf|
  {
    buf[..pos] + bs + buf[pos + |bs|..]
  }

  lemma OverwriteStep(was: seq<byte>, pos: nat, bs: seq<byte>, k: nat)
    requires k < |bs| && pos + |bs| <= |was|
    ensures Overwrite(was, pos, bs[..k + 1]) == Overwrite(was, pos, bs[..k])[pos + k := bs[k]]
  {
  }

  /** `writeNewValue`: the value, truncated to the width that the encoding names. */
  method WriteNewValue(target: array<byte>, i: Int, val: nat)
    requires i.enc.width == 2 || i.enc.width == 4 || i.enc.width == 8
    requires i.pos + i.enc.width <= target.Length
    modifies target
    ensures target[..] == Overwrite(old(target[..]), i.pos, Encode(val, i.enc.width, i.enc.order))
  {
    var w := i.enc.width;
    var bs := Encode(val, w, i.enc.order);
    ghost var was := target[..];
    for k := 0 to w
      invariant target[..] == Overwrite(was, i.pos, bs[..k])
    {
      OverwriteStep(was, i.pos, bs, k);
      target[i.pos + k] := bs[k];
    }
    assert bs[..w] == bs;
  }
}
