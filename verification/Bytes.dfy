/** Bytes of the analysed file, the byte classes of the string digesters, and the
    bit masks of the mutators. Masks are written as arithmetic; the `Masked` lemmas prove
    that the arithmetic is what the bit operations compute. */
module Bytes {

  newtype byte = x: int | 0 <= x < 256

  predicate IsPrintable(b: byte) {
    0x20 <= b <= 0x7F
  }

  predicate IsControl(b: byte) {
    b == 0x0A || b == 0x0D || b == 0x09
  }

  /** The bytes both digesters accept in every state. */
  predicate IsAsciiText(b: byte) {
    IsPrintable(b) || IsControl(b)
  }

  predicate IsTerminator(b: byte) {
    b == 0x00
  }

  /** `b & 0xC0 == 0xC0` */
  predicate IsLead(b: byte) {
    0xC0 <= b
  }

  /** `b & 0xC0 == 0x80` */
  predicate IsFollow(b: byte) {
    0x80 <= b < 0xC0
  }

  /** `r | 0x80` */
  function SetHigh(r: byte): byte {
    0x80 + r % 0x80
  }

  /** `(r | 0x80) & 0xBF` */
  function AsFollow(r: byte): byte {
    0x80 + r % 0x40
  }

  /** `(r | 0xC0) & 0xDF` */
  function AsLead2(r: byte): byte {
    0xC0 + r % 0x20
  }

  /** `(r | 0xE0) & 0xEF` */
  function AsLead3(r: byte): byte {
    0xE0 + r % 0x10
  }

  /** `(r | 0xF0) & 0xF7` */
  function AsLead4(r: byte): byte {
    0xF0 + r % 0x08
  }

  /** The byte whose bits are `r`. */
  function FromBits(r: bv8): byte {
    (r as int) as byte
  }

  lemma MaskedClasses(r: bv8)
    ensures IsLead(FromBits(r)) <==> r & 0xC0 == 0xC0
    ensures IsFollow(FromBits(r)) <==> r & 0xC0 == 0x80
    ensures IsTerminator(FromBits(r)) <==> r == 0
  {
    var v := r as int;
    assert 0xC0 <= v <==> r & 0xC0 == 0xC0;
    assert 0x80 <= v < 0xC0 <==> r & 0xC0 == 0x80;
  }

  /** The text bytes: those with the highest bit clear and one of the next two set, and the
      tab, the line feed and the carriage return. */
  lemma MaskedTextClasses(r: bv8)
    ensures IsPrintable(FromBits(r)) <==> r & 0x80 == 0 && r & 0x60 != 0
    ensures IsControl(FromBits(r)) <==> r == 9 || r == 10 || r == 13
  {
    var v := r as int;
    assert 0x20 <= v <= 0x7F <==> r & 0x80 == 0 && r & 0x60 != 0;
    assert v == 9 <==> r == 9;
    assert v == 10 <==> r == 10;
    assert v == 13 <==> r == 13;
  }

  /** No byte is in two classes; the rejected ones are the other control characters. */
  lemma ClassesApart(b: byte)
    ensures IsAsciiText(b) ==> !IsLead(b) && !IsFollow(b) && !IsTerminator(b)
    ensures !(IsLead(b) && IsFollow(b))
    ensures !IsAsciiText(b) && !IsLead(b) && !IsFollow(b) <==> b <= 8 || b == 11 || b == 12 || 14 <= b <= 31
  {
  }

  lemma MaskedSetHigh(r: bv8)
    ensures SetHigh(FromBits(r)) == FromBits(r | 0x80)
  {
    assert (r | 0x80) as int == 0x80 + (r as int) % 0x80;
  }

  lemma MaskedFollow(r: bv8)
    ensures AsFollow(FromBits(r)) == FromBits((r | 0x80) & 0xBF)
  {
    assert (r | 0x80) & 0xBF == 0x80 + (r & 0x3F);
    assert ((r | 0x80) & 0xBF) as int == 0x80 + (r as int) % 0x40;
  }

  lemma MaskedLead2(r: bv8)
    ensures AsLead2(FromBits(r)) == FromBits((r | 0xC0) & 0xDF)
  {
    assert (r | 0xC0) & 0xDF == 0xC0 + (r & 0x1F);
    assert ((r | 0xC0) & 0xDF) as int == 0xC0 + (r as int) % 0x20;
  }

  lemma MaskedLead3(r: bv8)
    ensures AsLead3(FromBits(r)) == FromBits((r | 0xE0) & 0xEF)
  {
    assert (r | 0xE0) & 0xEF == 0xE0 + (r & 0x0F);
    assert ((r | 0xE0) & 0xEF) as int == 0xE0 + (r as int) % 0x10;
  }

  lemma MaskedLead4(r: bv8)
    ensures AsLead4(FromBits(r)) == FromBits((r | 0xF0) & 0xF7)
  {
    assert (r | 0xF0) & 0xF7 == 0xF0 + (r & 0x07);
    assert ((r | 0xF0) & 0xF7) as int == 0xF0 + (r as int) % 0x08;
  }

  /** `ran(max)`: an arbitrary number below `max`, and 0 when `max` is 0. */
  method Ran(max: nat) returns (n: nat)
    ensures if max == 0 then n == 0 else n < max
  {
    if max == 0 {
      return 0;
    }
    n :| 0 <= n < max;
  }

  /** `byte(ran(255))`: every byte but 0xFF. */
  method RanByte() returns (b: byte)
    ensures b <= 0xFE
  {
    var r := Ran(255);
    b := r as byte;
  }
}
