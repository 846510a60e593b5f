/** The records that all stages of the analysis share, and the lists they are added to. */
module Records {

  datatype Option<+T> = None | Some(value: T)

  datatype Encoding = Ascii | Utf8 | Unicode

  /** A text run found in the file. */
  datatype Text = Text(enc: Encoding, pos: nat, len: nat, term: bool) {
    function End(): nat {
      pos + len
    }
  }

  datatype ByteOrder = BigEndian | LittleEndian

  /** One of the twelve names "uint16be" .. "int64le". */
  datatype IntEnc = IntEnc(signed: bool, width: nat, order: ByteOrder)

  /** An integer candidate: its raw value and its two's-complement reading. */
  datatype Int = Int(enc: IntEnc, byteW: nat, pos: nat, valS: int, valU: nat) {
    function End(): nat {
      pos + byteW
    }
  }

  /** A pair of slices of the sorted int and string lists, as half-open ranges. */
  datatype GroupPair = GroupPair(intBreaks: (nat, nat), strBreaks: (nat, nat))

  /** A correlation: strings together with the integers that may hold their length. */
  datatype Block = Block(t: seq<Text>, offsets: Option<GroupPair>, pcomp: map<nat, int>, p: seq<int>, length: seq<Int>)

  class Strings {
    var s: seq<Text>

    constructor ()
      ensures s == []
    {
      s := [];
    }

    method Add(t: Text)
      modifies this
      ensures s == old(s) + [t]
      ensures multiset(s) == old(multiset(s)) + multiset{t}
    {
      s := s + [t];
    }
  }

  class Ints {
    var i: seq<Int>

    constructor ()
      ensures i == []
    {
      i := [];
    }

    method Add(v: Int)
      modifies this
      ensures i == old(i) + [v]
      ensures multiset(i) == old(multiset(i)) + multiset{v}
    {
      i := i + [v];
    }
  }
}
