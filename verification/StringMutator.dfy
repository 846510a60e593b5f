/** `StringM.Do`: a string is replaced in a copy of the file, length fields that belong to
    it are rewritten, and its terminator may be removed. */
module StringMutator {
  import opened Bytes
  import opened Records
  import opened Segments
  import opened Codec
  import opened Fillers

  // ---- the mutation as a function of the random choices ----

  /** What may be done to one length field. */
  datatype FieldWrite = Keep | Value(val: nat) | Zero | Max

  /** The choices of one run: nothing to do, or a block, the bytes that replace its string,
      the writes to its length fields, and whether the terminator goes. */
  datatype Choice =
    | Nothing
    | Mutate(blk: Block, s: seq<byte>, writes: seq<(Int, FieldWrite)>, cut: bool)

  /** A length field with a writable width that ends at `limit` or before. */
  predicate IsField(i: Int, limit: nat) {
    && (i.byteW == 2 || i.byteW == 4 || i.byteW == 8)
    && i.byteW == i.enc.width
    && i.End() <= limit
  }

  function FieldBytes(i: Int, w: FieldWrite): (bs: seq<byte>)
    requires w.Value? || w.Zero? || w.Max?
    ensures |bs| == if w.Value? then i.enc.width else i.byteW
  {
    match w
    case Value(val) => Encode(val, i.enc.width, i.enc.order)
    case Zero => seq(i.byteW, _ => 0x00)
    case Max => seq(i.byteW, _ => 0xFF)
  }

  function WriteField(buf: seq<byte>, i: Int, w: FieldWrite): (r: seq<byte>)
    requires IsField(i, |buf|)
    ensures |r| == |buf|
  {
    if w.Keep? then buf else Overwrite(buf, i.pos, FieldBytes(i, w))
  }

  function WriteFields(buf: seq<byte>, ws: seq<(Int, FieldWrite)>): (r: seq<byte>)
    requires forall w :: w in ws ==> IsField(w.0, |buf|)
    ensures |r| == |buf|
  {
    if ws == [] then buf
    else
      var n := |ws| - 1;
      WriteField(WriteFields(buf, ws[..n]), ws[n].0, ws[n].1)
  }

  function TrimZeros(s: seq<byte>): seq<byte> {
    if s != [] && s[0] == 0x00 then TrimZeros(s[1..]) else s
  }

  /** The bytes that may replace the text: itself, a shorter prefix, nothing, itself
      continued by fewer than 1000 times the file size, control or invalid characters. */
  ghost predicate IsReplacement(file: seq<byte>, t: Text, s: seq<byte>)
    requires t.End() <= |file|
  {
    var text := file[t.pos..t.End()];
    || s == text
    || (s <= text && |s| < |text|)
    || s == []
    || (text <= s && |s| - |text| < 1000 * |file| && IsContinuation(t.enc, text, s[|text|..]))
    || (|s| == |text| && forall k :: 0 <= k < |s| ==> s[k] < 0x20)
    || (|s| == |text| && forall k :: 0 <= k < |s| ==> IsInvalidFor(t.enc, s[k]))
  }

  /** The values that may be written for a string of `len` bytes: at most `len` but not 0,
      `len`, or less than 101 times `len`. */
  predicate IsWrite(len: nat, w: FieldWrite) {
    match w
    case Value(val) => if len == 0 then val == 0 else 1 <= val < 101 * len
    case _ => true
  }

  /** The block can be mutated: it has a string in the file and fields before that string. */
  ghost predicate IsUsable(file: seq<byte>, blk: Block) {
    && blk.t != [] && blk.length != []
    && (var t := blk.t[0];
        && t.End() <= |file| && 0 < t.len && !t.enc.Unicode?
        && (forall i :: i in blk.length ==> IsField(i, t.pos)))
  }

  /** The block is skipped by the mutator. */
  predicate IsIdle(blk: Block) {
    blk.t == [] || blk.length == []
  }

  /** The choices that are permitted for one block. */
  ghost predicate IsMutation(file: seq<byte>, blk: Block, s: seq<byte>, writes: seq<(Int, FieldWrite)>, cut: bool) {
    && IsUsable(file, blk)
    && IsReplacement(file, blk.t[0], s)
    && (if |blk.length| > 2 then |writes| < |blk.length| / 2 else |writes| == 1)
    && (forall w :: w in writes ==> w.0 in blk.length && IsWrite(|s|, w.1))
    && (cut ==> blk.t[0].term)
  }

  ghost predicate IsChoice(file: seq<byte>, blks: seq<Block>, c: Choice) {
    match c
    case Nothing => blks == [] || exists blk :: blk in blks && IsIdle(blk)
    case Mutate(blk, s, writes, cut) => blk in blks && IsMutation(file, blk, s, writes, cut)
  }

  function CutAt(m: seq<byte>, at: nat, cut: bool): seq<byte>
    requires at <= |m|
  {
    if cut then m[..at] + TrimZeros(m[at..]) else m
  }

  ghost function Mutated(file: seq<byte>, blk: Block, s: seq<byte>, writes: seq<(Int, FieldWrite)>, cut: bool): seq<byte>
    requires IsMutation(file, blk, s, writes, cut)
  {
    CutAt(WriteFields(Spliced(file, blk.t[0], s), writes), blk.t[0].pos + |s|, cut)
  }

  ghost function Outcome(file: seq<byte>, blks: seq<Block>, c: Choice): seq<byte>
    requires IsChoice(file, blks, c)
  {
    match c
    case Nothing => []
    case Mutate(blk, s, writes, cut) => Mutated(file, blk, s, writes, cut)
  }

  /** `r` is the outcome of some permitted choice. */
  ghost predicate IsMutant(file: seq<byte>, blks: seq<Block>, r: seq<byte>) {
    exists c :: IsChoice(file, blks, c) && r == Outcome(file, blks, c)
  }

  // ---- what the outcome looks like ----

  lemma WriteFieldInPrefix(pre: seq<byte>, rest: seq<byte>, i: Int, w: FieldWrite)
    requires IsField(i, |pre|)
    ensures WriteField(pre + rest, i, w) == WriteField(pre, i, w) + rest
  {
    if !w.Keep? {
      var end := i.pos + |FieldBytes(i, w)|;
      assert (pre + rest)[..i.pos] == pre[..i.pos];
      assert (pre + rest)[end..] == pre[end..] + rest;
    }
  }

  lemma {:induction false} WriteFieldsInPrefix(pre: seq<byte>, rest: seq<byte>, ws: seq<(Int, FieldWrite)>)
    requires forall w :: w in ws ==> IsField(w.0, |pre|)
    ensures forall w :: w in ws ==> IsField(w.0, |pre + rest|)
    ensures WriteFields(pre + rest, ws) == WriteFields(pre, ws) + rest
  {
    forall w | w in ws ensures IsField(w.0, |pre + rest|) {
      assert IsField(w.0, |pre|);
    }
    if ws != [] {
      var n := |ws| - 1;
      WriteFieldsInPrefix(pre, rest, ws[..n]);
      assert ws[n] in ws;
      WriteFieldInPrefix(WriteFields(pre, ws[..n]), rest, ws[n].0, ws[n].1);
    }
  }

  ghost predicate InField(ws: seq<(Int, FieldWrite)>, p: nat) {
    exists w :: w in ws && w.0.pos <= p < w.0.End()
  }

  /** Writes change bytes of their own fields only. */
  lemma {:induction false} WriteFieldsOutside(buf: seq<byte>, ws: seq<(Int, FieldWrite)>, p: nat)
    requires forall w :: w in ws ==> IsField(w.0, |buf|)
    requires p < |buf| && !InField(ws, p)
    ensures WriteFields(buf, ws)[p] == buf[p]
  {
    if ws != [] {
      var n := |ws| - 1;
      assert ws[n] in ws;
      assert forall w :: w in ws[..n] ==> w in ws;
      WriteFieldsOutside(buf, ws[..n], p);
    }
  }

  predicate Apart(i: Int, j: Int) {
    i.End() <= j.pos || j.End() <= i.pos
  }

  /** The `n`-th write is the last one that touches its field: the later ones keep their
      fields or are elsewhere. */
  predicate IsLastWrite(ws: seq<(Int, FieldWrite)>, n: nat) {
    && n < |ws| && !ws[n].1.Keep?
    && (forall m :: n < m < |ws| ==> ws[m].1.Keep? || Apart(ws[m].0, ws[n].0))
  }

  lemma WriteFieldElsewhere(buf: seq<byte>, i: Int, w: FieldWrite, j: Int)
    requires IsField(i, |buf|) && IsField(j, |buf|) && (w.Keep? || Apart(i, j))
    ensures WriteField(buf, i, w)[j.pos..j.End()] == buf[j.pos..j.End()]
  {
    var r := WriteField(buf, i, w);
    forall k | j.pos <= k < j.End() ensures r[k] == buf[k] {
      assert w.Keep? || k < i.pos || i.pos + |FieldBytes(i, w)| <= k;
    }
  }

  lemma WriteFieldThere(buf: seq<byte>, i: Int, w: FieldWrite)
    requires IsField(i, |buf|) && !w.Keep?
    ensures WriteField(buf, i, w)[i.pos..i.End()] == FieldBytes(i, w)
  {
  }

  /** The last write that touches a field leaves its bytes there. */
  lemma {:induction false} LastWriteStays(buf: seq<byte>, ws: seq<(Int, FieldWrite)>, n: nat)
    requires forall w :: w in ws ==> IsField(w.0, |buf|)
    requires IsLastWrite(ws, n)
    ensures WriteFields(buf, ws)[ws[n].0.pos..ws[n].0.End()] == FieldBytes(ws[n].0, ws[n].1)
    decreases |ws|
  {
    var last := |ws| - 1;
    assert ws[last] in ws && ws[n] in ws;
    var before := WriteFields(buf, ws[..last]);
    if n < last {
      assert IsLastWrite(ws[..last], n);
      LastWriteStays(buf, ws[..last], n);
      WriteFieldElsewhere(before, ws[last].0, ws[last].1, ws[n].0);
    } else {
      WriteFieldThere(before, ws[n].0, ws[n].1);
    }
  }

  /** So a value is what the field reads as, if no later write touches the field. */
  lemma LastWriteReads(buf: seq<byte>, ws: seq<(Int, FieldWrite)>, n: nat)
    requires forall w :: w in ws ==> IsField(w.0, |buf|)
    requires IsLastWrite(ws, n) && ws[n].1.Value?
    ensures var i := ws[n].0;
            i.End() <= |buf|
            && Decode(WriteFields(buf, ws)[i.pos..i.End()], i.enc.order) == ws[n].1.val % Values(i.byteW)
  {
    assert ws[n] in ws;
    LastWriteStays(buf, ws, n);
    DecodeEncode(ws[n].1.val, ws[n].0.byteW, ws[n].0.enc.order);
  }

  /** The trimmed zeros are the maximal run at the front. */
  lemma {:induction false} TrimZerosIsMaximal(s: seq<byte>)
    ensures |TrimZeros(s)| <= |s| && TrimZeros(s) == s[|s| - |TrimZeros(s)|..]
    ensures forall k :: 0 <= k < |s| - |TrimZeros(s)| ==> s[k] == 0x00
    ensures TrimZeros(s) == [] || TrimZeros(s)[0] != 0x00
  {
    if s != [] && s[0] == 0x00 {
      var rest := s[1..];
      TrimZerosIsMaximal(rest);
      var n := |rest| - |TrimZeros(rest)|;
      assert TrimZeros(s) == rest[n..] == s[n + 1..];
      forall k | 0 <= k < n + 1 ensures s[k] == 0x00 {
        assert k > 0 ==> s[k] == rest[k - 1];
      }
    }
  }

  /** The mutated file: a prefix that differs from the original's inside written fields of
      the block only, the replacement, and the rest of the file, possibly without the zeros
      that followed the string. */
  lemma OutcomeShape(file: seq<byte>, blks: seq<Block>, c: Choice) returns (pre: seq<byte>, tail: seq<byte>)
    requires IsChoice(file, blks, c) && c.Mutate?
    ensures Outcome(file, blks, c) == pre + c.s + tail
    ensures var t := c.blk.t[0];
            && |pre| == t.pos
            && (forall p :: 0 <= p < t.pos && !InField(c.writes, p) ==> pre[p] == file[p])
            && tail == if c.cut then TrimZeros(file[t.End()..]) else file[t.End()..]
  {
    var t := c.blk.t[0];
    var l, r := file[..t.pos], file[t.End()..];
    pre := WriteFields(l, c.writes);
    tail := if c.cut then TrimZeros(r) else r;
    assert Spliced(file, t, c.s) == l + (c.s + r);
    WriteFieldsInPrefix(l, c.s + r, c.writes);
    CutBehind(pre, c.s, r, c.cut);
    forall p | 0 <= p < t.pos && !InField(c.writes, p) ensures pre[p] == file[p] {
      WriteFieldsOutside(l, c.writes, p);
    }
  }

  /** A string that is mutated does not start the file: its length fields are before it. */
  lemma MutatedNotEmpty(file: seq<byte>, blks: seq<Block>, c: Choice)
    requires IsChoice(file, blks, c) && c.Mutate?
    ensures Outcome(file, blks, c) != []
  {
    var pre, tail := OutcomeShape(file, blks, c);
    assert c.blk.length[0] in c.blk.length;
    assert IsField(c.blk.length[0], c.blk.t[0].pos);
  }

  /** The mutator may return an empty file if and only if there is no block, or one without
      a string or without a length field. */
  lemma EmptyIff(file: seq<byte>, blks: seq<Block>)
    ensures IsMutant(file, blks, []) <==> blks == [] || exists blk :: blk in blks && IsIdle(blk)
  {
    forall c | IsChoice(file, blks, c) && [] == Outcome(file, blks, c)
      ensures blks == [] || exists blk :: blk in blks && IsIdle(blk)
    {
      if c.Mutate? {
        MutatedNotEmpty(file, blks, c);
      }
    }
    if blks == [] || exists blk :: blk in blks && IsIdle(blk) {
      assert IsChoice(file, blks, Nothing) && Outcome(file, blks, Nothing) == [];
    }
  }

  /** Without a block that has both, an empty file is all the mutator ever returns. */
  lemma OnlyEmpty(file: seq<byte>, blks: seq<Block>, r: seq<byte>)
    requires forall blk :: blk in blks ==> IsIdle(blk)
    ensures IsMutant(file, blks, r) <==> r == []
  {
    EmptyIff(file, blks);
    if blks != [] {
      assert blks[0] in blks;
    }
  }

  lemma CutBehind(pre: seq<byte>, s: seq<byte>, r: seq<byte>, cut: bool)
    ensures CutAt(pre + (s + r), |pre| + |s|, cut) == pre + s + if cut then TrimZeros(r) else r
  {
    var m := pre + (s + r);
    assert m[..|pre| + |s|] == pre + s && m[|pre| + |s|..] == r;
  }

  /** Removing the terminator of a string that a zero byte of the file ends removes at
      least that byte. */
  lemma CutRemoves(file: seq<byte>, t: Text)
    requires t.End() < |file| && IsTerminator(file[t.End()])
    ensures |TrimZeros(file[t.End()..])| < |file[t.End()..]|
  {
    TrimZerosIsMaximal(file[t.End()..][1..]);
  }

  // ---- the mutator ----

  /** `copy(dst[at:], src)` */
  method Copy(dst: array<byte>, at: nat, src: seq<byte>)
    requires at + |src| <= dst.Length
    modifies dst
    ensures dst[..] == Overwrite(old(dst[..]), at, src)
  {
    forall k | 0 <= k < |src| {
      dst[at + k] := src[k];
    }
  }

  /** The replacement of the text in a new copy of the file. */
  method Assemble(file: seq<byte>, t: Text, s: seq<byte>) returns (mutated: array<byte>)
    requires t.End() <= |file|
    ensures fresh(mutated) && mutated[..] == Spliced(file, t, s)
  {
    mutated := new byte[|file| - t.len + |s|];
    Copy(mutated, 0, file[..t.pos]);
    Copy(mutated, t.pos, s);
    Copy(mutated, t.pos + |s|, file[t.End()..]);
  }

  method Leave(file: seq<byte>, t: Text) returns (mutated: array<byte>, ghost s: seq<byte>)
    requires t.End() <= |file|
    ensures fresh(mutated) && mutated[..] == Spliced(file, t, s)
    ensures s == file[t.pos..t.End()]
  {
    mutated := new byte[|file|];
    Copy(mutated, 0, file);
    s := file[t.pos..t.End()];
    assert file == Spliced(file, t, s);
  }

  method Shorten(file: seq<byte>, t: Text, short: nat) returns (mutated: array<byte>, ghost s: seq<byte>)
    requires t.End() <= |file| && short < t.len
    ensures fresh(mutated) && mutated[..] == Spliced(file, t, s)
    ensures |s| == short && s <= file[t.pos..t.End()]
  {
    mutated := new byte[|file| - t.len + short];
    Copy(mutated, 0, file[..t.pos + short]);
    Copy(mutated, t.pos + short, file[t.End()..]);
    s := file[t.pos..t.pos + short];
    assert file[..t.pos + short] == file[..t.pos] + s;
    assert s == file[t.pos..t.End()][..short];
  }

  method Lengthen(file: seq<byte>, t: Text, long: nat) returns (mutated: array<byte>, ghost s: seq<byte>)
    requires t.End() <= |file| && t.len <= long && !t.enc.Unicode?
    ensures fresh(mutated) && mutated[..] == Spliced(file, t, s)
    ensures |s| == long && file[t.pos..t.End()] <= s
    ensures IsContinuation(t.enc, file[t.pos..t.End()], s[t.len..])
  {
    var bs := FillString(file, t, long);
    mutated := Assemble(file, t, bs[..]);
    s := bs[..];
    assert s[..t.len] == bs[..t.len] && s[t.len..] == bs[t.len..];
  }

  method Remove(file: seq<byte>, t: Text) returns (mutated: array<byte>, ghost s: seq<byte>)
    requires t.End() <= |file|
    ensures fresh(mutated) && mutated[..] == Spliced(file, t, s)
    ensures s == []
  {
    mutated := new byte[|file| - t.len];
    Copy(mutated, 0, file[..t.pos]);
    Copy(mutated, t.pos, file[t.End()..]);
    s := [];
  }

  method Garble(file: seq<byte>, t: Text, ctrl: bool) returns (mutated: array<byte>, ghost s: seq<byte>)
    requires t.End() <= |file|
    ensures fresh(mutated) && mutated[..] == Spliced(file, t, s)
    ensures |s| == t.len
    ensures forall k :: 0 <= k < |s| ==> if ctrl then s[k] < 0x20 else IsInvalidFor(t.enc, s[k])
  {
    var bs;
    if ctrl {
      bs := FillCtrl(t);
    } else {
      bs := FillInvalid(t);
    }
    mutated := Assemble(file, t, bs[..]);
    s := bs[..];
  }

  /** What each draw for the string stands for. */
  ghost predicate ReplacedBy(draw: nat, file: seq<byte>, t: Text, s: seq<byte>)
    requires t.End() <= |file|
  {
    var text := file[t.pos..t.End()];
    if draw == 0 then s == text
    else if draw <= 2 then s <= text && (text != [] ==> |s| < |text|)
    else if draw == 7 then s == []
    else if draw <= 8 then
      && text <= s
      && |s| - |text| < (if draw == 8 then 1000 * |file| else |file|)
      && IsContinuation(t.enc, text, s[|text|..])
    else
      && |s| == |text|
      && forall k :: 0 <= k < |s| ==> if draw <= 11 then s[k] < 0x20 else IsInvalidFor(t.enc, s[k])
  }

  /** The replacement of the string, as drawn. */
  method ReplaceText(file: seq<byte>, t: Text, draw: nat) returns (mutated: array<byte>, newlength: nat, ghost s: seq<byte>)
    requires draw < 15
    requires t.End() <= |file| && 0 < t.len && !t.enc.Unicode?
    ensures fresh(mutated) && mutated[..] == Spliced(file, t, s)
    ensures newlength == |s| && ReplacedBy(draw, file, t, s) && IsReplacement(file, t, s)
    ensures draw == 0 || 9 <= draw ==> newlength == t.len
    ensures 1 <= draw <= 2 ==> newlength < t.len
    ensures 3 <= draw <= 6 ==> t.len <= newlength < t.len + |file|
    ensures draw == 7 ==> newlength == 0
    ensures draw == 8 ==> t.len <= newlength < t.len + 1000 * |file|
  {
    if draw == 0 {
      newlength := t.len;
      mutated, s := Leave(file, t);
    } else if draw <= 2 {
      newlength := Ran(t.len);
      mutated, s := Shorten(file, t, newlength);
    } else if draw <= 6 {
      var more := Ran(|file|);
      newlength := t.len + more;
      mutated, s := Lengthen(file, t, newlength);
    } else if draw == 7 {
      newlength := 0;
      mutated, s := Remove(file, t);
    } else if draw == 8 {
      var more := Ran(1000 * |file|);
      newlength := t.len + more;
      mutated, s := Lengthen(file, t, newlength);
    } else {
      newlength := t.len;
      mutated, s := Garble(file, t, draw <= 11);
    }
    DrawnIsReplacement(draw, file, t, s);
  }

  lemma DrawnIsReplacement(draw: nat, file: seq<byte>, t: Text, s: seq<byte>)
    requires draw < 15 && t.End() <= |file| && 0 < t.len && ReplacedBy(draw, file, t, s)
    ensures IsReplacement(file, t, s)
  {
  }

  method Fill(target: array<byte>, i: Int, c: byte)
    requires i.End() <= target.Length
    modifies target
    ensures target[..] == Overwrite(old(target[..]), i.pos, seq(i.byteW, _ => c))
  {
    for k := 0 to i.byteW
      invariant target[..] == Overwrite(old(target[..]), i.pos, seq(k, _ => c))
    {
      target[i.pos + k] := c;
    }
  }

  /** What each draw for a length field stands for, when the new string has `len` bytes. */
  predicate WrittenBy(draw: nat, len: nat, w: FieldWrite) {
    if draw == 0 then w.Keep?
    else if draw <= 6 then
      && w.Value?
      && (if len == 0 || draw == 4 then w.val == len
          else if draw <= 3 then 1 <= w.val <= len
          else len <= w.val < 101 * len)
    else if draw <= 9 then w.Zero?
    else w.Max?
  }

  /** What each draw does to the bytes of the field: they stay, or they read as a value that is
      smaller, fitting or greater, or they are all zero, or all 0xFF. */
  lemma DrawnFieldReads(buf: seq<byte>, i: Int, draw: nat, len: nat, w: FieldWrite)
    requires draw < 11 && IsField(i, |buf|) && WrittenBy(draw, len, w)
    ensures var after := WriteField(buf, i, w);
            && (draw == 0 ==> after == buf)
            && (1 <= draw <= 3 ==> exists v :: (if len == 0 then v == 0 else 1 <= v <= len) && ReadsAs(after, i, v))
            && (draw == 4 ==> ReadsAs(after, i, len))
            && (5 <= draw <= 6 ==> exists v :: (if len == 0 then v == 0 else len <= v < 101 * len) && ReadsAs(after, i, v))
            && (7 <= draw <= 9 ==> forall p :: i.pos <= p < i.End() ==> after[p] == 0x00)
            && (draw == 10 ==> forall p :: i.pos <= p < i.End() ==> after[p] == 0xFF)
            && (forall p :: 0 <= p < |buf| && !(i.pos <= p < i.End()) ==> after[p] == buf[p])
  {
    if w.Value? {
      WriteFieldThere(buf, i, w);
      DecodeEncode(w.val, i.enc.width, i.enc.order);
      assert ReadsAs(WriteField(buf, i, w), i, w.val);
    }
  }

  /** The field reads as the value, as far as it fits into the field. */
  predicate ReadsAs(buf: seq<byte>, i: Int, v: nat)
    requires i.End() <= |buf|
  {
    Decode(buf[i.pos..i.End()], i.enc.order) == v % Values(i.byteW)
  }

  /** The change of one length field, as drawn. */
  method RewriteField(mutated: array<byte>, l: Int, newlength: nat, draw: nat) returns (ghost w: FieldWrite)
    requires draw < 11 && IsField(l, mutated.Length)
    modifies mutated
    ensures WrittenBy(draw, newlength, w) && IsWrite(newlength, w)
    ensures mutated[..] == WriteField(old(mutated[..]), l, w)
    ensures draw == 4 ==> ReadsAs(mutated[..], l, newlength)
    ensures 7 <= draw <= 9 ==> forall p :: l.pos <= p < l.End() ==> mutated[p] == 0x00
    ensures draw == 10 ==> forall p :: l.pos <= p < l.End() ==> mutated[p] == 0xFF
  {
    ghost var was := mutated[..];
    w := Keep;
    if draw == 0 { // leave
    } else if draw <= 3 { // smaller
      var less := Ran(newlength);
      WriteNewValue(mutated, l, newlength - less);
      w := Value(newlength - less);
    } else if draw == 4 { // fitting
      WriteNewValue(mutated, l, newlength);
      w := Value(newlength);
    } else if draw <= 6 { // greater
      var more := Ran(100 * newlength);
      WriteNewValue(mutated, l, newlength + more);
      w := Value(newlength + more);
    } else if draw <= 9 { // zero
      Fill(mutated, l, 0x00);
      w := Zero;
    } else { // max
      Fill(mutated, l, 0xFF);
      w := Max;
    }
    DrawnFieldReads(was, l, draw, newlength, w);
  }

  /** The draws for the length fields: which field, and what becomes of it. */
  predicate AreFieldDraws(draws: seq<(nat, nat)>, fields: nat) {
    && (if fields > 2 then |draws| < fields / 2 else |draws| == 1)
    && (forall d :: d in draws ==> d.0 < fields && d.1 < 11)
  }

  method DrawFields(fields: nat) returns (draws: seq<(nat, nat)>)
    requires 0 < fields
    ensures AreFieldDraws(draws, fields)
  {
    var changes := 1;
    if fields > 2 {
      changes := Ran(fields / 2);
    }
    draws := [];
    for i := 0 to changes
      invariant |draws| == i
      invariant forall d :: d in draws ==> d.0 < fields && d.1 < 11
    {
      var n := Ran(fields);
      var draw := Ran(11);
      draws := draws + [(n, draw)];
    }
  }

  /** Each write is to the field drawn, and what was drawn for it. */
  ghost predicate WritesAsDrawn(fields: seq<Int>, draws: seq<(nat, nat)>, len: nat, writes: seq<(Int, FieldWrite)>) {
    && |writes| == |draws|
    && (forall k :: 0 <= k < |draws| ==>
          draws[k].0 < |fields| && writes[k].0 == fields[draws[k].0] && WrittenBy(draws[k].1, len, writes[k].1))
  }

  lemma WriteAsDrawn(fields: seq<Int>, draws: seq<(nat, nat)>, n: nat, len: nat, writes: seq<(Int, FieldWrite)>, w: FieldWrite)
    requires n < |draws| && WritesAsDrawn(fields, draws[..n], len, writes)
    requires draws[n].0 < |fields| && WrittenBy(draws[n].1, len, w)
    ensures WritesAsDrawn(fields, draws[..n + 1], len, writes + [(fields[draws[n].0], w)])
  {
  }

  lemma DrawnAreWrites(fields: seq<Int>, draws: seq<(nat, nat)>, len: nat, writes: seq<(Int, FieldWrite)>)
    requires WritesAsDrawn(fields, draws, len, writes)
    ensures forall w :: w in writes ==> w.0 in fields && IsWrite(len, w.1)
  {
  }

  method RewriteFields(mutated: array<byte>, fields: seq<Int>, newlength: nat, draws: seq<(nat, nat)>)
    returns (ghost writes: seq<(Int, FieldWrite)>)
    requires AreFieldDraws(draws, |fields|) && forall i :: i in fields ==> IsField(i, mutated.Length)
    modifies mutated
    ensures WritesAsDrawn(fields, draws, newlength, writes)
    ensures forall w :: w in writes ==> w.0 in fields && IsWrite(newlength, w.1)
    ensures mutated[..] == WriteFields(old(mutated[..]), writes)
  {
    writes := [];
    ghost var w;
    for i := 0 to |draws|
      invariant WritesAsDrawn(fields, draws[..i], newlength, writes)
      invariant forall v :: v in writes ==> v.0 in fields
      invariant mutated[..] == WriteFields(old(mutated[..]), writes)
    {
      assert draws[i] in draws;
      var l := fields[draws[i].0];
      w := RewriteField(mutated, l, newlength, draws[i].1);
      WriteAsDrawn(fields, draws, i, newlength, writes, w);
      assert (writes + [(l, w)])[..i] == writes;
      writes := writes + [(l, w)];
    }
    assert draws[..|draws|] == draws;
    DrawnAreWrites(fields, draws, newlength, writes);
  }

  method RemoveTerminator(mutated: array<byte>, at: nat) returns (r: array<byte>)
    requires at <= mutated.Length
    ensures fresh(r) && r[..] == mutated[..at] + TrimZeros(mutated[at..])
  {
    var firstnonterm := at;
    while firstnonterm < mutated.Length && mutated[firstnonterm] == 0x00
      invariant at <= firstnonterm <= mutated.Length
      invariant TrimZeros(mutated[at..]) == TrimZeros(mutated[firstnonterm..])
    {
      assert mutated[firstnonterm..][1..] == mutated[firstnonterm + 1..];
      firstnonterm := firstnonterm + 1;
    }
    r := new byte[at + (mutated.Length - firstnonterm)];
    Copy(r, 0, mutated[..at]);
    Copy(r, at, mutated[firstnonterm..]);
  }

  /** The replacement and the writes are those drawn. */
  ghost predicate IsDrawn(file: seq<byte>, blk: Block, draw: nat, draws: seq<(nat, nat)>,
                          s: seq<byte>, writes: seq<(Int, FieldWrite)>)
    requires IsUsable(file, blk)
  {
    && ReplacedBy(draw, file, blk.t[0], s)
    && WritesAsDrawn(blk.length, draws, |s|, writes)
    && (forall w :: w in writes ==> IsField(w.0, |Spliced(file, blk.t[0], s)|))
  }

  /** The string is replaced, then the length fields are rewritten. */
  method RewriteBlock(file: seq<byte>, blk: Block, draw: nat, draws: seq<(nat, nat)>)
    returns (mutated: array<byte>, newlength: nat, ghost s: seq<byte>, ghost writes: seq<(Int, FieldWrite)>)
    requires IsUsable(file, blk) && draw < 15 && AreFieldDraws(draws, |blk.length|)
    ensures newlength == |s|
    ensures fresh(mutated) && IsDrawn(file, blk, draw, draws, s, writes)
    ensures mutated[..] == WriteFields(Spliced(file, blk.t[0], s), writes)
  {
    mutated, newlength, s := ReplaceText(file, blk.t[0], draw);
    writes := RewriteFields(mutated, blk.length, newlength, draws);
  }

  /** The mutation of one block, as drawn: for the string, for its length fields and for its
      terminator, which goes if the text has one and the last draw is 0. */
  method MutateBlock(file: seq<byte>, blk: Block, draw: nat, draws: seq<(nat, nat)>, cut: nat)
    returns (mutated: array<byte>, ghost s: seq<byte>, ghost writes: seq<(Int, FieldWrite)>)
    requires IsUsable(file, blk) && draw < 15 && AreFieldDraws(draws, |blk.length|) && cut < 2
    ensures fresh(mutated) && IsDrawn(file, blk, draw, draws, s, writes)
    ensures mutated[..] == CutAt(WriteFields(Spliced(file, blk.t[0], s), writes), blk.t[0].pos + |s|,
                                 cut == 0 && blk.t[0].term)
  {
    var newlength;
    mutated, newlength, s, writes := RewriteBlock(file, blk, draw, draws);
    ghost var written := mutated[..];
    mutated := RemoveIf(mutated, blk.t[0].pos + newlength, cut == 0 && blk.t[0].term);
    assert mutated[..] == CutAt(written, blk.t[0].pos + |s|, cut == 0 && blk.t[0].term);
  }

  /** What is drawn is permitted, and the result is its outcome. */
  lemma DrawnIsMutation(file: seq<byte>, blk: Block, draw: nat, draws: seq<(nat, nat)>,
                        s: seq<byte>, writes: seq<(Int, FieldWrite)>, gone: bool, r: seq<byte>)
    requires IsUsable(file, blk) && draw < 15 && AreFieldDraws(draws, |blk.length|)
    requires IsDrawn(file, blk, draw, draws, s, writes) && (gone ==> blk.t[0].term)
    requires r == CutAt(WriteFields(Spliced(file, blk.t[0], s), writes), blk.t[0].pos + |s|, gone)
    ensures IsMutation(file, blk, s, writes, gone) && r == Mutated(file, blk, s, writes, gone)
  {
    DrawnIsReplacement(draw, file, blk.t[0], s);
    DrawnAreWrites(blk.length, draws, |s|, writes);
  }

  lemma MutationOutcome(file: seq<byte>, blks: seq<Block>, blk: Block, s: seq<byte>, writes: seq<(Int, FieldWrite)>,
                        gone: bool, r: seq<byte>)
    requires blk in blks && IsMutation(file, blk, s, writes, gone) && r == Mutated(file, blk, s, writes, gone)
    ensures IsChoice(file, blks, Mutate(blk, s, writes, gone)) && r == Outcome(file, blks, Mutate(blk, s, writes, gone))
  {
  }

  method RemoveIf(mutated: array<byte>, at: nat, gone: bool) returns (r: array<byte>)
    requires at <= mutated.Length
    ensures r == mutated || fresh(r)
    ensures r[..] == CutAt(mutated[..], at, gone)
  {
    r := mutated;
    if gone {
      r := RemoveTerminator(mutated, at);
      assert mutated[..][..at] == mutated[..at] && mutated[..][at..] == mutated[at..];
    }
  }

  /** The mutation of one block, with draws of its own. */
  method DrawAndMutate(file: seq<byte>, blk: Block)
    returns (mutated: array<byte>, ghost s: seq<byte>, ghost writes: seq<(Int, FieldWrite)>, ghost gone: bool)
    requires IsUsable(file, blk)
    ensures fresh(mutated) && IsMutation(file, blk, s, writes, gone)
    ensures mutated[..] == Mutated(file, blk, s, writes, gone)
  {
    var draw := Ran(15);
    var draws := DrawFields(|blk.length|);
    var cut := Ran(2);
    mutated, s, writes := MutateBlock(file, blk, draw, draws, cut);
    gone := cut == 0 && blk.t[0].term;
    DrawnIsMutation(file, blk, draw, draws, s, writes, gone, mutated[..]);
  }

  /** `StringM.Do`, on blocks that are usable or skipped: no access is out of range, and the
      result is the outcome of permitted choices. */
  method Do(file: seq<byte>, blks: seq<Block>) returns (mutated: array<byte>, ghost c: Choice)
    requires forall blk :: blk in blks ==> IsUsable(file, blk) || IsIdle(blk)
    ensures fresh(mutated)
    ensures IsChoice(file, blks, c) && mutated[..] == Outcome(file, blks, c)
  {
    mutated := new byte[0];
    c := Nothing;
    if |blks| > 0 {
      var n := Ran(|blks|);
      var blk := blks[n];
      assert blk in blks;
      if |blk.length| > 0 && |blk.t| > 0 {
        ghost var s, writes, gone;
        mutated, s, writes, gone := DrawAndMutate(file, blk);
        MutationOutcome(file, blks, blk, s, writes, gone, mutated[..]);
        c := Mutate(blk, s, writes, gone);
      }
    }
  }
}
