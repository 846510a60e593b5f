/** Inputs at which the code does not do what it is for. The exact conditions are theorems
    of the modules concerned; here is one input for each. */
module Witnesses {
  import opened Bytes
  import opened Records
  import opened Segments
  import opened Digesters
  import Strs = ScanStrings
  import opened Codec
  import opened ScanInts
  import opened Correlate
  import opened FanOut
  import opened Fillers
  import Mut = StringMutator
  import opened Pipeline

  // ---- a UTF-8 text that ends in a lead byte ----

  const SEAM: seq<byte> := [0x05, 0x00, 0x41, 0x42, 0x43, 0x44, 0xC3, 0x00]
  const SEAM_TEXT := Text(Utf8, 2, 5, true)
  const SEAM_BLOCK := Block([SEAM_TEXT], None, map[], [], [FIELD])

  /** The two bytes 05 00 at the start of a file. */
  const FIELD := Int(IntEnc(false, 2, LittleEndian), 2, 0, 5, 5)

  lemma SeamAccepted(k: nat)
    requires k < |SEAM|
    ensures Accepts(SEAM, k) <==> 2 <= k < 7
  {
    assert Accepts(SEAM, 5);
    assert Accepts(SEAM, 6);
  }

  lemma SeamTexts()
    ensures Strs.FileTexts(SEAM, 5, [SEAM_TEXT])
  {
    var acc := Utf8Accepted(SEAM);
    forall k | 0 <= k < |SEAM| ensures acc[k] <==> 2 <= k < 7 {
      SeamAccepted(k);
    }
    assert IsRun(acc, 2, 5);
    assert !IsAsciiText(SEAM[6]);
    forall t ensures t == SEAM_TEXT <==> Strs.IsFileText(SEAM, 5, t) {
      if Strs.IsFileText(SEAM, 5, t) {
        assert acc[t.pos];
        RunsApart(acc, 2, 5, t.pos, t.len);
      }
    }
  }

  /** Two bytes that read as five are a candidate and a length field of a text of five. */
  lemma FieldIsCandidate(b: seq<byte>, t: Text)
    requires |b| == 8 && b[..2] == [0x05, 0x00] && t.pos == 2 && t.len == 5
    ensures IsCandidate(b, [t], FIELD)
  {
    var bs := b[0..2];
    assert bs == [0x05, 0x00] && bs[1..] == [0x00] && bs[1..][1..] == [];
    assert FromLittle(bs[1..]) == 0;
    assert Decode(bs, LittleEndian) == 5;
    assert Values(0) == 1 && Values(1) == 256 && Values(2) == 0x1_0000;
  }

  lemma FieldIsLength(t: Text)
    requires t.pos == 2 && t.len == 5
    ensures IntBlock([FIELD], t) == Some(Block([t], None, map[], [], [FIELD]))
  {
    var ints := [FIELD];
    assert ints[..|ints| - 1] == [] && ints[|ints| - 1] == FIELD;
    assert LengthFields([], t) == [];
    assert LengthFields(ints, t) == [FIELD];
  }

  /** The text with one whole unit behind it. */
  const FILLED: seq<byte> := [0x41, 0x42, 0x43, 0x44, 0xC3, 0xC3, 0x80]

  lemma FilledContinues()
    ensures FILLED[..5] == SEAM[2..7] && IsContinuation(Utf8, SEAM[2..7], FILLED[5..])
  {
    var more := FILLED[5..];
    assert more == [0xC3, 0x80] && more[..2] == more && more[2..] == [];
  }

  /** The text has a length field, and the mutator may lengthen it by that unit. */
  lemma SeamIsMutated()
    ensures IsCandidate(SEAM, [SEAM_TEXT], FIELD) && IntBlock([FIELD], SEAM_TEXT) == Some(SEAM_BLOCK)
    ensures Mut.IsMutation(SEAM, SEAM_BLOCK, FILLED, [(FIELD, Mut.Keep)], false)
  {
    FieldIsCandidate(SEAM, SEAM_TEXT);
    FieldIsLength(SEAM_TEXT);
    FilledContinues();
    assert SEAM[2..7] <= FILLED;
    assert Mut.IsReplacement(SEAM, SEAM_TEXT, FILLED);
  }

  /** What it writes is then not read without a break. */
  lemma SeamBreaks()
    ensures !Passes(FILLED)
  {
    SeamTexts();
    assert SEAM_TEXT in [SEAM_TEXT];
    FilledContinues();
    FilledTextPasses(SEAM, 5, SEAM_TEXT, FILLED);
  }

  // ---- a length field whose block is lost, and the empty file it leads to ----

  const SHORT: seq<byte> := [0x05, 0x00, 0x41, 0x41, 0x41, 0x41, 0x41, 0x00]
  const SHORT_TEXT := Text(Ascii, 2, 5, true)

  lemma ShortAccepted(k: nat)
    requires k < |SHORT|
    ensures Accepts(SHORT, k) <==> 2 <= k < 7
  {
  }

  lemma ShortTexts()
    ensures Strs.FileTexts(SHORT, 5, [SHORT_TEXT])
  {
    var acc := Utf8Accepted(SHORT);
    forall k | 0 <= k < |SHORT| ensures acc[k] <==> 2 <= k < 7 {
      ShortAccepted(k);
    }
    assert IsRun(acc, 2, 5);
    forall t ensures t == SHORT_TEXT <==> Strs.IsFileText(SHORT, 5, t) {
      if Strs.IsFileText(SHORT, 5, t) {
        assert acc[t.pos];
        assert t.pos == 2;
        RunsApart(acc, 2, 5, t.pos, t.len);
      }
    }
  }

  /** Whatever order the scan has found its candidates in. */
  ghost predicate AreShortInts(ints: seq<Int>) {
    forall i :: i in ints <==> IsCandidate(SHORT, [SHORT_TEXT], i)
  }

  lemma ShortHasField(ints: seq<Int>)
    requires AreShortInts(ints)
    ensures !HasNoField(ints, [SHORT_TEXT]) && Produced(EmitInt(ints), [SHORT_TEXT]) != []
  {
    FieldIsCandidate(SHORT, SHORT_TEXT);
    assert FIELD in LengthFields(ints, SHORT_TEXT);
    assert SHORT_TEXT in [SHORT_TEXT];
    ProducedNothing(ints, [SHORT_TEXT]);
  }

  /** On a machine with four processors the correlation can return, but whenever it does, the
      block of the string is lost. */
  lemma FourProcessorsLoseTheBlock(ints: seq<Int>, after: seq<Block>)
    requires AreShortInts(ints)
    ensures MayReturn(IntConfig(ints, [SHORT_TEXT], 4, []))
    ensures Produced(EmitInt(ints), [SHORT_TEXT]) != []
    ensures IntStage(false, ints, [SHORT_TEXT], 4, [], after) ==> after == []
  {
    IntStringsReturns(ints, [SHORT_TEXT], 4, []);
    ShortHasField(ints);
    if IntStage(false, ints, [SHORT_TEXT], 4, [], after) {
      IntStageBlocks(false, ints, [SHORT_TEXT], 4, after);
      assert |multiset(after)| == 0;
    }
  }

  /** The only mutant of the file is then the empty one. */
  lemma FourProcessorsEmptyTheFile(ints: seq<Int>, mid: seq<Block>, after: seq<Block>, r: seq<byte>)
    requires AreShortInts(ints) && Correlated(false, true, ints, [SHORT_TEXT], 4, [], mid, after)
    ensures Mut.IsMutant(SHORT, after, r) <==> r == []
  {
    ShortTexts();
    OnlyEmptyMutants(SHORT, 5, [SHORT_TEXT], ints, false, true, 4, [], mid, after, r);
  }

  /** With six processors none of its mutants is empty. */
  lemma SixProcessorsDoNot(ints: seq<Int>, mid: seq<Block>, after: seq<Block>)
    requires AreShortInts(ints) && Correlated(false, true, ints, [SHORT_TEXT], 6, [], mid, after)
    ensures !Mut.IsMutant(SHORT, after, [])
  {
    ShortTexts();
    ShortHasField(ints);
    EmptyMutantIff(SHORT, 5, [SHORT_TEXT], ints, false, true, 6, [], mid, after);
  }

  // ---- eleven strings ----

  const ELEVEN: seq<byte> := seq(22, k requires 0 <= k < 22 => if k % 2 == 0 then 0x41 else 0x00)
  const ELEVEN_TEXTS: seq<Text> := seq(11, i requires 0 <= i < 11 => Text(Ascii, 2 * i, 1, true))

  lemma ElevenAccepted(k: nat)
    requires k < 22
    ensures Accepts(ELEVEN, k) <==> k % 2 == 0
  {
  }

  lemma ElevenRuns(p: nat, n: nat)
    ensures IsRun(Utf8Accepted(ELEVEN), p, n) <==> p < 22 && p % 2 == 0 && n == 1
  {
    var acc := Utf8Accepted(ELEVEN);
    forall k | 0 <= k < 22 ensures acc[k] <==> k % 2 == 0 {
      ElevenAccepted(k);
    }
    if p < 22 && p % 2 == 0 {
      assert acc[p] && !acc[p + 1];
      assert IsRun(acc, p, 1);
    }
    if IsRun(acc, p, n) {
      assert acc[p];
      RunsApart(acc, p, n, p, 1);
    }
  }

  lemma ElevenTexts()
    ensures Strs.FileTexts(ELEVEN, 1, ELEVEN_TEXTS)
  {
    forall t ensures t in ELEVEN_TEXTS <==> Strs.IsFileText(ELEVEN, 1, t) {
      ElevenRuns(t.pos, t.len);
      if Strs.IsFileText(ELEVEN, 1, t) {
        assert t == ELEVEN_TEXTS[t.pos / 2];
      }
    }
  }

  /** On four processors they are too many: main never returns. */
  lemma FourProcessorsHang(ints: seq<Int>)
    ensures !MayReturn(IntConfig(ints, ELEVEN_TEXTS, 4, []))
  {
    IntStringsReturns(ints, ELEVEN_TEXTS, 4, []);
  }

  // ---- an integer at the end of the file ----

  const TAIL: seq<byte> := [0x00, 0x00, 0x00, 0x00, 0x00, 0x00, 0x00, 0x05]
  const TAIL_INT := Int(IntEnc(false, 2, BigEndian), 2, 6, 5, 5)

  lemma TailIsPlausible()
    ensures IsReading(TAIL[6..8], |TAIL|, TAIL_INT)
    ensures !IsCandidate(TAIL, [], TAIL_INT)
  {
    var bs := TAIL[6..8];
    assert bs == [0x00, 0x05] && bs[..1] == [0x00] && bs[..1][..0] == [];
    assert FromBig(bs[..1]) == 0;
    assert Decode(bs, BigEndian) == 5;
    assert Values(0) == 1 && Values(1) == 256 && Values(2) == 0x1_0000;
    LastPlaceIsMissed(TAIL, [], TAIL_INT);
  }

  lemma TailTexts(strlim: nat)
    requires 0 < strlim
    ensures Strs.FileTexts(TAIL, strlim, [])
  {
    var acc := Utf8Accepted(TAIL);
    assert forall k :: 0 <= k < |TAIL| ==> !acc[k];
    forall t ensures !Strs.IsFileText(TAIL, strlim, t) {
      assert t.pos < |TAIL| ==> !acc[t.pos];
    }
  }

  /** No order of the two scans records it. */
  method ScanTail(strlim: nat, dedup: bool) returns (intz: Ints)
    requires 0 < strlim
    ensures fresh(intz) && TAIL_INT !in intz.i
  {
    var f := new Strs.File(TAIL);
    intz := Analyse(f, strlim, dedup, [], []);
    TailTexts(strlim);
    Strs.FileTextsUnique(TAIL, strlim, f.stringz.s, []);
    TailIsPlausible();
  }
}
