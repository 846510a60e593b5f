/** The string scan of one file: the digesters run concurrently, their lists are merged,
    and the file is labelled pure when a single text covers it. */
module ScanStrings {
  import opened Bytes
  import opened Records
  import opened Segments
  import opened Digesters
  import opened Minimize

  /** A long enough run of bytes that `utf8digester` accepts; a run of ASCII text bytes
      only is labelled "ascii". */
  ghost predicate IsFileText(b: seq<byte>, lim: nat, t: Text) {
    && IsText(b, Utf8Accepted(b), t.enc, lim, t)
    && t.enc == (if AllAscii(b, t) then Ascii else Utf8)
  }

  /** `ts` lists exactly the texts of the file, in file order. */
  ghost predicate FileTexts(b: seq<byte>, lim: nat, ts: seq<Text>) {
    && Sorted(ts)
    && (forall t :: t in ts <==> IsFileText(b, lim, t))
  }

  lemma RelabelIsFileText(b: seq<byte>, lim: nat, u: Text)
    requires IsText(b, Utf8Accepted(b), Utf8, lim, u)
    ensures IsFileText(b, lim, Relabel(b, u))
  {
  }

  lemma FileTextIsRelabelled(b: seq<byte>, lim: nat, t: Text)
    requires IsFileText(b, lim, t)
    ensures IsText(b, Utf8Accepted(b), Utf8, lim, t.(enc := Utf8))
    ensures Relabel(b, t.(enc := Utf8)) == t
  {
  }

  lemma MinimizedIsFileTexts(b: seq<byte>, lim: nat, utfs: seq<Text>)
    requires Utf8Report(b, lim, utfs)
    requires forall u :: u in utfs ==> u.End() <= |b|
    ensures FileTexts(b, lim, Minimized(b, utfs))
  {
    var ts := Minimized(b, utfs);
    forall t | IsFileText(b, lim, t) ensures t in ts {
      FileTextIsRelabelled(b, lim, t);
      assert t.(enc := Utf8) in utfs;
      var j :| 0 <= j < |utfs| && utfs[j] == t.(enc := Utf8);
      assert ts[j] == t;
    }
    forall t | t in ts ensures IsFileText(b, lim, t) {
      var j :| 0 <= j < |ts| && ts[j] == t;
      assert utfs[j] in utfs && t == Relabel(b, utfs[j]);
      RelabelIsFileText(b, lim, utfs[j]);
    }
  }

  /** The texts of a file are determined by its bytes, so they do not depend on the order
      in which the digesters run. */
  lemma FileTextsUnique(b: seq<byte>, lim: nat, xs: seq<Text>, ys: seq<Text>)
    requires FileTexts(b, lim, xs) && FileTexts(b, lim, ys)
    ensures xs == ys
  {
    SortedUnique(xs, ys);
  }

  /** The texts are non-empty, lie inside the file and do not touch each other. */
  lemma FileTextsApart(b: seq<byte>, lim: nat, ts: seq<Text>)
    requires FileTexts(b, lim, ts)
    ensures forall t :: t in ts ==> 0 < t.len && t.End() <= |b| && !t.enc.Unicode?
    ensures forall i, j :: 0 <= i < j < |ts| ==> ts[i].End() < ts[j].pos
  {
    forall i, j | 0 <= i < j < |ts| ensures ts[i].End() < ts[j].pos {
      assert ts[i] in ts && ts[j] in ts;
      RunsApart(Utf8Accepted(b), ts[i].pos, ts[i].len, ts[j].pos, ts[j].len);
    }
  }

  class File {
    const content: seq<byte>
    var isPureAscii: bool
    var isPureUtf8: bool
    var isPureUnicode: bool
    const stringz: Strings

    constructor (content: seq<byte>)
      ensures this.content == content && fresh(stringz) && stringz.s == []
      ensures !isPureAscii && !isPureUtf8 && !isPureUnicode
    {
      this.content := content;
      isPureAscii, isPureUtf8, isPureUnicode := false, false, false;
      stringz := new Strings();
    }
  }

  /** The digesters' goroutines add to the shared list in any order that keeps each
      digester's own order. */
  method AddConcurrently(stringz: Strings, asciis: seq<Text>, utfs: seq<Text>, unicodes: seq<Text>)
    requires stringz.s == []
    requires forall t :: t in asciis ==> t.enc.Ascii?
    requires forall t :: t in utfs ==> t.enc.Utf8?
    requires forall t :: t in unicodes ==> t.enc.Unicode?
    modifies stringz
    ensures Interleaves(stringz.s, asciis, utfs)
  {
    var i, j, k := 0, 0, 0;
    while i < |asciis| || j < |utfs| || k < |unicodes|
      invariant i <= |asciis| && j <= |utfs| && k <= |unicodes|
      invariant forall t :: t in stringz.s <==> t in asciis[..i] || t in utfs[..j] || t in unicodes[..k]
      decreases |asciis| - i + |utfs| - j + |unicodes| - k
    {
      if
      case i < |asciis| =>
        stringz.Add(asciis[i]);
        assert asciis[..i + 1] == asciis[..i] + [asciis[i]];
        i := i + 1;
      case j < |utfs| =>
        stringz.Add(utfs[j]);
        assert utfs[..j + 1] == utfs[..j] + [utfs[j]];
        j := j + 1;
      case k < |unicodes| =>
        stringz.Add(unicodes[k]);
        assert unicodes[..k + 1] == unicodes[..k] + [unicodes[k]];
        k := k + 1;
    }
    assert asciis[..i] == asciis && utfs[..j] == utfs;
  }

  /** `ScanStrings`. `unicodes` and `magics` are what the UTF-16 and the byte-order-mark
      digesters add: the former's texts and the positions of the latter's finds. */
  method Scan(f: File, strlim: nat, unicodes: seq<Text>, magics: seq<nat>)
    requires 0 < strlim && f.stringz.s == []
    requires !f.isPureAscii && !f.isPureUtf8 && !f.isPureUnicode
    requires forall t :: t in unicodes ==> t.enc.Unicode?
    modifies f, f.stringz
    ensures FileTexts(f.content, strlim, f.stringz.s)
    ensures f.isPureAscii <==> WholeFile(f.content, strlim) && (forall c :: c in f.content ==> IsAsciiText(c))
    ensures f.isPureUtf8 <==> WholeFile(f.content, strlim) && (exists c :: c in f.content && !IsAsciiText(c))
    ensures f.isPureUnicode <==> 0 in magics
  {
    var b := f.content;
    var asciis := AsciiDigester(b, strlim);
    var utfs := Utf8Digester(b, strlim);
    AddConcurrently(f.stringz, asciis, utfs, unicodes);
    var ar := MinimizeStrings(b, f.stringz.s, strlim, asciis, utfs);
    f.stringz.s := ar;
    MinimizedIsFileTexts(b, strlim, utfs);
    FileTextsApart(b, strlim, f.stringz.s);
    for i := 0 to |magics|
      modifies f
      invariant f.isPureUnicode <==> 0 in magics[..i]
      invariant !f.isPureAscii && !f.isPureUtf8
    {
      assert magics[..i + 1] == magics[..i] + [magics[i]];
      if magics[i] == 0 {
        f.isPureUnicode := true;
      }
    }
    assert magics[..|magics|] == magics;
    WholeFileText(b, strlim, f.stringz.s);
    if |f.stringz.s| != 0 {
      var n := f.stringz.s[0];
      if n.pos == 0 && n.len == |b| {
        if n.enc.Ascii? {
          f.isPureAscii := true;
        } else if n.enc.Utf8? {
          f.isPureUtf8 := true;
        } else {
          assert false; // "unicode" entries do not survive the merge
        }
      }
    }
  }

  /** The file is one long enough run of bytes that `utf8digester` accepts. */
  ghost predicate WholeFile(b: seq<byte>, lim: nat) {
    && 0 < lim <= |b|
    && (forall k :: 0 <= k < |b| ==> Accepts(b, k))
  }

  lemma WholeFileText(b: seq<byte>, lim: nat, ts: seq<Text>)
    requires 0 < lim && FileTexts(b, lim, ts)
    ensures WholeFile(b, lim) <==> ts != [] && ts[0].pos == 0 && ts[0].len == |b|
    ensures WholeFile(b, lim) ==> (ts[0].enc.Ascii? <==> forall c :: c in b ==> IsAsciiText(c))
    ensures WholeFile(b, lim) ==> !ts[0].enc.Unicode?
  {
    var acc := Utf8Accepted(b);
    assert forall k :: 0 <= k < |b| ==> acc[k] == Accepts(b, k);
    assert forall i :: 0 <= i < |ts| ==> ts[i] in ts;
    if WholeFile(b, lim) {
      var all := Text(Utf8, 0, |b|, true);
      all := all.(enc := if AllAscii(b, all) then Ascii else Utf8);
      assert IsFileText(b, lim, all);
      var first := ts[0];
      var j :| 0 <= j < |ts| && ts[j] == all;
      assert j == 0;
      assert AllAscii(b, all) <==> forall c :: c in b ==> IsAsciiText(c);
    }
  }
}
