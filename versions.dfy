/** How the two versions of the engine relate: on a configuration with no
    validation sequences and no replace-wildcard bytes in any replacement
    they patch a buffer identically; a replace wildcard makes them differ;
    and their hex decoders agree on text without white space. */
module Versions {

  import opened Engine
  import opened HexText
  import P = Patcher
  import PP = PatcherProps
  import PT = PatcherText
  import L = LegacyPatcher

  /** The same node read by the earlier loader, which has no `validate`. */
  function ToLegacy(p: P.Pattern): (q: L.LegacyPattern)
    ensures q.name == p.name
    ensures q.wildcard == p.wildcard && q.replaceWildcard == p.replaceWildcard
    ensures q.needle == p.needle && q.replace == p.replace
    ensures q.maxSearch == p.maxSearch && q.replaceOffset == p.replaceOffset
    ensures |q.children| == |p.children|
    ensures forall i :: 0 <= i < |p.children| ==> q.children[i] == ToLegacy(p.children[i])
  {
    L.LegacyPattern(p.name, p.wildcard, p.replaceWildcard, p.needle, p.replace,
      p.maxSearch, p.replaceOffset,
      seq(|p.children|, i requires 0 <= i < |p.children| => ToLegacy(p.children[i])))
  }

  /** A node, and each below it, uses neither a validation sequence nor
      replace-wildcard bytes in its replacement. */
  ghost predicate Plain(p: P.Pattern)
  {
    p.validate == [] &&
    (p.replaceWildcard == 0 || forall k :: 0 <= k < |p.replace| ==> p.replace[k] != p.replaceWildcard) &&
    forall c :: c in p.children ==> Plain(c)
  }

  lemma {:induction false} ToLegacyWellFormed(p: P.Pattern)
    requires P.WellFormed(p)
    ensures L.WellFormed(ToLegacy(p))
    decreases p
  {
    var q := ToLegacy(p);
    forall c | c in q.children ensures L.WellFormed(c) {
      var i :| 0 <= i < |q.children| && q.children[i] == c;
      assert p.children[i] in p.children;
      ToLegacyWellFormed(p.children[i]);
    }
  }

  /** On a plain node, the masked write and the compaction write are the
      same plain overwrite. */
  lemma PatchAgree(s: seq<byte>, res: nat, p: P.Pattern, force: bool)
    requires res <= |s|
    requires Plain(p)
    ensures P.Patch(s, res, p, force) == L.Patch(s, res, ToLegacy(p))
  {
    var at := res + p.replaceOffset;
    L.KeptAll(p.replace, p.replaceWildcard);
    if p.replace != [] && at + |p.replace| <= |s| {
      PP.MaskedWithoutWildcard(s, at, p.replace, p.replaceWildcard);
      L.CompactedIsOverwrite(s, at, p.replace, p.replaceWildcard);
    }
  }

  /** On a plain tree the two engines make the same run: the same buffer,
      the same matches, the same outcome. */
  lemma {:induction false} ScanAgree(s: seq<byte>, cursor: nat, end: nat, p: P.Pattern, force: bool, found: seq<nat>)
    requires cursor <= end <= |s|
    requires P.WellFormed(p) && Plain(p)
    ensures L.WellFormed(ToLegacy(p))
    ensures P.Scan(s, cursor, end, p, force, found) == L.Scan(s, cursor, end, ToLegacy(p), found)
    decreases p, 1, end - cursor
  {
    ToLegacyWellFormed(p);
    var q := ToLegacy(p);
    var res := Find(s, cursor, end, p.needle, p.wildcard);
    if res < end {
      ProcessAgree(s, res, end, p, force);
      var w := P.Process(s, res, end, p, force);
      assert w == L.Process(s, res, end, q);
      if w.status == Completed {
        var next := res + |p.needle|;
        ScanAgree(w.buf, next, end, p, force, found + [res]);
        assert P.Scan(s, cursor, end, p, force, found) == P.Scan(w.buf, next, end, p, force, found + [res]);
        assert L.Scan(s, cursor, end, q, found) == L.Scan(w.buf, next, end, q, found + [res]);
      }
    }
  }

  lemma {:induction false} ProcessAgree(s: seq<byte>, res: nat, end: nat, p: P.Pattern, force: bool)
    requires res <= end <= |s|
    requires P.WellFormed(p) && Plain(p)
    ensures L.WellFormed(ToLegacy(p))
    ensures P.Process(s, res, end, p, force) == L.Process(s, res, end, ToLegacy(p))
    decreases p, 0, |p.children| + 1
  {
    ToLegacyWellFormed(p);
    PatchAgree(s, res, p, force);
    var w := P.Patch(s, res, p, force);
    if w.status == Completed {
      ChildrenAgree(w.buf, res, end, p, 0, force);
    }
  }

  lemma {:induction false} ChildrenAgree(s: seq<byte>, res: nat, end: nat, p: P.Pattern, i: nat, force: bool)
    requires res <= end <= |s| && i <= |p.children|
    requires P.WellFormed(p) && Plain(p)
    ensures L.WellFormed(ToLegacy(p))
    ensures P.Children(s, res, end, p, i, force) == L.Children(s, res, end, ToLegacy(p), i)
    decreases p, 0, |p.children| - i
  {
    ToLegacyWellFormed(p);
    if i < |p.children| {
      var c := p.children[i];
      assert c in p.children;
      assert ToLegacy(p).children[i] == ToLegacy(c);
      var ce := ChildEnd(res, end, c.maxSearch, |s|);
      ScanAgree(s, res, ce, c, force, []);
      var r := P.Scan(s, res, ce, c, force, []);
      if r.status == Completed {
        ChildrenAgree(r.buf, res, end, p, i + 1, force);
      }
    }
  }

  /** The earlier loader's view of a list of top-level nodes. */
  function LegacyList(ps: seq<P.Pattern>): (qs: seq<L.LegacyPattern>)
    ensures |qs| == |ps|
    ensures forall i :: 0 <= i < |ps| ==> qs[i] == ToLegacy(ps[i])
  {
    seq(|ps|, i requires 0 <= i < |ps| => ToLegacy(ps[i]))
  }

  /** On a plain configuration both versions leave the same file. */
  lemma {:induction false} DriveAgree(s: seq<byte>, ps: seq<P.Pattern>, force: bool)
    requires forall q :: q in ps ==> P.WellFormed(q) && Plain(q)
    ensures forall q :: q in LegacyList(ps) ==> L.WellFormed(q)
    ensures P.Drive(s, ps, force) == L.Drive(s, LegacyList(ps))
    decreases |ps|
  {
    var qs := LegacyList(ps);
    forall q | q in qs ensures L.WellFormed(q) {
      var i :| 0 <= i < |qs| && qs[i] == q;
      assert ps[i] in ps;
      ToLegacyWellFormed(ps[i]);
    }
    if ps != [] {
      assert ps[0] in ps;
      ScanAgree(s, 0, TopEnd(ps[0].maxSearch, |s|), ps[0], force, []);
      var r := P.Scan(s, 0, TopEnd(ps[0].maxSearch, |s|), ps[0], force, []);
      assert LegacyList(ps)[1..] == LegacyList(ps[1..]);
      if r.status == Completed {
        DriveAgree(r.buf, ps[1..], force);
      }
    }
  }

  /** A replace wildcard inside the replacement: the current version keeps
      the destination byte under it, the earlier one closes the gap and
      shifts the rest of the replacement. */
  lemma MaskingDiffersFromCompaction()
    ensures P.Masked([0x00, 0x11, 0x22], 0, [0xAA, 0xBB, 0xCC], 0xBB) == [0xAA, 0x11, 0xCC]
    ensures L.Compacted([0x00, 0x11, 0x22], 0, [0xAA, 0xBB, 0xCC], 0xBB) == [0xAA, 0xCC, 0x22]
  {
    var s: seq<byte> := [0x00, 0x11, 0x22];
    var r: seq<byte> := [0xAA, 0xBB, 0xCC];
    PP.MaskedAt(s, 0, r, 0xBB);
    assert L.Kept(r, 0xBB) == [0xAA, 0xCC] by {
      assert r[1..] == [0xBB, 0xCC];
      assert r[1..][1..] == [0xCC];
    }
    L.CompactedIsOverwrite(s, 0, r, 0xBB);
  }

  /** On text without white space both decoders read the same pairs. */
  lemma HexAgree(text: string)
    requires forall i :: 0 <= i < |text| ==> !IsSpace(text[i])
    ensures DecodeHex(PT.StripSpace(text)) == DecodeHex(text)
  {
    PT.StripSpaceNoSpace(text);
  }

  /** White space inside a hex field separates differently: the current
      decoder removes it first, the earlier one lets `strtol` skip it inside
      a pair, which then holds one digit. */
  lemma SpacedHexDiffers()
    ensures DecodeHex(PT.StripSpace("12 34")) == [0x12, 0x34]
    ensures DecodeHex("12 34") == [0x12, 0x03, 0x04]
  {
    StripExample();
    JoinedPairs();
    SplitPairs();
  }

  lemma StripExample()
    ensures PT.StripSpace("12 34") == "1234"
  {
    var t := "12 34";
    assert t[1..] == "2 34" && t[1..][1..] == " 34" && t[1..][1..][1..] == "34";
    PT.StripSpaceNoSpace("34");
  }

  lemma JoinedPairs()
    ensures DecodeHex("1234") == [0x12, 0x34]
  {
    var h := "1234";
    assert PairAt(h, 0) == "12" && PairAt(h, 1) == "34";
    PairByteOfHexDigits("12");
    PairByteOfHexDigits("34");
  }

  lemma SplitPairs()
    ensures DecodeHex("12 34") == [0x12, 0x03, 0x04]
  {
    SplitPairsText();
    SplitPairsBytes();
    var d := DecodeHex("12 34");
    assert d[0] == 0x12 && d[1] == 0x03 && d[2] == 0x04;
  }

  /** The pairs of `12 34` taken as they are. */
  lemma SplitPairsText()
    ensures PairAt("12 34", 0) == "12" && PairAt("12 34", 1) == " 3" && PairAt("12 34", 2) == "4"
  {
    var t := "12 34";
    assert t[0..2] == "12" && t[2..4] == " 3" && t[4..5] == "4";
  }

  /** How `strtol` reads those pairs. */
  lemma SplitPairsBytes()
    ensures PairByte("12") == 0x12 && PairByte(" 3") == 0x03 && PairByte("4") == 0x04
  {
    PairByteOfHexDigits("12");
    PairByteOfHexDigits("4");
    PairByteCases(" 3");
  }
}
