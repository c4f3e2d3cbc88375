/** The earlier patch engine (`patcher/patcher.cpp`): the same recursive
    search, but without a validation step, and with the replacement written
    by `std::copy_if`, which skips the replace-wildcard bytes and so moves
    every later replacement byte one place towards the match for each one it
    skips. Fields are always hex text, decoded without removing white space. */
module LegacyPatcher {

  import opened Engine
  import opened HexText

  /** A node of the earlier pattern tree: no `validate` field. */
  datatype LegacyPattern = LegacyPattern(
    name: string,
    wildcard: byte,
    replaceWildcard: byte,
    needle: seq<byte>,
    replace: seq<byte>,
    maxSearch: nat,
    replaceOffset: nat,
    children: seq<LegacyPattern>)

  /** Every node the engine searches has a non-empty needle. */
  ghost predicate WellFormed(p: LegacyPattern)
  {
    |p.needle| > 0 && forall c :: c in p.children ==> WellFormed(c)
  }

  /** `neg_comparer`: with no replace wildcard every byte is copied,
      otherwise every byte but the wildcard. */
  predicate Keep(b: byte, replaceWildcard: byte): (k: bool)
    ensures replaceWildcard == 0 ==> k
    ensures b != replaceWildcard ==> k
    ensures !k ==> b == replaceWildcard && b != 0
  {
    replaceWildcard == 0 || b != replaceWildcard
  }

  /** The replacement bytes `copy_if` copies, in order. */
  function Kept(r: seq<byte>, replaceWildcard: byte): (k: seq<byte>)
    ensures |k| <= |r|
    ensures forall j :: 0 <= j < |k| ==> Keep(k[j], replaceWildcard)
  {
    if r == [] then []
    else (if Keep(r[0], replaceWildcard) then [r[0]] else []) + Kept(r[1..], replaceWildcard)
  }

  /** `std::copy_if(replace, res + replace_offset, neg_comparer)`: each kept
      byte goes to the next output position `o`. */
  function Compacted(s: seq<byte>, o: nat, r: seq<byte>, replaceWildcard: byte): (t: seq<byte>)
    requires o + |Kept(r, replaceWildcard)| <= |s|
    ensures |t| == |s|
    decreases |r|
  {
    if r == [] then s
    else if Keep(r[0], replaceWildcard) then Compacted(s[o := r[0]], o + 1, r[1..], replaceWildcard)
    else Compacted(s, o, r[1..], replaceWildcard)
  }

  /** One match's patch step: no gate; a non-empty replacement is compacted
      into the buffer at `res + replaceOffset`; a write past the buffer is
      refused (a hardening). */
  function Patch(s: seq<byte>, res: nat, p: LegacyPattern): (r: Effect)
    ensures |r.buf| == |s|
  {
    if p.replace == [] then Effect(s, Completed)
    else if |s| < res + p.replaceOffset + |Kept(p.replace, p.replaceWildcard)| then Effect(s, OutOfBounds)
    else Effect(Compacted(s, res + p.replaceOffset, p.replace, p.replaceWildcard), Completed)
  }

  /** One match's processing: the patch, then the children. */
  function Process(s: seq<byte>, res: nat, end: nat, p: LegacyPattern): (r: Effect)
    requires res <= end <= |s|
    requires WellFormed(p)
    ensures |r.buf| == |s|
    decreases p, 0, |p.children| + 1
  {
    var w := Patch(s, res, p);
    if w.status == OutOfBounds then w
    else Children(w.buf, res, end, p, 0)
  }

  /** `search_and_patch_r` from the cursor on, after the matches `found`. */
  function Scan(s: seq<byte>, cursor: nat, end: nat, p: LegacyPattern, found: seq<nat>): (r: Run)
    requires cursor <= end <= |s|
    requires WellFormed(p)
    ensures |r.buf| == |s|
    decreases p, 1, end - cursor
  {
    var res := Find(s, cursor, end, p.needle, p.wildcard);
    if res == end then Run(s, found, Completed)
    else
      var w := Process(s, res, end, p);
      if w.status == OutOfBounds then Run(w.buf, found + [res], OutOfBounds)
      else Scan(w.buf, res + |p.needle|, end, p, found + [res])
  }

  /** The children from the `i`-th on, each over `[res, ChildEnd)`. */
  function Children(s: seq<byte>, res: nat, end: nat, p: LegacyPattern, i: nat): (r: Effect)
    requires res <= end <= |s|
    requires i <= |p.children|
    requires WellFormed(p)
    ensures |r.buf| == |s|
    decreases p, 0, |p.children| - i
  {
    if i == |p.children| then Effect(s, Completed)
    else
      var c := p.children[i];
      assert c in p.children;
      var r := Scan(s, res, ChildEnd(res, end, c.maxSearch, |s|), c, []);
      if r.status == OutOfBounds then Effect(r.buf, OutOfBounds)
      else Children(r.buf, res, end, p, i + 1)
  }

  /** The driver loop of `main`. */
  function Drive(s: seq<byte>, ps: seq<LegacyPattern>): (r: Effect)
    requires forall q :: q in ps ==> WellFormed(q)
    ensures |r.buf| == |s|
    decreases |ps|
  {
    if ps == [] then Effect(s, Completed)
    else
      var r := Scan(s, 0, TopEnd(ps[0].maxSearch, |s|), ps[0], []);
      if r.status == OutOfBounds then Effect(r.buf, OutOfBounds)
      else Drive(r.buf, ps[1..])
  }

  // ---------------------------------------------------------------------
  // What the compaction write does

  /** Kept bytes of a concatenation are the kept bytes of each part. */
  lemma {:induction false} KeptAppend(a: seq<byte>, b: seq<byte>, rw: byte)
    ensures Kept(a + b, rw) == Kept(a, rw) + Kept(b, rw)
    decreases |a|
  {
    if a == [] {
      assert a + b == b;
    } else {
      assert (a + b)[0] == a[0];
      assert (a + b)[1..] == a[1..] + b;
      KeptAppend(a[1..], b, rw);
    }
  }

  /** With no replace wildcard, or none of its bytes in the replacement,
      every byte is kept. */
  lemma {:induction false} KeptAll(r: seq<byte>, rw: byte)
    requires rw == 0 || forall j :: 0 <= j < |r| ==> r[j] != rw
    ensures Kept(r, rw) == r
    decreases |r|
  {
    if r != [] {
      KeptAll(r[1..], rw);
    }
  }

  /** The compaction write is an overwrite of the kept bytes, contiguous, at
      the output position; nothing else changes. */
  lemma {:induction false} CompactedIsOverwrite(s: seq<byte>, o: nat, r: seq<byte>, rw: byte)
    requires o + |Kept(r, rw)| <= |s|
    ensures Compacted(s, o, r, rw) == s[..o] + Kept(r, rw) + s[o + |Kept(r, rw)|..]
    decreases |r|
  {
    if r != [] {
      var k := Kept(r, rw);
      if Keep(r[0], rw) {
        var k' := Kept(r[1..], rw);
        assert k == [r[0]] + k';
        CompactedIsOverwrite(s[o := r[0]], o + 1, r[1..], rw);
        OverwriteStep(s, o, r[0], k');
      } else {
        CompactedIsOverwrite(s, o, r[1..], rw);
      }
    }
  }

  /** Writing `x` at `o` and then `k` just after it is writing `[x] + k`. */
  lemma OverwriteStep(s: seq<byte>, o: nat, x: byte, k: seq<byte>)
    requires o + 1 + |k| <= |s|
    ensures s[o := x][..o + 1] + k + s[o := x][o + 1 + |k|..] == s[..o] + ([x] + k) + s[o + 1 + |k|..]
  {
    assert s[o := x][..o + 1] == s[..o] + [x];
    assert s[o := x][o + 1 + |k|..] == s[o + 1 + |k|..];
  }

  /** One match's patch step in full. */
  lemma PatchRule(s: seq<byte>, res: nat, p: LegacyPattern)
    ensures var w := Patch(s, res, p);
      var at := res + p.replaceOffset;
      var k := Kept(p.replace, p.replaceWildcard);
      (p.replace == [] ==> w == Effect(s, Completed)) &&
      (p.replace != [] && |s| < at + |k| ==> w == Effect(s, OutOfBounds)) &&
      (p.replace != [] && at + |k| <= |s| ==> w == Effect(s[..at] + k + s[at + |k|..], Completed))
  {
    var at := res + p.replaceOffset;
    if p.replace != [] && at + |Kept(p.replace, p.replaceWildcard)| <= |s| {
      CompactedIsOverwrite(s, at, p.replace, p.replaceWildcard);
    }
  }

  // ---------------------------------------------------------------------
  // The matches of one run

  /** The run keeps the matches found before it; it adds none exactly when
      the window holds no match, and its first one is the first match. */
  lemma {:induction false} ScanKeepsFound(s: seq<byte>, cursor: nat, end: nat, p: LegacyPattern, found: seq<nat>)
    requires cursor <= end <= |s|
    requires WellFormed(p)
    ensures var r := Scan(s, cursor, end, p, found);
      var f := Find(s, cursor, end, p.needle, p.wildcard);
      |found| <= |r.hits| && r.hits[..|found|] == found &&
      (|r.hits| == |found| <==> f == end) &&
      (|r.hits| > |found| ==> r.hits[|found|] == f)
    decreases end - cursor
  {
    var res := Find(s, cursor, end, p.needle, p.wildcard);
    if res < end {
      var w := Process(s, res, end, p);
      var found' := found + [res];
      if w.status == Completed {
        var next := res + |p.needle|;
        ScanKeepsFound(w.buf, next, end, p, found');
        var r := Scan(w.buf, next, end, p, found');
        assert r.hits[..|found'|][..|found|] == r.hits[..|found|];
      }
    }
  }

  /** The matches the run appends are spaced: leftmost, non-overlapping
      and inside the window. The write at each match does not move the
      cursor, so this holds whatever the replacement. */
  lemma {:induction false} ScanHitsFrom(s: seq<byte>, cursor: nat, end: nat, p: LegacyPattern, found: seq<nat>)
    requires cursor <= end <= |s|
    requires WellFormed(p)
    ensures var r := Scan(s, cursor, end, p, found);
      |found| <= |r.hits| && Spaced(r.hits[|found|..], |p.needle|, cursor, end)
    decreases end - cursor
  {
    var res := Find(s, cursor, end, p.needle, p.wildcard);
    var r := Scan(s, cursor, end, p, found);
    ScanKeepsFound(s, cursor, end, p, found);
    if res < end {
      var w := Process(s, res, end, p);
      var found' := found + [res];
      if w.status == OutOfBounds {
        assert r.hits[|found|..] == [res];
      } else {
        var next := res + |p.needle|;
        ScanHitsFrom(w.buf, next, end, p, found');
        ScanKeepsFound(w.buf, next, end, p, found');
        assert r == Scan(w.buf, next, end, p, found');
        var tail := r.hits[|found'|..];
        assert r.hits[|found|] == r.hits[..|found'|][|found|] == res;
        assert r.hits[|found|..] == [res] + tail by {
          assert r.hits[|found|..] == [r.hits[|found|]] + r.hits[|found| + 1..];
        }
        SpacedCons(res, tail, |p.needle|, cursor, end);
      }
    }
  }

  /** The matches a call of the earlier `search_and_patch_r` reports:
      leftmost, non-overlapping, inside its window, the first of them the
      first match in the window; none at all ("was not found") exactly when
      the window holds no match. */
  lemma ScanHits(s: seq<byte>, cursor: nat, end: nat, p: LegacyPattern)
    requires cursor <= end <= |s|
    requires WellFormed(p)
    ensures var r := Scan(s, cursor, end, p, []);
      var f := Find(s, cursor, end, p.needle, p.wildcard);
      Spaced(r.hits, |p.needle|, cursor, end) &&
      (r.hits == [] <==> f == end) &&
      (r.hits != [] ==> r.hits[0] == f)
  {
    ScanKeepsFound(s, cursor, end, p, []);
    ScanHitsFrom(s, cursor, end, p, []);
    var r := Scan(s, cursor, end, p, []);
    assert r.hits[0..] == r.hits;
  }

  // ---------------------------------------------------------------------
  // The engine on a buffer patched in place

  /** The `std::copy_if` loop: `o` is the output iterator. */
  method CompactWrite(a: array<byte>, at: nat, r: seq<byte>, replaceWildcard: byte)
    requires at + |Kept(r, replaceWildcard)| <= a.Length
    modifies a
    ensures a[..] == Compacted(old(a[..]), at, r, replaceWildcard)
  {
    var i := 0;
    var o: nat := at;
    while i < |r|
      invariant 0 <= i <= |r|
      invariant o + |Kept(r[i..], replaceWildcard)| <= a.Length
      invariant Compacted(old(a[..]), at, r, replaceWildcard) == Compacted(a[..], o, r[i..], replaceWildcard)
    {
      assert r[i..][1..] == r[i + 1..];
      if Keep(r[i], replaceWildcard) {
        assert |Kept(r[i..], replaceWildcard)| == 1 + |Kept(r[i + 1..], replaceWildcard)|;
        a[o] := r[i];
        o := o + 1;
      }
      i := i + 1;
    }
  }

  /** `search_and_patch_r(indent, cstart, cend, pattern)`. */
  method SearchAndPatch(a: array<byte>, cstart: nat, cend: nat, p: LegacyPattern)
    returns (hits: seq<nat>, status: Status)
    requires cstart <= cend <= a.Length
    requires WellFormed(p)
    modifies a
    ensures Scan(old(a[..]), cstart, cend, p, []) == Run(a[..], hits, status)
    decreases p, 1, 0
  {
    var cursor := cstart;
    hits := [];
    while true
      invariant cstart <= cursor <= cend
      invariant Scan(old(a[..]), cstart, cend, p, []) == Scan(a[..], cursor, cend, p, hits)
      decreases cend - cursor
    {
      var res;
      res, status := NextMatch(a, cursor, cend, p, hits);
      if res == cend {
        return;
      }
      hits := hits + [res];
      if status == OutOfBounds {
        return;
      }
      cursor := res + |p.needle|;
    }
  }

  /** The end of a run: no match from the cursor on. */
  lemma ScanDone(s: seq<byte>, cursor: nat, end: nat, p: LegacyPattern, found: seq<nat>)
    requires cursor <= end <= |s|
    requires WellFormed(p)
    requires Find(s, cursor, end, p.needle, p.wildcard) == end
    ensures Scan(s, cursor, end, p, found) == Run(s, found, Completed)
  {
  }

  /** One turn of the search loop as a step of `Scan`: a match at `res`
      whose processing gave `t` and `status`. */
  lemma ScanStep(s: seq<byte>, cursor: nat, end: nat, p: LegacyPattern, found: seq<nat>,
    res: nat, t: seq<byte>, status: Status)
    requires cursor <= end <= |s|
    requires WellFormed(p)
    requires res == Find(s, cursor, end, p.needle, p.wildcard) && res < end
    requires Process(s, res, end, p) == Effect(t, status)
    ensures res + |p.needle| <= end && |t| == |s|
    ensures Scan(s, cursor, end, p, found) ==
      if status == OutOfBounds then Run(t, found + [res], OutOfBounds)
      else Scan(t, res + |p.needle|, end, p, found + [res])
  {
  }

  /** One turn of the search loop. */
  method NextMatch(a: array<byte>, cursor: nat, cend: nat, p: LegacyPattern, ghost found: seq<nat>)
    returns (res: nat, status: Status)
    requires cursor <= cend <= a.Length
    requires WellFormed(p)
    modifies a
    ensures res == Find(old(a[..]), cursor, cend, p.needle, p.wildcard)
    ensures res == cend ==> a[..] == old(a[..]) && status == Completed
    ensures res < cend ==> res + |p.needle| <= cend && Process(old(a[..]), res, cend, p) == Effect(a[..], status)
    ensures res == cend ==> Scan(old(a[..]), cursor, cend, p, found) == Run(a[..], found, Completed)
    ensures res < cend ==>
      Scan(old(a[..]), cursor, cend, p, found) ==
        if status == OutOfBounds then Run(a[..], found + [res], OutOfBounds)
        else Scan(a[..], res + |p.needle|, cend, p, found + [res])
    decreases p, 0, 2
  {
    ghost var before := a[..];
    res := Find(a[..], cursor, cend, p.needle, p.wildcard);
    status := Completed;
    if res < cend {
      status := ProcessMatch(a, res, cend, p);
      ScanStep(before, cursor, cend, p, found, res, a[..], status);
    } else {
      ScanDone(before, cursor, cend, p, found);
    }
  }

  /** The processing of the match at `res`. */
  method ProcessMatch(a: array<byte>, res: nat, cend: nat, p: LegacyPattern) returns (status: Status)
    requires res <= cend <= a.Length
    requires WellFormed(p)
    modifies a
    ensures Process(old(a[..]), res, cend, p) == Effect(a[..], status)
    decreases p, 0, 1
  {
    status := ApplyPatch(a, res, p);
    if status == Completed {
      status := ScanChildren(a, res, cend, p);
    }
  }

  /** The compaction write of the replacement for the match at `res`. */
  method ApplyPatch(a: array<byte>, res: nat, p: LegacyPattern) returns (status: Status)
    modifies a
    ensures Patch(old(a[..]), res, p) == Effect(a[..], status)
  {
    status := Completed;
    if p.replace != [] {
      if a.Length < res + p.replaceOffset + |Kept(p.replace, p.replaceWildcard)| {
        return OutOfBounds;
      }
      CompactWrite(a, res + p.replaceOffset, p.replace, p.replaceWildcard);
    }
  }

  /** Every child, in order, over its window anchored at `res`. */
  method ScanChildren(a: array<byte>, res: nat, cend: nat, p: LegacyPattern) returns (status: Status)
    requires res <= cend <= a.Length
    requires WellFormed(p)
    modifies a
    ensures Children(old(a[..]), res, cend, p, 0) == Effect(a[..], status)
    decreases p, 0, 0
  {
    var i := 0;
    while i < |p.children|
      invariant 0 <= i <= |p.children|
      invariant Children(old(a[..]), res, cend, p, 0) == Children(a[..], res, cend, p, i)
      decreases |p.children| - i
    {
      var c := p.children[i];
      assert c in p.children;
      var childHits, childStatus := SearchAndPatch(a, res, ChildEnd(res, cend, c.maxSearch, a.Length), c);
      if childStatus == OutOfBounds {
        return OutOfBounds;
      }
      i := i + 1;
    }
    status := Completed;
  }

  /** The pattern loop of `main` over the children of the root node. */
  method PatchBuffer(a: array<byte>, head: LegacyPattern) returns (status: Status)
    requires forall q :: q in head.children ==> WellFormed(q)
    modifies a
    ensures Drive(old(a[..]), head.children) == Effect(a[..], status)
  {
    var ps := head.children;
    var i := 0;
    while i < |ps|
      invariant 0 <= i <= |ps|
      invariant Drive(old(a[..]), ps) == Drive(a[..], ps[i..])
    {
      var p := ps[i];
      assert p in ps;
      assert ps[i..][1..] == ps[i + 1..];
      var hits, st := SearchAndPatch(a, 0, TopEnd(p.maxSearch, a.Length), p);
      if st == OutOfBounds {
        return OutOfBounds;
      }
      i := i + 1;
    }
    status := Completed;
  }

  /** The earlier `HexToBytes`: one byte per `substr(i, 2)` of the text as it
      is, each read by `strtol`, which skips white space at the start of a
      pair and stops at the first character that is not a digit. */
  method HexToBytes(hex: string) returns (bytes: seq<byte>)
    ensures bytes == DecodeHex(hex)
  {
    bytes := [];
    var i := 0;
    while i < |hex|
      invariant i == 2 * |bytes| && i <= |hex| + 1
      invariant forall k :: 0 <= k < |bytes| ==> bytes[k] == PairByte(PairAt(hex, k))
    {
      var byteString := hex[i..Min(i + 2, |hex|)];
      assert byteString == PairAt(hex, |bytes|);
      bytes := bytes + [PairByte(byteString)];
      i := i + 2;
    }
  }
}
