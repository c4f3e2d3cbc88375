/** What the current engine promises: the validation gate, the masked write
    and what it leaves alone, the order and spacing of the matches, the
    exhaustive search of a search-only pattern, the region a run may touch,
    and the driver's sequential composition. */
module PatcherProps {

  import opened Engine
  import opened Patcher

  // ---------------------------------------------------------------------
  // The validation gate

  /** The gate passes exactly when there is no validation sequence, or when
      it matches, with the search wildcard, at one of the offsets 0 to 5
      from the match. */
  lemma ValidatedIff(s: seq<byte>, res: nat, validate: seq<byte>, wildcard: byte)
    requires res <= |s|
    ensures Validated(s, res, validate, wildcard) <==>
      validate == [] ||
      exists i :: res <= i <= res + ValidationSlack && MatchesAt(s, i, validate, wildcard)
  {
    if validate != [] {
      var e := Min(res + |validate| + ValidationSlack, |s|);
      var r := Find(s, res, e, validate, wildcard);
      FindLeftmost(s, res, e, validate, wildcard);
      if r < e {
        assert exists i :: res <= i <= res + ValidationSlack && MatchesAt(s, i, validate, wildcard);
      } else {
        assert forall i :: res <= i <= res + ValidationSlack ==> !MatchesAt(s, i, validate, wildcard);
      }
    }
  }

  // ---------------------------------------------------------------------
  // The masked write

  /** After the write, every position inside the region holds the replacement
      byte, or the old byte where the replacement byte is the replace
      wildcard; every position outside the region is unchanged. */
  lemma {:induction false} MaskedAt(s: seq<byte>, at: nat, r: seq<byte>, rw: byte)
    requires at + |r| <= |s|
    ensures forall j :: 0 <= j < |s| ==>
      Masked(s, at, r, rw)[j] == if at <= j < at + |r| then MaskByte(r[j - at], s[j], rw) else s[j]
    decreases |r|
  {
    if r != [] {
      var s' := s[at := MaskByte(r[0], s[at], rw)];
      MaskedAt(s', at + 1, r[1..], rw);
    }
  }

  /** With no replace wildcard in effect, the write is a plain overwrite of
      `|r|` bytes at `at`. */
  lemma MaskedWithoutWildcard(s: seq<byte>, at: nat, r: seq<byte>, rw: byte)
    requires at + |r| <= |s|
    requires rw == 0 || forall k :: 0 <= k < |r| ==> r[k] != rw
    ensures Masked(s, at, r, rw) == s[..at] + r + s[at + |r|..]
  {
    MaskedAt(s, at, r, rw);
    var t := s[..at] + r + s[at + |r|..];
    forall j | 0 <= j < |s| ensures Masked(s, at, r, rw)[j] == t[j] {
      if at <= j < at + |r| {
        assert t[j] == r[j - at];
      }
    }
  }

  /** Writing the same replacement twice at the same place is the same as
      writing it once. */
  lemma MaskedIdempotent(s: seq<byte>, at: nat, r: seq<byte>, rw: byte)
    requires at + |r| <= |s|
    ensures Masked(Masked(s, at, r, rw), at, r, rw) == Masked(s, at, r, rw)
  {
    var t := Masked(s, at, r, rw);
    MaskedAt(s, at, r, rw);
    MaskedAt(t, at, r, rw);
  }

  /** One match's patch step in full: when the write is skipped (no
      replacement, or the gate fails without `force`), is refused (past the
      end of the buffer), or is made, and what the buffer then holds. */
  lemma PatchRule(s: seq<byte>, res: nat, p: Pattern, force: bool)
    requires res <= |s|
    ensures var w := Patch(s, res, p, force);
      var gate := p.validate == [] || force ||
        exists i :: res <= i <= res + ValidationSlack && MatchesAt(s, i, p.validate, p.wildcard);
      var at := res + p.replaceOffset;
      (p.replace == [] || !gate ==> w == Effect(s, Completed)) &&
      (p.replace != [] && gate && |s| < at + |p.replace| ==> w == Effect(s, OutOfBounds)) &&
      (p.replace != [] && gate && at + |p.replace| <= |s| ==>
        w.status == Completed &&
        forall j :: 0 <= j < |s| ==>
          w.buf[j] == if at <= j < at + |p.replace| then MaskByte(p.replace[j - at], s[j], p.replaceWildcard) else s[j])
  {
    ValidatedIff(s, res, p.validate, p.wildcard);
    var at := res + p.replaceOffset;
    if at + |p.replace| <= |s| {
      MaskedAt(s, at, p.replace, p.replaceWildcard);
    }
  }

  // ---------------------------------------------------------------------
  // The matches of one run

  /** The run keeps the matches found before it and starts its own with
      the first match from the cursor, if there is one. */
  lemma {:induction false} ScanKeepsFound(s: seq<byte>, cursor: nat, end: nat, p: Pattern, force: bool, found: seq<nat>)
    requires cursor <= end <= |s|
    requires WellFormed(p)
    ensures var r := Scan(s, cursor, end, p, force, found);
      var f := Find(s, cursor, end, p.needle, p.wildcard);
      |found| <= |r.hits| && r.hits[..|found|] == found &&
      (|r.hits| == |found| <==> f == end) &&
      (|r.hits| > |found| ==> r.hits[|found|] == f)
    decreases end - cursor
  {
    var res := Find(s, cursor, end, p.needle, p.wildcard);
    if res < end {
      var w := Process(s, res, end, p, force);
      var found' := found + [res];
      if w.status == Completed {
        var next := res + |p.needle|;
        ScanKeepsFound(w.buf, next, end, p, force, found');
        var r := Scan(w.buf, next, end, p, force, found');
        assert r.hits[..|found'|][..|found|] == r.hits[..|found|];
      }
    }
  }

  /** The matches the run appends are spaced: leftmost, non-overlapping
      and inside the window. */
  lemma {:induction false} ScanHitsFrom(s: seq<byte>, cursor: nat, end: nat, p: Pattern, force: bool, found: seq<nat>)
    requires cursor <= end <= |s|
    requires WellFormed(p)
    ensures var r := Scan(s, cursor, end, p, force, found);
      |found| <= |r.hits| && Spaced(r.hits[|found|..], |p.needle|, cursor, end)
    decreases end - cursor
  {
    var res := Find(s, cursor, end, p.needle, p.wildcard);
    var r := Scan(s, cursor, end, p, force, found);
    ScanKeepsFound(s, cursor, end, p, force, found);
    if res < end {
      var w := Process(s, res, end, p, force);
      var found' := found + [res];
      if w.status == OutOfBounds {
        assert r.hits[|found|..] == [res];
      } else {
        var next := res + |p.needle|;
        ScanHitsFrom(w.buf, next, end, p, force, found');
        ScanKeepsFound(w.buf, next, end, p, force, found');
        assert r == Scan(w.buf, next, end, p, force, found');
        var tail := r.hits[|found'|..];
        assert r.hits[|found|] == r.hits[..|found'|][|found|] == res;
        assert r.hits[|found|..] == [res] + tail by {
          assert r.hits[|found|..] == [r.hits[|found|]] + r.hits[|found| + 1..];
        }
        SpacedCons(res, tail, |p.needle|, cursor, end);
      }
    }
  }

  /** The matches a call of `search_and_patch_r` reports: leftmost,
      non-overlapping, inside its window, the first of them the first match
      in the window; none at all ("was not found") exactly when the window
      holds no match. */
  lemma ScanHits(s: seq<byte>, cursor: nat, end: nat, p: Pattern, force: bool)
    requires cursor <= end <= |s|
    requires WellFormed(p)
    ensures var r := Scan(s, cursor, end, p, force, []);
      var f := Find(s, cursor, end, p.needle, p.wildcard);
      Spaced(r.hits, |p.needle|, cursor, end) &&
      (r.hits == [] <==> f == end) &&
      (r.hits != [] ==> r.hits[0] == f)
  {
    ScanKeepsFound(s, cursor, end, p, force, []);
    ScanHitsFrom(s, cursor, end, p, force, []);
    var r := Scan(s, cursor, end, p, force, []);
    assert r.hits[0..] == r.hits;
  }

  /** The window holds no match (the "was not found" case) exactly when the
      search comes back with `end`. */
  lemma NotFoundIff(s: seq<byte>, cursor: nat, end: nat, needle: seq<byte>, wildcard: byte)
    requires cursor <= end <= |s|
    requires |needle| > 0
    ensures Find(s, cursor, end, needle, wildcard) == end <==>
      !exists i :: cursor <= i && i + |needle| <= end && MatchesAt(s, i, needle, wildcard)
  {
    FindLeftmost(s, cursor, end, needle, wildcard);
    var f := Find(s, cursor, end, needle, wildcard);
    if f < end {
      assert cursor <= f && f + |needle| <= end && MatchesAt(s, f, needle, wildcard);
      assert exists i :: cursor <= i && i + |needle| <= end && MatchesAt(s, i, needle, wildcard);
    } else {
      forall i | cursor <= i && i + |needle| <= end ensures !MatchesAt(s, i, needle, wildcard) {
        assert i < f;
      }
    }
  }

  // ---------------------------------------------------------------------
  // Search-only patterns

  /** No node of the tree has a replacement: the configuration only reports. */
  ghost predicate SearchOnly(p: Pattern)
  {
    p.replace == [] && forall c :: c in p.children ==> SearchOnly(c)
  }

  /** A search-only tree leaves the buffer as it was and always completes. */
  lemma {:induction false} ScanSearchOnly(s: seq<byte>, cursor: nat, end: nat, p: Pattern, force: bool, found: seq<nat>)
    requires cursor <= end <= |s|
    requires WellFormed(p) && SearchOnly(p)
    ensures Scan(s, cursor, end, p, force, found).buf == s
    ensures Scan(s, cursor, end, p, force, found).status == Completed
    decreases p, 1, end - cursor
  {
    var res := Find(s, cursor, end, p.needle, p.wildcard);
    if res < end {
      ChildrenSearchOnly(s, res, end, p, 0, force);
      ScanSearchOnly(s, res + |p.needle|, end, p, force, found + [res]);
    }
  }

  lemma {:induction false} ChildrenSearchOnly(s: seq<byte>, res: nat, end: nat, p: Pattern, i: nat, force: bool)
    requires res <= end <= |s| && i <= |p.children|
    requires WellFormed(p) && SearchOnly(p)
    ensures Children(s, res, end, p, i, force) == Effect(s, Completed)
    decreases p, 0, |p.children| - i
  {
    if i < |p.children| {
      var c := p.children[i];
      assert c in p.children;
      ScanSearchOnly(s, res, ChildEnd(res, end, c.maxSearch, |s|), c, force, []);
      ChildrenSearchOnly(s, res, end, p, i + 1, force);
    }
  }

  /** A search-only run reports every match it steps over: each reported
      position is a match, and every match inside the window overlaps one
      reported position (matches are reported left to right without
      overlap). */
  lemma ScanCoversFrom(s: seq<byte>, cursor: nat, end: nat, p: Pattern, force: bool, found: seq<nat>)
    requires cursor <= end <= |s|
    requires WellFormed(p) && SearchOnly(p)
    ensures var r := Scan(s, cursor, end, p, force, found);
      |found| <= |r.hits| &&
      (forall k :: |found| <= k < |r.hits| ==> MatchesAt(s, r.hits[k], p.needle, p.wildcard)) &&
      (forall i :: cursor <= i && i + |p.needle| <= end && MatchesAt(s, i, p.needle, p.wildcard) ==>
        exists k :: |found| <= k < |r.hits| && r.hits[k] <= i < r.hits[k] + |p.needle|)
  {
    ScanReportsMatches(s, cursor, end, p, force, found);
    ScanMissesNone(s, cursor, end, p, force, found);
  }

  /** Every position a search-only run adds is a match. */
  lemma {:induction false} ScanReportsMatches(s: seq<byte>, cursor: nat, end: nat, p: Pattern, force: bool, found: seq<nat>)
    requires cursor <= end <= |s|
    requires WellFormed(p) && SearchOnly(p)
    ensures var r := Scan(s, cursor, end, p, force, found);
      |found| <= |r.hits| &&
      forall k :: |found| <= k < |r.hits| ==> MatchesAt(s, r.hits[k], p.needle, p.wildcard)
    decreases end - cursor
  {
    var res := Find(s, cursor, end, p.needle, p.wildcard);
    FindLeftmost(s, cursor, end, p.needle, p.wildcard);
    ScanKeepsFound(s, cursor, end, p, force, found);
    if res < end {
      ChildrenSearchOnly(s, res, end, p, 0, force);
      var next := res + |p.needle|;
      var found' := found + [res];
      ScanReportsMatches(s, next, end, p, force, found');
      var r := Scan(s, cursor, end, p, force, found);
      assert r == Scan(s, next, end, p, force, found');
      assert r.hits[|found|] == res;
    }
  }

  /** Every match in the window of a search-only run overlaps a position
      the run adds. */
  lemma {:induction false} ScanMissesNone(s: seq<byte>, cursor: nat, end: nat, p: Pattern, force: bool, found: seq<nat>)
    requires cursor <= end <= |s|
    requires WellFormed(p) && SearchOnly(p)
    ensures var r := Scan(s, cursor, end, p, force, found);
      |found| <= |r.hits| &&
      forall i :: cursor <= i && i + |p.needle| <= end && MatchesAt(s, i, p.needle, p.wildcard) ==>
        exists k :: |found| <= k < |r.hits| && r.hits[k] <= i < r.hits[k] + |p.needle|
    decreases end - cursor
  {
    var res := Find(s, cursor, end, p.needle, p.wildcard);
    FindLeftmost(s, cursor, end, p.needle, p.wildcard);
    ScanKeepsFound(s, cursor, end, p, force, found);
    if res < end {
      ChildrenSearchOnly(s, res, end, p, 0, force);
      var next := res + |p.needle|;
      var found' := found + [res];
      ScanMissesNone(s, next, end, p, force, found');
      var r := Scan(s, cursor, end, p, force, found);
      assert r == Scan(s, next, end, p, force, found');
      assert r.hits[|found|] == res;
      forall i | cursor <= i && i + |p.needle| <= end && MatchesAt(s, i, p.needle, p.wildcard)
        ensures exists k :: |found| <= k < |r.hits| && r.hits[k] <= i < r.hits[k] + |p.needle|
      {
        if i < next {
          assert r.hits[|found|] <= i < r.hits[|found|] + |p.needle|;
        }
      }
    }
  }

  /** `ScanCoversFrom` for a call of `search_and_patch_r`. */
  lemma ScanCovers(s: seq<byte>, cursor: nat, end: nat, p: Pattern, force: bool)
    requires cursor <= end <= |s|
    requires WellFormed(p) && SearchOnly(p)
    ensures var r := Scan(s, cursor, end, p, force, []);
      r.buf == s &&
      (forall k :: 0 <= k < |r.hits| ==> MatchesAt(s, r.hits[k], p.needle, p.wildcard)) &&
      (forall i :: cursor <= i && i + |p.needle| <= end && MatchesAt(s, i, p.needle, p.wildcard) ==>
        exists k :: 0 <= k < |r.hits| && r.hits[k] <= i < r.hits[k] + |p.needle|)
  {
    ScanSearchOnly(s, cursor, end, p, force, []);
    ScanCoversFrom(s, cursor, end, p, force, []);
  }

  // ---------------------------------------------------------------------
  // The region a run may write

  /** `t` agrees with `s` outside `[lo, hi)`. */
  ghost predicate SameOutside(s: seq<byte>, t: seq<byte>, lo: nat, hi: nat)
  {
    |s| == |t| && forall j :: 0 <= j < |s| && (j < lo || hi <= j) ==> t[j] == s[j]
  }

  /** How far past the end of its window a pattern tree may write: its own
      replacement's reach past the match, or a child's window extension plus
      that child's reach. */
  ghost function Reach(p: Pattern): nat
    decreases p, 1, 0
  {
    Max(p.replaceOffset + |p.replace|, ChildrenReach(p, 0))
  }

  ghost function ChildrenReach(p: Pattern, i: nat): nat
    requires i <= |p.children|
    decreases p, 0, |p.children| - i
  {
    if i == |p.children| then 0
    else
      assert p.children[i] in p.children;
      Max(p.children[i].maxSearch + Reach(p.children[i]), ChildrenReach(p, i + 1))
  }

  /** A run over `[cursor, end)` writes nothing before `cursor` and nothing
      from `end + Reach(p)` on. */
  lemma {:induction false} ScanFrame(s: seq<byte>, cursor: nat, end: nat, p: Pattern, force: bool, found: seq<nat>)
    requires cursor <= end <= |s|
    requires WellFormed(p)
    ensures SameOutside(s, Scan(s, cursor, end, p, force, found).buf, cursor, end + Reach(p))
    decreases p, 1, end - cursor
  {
    var res := Find(s, cursor, end, p.needle, p.wildcard);
    if res < end {
      ProcessFrame(s, res, end, p, force);
      var w := Process(s, res, end, p, force);
      if w.status == Completed {
        ScanFrame(w.buf, res + |p.needle|, end, p, force, found + [res]);
      }
    }
  }

  /** Processing a match at `res` writes nothing before `res` and nothing
      from `end + Reach(p)` on. */
  lemma {:induction false} ProcessFrame(s: seq<byte>, res: nat, end: nat, p: Pattern, force: bool)
    requires res <= end <= |s|
    requires WellFormed(p)
    ensures SameOutside(s, Process(s, res, end, p, force).buf, res, end + Reach(p))
    decreases p, 0, |p.children| + 1
  {
    var at := res + p.replaceOffset;
    var w := Patch(s, res, p, force);
    if w.buf != s {
      MaskedAt(s, at, p.replace, p.replaceWildcard);
    }
    assert SameOutside(s, w.buf, res, end + Reach(p));
    if w.status == Completed {
      ChildrenFrame(w.buf, res, end, p, 0, force);
    }
  }

  lemma {:induction false} ChildrenFrame(s: seq<byte>, res: nat, end: nat, p: Pattern, i: nat, force: bool)
    requires res <= end <= |s| && i <= |p.children|
    requires WellFormed(p)
    ensures SameOutside(s, Children(s, res, end, p, i, force).buf, res, end + ChildrenReach(p, i))
    decreases p, 0, |p.children| - i
  {
    if i < |p.children| {
      var c := p.children[i];
      assert c in p.children;
      var ce := ChildEnd(res, end, c.maxSearch, |s|);
      ScanFrame(s, res, ce, c, force, []);
      var r := Scan(s, res, ce, c, force, []);
      if r.status == Completed {
        ChildrenFrame(r.buf, res, end, p, i + 1, force);
      }
    }
  }

  // ---------------------------------------------------------------------
  // The driver

  /** Running a list of top-level patterns is running its first part, then,
      unless that stopped, the rest on the buffer it left. */
  lemma {:induction false} DriveSequential(s: seq<byte>, ps: seq<Pattern>, qs: seq<Pattern>, force: bool)
    requires forall q :: q in ps ==> WellFormed(q)
    requires forall q :: q in qs ==> WellFormed(q)
    ensures forall q :: q in ps + qs ==> WellFormed(q)
    ensures Drive(s, ps + qs, force) ==
      var m := Drive(s, ps, force);
      if m.status == OutOfBounds then m else Drive(m.buf, qs, force)
    decreases |ps|
  {
    if ps == [] {
      assert ps + qs == qs;
    } else {
      assert (ps + qs)[0] == ps[0];
      assert (ps + qs)[1..] == ps[1..] + qs;
      var r := Scan(s, 0, TopEnd(ps[0].maxSearch, |s|), ps[0], force, []);
      if r.status == Completed {
        DriveSequential(r.buf, ps[1..], qs, force);
      }
    }
  }

  /** A search-only configuration leaves the file as it was. */
  lemma {:induction false} DriveSearchOnly(s: seq<byte>, ps: seq<Pattern>, force: bool)
    requires forall q :: q in ps ==> WellFormed(q) && SearchOnly(q)
    ensures Drive(s, ps, force) == Effect(s, Completed)
    decreases |ps|
  {
    if ps != [] {
      ScanSearchOnly(s, 0, TopEnd(ps[0].maxSearch, |s|), ps[0], force, []);
      DriveSearchOnly(s, ps[1..], force);
    }
  }
}
