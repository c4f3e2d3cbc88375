/** The current patch engine (`src/patcher.cpp`): a recursive search over a
    window of a byte buffer that, for every non-overlapping leftmost match of
    a pattern's needle, checks an optional validation sequence, writes the
    replacement through a replace-wildcard mask, and scans each child
    pattern in a window anchored at the match. The buffer is patched in
    place; the functions `Patch`, `Children`, `Scan` and `Drive` say what the
    methods do to it. */
module Patcher {

  import opened Engine
  import opened HexText

  /** A node of the pattern tree (`pattern_t`). `name` only labels log lines;
      the loader's `parent` pointer is not needed. In the configuration,
      `needle`, `replace` and `validate` come from text decoded by
      `FieldBytes`. */
  datatype Pattern = Pattern(
    name: string,
    wildcard: byte,
    replaceWildcard: byte,
    needle: seq<byte>,
    replace: seq<byte>,
    validate: seq<byte>,
    maxSearch: nat,
    replaceOffset: nat,
    children: seq<Pattern>)

  /** Every node the engine searches has a non-empty needle: with an empty
      one the search loop never advances over a non-empty window. */
  ghost predicate WellFormed(p: Pattern)
  {
    |p.needle| > 0 && forall c :: c in p.children ==> WellFormed(c)
  }

  /** The validation sequence must start within this many bytes of the match. */
  const ValidationSlack: nat := 5

  /** The validation gate: `validate` is empty, or it is found, with the
      pattern's search wildcard, in the `|validate| + 5` bytes from the match
      (clipped to the buffer, a hardening). */
  predicate Validated(s: seq<byte>, res: nat, validate: seq<byte>, wildcard: byte): (v: bool)
    requires res <= |s|
    ensures validate == [] ==> v
    ensures v && validate != [] ==> res + |validate| <= |s|
    ensures res + |validate| + ValidationSlack <= |s| && MatchesAt(s, res, validate, wildcard) ==> v
  {
    validate == [] ||
    (var e := Min(res + |validate| + ValidationSlack, |s|);
     Find(s, res, e, validate, wildcard) < e)
  }

  /** The replace comparer: the destination byte is kept where a non-zero
      replace wildcard is set and the replacement byte is that wildcard,
      otherwise the replacement byte is written. */
  function MaskByte(rb: byte, dest: byte, replaceWildcard: byte): (r: byte)
    ensures r == rb || r == dest
    ensures replaceWildcard == 0 || rb != replaceWildcard ==> r == rb
    ensures replaceWildcard != 0 && rb == replaceWildcard ==> r == dest
  {
    if replaceWildcard != 0 && rb == replaceWildcard then dest else rb
  }

  /** `std::transform` of the replacement over the buffer from `at`, one
      position at a time. */
  function Masked(s: seq<byte>, at: nat, r: seq<byte>, replaceWildcard: byte): (t: seq<byte>)
    requires at + |r| <= |s|
    ensures |t| == |s|
    decreases |r|
  {
    if r == [] then s
    else Masked(s[at := MaskByte(r[0], s[at], replaceWildcard)], at + 1, r[1..], replaceWildcard)
  }

  /** One match's patch step at `res`: the gate (passed when validated or
      forced), then the masked write at `res + replaceOffset`. An empty
      replacement writes nothing; a write past the buffer is refused
      (a hardening). */
  function Patch(s: seq<byte>, res: nat, p: Pattern, force: bool): (r: Effect)
    requires res <= |s|
    ensures |r.buf| == |s|
  {
    if p.replace == [] || !(Validated(s, res, p.validate, p.wildcard) || force) then
      Effect(s, Completed)
    else if |s| < res + p.replaceOffset + |p.replace| then
      Effect(s, OutOfBounds)
    else
      Effect(Masked(s, res + p.replaceOffset, p.replace, p.replaceWildcard), Completed)
  }

  /** One match's processing at `res`: the patch, then the children on the
      patched buffer; a write past the buffer stops it. */
  function Process(s: seq<byte>, res: nat, end: nat, p: Pattern, force: bool): (r: Effect)
    requires res <= end <= |s|
    requires WellFormed(p)
    ensures |r.buf| == |s|
    decreases p, 0, |p.children| + 1
  {
    var w := Patch(s, res, p, force);
    if w.status == OutOfBounds then w
    else Children(w.buf, res, end, p, 0, force)
  }

  /** `search_and_patch_r` from the cursor on, after the matches `found`:
      find the next match, process it, continue past the match. */
  function Scan(s: seq<byte>, cursor: nat, end: nat, p: Pattern, force: bool, found: seq<nat>): (r: Run)
    requires cursor <= end <= |s|
    requires WellFormed(p)
    ensures |r.buf| == |s|
    decreases p, 1, end - cursor
  {
    var res := Find(s, cursor, end, p.needle, p.wildcard);
    if res == end then Run(s, found, Completed)
    else
      var w := Process(s, res, end, p, force);
      if w.status == OutOfBounds then Run(w.buf, found + [res], OutOfBounds)
      else Scan(w.buf, res + |p.needle|, end, p, force, found + [res])
  }

  /** The children of `p` from the `i`-th on, in list order, each over
      `[res, ChildEnd)` of the buffer as the previous ones left it. */
  function Children(s: seq<byte>, res: nat, end: nat, p: Pattern, i: nat, force: bool): (r: Effect)
    requires res <= end <= |s|
    requires i <= |p.children|
    requires WellFormed(p)
    ensures |r.buf| == |s|
    decreases p, 0, |p.children| - i
  {
    if i == |p.children| then Effect(s, Completed)
    else
      var c := p.children[i];
      assert c in p.children;
      var r := Scan(s, res, ChildEnd(res, end, c.maxSearch, |s|), c, force, []);
      if r.status == OutOfBounds then Effect(r.buf, OutOfBounds)
      else Children(r.buf, res, end, p, i + 1, force)
  }

  /** The driver loop of `main`: each top-level pattern in order over
      `[0, TopEnd)` of the buffer as the earlier ones left it. */
  function Drive(s: seq<byte>, ps: seq<Pattern>, force: bool): (r: Effect)
    requires forall q :: q in ps ==> WellFormed(q)
    ensures |r.buf| == |s|
    decreases |ps|
  {
    if ps == [] then Effect(s, Completed)
    else
      var r := Scan(s, 0, TopEnd(ps[0].maxSearch, |s|), ps[0], force, []);
      if r.status == OutOfBounds then Effect(r.buf, OutOfBounds)
      else Drive(r.buf, ps[1..], force)
  }

  // ---------------------------------------------------------------------
  // The engine on a buffer patched in place

  /** The `std::transform` write of the replacement at `at`. */
  method MaskedWrite(a: array<byte>, at: nat, r: seq<byte>, replaceWildcard: byte)
    requires at + |r| <= a.Length
    modifies a
    ensures a[..] == Masked(old(a[..]), at, r, replaceWildcard)
  {
    var i := 0;
    while i < |r|
      invariant 0 <= i <= |r|
      invariant Masked(old(a[..]), at, r, replaceWildcard) == Masked(a[..], at + i, r[i..], replaceWildcard)
    {
      assert r[i..][1..] == r[i + 1..];
      a[at + i] := MaskByte(r[i], a[at + i], replaceWildcard);
      i := i + 1;
    }
  }

  /** `search_and_patch_r(indent, cstart, cend, pattern)` with the global
      `force_invalid` as the parameter `force`. Returns the positions of the
      matches at this level, in order, and whether the run was stopped by a
      write past the buffer. */
  method SearchAndPatch(a: array<byte>, cstart: nat, cend: nat, p: Pattern, force: bool)
    returns (hits: seq<nat>, status: Status)
    requires cstart <= cend <= a.Length
    requires WellFormed(p)
    modifies a
    ensures Scan(old(a[..]), cstart, cend, p, force, []) == Run(a[..], hits, status)
    decreases p, 1, 0
  {
    var cursor := cstart;
    hits := [];
    while true
      invariant cstart <= cursor <= cend
      invariant Scan(old(a[..]), cstart, cend, p, force, []) == Scan(a[..], cursor, cend, p, force, hits)
      decreases cend - cursor
    {
      var res;
      res, status := NextMatch(a, cursor, cend, p, force, hits);
      if res == cend {
        return;
      }
      hits := hits + [res];
      if status == OutOfBounds {
        return;
      }
      cursor := res + |p.needle|;
    }
  }

  /** The end of a run: no match from the cursor on. */
  lemma ScanDone(s: seq<byte>, cursor: nat, end: nat, p: Pattern, force: bool, found: seq<nat>)
    requires cursor <= end <= |s|
    requires WellFormed(p)
    requires Find(s, cursor, end, p.needle, p.wildcard) == end
    ensures Scan(s, cursor, end, p, force, found) == Run(s, found, Completed)
  {
  }

  /** One turn of the search loop as a step of `Scan`: a match at `res`
      whose processing gave `t` and `status`. */
  lemma ScanStep(s: seq<byte>, cursor: nat, end: nat, p: Pattern, force: bool, found: seq<nat>,
    res: nat, t: seq<byte>, status: Status)
    requires cursor <= end <= |s|
    requires WellFormed(p)
    requires res == Find(s, cursor, end, p.needle, p.wildcard) && res < end
    requires Process(s, res, end, p, force) == Effect(t, status)
    ensures res + |p.needle| <= end && |t| == |s|
    ensures Scan(s, cursor, end, p, force, found) ==
      if status == OutOfBounds then Run(t, found + [res], OutOfBounds)
      else Scan(t, res + |p.needle|, end, p, force, found + [res])
  {
  }

  /** One turn of the search loop: the next match from `cursor` (`cend` when
      there is none) and, when there is one, its processing. */
  method NextMatch(a: array<byte>, cursor: nat, cend: nat, p: Pattern, force: bool, ghost found: seq<nat>)
    returns (res: nat, status: Status)
    requires cursor <= cend <= a.Length
    requires WellFormed(p)
    modifies a
    ensures res == Find(old(a[..]), cursor, cend, p.needle, p.wildcard)
    ensures res == cend ==> a[..] == old(a[..]) && status == Completed
    ensures res < cend ==> res + |p.needle| <= cend && Process(old(a[..]), res, cend, p, force) == Effect(a[..], status)
    ensures res == cend ==> Scan(old(a[..]), cursor, cend, p, force, found) == Run(a[..], found, Completed)
    ensures res < cend ==>
      Scan(old(a[..]), cursor, cend, p, force, found) ==
        if status == OutOfBounds then Run(a[..], found + [res], OutOfBounds)
        else Scan(a[..], res + |p.needle|, cend, p, force, found + [res])
    decreases p, 0, 2
  {
    ghost var before := a[..];
    res := Find(a[..], cursor, cend, p.needle, p.wildcard);
    status := Completed;
    if res < cend {
      status := ProcessMatch(a, res, cend, p, force);
      ScanStep(before, cursor, cend, p, force, found, res, a[..], status);
    } else {
      ScanDone(before, cursor, cend, p, force, found);
    }
  }

  /** The processing of the match at `res`. */
  method ProcessMatch(a: array<byte>, res: nat, cend: nat, p: Pattern, force: bool) returns (status: Status)
    requires res <= cend <= a.Length
    requires WellFormed(p)
    modifies a
    ensures Process(old(a[..]), res, cend, p, force) == Effect(a[..], status)
    decreases p, 0, 1
  {
    status := ApplyPatch(a, res, p, force);
    if status == Completed {
      status := ScanChildren(a, res, cend, p, force);
    }
  }

  /** Steps 1 and 2 for the match at `res`: the validation gate, then the
      masked write of the replacement. */
  method ApplyPatch(a: array<byte>, res: nat, p: Pattern, force: bool) returns (status: Status)
    requires res <= a.Length
    modifies a
    ensures Patch(old(a[..]), res, p, force) == Effect(a[..], status)
  {
    var patch := true;
    if p.validate != [] {
      var e := Min(res + |p.validate| + ValidationSlack, a.Length);
      if Find(a[..], res, e, p.validate, p.wildcard) >= e {
        patch := force;
      }
    }
    status := Completed;
    if p.replace != [] && patch {
      if a.Length < res + p.replaceOffset + |p.replace| {
        return OutOfBounds;
      }
      MaskedWrite(a, res + p.replaceOffset, p.replace, p.replaceWildcard);
    }
  }

  /** Step 3 for the match at `res`: every child, in order, over its window
      anchored at `res`. */
  method ScanChildren(a: array<byte>, res: nat, cend: nat, p: Pattern, force: bool) returns (status: Status)
    requires res <= cend <= a.Length
    requires WellFormed(p)
    modifies a
    ensures Children(old(a[..]), res, cend, p, 0, force) == Effect(a[..], status)
    decreases p, 0, 0
  {
    var i := 0;
    while i < |p.children|
      invariant 0 <= i <= |p.children|
      invariant Children(old(a[..]), res, cend, p, 0, force) == Children(a[..], res, cend, p, i, force)
      decreases |p.children| - i
    {
      var c := p.children[i];
      assert c in p.children;
      var childHits, childStatus := SearchAndPatch(a, res, ChildEnd(res, cend, c.maxSearch, a.Length), c, force);
      if childStatus == OutOfBounds {
        return OutOfBounds;
      }
      i := i + 1;
    }
    status := Completed;
  }

  /** The pattern loop of `main` over the children of the configuration's
      root node. */
  method PatchBuffer(a: array<byte>, head: Pattern, force: bool) returns (status: Status)
    requires forall q :: q in head.children ==> WellFormed(q)
    modifies a
    ensures Drive(old(a[..]), head.children, force) == Effect(a[..], status)
  {
    var ps := head.children;
    var i := 0;
    while i < |ps|
      invariant 0 <= i <= |ps|
      invariant Drive(old(a[..]), ps, force) == Drive(a[..], ps[i..], force)
    {
      var p := ps[i];
      assert p in ps;
      assert ps[i..][1..] == ps[i + 1..];
      var hits, st := SearchAndPatch(a, 0, TopEnd(p.maxSearch, a.Length), p, force);
      if st == OutOfBounds {
        return OutOfBounds;
      }
      i := i + 1;
    }
    status := Completed;
  }
}
