# Binary-AutoPatcher engine, modelled in Dafny

Binary-AutoPatcher patches a binary file by following a tree of patterns from a
JSON configuration. Each pattern node has these fields:

- a byte needle to search for, with an optional search wildcard byte;
- an optional replacement, written at `replace_offset` from each match through
  a replace-wildcard mask;
- an optional validation sequence, which must be found within five bytes of
  the match before the replacement is written;
- a `max_search` window size;
- child patterns, searched in a window that starts at each match of the parent.

`search_and_patch_r` finds every leftmost, non-overlapping match in its window.
For each match it applies the validation gate and the write, and then runs the
children in order on the patched buffer. Configuration fields are hex text
(white space allowed) or plain text.

The repository holds two versions, and both are modelled:

- **current** (`src/patcher.cpp`): modules `Patcher`, `PatcherProps` and
  `PatcherText`;
- **earlier** (`patcher/patcher.cpp`): module `LegacyPatcher`. It has no
  validation. It writes with `std::copy_if`, which drops replace-wildcard bytes
  and closes the gaps. Its `HexToBytes` does not remove white space.

Shared parts are in `Engine`: the comparison, `std::search` as `Find`, the
window ends, and the spacing of the matches a run reports. `HexText` holds
`strtol` on a two-character pair. `Versions` relates the two engines.

The buffer is an `array<byte>` patched in place. Each method is proved equal to
a function on the buffer's contents (`Patch`, `Process`, `Scan`, `Children`,
`Drive`), and the properties are lemmas about those functions. A call's log
lines "Found <name> at" and "was not found" are modelled as the list `hits`
of match positions, in order. The list is empty exactly in the "was not found"
case.

### Hardening where the C++ code has undefined behaviour

The model is defined on every input. Where the C++ code reads or writes outside
the buffer, the model does the following instead:

- A window end past the buffer is clipped to the buffer length. This covers a
  top-level `max_search` larger than the file, a child's `res + max_search`,
  and the validation window `res + |validate| + 5`. A child's window is **not**
  clipped to its parent's window, as in the C++ code.
- A replacement that would be written past the end of the buffer is not
  written. The run stops with status `OutOfBounds`, and so do its callers and
  the driver loop. The C++ code writes out of bounds.
- Every needle in the tree must be non-empty (`WellFormed`). With an empty
  needle the C++ loop never advances over a non-empty window.

## Model

| member | source | states |
|---|---|---|
| Engine.ByteMatches | src/patcher.cpp:32-35 | `comparer`: equal bytes always match; a wildcard of 0 means exact comparison; a non-zero wildcard in the needle matches any buffer byte; any other needle byte matches only itself |
| Engine.MatchesAt | src/patcher.cpp:50 | `std::search`'s test at one position: a match needs room for the whole needle in the buffer (element-wise meaning: `Engine.MatchesAtPointwise`) |
| Engine.Find | src/patcher.cpp:50-56 | the search result lies in the window; a result before the window end has room for the whole needle inside the window |
| Engine.MatchesAtPointwise | src/patcher.cpp:32-35 | a match at `i` means every needle byte matches the buffer byte at its offset: equal, or the needle byte is the non-zero wildcard |
| Engine.FindLeftmost | src/patcher.cpp:50-56 | a result before the window end is a match, and no earlier position in the window is one: it is the leftmost match, and the window end means none |
| Engine.FindExact | src/patcher.cpp:32-35 | with no wildcard byte in the needle, the search finds the first literal occurrence |
| Engine.ChildEnd | src/patcher.cpp:85 | a child's window ends `maxSearch` past the parent's match when that is non-zero, clipped to the buffer end when it would pass it; with `maxSearch` 0 it ends at the parent's end; it never passes the buffer |
| Engine.SpacedCons | src/patcher.cpp:90 | a match followed by matches from its end on is still spaced |
| Engine.TopEnd | src/patcher.cpp:259 | a top-level window is `[0, maxSearch)` when that is non-zero and fits, otherwise the whole buffer |
| HexText.DigitsValue | src/patcher.cpp:102 | `strtol`'s digit loop after the value `acc` read so far: the result is never below `acc`, is `acc` when no digit follows, and with at most one or two characters left is at most `16·acc + 15` or `256·acc + 255` |
| HexText.Strtol16 | src/patcher.cpp:102 | `strtol(pair, NULL, 16)` on at most two characters lies in `-15..255`, is negative only when the pair holds a `-`, and reads a lone hex digit as its value |
| HexText.PairByte | src/patcher.cpp:102 | the `(uint8_t)` cast: a non-negative reading is the byte itself, a negative one wraps to `256` plus it |
| HexText.PairByteOfHexDigits | src/patcher.cpp:100-102 | `strtol` reads two hex digits as high and low nibble, and a lone digit as its own value |
| HexText.PairByteCases | patcher/patcher.cpp:80-81 | `strtol` on other pairs: a leading blank is skipped, a leading `-` negates modulo 256, reading stops at a non-digit after a digit, and a pair whose first character is neither a digit, white space nor a sign reads as 0 |
| HexText.DecodeHex | src/patcher.cpp:100-104 | pairs taken two characters at a time give `ceil(n/2)` bytes |
| HexText.HexRoundTrip | src/patcher.cpp:94-107 | every byte string, written as two hex digits per byte, decodes back to itself |
| Patcher.Validated | src/patcher.cpp:59-67 | the gate passes when there is no validation sequence; when it passes with one, the sequence fits in the buffer from the match; a sequence matching right at the match passes when its window fits the buffer (in full: `PatcherProps.ValidatedIff`) |
| Patcher.MaskByte | src/patcher.cpp:36-46 | `comparer2`: the result is the replacement byte or the destination byte; the replacement byte when the replace wildcard is 0 or differs from it; the destination byte when it is the non-zero replace wildcard |
| Patcher.Masked | src/patcher.cpp:73 | the masked write keeps the buffer length (its effect: `PatcherProps.MaskedAt`) |
| Patcher.Patch | src/patcher.cpp:59-79 | one match's patch step keeps the buffer length (its effect: `PatcherProps.PatchRule`) |
| Patcher.Process | src/patcher.cpp:59-89 | processing one match keeps the buffer length |
| Patcher.Scan | src/patcher.cpp:48-91 | a run keeps the buffer length (its matches: `PatcherProps.ScanHits`; its footprint: `PatcherProps.ScanFrame`) |
| Patcher.Children | src/patcher.cpp:80-89 | the children of a match keep the buffer length |
| Patcher.Drive | src/patcher.cpp:257-261 | the driver loop keeps the buffer length |
| Patcher.MaskedWrite | src/patcher.cpp:73 | the `std::transform` loop leaves the array holding the masked write of the old contents |
| Patcher.SearchAndPatch | src/patcher.cpp:28-92 | the search loop leaves the array, the match list and the status that `Scan` gives for the old contents |
| Patcher.NextMatch | src/patcher.cpp:50-90 | one loop turn returns the leftmost match from the cursor; without a match nothing changes and the run ends, with one the array is the processed buffer, the match fits the window, and the run goes on past the match unless the write was refused |
| Patcher.ProcessMatch | src/patcher.cpp:59-89 | gate, write and children leave the array as `Process` says |
| Patcher.ApplyPatch | src/patcher.cpp:59-79 | the gate and the masked write leave the array as `Patch` says |
| Patcher.ScanChildren | src/patcher.cpp:80-89 | the child loop leaves the array as `Children` says, stopping at the first write past the buffer |
| Patcher.PatchBuffer | src/patcher.cpp:257-261 | the loop over top-level patterns leaves the array as `Drive` says |
| PatcherProps.ValidatedIff | src/patcher.cpp:59-67 | the gate passes exactly when there is no validation sequence, or it matches at an offset 0 to 5 from the match |
| PatcherProps.MaskedAt | src/patcher.cpp:36-46 | inside the written region each byte is the replacement byte, or the old byte where the replacement byte is the non-zero replace wildcard; outside it nothing changes |
| PatcherProps.MaskedWithoutWildcard | src/patcher.cpp:36-46 | with no replace wildcard in effect the write is a plain overwrite |
| PatcherProps.MaskedIdempotent | src/patcher.cpp:73 | writing the same replacement twice at the same place equals writing it once |
| PatcherProps.PatchRule | src/patcher.cpp:59-79 | the write is skipped with no replacement or a failed gate without force, refused past the buffer, and otherwise made as `MaskedAt` describes |
| PatcherProps.ScanKeepsFound | src/patcher.cpp:47-57 | a run keeps the earlier matches, adds none exactly when the search from the cursor finds none, and its first match is that search's result |
| PatcherProps.ScanHitsFrom | src/patcher.cpp:48-91 | the matches a run adds are inside the window and each starts at least a needle length after the previous one |
| PatcherProps.ScanHits | src/patcher.cpp:48-91 | one call's matches are spaced inside the window, the first is the first match, and there are none ("was not found") exactly when the window holds none |
| PatcherProps.NotFoundIff | src/patcher.cpp:51-55 | the search returns the window end exactly when no position in the window matches |
| PatcherProps.ScanSearchOnly | src/patcher.cpp:68-79 | a tree with no replacement anywhere leaves the buffer unchanged and completes |
| PatcherProps.ChildrenSearchOnly | src/patcher.cpp:80-89 | the children of a search-only tree leave the buffer unchanged |
| PatcherProps.ScanCoversFrom | src/patcher.cpp:48-91 | in a search-only run every added position is a match, and every match in the window overlaps an added position |
| PatcherProps.ScanReportsMatches | src/patcher.cpp:50-58 | every position a search-only run adds is a match of the needle |
| PatcherProps.ScanMissesNone | src/patcher.cpp:48-91 | every match in the window of a search-only run overlaps a position the run adds |
| PatcherProps.ScanCovers | src/patcher.cpp:48-91 | a search-only call leaves the buffer unchanged, reports only matches, and misses no match in its window except ones overlapping a reported one |
| PatcherProps.ScanFrame | src/patcher.cpp:48-91 | a run writes nothing before its cursor and nothing from `end + Reach(p)` on |
| PatcherProps.ProcessFrame | src/patcher.cpp:59-89 | processing a match writes nothing before it and nothing from `end + Reach(p)` on |
| PatcherProps.ChildrenFrame | src/patcher.cpp:80-89 | the children write nothing before the match and nothing past the reach of their windows |
| PatcherProps.DriveSequential | src/patcher.cpp:257-261 | running two lists of top-level patterns in a row equals running their concatenation, stopping at the first refused write |
| PatcherProps.DriveSearchOnly | src/patcher.cpp:257-261 | a configuration with no replacement leaves the file unchanged |
| PatcherText.StripSpace | src/patcher.cpp:98 | removing white space leaves no white space and never lengthens the text |
| PatcherText.StripSpaceAppend | src/patcher.cpp:98 | removing white space distributes over concatenation |
| PatcherText.StripSpaceNoSpace | src/patcher.cpp:98 | text without white space is left as it is |
| PatcherText.StripHexDigits | src/patcher.cpp:98 | hex digits survive the removal unchanged |
| PatcherText.StripAllSpace | src/patcher.cpp:98 | white space alone strips to nothing |
| PatcherText.StripPadded | src/patcher.cpp:98 | white space around a text strips away |
| PatcherText.HexNumberIff | src/patcher.cpp:116-123 | a text is a hex number exactly when it is all hex digits once its white space is removed |
| PatcherText.IsThisStringAHexNumber | src/patcher.cpp:116-123 | the scan answers true exactly when every character is a hex digit or white space |
| PatcherText.HexToBytes | src/patcher.cpp:94-107 | the loop returns the pairwise decoding of the text without its white space |
| PatcherText.HexFieldBytes | src/patcher.cpp:94-107 | a hex field gives `ceil(n/2)` bytes for its `n` digits, byte `k` from digits `2k` and `2k+1`, and a trailing lone digit as its own byte |
| PatcherText.CharByte | src/patcher.cpp:112 | a `char` stored as `uint8_t` keeps its low eight bits: an 8-bit character is its own byte |
| PatcherText.StringToBytes | src/patcher.cpp:109-113 | one byte per character, in order, each 8-bit character as its own byte |
| PatcherText.StringBytesRoundTrip | src/patcher.cpp:109-113 | a text field stands for exactly its own bytes, in both directions |
| PatcherText.FieldBytes | src/patcher.cpp:138-157 | a field is decoded as hex when it is a hex number, and as its own bytes otherwise |
| PatcherText.FieldRoundTrip | src/patcher.cpp:94-107 | hex text with white space before and after is a hex number and decodes back to its bytes |
| LegacyPatcher.Keep | patcher/patcher.cpp:38-44 | `neg_comparer`: every byte is copied when the replace wildcard is 0, and every byte other than it; only the non-zero replace wildcard is dropped |
| LegacyPatcher.Kept | patcher/patcher.cpp:38-44 | the copied bytes are no more than the replacement, and none is the non-zero replace wildcard |
| LegacyPatcher.Compacted | patcher/patcher.cpp:60 | the compaction write keeps the buffer length (its effect: `CompactedIsOverwrite`) |
| LegacyPatcher.Patch | patcher/patcher.cpp:57-61 | one match's patch step keeps the buffer length (its effect: `LegacyPatcher.PatchRule`) |
| LegacyPatcher.Process | patcher/patcher.cpp:57-71 | processing one match keeps the buffer length |
| LegacyPatcher.Scan | patcher/patcher.cpp:46-73 | a run keeps the buffer length |
| LegacyPatcher.Children | patcher/patcher.cpp:62-71 | the children keep the buffer length |
| LegacyPatcher.Drive | patcher/patcher.cpp:154-158 | the driver loop keeps the buffer length |
| LegacyPatcher.KeptAppend | patcher/patcher.cpp:38-44 | the copied bytes of a concatenation are those of each part |
| LegacyPatcher.KeptAll | patcher/patcher.cpp:38-44 | with no replace wildcard in the replacement every byte is copied |
| LegacyPatcher.CompactedIsOverwrite | patcher/patcher.cpp:60 | `copy_if` writes the copied bytes contiguously at the output position, and nothing else changes |
| LegacyPatcher.OverwriteStep | patcher/patcher.cpp:60 | one copied byte followed by the rest is one contiguous overwrite |
| LegacyPatcher.PatchRule | patcher/patcher.cpp:57-61 | no gate: a non-empty replacement is refused past the buffer and otherwise overwrites with its copied bytes |
| LegacyPatcher.ScanKeepsFound | patcher/patcher.cpp:45-56 | a run keeps earlier matches, adds none exactly when the search finds none, and its first match is the search's result |
| LegacyPatcher.ScanHitsFrom | patcher/patcher.cpp:46-73 | the matches a run adds are inside the window and each starts at least a needle length after the previous one, whatever the replacement writes |
| LegacyPatcher.ScanHits | patcher/patcher.cpp:46-73 | one call's matches are spaced inside the window, the first is the first match, and there are none ("was not found") exactly when the window holds none |
| LegacyPatcher.CompactWrite | patcher/patcher.cpp:60 | the `copy_if` loop leaves the array holding the compaction of the old contents |
| LegacyPatcher.SearchAndPatch | patcher/patcher.cpp:30-74 | the search loop leaves the array, match list and status that `Scan` gives |
| LegacyPatcher.NextMatch | patcher/patcher.cpp:48-72 | one loop turn returns the leftmost match and processes it; the run ends without one and otherwise goes on past the match unless the write was refused |
| LegacyPatcher.ProcessMatch | patcher/patcher.cpp:57-71 | write and children leave the array as `Process` says |
| LegacyPatcher.ApplyPatch | patcher/patcher.cpp:57-61 | the compaction write leaves the array as `Patch` says |
| LegacyPatcher.ScanChildren | patcher/patcher.cpp:62-71 | the child loop leaves the array as `Children` says |
| LegacyPatcher.PatchBuffer | patcher/patcher.cpp:154-158 | the top-level loop leaves the array as `Drive` says |
| LegacyPatcher.HexToBytes | patcher/patcher.cpp:76-86 | the loop returns the pairwise decoding of the text as it is, white space included |
| Versions.ToLegacy | patcher/patcher.cpp:17-28 | the earlier node has every field of the current one except `validate`: the same name, wildcards, needle, replacement, window size, offset, and the earlier view of each child |
| Versions.ToLegacyWellFormed | patcher/patcher.cpp:17-28 | the earlier view of a well-formed tree is well-formed |
| Versions.LegacyList | patcher/patcher.cpp:154 | the earlier view of a pattern list is the list of each node's view |
| Versions.PatchAgree | patcher/patcher.cpp:57-61 | on a plain node, one with no validation and no replace-wildcard byte in its replacement, the masked write and the compaction write agree |
| Versions.ScanAgree | patcher/patcher.cpp:30-74 | on a plain tree both engines give the same buffer, matches and status |
| Versions.ProcessAgree | patcher/patcher.cpp:57-71 | on a plain tree both engines process a match alike |
| Versions.ChildrenAgree | patcher/patcher.cpp:62-71 | on a plain tree both engines run the children alike |
| Versions.DriveAgree | patcher/patcher.cpp:154-158 | on a plain configuration both versions leave the same file |
| Versions.MaskingDiffersFromCompaction | patcher/patcher.cpp:60 | with replace wildcard `BB`, replacement `AA BB CC` over `00 11 22` gives `AA 11 CC` in the current version and `AA CC 22` in the earlier one |
| Versions.HexAgree | patcher/patcher.cpp:76-86 | on text without white space both decoders agree |
| Versions.SpacedHexDiffers | patcher/patcher.cpp:76-86 | `12 34` decodes to `12 34` in the current version and to `12 03 04` in the earlier one |
| Versions.StripExample | src/patcher.cpp:98 | `12 34` without white space is `1234` |
| Versions.JoinedPairs | src/patcher.cpp:100-104 | `1234` decodes to `12 34` |
| Versions.SplitPairs | patcher/patcher.cpp:79-83 | `12 34` read in pairs as it is gives `12 03 04` |

## Left out

- The JSON configuration reader (minijson, `parse_json`) is not modelled. The
  exception is the decoding of the `search`, `replace` and `validate` fields
  (`PatcherText.FieldBytes`). A `Pattern` value stands for a loaded node.
- The `wildcard` and `replace_wildcard` fields are read by `strtol` on the
  whole field text, and `max_search` and `replace_offset` by `as_long`. Those
  conversions are left out: the fields are modelled as a `byte` and two `nat`.
  A negative offset, which C++ wraps to a huge `uint64_t`, is therefore not
  representable.
- Command-line parsing, reading the input file and writing the output file are
  left out. The buffer is the array handed to `PatchBuffer`, and
  `-force_invalid` is the `force` parameter.
- Log text is left out: the messages, the growing `indent`, and the "Patching…"
  and "Can't apply patch!" lines. Matches are the absolute positions in
  `hits`. The C++ log prints `res - cstart`, which is relative to the advancing
  cursor.
- The `parent` pointer and `name` have no effect on the buffer. `name` is kept
  as a field and `parent` is dropped.
- HexText.Strtol16 is defined only for strings of at most two characters.
  That is the only way `HexToBytes` calls it, so the `0x` prefix case never
  applies and nothing overflows.
- Both `HexToBytes` versions count with a 32-bit `unsigned int`. Texts of
  4 GiB or more are not modelled.
- A Dafny `char` stands for one C++ `char`. `PatcherText.CharByte` takes its
  low eight bits. No text encoding is modelled, nor `isspace` and `isxdigit`
  on negative `char` values (undefined in C++).
- Reads and writes outside the buffer are replaced by the hardening described
  above. The undefined behaviour itself is not modelled.
