# KB component lookup for manifest imports — a Dafny model

This project models the matching core of `import_manifest.py`. That script
takes a manifest of packages (lines such as `zlib-1.2.11-r0`) and finds the
Black Duck knowledge-base (KB) component and component version for each one.
It keeps its results in a `;`-separated cache file, the "KB file", so that a
later run can start from the cache and only resolve what is new.

The modelled parts:

- **Manifest lines** (`ManifestLine`). `process_compfile_line` splits a line
  on `-`. Segments that start with a digit are joined with `.` into the
  version. The other segments are joined with `-` into the package name.
  Every segment is stripped of surrounding whitespace. An empty segment
  (two `-` in a row, or one at either end) makes it raise.
- **Version matcher** (`VersionMatcher`, with `Difflib` for
  `SequenceMatcher.find_longest_match`). `find_ver_from_compver` makes one
  pass over a component's version list. It ranks each version in four tiers:
  - 3: equal to the target;
  - 2: a prefix of the target;
  - 2: contains the target, with no digit before its first occurrence;
  - 1: the longest common block starts both strings and is longer than 2
    characters. It ends within two characters after the target's last `.`,
    and the final `.`-segments of both are numbers at most 2 apart.
- **Hit selection** (`HitSelection`). `find_ver_from_hits` runs the matcher
  on each search hit until it finds an exact match.
- **Name resolver** (`Resolver`). `find_comp_from_kb` runs rounds of
  searches on the package name:
  - the name as it is;
  - with `::` instead of `-`/`_`;
  - with spaces instead of `-`/`_`.

  After each round the name loses its last `-` segment, or its last `.`
  segment. The search keeps the strongest result and turns it into a cache
  record.
- **Cache** (`KbCache`):
  - `update_kbfile_entry` appends a version pair to a package's lines;
  - `import_kbfile` loads the cache into a name index and a name/version
    index, and copies it into the output file.
- **The `kblookup` command** (`LookupDriver`). This is the loop over the
  manifest. It skips names the cache marks `NO MATCH` and versions the cache
  already resolves. For a known name it tries each cached component URL in
  turn (`find_compver_from_compurl`). For a new name it resolves the name in
  full. It stops once more than 500 lookups have been counted. An output
  file line without four `;`-fields makes the amend raise, and a manifest
  line with an empty `-`-segment makes the split raise; either ends the run.
  A run over a manifest without such lines, whose output lines all have the
  four fields, never raises.

The model's form follows the source:

- Each loop of the source is a `method` with a `while` or `for` loop. It is
  proved equal to a specification function: `Scan`, `SelectHit`,
  `Attempts`/`Best`, `Pieces`, `Rewrite`, `LookupIndex`/`VersionIndex`,
  `Probe`, `Visit` and `Run`.
- The properties are lemmas about those functions.
- Every Black Duck request is a call to an `Oracle` value:
  - `search`: the component URLs of the hits on the first result page;
  - `fetch`: a component's name, source URL and version list, or `None`
    when the request fails.
- Files are sequences of lines.

The model keeps these behaviours of the code, some of which a reader of
its option help or comments might not expect:

- **Strip patterns.** The `-r` option's help reads "Replace (remove)
  string", and it may be given several times. Each pattern is removed from
  the original name, so only the last pattern takes effect
  (`Resolver.StripPatterns`), not all of them.
- **The `v` special case.** The strength-3 case for a candidate that is `v`
  followed by the target can never fire. The code tests the whole candidate
  against `v`, not its prefix
  (`VersionMatcher.ContainmentIsNeverExact`).
- **Length comparisons across tiers.** The matcher compares lengths across
  tiers, not within one tier:
  - a strength-2 candidate must be strictly longer than the match held,
    whatever that match's strength;
  - a strength-1 candidate that is at least as long replaces a strength-2
    match.
- **Which version URL is reported.** Without an exact match, the version URL
  is the URL of the last version scanned, not the URL of the version matched
  (`VersionMatcher.MatchComponentWithoutExact`).
- **Which hit is reported.** Hit selection reports the last hit's result,
  not the best one (`HitSelection.SelectHitCases`).
- **The amend is not idempotent.** It appends to every line of the package
  and component, and appends again on a repeated call
  (`KbCache.AmendTwiceAppendsTwice`).
- **Release tags in the package name.** A segment such as `r0` does not
  start with a digit, so it goes into the package name, not the version.
- **What counts towards the limit.** The 500 counts every component URL
  tried, plus one for a version found and one for each new name resolved. A
  failed version search goes on to the next line without checking the
  count.

## Model

| member | source | states |
|---|---|---|
| ManifestLine.ProcessCompfileLine | import_manifest.py:467-480 | the splitting loop raises iff some `-`-segment is empty; otherwise it returns exactly `Package(line)` and `Version(line)`: the stripped non-digit-led pieces joined with `-` and the digit-led ones joined with `.`, leading pieces that strip to nothing adding no separator |
| ManifestLine.AccumulateSegment | import_manifest.py:471-479 | one more segment either extends the string of its kind by the separator (only if that string is non-empty) and the stripped segment, or leaves it alone |
| ManifestLine.CleanLine | import_manifest.py:467-480 | when no segment strips to nothing, package and version are plain joins of the stripped segments of each kind, in line order |
| ManifestLine.PiecesHaveNoDash | import_manifest.py:470-479 | no piece of either kind contains `-` |
| ManifestLine.PackageSplitsBack | import_manifest.py:477-479 | splitting a non-empty package name on `-` gives back exactly its pieces |
| ManifestLine.ComposedLine | import_manifest.py:467-480 | a line made of stripped non-digit segments followed by digit-led segments, none containing `-`, splits back into those segments: package is their `-`-join, version their `.`-join |
| Difflib.LongestMatch | import_manifest.py:69-70 | the block found is in range in both strings and equal in both; an empty block is reported at (0, 0) |
| Difflib.LongestMatchIsLongest | import_manifest.py:69-70 | the block is a longest common block, and the earliest in the first string (then in the second) among the longest |
| Difflib.LongestMatchUnique | import_manifest.py:69-70 | that contract determines the block |
| VersionMatcher.Normalize | import_manifest.py:56-59 | `-` becomes `.`: same length, no `-` left, strings without `-` unchanged |
| VersionMatcher.Tier | import_manifest.py:62-110 | the tier is at most 3, and 3 exactly for equal normalised strings |
| VersionMatcher.PrefixIsTierTwo | import_manifest.py:69-76 | a candidate that is a proper prefix of the target is in tier 2 |
| VersionMatcher.ContainmentIsTierTwo | import_manifest.py:69-90 | a candidate other than the target that holds it, with no digit before its first occurrence, is in tier 2 |
| VersionMatcher.TierTwoCases | import_manifest.py:69-90 | tier 2 holds only for a candidate other than the target that is a prefix of it, or that holds it with no digit before its first occurrence |
| VersionMatcher.TierOneCase | import_manifest.py:92-110 | tier 1 holds only for a candidate that is not a prefix of the target, whose longest common block starts both strings, is longer than 2 and passes the close-number test |
| VersionMatcher.Step | import_manifest.py:60 | the version URL held is updated by every candidate scanned |
| VersionMatcher.ContainmentIsNeverExact | import_manifest.py:79-90 | the strength-3 case of the second block cannot occur |
| VersionMatcher.ScanStopsAtFirstExact | import_manifest.py:62-66 | the first exactly matching version ends the pass and is returned with strength 3 and its own URL |
| VersionMatcher.ScanKeepsLongest | import_manifest.py:68-110 | without an exact match the match held never shortens and ends at least as long as every version that reaches a block |
| VersionMatcher.ScanAdoptsACandidate | import_manifest.py:57-110 | the pass returns its start state or a version of the list with that version's tier as strength |
| VersionMatcher.ScanEndsOnLastUrl | import_manifest.py:57-113 | without an exact match the URL reported is the last version's URL |
| VersionMatcher.MatchComponentExact | import_manifest.py:35-115 | with an exact match: strength 3, the first exactly matching version name, the `;`-free source URL and that version's URL |
| VersionMatcher.MatchComponentIsACandidate | import_manifest.py:42-115 | a non-empty result names the component, a version of its list and that version's tier (1 to 3), and strength 3 only for an exact match |
| VersionMatcher.MatchComponentWithoutExact | import_manifest.py:57-115 | without an exact match: a result exists iff some non-empty version reaches a block; it is as long as any such version; its URL is the last version's |
| VersionMatcher.RankCandidate | import_manifest.py:68-110 | the three blocks of the loop body compute the next match version and strength exactly as `Step` |
| VersionMatcher.FindVerFromCompver | import_manifest.py:35-115 | the version loop returns `MatchComponent`: nothing on a failed fetch, otherwise the scan's outcome |
| HitSelection.ReportedHit | import_manifest.py:117-131 | the tuple reported for a hit is empty, or holds the component's name and `;`-free source URL, the hit's component URL and a non-empty version of the component with that version's tier (1 to 3); without an exact version it is empty iff no non-empty version reaches a block |
| HitSelection.MatchStrength | import_manifest.py:112-115 | a non-empty matcher result has strength 1 to 3 |
| HitSelection.SelectFromFirstExact | import_manifest.py:120-126 | the first hit with an exact match decides the result; later hits are not looked at |
| HitSelection.SelectFromLast | import_manifest.py:120-131 | with no exact match the result is the last hit's, whatever earlier hits found |
| HitSelection.SelectHitCases | import_manifest.py:117-131 | no hits give nothing; the first exact hit wins; otherwise the last hit's result |
| HitSelection.SelectHitShape | import_manifest.py:117-131 | the result is empty or has strength 1 to 3 and one of the hits' component URLs |
| HitSelection.FindVerFromHits | import_manifest.py:117-131 | the hit loop with its early exit returns `SelectHit` |
| Resolver.Stripped | import_manifest.py:160-164 | the name searched first is never longer than the package name |
| Resolver.StripPatterns | import_manifest.py:160-164 | the pattern loop leaves the name with only the last pattern removed |
| Resolver.ColonName | import_manifest.py:184-185 | the `::` form holds no `-` and no `_` |
| Resolver.SpaceName | import_manifest.py:203-204 | the space form holds no `-` and no `_` |
| Resolver.Truncate | import_manifest.py:219-229 | the next name is a prefix, strictly shorter iff the name holds `-` or `.`, and cut at the last `-` when there is one |
| Resolver.Result | import_manifest.py:169-172 | one search yields nothing or a match of strength 1 to 3 |
| Resolver.Round | import_manifest.py:167-217 | a round makes one to three searches |
| Resolver.RoundShape | import_manifest.py:167-217 | a round searches the plain name first, then `::` only for a name as long as the starting one with a `-`, then spaces only for a name with `-` or `_`; only its last search can be exact |
| Resolver.AttemptsStart | import_manifest.py:166-169 | the loop's first search is of the stripped name as it is |
| Resolver.AttemptsArePrefixes | import_manifest.py:167-229 | every search records the lookup for its query and is made from a prefix of the stripped name |
| Resolver.ColonsOnlyFirst | import_manifest.py:183-186 | the `::` form is only searched for the stripped name itself, and only when it holds a `-` |
| Resolver.SpacesNeedSeparator | import_manifest.py:200-205 | the space form is only searched for names holding `-` or `_` |
| Resolver.ExactEndsLoop | import_manifest.py:167-229 | only the loop's last search can find an exact match |
| Resolver.NamesShrink | import_manifest.py:219-229 | every round starts on a name strictly shorter than all names searched before, so the loop ends |
| Resolver.BestAppend | import_manifest.py:175-181 | the running best over two runs of searches is the best of the second run started from the first's |
| Resolver.BestIsFirstStrongest | import_manifest.py:175-181 | the running best is at least as strong as every search and is the first of the greatest strength (or the start value) |
| Resolver.ResolveIsFirstStrongest | import_manifest.py:147-237 | the result is the first strongest search result, or no match; strength 3 exactly when the last search was exact |
| Resolver.Search | import_manifest.py:169-181 | one search updates the running best only on a strictly stronger result and reports whether it was exact |
| Resolver.SearchRound | import_manifest.py:167-217 | the three searches of a round give the round's running best and whether it ended exact |
| Resolver.FindCompFromKb | import_manifest.py:147-237 | the loop returns the cache record of `Resolve`: the match fields or the `NO MATCH` record |
| KbCache.UpdateKbfileEntry | import_manifest.py:278-288 | the loop computes `Rewrite`: it raises iff some line lacks the four fields, and otherwise rewrites the lines one for one by `AmendLine` |
| KbCache.RewriteCases | import_manifest.py:278-288 | the rewrite raises iff some line lacks the four fields; the lines written are the amended lines before the first such line (all of them when it does not raise), each with the four fields |
| KbCache.RewriteRaises | import_manifest.py:278-281 | the rewrite raises exactly at the first line without the four fields, having written one line for each line before it |
| KbCache.RewriteWritten | import_manifest.py:282-288 | each line written is the amend of the line in the same place, and keeps the four fields |
| KbCache.AmendChangesOnlyItsComponent | import_manifest.py:279-288 | a line changes iff its field 0 is the package and its field 3 the component URL |
| KbCache.AmendKeepsFields | import_manifest.py:288 | an amended line still has the four fields |
| KbCache.AmendAppendsPair | import_manifest.py:288 | on a cache line of the package and component, the amend appends `version;url;` as two more fields |
| KbCache.AmendTwiceAppendsTwice | import_manifest.py:278-288 | amending twice appends the pair twice: the amend is not idempotent |
| KbCache.FieldsFromCount | import_manifest.py:279-281 | a line with three `;` has the four fields the source reads |
| KbCache.RecordFields | import_manifest.py:233 | a record line splits back into its fields and the newline |
| KbCache.LookupIndexUrls | import_manifest.py:331-337 | the URL list of a name is the field 3 of every line whose field 0 is that name, in file order |
| KbCache.VersionIndexLastLine | import_manifest.py:338-341 | a name/version key is in the index iff some line lists it, and then its URL is the one given by the last line that lists it |
| KbCache.VersionPairsOverride | import_manifest.py:338-341 | a line's pairs override what the index held before |
| KbCache.LookupIndexAppend | import_manifest.py:319-346 | loading two files in turn gives each name the URLs of the first followed by those of the second |
| KbCache.VersionIndexAppend | import_manifest.py:319-346 | loading two files in turn gives the second file's version entries priority |
| KbCache.LookupIndexEntries | import_manifest.py:331-337 | a name has an entry iff some line is of that name, and each URL comes from a line of that name |
| KbCache.RecordLoads | import_manifest.py:331-341 | a one-match record loads as its component URL under its name and its version URL under name/version |
| KbCache.ImportKbfile | import_manifest.py:309-353 | the parse loop builds `LookupIndex` and `VersionIndex` and copies the lines only to an output file other than the input |
| LookupDriver.CompverFromCompurlCases | import_manifest.py:355-360 | a component URL yields nothing when the fetch fails, the first exact version's URL when there is one, otherwise the last version's URL if any version reaches a block |
| LookupDriver.FindCompverFromCompurl | import_manifest.py:355-360 | returns the matcher's version and source URLs for any match, otherwise `NO VERSION MATCH` and an empty URL |
| LookupDriver.OutcomeAt | import_manifest.py:555-556 | the outcome recorded for the `k`-th cached URL is what that URL yields |
| LookupDriver.ProbeFindsFirst | import_manifest.py:554-568 | the URL loop finds nothing iff no URL yields a version URL, and then tries them all; otherwise it stops at the first that does and reports its URL |
| LookupDriver.ProbeStops | import_manifest.py:558-567 | an outcome other than `NO VERSION MATCH` ends the probe with that outcome |
| LookupDriver.ProbeGoesOn | import_manifest.py:555-558 | a `NO VERSION MATCH` outcome moves the probe to the next URL |
| LookupDriver.TryUrl | import_manifest.py:556 | one turn of the URL loop yields the recorded outcome of that URL |
| LookupDriver.FindVersionUrl | import_manifest.py:554-568 | the URL loop returns `Probe` over the URLs' outcomes: how many were tried and the version URL found |
| LookupDriver.ProbeExhausted | import_manifest.py:554-568 | when no URL yields a version URL, the loop has tried every URL |
| LookupDriver.RecordProbe | import_manifest.py:559-572 | after the URL loop: the verdict entry, the amend of the output (or its raise) and the count are exactly `Probed` |
| LookupDriver.ProbedKeepsValid | import_manifest.py:551-572 | recording a probe keeps the state valid, the lookup index and every verdict, and only adds to the count; it raises iff an output line lacks the four fields, and otherwise keeps the number of output lines |
| LookupDriver.VisitKeepsValid | import_manifest.py:533-577 | a manifest line keeps the state valid, never updates the lookup index, keeps every resolved version URL, only adds to the count, unless it raises amends the output in place or appends the new name's record, and never raises on an output whose lines have the four fields |
| LookupDriver.RunInvariants | import_manifest.py:532-580 | over a run the index stays as loaded, resolved versions are kept, the count only grows, the output only grows unless the run raises, a run that stops has counted more than 500, a run over a well-formed output keeps it well-formed, and one over a manifest whose lines all split never raises |
| LookupDriver.WellFormedRunNeverRaises | import_manifest.py:518-580 | a `kblookup` run over a manifest whose lines all split, from an output file whose lines have the four fields, does not raise, and its output lines keep them |
| LookupDriver.LookupIndexNonEmpty | import_manifest.py:337 | every name in the loaded index has a component URL, so `[0]` is defined |
| LookupDriver.StartValid | import_manifest.py:519-523 | the state after loading is valid, and its output lines have the four fields when the output file's own lines do |
| LookupDriver.RecordHasFields | import_manifest.py:233-237 | a record the resolver returns has the four fields |
| LookupDriver.RecordIsRecordLine | import_manifest.py:233-237 | the record is the cache line of its six fields; for no match these are the compstring, an empty name and source, `NO MATCH`, the version and `NO VERSION MATCH` |
| LookupDriver.RecordLoadsBack | import_manifest.py:233-237 | a record loads back as the component URL (or `NO MATCH`) under the name and the version URL (or `NO VERSION MATCH`) under name/version |
| LookupDriver.KeptRecordLoads | import_manifest.py:331-341 | a line loading as a name and name/version keeps both entries, with a non-empty URL list, whatever lines surround it |
| LookupDriver.RecordedPairLeftAlone | import_manifest.py:536-550 | a package/version whose record is a line anywhere in the input cache is left alone, whatever the KB answers |
| LookupDriver.RerunLeavesRecordedLine | import_manifest.py:532-575 | rerunning with an output file holding a line's record, among any other lines, as the input cache leaves that line alone |
| LookupDriver.LookupPackage | import_manifest.py:536-576 | the loop body for one split line computes exactly `Visit`: new verdicts, output lines, count, and whether it continues, reaches the limit check or raises |
| LookupDriver.LoadKbfile | import_manifest.py:519-523 | the set-up gives the indexes of the input cache (empty without one) and the output lines with the copy under `--append` |
| LookupDriver.KbLookup | import_manifest.py:518-580 | the `kblookup` loop returns the output lines, count and ending (completed, stopped or raised) of `Run` from the loaded state; a manifest line with an empty `-`-segment ends it raised |

## Left out

- The Black Duck REST API is the `Oracle` and is not modelled: HTTP status codes, JSON decoding, the `+` for spaces in the search query, the result-page limits of 20 hits and 1000 versions, and exceptions from the client.
- Logging, the progress lines printed, argument parsing and `exit()`. The limit's stop is the `Stopped` ending of `KbLookup`.
- The `import` command and its helpers are not part of this model: `read_compfile`, `manage_project_version`, `add_comp_to_bom` and the deletion of manual components.
- File I/O. Files are sequences of lines. The model does not capture:
  - a file that cannot be opened: `update_kbfile_entry` and `import_kbfile` then return early;
  - line endings: a line need not end in a newline, and when a file's last line lacks one, the next appended line merges with it;
  - `add_kbfile_entry` appending to the file: the model appends a line to the sequence.
- A component without a source URL: the source keeps `None`, while the model's source URL is always a string.
- KbCache.ImportKbfile: requires every line of the input KB file to have four `;`-fields. The source raises on `elements[3]` for a shorter line while loading, and the model leaves that failure out. LookupDriver.KbLookup has the same requirement on the input KB file only. A short line of the output file is modelled: the amend raises on it and the run ends `Raised`.
- After the amend raises, the model takes the output file to hold the lines written before the failing line. Whether Python's buffered writes reach the file then is not modelled.
- Character classes are narrower than Python's. Digits are ASCII digits. Whitespace is the ASCII and Latin-1 whitespace. Python's `isdigit`, `\d` and `isspace` also accept other Unicode characters.
- Difflib's autojunk heuristic is left out. It only applies to strings of 200 characters or more, which version strings are not.
