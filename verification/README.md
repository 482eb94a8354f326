# Source-registry normalizer, modelled in Dafny

This project models the core of `normalize_sources.py`, the script that
cleans up a registry of design-system sources. Each registry row names a
source by type (`figma`, `code`, `notion`, `doc`, `api` or `other`) and by a
locator (a URL, a `path:line`, or free text). For every row the script:

- strips and lower-cases the columns (`empty_output_row`);
- runs the type's normalizer, which gives either a canonical key with
  extracted fields or a rejection reason;
- marks the row `valid` if it is the first row with its key, `duplicate`
  if an earlier row already has that key (`duplicate_of` names that row),
  and `invalid` if the row was rejected;
- counts the valid, duplicate and invalid rows in a summary.

The model is purely functional. Each normalizer is a function returning an
`Outcome` (`Ok(fields)` or `Err(reason)`). The classification loop of `run`
is a method (`Classification.Classify`). It is proved equal, row by row, to
an independent reference classification (`Classification.Expected`). That
reference classifies each row against the earlier rows directly, without
the `seen_keys` map.

Standard-library routines the script calls are not defined here. They are
fields of `Urls.Env`, and every property holds whatever they compute:

- `urlparse` followed by `parse_qs` (`parse`);
- `quote_plus`, urlencode's default encoder (`quotePlus`);
- `unquote` (`unquote`);
- `sha256(...).hexdigest()` (`sha256Hex`).

Modules:

- `Strings`: strip, ASCII lower-casing, split/join, digit strings,
  code-point ordering;
- `QueryOrder`: sorting of query pairs;
- `Urls`: `normalize_url`;
- `FigmaLocators`, `CodeLocators`, `NotionLocators`, `GenericLocators`: the
  normalizers;
- `Dispatch`: `normalize_row`;
- `Classification`: `empty_output_row`, the loop and the summary of `run`.

Behaviours of the code worth knowing, each stated by a member below:

- A code path's `..` segments are kept. `PurePosixPath` does not resolve
  them (`CodeLocators.ParentSegmentKept`).
- The Figma display URL keeps the path's letter case. Only the scheme and
  host are lower-cased.
- A Notion page id is taken from all UUID matches first, then all
  isolated 32-digit matches, and the last of that list wins. So any
  32-digit match beats every UUID, wherever the UUID appears in the
  locator (`NotionLocators.NotionPageIdChoice`).
- `run` rejects an unsupported type before calling `normalize_row`. Its
  message quotes the stripped, lower-cased type (`Classification.Attempt`).
  `normalize_row`'s own message, which quotes the type as given, is
  modelled in `Dispatch.NormalizeRow` but is never reached from `run`.
- The "code path is empty" branch cannot be reached. The path group of
  the code-path pattern always takes at least one character
  (`CodeLocators.MatchCodePath`).

## Model

All source cells refer to `common/.agent/skills/reverse-engineering-design-systems/scripts/normalize_sources.py`.

| member | source | states |
|---|---|---|
| Strings.Strip | common/.agent/skills/reverse-engineering-design-systems/scripts/normalize_sources.py:63 | `str.strip()`: the result is a contiguous window of the input with only white space removed on either side, and it neither starts nor ends with white space |
| Strings.StripLower | common/.agent/skills/reverse-engineering-design-systems/scripts/normalize_sources.py:219 | `lower().strip()` (used by `normalize_row`) and `strip().lower()` (used by `empty_output_row`) agree on every string |
| Strings.NatToString | common/.agent/skills/reverse-engineering-design-systems/scripts/normalize_sources.py:149 | `str(n)` is a numeral: digits, with no leading zero unless it is `0`, which it is exactly for 0 |
| Strings.NumeralRoundTrip | common/.agent/skills/reverse-engineering-design-systems/scripts/normalize_sources.py:142-149 | `str(int(s)) == s` for every numeral `s`: with NatToStringRoundTrip, `str` gives the one spelling of a number without leading zeros, so `007` is written `7` |
| Strings.LowerChar | common/.agent/skills/reverse-engineering-design-systems/scripts/normalize_sources.py:219 | ASCII `str.lower` on a character: the one case variant of it that is not an upper-case letter |
| Strings.Lower | common/.agent/skills/reverse-engineering-design-systems/scripts/normalize_sources.py:219 | `str.lower` keeps the length and replaces each character by its case variant that is not upper-case |
| Strings.LowerCaseVariants | common/.agent/skills/reverse-engineering-design-systems/scripts/normalize_sources.py:210 | two strings lower-case alike exactly when, position by position, they differ only in the case of ASCII letters; this is what makes type names, `other` keys, schemes and hosts case-insensitive |
| Strings.NatToStringRoundTrip | common/.agent/skills/reverse-engineering-design-systems/scripts/normalize_sources.py:142-149 | `int(str(n)) == n`: the line text written into a key reads back as the line number |
| Strings.Split | common/.agent/skills/reverse-engineering-design-systems/scripts/normalize_sources.py:82 | `str.split(sep)` gives at least one part, and no part holds the separator |
| Strings.SplitJoin | common/.agent/skills/reverse-engineering-design-systems/scripts/normalize_sources.py:138 | splitting undoes joining when no part holds the separator (the partner of `Split`) |
| Strings.JoinSplit | common/.agent/skills/reverse-engineering-design-systems/scripts/normalize_sources.py:138 | joining the parts of a split gives back the original text |
| Strings.SplitAppend | common/.agent/skills/reverse-engineering-design-systems/scripts/normalize_sources.py:82 | splitting at one separator gives the parts on its left followed by the parts on its right |
| Strings.JoinAppend | common/.agent/skills/reverse-engineering-design-systems/scripts/normalize_sources.py:138 | joining two non-empty part lists puts exactly one separator between their joins |
| QueryOrder.SortPairs | common/.agent/skills/reverse-engineering-design-systems/scripts/normalize_sources.py:71 | `sorted()` on the decoded query pairs gives an ordered permutation of its input |
| QueryOrder.Insert | common/.agent/skills/reverse-engineering-design-systems/scripts/normalize_sources.py:71 | inserting into a sorted sequence keeps it sorted and adds exactly that one pair |
| QueryOrder.SortedUnique | common/.agent/skills/reverse-engineering-design-systems/scripts/normalize_sources.py:71 | two sorted sequences with the same elements are equal, so the sorted order of a set of pairs is unique |
| QueryOrder.SortPairsPermutationInvariant | common/.agent/skills/reverse-engineering-design-systems/scripts/normalize_sources.py:70-72 | reordering the query parameters does not change the sorted query |
| QueryOrder.SortPairsOfSorted | common/.agent/skills/reverse-engineering-design-systems/scripts/normalize_sources.py:71 | sorting an already sorted query leaves it unchanged |
| Urls.Canonicalize | common/.agent/skills/reverse-engineering-design-systems/scripts/normalize_sources.py:62-74 | no result exactly when the scheme or the host is missing; otherwise the result is canonical (lower-case scheme and host, non-empty path, sorted query, no fragment) and equivalent to the input |
| Urls.CanonicalUnique | common/.agent/skills/reverse-engineering-design-systems/scripts/normalize_sources.py:67-72 | each class of equivalent URLs has exactly one canonical member |
| Urls.CanonicalizeIgnoresCosmetics | common/.agent/skills/reverse-engineering-design-systems/scripts/normalize_sources.py:62-74 | URLs differing only in scheme/host case, empty versus `/` path, parameter order or fragment canonicalize identically |
| Urls.CanonicalizeIdempotent | common/.agent/skills/reverse-engineering-design-systems/scripts/normalize_sources.py:62-74 | canonicalizing a canonical URL gives it back |
| Urls.NormalizeUrl | common/.agent/skills/reverse-engineering-design-systems/scripts/normalize_sources.py:62-74 | `None` exactly when the stripped locator lacks a scheme or host; otherwise the text of a canonical URL equivalent to the parsed locator |
| Urls.NormalizeUrlIgnoresCosmetics | common/.agent/skills/reverse-engineering-design-systems/scripts/normalize_sources.py:62-74 | locators whose parses are equivalent normalize to the same text |
| Urls.Unparse | common/.agent/skills/reverse-engineering-design-systems/scripts/normalize_sources.py:74 | `urlunparse` starts with `scheme://netloc` and gives a non-empty path a leading `/`; when no `?` comes before the query, cutting the text at its first `?` gives back exactly the query, and before it `scheme://netloc` followed by the path (with only that `/` added) |
| Urls.CutQueryOf | common/.agent/skills/reverse-engineering-design-systems/scripts/normalize_sources.py:78 | the partner of `Unparse`: text without `?`, then `?`, then anything, cuts at the first `?` back into the two parts, as `urlparse` separates the query |
| Urls.EncodeQuery | common/.agent/skills/reverse-engineering-design-systems/scripts/normalize_sources.py:72 | `urlencode` is empty exactly when there are no pairs, and splitting it at `&` gives back the `key=value` items when no item holds `&` |
| FigmaLocators.NonEmptyAppend | common/.agent/skills/reverse-engineering-design-systems/scripts/normalize_sources.py:82 | the filter `if seg` keeps order: it distributes over concatenation, and keeps a single part exactly when it is non-empty |
| FigmaLocators.SegmentsAppend | common/.agent/skills/reverse-engineering-design-systems/scripts/normalize_sources.py:82 | the segments of `a/b` are the segments of `a` followed by those of `b` |
| FigmaLocators.SegmentsOfName | common/.agent/skills/reverse-engineering-design-systems/scripts/normalize_sources.py:82 | a slash-free name is one segment, or none when empty |
| FigmaLocators.FindFileKey | common/.agent/skills/reverse-engineering-design-systems/scripts/normalize_sources.py:83-87 | blank exactly when no `design`/`file` segment has a successor; otherwise the segment after the first such marker |
| FigmaLocators.FileKey | common/.agent/skills/reverse-engineering-design-systems/scripts/normalize_sources.py:82-87 | blank exactly when no `design`/`file` segment of the path has a successor; otherwise the (slash-free) segment after the first such marker |
| FigmaLocators.FirstValue | common/.agent/skills/reverse-engineering-design-systems/scripts/normalize_sources.py:94-97 | `query[name][0]`: absent exactly when no parameter has that name; otherwise the value of the first parameter with that name |
| FigmaLocators.NodeRaw | common/.agent/skills/reverse-engineering-design-systems/scripts/normalize_sources.py:93-97 | the first `node-id` value whenever `node-id` is present, even if blank; else the first `node_id` value; blank exactly when neither is present or the chosen value is blank |
| FigmaLocators.CanonicalNodeId | common/.agent/skills/reverse-engineering-design-systems/scripts/normalize_sources.py:102-107 | accepted exactly when the stripped id is `N-M` or `N:M` in digits; the result is the stripped id with its hyphen turned into a colon, so it is always `N:M` and keeps the id's digits |
| FigmaLocators.CanonicalNodeIdOfStripped | common/.agent/skills/reverse-engineering-design-systems/scripts/normalize_sources.py:102 | padding around the decoded id is ignored: the id and its stripped text give the same result |
| FigmaLocators.PaddedPairAgree | common/.agent/skills/reverse-engineering-design-systems/scripts/normalize_sources.py:102-107 | an id that strips to `N-M` or `N:M`, such as `" 12-34"` from a `+` in the query, gives `N:M` |
| FigmaLocators.HyphenToColon | common/.agent/skills/reverse-engineering-design-systems/scripts/normalize_sources.py:103-104 | replacing the hyphen of an `N-M` digit pair gives an `N:M` digit pair |
| FigmaLocators.QuoteNodeId | common/.agent/skills/reverse-engineering-design-systems/scripts/normalize_sources.py:109 | the encoded node id holds no `:`, and text without a colon is unchanged |
| FigmaLocators.QuoteAppend | common/.agent/skills/reverse-engineering-design-systems/scripts/normalize_sources.py:109 | encoding distributes over concatenation |
| FigmaLocators.QuoteDigitPair | common/.agent/skills/reverse-engineering-design-systems/scripts/normalize_sources.py:109 | `quote("N:M")` is `N%3AM` |
| FigmaLocators.NormalizeFigma | common/.agent/skills/reverse-engineering-design-systems/scripts/normalize_sources.py:77-118 | each of the four rejections happens exactly when its check is the first to fail; an accepted locator yields the file key of its path, the node id obtained by canonicalizing the unquoted raw node id, the key `figma:<file>:<node>` and the display URL whose only parameter is the encoded node id |
| FigmaLocators.FigmaKeyInjective | common/.agent/skills/reverse-engineering-design-systems/scripts/normalize_sources.py:114 | a Figma key determines its file key and node id |
| FigmaLocators.HyphenAndColonAgree | common/.agent/skills/reverse-engineering-design-systems/scripts/normalize_sources.py:102-107 | `N-M` and `N:M` give the same canonical node id `N:M` |
| FigmaLocators.HyphenAndColonShareKey | common/.agent/skills/reverse-engineering-design-systems/scripts/normalize_sources.py:77-118 | two links to one file whose node ids are spelled `N-M` and `N:M` normalize identically |
| FigmaLocators.BlankNodeIdShadows | common/.agent/skills/reverse-engineering-design-systems/scripts/normalize_sources.py:92-100 | a blank `node-id` parameter hides any `node_id`, and the locator is rejected for a missing node id |
| CodeLocators.SplitFrom | common/.agent/skills/reverse-engineering-design-systems/scripts/normalize_sources.py:59 | the lazy path group stops at the first colon that is followed by digits up to the end; the parts rebuild the value |
| CodeLocators.MatchCodePath | common/.agent/skills/reverse-engineering-design-systems/scripts/normalize_sources.py:128-133 | on a stripped value (which never ends in a newline) the code-path pattern fails exactly when the value is empty or holds a newline; a match has a non-empty path and a digit line, and the two rebuild the value |
| CodeLocators.MatchLineSuffix | common/.agent/skills/reverse-engineering-design-systems/scripts/normalize_sources.py:59 | a newline-free `p` followed by `:<digits>` always splits back into `p` and the digits, whatever colons `p` holds |
| CodeLocators.SplitRoot | common/.agent/skills/reverse-engineering-design-systems/scripts/normalize_sources.py:138 | the POSIX root is empty exactly for a relative path, `//` exactly for two leading slashes not followed by a third, and `/` otherwise; root plus rest is the path |
| CodeLocators.KeepParts | common/.agent/skills/reverse-engineering-design-systems/scripts/normalize_sources.py:138 | empty and `.` segments are dropped, others kept: clean segment lists pass unchanged, and a single segment is dropped exactly when it is empty or `.` |
| CodeLocators.KeepPartsAppend | common/.agent/skills/reverse-engineering-design-systems/scripts/normalize_sources.py:138 | dropping segments keeps the order of the rest: it distributes over concatenation |
| CodeLocators.PosixNormalize | common/.agent/skills/reverse-engineering-design-systems/scripts/normalize_sources.py:138 | `str(PurePosixPath(p))` is a non-empty normal path with the same root (none, `/` or `//`) and the same kept segments (those past the root that are neither empty nor `.`) as `p` |
| CodeLocators.NormalPathDetermined | common/.agent/skills/reverse-engineering-design-systems/scripts/normalize_sources.py:138 | a normal path is determined by its root and its kept segments, so the contract of `PosixNormalize` fixes its result |
| CodeLocators.SameRootSameSegments | common/.agent/skills/reverse-engineering-design-systems/scripts/normalize_sources.py:138 | two paths with the same root and the same kept segments print the same |
| CodeLocators.NormalPathIsFixed | common/.agent/skills/reverse-engineering-design-systems/scripts/normalize_sources.py:138 | normal paths are printed unchanged |
| CodeLocators.PosixNormalizeIdempotent | common/.agent/skills/reverse-engineering-design-systems/scripts/normalize_sources.py:138 | normalizing a normalized path changes nothing |
| CodeLocators.NormalForm | common/.agent/skills/reverse-engineering-design-systems/scripts/normalize_sources.py:138 | every path prints as its root followed by its kept segments joined by `/`, and as `.` exactly when it has neither root nor kept segment |
| CodeLocators.RootedParts | common/.agent/skills/reverse-engineering-design-systems/scripts/normalize_sources.py:138 | when `a` has text past its root, `a/b` keeps the root of `a` and the kept segments of `a` followed by those of `b` |
| CodeLocators.CollapseSeparators | common/.agent/skills/reverse-engineering-design-systems/scripts/normalize_sources.py:138 | a doubled separator after the root of any path (relative or rooted) reads as one |
| CodeLocators.DotSegmentDropped | common/.agent/skills/reverse-engineering-design-systems/scripts/normalize_sources.py:138 | a `.` segment after the root of any path is dropped |
| CodeLocators.TrailingSlashDropped | common/.agent/skills/reverse-engineering-design-systems/scripts/normalize_sources.py:138 | a trailing separator after the root of any path is dropped |
| CodeLocators.ParentSegmentKept | common/.agent/skills/reverse-engineering-design-systems/scripts/normalize_sources.py:138 | a trailing `..` is kept, not resolved against its parent: `a/..` prints as the normal form of `a` followed by `/..`, or as the root of `a` followed by `..` when `a` keeps no segment |
| CodeLocators.Slashed | common/.agent/skills/reverse-engineering-design-systems/scripts/normalize_sources.py:138 | `replace("\\", "/")` keeps the length, leaves no backslash, turns each backslash into `/` and keeps every other character |
| CodeLocators.NormalizeCode | common/.agent/skills/reverse-engineering-design-systems/scripts/normalize_sources.py:121-151 | empty, `://` and bad-format rejections exactly when their conditions hold, in order; "code path is invalid" exactly when the matched path normalizes to `.`; otherwise the path is the POSIX normal form of the matched path with `/` for `\`, the line has the matched value (0 when absent) without leading zeros, the key is `code:<path>:<line>`, and the display is `path:line`, or just the path when the line is 0 |
| CodeLocators.CodeFromMatch | common/.agent/skills/reverse-engineering-design-systems/scripts/normalize_sources.py:138-151 | rejected, as "code path is invalid", exactly when the slashed path normalizes to `.`; otherwise well-formed code fields whose path is that normal form and whose line has the matched value, 0 when absent |
| CodeLocators.CodeKeyInjective | common/.agent/skills/reverse-engineering-design-systems/scripts/normalize_sources.py:147 | a code key determines all of the accepted fields |
| CodeLocators.LineSpellingsShareKey | common/.agent/skills/reverse-engineering-design-systems/scripts/normalize_sources.py:142-149 | `p:7` and `p:007` normalize identically |
| CodeLocators.ZeroLineIsDefault | common/.agent/skills/reverse-engineering-design-systems/scripts/normalize_sources.py:142-147 | a path and the same path with `:0` normalize identically |
| CodeLocators.BackslashVariantsShareKey | common/.agent/skills/reverse-engineering-design-systems/scripts/normalize_sources.py:138 | locators differing only in `\` versus `/` normalize identically |
| CodeLocators.AcceptedWithLine | common/.agent/skills/reverse-engineering-design-systems/scripts/normalize_sources.py:128-133 | a clean path followed by `:<digits>` is matched as exactly that path and line |
| CodeLocators.ZeroLineDisplayReparsesDifferently | common/.agent/skills/reverse-engineering-design-systems/scripts/normalize_sources.py:142-149 | the display form is not a fixed point: `p:7:0` displays as `p:7`, which normalizes under a different key |
| NotionLocators.FindIter | common/.agent/skills/reverse-engineering-design-systems/scripts/normalize_sources.py:166-172 | `finditer` reports ascending, non-overlapping matches from the start index, with no match before the first, none between the end of one and the start of the next, and none after the end of the last |
| NotionLocators.Hex32Disjoint | common/.agent/skills/reverse-engineering-design-systems/scripts/normalize_sources.py:58 | isolated 32-digit runs never overlap |
| NotionLocators.RemoveHyphens | common/.agent/skills/reverse-engineering-design-systems/scripts/normalize_sources.py:167 | `replace("-", "")` leaves no hyphen and adds no character |
| NotionLocators.UuidDigits | common/.agent/skills/reverse-engineering-design-systems/scripts/normalize_sources.py:55-57 | an 8-4-4-4-12 UUID without its hyphens is 32 hex digits |
| NotionLocators.PageIdAt | common/.agent/skills/reverse-engineering-design-systems/scripts/normalize_sources.py:166-172 | every match yields 32 lower-case hex digits |
| NotionLocators.NoMatchAnywhere | common/.agent/skills/reverse-engineering-design-systems/scripts/normalize_sources.py:166-175 | the scan finds nothing exactly when the pattern matches nowhere |
| NotionLocators.Candidates | common/.agent/skills/reverse-engineering-design-systems/scripts/normalize_sources.py:166-175 | every candidate is a page id, and there is none exactly when neither pattern matches anywhere |
| NotionLocators.LastScannedHex32 | common/.agent/skills/reverse-engineering-design-systems/scripts/normalize_sources.py:171 | the last 32-digit match the scan finds is the last one anywhere |
| NotionLocators.LastCandidate | common/.agent/skills/reverse-engineering-design-systems/scripts/normalize_sources.py:177 | `candidates[-1]` is the last 32-digit match if any exists, else the last scanned UUID |
| NotionLocators.Section | common/.agent/skills/reverse-engineering-design-systems/scripts/normalize_sources.py:160-164 | the section is the stripped fragment of an absolute URL whenever that is non-blank, and `root` otherwise |
| NotionLocators.NormalizeNotion | common/.agent/skills/reverse-engineering-design-systems/scripts/normalize_sources.py:154-190 | blank and no-id rejections exactly when their conditions hold; otherwise a page id, the key `notion:<id>:<section>`, and the canonical URL (absolute locators) or the stripped text as display |
| NotionLocators.NotionPageIdChoice | common/.agent/skills/reverse-engineering-design-systems/scripts/normalize_sources.py:166-177 | an accepted locator is keyed by the last isolated 32-digit run if there is one, whatever UUIDs follow it, else by the last UUID the scan finds (a UUID overlapping an earlier match is not found) |
| GenericLocators.NormalizeGenericUrl | common/.agent/skills/reverse-engineering-design-systems/scripts/normalize_sources.py:193-202 | rejected exactly when the URL has no scheme or host; otherwise keyed `url:` plus the canonical URL text |
| GenericLocators.GenericKeyMeansSameUrl | common/.agent/skills/reverse-engineering-design-systems/scripts/normalize_sources.py:200 | two URL keys agree exactly when the canonical texts do |
| GenericLocators.GenericUrlIgnoresCosmetics | common/.agent/skills/reverse-engineering-design-systems/scripts/normalize_sources.py:193-202 | equivalent URLs normalize identically |
| GenericLocators.Prefix | common/.agent/skills/reverse-engineering-design-systems/scripts/normalize_sources.py:210 | `s[:16]`: a prefix of length 16, or all of a shorter string |
| GenericLocators.NormalizeOther | common/.agent/skills/reverse-engineering-design-systems/scripts/normalize_sources.py:205-215 | rejected exactly when blank; otherwise displayed stripped and keyed by the first 16 digest digits of the lower-cased text |
| GenericLocators.OtherKeyIgnoresCaseAndSpace | common/.agent/skills/reverse-engineering-design-systems/scripts/normalize_sources.py:205-215 | free-form locators differing in letter case or surrounding space share a key |
| Dispatch.ParseSourceType | common/.agent/skills/reverse-engineering-design-systems/scripts/normalize_sources.py:32 | a type name parses exactly when it is in SUPPORTED_SOURCE_TYPES, and parses back to its own name |
| Dispatch.ParseTypeName | common/.agent/skills/reverse-engineering-design-systems/scripts/normalize_sources.py:32 | every source type is supported and parses from its name |
| Dispatch.Normalize | common/.agent/skills/reverse-engineering-design-systems/scripts/normalize_sources.py:221-230 | each type's normalizer rejects only with one of the fixed messages, and its keys start with the type's prefix |
| Dispatch.NormalizeRow | common/.agent/skills/reverse-engineering-design-systems/scripts/normalize_sources.py:218-232 | the unsupported-type message, quoting the type as given, exactly when the cleaned type is unsupported; otherwise that type's normalizer |
| Dispatch.UnsupportedIsNoReason | common/.agent/skills/reverse-engineering-design-systems/scripts/normalize_sources.py:232 | the unsupported-type message is never a normalizer's own reason |
| Dispatch.KindsKeepKeysApart | common/.agent/skills/reverse-engineering-design-systems/scripts/normalize_sources.py:218-232 | keys from types with different prefixes never collide |
| Dispatch.DocAndApiAgree | common/.agent/skills/reverse-engineering-design-systems/scripts/normalize_sources.py:227-228 | `doc` and `api` locators are normalized alike |
| Classification.EmptyOutputRow | common/.agent/skills/reverse-engineering-design-systems/scripts/normalize_sources.py:249-258 | the row number is set, the status is pending, and every normalizer column is blank |
| Classification.EmptyOutputRowTrimmed | common/.agent/skills/reverse-engineering-design-systems/scripts/normalize_sources.py:252-257 | the copied columns are stripped, and type, evidence level and priority are lower-case |
| Classification.EmptyOutputRowStable | common/.agent/skills/reverse-engineering-design-systems/scripts/normalize_sources.py:249-258 | feeding an output row's columns back in reproduces it |
| Classification.Cells | common/.agent/skills/reverse-engineering-design-systems/scripts/normalize_sources.py:34-52 | seventeen cells in OUTPUT_COLUMNS order; `source_row` and `duplicate_of` read back as the row numbers, and `duplicate_of` is empty exactly when there is no reference |
| Classification.Merge | common/.agent/skills/reverse-engineering-design-systems/scripts/normalize_sources.py:297 | `out.update(normalized)`: the normalizer columns read back as the fields, and every other column is left as it was |
| Classification.MergeLaws | common/.agent/skills/reverse-engineering-design-systems/scripts/normalize_sources.py:297 | updating a row with its own columns changes nothing, and a second update overrides the first |
| Classification.Attempt | common/.agent/skills/reverse-engineering-design-systems/scripts/normalize_sources.py:280-295 | an unsupported cleaned type is rejected quoting it, else `normalize_row` decides; a rejection always says something and a key is never blank |
| Classification.KeyNotBlank | common/.agent/skills/reverse-engineering-design-systems/scripts/normalize_sources.py:289 | an accepted row's canonical key is never blank |
| Classification.FirstIndex | common/.agent/skills/reverse-engineering-design-systems/scripts/normalize_sources.py:300 | not found exactly when no earlier row holds the key; otherwise the first row that does |
| Classification.FirstIndexPrefix | common/.agent/skills/reverse-engineering-design-systems/scripts/normalize_sources.py:300 | keys at or after the limit do not affect the search |
| Classification.Expected | common/.agent/skills/reverse-engineering-design-systems/scripts/normalize_sources.py:278-309 | the reference result of a row: invalid exactly when rejected (with its reason and no key), else it carries the normalizer's key; a duplicate reference exactly for duplicates |
| Classification.ValidIsFirstOfItsKey | common/.agent/skills/reverse-engineering-design-systems/scripts/normalize_sources.py:300-308 | a row is valid exactly when accepted and no earlier row was accepted with the same key |
| Classification.ValidKeysDistinct | common/.agent/skills/reverse-engineering-design-systems/scripts/normalize_sources.py:300-308 | no two valid rows share a key |
| Classification.DuplicateRefersToValid | common/.agent/skills/reverse-engineering-design-systems/scripts/normalize_sources.py:300-302 | `duplicate_of` names an earlier row, which is valid and holds the same key |
| Classification.DecidedByEarlierRows | common/.agent/skills/reverse-engineering-design-systems/scripts/normalize_sources.py:278-309 | a row's result does not depend on any later row |
| Classification.OutcomesPrefix | common/.agent/skills/reverse-engineering-design-systems/scripts/normalize_sources.py:278-289 | the outcomes of the first n rows are the first n outcomes of all rows |
| Classification.RowsExplainThemselves | common/.agent/skills/reverse-engineering-design-systems/scripts/normalize_sources.py:282-298 | every invalid row has a non-empty reason and no key, and every other row has a key and no reason |
| Classification.Filter | common/.agent/skills/reverse-engineering-design-systems/scripts/normalize_sources.py:317 | the selected rows all have the status and come from the input |
| Classification.FilterCounts | common/.agent/skills/reverse-engineering-design-systems/scripts/normalize_sources.py:315-319 | once no row is pending, valid, duplicate and invalid rows account for every row exactly once |
| Classification.Record | common/.agent/skills/reverse-engineering-design-systems/scripts/normalize_sources.py:308 | `seen_keys` after a row: no recorded row number is overwritten, the row's key is added when new (mapped to the row's number), and nothing else is added |
| Classification.SeenStep | common/.agent/skills/reverse-engineering-design-systems/scripts/normalize_sources.py:300-308 | recording row `i`'s key keeps `seen_keys` equal to the first holder of every key so far |
| Classification.ExpectedBySeen | common/.agent/skills/reverse-engineering-design-systems/scripts/normalize_sources.py:300-308 | classifying against `seen_keys` agrees with the reference classification |
| Classification.ClassifyRow | common/.agent/skills/reverse-engineering-design-systems/scripts/normalize_sources.py:279-309 | with `seen_keys` holding the first row of every key so far, one loop turn produces exactly the reference result of the row, and `seen_keys` then covers that row too (the turn itself is `ClassifyStep`, the loop body this contract is proved from) |
| Classification.LoopStep | common/.agent/skills/reverse-engineering-design-systems/scripts/normalize_sources.py:278-309 | one loop turn yields the row's reference result and extends `seen_keys` by that row |
| Classification.Classify | common/.agent/skills/reverse-engineering-design-systems/scripts/normalize_sources.py:272-309 | every row in order equals its reference result; `duplicates` and `invalid` are exactly the duplicate and invalid rows, in order |
| Classification.SortedSupportedTypesSorted | common/.agent/skills/reverse-engineering-design-systems/scripts/normalize_sources.py:320 | the listed types are the supported ones, each once, in ascending order |
| Classification.Run | common/.agent/skills/reverse-engineering-design-systems/scripts/normalize_sources.py:272-320 | the classification as above, and the summary counts that sum to the number of input rows |

## Left out

- File I/O is not modelled: `load_rows`, `write_csv`, `main` and argument
  parsing. `run` starts from the rows already read. A column missing from
  the file reads as `""`. The missing-header and missing-column errors of
  `load_rows` are not modelled.
- `urlparse`, `parse_qs`, `quote_plus`, `unquote` and SHA-256 are
  parameters of `Env`, not definitions. A URL arrives already split into
  scheme, host, path, decoded query pairs and fragment. The `;params` part
  is dropped, as every caller drops it.
- Strings.Lower: only ASCII letters are lower-cased. Python's `str.lower`
  also folds other scripts.
- Strings.Strip follows Python's `isspace` set. Unicode normalization is
  not modelled.
- Classification.Run: the summary's `output_dir` entry and the JSON
  rendering are not modelled.
- Classification.OutputRow: `source_row` and `duplicate_of` hold the row
  number, not its text. `Classification.Cells` writes both with `str`.
- CodeLocators.MatchCodePath: `$` also matches just before a final
  newline. That case is not modelled, because `normalize_code` matches
  only stripped values, and those never end in a newline.
- CodeLocators.NormalizeCode: `int()` refusing lines of more than 4300
  digits (Python 3.11 and later) is not modelled. A line is read as a
  number of any size.
- Urls.NormalizeUrl: the rendered query goes through `Env.quotePlus`. The
  exact percent-encoding text is not stated.
- FigmaLocators.QuoteNodeId is defined for `N:M` node ids only, the only
  ids that reach it.
- Exceptions `urlparse` can raise on malformed input (such as a bad IPv6
  host) are not modelled.
