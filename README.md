# GKE release notes as a Renovate custom datasource, modelled in Dafny

The program reads the release-notes feed of a GKE release channel and turns it
into a Renovate custom datasource. The output is a list of releases, each a
version and the time it was released. This project models and proves the core
of that transformation in `main.go`:

- **`extractAvailableVersions`**: finds the versions announced as available in
  one entry's HTML.
  - It cuts the content at the first "no longer available" marker.
  - It takes the text between the first "now available" marker and the next one
    (or the cut).
  - It finds every version link in that text with
    `versionRegex.FindAllStringSubmatch`.
  - It keeps each version once, in the order of its first link, using a `seen`
    map.
- **`processEntries`**: walks the entries in feed order. For each version of
  each entry, it appends a release stamped with that entry's update time.

## Files

- `wrappers.dfy`: `Option`.
- `strings.dfy`: `strings.Index` and `strings.Split` for a non-empty separator,
  with `Join` as the inverse of `Split`.
- `pattern.dfy`: `versionRegex` written as an explicit grammar.
  - Tokens are literal texts, `[0-9]+` runs and `[^"]+` runs, grouped into a
    link head, the capture group and the closing tag.
  - `InLang` gives the grammar its meaning. `Scan` and `MatchesFrom` are a
    leftmost, non-overlapping scanner.
  - Lemmas prove that the scanner finds exactly the matches of the grammar.
    `FindAllStringSubmatch` and `Captures` are defined on top of the scanner.
- `distinct.dfy`: `Dedup`, which keeps the first occurrence of each element,
  with its properties.
- `extraction.dfy`:
  - the two marker constants;
  - the section arithmetic (`Cut`, `AvailableSection`);
  - the specification `AvailableVersions`;
  - the imperative `CollectVersions` and `ExtractAvailableVersions`, proved
    against that specification.
- `processing.dfy`:
  - the records `Entry`, `Release` (`RenovateRelease`) and `Datasource`
    (`RenovateCustomDatasource`);
  - the specification `Releases`;
  - the imperative `ProcessEntries`, proved against that specification;
  - lemmas about concatenation, length, timestamps and the absence of
    deduplication across entries.

The region that is searched is slightly different from a plain "from the
available marker to the unavailable marker" description. The code takes
`availableParts[1]`, so the region also ends at a second "now available"
marker, if the cut contains one. The model follows the code.
`Extraction.SectionHasNoMarker` and `Extraction.AvailableSectionWindow` state
this boundary exactly.

Because the content is cut first and split second, an entry whose first "no
longer available" marker comes before its first "now available" marker yields
no versions at all, even if version links follow the "now available" marker.
`Extraction.CutBeforeUnavailable` and `Extraction.NoAvailableMarkerNoVersions`
together state this.

## Model

| member | source | states |
|---|---|---|
| Strings.Index | main.go:138 | the result is an occurrence of the separator, and no occurrence comes before it; `None` means there is no occurrence at all |
| Strings.Split | main.go:138 | splitting on a non-empty separator always yields at least one piece, which is why `parts[0]` always exists |
| Strings.SplitJoin | main.go:138 | joining the pieces with the separator gives back the original text |
| Strings.SplitPartsFree | main.go:138 | no piece of the split contains the separator |
| Strings.SplitSecondPiece | main.go:143-148 | a second piece exists exactly when the separator occurs; it runs from the end of the first occurrence to the next occurrence, or to the end of the text |
| VersionPattern.PatternWellFormed | main.go:18 | in the version pattern, every run is followed by a character it cannot contain, so greedy runs never need backtracking |
| VersionPattern.ScanSound | main.go:18 | what the scanner reads for a token list belongs to that list's language |
| VersionPattern.ScanComplete | main.go:18 | every text of an unambiguous token list's language, when no final run could extend it, is exactly what the scanner reads |
| VersionPattern.MatchAt | main.go:18 | a reported match starts at the given position and ends after it, inside the text |
| VersionPattern.MatchAtSound | main.go:18 | a reported match splits into `<a href="[^"]+">`, the version group and `</a>`; its capture is the group's text |
| VersionPattern.MatchAtComplete | main.go:18 | every match of the pattern at a position is the one the scanner reports there, with the same end and the same capture |
| VersionPattern.MatchesFrom | main.go:149 | matches lie inside the text, start at or after the scan's origin, and do not overlap; each ends at or before the next one starts |
| VersionPattern.MatchesFromSound | main.go:149 | every reported match is a match of the pattern |
| VersionPattern.MatchesFromComplete | main.go:149 | every match of the pattern starts at or inside a reported match: a leftmost-first, non-overlapping search misses nothing |
| VersionPattern.CapturesAreVersions | main.go:149 | every captured group has the form `[0-9]+.[0-9]+.[0-9]+-gke.[0-9]+` and is the link text of a full match |
| Distinct.FirstIndex | main.go:154-161 | the first position of an element, or the length when it is absent; no earlier position holds it |
| Distinct.DedupAppend | main.go:157-160 | a new element is appended and an element already kept is dropped, as the `seen` check does |
| Distinct.DedupElements | main.go:151-162 | the result holds exactly the elements of the input, each once |
| Distinct.DedupCount | main.go:151-162 | each input element occurs exactly once in the result, and nothing else occurs |
| Distinct.DedupOrder | main.go:154-161 | the result lists elements in the order of their first occurrence in the input |
| Distinct.DedupOfDistinct | main.go:154-161 | a sequence without repeats comes back unchanged |
| Distinct.DedupIdempotent | main.go:154-161 | removing repeats twice is the same as removing them once |
| Extraction.CollectVersions | main.go:151-162 | the loop over submatches returns group 1 of each submatch, first occurrences only, in order |
| Extraction.ExtractAvailableVersions | main.go:137-165 | the method returns the first occurrences, in order, of the versions captured in the available section, or nothing when there is no section |
| Extraction.GroupsOfSubmatches | main.go:149-156 | every submatch list has group 1, so the `len(match) > 1` guard keeps all the captures |
| Extraction.CutBeforeUnavailable | main.go:138 | the text kept is the content before the first unavailable marker (all of it when there is none), and contains no such marker |
| Extraction.AvailableSectionWindow | main.go:143-148 | the section runs from the end of the first available marker in the cut to the next available marker or the end of the cut; there is no section when there is no marker |
| Extraction.NoAvailableMarkerNoVersions | main.go:143-146 | there is no section exactly when the cut has no available marker, and then there are no versions |
| Extraction.UnavailableTailIgnored | main.go:137-148 | dropping everything from the first unavailable marker on changes neither the section nor the versions |
| Extraction.SectionHasNoMarker | main.go:137-148 | the searched section contains neither marker, so text after a second available marker or an unavailable marker never contributes |
| Extraction.AvailableVersionsDistinct | main.go:151-162 | the versions have no repeats and are exactly the captures of the section; with no section there are none |
| Extraction.AvailableVersionsOrder | main.go:154-161 | the versions come in the order of their first link in the section |
| Extraction.AvailableVersionsShape | main.go:148-156 | every version has the `MAJOR.MINOR.PATCH-gke.BUILD` digit shape and is the text of a version link in the section |
| Extraction.AvailableVersionsIdempotent | main.go:151-162 | filtering the result through a fresh `seen` map again changes nothing |
| Processing.ProcessEntries | main.go:116-135 | the output is the releases of entry 1, then entry 2, and so on; each entry gives one release per available version, stamped with its formatted update time |
| Processing.AppendReleases | main.go:125-131 | the inner loop appends one release per version, in order, all with the entry's timestamp, after the releases already there |
| Processing.ReleasesAppend | main.go:121-131 | one more entry adds its releases after those of the entries before it |
| Processing.ReleasesConcat | main.go:121-132 | the releases of two runs of entries are the releases of the first run followed by those of the second |
| Processing.ReleasesLength | main.go:116-132 | the number of releases is the sum of each entry's version count; zero entries give an empty list |
| Processing.EntryBlock | main.go:121-131 | each entry's releases sit together, right after those of earlier entries; each holds that entry's versions in order and that entry's timestamp |
| Processing.ReleaseOrigin | main.go:121-131 | every release is a version of some entry and carries that entry's timestamp |
| Processing.NoCrossEntryDedup | main.go:121-122 | when each entry lists a version at most once, the version occurs in the output once per entry that lists it |
| Processing.FeedVersionCount | main.go:121-132 | a version that several entries announce is released once per entry: there is no deduplication across entries |

## Left out

- `main`, `fetchFeed` and the channel URL table: they cover flags, HTTP, XML decoding, file creation and JSON encoding. All of these are I/O.
- `time.Time` and its RFC 3339 formatting are not modelled. An entry's update time has an arbitrary type `T`, and `ProcessEntries` takes the formatting as a function parameter.
- `Entry.Title`, `Feed.XMLName`, `Content`, and the struct tags have no effect on the core's behaviour. An entry keeps only its update time and its content's text.
- Go's general regular-expression engine is left out. Only the one fixed pattern of `versionRegex` is modelled, as a token grammar with a greedy scanner. Its agreement with the grammar is proved, and for this pattern greedy runs never backtrack.
- Strings are sequences of characters, not UTF-8 bytes. Go's `strings.Split` and the regular expression work in byte offsets, so on content with non-ASCII characters the model's positions (`Strings.Index`, `Match.start`, `Match.end`) differ from Go's. The pieces of a split and the captured texts are the same: the markers and the pattern's literals are ASCII, UTF-8 never places an ASCII byte inside a multi-byte character, so every occurrence falls on a character boundary, and `[^"]` reads whole characters.
- `strings.Split` with an empty separator is left out. Both separators are non-empty constants.
- The `len(parts) < 1` guard (main.go:139) is not modelled as a branch, because `Split` always returns at least one piece. `Strings.Split` states this.
- The difference between a nil and an empty slice is not modelled. Both are the empty sequence, and only the output's `Releases` reaches the encoder. It starts as a non-nil empty slice.
- `processEntries` returns a pointer to a fresh object. The model returns the `Datasource` value.
- `Processing.Releases` and the lemmas about it are stated for any function from content to versions. `ProcessEntries` and `FeedVersionCount` use `AvailableVersions`.
