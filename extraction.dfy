/**
 `extractAvailableVersions`: the versions announced as newly available in the
 HTML content of one release-note entry.

 The content is cut at the first "no longer available" marker; what precedes
 it is split at the "now available" marker, and the piece after the first
 such marker (up to the next one, or to the cut) is the section that is
 searched for version links. Each version is kept once, in the order of its
 first link.
 */
module Extraction {

  import opened Wrappers
  import opened Strings
  import opened VersionPattern
  import opened Distinct

  const AVAILABLE_MARKER: string := "The following versions are now available in the"
  const UNAVAILABLE_MARKER: string := "The following versions are no longer available in the"

  /** `parts[0]`: the content before the first unavailable marker, or all of it. */
  function Cut(content: string): string
  {
    Split(content, UNAVAILABLE_MARKER)[0]
  }

  /** `availableParts[1]`, or `None` where the source returns early because there is none. */
  function AvailableSection(content: string): Option<string>
  {
    var availableParts := Split(Cut(content), AVAILABLE_MARKER);
    if |availableParts| < 2 then None else Some(availableParts[1])
  }

  /** The result of `extractAvailableVersions(content)`. */
  function AvailableVersions(content: string): seq<string>
  {
    match AvailableSection(content)
    case None => []
    case Some(section) => Dedup(Captures(section))
  }

  /** Group 1 of every submatch list that has one (`len(match) > 1`), in order. */
  function Groups(matches: seq<seq<string>>): seq<string>
    decreases |matches|
  {
    if matches == [] then []
    else
      var g := Groups(matches[..|matches| - 1]);
      var m := matches[|matches| - 1];
      if |m| > 1 then g + [m[1]] else g
  }

  /** `seen[version]`: a missing key reads as `false`, Go's zero value. */
  function Seen(seen: map<string, bool>, version: string): bool
  {
    version in seen && seen[version]
  }

  /**
   The loop over the submatches: each capture is appended the first time it
   is seen, and `seen` records exactly the versions appended so far.
   */
  method CollectVersions(matches: seq<seq<string>>) returns (versions: seq<string>)
    ensures versions == Dedup(Groups(matches))
  {
    versions := [];
    var seen: map<string, bool> := map[];
    for i := 0 to |matches|
      invariant versions == Dedup(Groups(matches[..i]))
      invariant forall v :: Seen(seen, v) <==> v in versions
    {
      var m := matches[i];
      assert matches[..i + 1][..i] == matches[..i];
      if |m| > 1 {
        var version := m[1];
        DedupAppend(Groups(matches[..i]), version);
        if !Seen(seen, version) {
          versions := versions + [version];
          seen := seen[version := true];
        }
      }
    }
    assert matches[..|matches|] == matches;
  }

  /** `extractAvailableVersions`, step by step. */
  method ExtractAvailableVersions(content: string) returns (versions: seq<string>)
    ensures versions == AvailableVersions(content)
  {
    var parts := Split(content, UNAVAILABLE_MARKER);
    var availableParts := Split(parts[0], AVAILABLE_MARKER);
    if |availableParts| < 2 {
      return [];
    }
    var availableSection := availableParts[1];
    var matches := FindAllStringSubmatch(availableSection);
    versions := CollectVersions(matches);
    GroupsOfSubmatches(availableSection);
  }

  /** Every submatch list has two entries, so `Groups` keeps group 1 of each: the captures. */
  lemma GroupsOfSubmatches(s: string)
    ensures Groups(FindAllStringSubmatch(s)) == Captures(s)
  {
    var ms := FindAllStringSubmatch(s);
    GroupsOfPairs(ms);
  }

  lemma {:induction false} GroupsOfPairs(matches: seq<seq<string>>)
    requires forall k :: 0 <= k < |matches| ==> |matches[k]| == 2
    ensures Groups(matches) == seq(|matches|, k requires 0 <= k < |matches| => matches[k][1])
    decreases |matches|
  {
    if matches != [] {
      GroupsOfPairs(matches[..|matches| - 1]);
    }
  }

  /** The cut is the content before the first unavailable marker, and contains no such marker. */
  lemma CutBeforeUnavailable(content: string)
    ensures Cut(content) == match Index(content, UNAVAILABLE_MARKER) case None => content case Some(m) => content[..m]
    ensures forall j :: !OccursAt(Cut(content), UNAVAILABLE_MARKER, j)
  {
    SplitPartsFree(content, UNAVAILABLE_MARKER);
  }

  /**
   The section runs from the end of the first available marker in the cut to
   the next available marker, or to the end of the cut; there is none when
   the cut has no available marker.
   */
  lemma AvailableSectionWindow(content: string)
    ensures var cut := Cut(content);
      match Index(cut, AVAILABLE_MARKER)
      case None => AvailableSection(content) == None
      case Some(a) =>
        var lo := a + |AVAILABLE_MARKER|;
        lo <= |cut| &&
        AvailableSection(content) == Some(cut[lo..match IndexFrom(cut, AVAILABLE_MARKER, lo) case None => |cut| case Some(b) => b])
  {
    SplitSecondPiece(Cut(content), AVAILABLE_MARKER);
  }

  /** Without an available marker before the cut there is no section, and so no version; with one there is a section. */
  lemma NoAvailableMarkerNoVersions(content: string)
    ensures AvailableSection(content).None? <==> forall j :: !OccursAt(Cut(content), AVAILABLE_MARKER, j)
    ensures (forall j :: !OccursAt(Cut(content), AVAILABLE_MARKER, j)) ==> AvailableVersions(content) == []
  {
    AvailableSectionWindow(content);
  }

  /** Nothing from the first unavailable marker on contributes a version. */
  lemma UnavailableTailIgnored(content: string, m: nat)
    requires Index(content, UNAVAILABLE_MARKER) == Some(m)
    ensures AvailableSection(content) == AvailableSection(content[..m])
    ensures AvailableVersions(content) == AvailableVersions(content[..m])
  {
    CutBeforeUnavailable(content);
    IndexPrefixFree(content, UNAVAILABLE_MARKER, m);
    CutBeforeUnavailable(content[..m]);
  }

  /**
   The section contains neither marker: text after a second available marker
   or after an unavailable marker is never searched.
   */
  lemma SectionHasNoMarker(content: string)
    requires AvailableSection(content).Some?
    ensures forall j :: !OccursAt(AvailableSection(content).value, AVAILABLE_MARKER, j)
    ensures forall j :: !OccursAt(AvailableSection(content).value, UNAVAILABLE_MARKER, j)
  {
    var cut := Cut(content);
    var section := AvailableSection(content).value;
    SplitPartsFree(cut, AVAILABLE_MARKER);
    assert section == Split(cut, AVAILABLE_MARKER)[1];
    CutBeforeUnavailable(content);
    AvailableSectionWindow(content);
    var lo := Index(cut, AVAILABLE_MARKER).value + |AVAILABLE_MARKER|;
    var hi := lo + |section|;
    assert section == cut[lo..hi];
    SliceFree(cut, lo, hi, UNAVAILABLE_MARKER);
  }

  /** The versions are exactly the captures in the section, each once. */
  lemma AvailableVersionsDistinct(content: string)
    ensures NoDuplicates(AvailableVersions(content))
    ensures match AvailableSection(content)
      case None => AvailableVersions(content) == []
      case Some(section) => forall v :: v in AvailableVersions(content) <==> v in Captures(section)
  {
    if AvailableSection(content).Some? {
      DedupElements(Captures(AvailableSection(content).value));
    }
  }

  /** The versions come in the order in which their first link appears in the section. */
  lemma AvailableVersionsOrder(content: string)
    requires AvailableSection(content).Some?
    ensures InFirstOccurrenceOrder(AvailableVersions(content), Captures(AvailableSection(content).value))
  {
    DedupOrder(Captures(AvailableSection(content).value));
  }

  /**
   Every version has the shape `[0-9]+.[0-9]+.[0-9]+-gke.[0-9]+` and is the
   link text of a match of the version pattern inside the section.
   */
  lemma AvailableVersionsShape(content: string)
    ensures forall v :: v in AvailableVersions(content) ==>
      InLang(v, VERSION) && exists i, e :: IsMatch(AvailableSection(content).value, GKE_LINK, i, e, v)
  {
    if AvailableSection(content).Some? {
      var section := AvailableSection(content).value;
      var caps := Captures(section);
      DedupElements(caps);
      CapturesAreVersions(section);
      forall v | v in AvailableVersions(content)
        ensures InLang(v, VERSION) && exists i, e :: IsMatch(section, GKE_LINK, i, e, v)
      {
        var k :| 0 <= k < |caps| && caps[k] == v;
      }
    }
  }

  /** Filtering the result through `seen` once more changes nothing. */
  lemma AvailableVersionsIdempotent(content: string)
    ensures Dedup(AvailableVersions(content)) == AvailableVersions(content)
  {
    AvailableVersionsDistinct(content);
    DedupOfDistinct(AvailableVersions(content));
  }

}
