/**
 `processEntries`: every feed entry contributes one release per available
 version, stamped with the entry's update time, in entry order.

 The update time is kept abstract: an entry carries a value of any type `T`,
 and `format` stands for its RFC 3339 formatting. The specification
 `Releases` is stated for any function `versionsOf` from entry content to
 versions; `ProcessEntries` meets it for `AvailableVersions`, which is what
 `processEntries` calls.
 */
module Processing {

  import opened Distinct
  import opened Extraction

  /** One `<entry>` of the release-notes feed: its update time and the HTML of its content. */
  datatype Entry<T> = Entry(updated: T, content: string)

  /** `RenovateRelease` */
  datatype Release = Release(version: string, releaseTimestamp: string)

  /** `RenovateCustomDatasource` */
  datatype Datasource = Datasource(releases: seq<Release>)

  /** One release per version, in order, all with the same timestamp. */
  function Stamp(versions: seq<string>, timestamp: string): seq<Release>
  {
    seq(|versions|, k requires 0 <= k < |versions| => Release(versions[k], timestamp))
  }

  /** The releases one entry contributes: each of its versions with the entry's timestamp. */
  function EntryReleases<T>(entry: Entry<T>, format: T -> string, versionsOf: string -> seq<string>): seq<Release>
  {
    Stamp(versionsOf(entry.content), format(entry.updated))
  }

  /** The releases of all entries, entry after entry. */
  function Releases<T>(entries: seq<Entry<T>>, format: T -> string, versionsOf: string -> seq<string>): seq<Release>
    decreases |entries|
  {
    if entries == [] then []
    else Releases(entries[..|entries| - 1], format, versionsOf) + EntryReleases(entries[|entries| - 1], format, versionsOf)
  }

  /** `processEntries`, with the entries of the feed and the timestamp formatting as parameters. */
  method ProcessEntries<T>(entries: seq<Entry<T>>, format: T -> string) returns (output: Datasource)
    ensures output.releases == Releases(entries, format, AvailableVersions)
  {
    output := Datasource([]);
    for i := 0 to |entries|
      invariant output.releases == Releases(entries[..i], format, AvailableVersions)
    {
      var entry := entries[i];
      var versions := ExtractAvailableVersions(entry.content);
      var timestamp := format(entry.updated);
      var releases := AppendReleases(output.releases, versions, timestamp);
      output := output.(releases := releases);
      ReleasesAppend(entries, format, AvailableVersions, i);
    }
    assert entries[..|entries|] == entries;
  }

  /** The inner loop of `processEntries`: one release per version, appended in order. */
  method AppendReleases(releases: seq<Release>, versions: seq<string>, timestamp: string) returns (r: seq<Release>)
    ensures r == releases + Stamp(versions, timestamp)
  {
    r := releases;
    for j := 0 to |versions|
      invariant r == releases + Stamp(versions[..j], timestamp)
    {
      var release := Release(versions[j], timestamp);
      assert Stamp(versions[..j + 1], timestamp) == Stamp(versions[..j], timestamp) + [release];
      r := r + [release];
    }
    assert versions[..|versions|] == versions;
  }

  /** One more entry adds its own releases after those of the entries before it. */
  lemma ReleasesAppend<T>(entries: seq<Entry<T>>, format: T -> string, versionsOf: string -> seq<string>, i: nat)
    requires i < |entries|
    ensures Releases(entries[..i + 1], format, versionsOf) ==
      Releases(entries[..i], format, versionsOf) + EntryReleases(entries[i], format, versionsOf)
  {
    assert entries[..i + 1][..i] == entries[..i];
  }

  /** The releases of two runs of entries, one after the other. */
  lemma {:induction false} ReleasesConcat<T>(first: seq<Entry<T>>, second: seq<Entry<T>>, format: T -> string,
                                             versionsOf: string -> seq<string>)
    ensures Releases(first + second, format, versionsOf) == Releases(first, format, versionsOf) + Releases(second, format, versionsOf)
    decreases |second|
  {
    if second != [] {
      var init := second[..|second| - 1];
      var block := EntryReleases(second[|second| - 1], format, versionsOf);
      ReleasesConcat(first, init, format, versionsOf);
      assert (first + second)[..|first + second| - 1] == first + init;
      assert (first + second)[|first + second| - 1] == second[|second| - 1];
      calc {
        Releases(first + second, format, versionsOf);
        Releases(first + init, format, versionsOf) + block;
        (Releases(first, format, versionsOf) + Releases(init, format, versionsOf)) + block;
        Releases(first, format, versionsOf) + (Releases(init, format, versionsOf) + block);
        Releases(first, format, versionsOf) + Releases(second, format, versionsOf);
      }
    } else {
      assert first + second == first;
    }
  }

  /** The number of versions over all entries. */
  function VersionCount<T>(entries: seq<Entry<T>>, versionsOf: string -> seq<string>): nat
  {
    if entries == [] then 0 else |versionsOf(entries[0].content)| + VersionCount(entries[1..], versionsOf)
  }

  /** There is one release per version of each entry; no entries give no releases. */
  lemma {:induction false} ReleasesLength<T>(entries: seq<Entry<T>>, format: T -> string, versionsOf: string -> seq<string>)
    ensures |Releases(entries, format, versionsOf)| == VersionCount(entries, versionsOf)
    decreases |entries|
  {
    if entries != [] {
      ReleasesLength(entries[1..], format, versionsOf);
      ReleasesConcat([entries[0]], entries[1..], format, versionsOf);
      assert [entries[0]] + entries[1..] == entries;
      assert [entries[0]][..0] == [];
    }
  }

  /**
   The releases of entry `i` sit together, right after those of the entries
   before it: its versions in order, each with its own entry's timestamp.
   */
  lemma EntryBlock<T>(entries: seq<Entry<T>>, format: T -> string, versionsOf: string -> seq<string>, i: nat)
    requires i < |entries|
    ensures var lo := |Releases(entries[..i], format, versionsOf)|;
      var versions := versionsOf(entries[i].content);
      lo + |versions| <= |Releases(entries, format, versionsOf)| &&
      forall k :: 0 <= k < |versions| ==>
        Releases(entries, format, versionsOf)[lo + k] == Release(versions[k], format(entries[i].updated))
  {
    ReleasesConcat(entries[..i + 1], entries[i + 1..], format, versionsOf);
    assert entries[..i + 1] + entries[i + 1..] == entries;
    assert entries[..i + 1][..i] == entries[..i];
  }

  /** Release `r` is one of the versions of entry `i`, with that entry's timestamp. */
  ghost predicate Stamped<T>(entries: seq<Entry<T>>, format: T -> string, versionsOf: string -> seq<string>, r: Release, i: int)
  {
    0 <= i < |entries| && r.version in versionsOf(entries[i].content) && r.releaseTimestamp == format(entries[i].updated)
  }

  /** Every release is a version of some entry, stamped with that entry's timestamp. */
  lemma {:induction false} ReleaseOrigin<T>(entries: seq<Entry<T>>, format: T -> string, versionsOf: string -> seq<string>)
    ensures forall r :: r in Releases(entries, format, versionsOf) ==> exists i :: Stamped(entries, format, versionsOf, r, i)
    decreases |entries|
  {
    if entries != [] {
      var init := entries[..|entries| - 1];
      var last := entries[|entries| - 1];
      ReleaseOrigin(init, format, versionsOf);
      forall r | r in Releases(entries, format, versionsOf)
        ensures exists i :: Stamped(entries, format, versionsOf, r, i)
      {
        if r in Releases(init, format, versionsOf) {
          var i :| Stamped(init, format, versionsOf, r, i);
          assert init[i] == entries[i];
          assert Stamped(entries, format, versionsOf, r, i);
        } else {
          var block := EntryReleases(last, format, versionsOf);
          var k :| 0 <= k < |block| && block[k] == r;
          assert versionsOf(last.content)[k] == r.version;
          assert Stamped(entries, format, versionsOf, r, |entries| - 1);
        }
      }
    }
  }

  /** The versions of a run of releases, in order. */
  function ReleaseVersions(releases: seq<Release>): seq<string>
  {
    seq(|releases|, k requires 0 <= k < |releases| => releases[k].version)
  }

  /** The number of entries whose versions include `v`. */
  function EntriesWith<T>(entries: seq<Entry<T>>, versionsOf: string -> seq<string>, v: string): nat
    decreases |entries|
  {
    if entries == [] then 0
    else EntriesWith(entries[..|entries| - 1], versionsOf, v) + (if v in versionsOf(entries[|entries| - 1].content) then 1 else 0)
  }

  /**
   There is no deduplication across entries: when each entry lists a version
   at most once, the version occurs among the releases exactly as many times
   as there are entries that list it.
   */
  lemma {:induction false} NoCrossEntryDedup<T>(entries: seq<Entry<T>>, format: T -> string,
                                                versionsOf: string -> seq<string>, v: string)
    requires forall i :: 0 <= i < |entries| ==> NoDuplicates(versionsOf(entries[i].content))
    ensures multiset(ReleaseVersions(Releases(entries, format, versionsOf)))[v] == EntriesWith(entries, versionsOf, v)
    decreases |entries|
  {
    if entries != [] {
      var init := entries[..|entries| - 1];
      var last := entries[|entries| - 1];
      NoCrossEntryDedup(init, format, versionsOf, v);
      var before := Releases(init, format, versionsOf);
      var block := EntryReleases(last, format, versionsOf);
      assert ReleaseVersions(before + block) == ReleaseVersions(before) + ReleaseVersions(block);
      assert ReleaseVersions(block) == versionsOf(last.content);
      NoDuplicatesCount(versionsOf(last.content), v);
    }
  }

  /**
   For the feed: a version announced by several entries is released once per
   entry, each time with that entry's timestamp.
   */
  lemma FeedVersionCount<T>(entries: seq<Entry<T>>, format: T -> string, v: string)
    ensures multiset(ReleaseVersions(Releases(entries, format, AvailableVersions)))[v] == EntriesWith(entries, AvailableVersions, v)
  {
    forall i | 0 <= i < |entries| ensures NoDuplicates(AvailableVersions(entries[i].content)) {
      AvailableVersionsDistinct(entries[i].content);
    }
    NoCrossEntryDedup(entries, format, AvailableVersions, v);
  }

}
