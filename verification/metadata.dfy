/**
 * The pure part of the NuGet metadata provider: turning the entries every
 * package source returned for one id into the provider's answer, a list of
 * version nodes that is de-duplicated across sources (first source wins),
 * capped to the newest `maxVersions`, and ascending.
 *
 * Fetching the entries from the sources is left to the caller: each source's
 * entries are an input, in source order.
 */
module Metadata {
  import opened Wrappers
  import opened Versions
  import opened Domain

  /** A dependency as a feed reports it; the range may be missing. */
  datatype PackageDependency = PackageDependency(id: PackageId, versionRange: Option<VersionRange>)

  /** A feed's dependency set: its target framework's short folder name and its packages, either possibly missing. */
  datatype PackageDependencyGroup = PackageDependencyGroup(
    targetFramework: Option<Moniker>,
    packages: Option<seq<PackageDependency>>)

  /** One version's metadata as a feed reports it. */
  datatype PackageSearchMetadata = PackageSearchMetadata(
    id: PackageId,
    version: Version,
    published: Option<int>,
    dependencySets: Option<seq<PackageDependencyGroup>>)

  /** The entries one source returned, with the source's display name (if any) and location. */
  datatype SourceEntries = SourceEntries(name: Option<string>, source: string, entries: seq<PackageSearchMetadata>)

  /** An entry together with the name of the source it came from. */
  datatype Fetched = Fetched(metadata: PackageSearchMetadata, sourceName: string)

  /** A source is named by its display name, or by its location when it has none. */
  function SourceName(s: SourceEntries): string {
    s.name.GetOr(s.source)
  }

  // ----- Whitespace check on the requested id -----

  /** .NET's `char.IsWhiteSpace`: the Unicode space, line and paragraph separators plus the control whitespace. */
  predicate IsWhiteSpace(c: char) {
    || c == ' '
    || ('\t' <= c <= '\r')
    || c == '\U{85}' || c == '\U{A0}' || c == '\U{1680}'
    || ('\U{2000}' <= c <= '\U{200A}')
    || c == '\U{2028}' || c == '\U{2029}' || c == '\U{202F}' || c == '\U{205F}' || c == '\U{3000}'
  }

  /** `string.IsNullOrWhiteSpace` for a non-null string: empty, or whitespace only. */
  predicate IsNullOrWhiteSpace(s: string) {
    forall i | 0 <= i < |s| :: IsWhiteSpace(s[i])
  }

  // ----- Converting a feed entry into a version node -----

  function ToDependency(d: PackageDependency): DependencyInfo {
    DependencyInfo(d.id, Some(d.versionRange.GetOr(All)), false, false)
  }

  function ToDependencies(ps: Option<seq<PackageDependency>>): seq<DependencyInfo> {
    match ps
    case None => []
    case Some(ds) => seq(|ds|, i requires 0 <= i < |ds| => ToDependency(ds[i]))
  }

  function ToGroup(g: PackageDependencyGroup): DependencyGroupInfo {
    DependencyGroupInfo(g.targetFramework.GetOr(AnyMoniker), ToDependencies(g.packages))
  }

  function ToGroups(sets: Option<seq<PackageDependencyGroup>>): seq<DependencyGroupInfo> {
    match sets
    case None => []
    case Some(gs) => seq(|gs|, i requires 0 <= i < |gs| => ToGroup(gs[i]))
  }

  function ToNode(f: Fetched): PackageVersionNode {
    PackageVersionNode(f.metadata.id, f.metadata.version, f.sourceName, f.metadata.published,
                       ToGroups(f.metadata.dependencySets))
  }

  /**
   * The defaults applied while converting: missing dependency sets give no
   * groups, a set without a framework becomes an "any" group, a missing
   * package list gives no dependencies, and a dependency without a range is
   * recorded with the all-versions range; nothing else is dropped.
   */
  lemma ConversionDefaults(f: Fetched)
    ensures f.metadata.dependencySets.None? ==> ToNode(f).dependencyGroups == []
    ensures f.metadata.dependencySets.Some? ==>
      var sets := f.metadata.dependencySets.value;
      var groups := ToNode(f).dependencyGroups;
      && |groups| == |sets|
      && forall i | 0 <= i < |sets| ::
        && (sets[i].targetFramework.None? ==> groups[i].targetFrameworkMoniker == AnyMoniker)
        && (sets[i].packages.None? ==> groups[i].dependencies == [])
        && (sets[i].packages.Some? ==>
              && |groups[i].dependencies| == |sets[i].packages.value|
              && forall j | 0 <= j < |sets[i].packages.value| ::
                 && groups[i].dependencies[j].packageId == sets[i].packages.value[j].id
                 && (sets[i].packages.value[j].versionRange.None? ==>
                       groups[i].dependencies[j].versionRange == Some(All)))
  {
  }

  // ----- The order in which entries are examined -----

  /** One source's entries, each tagged with the source's name. */
  function Tagged(s: SourceEntries): (r: seq<Fetched>)
    ensures |r| == |s.entries|
    ensures forall y | 0 <= y < |s.entries| :: r[y] == Fetched(s.entries[y], SourceName(s))
  {
    seq(|s.entries|, y requires 0 <= y < |s.entries| => Fetched(s.entries[y], SourceName(s)))
  }

  /** Each source's tagged entries, source by source. */
  function Batches(sources: seq<SourceEntries>): (r: seq<seq<Fetched>>)
    ensures |r| == |sources|
    ensures forall c | 0 <= c < |sources| :: r[c] == Tagged(sources[c])
  {
    seq(|sources|, c requires 0 <= c < |sources| => Tagged(sources[c]))
  }

  function Flatten(batches: seq<seq<Fetched>>): seq<Fetched> {
    if |batches| == 0 then [] else batches[0] + Flatten(batches[1..])
  }

  /** All entries in the order the provider examines them: sources in order, each source's entries in order. */
  function Stream(sources: seq<SourceEntries>): seq<Fetched> {
    Flatten(Batches(sources))
  }

  /** Where batch `c` starts in the flattened sequence. */
  function Offset(batches: seq<seq<Fetched>>, c: nat): nat
    requires c <= |batches|
  {
    if c == 0 then 0 else |batches[0]| + Offset(batches[1..], c - 1)
  }

  /** Entry `y` of batch `c` sits at position `Offset(batches, c) + y` of the flattened sequence. */
  lemma {:induction false} FlattenAt(batches: seq<seq<Fetched>>, c: nat, y: nat)
    requires c < |batches| && y < |batches[c]|
    ensures Offset(batches, c) + y < |Flatten(batches)|
    ensures Flatten(batches)[Offset(batches, c) + y] == batches[c][y]
  {
    if c > 0 {
      FlattenAt(batches[1..], c - 1, y);
    }
  }

  /** Every position of the flattened sequence belongs to one entry of one batch. */
  lemma {:induction false} FlattenLocate(batches: seq<seq<Fetched>>, i: nat) returns (c: nat, y: nat)
    requires i < |Flatten(batches)|
    ensures c < |batches| && y < |batches[c]| && i == Offset(batches, c) + y
  {
    if i < |batches[0]| {
      c, y := 0, i;
    } else {
      var c', y' := FlattenLocate(batches[1..], i - |batches[0]|);
      c, y := c' + 1, y';
    }
  }

  /** A later batch's entries all come after every entry of an earlier batch. */
  lemma {:induction false} OffsetMonotone(batches: seq<seq<Fetched>>, c: nat, c': nat)
    requires c < c' <= |batches|
    ensures Offset(batches, c) + |batches[c]| <= Offset(batches, c')
  {
    if c > 0 {
      OffsetMonotone(batches[1..], c - 1, c' - 1);
    } else if c' > 1 {
      OffsetMonotone(batches[1..], 0, c' - 1);
    }
  }

  // ----- De-duplication: the first entry of each version wins -----

  function Rank(f: Fetched): nat {
    f.metadata.version.rank
  }

  /** Entry `i` is the first in the stream with its version. */
  predicate FirstOfRank(stream: seq<Fetched>, i: int) {
    && 0 <= i < |stream|
    && forall j | 0 <= j < i :: Rank(stream[j]) != Rank(stream[i])
  }

  predicate HasRank(nodes: seq<PackageVersionNode>, k: nat) {
    exists j | 0 <= j < |nodes| :: nodes[j].version.rank == k
  }

  predicate DistinctRanks(nodes: seq<PackageVersionNode>) {
    forall i, j | 0 <= i < j < |nodes| :: nodes[i].version.rank != nodes[j].version.rank
  }

  /** Node `n` is the one built from the first entry of its version. */
  predicate FromFirstEntry(stream: seq<Fetched>, n: PackageVersionNode) {
    exists i | 0 <= i < |stream| && FirstOfRank(stream, i) :: n == ToNode(stream[i])
  }

  /** Every node of `nodes` is built from the first entry of its version. */
  predicate AllFromFirstEntries(stream: seq<Fetched>, nodes: seq<PackageVersionNode>) {
    forall k | 0 <= k < |nodes| :: FromFirstEntry(stream, nodes[k])
  }

  /** The version of entry `f` is among `nodes`. */
  predicate Listed(nodes: seq<PackageVersionNode>, f: Fetched) {
    HasRank(nodes, Rank(f))
  }

  /** Every version in the stream is among `nodes`. */
  predicate AllListed(stream: seq<Fetched>, nodes: seq<PackageVersionNode>) {
    forall i {:trigger Listed(nodes, stream[i])} | 0 <= i < |stream| :: Listed(nodes, stream[i])
  }

  /**
   * The version-keyed dictionary the provider fills, as a list in insertion
   * order: an entry whose version is already recorded is skipped.
   */
  function Dedupe(stream: seq<Fetched>): (r: seq<PackageVersionNode>)
    ensures DistinctRanks(r)
    ensures AllFromFirstEntries(stream, r)
    ensures AllListed(stream, r)
    decreases |stream|
  {
    if |stream| == 0 then []
    else
      var prefix := stream[..|stream| - 1];
      var prev := Dedupe(prefix);
      var last := stream[|stream| - 1];
      if HasRank(prev, Rank(last)) then
        DedupeKeep(stream, prev);
        prev
      else
        DedupeAdd(stream, prev);
        prev + [ToNode(last)]
  }

  /** A first-of-its-version entry of a prefix is still first in the whole stream. */
  lemma FromFirstEntryExtends(stream: seq<Fetched>, n: PackageVersionNode)
    requires |stream| > 0 && FromFirstEntry(stream[..|stream| - 1], n)
    ensures FromFirstEntry(stream, n)
  {
    var prefix := stream[..|stream| - 1];
    var i :| 0 <= i < |prefix| && FirstOfRank(prefix, i) && n == ToNode(prefix[i]);
    assert forall j | 0 <= j <= i :: prefix[j] == stream[j];
    assert FirstOfRank(stream, i);
  }

  lemma DedupeKeep(stream: seq<Fetched>, prev: seq<PackageVersionNode>)
    requires |stream| > 0
    requires AllFromFirstEntries(stream[..|stream| - 1], prev)
    requires AllListed(stream[..|stream| - 1], prev)
    requires HasRank(prev, Rank(stream[|stream| - 1]))
    ensures AllFromFirstEntries(stream, prev)
    ensures AllListed(stream, prev)
  {
    forall k | 0 <= k < |prev|
      ensures FromFirstEntry(stream, prev[k])
    {
      FromFirstEntryExtends(stream, prev[k]);
    }
    ListedExtends(stream, prev);
  }

  /** When the last entry's version is already listed, everything in the stream is. */
  lemma ListedExtends(stream: seq<Fetched>, prev: seq<PackageVersionNode>)
    requires |stream| > 0
    requires AllListed(stream[..|stream| - 1], prev)
    requires Listed(prev, stream[|stream| - 1])
    ensures AllListed(stream, prev)
  {
    var prefix := stream[..|stream| - 1];
    forall i | 0 <= i < |stream|
      ensures Listed(prev, stream[i])
    {
      if i < |prefix| {
        assert stream[i] == prefix[i];
        assert Listed(prev, prefix[i]);
      }
    }
  }

  lemma DedupeAdd(stream: seq<Fetched>, prev: seq<PackageVersionNode>)
    requires |stream| > 0
    requires DistinctRanks(prev)
    requires AllFromFirstEntries(stream[..|stream| - 1], prev)
    requires AllListed(stream[..|stream| - 1], prev)
    requires !HasRank(prev, Rank(stream[|stream| - 1]))
    ensures DistinctRanks(prev + [ToNode(stream[|stream| - 1])])
    ensures AllFromFirstEntries(stream, prev + [ToNode(stream[|stream| - 1])])
    ensures AllListed(stream, prev + [ToNode(stream[|stream| - 1])])
  {
    var prefix := stream[..|stream| - 1];
    var n := |stream| - 1;
    var r := prev + [ToNode(stream[n])];
    forall j | 0 <= j < n
      ensures Rank(stream[j]) != Rank(stream[n])
    {
      assert stream[j] == prefix[j];
      assert Listed(prev, prefix[j]);
    }
    assert FirstOfRank(stream, n);
    forall k | 0 <= k < |r|
      ensures FromFirstEntry(stream, r[k])
    {
      if k < |prev| {
        FromFirstEntryExtends(stream, prev[k]);
      } else {
        assert r[k] == ToNode(stream[n]);
      }
    }
    forall i | 0 <= i < |stream|
      ensures Listed(r, stream[i])
    {
      if i < n {
        assert stream[i] == prefix[i];
        assert Listed(prev, prefix[i]);
        var j :| 0 <= j < |prev| && prev[j].version.rank == Rank(prefix[i]);
        assert r[j] == prev[j];
      } else {
        assert r[|prev|].version.rank == Rank(stream[n]);
      }
    }
  }

  // ----- Keeping the newest N -----

  predicate StrictlyDescending(s: seq<PackageVersionNode>) {
    forall i, j | 0 <= i < j < |s| :: s[i].version.rank > s[j].version.rank
  }

  /** Inserts `x` into a newest-first list, keeping it newest-first. */
  function InsertDescending(x: PackageVersionNode, s: seq<PackageVersionNode>): (r: seq<PackageVersionNode>)
    requires StrictlyDescending(s)
    requires forall j | 0 <= j < |s| :: s[j].version.rank != x.version.rank
    ensures StrictlyDescending(r)
    ensures |r| > 0 && (r[0] == x || (|s| > 0 && r[0] == s[0]))
  {
    if |s| == 0 then [x]
    else if s[0].version.rank < x.version.rank then
      ConsDescending(x, s);
      [x] + s
    else
      assert s == [s[0]] + s[1..];
      var rest := InsertDescending(x, s[1..]);
      ConsDescending(s[0], rest);
      [s[0]] + rest
  }

  /** Insertion adds exactly `x` to the list's contents. */
  lemma {:induction false} InsertDescendingPermutes(x: PackageVersionNode, s: seq<PackageVersionNode>)
    requires StrictlyDescending(s)
    requires forall j | 0 <= j < |s| :: s[j].version.rank != x.version.rank
    ensures multiset(InsertDescending(x, s)) == multiset(s) + multiset{x}
  {
    if |s| > 0 && s[0].version.rank >= x.version.rank {
      assert s == [s[0]] + s[1..];
      InsertDescendingPermutes(x, s[1..]);
    }
  }

  /** A head newer than the first element of a newest-first list extends it. */
  lemma ConsDescending(h: PackageVersionNode, t: seq<PackageVersionNode>)
    requires StrictlyDescending(t)
    requires |t| > 0 ==> h.version.rank > t[0].version.rank
    ensures StrictlyDescending([h] + t)
  {
    forall i, j | 0 <= i < j < |[h] + t|
      ensures ([h] + t)[i].version.rank > ([h] + t)[j].version.rank
    {
      if i == 0 && j > 1 {
        assert t[0].version.rank > t[j - 1].version.rank;
      }
    }
  }

  lemma MemberOfPermutation(s: seq<PackageVersionNode>, t: seq<PackageVersionNode>, j: int)
    requires multiset(s) == multiset(t) && 0 <= j < |s|
    ensures exists i | 0 <= i < |t| :: t[i] == s[j]
  {
    assert s[j] in multiset(s);
    assert s[j] in t;
  }

  lemma SortedRestAvoidsHead(s: seq<PackageVersionNode>, rest: seq<PackageVersionNode>)
    requires DistinctRanks(s) && |s| > 0
    requires multiset(rest) == multiset(s[1..])
    ensures forall j | 0 <= j < |rest| :: rest[j].version.rank != s[0].version.rank
    ensures multiset(s) == multiset(rest) + multiset{s[0]}
  {
    forall j | 0 <= j < |rest|
      ensures rest[j].version.rank != s[0].version.rank
    {
      MemberOfPermutation(rest, s[1..], j);
    }
    assert s == [s[0]] + s[1..];
  }

  /** Orders distinct versions newest first (LINQ's `OrderByDescending`). */
  function SortDescending(s: seq<PackageVersionNode>): (r: seq<PackageVersionNode>)
    requires DistinctRanks(s)
    ensures StrictlyDescending(r)
    ensures multiset(r) == multiset(s)
  {
    if |s| == 0 then []
    else
      var rest := SortDescending(s[1..]);
      SortedRestAvoidsHead(s, rest);
      InsertDescendingPermutes(s[0], rest);
      InsertDescending(s[0], rest)
  }

  /** How many versions `Take(maxVersions)` keeps out of `available`. */
  function KeepCount(maxVersions: int, available: nat): (n: nat)
    ensures n <= available
    ensures maxVersions <= 0 ==> n == 0
    ensures maxVersions > 0 ==> n <= maxVersions && (n < maxVersions ==> n == available)
  {
    if maxVersions <= 0 then 0 else if maxVersions < available then maxVersions else available
  }

  /**
   * Reverses a list. On a strictly descending list this is the only
   * ascending arrangement, i.e. the provider's final `OrderBy` re-sort.
   */
  function Reverse<T>(s: seq<T>): (r: seq<T>)
    ensures |r| == |s|
    ensures forall i | 0 <= i < |s| :: r[i] == s[|s| - 1 - i]
  {
    seq(|s|, i requires 0 <= i < |s| => s[|s| - 1 - i])
  }

  /** Reversing a newest-first list re-sorts it oldest-first and keeps exactly its nodes. */
  lemma {:induction false} ReverseReorders(s: seq<PackageVersionNode>)
    ensures multiset(Reverse(s)) == multiset(s)
    ensures StrictlyDescending(s) ==> StrictlyAscending(Reverse(s))
  {
    if |s| > 0 {
      ReverseReorders(s[1..]);
      assert Reverse(s) == Reverse(s[1..]) + [s[0]];
      assert s == [s[0]] + s[1..];
    }
  }

  /** Entry `f`'s version is kept, or it is older than every kept version. */
  predicate ListedOrOlder(nodes: seq<PackageVersionNode>, f: Fetched) {
    Listed(nodes, f) || forall k | 0 <= k < |nodes| :: Rank(f) < nodes[k].version.rank
  }

  /** Every version in the stream is kept, or older than every kept one. */
  predicate OnlyOlderDropped(stream: seq<Fetched>, nodes: seq<PackageVersionNode>) {
    forall i {:trigger ListedOrOlder(nodes, stream[i])} | 0 <= i < |stream| :: ListedOrOlder(nodes, stream[i])
  }

  /**
   * The provider's post-processing of the fetched entries: first entry of
   * each version wins, newest `maxVersions` kept, ascending order.
   */
  function NewestVersions(stream: seq<Fetched>, maxVersions: int): (r: seq<PackageVersionNode>)
    ensures StrictlyAscending(r)
    ensures maxVersions <= 0 ==> r == []
    ensures maxVersions > 0 ==> |r| <= maxVersions
    ensures AllFromFirstEntries(stream, r)
    ensures OnlyOlderDropped(stream, r)
    ensures |r| < maxVersions ==> AllListed(stream, r)
  {
    var all := Dedupe(stream);
    var sorted := SortDescending(all);
    var kept := sorted[..KeepCount(maxVersions, |sorted|)];
    NewestVersionsProperties(stream, all, sorted, kept);
    Reverse(kept)
  }

  lemma NewestVersionsProperties(
    stream: seq<Fetched>, all: seq<PackageVersionNode>, sorted: seq<PackageVersionNode>, kept: seq<PackageVersionNode>)
    requires AllFromFirstEntries(stream, all) && AllListed(stream, all)
    requires StrictlyDescending(sorted) && multiset(sorted) == multiset(all)
    requires kept <= sorted
    ensures StrictlyAscending(Reverse(kept))
    ensures AllFromFirstEntries(stream, Reverse(kept))
    ensures OnlyOlderDropped(stream, Reverse(kept))
    ensures |kept| == |sorted| ==> AllListed(stream, Reverse(kept))
  {
    var r := Reverse(kept);
    forall k | 0 <= k < |r|
      ensures FromFirstEntry(stream, r[k])
    {
      var m := |kept| - 1 - k;
      assert r[k] == sorted[m];
      MemberOfPermutation(sorted, all, m);
    }
    forall i | 0 <= i < |stream|
      ensures ListedOrOlder(r, stream[i])
      ensures |kept| == |sorted| ==> Listed(r, stream[i])
    {
      assert Listed(all, stream[i]);
      var j :| 0 <= j < |all| && all[j].version.rank == Rank(stream[i]);
      MemberOfPermutation(all, sorted, j);
      var m :| 0 <= m < |sorted| && sorted[m] == all[j];
      if m < |kept| {
        assert r[|kept| - 1 - m] == sorted[m];
      } else {
        forall k | 0 <= k < |r|
          ensures Rank(stream[i]) < r[k].version.rank
        {
          assert r[k] == sorted[|kept| - 1 - k];
        }
      }
    }
  }

  /**
   * `GetPackageVersionsAsync` after the fetches: an empty or whitespace id is
   * rejected before any source is looked at; otherwise the entries of all
   * sources, in source order, are post-processed.
   */
  function GetPackageVersions(packageId: PackageId, sources: seq<SourceEntries>, maxVersions: int)
    : (r: Result<seq<PackageVersionNode>, FetchError>)
    ensures IsNullOrWhiteSpace(packageId) <==> r.Failure?
    ensures r.Failure? ==> r.error == ArgumentError("packageId")
    ensures r.Success? ==> StrictlyAscending(r.value)
  {
    if IsNullOrWhiteSpace(packageId) then Failure(ArgumentError("packageId"))
    else Success(NewestVersions(Stream(sources), maxVersions))
  }

  /** A flattened position no later than entry `y` of batch `c` belongs to an entry of that batch or an earlier one. */
  lemma EarlierEntry(batches: seq<seq<Fetched>>, i: nat, c: nat, y: nat) returns (c': nat, y': nat)
    requires c < |batches| && y < |batches[c]|
    requires i <= Offset(batches, c) + y
    ensures c' < |batches| && y' < |batches[c']|
    ensures c' < c || (c' == c && y' <= y)
    ensures i < |Flatten(batches)| && Flatten(batches)[i] == batches[c'][y']
  {
    FlattenAt(batches, c, y);
    c', y' := FlattenLocate(batches, i);
    FlattenAt(batches, c', y');
    if c < c' {
      OffsetMonotone(batches, c, c');
      assert false;
    }
  }

  /** The node kept for a version is built from the first entry of the stream with that version. */
  lemma KeptFromFirstEntry(stream: seq<Fetched>, maxVersions: int, k: nat, p: nat) returns (i: nat)
    requires k < |NewestVersions(stream, maxVersions)|
    requires p < |stream| && Rank(stream[p]) == NewestVersions(stream, maxVersions)[k].version.rank
    ensures i <= p
    ensures NewestVersions(stream, maxVersions)[k] == ToNode(stream[i])
  {
    var r := NewestVersions(stream, maxVersions);
    assert FromFirstEntry(stream, r[k]);
    i :| 0 <= i < |stream| && FirstOfRank(stream, i) && r[k] == ToNode(stream[i]);
  }

  /** Entry `y` of source `c` sits at stream position `p`. */
  lemma StreamPosition(sources: seq<SourceEntries>, c: nat, y: nat) returns (p: nat)
    requires c < |sources| && y < |sources[c].entries|
    ensures p < |Stream(sources)| && Stream(sources)[p] == Fetched(sources[c].entries[y], SourceName(sources[c]))
    ensures p == Offset(Batches(sources), c) + y
  {
    FlattenAt(Batches(sources), c, y);
    p := Offset(Batches(sources), c) + y;
  }

  /** A stream position no later than entry `y` of source `c` holds an entry of that source or an earlier one. */
  lemma StreamEarlier(sources: seq<SourceEntries>, i: nat, c: nat, y: nat) returns (c': nat, y': nat)
    requires c < |sources| && y < |sources[c].entries|
    requires i <= Offset(Batches(sources), c) + y
    ensures c' < |sources| && y' < |sources[c'].entries|
    ensures c' < c || (c' == c && y' <= y)
    ensures i < |Stream(sources)| && Stream(sources)[i] == Fetched(sources[c'].entries[y'], SourceName(sources[c']))
  {
    c', y' := EarlierEntry(Batches(sources), i, c, y);
  }

  /**
   * Across sources the first one wins: a kept version that also appears as
   * entry `y` of source `c` is the node built from an entry that comes no
   * later — from an earlier source, or from source `c` at or before `y`.
   */
  lemma FirstSourceWins(sources: seq<SourceEntries>, maxVersions: int, k: nat, c: nat, y: nat)
    returns (c': nat, y': nat)
    requires k < |NewestVersions(Stream(sources), maxVersions)|
    requires c < |sources| && y < |sources[c].entries|
    requires sources[c].entries[y].version.rank == NewestVersions(Stream(sources), maxVersions)[k].version.rank
    ensures c' < |sources| && y' < |sources[c'].entries|
    ensures c' < c || (c' == c && y' <= y)
    ensures NewestVersions(Stream(sources), maxVersions)[k]
            == ToNode(Fetched(sources[c'].entries[y'], SourceName(sources[c'])))
  {
    var p := StreamPosition(sources, c, y);
    var i := KeptFromFirstEntry(Stream(sources), maxVersions, k, p);
    c', y' := StreamEarlier(sources, i, c, y);
  }
}
