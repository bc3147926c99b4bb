/**
 * The resource-kind catalog built at start-up: from the discovery result,
 * every resource that is namespaced and can be listed, as a
 * (group, version, plural resource name) triple, in discovery order.
 */
module Catalog {
  import opened GoStrings

  /** One resource of a discovery list. `name` is the plural resource name. */
  datatype APIResource = APIResource(name: string, kind: string, namespaced: bool, verbs: seq<string>)

  /** The resources discovery reports for one `group/version` (or bare `version`). */
  datatype APIResourceList = APIResourceList(groupVersion: string, resources: seq<APIResource>)

  /** The outcome of asking the cluster for its groups and resources. */
  datatype Discovery = DiscoveryFailed | Discovered(lists: seq<APIResourceList>)

  /** One catalog entry: the resource an informer is started for. */
  datatype GroupVersionResource = GroupVersionResource(group: string, version: string, resource: string)

  /**
   * The group and version of a discovery list: when `strings.Split` on "/"
   * gives exactly two parts, those; otherwise an empty group and the first
   * part as version.
   */
  function SplitGroupVersion(groupVersion: string): (string, string)
  {
    var parts := Split(groupVersion);
    if |parts| == 2 then (parts[0], parts[1]) else ("", parts[0])
  }

  /**
   * What the split means for the text: with exactly one separator, the group
   * and version are the parts around it; otherwise the group is empty and
   * the version is the text before the first separator.
   */
  lemma SplitGroupVersionSpec(groupVersion: string)
    ensures var gv := SplitGroupVersion(groupVersion);
      OneSlash(groupVersion) ==>
        groupVersion == gv.0 + [Slash] + gv.1 && Slash !in gv.0 && Slash !in gv.1
    ensures var gv := SplitGroupVersion(groupVersion);
      !OneSlash(groupVersion) ==>
        gv.0 == "" && gv.1 == groupVersion[..IndexOfSlash(groupVersion)]
  {
    SplitInTwo(groupVersion);
    SplitFirstPiece(groupVersion);
    var parts := Split(groupVersion);
    if |parts| == 2 {
      assert parts[1..] == [parts[1]];
    }
  }

  /** A resource is catalogued iff it is namespaced and one of its verbs lower-cases to "list". */
  predicate Listable(r: APIResource)
  {
    r.namespaced && exists k :: 0 <= k < |r.verbs| && Lower(r.verbs[k]) == "list"
  }

  /** The entries of one list's resources, in order, under the given group and version. */
  function EntriesOf(group: string, version: string, rs: seq<APIResource>): seq<GroupVersionResource>
  {
    if rs == [] then []
    else
      var last := rs[|rs| - 1];
      EntriesOf(group, version, rs[..|rs| - 1])
        + (if Listable(last) then [GroupVersionResource(group, version, last.name)] else [])
  }

  /** The entries one discovery list contributes; an empty list contributes none. */
  function ListEntries(l: APIResourceList): seq<GroupVersionResource>
  {
    if |l.resources| == 0 then []
    else
      var gv := SplitGroupVersion(l.groupVersion);
      EntriesOf(gv.0, gv.1, l.resources)
  }

  /** The catalog the discovery lists give, in discovery order. */
  function CatalogOf(lists: seq<APIResourceList>): seq<GroupVersionResource>
  {
    if lists == [] then [] else CatalogOf(lists[..|lists| - 1]) + ListEntries(lists[|lists| - 1])
  }

  /** The verb scan of one resource: sets the flag when it is namespaced and a verb lower-cases to "list". */
  method CheckListable(apiresource: APIResource) returns (validAPIResource: bool)
    ensures validAPIResource == Listable(apiresource)
  {
    validAPIResource := false;
    for k := 0 to |apiresource.verbs|
      invariant validAPIResource <==>
        apiresource.namespaced && exists m :: 0 <= m < k && Lower(apiresource.verbs[m]) == "list"
    {
      if apiresource.namespaced && Lower(apiresource.verbs[k]) == "list" {
        validAPIResource := true;
      }
    }
  }

  /** The entries one list's resources add, each listable one in turn. */
  method AppendResources(group: string, version: string, resources: seq<APIResource>,
                         cacheSynced: GroupVersionResource -> bool)
    returns (entries: seq<GroupVersionResource>)
    ensures entries == EntriesOf(group, version, resources)
  {
    entries := [];
    for j := 0 to |resources|
      invariant entries == EntriesOf(group, version, resources[..j])
    {
      assert resources[..j + 1][..j] == resources[..j];
      var apiresource := resources[j];
      var validAPIResource := CheckListable(apiresource);
      if !validAPIResource {
        continue;
      }
      var groupVersionResource := GroupVersionResource(group, version, apiresource.name);
      // The informer for it is started and its cache sync awaited; a failed sync is only logged.
      var synced := cacheSynced(groupVersionResource);
      entries := entries + [groupVersionResource];
    }
    assert resources[..|resources|] == resources;
  }

  /**
   * The catalog part of `clientInit`: a discovery failure returns the error
   * before any entry is added; otherwise every listable resource of every
   * non-empty list is appended, in discovery order. A resource whose
   * informer cache failed to sync is still appended.
   */
  method BuildCatalog(discovery: Discovery, cacheSynced: GroupVersionResource -> bool)
    returns (informers: seq<GroupVersionResource>, failed: bool)
    ensures failed <==> discovery.DiscoveryFailed?
    ensures failed ==> informers == []
    ensures !failed ==> informers == CatalogOf(discovery.lists)
  {
    informers := [];
    if discovery.DiscoveryFailed? {
      return informers, true;
    }
    var apiresourceLists := discovery.lists;
    for i := 0 to |apiresourceLists|
      invariant informers == CatalogOf(apiresourceLists[..i])
    {
      assert apiresourceLists[..i + 1][..i] == apiresourceLists[..i];
      var apiresourceList := apiresourceLists[i];
      if |apiresourceList.resources| == 0 {
        continue;
      }
      var (group, version) := SplitGroupVersion(apiresourceList.groupVersion);
      var entries := AppendResources(group, version, apiresourceList.resources, cacheSynced);
      informers := informers + entries;
    }
    assert apiresourceLists[..|apiresourceLists|] == apiresourceLists;
    return informers, false;
  }
}
