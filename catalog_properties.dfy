/**
 * What the catalog guarantees: which resources enter it and under which
 * group, version and name, that it keeps discovery order, and how a
 * discovery `GroupVersion` is split.
 */
module CatalogProperties {
  import opened GoStrings
  import opened Catalog

  /** The entry a listable resource of list `l` gives: the list's group and version, the resource's plural name. */
  function EntryFor(l: APIResourceList, r: APIResource): GroupVersionResource
  {
    var gv := SplitGroupVersion(l.groupVersion);
    GroupVersionResource(gv.0, gv.1, r.name)
  }

  /** An entry of one list's resources comes from a listable resource of that list, and each such resource gives one. */
  lemma {:induction false} EntriesOfMembership(group: string, version: string, rs: seq<APIResource>, e: GroupVersionResource)
    ensures e in EntriesOf(group, version, rs) <==>
      exists j :: 0 <= j < |rs| && Listable(rs[j]) && e == GroupVersionResource(group, version, rs[j].name)
    decreases |rs|
  {
    if rs != [] {
      var init := rs[..|rs| - 1];
      EntriesOfMembership(group, version, init, e);
      assert forall j :: 0 <= j < |init| ==> init[j] == rs[j];
    }
  }

  /** `e` is the entry of some namespaced, listable resource of list `l`. */
  predicate FromList(l: APIResourceList, e: GroupVersionResource)
  {
    exists j :: 0 <= j < |l.resources| && Listable(l.resources[j]) && e == EntryFor(l, l.resources[j])
  }

  /** The entries one list contributes are exactly those of its listable resources. */
  lemma ListEntriesMembership(l: APIResourceList, e: GroupVersionResource)
    ensures e in ListEntries(l) <==> FromList(l, e)
  {
    var gv := SplitGroupVersion(l.groupVersion);
    EntriesOfMembership(gv.0, gv.1, l.resources, e);
  }

  /** The catalog of non-empty lists is that of all but the last, followed by the last one's entries. */
  lemma CatalogSnoc(lists: seq<APIResourceList>)
    requires lists != []
    ensures CatalogOf(lists) == CatalogOf(lists[..|lists| - 1]) + ListEntries(lists[|lists| - 1])
  {
  }

  /** Some list of `lists` gives `e`. */
  predicate FromSomeList(lists: seq<APIResourceList>, e: GroupVersionResource)
  {
    exists i :: 0 <= i < |lists| && FromList(lists[i], e)
  }

  /** An element of `init + [last]` satisfies `p` iff one of `init` does or `last` does. */
  lemma ExistsSnoc<T>(xs: seq<T>, init: seq<T>, last: T, p: T -> bool)
    requires xs == init + [last]
    ensures (exists i :: 0 <= i < |xs| && p(xs[i])) <==> (exists i :: 0 <= i < |init| && p(init[i])) || p(last)
  {
    if exists i :: 0 <= i < |xs| && p(xs[i]) {
      var i :| 0 <= i < |xs| && p(xs[i]);
      if i < |init| {
        assert init[i] == xs[i];
      }
    }
    if exists i :: 0 <= i < |init| && p(init[i]) {
      var i :| 0 <= i < |init| && p(init[i]);
      assert xs[i] == init[i];
    }
    assert xs[|init|] == last;
  }

  /** Some list gives `e` iff one before the last does or the last one does. */
  lemma FromSomeListSnoc(lists: seq<APIResourceList>, e: GroupVersionResource)
    requires lists != []
    ensures FromSomeList(lists, e) <==> FromSomeList(lists[..|lists| - 1], e) || FromList(lists[|lists| - 1], e)
  {
    var init, last := lists[..|lists| - 1], lists[|lists| - 1];
    var p := (l: APIResourceList) => FromList(l, e);
    assert lists == init + [last];
    ExistsSnoc(lists, init, last, p);
    assert FromSomeList(lists, e) <==> exists i :: 0 <= i < |lists| && p(lists[i]);
    assert FromSomeList(init, e) <==> exists i :: 0 <= i < |init| && p(init[i]);
  }

  /**
   * A triple is in the catalog iff some discovery list holds a resource that
   * is namespaced and has a verb lower-casing to "list", and the triple is
   * that list's group and version with the resource's plural name (not its
   * kind).
   */
  lemma {:induction false} CatalogMembership(lists: seq<APIResourceList>, e: GroupVersionResource)
    ensures e in CatalogOf(lists) <==> exists i :: 0 <= i < |lists| && FromList(lists[i], e)
    decreases |lists|
  {
    if lists != [] {
      var init, last := lists[..|lists| - 1], lists[|lists| - 1];
      assert e in CatalogOf(lists) <==> e in CatalogOf(init) || e in ListEntries(last) by {
        CatalogSnoc(lists);
      }
      CatalogMembership(init, e);
      ListEntriesMembership(last, e);
      FromSomeListSnoc(lists, e);
    }
  }

  /** Order: the catalog of consecutive discovery results is the first one's catalog followed by the second's. */
  lemma {:induction false} CatalogAppend(a: seq<APIResourceList>, b: seq<APIResourceList>)
    ensures CatalogOf(a + b) == CatalogOf(a) + CatalogOf(b)
    decreases |b|
  {
    if b == [] {
      assert a + b == a;
    } else {
      var init, last := b[..|b| - 1], b[|b| - 1];
      var ab := a + b;
      assert CatalogOf(ab) == CatalogOf(a + init) + ListEntries(last) by {
        CatalogSnoc(ab);
        assert ab[..|ab| - 1] == a + init;
        assert ab[|ab| - 1] == last;
      }
      assert CatalogOf(a + init) == CatalogOf(a) + CatalogOf(init) by {
        CatalogAppend(a, init);
      }
      assert CatalogOf(b) == CatalogOf(init) + ListEntries(last) by {
        CatalogSnoc(b);
      }
      ConcatAssociates(CatalogOf(a), CatalogOf(init), ListEntries(last));
    }
  }

  /** Order within a list: the entries of consecutive resources are the first ones' entries followed by the second's. */
  lemma {:induction false} EntriesAppend(group: string, version: string, rs: seq<APIResource>, ss: seq<APIResource>)
    ensures EntriesOf(group, version, rs + ss) == EntriesOf(group, version, rs) + EntriesOf(group, version, ss)
    decreases |ss|
  {
    if ss == [] {
      assert rs + ss == rs;
    } else {
      EntriesAppend(group, version, rs, ss[..|ss| - 1]);
      assert (rs + ss)[..|rs + ss| - 1] == rs + ss[..|ss| - 1];
    }
  }

  /** A discovery list without resources contributes nothing, wherever it stands. */
  lemma EmptyListContributesNothing(before: seq<APIResourceList>, groupVersion: string, after: seq<APIResourceList>)
    ensures CatalogOf(before + [APIResourceList(groupVersion, [])] + after) == CatalogOf(before) + CatalogOf(after)
  {
    var empty := APIResourceList(groupVersion, []);
    var mid := before + [empty];
    assert CatalogOf(mid) == CatalogOf(before) by {
      assert mid[..|mid| - 1] == before;
      assert mid[|mid| - 1] == empty;
      assert ListEntries(empty) == [];
    }
    CatalogAppend(mid, after);
  }

  /** With no namespaced, listable resource anywhere in discovery, the catalog is empty. */
  lemma NothingListableEmptyCatalog(lists: seq<APIResourceList>)
    requires forall i, j :: 0 <= i < |lists| && 0 <= j < |lists[i].resources| ==> !Listable(lists[i].resources[j])
    ensures CatalogOf(lists) == []
  {
    if CatalogOf(lists) != [] {
      CatalogMembership(lists, CatalogOf(lists)[0]);
    }
  }

  /** A `group/version` text splits into its group and version. */
  lemma GroupedVersionSplits(group: string, version: string)
    requires Slash !in group && Slash !in version
    ensures SplitGroupVersion(group + [Slash] + version) == (group, version)
  {
    var s := group + [Slash] + version;
    assert s[..|group|] == group && s[|group| + 1..] == version;
    assert OneSlash(s);
    SplitGroupVersionSpec(s);
    var gv := SplitGroupVersion(s);
    IndexOfSlashAfterPiece(group, version);
    IndexOfSlashAfterPiece(gv.0, gv.1);
    assert |gv.0| == |group|;
    assert gv.0 == s[..|group|];
    assert gv.1 == s[|group| + 1..];
  }

  /** A bare version (the core group) gives an empty group and the whole text as version. */
  lemma CoreVersionSplits(version: string)
    requires Slash !in version
    ensures SplitGroupVersion(version) == ("", version)
  {
    SplitGroupVersionSpec(version);
  }

  /** Text with two or more separators gives an empty group and the text before the first one. */
  lemma ExtraSeparatorsDropGroup(a: string, b: string, c: string)
    requires Slash !in a
    ensures SplitGroupVersion(a + [Slash] + b + [Slash] + c) == ("", a)
  {
    var s := a + [Slash] + b + [Slash] + c;
    IndexOfSlashAfterPiece(a, b + [Slash] + c);
    assert s == a + [Slash] + (b + [Slash] + c);
    assert s[..|a|] == a;
    SplitGroupVersionSpec(s);
    assert !OneSlash(s) by {
      forall k | 0 <= k < |s| && s[k] == Slash && Slash !in s[..k]
        ensures Slash in s[k + 1..]
      {
        assert k == |a|;
        assert s[k + 1..][|b|] == Slash;
      }
    }
  }
}
