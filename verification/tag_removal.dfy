/**
 What removal by tag does to the pending-completion table. The component
 scans the dictionary's values in the dictionary's own (unspecified) order,
 stops at the first entry whose tag equals the argument, and removes that
 one entry; with no match it removes key NoSerialId. The manager, told the
 same tag, may remove any number of tasks.
 */
module TagRemoval {
  import opened Wrappers
  import opened DownloadComponent

  /** The keys of the entries carrying the tag. */
  ghost function TaggedKeys(t: map<int, DownloadData>, tag: NullableString): set<int> {
    set k | k in t && t[k].tag == tag
  }

  /** With a match, the entry removed is the first tagged one in enumeration
      order and every other entry stays. */
  lemma RemoveDownloadsRemovesFirstMatch(c: Component, tag: NullableString, order: seq<int>, managerCount: int)
    requires Valid(c) && IsEnumeration(c.downloads, order) && HasTagged(c.downloads, tag)
    ensures exists i ::
              && 0 <= i < |order| && TagMatches(c.downloads, order, i, tag)
              && (forall j :: 0 <= j < i ==> !TagMatches(c.downloads, order, j, tag))
              && RemoveDownloads(c, tag, order, managerCount).state.downloads == c.downloads - {order[i]}
  {
    var id := TaggedSerialId(c.downloads, tag, order);
    var i :| 0 <= i < |order| && TagMatches(c.downloads, order, i, tag) && id == c.downloads[order[i]].serialId
      && forall j :: 0 <= j < i ==> !TagMatches(c.downloads, order, j, tag);
    assert id == order[i];
  }

  /** Without a match only key NoSerialId is removed: the table is untouched
      unless an entry happens to be keyed NoSerialId, and that entry is then
      removed although its tag differs. */
  lemma RemoveDownloadsNoMatch(c: Component, tag: NullableString, order: seq<int>, managerCount: int)
    requires IsEnumeration(c.downloads, order) && !HasTagged(c.downloads, tag)
    ensures RemoveDownloads(c, tag, order, managerCount).state.downloads == c.downloads - {NoSerialId}
    ensures NoSerialId !in c.downloads ==> RemoveDownloads(c, tag, order, managerCount).state == c
  {
  }

  /** Removal by tag drops exactly one tagged entry from the table, however
      many carry the tag; the tasks the manager drops for the same tag are
      not bounded by this. */
  lemma RemoveDownloadsDropsOneTagged(c: Component, tag: NullableString, order: seq<int>, managerCount: int)
    requires Valid(c) && IsEnumeration(c.downloads, order) && HasTagged(c.downloads, tag)
    ensures var r := RemoveDownloads(c, tag, order, managerCount).state;
      |TaggedKeys(r.downloads, tag)| == |TaggedKeys(c.downloads, tag)| - 1
      && |r.downloads| == |c.downloads| - 1
  {
    RemoveDownloadsRemovesFirstMatch(c, tag, order, managerCount);
    var i :| 0 <= i < |order| && TagMatches(c.downloads, order, i, tag)
      && RemoveDownloads(c, tag, order, managerCount).state.downloads == c.downloads - {order[i]};
    var r := RemoveDownloads(c, tag, order, managerCount).state;
    var victim := order[i];
    assert TaggedKeys(r.downloads, tag) == TaggedKeys(c.downloads, tag) - {victim};
    assert r.downloads.Keys == c.downloads.Keys - {victim};
  }

  /** The discrepancy with the manager: of two entries with the same tag, at
      least one is still in the table after removal by that tag. */
  lemma RemoveDownloadsLeavesOtherMatch(c: Component, tag: NullableString, order: seq<int>, managerCount: int, k1: int, k2: int)
    requires Valid(c) && IsEnumeration(c.downloads, order)
    requires k1 in c.downloads && k2 in c.downloads && k1 != k2
    requires c.downloads[k1].tag == tag && c.downloads[k2].tag == tag
    ensures var r := RemoveDownloads(c, tag, order, managerCount).state;
      (k1 in r.downloads && r.downloads[k1] == c.downloads[k1] && Unresolved(r, c.downloads[k1].tcs))
      || (k2 in r.downloads && r.downloads[k2] == c.downloads[k2] && Unresolved(r, c.downloads[k2].tcs))
  {
    assert HasTagged(c.downloads, tag);
    RemoveDownloadsRemovesFirstMatch(c, tag, order, managerCount);
  }
}
