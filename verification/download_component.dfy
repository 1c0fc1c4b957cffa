/**
 The pending-completion table of the download component.

 The component forwards every request to a download manager and keeps, per
 serial id, a record of the url, tag and user data together with a
 single-resolution completion source that awaiting callers observe. The
 manager is an oracle here: whatever it returns (a serial id, an exception,
 a flag or a count) is a parameter, and every operation reports the call it
 forwarded so that contracts can speak about it.

 Completion sources are identified by the order in which they were created:
 `completions[h]` is the state of the h-th source ever created, `None` while
 unresolved and `Some(b)` once resolved to `b`. An awaiter keeps its handle
 after the table forgets it, so `completions` is never shortened.
 */
module DownloadComponent {
  import opened Wrappers

  /** Priority forwarded by every overload that takes none. */
  const DefaultPriority: int := 0

  /** Serial id that tag removal falls back to when no entry carries the tag. */
  const NoSerialId: int := -1

  /** A C# string reference; `None` stands for null. */
  type NullableString = Option<string>

  /** A user-data object reference: `None` is null, `Some(n)` the object with identity n. */
  type UserData = Option<nat>

  /** Identity of a completion source: its position in creation order. */
  type Handle = nat

  /** One pending download as the component records it. */
  datatype DownloadData = DownloadData(
    url: NullableString,
    tag: NullableString,
    serialId: int,
    userData: UserData,
    tcs: Handle)

  /** The component's state: the table keyed by serial id, and every completion source created so far. */
  datatype Component = Component(downloads: map<int, DownloadData>, completions: seq<Option<bool>>)

  /** The calls the component makes into the download manager. */
  datatype ManagerCall =
    | AddCall(downloadPath: NullableString, downloadUri: NullableString, tag: NullableString, priority: int, userData: UserData)
    | RemoveCall(serialId: int)
    | RemoveTagCall(tag: NullableString)
    | RemoveAllCall

  datatype AddResult = AddResult(state: Component, call: ManagerCall, serialId: Reply<int>)

  /** `task` is `Returned(None)` when the component hands back a null task. */
  datatype DownloadResult = DownloadResult(state: Component, call: ManagerCall, task: Reply<Option<Handle>>)

  datatype RemoveResult<T> = RemoveResult(state: Component, call: ManagerCall, value: T)

  // ---------------------------------------------------------------------
  // Vocabulary
  // ---------------------------------------------------------------------

  /** Handle h exists and has not been resolved. */
  predicate Unresolved(c: Component, h: Handle) {
    h < |c.completions| && c.completions[h].None?
  }

  /** Some table entry holds handle h, so an event can still resolve it. */
  ghost predicate Referenced(c: Component, h: Handle) {
    exists k :: k in c.downloads && c.downloads[k].tcs == h
  }

  /** Handle h is unresolved and no table entry holds it any more. */
  ghost predicate Orphaned(c: Component, h: Handle) {
    Unresolved(c, h) && !Referenced(c, h)
  }

  /** Some entry of table t carries the tag (null matches null). */
  ghost predicate HasTagged(t: map<int, DownloadData>, tag: NullableString) {
    exists k :: k in t && t[k].tag == tag
  }

  /** The two tables agree everywhere except possibly at key id. */
  ghost predicate OnlyChanged(t: map<int, DownloadData>, t': map<int, DownloadData>, id: int) {
    forall k :: k != id ==> (k in t <==> k in t') && (k in t ==> t[k] == t'[k])
  }

  /** c' has every completion source of c, in the same state. */
  ghost predicate CompletionsKept(c: Component, c': Component) {
    |c.completions| <= |c'.completions|
    && forall h :: 0 <= h < |c.completions| ==> c'.completions[h] == c.completions[h]
  }

  /** No completion source of c is lost or changes a result it already has. */
  ghost predicate KeepsResults(c: Component, c': Component) {
    |c.completions| <= |c'.completions|
    && forall h :: 0 <= h < |c.completions| && c.completions[h].Some? ==> c'.completions[h] == c.completions[h]
  }

  /** The state every reachable component is in: entries are keyed by their
      own serial id and each holds its own, still unresolved, completion source. */
  ghost predicate Valid(c: Component) {
    && (forall k :: k in c.downloads ==> c.downloads[k].serialId == k)
    && (forall k :: k in c.downloads ==> Unresolved(c, c.downloads[k].tcs))
    && (forall k1, k2 :: k1 in c.downloads && k2 in c.downloads && k1 != k2 ==>
          c.downloads[k1].tcs != c.downloads[k2].tcs)
  }

  /** The component as constructed: an empty table and no completion source. */
  function Initial(): (c: Component)
    ensures Valid(c)
    ensures c.downloads == map[]
  {
    Component(map[], [])
  }

  // ---------------------------------------------------------------------
  // Operations
  // ---------------------------------------------------------------------

  /** The DownloadData constructor: records the fields and creates a new,
      unresolved completion source. The table itself is not touched. */
  function NewDownloadData(c: Component, url: NullableString, tag: NullableString, serialId: int, userData: UserData): (r: (Component, DownloadData))
    ensures r.1.url == url && r.1.tag == tag && r.1.serialId == serialId && r.1.userData == userData
    ensures r.0.downloads == c.downloads
    ensures CompletionsKept(c, r.0)
    ensures Unresolved(r.0, r.1.tcs) && r.1.tcs >= |c.completions|
    ensures Valid(c) ==> !Referenced(c, r.1.tcs)
  {
    (c.(completions := c.completions + [None]), DownloadData(url, tag, serialId, userData, |c.completions|))
  }

  /** The full AddDownload: ask the manager for a serial id, then store a new
      record under it unless an entry with that id already exists. */
  function AddDownload(c: Component, downloadPath: NullableString, downloadUri: NullableString, tag: NullableString, priority: int, userData: UserData, reply: Reply<int>): (r: AddResult)
    ensures r.call == AddCall(downloadPath, downloadUri, tag, priority, userData)
    ensures r.serialId == reply
    ensures reply.Raised? ==> r.state == c
    ensures CompletionsKept(c, r.state)
    ensures reply.Returned? ==>
      reply.value in r.state.downloads && OnlyChanged(c.downloads, r.state.downloads, reply.value)
    ensures reply.Returned? && reply.value in c.downloads ==> r.state.downloads == c.downloads
    ensures reply.Returned? && reply.value !in c.downloads ==>
      var d := r.state.downloads[reply.value];
      && d.url == downloadUri && d.tag == tag && d.serialId == reply.value && d.userData == userData
      && Unresolved(r.state, d.tcs) && d.tcs >= |c.completions|
  {
    var call := AddCall(downloadPath, downloadUri, tag, priority, userData);
    match reply
    case Raised => AddResult(c, call, Raised)
    case Returned(serialId) =>
      var (c1, data) := NewDownloadData(c, downloadUri, tag, serialId, userData);
      var downloads := if serialId in c1.downloads then c1.downloads else c1.downloads[serialId := data];
      AddResult(c1.(downloads := downloads), call, Returned(serialId))
  }

  /** AddDownload(downloadPath, downloadUri). */
  function AddDownloadDefault(c: Component, downloadPath: NullableString, downloadUri: NullableString, reply: Reply<int>): (r: AddResult)
    ensures r.call == AddCall(downloadPath, downloadUri, None, DefaultPriority, None)
    ensures r.serialId == reply
    ensures r.state == AddDownload(c, downloadPath, downloadUri, None, DefaultPriority, None, reply).state
  {
    AddDownload(c, downloadPath, downloadUri, None, DefaultPriority, None, reply)
  }

  /** AddDownload(downloadPath, downloadUri, tag). */
  function AddDownloadWithTag(c: Component, downloadPath: NullableString, downloadUri: NullableString, tag: NullableString, reply: Reply<int>): (r: AddResult)
    ensures r.call == AddCall(downloadPath, downloadUri, tag, DefaultPriority, None)
    ensures r.serialId == reply
    ensures r.state == AddDownload(c, downloadPath, downloadUri, tag, DefaultPriority, None, reply).state
  {
    AddDownload(c, downloadPath, downloadUri, tag, DefaultPriority, None, reply)
  }

  /** AddDownload(downloadPath, downloadUri, priority). */
  function AddDownloadWithPriority(c: Component, downloadPath: NullableString, downloadUri: NullableString, priority: int, reply: Reply<int>): (r: AddResult)
    ensures r.call == AddCall(downloadPath, downloadUri, None, priority, None)
    ensures r.serialId == reply
    ensures r.state == AddDownload(c, downloadPath, downloadUri, None, priority, None, reply).state
  {
    AddDownload(c, downloadPath, downloadUri, None, priority, None, reply)
  }

  /** AddDownload(downloadPath, downloadUri, userData). */
  function AddDownloadWithUserData(c: Component, downloadPath: NullableString, downloadUri: NullableString, userData: UserData, reply: Reply<int>): (r: AddResult)
    ensures r.call == AddCall(downloadPath, downloadUri, None, DefaultPriority, userData)
    ensures r.serialId == reply
    ensures r.state == AddDownload(c, downloadPath, downloadUri, None, DefaultPriority, userData, reply).state
  {
    AddDownload(c, downloadPath, downloadUri, None, DefaultPriority, userData, reply)
  }

  /** AddDownload(downloadPath, downloadUri, tag, priority). */
  function AddDownloadWithTagPriority(c: Component, downloadPath: NullableString, downloadUri: NullableString, tag: NullableString, priority: int, reply: Reply<int>): (r: AddResult)
    ensures r.call == AddCall(downloadPath, downloadUri, tag, priority, None)
    ensures r.serialId == reply
    ensures r.state == AddDownload(c, downloadPath, downloadUri, tag, priority, None, reply).state
  {
    AddDownload(c, downloadPath, downloadUri, tag, priority, None, reply)
  }

  /** AddDownload(downloadPath, downloadUri, tag, userData). */
  function AddDownloadWithTagUserData(c: Component, downloadPath: NullableString, downloadUri: NullableString, tag: NullableString, userData: UserData, reply: Reply<int>): (r: AddResult)
    ensures r.call == AddCall(downloadPath, downloadUri, tag, DefaultPriority, userData)
    ensures r.serialId == reply
    ensures r.state == AddDownload(c, downloadPath, downloadUri, tag, DefaultPriority, userData, reply).state
  {
    AddDownload(c, downloadPath, downloadUri, tag, DefaultPriority, userData, reply)
  }

  /** AddDownload(downloadPath, downloadUri, priority, userData). */
  function AddDownloadWithPriorityUserData(c: Component, downloadPath: NullableString, downloadUri: NullableString, priority: int, userData: UserData, reply: Reply<int>): (r: AddResult)
    ensures r.call == AddCall(downloadPath, downloadUri, None, priority, userData)
    ensures r.serialId == reply
    ensures r.state == AddDownload(c, downloadPath, downloadUri, None, priority, userData, reply).state
  {
    AddDownload(c, downloadPath, downloadUri, None, priority, userData, reply)
  }

  /** Download: add with default arguments, then hand back the completion
      source stored under the returned serial id, or null if there is none.
      When the id was already in the table, that older entry's source is
      the one handed back. */
  function Download(c: Component, downloadPath: NullableString, downloadUri: NullableString, reply: Reply<int>): (r: DownloadResult)
    ensures r.call == AddCall(downloadPath, downloadUri, None, DefaultPriority, None)
    ensures reply.Raised? ==> r.state == c && r.task.Raised?
    ensures reply.Returned? ==>
      && r.task.Returned? && r.task.value.Some?
      && reply.value in r.state.downloads
      && r.task.value.value == r.state.downloads[reply.value].tcs
    ensures reply.Returned? && (reply.value !in c.downloads || Valid(c)) ==>
      Unresolved(r.state, r.task.value.value)
    ensures reply.Returned? && reply.value in c.downloads ==>
      r.state.downloads == c.downloads && r.task.value.value == c.downloads[reply.value].tcs
    ensures reply.Returned? && reply.value !in c.downloads ==> r.task.value.value >= |c.completions|
    ensures reply.Returned? ==> OnlyChanged(c.downloads, r.state.downloads, reply.value)
    ensures reply.Returned? && reply.value !in c.downloads ==>
      var d := r.state.downloads[reply.value];
      d.url == downloadUri && d.tag == None && d.serialId == reply.value && d.userData == None
    ensures r.state == AddDownload(c, downloadPath, downloadUri, None, DefaultPriority, None, reply).state
    ensures CompletionsKept(c, r.state)
    ensures Valid(c) ==> Valid(r.state)
  {
    var added := AddDownload(c, downloadPath, downloadUri, None, DefaultPriority, None, reply);
    AddPreservesValid(c, downloadPath, downloadUri, None, DefaultPriority, None, reply);
    match added.serialId
    case Raised => DownloadResult(added.state, added.call, Raised)
    case Returned(serialId) =>
      var task := if serialId in added.state.downloads then Some(added.state.downloads[serialId].tcs) else None;
      DownloadResult(added.state, added.call, Returned(task))
  }

  /** RemoveDownload: forget the entry for serialId, whatever the manager answers. */
  function RemoveDownload(c: Component, serialId: int, managerRemoved: bool): (r: RemoveResult<bool>)
    ensures r.call == RemoveCall(serialId) && r.value == managerRemoved
    ensures serialId !in r.state.downloads
    ensures OnlyChanged(c.downloads, r.state.downloads, serialId)
    ensures r.state.completions == c.completions
  {
    RemoveResult(c.(downloads := c.downloads - {serialId}), RemoveCall(serialId), managerRemoved)
  }

  /** `order` is one enumeration of the table: the dictionary enumerates
      every entry, in an order it does not specify. */
  ghost predicate IsEnumeration(t: map<int, DownloadData>, order: seq<int>) {
    forall k :: k in order <==> k in t
  }

  /** The entry enumerated at position i carries the tag. */
  predicate TagMatches(t: map<int, DownloadData>, order: seq<int>, i: int, tag: NullableString)
    requires 0 <= i < |order|
  {
    order[i] in t && t[order[i]].tag == tag
  }

  /** The scan of the enumeration from position `from`: the first position whose entry carries the tag. */
  function FirstTagged(t: map<int, DownloadData>, order: seq<int>, tag: NullableString, from: nat): (r: Option<nat>)
    requires from <= |order|
    ensures r.Some? ==>
      && from <= r.value < |order| && TagMatches(t, order, r.value, tag)
      && forall j :: from <= j < r.value ==> !TagMatches(t, order, j, tag)
    ensures r.None? ==> forall j :: from <= j < |order| ==> !TagMatches(t, order, j, tag)
    decreases |order| - from
  {
    if from == |order| then None
    else if TagMatches(t, order, from, tag) then Some(from)
    else FirstTagged(t, order, tag, from + 1)
  }

  /** If some entry carries the tag, the scan finds one. */
  lemma TaggedEntryIsFound(t: map<int, DownloadData>, order: seq<int>, tag: NullableString)
    requires IsEnumeration(t, order)
    ensures HasTagged(t, tag) <==> FirstTagged(t, order, tag, 0).Some?
  {
    if HasTagged(t, tag) {
      var k :| k in t && t[k].tag == tag;
      assert k in order;
      var i :| 0 <= i < |order| && order[i] == k;
      assert TagMatches(t, order, i, tag);
    }
    var found := FirstTagged(t, order, tag, 0);
    if found.Some? {
      var k := order[found.value];
      assert TagMatches(t, order, found.value, tag);
      assert k in t && t[k].tag == tag;
    }
  }

  /** The serial id tag removal settles on: the serial id of the first
      enumerated entry carrying the tag, or NoSerialId if none does. */
  function TaggedSerialId(t: map<int, DownloadData>, tag: NullableString, order: seq<int>): (id: int)
    requires IsEnumeration(t, order)
    ensures !HasTagged(t, tag) ==> id == NoSerialId
    ensures HasTagged(t, tag) ==>
      exists i :: 0 <= i < |order| && TagMatches(t, order, i, tag) && id == t[order[i]].serialId
        && forall j :: 0 <= j < i ==> !TagMatches(t, order, j, tag)
  {
    TaggedEntryIsFound(t, order, tag);
    match FirstTagged(t, order, tag, 0)
    case Some(i) => t[order[i]].serialId
    case None => NoSerialId
  }

  /** RemoveDownloads: remove the one entry the scan settles on (or key
      NoSerialId), then forward the tag to the manager and return its count. */
  function RemoveDownloads(c: Component, tag: NullableString, order: seq<int>, managerCount: int): (r: RemoveResult<int>)
    requires IsEnumeration(c.downloads, order)
    ensures r.call == RemoveTagCall(tag) && r.value == managerCount
    ensures r.state.completions == c.completions
    ensures TaggedSerialId(c.downloads, tag, order) !in r.state.downloads
    ensures OnlyChanged(c.downloads, r.state.downloads, TaggedSerialId(c.downloads, tag, order))
  {
    var serialId := TaggedSerialId(c.downloads, tag, order);
    RemoveResult(c.(downloads := c.downloads - {serialId}), RemoveTagCall(tag), managerCount)
  }

  /** RemoveAllDownloads: clear the table; every completion source keeps its state. */
  function RemoveAllDownloads(c: Component, managerCount: int): (r: RemoveResult<int>)
    ensures r.call == RemoveAllCall && r.value == managerCount
    ensures forall k :: k !in r.state.downloads
    ensures r.state.completions == c.completions
  {
    RemoveResult(c.(downloads := map[]), RemoveAllCall, managerCount)
  }

  /** TrySetResult on completion source h: resolves it if it is unresolved,
      and leaves a resolved one as it is. */
  function TrySetResult(completions: seq<Option<bool>>, h: Handle, result: bool): (r: seq<Option<bool>>)
    ensures |r| == |completions|
    ensures forall i :: 0 <= i < |r| && i != h ==> r[i] == completions[i]
    ensures forall i :: 0 <= i < |r| && completions[i].Some? ==> r[i] == completions[i]
    ensures h < |r| ==> r[h].Some?
    ensures h < |r| && completions[h].None? ==> r[h] == Some(result)
  {
    if h < |completions| && completions[h].None? then completions[h := Some(result)] else completions
  }

  /** The body shared by the success and failure handlers: if an entry for
      serialId exists, remove it and resolve its completion source. */
  function Complete(c: Component, serialId: int, result: bool): (r: Component)
    ensures serialId !in c.downloads ==> r == c
    ensures serialId !in r.downloads
    ensures OnlyChanged(c.downloads, r.downloads, serialId)
    ensures KeepsResults(c, r) && |r.completions| == |c.completions|
    ensures serialId in c.downloads ==>
      var h := c.downloads[serialId].tcs;
      && (forall i :: 0 <= i < |r.completions| && i != h ==> r.completions[i] == c.completions[i])
      && (Unresolved(c, h) ==> r.completions[h] == Some(result))
  {
    if serialId in c.downloads then
      var data := c.downloads[serialId];
      Component(c.downloads - {serialId}, TrySetResult(c.completions, data.tcs, result))
    else
      c
  }

  /** OnDownloadSuccess: the handler first re-broadcasts the event; when that
      returns (`fired`), the awaiter of a download still in the table learns
      `true`. When it throws, the exception leaves the handler before the table
      is touched. */
  function OnDownloadSuccess(c: Component, serialId: int, fired: bool): (r: Component)
    ensures !fired || serialId !in c.downloads ==> r == c
    ensures fired ==> serialId !in r.downloads
    ensures OnlyChanged(c.downloads, r.downloads, serialId)
    ensures KeepsResults(c, r) && |r.completions| == |c.completions|
    ensures fired && serialId in c.downloads ==>
      var h := c.downloads[serialId].tcs;
      && (forall i :: 0 <= i < |r.completions| && i != h ==> r.completions[i] == c.completions[i])
      && (Unresolved(c, h) ==> r.completions[h] == Some(true))
  {
    if fired then Complete(c, serialId, true) else c
  }

  /** OnDownloadFailure: the handler first logs a warning and re-broadcasts the event; when that
      returns (`fired`), the awaiter of a download still in the table learns
      `false`. When it throws, the exception leaves the handler before the table
      is touched. */
  function OnDownloadFailure(c: Component, serialId: int, fired: bool): (r: Component)
    ensures !fired || serialId !in c.downloads ==> r == c
    ensures fired ==> serialId !in r.downloads
    ensures OnlyChanged(c.downloads, r.downloads, serialId)
    ensures KeepsResults(c, r) && |r.completions| == |c.completions|
    ensures fired && serialId in c.downloads ==>
      var h := c.downloads[serialId].tcs;
      && (forall i :: 0 <= i < |r.completions| && i != h ==> r.completions[i] == c.completions[i])
      && (Unresolved(c, h) ==> r.completions[h] == Some(false))
  {
    if fired then Complete(c, serialId, false) else c
  }

  // ---------------------------------------------------------------------
  // The invariant is preserved by every operation
  // ---------------------------------------------------------------------

  lemma AddPreservesValid(c: Component, downloadPath: NullableString, downloadUri: NullableString, tag: NullableString, priority: int, userData: UserData, reply: Reply<int>)
    ensures Valid(c) ==> Valid(AddDownload(c, downloadPath, downloadUri, tag, priority, userData, reply).state)
  {
    var r := AddDownload(c, downloadPath, downloadUri, tag, priority, userData, reply).state;
    if Valid(c) && reply.Returned? && reply.value !in c.downloads {
      var id := reply.value;
      forall k | k in r.downloads && k != id
        ensures r.downloads[k].tcs < |c.completions|
      {
        assert k in c.downloads;
      }
    }
  }

  lemma RemovePreservesValid(c: Component, serialId: int, managerRemoved: bool)
    requires Valid(c)
    ensures Valid(RemoveDownload(c, serialId, managerRemoved).state)
  {
  }

  lemma RemoveTaggedPreservesValid(c: Component, tag: NullableString, order: seq<int>, managerCount: int)
    requires Valid(c) && IsEnumeration(c.downloads, order)
    ensures Valid(RemoveDownloads(c, tag, order, managerCount).state)
  {
  }

  lemma CompletePreservesValid(c: Component, serialId: int, result: bool)
    requires Valid(c)
    ensures Valid(Complete(c, serialId, result))
  {
    var r := Complete(c, serialId, result);
    if serialId in c.downloads {
      var h := c.downloads[serialId].tcs;
      forall k | k in r.downloads
        ensures Unresolved(r, r.downloads[k].tcs)
      {
        assert k in c.downloads && k != serialId;
        assert c.downloads[k].tcs != h;
      }
    }
  }
}
