/**
 The pending-completion table over whole runs: any sequence of calls into
 the component and of success/failure events from the manager. The
 manager's answers ride along in each step.

 Every completion source is resolved at most once, only by the success or
 failure event for the serial id whose entry holds it, and only while that
 entry is in the table. Once an entry is removed by RemoveDownload,
 RemoveDownloads or RemoveAllDownloads, nothing can resolve its source: an
 awaiter of that download waits forever.
 */
module PendingLifecycle {
  import opened Wrappers
  import opened DownloadComponent

  /** One thing that can happen to the component. */
  datatype Op =
    | AddDownloadOp(downloadPath: NullableString, downloadUri: NullableString, tag: NullableString, priority: int, userData: UserData, reply: Reply<int>)
    | DownloadOp(downloadPath: NullableString, downloadUri: NullableString, reply: Reply<int>)
    | RemoveDownloadOp(serialId: int, removed: bool)
    | RemoveDownloadsOp(tag: NullableString, order: seq<int>, count: int)
    | RemoveAllDownloadsOp(count: int)
    | SuccessEvent(serialId: int, fired: bool)
    | FailureEvent(serialId: int, fired: bool)

  /** The dictionary enumeration carried by a tag removal is one of the table as it stands. */
  ghost predicate Allowed(c: Component, op: Op) {
    op.RemoveDownloadsOp? ==> IsEnumeration(c.downloads, op.order)
  }

  /** The component after one operation or event. No step undoes or changes a result. */
  function Step(c: Component, op: Op): (c': Component)
    requires Allowed(c, op)
    ensures KeepsResults(c, c')
  {
    match op
    case AddDownloadOp(downloadPath, downloadUri, tag, priority, userData, reply) =>
      AddDownload(c, downloadPath, downloadUri, tag, priority, userData, reply).state
    case DownloadOp(downloadPath, downloadUri, reply) => Download(c, downloadPath, downloadUri, reply).state
    case RemoveDownloadOp(serialId, removed) => RemoveDownload(c, serialId, removed).state
    case RemoveDownloadsOp(tag, order, count) => RemoveDownloads(c, tag, order, count).state
    case RemoveAllDownloadsOp(count) => RemoveAllDownloads(c, count).state
    case SuccessEvent(serialId, fired) => OnDownloadSuccess(c, serialId, fired)
    case FailureEvent(serialId, fired) => OnDownloadFailure(c, serialId, fired)
  }

  /** Every step of ops is allowed in the state it is taken from. */
  ghost predicate Feasible(c: Component, ops: seq<Op>)
    decreases |ops|
  {
    |ops| == 0 || (Allowed(c, ops[0]) && Feasible(Step(c, ops[0]), ops[1..]))
  }

  /** The component after all of ops, in order. */
  function Run(c: Component, ops: seq<Op>): Component
    requires Feasible(c, ops)
    decreases |ops|
  {
    if |ops| == 0 then c else Run(Step(c, ops[0]), ops[1..])
  }

  // ---------------------------------------------------------------------
  // One step
  // ---------------------------------------------------------------------

  lemma StepPreservesValid(c: Component, op: Op)
    requires Valid(c) && Allowed(c, op)
    ensures Valid(Step(c, op))
  {
    match op
    case AddDownloadOp(downloadPath, downloadUri, tag, priority, userData, reply) =>
      AddPreservesValid(c, downloadPath, downloadUri, tag, priority, userData, reply);
    case DownloadOp(downloadPath, downloadUri, reply) =>
    case RemoveDownloadOp(serialId, removed) =>
      RemovePreservesValid(c, serialId, removed);
    case RemoveDownloadsOp(tag, order, count) =>
      RemoveTaggedPreservesValid(c, tag, order, count);
    case RemoveAllDownloadsOp(count) =>
    case SuccessEvent(serialId, _) =>
      CompletePreservesValid(c, serialId, true);
    case FailureEvent(serialId, _) =>
      CompletePreservesValid(c, serialId, false);
  }

  /** After a step every entry is either one that was there before, unchanged,
      or a new one holding a completion source created in that step. */
  lemma StepEntriesOldOrNew(c: Component, op: Op)
    requires Allowed(c, op)
    ensures var c' := Step(c, op);
      forall k :: k in c'.downloads ==>
        (k in c.downloads && c'.downloads[k] == c.downloads[k]) || c'.downloads[k].tcs >= |c.completions|
  {
    var c' := Step(c, op);
    forall k | k in c'.downloads
      ensures (k in c.downloads && c'.downloads[k] == c.downloads[k]) || c'.downloads[k].tcs >= |c.completions|
    {
      match op
      case AddDownloadOp(_, _, _, _, _, reply) =>
        if reply.Returned? && k == reply.value && k !in c.downloads {
        }
      case DownloadOp(_, _, reply) =>
        if reply.Returned? && k == reply.value && k !in c.downloads {
        }
      case _ =>
    }
  }

  /** A source changes state in a step only when it was unresolved, held by
      the entry of the serial id the step's event names; that entry is then
      gone and the source carries the event's outcome. */
  lemma StepResolvesOnlyPending(c: Component, op: Op, h: Handle)
    requires Allowed(c, op) && Unresolved(c, h)
    ensures !Unresolved(Step(c, op), h) ==>
      && (op.SuccessEvent? || op.FailureEvent?) && op.fired
      && op.serialId in c.downloads && c.downloads[op.serialId].tcs == h
      && op.serialId !in Step(c, op).downloads
      && Step(c, op).completions[h] == Some(op.SuccessEvent?)
  {
    match op
    case SuccessEvent(serialId, fired) =>
      if !fired || serialId !in c.downloads || c.downloads[serialId].tcs != h {
        assert Step(c, op).completions[h] == c.completions[h];
      }
    case FailureEvent(serialId, fired) =>
      if !fired || serialId !in c.downloads || c.downloads[serialId].tcs != h {
        assert Step(c, op).completions[h] == c.completions[h];
      }
    case _ =>
      assert Step(c, op).completions[h] == c.completions[h];
  }

  /** An orphaned source stays orphaned: no later entry can come to hold it. */
  lemma StepKeepsOrphan(c: Component, op: Op, h: Handle)
    requires Allowed(c, op) && Orphaned(c, h)
    ensures Orphaned(Step(c, op), h)
  {
    var c' := Step(c, op);
    StepResolvesOnlyPending(c, op, h);
    StepEntriesOldOrNew(c, op);
    forall k | k in c'.downloads
      ensures c'.downloads[k].tcs != h
    {
      if k in c.downloads && c'.downloads[k] == c.downloads[k] {
        assert c.downloads[k].tcs != h;
      }
    }
  }

  // ---------------------------------------------------------------------
  // Whole runs
  // ---------------------------------------------------------------------

  lemma {:induction false} RunPreservesValid(c: Component, ops: seq<Op>)
    requires Valid(c) && Feasible(c, ops)
    ensures Valid(Run(c, ops))
    decreases |ops|
  {
    if |ops| > 0 {
      StepPreservesValid(c, ops[0]);
      RunPreservesValid(Step(c, ops[0]), ops[1..]);
    }
  }

  /** Single resolution: whatever happens later, a resolved source keeps its result. */
  lemma {:induction false} RunKeepsResults(c: Component, ops: seq<Op>)
    requires Feasible(c, ops)
    ensures KeepsResults(c, Run(c, ops))
    decreases |ops|
  {
    if |ops| > 0 {
      var c1 := Step(c, ops[0]);
      RunKeepsResults(c1, ops[1..]);
      var r := Run(c, ops);
      forall h | 0 <= h < |c.completions| && c.completions[h].Some?
        ensures r.completions[h] == c.completions[h]
      {
        assert c1.completions[h] == c.completions[h];
      }
    }
  }

  /** An orphaned source is never resolved, whatever happens later. */
  lemma {:induction false} OrphanNeverResolved(c: Component, ops: seq<Op>, h: Handle)
    requires Feasible(c, ops) && Orphaned(c, h)
    ensures Orphaned(Run(c, ops), h)
    decreases |ops|
  {
    if |ops| > 0 {
      StepKeepsOrphan(c, ops[0], h);
      OrphanNeverResolved(Step(c, ops[0]), ops[1..], h);
    }
  }

  /** RemoveDownload orphans the removed entry's source: its awaiter is never resolved. */
  lemma RemovedAwaiterNeverResolved(c: Component, serialId: int, removed: bool, ops: seq<Op>)
    requires Valid(c) && serialId in c.downloads
    requires Feasible(RemoveDownload(c, serialId, removed).state, ops)
    ensures Unresolved(Run(RemoveDownload(c, serialId, removed).state, ops), c.downloads[serialId].tcs)
  {
    var c1 := RemoveDownload(c, serialId, removed).state;
    var h := c.downloads[serialId].tcs;
    forall k | k in c1.downloads
      ensures c1.downloads[k].tcs != h
    {
      assert k in c.downloads && k != serialId;
    }
    OrphanNeverResolved(c1, ops, h);
  }

  /** RemoveDownloads orphans the source of the entry it removes. */
  lemma TagRemovedAwaiterNeverResolved(c: Component, tag: NullableString, order: seq<int>, count: int, ops: seq<Op>)
    requires Valid(c) && IsEnumeration(c.downloads, order)
    requires TaggedSerialId(c.downloads, tag, order) in c.downloads
    requires Feasible(RemoveDownloads(c, tag, order, count).state, ops)
    ensures Unresolved(Run(RemoveDownloads(c, tag, order, count).state, ops),
                       c.downloads[TaggedSerialId(c.downloads, tag, order)].tcs)
  {
    var victim := TaggedSerialId(c.downloads, tag, order);
    var c1 := RemoveDownloads(c, tag, order, count).state;
    var h := c.downloads[victim].tcs;
    forall k | k in c1.downloads
      ensures c1.downloads[k].tcs != h
    {
      assert k in c.downloads && k != victim;
    }
    OrphanNeverResolved(c1, ops, h);
  }

  /** RemoveAllDownloads orphans the source of every entry: none of those awaiters is ever resolved. */
  lemma ClearedAwaitersNeverResolved(c: Component, count: int, ops: seq<Op>, serialId: int)
    requires Valid(c) && serialId in c.downloads
    requires Feasible(RemoveAllDownloads(c, count).state, ops)
    ensures Unresolved(Run(RemoveAllDownloads(c, count).state, ops), c.downloads[serialId].tcs)
  {
    OrphanNeverResolved(RemoveAllDownloads(c, count).state, ops, c.downloads[serialId].tcs);
  }

  /** The awaiter Download hands back learns the outcome of the first
      success or failure event for its serial id. */
  lemma DownloadAwaiterResolves(c: Component, downloadPath: NullableString, downloadUri: NullableString, serialId: int, succeeded: bool)
    requires Valid(c)
    ensures var d := Download(c, downloadPath, downloadUri, Returned(serialId));
      var after := Step(d.state, if succeeded then SuccessEvent(serialId, true) else FailureEvent(serialId, true));
      && d.task == Returned(Some(d.state.downloads[serialId].tcs))
      && after.completions[d.task.value.value] == Some(succeeded)
      && serialId !in after.downloads
  {
  }

  /** Ops that may remove the entry for serialId: a removal or event naming
      it, and any removal by tag or of everything. */
  predicate Concerns(op: Op, serialId: int) {
    match op
    case RemoveDownloadOp(id, _) => id == serialId
    case SuccessEvent(id, _) => id == serialId
    case FailureEvent(id, _) => id == serialId
    case RemoveDownloadsOp(_, _, _) => true
    case RemoveAllDownloadsOp(_) => true
    case _ => false
  }

  /** An entry stays in the table, unchanged and unresolved, for as long as no
      op concerns it; in particular a later add that gets the same serial id
      does not replace it. If no event for it ever comes (nothing obliges the
      manager to send one for a task it dropped, for instance in a removal by
      tag that the table saw as one removal), the entry and its awaiter wait
      forever. */
  lemma {:induction false} UnconcernedEntryPersists(c: Component, ops: seq<Op>, serialId: int)
    requires Valid(c) && Feasible(c, ops) && serialId in c.downloads
    requires forall i :: 0 <= i < |ops| ==> !Concerns(ops[i], serialId)
    ensures var r := Run(c, ops);
      serialId in r.downloads && r.downloads[serialId] == c.downloads[serialId]
      && Unresolved(r, c.downloads[serialId].tcs)
    decreases |ops|
  {
    if |ops| > 0 {
      var c1 := Step(c, ops[0]);
      assert !Concerns(ops[0], serialId);
      StepPreservesValid(c, ops[0]);
      assert serialId in c1.downloads && c1.downloads[serialId] == c.downloads[serialId];
      assert forall i :: 0 <= i < |ops[1..]| ==> !Concerns(ops[1..][i], serialId) by {
        forall i | 0 <= i < |ops[1..]|
          ensures !Concerns(ops[1..][i], serialId)
        {
          assert ops[1..][i] == ops[i + 1];
        }
      }
      UnconcernedEntryPersists(c1, ops[1..], serialId);
    }
  }
}
