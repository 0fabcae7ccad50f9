/** Logs waiting until their block is deep enough in the chain, while the chain may reorganise. */
module ConfirmationQueue {
  import opened Wrappers
  import opened Filters

  const WORD := 0x1_0000_0000_0000_0000

  /** The block may be missing; the transaction number may fail to decode. */
  datatype Log = Log(id: nat, block: Option<nat>, removed: bool, txSeq: Option<nat>)

  /** The logs of one block. */
  datatype Group = Group(block: nat, logs: seq<Log>)

  ghost predicate Increasing(groups: seq<Group>) {
    forall i, j :: 0 <= i < j < |groups| ==> groups[i].block < groups[j].block
  }

  function Logs(groups: seq<Group>): seq<Log> {
    if groups == [] then [] else groups[0].logs + Logs(groups[1..])
  }

  lemma {:induction false} LogsConcat(a: seq<Group>, b: seq<Group>)
    ensures Logs(a + b) == Logs(a) + Logs(b)
  {
    if a == [] {
      assert a + b == b;
    } else {
      assert (a + b)[1..] == a[1..] + b;
      LogsConcat(a[1..], b);
    }
  }

  // ---- Merging logs by block number, in an ordered map

  function AddLog(groups: seq<Group>, block: nat, log: Log): seq<Group> {
    if groups == [] || block < groups[0].block then [Group(block, [log])] + groups
    else if block == groups[0].block then [Group(block, groups[0].logs + [log])] + groups[1..]
    else [groups[0]] + AddLog(groups[1..], block, log)
  }

  function Lookup(groups: seq<Group>, block: nat): seq<Log> {
    if groups == [] then [] else if groups[0].block == block then groups[0].logs else Lookup(groups[1..], block)
  }

  ghost predicate NoneEmpty(groups: seq<Group>) {
    forall i :: 0 <= i < |groups| ==> groups[i].logs != []
  }

  lemma AddLogFirst(groups: seq<Group>, block: nat, log: Log)
    ensures AddLog(groups, block, log) != []
    ensures AddLog(groups, block, log)[0].block == if groups == [] || block < groups[0].block then block else groups[0].block
  {
  }

  lemma IncreasingCons(g: Group, groups: seq<Group>)
    requires Increasing(groups) && (groups != [] ==> g.block < groups[0].block)
    ensures Increasing([g] + groups)
  {
    forall i | 0 <= i < |groups| ensures g.block < groups[i].block {
      assert i > 0 ==> groups[0].block < groups[i].block;
    }
  }

  lemma {:induction false} AddLogIncreasing(groups: seq<Group>, block: nat, log: Log)
    requires Increasing(groups) && NoneEmpty(groups)
    ensures Increasing(AddLog(groups, block, log)) && NoneEmpty(AddLog(groups, block, log))
  {
    if groups == [] || block < groups[0].block {
      IncreasingCons(Group(block, [log]), groups);
    } else if block == groups[0].block {
      IncreasingCons(Group(block, groups[0].logs + [log]), groups[1..]);
    } else {
      AddLogIncreasing(groups[1..], block, log);
      AddLogFirst(groups[1..], block, log);
      IncreasingCons(groups[0], AddLog(groups[1..], block, log));
    }
  }

  lemma LookupCons(g: Group, groups: seq<Group>, block: nat)
    ensures Lookup([g] + groups, block) == if g.block == block then g.logs else Lookup(groups, block)
  {
    assert ([g] + groups)[1..] == groups;
  }

  lemma {:induction false} AddLogLookup(groups: seq<Group>, block: nat, log: Log, other: nat)
    requires Increasing(groups)
    ensures Lookup(AddLog(groups, block, log), other) == Lookup(groups, other) + if other == block then [log] else []
  {
    if groups == [] || block < groups[0].block {
      LookupCons(Group(block, [log]), groups, other);
      LookupBelow(groups, block);
    } else if block == groups[0].block {
      LookupCons(Group(block, groups[0].logs + [log]), groups[1..], other);
    } else {
      AddLogLookup(groups[1..], block, log, other);
      LookupCons(groups[0], AddLog(groups[1..], block, log), other);
    }
  }

  lemma {:induction false} LookupBelow(groups: seq<Group>, block: nat)
    requires Increasing(groups) && (groups != [] ==> block < groups[0].block)
    ensures Lookup(groups, block) == []
  {
    if groups != [] {
      LookupBelow(groups[1..], block);
    }
  }

  lemma {:induction false} AddLogCounts(groups: seq<Group>, block: nat, log: Log)
    ensures multiset(Logs(AddLog(groups, block, log))) == multiset(Logs(groups)) + multiset{log}
  {
    if groups == [] || block < groups[0].block {
      assert ([Group(block, [log])] + groups)[1..] == groups;
    } else if block == groups[0].block {
      assert ([Group(block, groups[0].logs + [log])] + groups[1..])[1..] == groups[1..];
    } else {
      AddLogCounts(groups[1..], block, log);
      assert ([groups[0]] + AddLog(groups[1..], block, log))[1..] == AddLog(groups[1..], block, log);
    }
  }

  /** The logs that are, or are not, marked as removed. */
  function Pick(logs: seq<Log>, removed: bool): seq<Log> {
    if logs == [] then []
    else Pick(logs[..|logs| - 1], removed) + if logs[|logs| - 1].removed == removed then [logs[|logs| - 1]] else []
  }

  function OfBlock(logs: seq<Log>, block: nat): seq<Log> {
    if logs == [] then []
    else OfBlock(logs[..|logs| - 1], block) + if logs[|logs| - 1].block == Some(block) then [logs[|logs| - 1]] else []
  }

  lemma {:induction false} PickFilters(logs: seq<Log>, removed: bool)
    ensures Filtered((log: Log) => log.removed == removed, logs, Pick(logs, removed))
    decreases |logs|
  {
    hide Filtered;
    var keep := (log: Log) => log.removed == removed;
    if logs == [] {
      FilteredNone(keep);
    } else {
      var n := |logs| - 1;
      PickFilters(logs[..n], removed);
      var kept := Pick(logs[..n], removed);
      FilteredNext(keep, logs[..n], kept, logs[n]);
      assert logs == logs[..n] + [logs[n]];
      assert Pick(logs, removed) == if keep(logs[n]) then kept + [logs[n]] else kept;
    }
  }

  lemma {:induction false} OfBlockFilters(logs: seq<Log>, block: nat)
    ensures Filtered((log: Log) => log.block == Some(block), logs, OfBlock(logs, block))
    decreases |logs|
  {
    hide Filtered;
    var keep := (log: Log) => log.block == Some(block);
    if logs == [] {
      FilteredNone(keep);
    } else {
      var n := |logs| - 1;
      OfBlockFilters(logs[..n], block);
      var kept := OfBlock(logs[..n], block);
      FilteredNext(keep, logs[..n], kept, logs[n]);
      assert logs == logs[..n] + [logs[n]];
      assert OfBlock(logs, block) == if keep(logs[n]) then kept + [logs[n]] else kept;
    }
  }

  ghost predicate AllHaveBlocks(logs: seq<Log>) {
    forall i :: 0 <= i < |logs| ==> logs[i].block.Some?
  }

  /** The groups hold exactly the given logs, by increasing block, in the given order within a block. */
  ghost predicate GroupsOf(logs: seq<Log>, groups: seq<Group>) {
    && Increasing(groups) && NoneEmpty(groups)
    && (forall b: nat :: Lookup(groups, b) == OfBlock(logs, b))
    && multiset(Logs(groups)) == multiset(logs)
  }

  lemma {:induction false} AddToGroups(logs: seq<Log>, groups: seq<Group>, log: Log)
    requires GroupsOf(logs, groups) && log.block.Some?
    ensures GroupsOf(logs + [log], AddLog(groups, log.block.value, log))
  {
    hide AddLog, Lookup, Logs;
    var block := log.block.value;
    AddLogIncreasing(groups, block, log);
    AddLogCounts(groups, block, log);
    forall b: nat ensures Lookup(AddLog(groups, block, log), b) == OfBlock(logs + [log], b) {
      AddLogLookup(groups, block, log, b);
      assert (logs + [log])[..|logs|] == logs;
    }
  }

  lemma GroupsAre(logs: seq<Log>, groups: seq<Group>)
    requires GroupsOf(logs, groups)
    ensures Increasing(groups) && (groups != [] ==> groups[0].logs != []) && multiset(Logs(groups)) == multiset(logs)
  {
    hide Logs, OfBlock;
  }

  // ---- The queue

  /** The number of queued blocks below the given one: where a binary search would put it. */
  function Position(queue: seq<Group>, block: nat): (r: nat)
    ensures r <= |queue|
  {
    if queue == [] || queue[0].block >= block then 0 else 1 + Position(queue[1..], block)
  }

  lemma {:induction false} PositionSplits(queue: seq<Group>, block: nat)
    requires Increasing(queue)
    ensures forall i :: 0 <= i < Position(queue, block) ==> queue[i].block < block
    ensures forall i :: Position(queue, block) <= i < |queue| ==> queue[i].block >= block
  {
    if queue != [] && queue[0].block < block {
      PositionSplits(queue[1..], block);
      forall i | 0 <= i < |queue|
        ensures i < Position(queue, block) ==> queue[i].block < block
        ensures Position(queue, block) <= i ==> queue[i].block >= block
      {
        if i > 0 { assert queue[i] == queue[1..][i - 1]; }
      }
    }
  }

  function LastBlock(queue: seq<Group>): nat {
    if queue == [] then 0 else queue[|queue| - 1].block
  }

  lemma IncreasingAppend(queue: seq<Group>, g: Group)
    requires Increasing(queue) && (queue != [] ==> LastBlock(queue) < g.block)
    ensures Increasing(queue + [g])
  {
  }

  datatype PushResult = Pushed(revertTo: Option<nat>) | BlockMissing | Undecodable | NotNotified

  /** The depth limit, with the wrap-around of a chain shorter than the delay. */
  function Threshold(latest: nat, delay: nat): int {
    if latest >= delay then latest - delay else WORD + latest - delay
  }

  lemma ThresholdIs(latest: nat, delay: nat)
    ensures Threshold(latest, delay) == if latest >= delay then latest - delay else WORD + latest - delay
  {
  }

  class LogConfirmationQueue {
    var queue: seq<Group>
    var latestBlockNumber: nat
    const confirmationDelay: nat
    ghost var accepted: multiset<Log>
    ghost var confirmed: multiset<Log>
    ghost var dropped: multiset<Log>

    /** Every log taken in is still queued, or was confirmed, or was dropped: exactly one of them. */
    ghost predicate Valid()
      reads this
    {
      && Increasing(queue)
      && accepted == confirmed + dropped + multiset(Logs(queue))
    }

    constructor (delay: nat)
      ensures Valid() && queue == [] && confirmationDelay == delay && accepted == multiset{}
    {
      queue, latestBlockNumber, confirmationDelay := [], 0, delay;
      accepted, confirmed, dropped := multiset{}, multiset{}, multiset{};
    }

    /** The queue after the removal of the lowest removed block and all above. */
    ghost function Kept(removed: seq<Group>): seq<Group>
      reads this
    {
      if removed == [] then queue else queue[..Position(queue, removed[0].block)]
    }

    method Truncate(block: nat)
      requires Valid()
      modifies this
      ensures Valid() && queue == old(queue)[..Position(old(queue), block)]
      ensures |queue| <= |old(queue)| && queue == old(queue)[..|queue|]
      ensures forall i :: 0 <= i < |old(queue)| ==> (i < |queue| <==> old(queue)[i].block < block)
      ensures accepted == old(accepted) && confirmed == old(confirmed)
    {
      hide Logs, Position;
      PositionSplits(queue, block);
      var index := Position(queue, block);
      CutLogs(queue, index);
      dropped := dropped + multiset(Logs(queue[index..]));
      queue := queue[..index];
    }

    /** All groups go to the end of the queue, or none does, because the first is not above it. */
    method Extend(groups: seq<Group>) returns (ok: bool)
      requires Valid() && Increasing(groups)
      modifies this
      ensures Valid()
      ensures ok <==> groups == [] || groups[0].block > if old(queue) == [] then 0 else old(queue)[|old(queue)| - 1].block
      ensures queue == if ok then old(queue) + groups else old(queue)
      ensures accepted == if ok then old(accepted) + multiset(Logs(groups)) else old(accepted)
      ensures confirmed == old(confirmed) && dropped == old(dropped)
    {
      hide Logs, LogConfirmationQueue.Valid;
      NoLogs(groups);
      assert groups[..0] == [];
      for k := 0 to |groups|
        invariant Valid() && queue == old(queue) + groups[..k]
        invariant accepted == old(accepted) + multiset(Logs(groups[..k]))
        invariant confirmed == old(confirmed) && dropped == old(dropped)
        invariant k > 0 ==> groups[0].block > LastBlock(old(queue))
      {
        if k > 0 {
          assert LastBlock(queue) == groups[k - 1].block < groups[k].block;
        }
        if groups[k].block <= LastBlock(queue) {
          return false;
        }
        NextLogs(groups[..k], groups[k]);
        assert groups[..k + 1] == groups[..k] + [groups[k]];
        PushBack(groups[k]);
      }
      assert groups[..|groups|] == groups;
      return true;
    }

    method PushBack(g: Group)
      requires Valid() && g.block > LastBlock(queue)
      modifies this
      ensures Valid() && queue == old(queue) + [g] && accepted == old(accepted) + multiset(g.logs)
      ensures confirmed == old(confirmed) && dropped == old(dropped)
    {
      hide Logs;
      IncreasingAppend(queue, g);
      NextLogs(queue, g);
      queue := queue + [g];
      accepted := accepted + multiset(g.logs);
    }

    /**
     * A reorganisation first takes out the lowest removed block and everything above it; new
     * blocks are added only above what is left.  On every outcome the queue stays increasing.
     */
    method Push(logs: seq<Log>) returns (r: PushResult, ghost removed: seq<Group>, ghost added: seq<Group>)
      requires Valid()
      modifies this
      ensures Valid() && confirmed == old(confirmed)
      ensures r.BlockMissing? <==> !AllHaveBlocks(logs)
      ensures r.BlockMissing? ==> queue == old(queue) && accepted == old(accepted)
      ensures !r.BlockMissing? ==> GroupsOf(Pick(logs, true), removed) && GroupsOf(Pick(logs, false), added)
      ensures r.Undecodable? ==> queue == old(Kept(removed))
      ensures !r.BlockMissing? ==> (r.Undecodable? <==> removed != [] && removed[0].logs[0].txSeq.None?)
      ensures r.NotNotified? ==> added != [] && added[0].block <= LastBlock(old(Kept(removed))) && queue == old(Kept(removed))
      ensures r.Pushed? ==> (added == [] || added[0].block > LastBlock(old(Kept(removed)))) && queue == old(Kept(removed)) + added
      ensures r.Pushed? ==> r.revertTo == if removed == [] then None else removed[0].logs[0].txSeq
      ensures accepted == if r.Pushed? then old(accepted) + multiset(Pick(logs, false)) else old(accepted)
      ensures old(Kept(removed)) <= old(queue)
      ensures removed != [] ==> forall i :: 0 <= i < |old(queue)| ==>
        (i < |old(Kept(removed))| <==> old(queue)[i].block < removed[0].block)
    {
      hide GroupsOf, Increasing, Position, Pick, Logs, LogConfirmationQueue.Valid, AllHaveBlocks;
      removed, added := [], [];
      var ok, oldGroups, newGroups := Merge(logs);
      if !ok {
        return BlockMissing, [], [];
      }
      removed, added := oldGroups, newGroups;
      GroupsAre(Pick(logs, true), oldGroups);
      GroupsAre(Pick(logs, false), newGroups);
      var revertTo := None;
      if oldGroups != [] {
        Truncate(oldGroups[0].block);
        revertTo := oldGroups[0].logs[0].txSeq;
        if revertTo.None? {
          return Undecodable, oldGroups, newGroups;
        }
      }
      var pushed := Extend(newGroups);
      r := if pushed then Pushed(revertTo) else NotNotified;
    }

    /** Exactly the blocks up to the depth limit leave the queue, in order. */
    method ConfirmLogs(latest: nat) returns (logs: seq<Log>, ghost count: nat)
      requires Valid()
      modifies this
      ensures Valid() && latestBlockNumber == latest
      ensures count <= |old(queue)| && queue == old(queue)[count..] && logs == Logs(old(queue)[..count])
      ensures latest >= confirmationDelay ==> forall i :: 0 <= i < |old(queue)| ==>
        (i < count <==> old(queue)[i].block + confirmationDelay <= latest)
      ensures latest < confirmationDelay ==> forall i :: 0 <= i < |old(queue)| ==>
        (i < count <==> old(queue)[i].block + confirmationDelay <= 0x1_0000_0000_0000_0000 + latest)
      ensures confirmed == old(confirmed) + multiset(logs)
      ensures accepted == old(accepted) && dropped == old(dropped)
    {
      hide Logs, Threshold, Valid, Increasing;
      IncreasingQueue();
      ghost var q := queue;
      SetLatest(latest);
      NoLogs(q);
      logs, count := [], 0;
      while queue != [] && queue[0].block <= Threshold(latestBlockNumber, confirmationDelay)
        invariant Valid() && latestBlockNumber == latest
        invariant count <= |q| && queue == q[count..] && logs == Logs(q[..count])
        invariant forall i :: 0 <= i < count ==> q[i].block <= Threshold(latest, confirmationDelay)
        invariant confirmed == old(confirmed) + multiset(logs)
        invariant accepted == old(accepted) && dropped == old(dropped)
        decreases |queue|
      {
        assert q[..count + 1] == q[..count] + [q[count]];
        NextLogs(q[..count], q[count]);
        var front := PopFront();
        logs := logs + front.logs;
        count := count + 1;
      }
      ConfirmedPrefix(q, count, Threshold(latest, confirmationDelay));
      ThresholdIs(latest, confirmationDelay);
    }

    method SetLatest(latest: nat)
      requires Valid()
      modifies this`latestBlockNumber
      ensures Valid() && latestBlockNumber == latest
    {
      latestBlockNumber := latest;
    }

    lemma IncreasingQueue()
      requires Valid()
      ensures Increasing(queue)
    {
    }

    method PopFront() returns (g: Group)
      requires Valid() && queue != []
      modifies this
      ensures Valid() && g == old(queue)[0] && queue == old(queue)[1..]
      ensures confirmed == old(confirmed) + multiset(g.logs)
      ensures accepted == old(accepted) && dropped == old(dropped) && latestBlockNumber == old(latestBlockNumber)
    {
      g := queue[0];
      queue := queue[1..];
      confirmed := confirmed + multiset(g.logs);
    }
  }

  lemma CutLogs(queue: seq<Group>, index: nat)
    requires index <= |queue|
    ensures multiset(Logs(queue)) == multiset(Logs(queue[..index])) + multiset(Logs(queue[index..]))
  {
    hide Logs;
    LogsConcat(queue[..index], queue[index..]);
    assert queue == queue[..index] + queue[index..];
  }

  lemma NoLogs(groups: seq<Group>)
    ensures Logs(groups[..0]) == []
  {
  }

  lemma NextLogs(groups: seq<Group>, g: Group)
    ensures Logs(groups + [g]) == Logs(groups) + g.logs
  {
    LogsConcat(groups, [g]);
    assert [g][1..] == [];
  }

  lemma ConfirmedPrefix(q: seq<Group>, count: nat, limit: int)
    requires Increasing(q) && count <= |q| && (forall i :: 0 <= i < count ==> q[i].block <= limit)
    requires count < |q| ==> q[count].block > limit
    ensures forall i :: 0 <= i < |q| ==> (i < count <==> q[i].block <= limit)
  {
    forall i | count < i < |q| ensures q[i].block > limit {
      assert q[count].block < q[i].block;
    }
  }

  lemma NothingGrouped()
    ensures GroupsOf([], [])
  {
  }

  /** The logs are sorted into removed and new ones, each by block; one without a block stops it. */
  method Merge(logs: seq<Log>) returns (ok: bool, removed: seq<Group>, added: seq<Group>)
    ensures ok <==> AllHaveBlocks(logs)
    ensures ok ==> GroupsOf(Pick(logs, true), removed) && GroupsOf(Pick(logs, false), added)
  {
    hide GroupsOf;
    removed, added := [], [];
    NothingGrouped();
    assert logs[..0] == [];
    for k := 0 to |logs|
      invariant AllHaveBlocks(logs[..k])
      invariant GroupsOf(Pick(logs[..k], true), removed) && GroupsOf(Pick(logs[..k], false), added)
    {
      var log := logs[k];
      if log.block.None? {
        return false, [], [];
      }
      assert logs[..k + 1][..k] == logs[..k];
      if log.removed {
        AddToGroups(Pick(logs[..k], true), removed, log);
        removed := AddLog(removed, log.block.value, log);
      } else {
        AddToGroups(Pick(logs[..k], false), added, log);
        added := AddLog(added, log.block.value, log);
      }
      assert Pick(logs[..k + 1], !log.removed) == Pick(logs[..k], !log.removed);
    }
    assert logs[..|logs|] == logs;
    return true, removed, added;
  }

  /**
   Only blocks with `delay` blocks on top of them are confirmed, if and only if the chain is that
   long, or the difference that wraps around lies below every waiting block.
   */
  lemma ConfirmsOnlyDeep(queue: seq<Group>, latest: nat, delay: nat)
    requires Increasing(queue)
    ensures (forall i :: 0 <= i < |queue| && queue[i].block <= Threshold(latest, delay) ==> queue[i].block + delay <= latest)
            <==> latest >= delay || queue == [] || queue[0].block > WORD - (delay - latest)
  {
    if latest < delay && queue != [] && queue[0].block <= WORD - (delay - latest) {
      assert queue[0].block <= Threshold(latest, delay) && queue[0].block + delay > latest;
    }
  }

  lemma {:induction false} LogsCount(groups: seq<Group>)
    requires NoneEmpty(groups)
    ensures |Logs(groups)| >= |groups|
  {
    if groups != [] { LogsCount(groups[1..]); }
  }

  lemma OfBlockOne(log: Log, block: nat)
    ensures OfBlock([log], block) == if log.block == Some(block) then [log] else []
  {
    assert [log][..0] == [];
  }

  lemma OneGroup(log: Log, block: nat, groups: seq<Group>)
    requires GroupsOf([log], groups) && log.block == Some(block)
    ensures groups == [Group(block, [log])]
  {
    hide OfBlock, Increasing;
    LogsCount(groups);
    assert |Logs(groups)| == |multiset(Logs(groups))| == 1;
    if groups != [] {
      hide Logs;
      var b := groups[0].block;
      OfBlockOne(log, b);
      assert groups[0].logs == Lookup(groups, b);
    }
  }

  lemma LogsOfOne(g: Group)
    ensures Logs([g]) == g.logs
  {
  }

  lemma HasBlock(log: Log)
    requires log.block.Some?
    ensures AllHaveBlocks([log])
  {
  }

  lemma PickOne(log: Log, removed: bool)
    ensures Pick([log], removed) == if log.removed == removed then [log] else []
  {
    assert [log][..0] == [];
  }

  lemma NoGroup(groups: seq<Group>)
    requires GroupsOf([], groups)
    ensures groups == []
  {
    assert |Logs(groups)| == |multiset(Logs(groups))| == 0;
  }

  method QueueWith(log: Log, delay: nat, block: nat) returns (queue: LogConfirmationQueue)
    requires log.block == Some(block) && !log.removed && block > 0
    ensures fresh(queue) && queue.Valid() && queue.confirmationDelay == delay && queue.queue == [Group(block, [log])]
  {
    hide GroupsOf, Increasing, Position, AllHaveBlocks, LogConfirmationQueue.Valid, Logs;
    queue := new LogConfirmationQueue(delay);
    PickOne(log, true);
    PickOne(log, false);
    hide Pick;
    assert AllHaveBlocks([log]) by { HasBlock(log); }
    var pushed, removed, added := queue.Push([log]);
    NoGroup(removed);
    OneGroup(log, block, added);
  }

  /** While the chain is shorter than the delay, a log of a block just seen is confirmed at once. */
  method EarlyConfirmRun(log: Log) returns (logs: seq<Log>)
    requires log.block == Some(3) && !log.removed
    ensures logs == [log]
  {
    hide LogConfirmationQueue.Valid, Logs;
    var queue := QueueWith(log, 12, 3);
    ghost var g := Group(3, [log]);
    assert queue.queue[0] == g;
    ghost var count;
    logs, count := queue.ConfirmLogs(5);
    assert count == 1 && [g][..1] == [g];
    LogsOfOne(g);
  }
}
