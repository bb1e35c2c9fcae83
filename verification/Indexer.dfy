/**
 The reorg-safe event indexer (packages/services/src/indexer.ts:69-243) over the repository
 operations it uses (packages/services/src/db/repository.ts:3419-3495 and 3775-3975).

 One chain and one contract are indexed, so those two keys are left implicit.  A source answers
 every query from the chain it has at that moment, and logs in any order; `Shows(c)` says it has settled on c.
 */
module Indexer {
  import opened Wrappers
  import opened ChainHistory
  import opened Sorting

  datatype IndexError = NegativeConfirmations | CheckpointUnverifiable | BlockMissing | ForeignLog | LogOutOfRange
    | LogHashMismatch
  datatype IndexResult = IndexResult(inserted: nat, removed: nat, checkpoint: Option<Header>)
  datatype SyncResult = Synced(result: IndexResult) | Failed(error: IndexError)

  // ----- Source

  class ChainSource {
    const chainAt: nat -> Chain
    /** What a query for the logs of a range answers at a moment, in whatever order. */
    const logsAt: (nat, nat, nat) -> seq<ChainLog>
    var clock: nat

    constructor (chainAt: nat -> Chain, logsAt: (nat, nat, nat) -> seq<ChainLog>)
      ensures this.chainAt == chainAt && this.logsAt == logsAt && clock == 0
    {
      this.chainAt, this.logsAt := chainAt, logsAt;
      clock := 0;
    }

    /** From moment k on every query is answered from c. */
    ghost predicate ShowsFrom(c: Chain, k: nat) {
      && InBlockOrder(c)
      && (forall t: nat :: k <= t ==> chainAt(t) == c)
      && forall t: nat, start: nat, last: nat :: k <= t && start <= last < |c| ==>
           multiset(logsAt(t, start, last)) == multiset(LogsBetween(c, start, last + 1))
    }

    ghost predicate Shows(c: Chain)
      reads this
    {
      ShowsFrom(c, clock)
    }

    lemma ShowsLater(c: Chain, k: nat, later: nat)
      requires ShowsFrom(c, k) && k <= later
      ensures ShowsFrom(c, later)
    {
    }

    method GetLatestBlock() returns (latest: int)
      modifies this`clock
      ensures clock == old(clock) + 1
      ensures latest == |chainAt(old(clock))| - 1
    {
      latest := |chainAt(clock)| - 1;
      clock := clock + 1;
    }

    method GetBlockHash(n: nat) returns (hash: Option<Hash>)
      modifies this`clock
      ensures clock == old(clock) + 1
      ensures var c := chainAt(old(clock)); hash == if n < |c| then Some(HashAt(c, n)) else None
    {
      var c := chainAt(clock);
      hash := if n < |c| then Some(HashAt(c, n)) else None;
      clock := clock + 1;
    }

    method GetLogs(start: nat, last: nat) returns (logs: seq<ChainLog>)
      modifies this`clock
      ensures clock == old(clock) + 1
      ensures logs == logsAt(old(clock), start, last)
    {
      logs := logsAt(clock, start, last);
      clock := clock + 1;
    }
  }

  // ----- Repository

  function WithHeaders(stored: map<nat, Hash>, headers: seq<Header>): map<nat, Hash> {
    if headers == [] then stored
    else WithHeaders(stored, headers[..|headers| - 1])[headers[|headers| - 1].blockNumber :=
      headers[|headers| - 1].blockHash]
  }

  ghost predicate HeadersReach(headers: map<nat, Hash>, checkpoint: Option<Header>) {
    match checkpoint
    case None => headers == map[]
    case Some(tip) =>
      (forall n: nat :: n in headers <==> n <= tip.blockNumber) && headers[tip.blockNumber] == tip.blockHash
  }

  ghost predicate EventsMatch(events: Events, headers: map<nat, Hash>) {
    forall k :: k in events ==>
      && events[k].body.key == k && !events[k].foreign
      && events[k].blockNumber in headers && headers[events[k].blockNumber] == events[k].blockHash
  }

  class Repository {
    var checkpoint: Option<Header>
    var headers: map<nat, Hash>
    var events: Events

    constructor ()
      ensures Represents([])
    {
      checkpoint, headers, events := None, map[], map[];
    }

    /** The store is exactly the index of history h, checkpointed at its last block. */
    ghost predicate Represents(h: Chain)
      reads this
    {
      && checkpoint == (if h == [] then None else Some(Header(|h| - 1, h)))
      && headers == HeadersOf(h)
      && events == EventsOf(h)
    }

    /** The headers retained are those up to the checkpoint, and every event lies in one of their blocks. */
    ghost predicate Consistent()
      reads this
    {
      && HeadersReach(headers, checkpoint)
      && EventsMatch(events, headers)
    }

    /** The first block that is not indexed. */
    ghost function NextBlock(): nat
      reads this
    {
      if checkpoint == None then 0 else checkpoint.value.blockNumber + 1
    }

    method SaveIndexedHeaders(added: seq<Header>)
      modifies this`headers
      ensures headers == WithHeaders(old(headers), added)
    {
      for i := 0 to |added|
        invariant headers == WithHeaders(old(headers), added[..i])
      {
        assert added[..i + 1][..i] == added[..i];
        headers := headers[added[i].blockNumber := added[i].blockHash];
      }
      assert added[..|added|] == added;
    }

    method ProjectEvent(log: ChainLog)
      modifies this`events
      ensures events == old(events)[log.body.key := log.(removed := false)]
    {
      events := events[log.body.key := log.(removed := false)];
    }

    /** A removed log only marks the stored row. */
    method ProjectRemovedLog(log: ChainLog)
      modifies this`events
      ensures events == if log.body.key in old(events) then old(events)[log.body.key :=
        old(events)[log.body.key].(removed := true)] else old(events)
    {
      if log.body.key in events {
        events := events[log.body.key := events[log.body.key].(removed := true)];
      }
    }

    method SetCheckpoint(header: Header)
      modifies this`checkpoint
      ensures checkpoint == Some(header)
    {
      checkpoint := Some(header);
    }

    /** Delete every event and header above the ancestor and move the checkpoint to it. */
    method RollbackToBlock(ancestorBlock: int, ancestorHash: Option<Hash>)
      modifies this
      ensures events == if ancestorBlock < 0 then map[] else Below(old(events), ancestorBlock + 1)
      ensures headers == if ancestorBlock < 0 then map[]
        else map n | n in old(headers) && n <= ancestorBlock :: old(headers)[n]
      ensures checkpoint == if ancestorBlock < 0 || ancestorHash == None then None
        else Some(Header(ancestorBlock, ancestorHash.value))
    {
      if ancestorBlock < 0 {
        events, headers := map[], map[];
      } else {
        events := Below(events, ancestorBlock + 1);
        headers := map n | n in headers && n <= ancestorBlock :: headers[n];
      }
      checkpoint := if ancestorBlock < 0 || ancestorHash == None then None
        else Some(Header(ancestorBlock, ancestorHash.value));
    }
  }

  // ----- What one sync achieves

  /** The history indexed after a sync against c, or none when the checkpoint lies beyond c. */
  ghost function SyncSpec(h: Chain, c: Chain, confirmations: nat): Option<Chain> {
    var last := |c| - 1 - confirmations;
    if last < 0 then Some(h)
    else if |h| > |c| then None
    else Some(c[..if last + 1 < CommonLength(h, c) then CommonLength(h, c) else last + 1])
  }

  /**
   What a sync against c answers: it counts the logs of the blocks that the new history has and the part kept
   after a rollback had not, and names the last indexed block; below block 0 it looks at nothing.
   */
  ghost function SyncAnswer(h: Chain, c: Chain, confirmations: nat): SyncResult {
    if |c| - 1 - confirmations < 0 then Synced(IndexResult(0, 0, None))
    else
      var outcome := SyncSpec(h, c, confirmations);
      if outcome == None then Failed(CheckpointUnverifiable)
      else
        var end := |outcome.value|;
        Synced(IndexResult(|LogsBetween(c, CommonLength(h, c), end)|, 0, Some(Header(end - 1, c[..end]))))
  }

  ghost function HeaderRange(c: Chain, start: nat, end: nat): seq<Header>
    requires start <= end <= |c|
  {
    seq(end - start, i requires 0 <= i < end - start => Header(start + i, HashAt(c, start + i)))
  }

  lemma {:induction false} HeadersExtend(c: Chain, start: nat, end: nat)
    requires start <= end <= |c|
    ensures WithHeaders(HeadersOf(c[..start]), HeaderRange(c, start, end)) == HeadersOf(c[..end])
    decreases end
  {
    if start < end {
      HeadersExtend(c, start, end - 1);
      var range := HeaderRange(c, start, end);
      assert range[..|range| - 1] == HeaderRange(c, start, end - 1);
      assert forall n: nat :: n < end - 1 ==> HashAt(c[..end], n) == HashAt(c[..end - 1], n);
      assert HashAt(c[..end], end - 1) == HashAt(c, end - 1);
    }
  }

  lemma {:induction false} LogsAreInRange(c: Chain, start: nat, end: nat)
    requires start <= end <= |c|
    ensures forall i :: 0 <= i < |LogsBetween(c, start, end)| ==>
              var log := LogsBetween(c, start, end)[i];
              start <= log.blockNumber < end && log.blockHash == HashAt(c, log.blockNumber) && !log.removed
                && !log.foreign
    decreases end
  {
    if start < end {
      LogsAreInRange(c, start, end - 1);
    }
  }

  /** The logs a settled source returns for a range pass every check, and sorted they are the range's logs. */
  lemma FetchedLogsAreInOrder(events: Events, c: Chain, start: nat, end: nat, fetched: seq<ChainLog>)
    requires InBlockOrder(c) && start <= end <= |c| && multiset(fetched) == multiset(LogsBetween(c, start, end))
    ensures Sort(fetched, LogOrder) == LogsBetween(c, start, end)
    ensures Ingested(events, LogsBetween(c, start, end)) == Project(events, LogsBetween(c, start, end))
    ensures RemovedCount(LogsBetween(c, start, end)) == 0
    ensures forall i :: 0 <= i < |fetched| ==>
              !fetched[i].foreign && start <= fetched[i].blockNumber < end
                && fetched[i].blockHash == HashAt(c, fetched[i].blockNumber)
  {
    hide Ingested, Project, Sort, LogsBetween, InBlockOrder, RemovedCount;
    SortedLogsAreInOrder(c, start, end, fetched);
    LogsAreInRange(c, start, end);
    IngestedIsProjected(events, LogsBetween(c, start, end));
    forall i | 0 <= i < |fetched|
      ensures !fetched[i].foreign && start <= fetched[i].blockNumber < end
        && fetched[i].blockHash == HashAt(c, fetched[i].blockNumber)
    {
      assert fetched[i] in multiset(LogsBetween(c, start, end));
    }
  }

  lemma HeadersOfPrefix(h: Chain, count: nat)
    requires count <= |h|
    ensures (map n | n in HeadersOf(h) && n < count :: HeadersOf(h)[n]) == HeadersOf(h[..count])
    ensures HeadersOf([]) == map[]
  {
    assert forall n: nat :: n < count ==> HashAt(h[..count], n) == HashAt(h, n);
  }

  lemma RollbackRepresents(h: Chain, count: nat)
    requires FreshKeys(h) && count <= |h|
    ensures Below(EventsOf(h), count) == EventsOf(h[..count])
    ensures (map n | n in HeadersOf(h) && n < count :: HeadersOf(h)[n]) == HeadersOf(h[..count])
    ensures EventsOf([]) == map[] && HeadersOf([]) == map[]
  {
    hide EventsOf, HeadersOf, Below, FreshKeys;
    RollbackIsFaithful(h, count);
    HeadersOfPrefix(h, count);
    EmptyEvents();
  }

  lemma HeaderOfHistory(h: Chain, n: nat)
    requires n < |h|
    ensures n in HeadersOf(h) && HeadersOf(h)[n] == h[..n + 1]
  {
  }

  lemma EmptyEvents()
    ensures EventsOf([]) == map[]
  {
  }

  // ----- The indexer

  /** What one log does to the stored events: a removed one only marks its row. */
  function IngestLog(events: Events, log: ChainLog): Events {
    if !log.removed then events[log.body.key := log.(removed := false)]
    else if log.body.key in events then events[log.body.key := events[log.body.key].(removed := true)]
    else events
  }

  function Ingested(events: Events, logs: seq<ChainLog>): Events {
    if logs == [] then events else IngestLog(Ingested(events, logs[..|logs| - 1]), logs[|logs| - 1])
  }

  /** The log at i is about this event and was not removed, and every later one about it was. */
  ghost predicate IsLastProjected(logs: seq<ChainLog>, key: LogKey, i: int) {
    && 0 <= i < |logs| && logs[i].body.key == key && !logs[i].removed
    && forall j :: i < j < |logs| && logs[j].body.key == key ==> logs[j].removed
  }

  /** Some log from i on is about this event. */
  ghost predicate IsMentionedFrom(logs: seq<ChainLog>, key: LogKey, i: int) {
    exists j :: 0 <= j < |logs| && i <= j && logs[j].body.key == key
  }

  lemma LastProjectedStep(logs: seq<ChainLog>, key: LogKey)
    requires logs != []
    ensures var n := |logs| - 1;
            forall i :: IsLastProjected(logs, key, i) <==>
                          if logs[n].body.key == key && !logs[n].removed then i == n
                          else IsLastProjected(logs[..n], key, i)
  {
  }

  lemma MentionedStep(logs: seq<ChainLog>, key: LogKey)
    requires logs != []
    ensures var n := |logs| - 1;
            forall i :: IsMentionedFrom(logs, key, i) <==>
                          IsMentionedFrom(logs[..n], key, i) || (i <= n && logs[n].body.key == key)
  {
  }

  /**
   Ingestion keeps for each event its last log that was not removed, marked if a later log removed it; an event
   of which only removals are ingested keeps its row, now marked, and gets none if it had none.
   */
  lemma {:induction false} IngestedIff(events: Events, logs: seq<ChainLog>, key: LogKey)
    ensures forall i :: IsLastProjected(logs, key, i) ==>
                          key in Ingested(events, logs)
                          && Ingested(events, logs)[key] == logs[i].(removed := IsMentionedFrom(logs, key, i + 1))
    ensures (forall i :: !IsLastProjected(logs, key, i)) ==>
              && (key in Ingested(events, logs) <==> key in events)
              && (key in events ==> Ingested(events, logs)[key]
                                    == events[key].(removed := events[key].removed || IsMentionedFrom(logs, key, 0)))
  {
    if logs != [] {
      hide IsLastProjected, IsMentionedFrom;
      var n := |logs| - 1;
      IngestedIff(events, logs[..n], key);
      LastProjectedStep(logs, key);
      MentionedStep(logs, key);
      if logs[n].body.key == key && !logs[n].removed {
        assert IsLastProjected(logs, key, n);
      }
    } else {
      assert forall i :: !IsLastProjected(logs, key, i) && !IsMentionedFrom(logs, key, i);
    }
  }

  function RemovedCount(logs: seq<ChainLog>): (n: nat)
    ensures n <= |logs|
  {
    if logs == [] then 0 else RemovedCount(logs[..|logs| - 1]) + if logs[|logs| - 1].removed then 1 else 0
  }

  ghost function RemovedPlaces(logs: seq<ChainLog>): set<int> {
    set i | 0 <= i < |logs| && logs[i].removed
  }

  lemma {:induction false} RemovedAreCounted(logs: seq<ChainLog>)
    ensures RemovedCount(logs) == |RemovedPlaces(logs)|
  {
    if logs != [] {
      var n := |logs| - 1;
      RemovedAreCounted(logs[..n]);
      assert RemovedPlaces(logs) == RemovedPlaces(logs[..n]) + if logs[n].removed then {n} else {};
    }
  }

  /** The block of the last log that was not removed. */
  function LastKept(logs: seq<ChainLog>): Option<Header> {
    if logs == [] then None
    else if !logs[|logs| - 1].removed then Some(Header(logs[|logs| - 1].blockNumber, logs[|logs| - 1].blockHash))
    else LastKept(logs[..|logs| - 1])
  }

  lemma {:induction false} LastKeptIs(logs: seq<ChainLog>, i: int)
    requires -1 <= i < |logs| && (i >= 0 ==> !logs[i].removed)
    requires forall j :: i < j < |logs| ==> logs[j].removed
    ensures LastKept(logs) == if i < 0 then None else Some(Header(logs[i].blockNumber, logs[i].blockHash))
  {
    if i + 1 < |logs| {
      LastKeptIs(logs[..|logs| - 1], i);
    }
  }

  /** With no removed log ingestion is plain projection. */
  lemma {:induction false} IngestedIsProjected(events: Events, logs: seq<ChainLog>)
    requires forall i :: 0 <= i < |logs| ==> !logs[i].removed
    ensures Ingested(events, logs) == Project(events, logs) && RemovedCount(logs) == 0
    decreases |logs|
  {
    if logs != [] {
      IngestedIsProjected(events, logs[..|logs| - 1]);
      assert logs[|logs| - 1].(removed := false) == logs[|logs| - 1];
    }
  }

  /** One header for each block of the range, in order, and the same hashes by number. */
  ghost predicate AreHeaders(headers: seq<Header>, hashes: map<nat, Hash>, start: nat, end: nat) {
    && start <= end && |headers| == end - start
    && (forall i :: 0 <= i < |headers| ==> headers[i].blockNumber == start + i)
    && (forall n: nat :: n in hashes <==> start <= n < end)
    && forall n: nat :: start <= n < end ==> hashes[n] == headers[n - start].blockHash
  }

  /** Every log names this chain and contract, decodes, and lies in a block of the range with its fetched hash. */
  ghost predicate LogsAreValid(logs: seq<ChainLog>, start: nat, last: nat, hashes: map<nat, Hash>) {
    forall i :: 0 <= i < |logs| ==>
      && !logs[i].foreign && start <= logs[i].blockNumber <= last
      && logs[i].blockNumber in hashes && hashes[logs[i].blockNumber] == logs[i].blockHash
  }

  ghost predicate LogsMatch(logs: seq<ChainLog>, hashes: map<nat, Hash>) {
    forall i :: 0 <= i < |logs| ==>
      !logs[i].foreign && logs[i].blockNumber in hashes && hashes[logs[i].blockNumber] == logs[i].blockHash
  }

  lemma FrontHeaders(headers: seq<Header>, hashes: map<nat, Hash>, start: nat, end: nat)
    requires AreHeaders(headers, hashes, start, end) && start < end
    ensures AreHeaders(headers[..|headers| - 1], hashes - {end - 1}, start, end - 1)
    ensures headers[|headers| - 1] == Header(end - 1, hashes[end - 1])
    ensures hashes == (hashes - {end - 1})[end - 1 := hashes[end - 1]]
  {
  }

  lemma {:induction false} HeadersAdded(stored: map<nat, Hash>, headers: seq<Header>, hashes: map<nat, Hash>,
    start: nat, end: nat)
    requires AreHeaders(headers, hashes, start, end)
    ensures WithHeaders(stored, headers) == stored + hashes
    decreases |headers|
  {
    if headers == [] {
      assert hashes == map[];
    } else {
      hide AreHeaders;
      FrontHeaders(headers, hashes, start, end);
      HeadersAdded(stored, headers[..|headers| - 1], hashes - {end - 1}, start, end - 1);
      LastEntry(stored, hashes, end - 1);
    }
  }

  lemma LastEntry(stored: map<nat, Hash>, hashes: map<nat, Hash>, n: nat)
    requires n in hashes
    ensures stored + hashes == (stored + (hashes - {n}))[n := hashes[n]]
  {
  }

  /** Ingesting logs that match the headers keeps every event in a block with a retained header. */
  lemma {:induction false} IngestedMatch(events: Events, logs: seq<ChainLog>, headers: map<nat, Hash>)
    requires EventsMatch(events, headers) && LogsMatch(logs, headers)
    ensures EventsMatch(Ingested(events, logs), headers)
    decreases |logs|
  {
    if logs != [] {
      IngestedMatch(events, logs[..|logs| - 1], headers);
    }
  }

  lemma MoreHeadersMatch(events: Events, headers: map<nat, Hash>, more: map<nat, Hash>)
    requires EventsMatch(events, headers) && forall n :: n in more ==> n !in headers
    ensures EventsMatch(events, headers + more)
  {
  }

  lemma SortedLogsMatch(logs: seq<ChainLog>, hashes: map<nat, Hash>)
    requires LogsMatch(logs, hashes)
    ensures LogsMatch(Sort(logs, LogOrder), hashes)
  {
    hide Sort;
    SortKeeps(logs, LogOrder);
    forall i | 0 <= i < |Sort(logs, LogOrder)|
      ensures Sort(logs, LogOrder)[i] in logs
    {
      assert Sort(logs, LogOrder)[i] in multiset(Sort(logs, LogOrder));
    }
  }

  /** Storing a validated range on top of the checkpoint keeps the store consistent. */
  lemma RangeIsConsistent(stored: map<nat, Hash>, checkpoint: Option<Header>, events: Events, logs: seq<ChainLog>,
    headers: seq<Header>, hashes: map<nat, Hash>, start: nat, last: nat)
    requires HeadersReach(stored, checkpoint) && EventsMatch(events, stored) && start <= last
    requires start == if checkpoint == None then 0 else checkpoint.value.blockNumber + 1
    requires AreHeaders(headers, hashes, start, last + 1) && LogsAreValid(logs, start, last, hashes)
    ensures headers != [] && headers[|headers| - 1].blockNumber == last
    ensures HeadersReach(WithHeaders(stored, headers), Some(headers[|headers| - 1]))
    ensures EventsMatch(Ingested(events, Sort(logs, LogOrder)), WithHeaders(stored, headers))
  {
    hide Ingested, Sort, WithHeaders;
    assert LogsMatch(logs, hashes);
    HeadersAdded(stored, headers, hashes, start, last + 1);
    MoreHeadersMatch(events, stored, hashes);
    SortedLogsMatch(logs, hashes);
    IngestedMatch(events, Sort(logs, LogOrder), stored + hashes);
  }

  /** On a settled source the fetched range passes every check and extends the index of the part before it. */
  lemma SettledRange(c: Chain, start: nat, last: nat, logs: seq<ChainLog>, headers: seq<Header>, hashes: map<nat, Hash>)
    requires InBlockOrder(c) && start <= last < |c|
    requires multiset(logs) == multiset(LogsBetween(c, start, last + 1)) && headers == HeaderRange(c, start, last + 1)
    requires forall n: nat :: start <= n <= last ==> n in hashes && hashes[n] == HashAt(c, n)
    ensures LogsAreValid(logs, start, last, hashes)
    ensures WithHeaders(HeadersOf(c[..start]), headers) == HeadersOf(c[..last + 1])
    ensures Ingested(EventsOf(c[..start]), Sort(logs, LogOrder)) == EventsOf(c[..last + 1])
    ensures Sort(logs, LogOrder) == LogsBetween(c, start, last + 1) && RemovedCount(Sort(logs, LogOrder)) == 0
    ensures headers != [] && headers[|headers| - 1] == Header(last, c[..last + 1])
  {
    hide EventsOf, HeadersOf, Project, WithHeaders, LogsBetween, Ingested, Sort, InBlockOrder, RemovedCount;
    FetchedLogsAreInOrder(EventsOf(c[..start]), c, start, last + 1, logs);
    HeadersExtend(c, start, last + 1);
    EventsExtend(c, start, last + 1);
  }

  /** The index of a history is consistent. */
  lemma IndexIsConsistent(h: Chain)
    ensures HeadersReach(HeadersOf(h), if h == [] then None else Some(Header(|h| - 1, h)))
    ensures EventsMatch(EventsOf(h), HeadersOf(h))
  {
    hide EventsOf;
    if h != [] {
      assert HashAt(h, |h| - 1) == h;
    }
    forall k | k in EventsOf(h)
      ensures EventsOf(h)[k].body.key == k && !EventsOf(h)[k].foreign && EventsOf(h)[k].blockNumber < |h|
        && EventsOf(h)[k].blockHash == HashAt(h, EventsOf(h)[k].blockNumber)
    {
      IndexedEventsAreLogs(h, k);
    }
  }

  class ChainEventIndexer {
    const repository: Repository

    constructor (repository: Repository)
      ensures this.repository == repository
    {
      this.repository := repository;
    }

    method Ingest(logs: seq<ChainLog>) returns (result: IndexResult)
      modifies repository`events, repository`checkpoint
      ensures repository.events == Ingested(old(repository.events), logs)
      ensures repository.checkpoint == (if LastKept(logs).Some? then LastKept(logs) else old(repository.checkpoint))
      ensures result == IndexResult(|logs| - RemovedCount(logs), RemovedCount(logs), LastKept(logs))
    {
      var inserted, removed := 0, 0;
      var checkpoint: Option<Header> := None;
      assert logs[..0] == [];
      for i := 0 to |logs|
        invariant repository.events == Ingested(old(repository.events), logs[..i])
        invariant repository.checkpoint == if checkpoint.Some? then checkpoint else old(repository.checkpoint)
        invariant checkpoint == LastKept(logs[..i])
        invariant removed == RemovedCount(logs[..i]) && inserted + removed == i
      {
        assert logs[..i + 1][..i] == logs[..i];
        if logs[i].removed {
          repository.ProjectRemovedLog(logs[i]);
          removed := removed + 1;
        } else {
          repository.ProjectEvent(logs[i]);
          inserted := inserted + 1;
          checkpoint := Some(Header(logs[i].blockNumber, logs[i].blockHash));
          repository.SetCheckpoint(checkpoint.value);
        }
      }
      assert logs[..|logs|] == logs;
      return IndexResult(inserted, removed, checkpoint);
    }

    /** Collect the canonical headers of a range; a missing block stops the sync. */
    method FetchHeaders(source: ChainSource, start: nat, last: nat, ghost c: Chain)
      returns (headers: seq<Header>, hashes: map<nat, Hash>, ok: bool)
      requires start <= last
      modifies source`clock
      ensures source.clock >= old(source.clock)
      ensures old(source.Shows(c)) && last < |c| ==>
                && ok && headers == HeaderRange(c, start, last + 1)
                && (forall n: nat :: n in hashes <==> start <= n <= last)
                && forall n: nat :: start <= n <= last ==> hashes[n] == HashAt(c, n)
      ensures ok ==> AreHeaders(headers, hashes, start, last + 1)
    {
      headers, hashes := [], map[];
      for block := start to last + 1
        invariant source.clock >= old(source.clock)
        invariant AreHeaders(headers, hashes, start, block)
        invariant old(source.Shows(c)) && last < |c| ==>
                    && headers == HeaderRange(c, start, block)
                    && (forall n: nat :: n in hashes <==> start <= n < block)
                    && forall n: nat :: start <= n < block ==> hashes[n] == HashAt(c, n)
      {
        var hash := source.GetBlockHash(block);
        if hash == None {
          return headers, hashes, false;
        }
        headers := headers + [Header(block, hash.value)];
        hashes := hashes[block := hash.value];
      }
      return headers, hashes, true;
    }

    method ValidateLogs(logs: seq<ChainLog>, start: nat, last: nat, hashes: map<nat, Hash>)
      returns (error: Option<IndexError>)
      ensures error == None <==> LogsAreValid(logs, start, last, hashes)
      ensures error == Some(ForeignLog) ==> exists i :: 0 <= i < |logs| && logs[i].foreign
      ensures error == Some(LogOutOfRange) ==>
                exists i :: 0 <= i < |logs| && !(start <= logs[i].blockNumber <= last)
    {
      for i := 0 to |logs|
        invariant LogsAreValid(logs[..i], start, last, hashes)
      {
        if logs[i].foreign {
          return Some(ForeignLog);
        }
        if logs[i].blockNumber < start || logs[i].blockNumber > last {
          return Some(LogOutOfRange);
        }
        if logs[i].blockNumber !in hashes || hashes[logs[i].blockNumber] != logs[i].blockHash {
          return Some(LogHashMismatch);
        }
      }
      assert logs[..|logs|] == logs;
      return None;
    }

    /**
     Index the blocks start..last on top of a verified checkpoint; nothing is written before everything is
     validated.
     */
    method IndexRange(source: ChainSource, start: nat, last: nat, ghost c: Chain) returns (r: SyncResult)
      requires start <= last && repository.Consistent() && start == repository.NextBlock()
      modifies repository, source`clock
      ensures repository.Consistent()
      ensures r.Synced? ==> repository.NextBlock() == last + 1 && r.result.checkpoint == repository.checkpoint
      ensures source.clock >= old(source.clock)
      ensures old(source.Shows(c)) && last < |c| && old(repository.Represents(c[..start])) ==>
                && repository.Represents(c[..last + 1])
                && r == Synced(IndexResult(|LogsBetween(c, start, last + 1)|, 0, Some(Header(last, c[..last + 1]))))
      ensures r.Failed? ==> unchanged(repository)
    {
      hide EventsOf, HeadersOf, Project, WithHeaders, LogsBetween, Ingested, Sort, InBlockOrder, RemovedCount,
        HeadersReach, EventsMatch, AreHeaders, LogsAreValid, HeaderRange;
      var logs := source.GetLogs(start, last);
      var headers, hashes, ok := FetchHeaders(source, start, last, c);
      if !ok {
        return Failed(BlockMissing);
      }
      var error := ValidateLogs(logs, start, last, hashes);
      if old(source.Shows(c)) && last < |c| {
        SettledRange(c, start, last, logs, headers, hashes);
      }
      if error.Some? {
        return Failed(error.value);
      }
      RangeIsConsistent(repository.headers, repository.checkpoint, repository.events, logs, headers, hashes,
        start, last);
      r := Store(logs, headers);
    }

    /** Write the headers, ingest the logs in order, and advance to the last header, events or not. */
    method Store(logs: seq<ChainLog>, headers: seq<Header>) returns (r: SyncResult)
      requires headers != []
      modifies repository
      ensures repository.headers == WithHeaders(old(repository.headers), headers)
      ensures repository.events == Ingested(old(repository.events), Sort(logs, LogOrder))
      ensures repository.checkpoint == Some(headers[|headers| - 1])
      ensures r.Synced? && r.result.checkpoint == repository.checkpoint
      ensures r.result.removed == RemovedCount(Sort(logs, LogOrder))
      ensures r.result.inserted == |Sort(logs, LogOrder)| - RemovedCount(Sort(logs, LogOrder))
    {
      hide Ingested, WithHeaders, Sort, RemovedCount, LastKept;
      repository.SaveIndexedHeaders(headers);
      var result := Ingest(Sort(logs, LogOrder));
      var tip := headers[|headers| - 1];
      repository.SetCheckpoint(tip);
      return Synced(result.(checkpoint := Some(tip)));
    }

    /** Walk the retained headers down from the checkpoint to the first one the source still has. */
    method FindAncestor(source: ChainSource, checkpointBlock: nat, ghost h: Chain, ghost c: Chain)
      returns (block: int, hash: Option<Hash>)
      requires repository.Consistent() && repository.NextBlock() == checkpointBlock + 1
      modifies source`clock
      ensures source.clock >= old(source.clock)
      ensures -1 <= block < checkpointBlock
      ensures if block < 0 then hash == None else block in repository.headers && hash == Some(repository.headers[block])
      ensures old(source.Shows(c)) && repository.Represents(h) && !(h <= c) ==> block + 1 == CommonLength(h, c)
    {
      hide EventsOf, CommonLength, EventsMatch;
      var candidate := checkpointBlock - 1;
      block, hash := -1, None;
      ghost var settled := old(source.Shows(c)) && repository.Represents(h) && !(h <= c);
      while candidate >= 0
        invariant -1 <= candidate < checkpointBlock
        invariant source.clock >= old(source.clock)
        invariant settled ==> forall m: nat :: candidate + 1 < m <= |h| && m <= |c| ==> h[..m] != c[..m]
      {
        if candidate in repository.headers {
          var stored := repository.headers[candidate];
          var candidateHash := source.GetBlockHash(candidate);
          if candidateHash == Some(stored) {
            block, hash := candidate, candidateHash;
            if settled {
              CommonLengthIs(h, c, candidate + 1);
            }
            return;
          }
        }
        candidate := candidate - 1;
      }
      if settled {
        CommonLengthIs(h, c, 0);
      }
    }

    /** Leave the index of what is still canonical. */
    method RollBack(source: ChainSource, checkpointBlock: nat, ghost h: Chain, ghost c: Chain) returns (ghost kept: nat)
      requires repository.Consistent() && repository.NextBlock() == checkpointBlock + 1
      modifies repository, source`clock
      ensures source.clock >= old(source.clock)
      ensures repository.Consistent() && repository.NextBlock() == kept <= checkpointBlock
      ensures old(repository.Represents(h)) && FreshKeys(h) ==>
                kept < |h| && repository.Represents(h[..kept]) && FreshKeys(h[..kept])
      ensures old(source.Shows(c)) && old(repository.Represents(h)) && !(h <= c) ==> kept == CommonLength(h, c)
    {
      hide EventsOf, HeadersOf, CommonLength, FreshKeys, InBlockOrder;
      var ancestorBlock, ancestorHash := FindAncestor(source, checkpointBlock, h, c);
      if repository.Represents(h) && FreshKeys(h) {
        RollbackRepresents(h, ancestorBlock + 1);
        FreshPrefix(h, ancestorBlock + 1);
        if ancestorBlock >= 0 {
          HeaderOfHistory(h, ancestorBlock);
        }
      }
      repository.RollbackToBlock(ancestorBlock, ancestorHash);
      kept := ancestorBlock + 1;
    }

    /**
     Index up to the confirmed tip.  The recursion ends for every source, because the checkpoint
     strictly falls, and the store stays consistent;
       against a source that shows c it achieves what `SyncSpec` and answers what `SyncAnswer` says.
     */
    method Sync(source: ChainSource, confirmations: int, ghost h: Chain, ghost c: Chain) returns (r: SyncResult)
      requires repository.Consistent()
      modifies repository, source`clock
      ensures source.clock >= old(source.clock)
      ensures repository.Consistent()
      ensures confirmations < 0 ==> r == Failed(NegativeConfirmations) && unchanged(repository)
      ensures r.Synced? && r.result.checkpoint.Some? ==> r.result.checkpoint == repository.checkpoint
      ensures old(source.Shows(c)) && old(repository.Represents(h)) && FreshKeys(h) && 0 <= confirmations ==>
                var outcome := SyncSpec(h, c, confirmations);
                && r == SyncAnswer(h, c, confirmations) && (r.Failed? <==> outcome == None)
                && repository.Represents(if outcome == None then h else outcome.value)
      decreases repository.NextBlock()
    {
      hide EventsOf, HeadersOf, LogsBetween, CommonLength, InBlockOrder, FreshKeys, Below, HeadersReach, EventsMatch;
      ghost var settled := source.Shows(c) && repository.Represents(h) && FreshKeys(h);
      if confirmations < 0 {
        return Failed(NegativeConfirmations);
      }
      var latest := source.GetLatestBlock();
      var toBlock := latest - confirmations;
      if toBlock < 0 {
        return Synced(IndexResult(0, 0, None));
      }
      var checkpoint := repository.checkpoint;
      if checkpoint.Some? {
        var canonicalHash := source.GetBlockHash(checkpoint.value.blockNumber);
        if canonicalHash == None {
          return Failed(CheckpointUnverifiable);
        }
        if canonicalHash.value != checkpoint.value.blockHash {
          ghost var kept := RollBack(source, checkpoint.value.blockNumber, h, c);
          if settled {
            SyncSpecAfterRollback(h, c, confirmations);
          }
          r := Sync(source, confirmations, if settled then h[..kept] else [], c);
          return;
        }
      }
      if settled {
        SyncSpecOnPrefix(h, c, confirmations);
      }
      var fromBlock: nat := if checkpoint.Some? then checkpoint.value.blockNumber + 1 else 0;
      if fromBlock > toBlock {
        if settled {
          NoLogsBetween(c, |h|);
        }
        return Synced(IndexResult(0, 0, checkpoint));
      }
      r := IndexRange(source, fromBlock, toBlock, c);
    }

    /** One sync after another, each against a source that has settled on the chain of its moment. */
    method SyncAll(sources: seq<ChainSource>, steps: seq<SyncStep>) returns (results: seq<SyncResult>)
      requires |sources| == |steps| && repository.Represents([])
      requires forall i :: 0 <= i < |steps| ==> sources[i].Shows(steps[i].chain) && FreshKeys(steps[i].chain)
      modifies repository, sources
      ensures repository.Represents(RunSyncs(steps))
      ensures |results| == |steps|
      ensures forall i :: 0 <= i < |steps| ==> results[i] == AnswerAt(steps, i)
    {
      hide SyncSpec, FreshKeys, EventsOf, HeadersOf, ChainSource.ShowsFrom, RunSyncs, SyncAnswer,
        Repository.Represents, HeadersReach, EventsMatch;
      results := [];
      RepresentedIsConsistent(repository, []);
      RunsOfNothing(steps);
      for i := 0 to |steps|
        invariant repository.Represents(RunSyncs(steps[..i])) && repository.Consistent() && |results| == i
        invariant forall j :: 0 <= j < |steps| ==> old(sources[j].clock) <= sources[j].clock
        invariant forall j :: 0 <= j < i ==> results[j] == AnswerAt(steps, j)
      {
        FreshRun(steps, i);
        RunsStep(steps, i);
        sources[i].ShowsLater(steps[i].chain, old(sources[i].clock), sources[i].clock);
        var r := Sync(sources[i], steps[i].confirmations, RunSyncs(steps[..i]), steps[i].chain);
        results := results + [r];
      }
      assert steps[..|steps|] == steps;
    }
  }

  lemma RepresentedIsConsistent(repository: Repository, h: Chain)
    requires repository.Represents(h)
    ensures repository.Consistent()
  {
    hide EventsOf, HeadersOf, HeadersReach, EventsMatch;
    IndexIsConsistent(h);
  }

  /** What call i of a run answers: its counts and its checkpoint depend on the steps alone. */
  ghost function AnswerAt(steps: seq<SyncStep>, i: nat): SyncResult
    requires i < |steps|
  {
    SyncAnswer(RunSyncs(steps[..i]), steps[i].chain, steps[i].confirmations)
  }

  lemma RunsOfNothing(steps: seq<SyncStep>)
    ensures RunSyncs(steps[..0]) == []
  {
  }

  lemma RunsStep(steps: seq<SyncStep>, i: nat)
    requires i < |steps|
    ensures var outcome := SyncSpec(RunSyncs(steps[..i]), steps[i].chain, steps[i].confirmations);
            RunSyncs(steps[..i + 1]) == if outcome == None then RunSyncs(steps[..i]) else outcome.value
  {
    hide SyncSpec;
    assert steps[..i + 1][..i] == steps[..i];
  }

  lemma FreshRun(steps: seq<SyncStep>, i: nat)
    requires i <= |steps| && forall j :: 0 <= j < |steps| ==> FreshKeys(steps[j].chain)
    ensures FreshKeys(RunSyncs(steps[..i]))
  {
    hide FreshKeys, RunSyncs;
    RunsIndexRealHistory(steps[..i]);
  }

  /** Against a chain that extends the indexed history a sync only adds blocks. */
  lemma SyncSpecOnPrefix(h: Chain, c: Chain, confirmations: nat)
    ensures h <= c && 0 <= |c| - 1 - confirmations ==>
              SyncSpec(h, c, confirmations) == Some(c[..if |c| - confirmations < |h| then |h| else |c| - confirmations])
                && c[..|h|] == h && CommonLength(h, c) == |h|
  {
    if h <= c {
      assert h[..|h|] == h;
      CommonLengthIs(h, c, |h|);
    }
  }

  lemma NoLogsBetween(c: Chain, n: nat)
    requires n <= |c|
    ensures LogsBetween(c, n, n) == []
  {
  }

  /** Rolling back to the common ancestor does not change what the sync achieves and answers. */
  lemma SyncSpecAfterRollback(h: Chain, c: Chain, confirmations: nat)
    requires |h| <= |c|
    ensures SyncSpec(h[..CommonLength(h, c)], c, confirmations) == SyncSpec(h, c, confirmations)
         || |c| - 1 - confirmations < 0
    ensures SyncAnswer(h[..CommonLength(h, c)], c, confirmations) == SyncAnswer(h, c, confirmations)
  {
    hide LogsBetween;
    var k := CommonLength(h, c);
    assert h[..k][..k] == h[..k];
    CommonLengthIs(h[..k], c, k);
  }

  // ----- Runs of syncs against a reorganizing chain

  datatype SyncStep = SyncStep(chain: Chain, confirmations: nat)

  /** The history indexed after a run of syncs, each against the chain of its moment; a failed sync changes nothing. */
  ghost function RunSyncs(steps: seq<SyncStep>): Chain {
    if steps == [] then []
    else
      var h := RunSyncs(steps[..|steps| - 1]);
      var last := steps[|steps| - 1];
      var outcome := SyncSpec(h, last.chain, last.confirmations);
      if outcome == None then h else outcome.value
  }

  /**
   A successful sync ends on the canonical chain, at or past the confirmed tip, drops no canonical
   block, and repeating it on the unchanged chain changes nothing.
   */
  lemma SyncEndsCanonical(h: Chain, c: Chain, confirmations: nat)
    requires SyncSpec(h, c, confirmations).Some? && 0 <= |c| - 1 - confirmations
    ensures var h' := SyncSpec(h, c, confirmations).value;
            && h' <= c && |c| - confirmations <= |h'|
            && (forall m: nat :: m <= |h| && m <= |c| && h[..m] == c[..m] ==> m <= |h'|)
            && SyncSpec(h', c, confirmations) == Some(h')
  {
    var h' := SyncSpec(h, c, confirmations).value;
    forall m: nat | m <= |h| && m <= |c| && h[..m] == c[..m]
      ensures m <= |h'|
    {
      CommonLengthIsLongest(h, c, m);
    }
    SyncSpecOnPrefix(h', c, confirmations);
  }

  /** Whatever reorgs happen between calls, the indexed history is always a prefix of a chain that was shown. */
  lemma {:induction false} RunsIndexRealHistory(steps: seq<SyncStep>)
    requires forall i :: 0 <= i < |steps| ==> FreshKeys(steps[i].chain)
    ensures FreshKeys(RunSyncs(steps))
    ensures RunSyncs(steps) == [] || exists i :: 0 <= i < |steps| && RunSyncs(steps) <= steps[i].chain
    decreases |steps|
  {
    if steps == [] {
      assert FreshKeys([]);
    } else {
      var n := |steps| - 1;
      var front, last := steps[..n], steps[n];
      RunsIndexRealHistory(front);
      var h := RunSyncs(front);
      if SyncSpec(h, last.chain, last.confirmations).Some? && 0 <= |last.chain| - 1 - last.confirmations {
        SyncEndsCanonical(h, last.chain, last.confirmations);
        var h' := RunSyncs(steps);
        assert h' == last.chain[..|h'|];
        FreshPrefix(last.chain, |h'|);
      } else if h != [] {
        var i :| 0 <= i < |front| && h <= front[i].chain;
        assert h <= steps[i].chain;
      }
    }
  }

  /** After a successful last sync the projected events are exactly the canonical logs up to the checkpoint. */
  lemma RunEndsWithCanonicalEvents(steps: seq<SyncStep>, key: LogKey)
    requires steps != [] && forall i :: 0 <= i < |steps| ==> FreshKeys(steps[i].chain)
    requires var last := steps[|steps| - 1];
             && 0 <= |last.chain| - 1 - last.confirmations
             && SyncSpec(RunSyncs(steps[..|steps| - 1]), last.chain, last.confirmations).Some?
    ensures var h, c := RunSyncs(steps), steps[|steps| - 1].chain;
            && h <= c
            && (key in EventsOf(h) ==>
                  && EventsOf(h)[key].blockNumber < |h| && EventsOf(h)[key].body.key == key
                  && EventsOf(h)[key] in BlockLogs(c, EventsOf(h)[key].blockNumber))
            && (forall n: nat, i: nat ::
              n < |h| && i < |c[n].logs| && c[n].logs[i].key == key && UniqueInBlock(c[n], i) ==>
                  key in EventsOf(h) && EventsOf(h)[key] == BlockLogs(c, n)[i])
  {
    hide EventsOf, FreshKeys, SyncSpec;
    var h, c := RunSyncs(steps), steps[|steps| - 1].chain;
    SyncEndsCanonical(RunSyncs(steps[..|steps| - 1]), c, steps[|steps| - 1].confirmations);
    RunsIndexRealHistory(steps);
    assert h == c[..|h|];
    if key in EventsOf(h) {
      IndexedEventsAreLogs(h, key);
      BlockLogsOfPrefix(c, |h|, EventsOf(h)[key].blockNumber);
    }
    forall n: nat, i: nat | n < |h| && i < |c[n].logs| && c[n].logs[i].key == key && UniqueInBlock(c[n], i)
      ensures key in EventsOf(h) && EventsOf(h)[key] == BlockLogs(c, n)[i]
    {
      assert h[n] == c[n];
      CanonicalLogsAreIndexed(h, n, i);
      BlockLogsOfPrefix(c, |h|, n);
    }
  }

  ghost predicate UniqueInBlock(block: BlockBody, i: nat)
    requires i < |block.logs|
  {
    forall j :: 0 <= j < |block.logs| && j != i ==> block.logs[j].key != block.logs[i].key
  }
}
