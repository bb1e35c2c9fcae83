/**
 Block histories and what a faithful index of one contains.

 Hashes are ideal: the hash of a block stands for its whole history, so equal hashes mean equal
 prefixes.  This is the hash-link of a blockchain with collisions ruled out.
 */
module ChainHistory {
  import opened Sorting

  datatype LogKey = LogKey(transaction: string, logIndex: nat)
  datatype LogBody = LogBody(key: LogKey, payload: string)
  datatype BlockBody = BlockBody(nonce: nat, logs: seq<LogBody>)

  type Chain = seq<BlockBody>
  type Hash = Chain

  /** A foreign log names another chain or contract, or does not decode. */
  datatype ChainLog = ChainLog(body: LogBody, blockNumber: nat, blockHash: Hash, removed: bool, foreign: bool)
  datatype Header = Header(blockNumber: nat, blockHash: Hash)

  type Events = map<LogKey, ChainLog>

  function HashAt(c: Chain, n: nat): Hash
    requires n < |c|
  {
    c[..n + 1]
  }

  /** The logs of block n as the node reports them. */
  function BlockLogs(c: Chain, n: nat): (r: seq<ChainLog>)
    requires n < |c|
    ensures |r| == |c[n].logs|
    ensures forall i :: 0 <= i < |r| ==> r[i] == ChainLog(c[n].logs[i], n, HashAt(c, n), false, false)
  {
    seq(|c[n].logs|, i requires 0 <= i < |c[n].logs| => ChainLog(c[n].logs[i], n, HashAt(c, n), false, false))
  }

  /** The logs of the blocks start..end in chain order. */
  function LogsBetween(c: Chain, start: nat, end: nat): seq<ChainLog>
    requires start <= end <= |c|
    decreases end
  {
    if start == end then [] else LogsBetween(c, start, end - 1) + BlockLogs(c, end - 1)
  }

  /** Upserting one log after another, keyed by transaction and log index. */
  function Project(events: Events, logs: seq<ChainLog>): Events {
    if logs == [] then events
    else Project(events, logs[..|logs| - 1])[logs[|logs| - 1].body.key := logs[|logs| - 1]]
  }

  function LogOrder(log: ChainLog): (nat, nat) {
    (log.blockNumber, log.body.key.logIndex)
  }

  /** A node numbers the logs of each block in their order. */
  ghost predicate InBlockOrder(c: Chain) {
    forall n, i, j :: 0 <= n < |c| && 0 <= i < j < |c[n].logs| ==> c[n].logs[i].key.logIndex < c[n].logs[j].key.logIndex
  }

  /** The logs of a range are strictly ordered by block and log index. */
  lemma {:induction false} LogsAreOrdered(c: Chain, start: nat, end: nat)
    requires InBlockOrder(c) && start <= end <= |c|
    ensures Ordered(LogsBetween(c, start, end), LogOrder) && DistinctKeys(LogsBetween(c, start, end), LogOrder)
    ensures forall i :: 0 <= i < |LogsBetween(c, start, end)| ==>
      start <= LogsBetween(c, start, end)[i].blockNumber < end
    decreases end
  {
    if start < end {
      LogsAreOrdered(c, start, end - 1);
    }
  }

  /** Whatever order the node returns them in, sorting restores the chain order. */
  lemma SortedLogsAreInOrder(c: Chain, start: nat, end: nat, fetched: seq<ChainLog>)
    requires InBlockOrder(c) && start <= end <= |c| && multiset(fetched) == multiset(LogsBetween(c, start, end))
    ensures Sort(fetched, LogOrder) == LogsBetween(c, start, end)
  {
    LogsAreOrdered(c, start, end);
    SortRestores(fetched, LogsBetween(c, start, end), LogOrder);
  }

  // ----- The faithful index of a history

  ghost function EventsOf(h: Chain): Events {
    if h == [] then map[] else Project(EventsOf(h[..|h| - 1]), BlockLogs(h, |h| - 1))
  }

  ghost function HeadersOf(h: Chain): map<nat, Hash> {
    map n: nat | n < |h| :: HashAt(h, n)
  }

  /** No log of a block reuses the key of an earlier block's log. */
  ghost predicate FreshKeys(c: Chain) {
    forall n, i :: 0 <= n < |c| && 0 <= i < |c[n].logs| ==> c[n].logs[i].key !in EventsOf(c[..n])
  }

  lemma {:induction false} ProjectConcat(events: Events, a: seq<ChainLog>, b: seq<ChainLog>)
    ensures Project(events, a + b) == Project(Project(events, a), b)
    decreases |b|
  {
    if b == [] {
      assert a + b == a;
    } else {
      var front := b[..|b| - 1];
      assert (a + b)[..|a + b| - 1] == a + front;
      ProjectConcat(events, a, front);
    }
  }

  lemma BlockLogsOfPrefix(c: Chain, m: nat, n: nat)
    requires n < m <= |c|
    ensures BlockLogs(c[..m], n) == BlockLogs(c, n)
  {
    assert c[..m][..n + 1] == c[..n + 1];
  }

  lemma EventsOfPrefix(c: Chain, n: nat)
    requires n < |c|
    ensures EventsOf(c[..n + 1]) == Project(EventsOf(c[..n]), BlockLogs(c, n))
  {
    hide Project, BlockLogs;
    assert c[..n + 1][..n] == c[..n];
    BlockLogsOfPrefix(c, n + 1, n);
  }

  lemma LogsOfLastBlock(c: Chain, start: nat, end: nat)
    requires start < end <= |c|
    ensures LogsBetween(c, start, end) == LogsBetween(c, start, end - 1) + BlockLogs(c, end - 1)
  {
    hide BlockLogs;
  }

  /** Projecting the missing blocks' logs extends a faithful index to a longer prefix. */
  lemma {:induction false} EventsExtend(c: Chain, start: nat, end: nat)
    requires start <= end <= |c|
    ensures EventsOf(c[..end]) == Project(EventsOf(c[..start]), LogsBetween(c, start, end))
    decreases end
  {
    hide EventsOf, BlockLogs;
    if start < end {
      hide Project, LogsBetween;
      LogsOfLastBlock(c, start, end);
      var known := EventsOf(c[..start]);
      var added, last := LogsBetween(c, start, end - 1), BlockLogs(c, end - 1);
      EventsExtend(c, start, end - 1);
      EventsOfPrefix(c, end - 1);
      ProjectConcat(known, added, last);
    }
  }

  lemma {:induction false} EventsAreOfHistory(h: Chain)
    ensures forall k :: k in EventsOf(h) ==>
              && EventsOf(h)[k].body.key == k && EventsOf(h)[k].blockNumber < |h| && !EventsOf(h)[k].removed
              && EventsOf(h)[k].blockHash == HashAt(h, EventsOf(h)[k].blockNumber)
    decreases |h|
  {
    if h != [] {
      var front := h[..|h| - 1];
      EventsAreOfHistory(front);
      assert forall n: nat :: n < |front| ==> HashAt(front, n) == HashAt(h, n);
      ProjectedEventsKeep(EventsOf(front), BlockLogs(h, |h| - 1), h);
    }
  }

  lemma {:induction false} ProjectedEventsKeep(events: Events, logs: seq<ChainLog>, h: Chain)
    requires forall k :: k in events ==>
               events[k].body.key == k && events[k].blockNumber < |h| && !events[k].removed
                 && events[k].blockHash == HashAt(h, events[k].blockNumber)
    requires forall i :: 0 <= i < |logs| ==>
      logs[i].blockNumber < |h| && !logs[i].removed && logs[i].blockHash == HashAt(h, logs[i].blockNumber)
    ensures forall k :: k in Project(events, logs) ==>
              && Project(events, logs)[k].body.key == k && Project(events, logs)[k].blockNumber < |h|
              && !Project(events, logs)[k].removed
              && Project(events, logs)[k].blockHash == HashAt(h, Project(events, logs)[k].blockNumber)
    decreases |logs|
  {
    if logs != [] {
      ProjectedEventsKeep(events, logs[..|logs| - 1], h);
    }
  }

  /** Every indexed event is a log of the history. */
  lemma {:induction false} IndexedEventsAreLogs(h: Chain, k: LogKey)
    requires k in EventsOf(h)
    ensures EventsOf(h)[k].body.key == k && EventsOf(h)[k].blockNumber < |h|
      && EventsOf(h)[k] in BlockLogs(h, EventsOf(h)[k].blockNumber)
    decreases |h|
  {
    var n := |h| - 1;
    EventsAreOfHistory(h);
    ProjectComesFrom(EventsOf(h[..n]), BlockLogs(h, n), k);
    var log := EventsOf(h)[k];
    if log !in BlockLogs(h, n) {
      IndexedEventsAreLogs(h[..n], k);
      BlockLogsOfPrefix(h, n, log.blockNumber);
    } else {
      var i :| 0 <= i < |BlockLogs(h, n)| && BlockLogs(h, n)[i] == log;
    }
  }

  lemma {:induction false} ProjectComesFrom(events: Events, logs: seq<ChainLog>, k: LogKey)
    requires k in Project(events, logs)
    ensures Project(events, logs)[k] in logs || (k in events && Project(events, logs)[k] == events[k])
    decreases |logs|
  {
    if logs != [] && logs[|logs| - 1].body.key != k {
      ProjectComesFrom(events, logs[..|logs| - 1], k);
    }
  }

  /** Every canonical log is in the faithful index, under its own key. */
  lemma {:induction false} CanonicalLogsAreIndexed(h: Chain, n: nat, i: nat)
    requires FreshKeys(h) && n < |h| && i < |h[n].logs|
    requires forall j :: 0 <= j < |h[n].logs| && j != i ==> h[n].logs[j].key != h[n].logs[i].key
    ensures h[n].logs[i].key in EventsOf(h) && EventsOf(h)[h[n].logs[i].key] == BlockLogs(h, n)[i]
    decreases |h|
  {
    hide Project;
    var front, key := h[..|h| - 1], h[n].logs[i].key;
    if n == |h| - 1 {
      ProjectFinds(EventsOf(front), BlockLogs(h, n), i);
    } else {
      FreshPrefix(h, |h| - 1);
      CanonicalLogsAreIndexed(front, n, i);
      BlockLogsOfPrefix(h, |h| - 1, n);
      LastBlockIsFresh(h, key);
      ProjectKeeps(EventsOf(front), BlockLogs(h, |h| - 1), key);
    }
  }

  lemma LastBlockIsFresh(h: Chain, key: LogKey)
    requires FreshKeys(h) && h != []
    ensures var last := BlockLogs(h, |h| - 1);
            && (forall j :: 0 <= j < |last| ==>
              last[j].body.key !in EventsOf(h[..|h| - 1]) && |h| - 1 <= last[j].blockNumber)
            && (key in EventsOf(h[..|h| - 1]) ==> forall j :: 0 <= j < |last| ==> last[j].body.key != key)
  {
    hide EventsOf;
    var n := |h| - 1;
    var last := BlockLogs(h, n);
    forall j | 0 <= j < |last|
      ensures last[j].body.key !in EventsOf(h[..n])
    {
      assert h[n].logs[j].key !in EventsOf(h[..n]);
    }
  }

  lemma {:induction false} ProjectFinds(events: Events, logs: seq<ChainLog>, i: nat)
    requires i < |logs|
    requires forall j :: 0 <= j < |logs| && j != i ==> logs[j].body.key != logs[i].body.key
    ensures logs[i].body.key in Project(events, logs) && Project(events, logs)[logs[i].body.key] == logs[i]
    decreases |logs|
  {
    if i < |logs| - 1 {
      ProjectFinds(events, logs[..|logs| - 1], i);
    }
  }

  lemma {:induction false} ProjectKeeps(events: Events, logs: seq<ChainLog>, key: LogKey)
    requires key in events && forall j :: 0 <= j < |logs| ==> logs[j].body.key != key
    ensures key in Project(events, logs) && Project(events, logs)[key] == events[key]
    decreases |logs|
  {
    if logs != [] {
      ProjectKeeps(events, logs[..|logs| - 1], key);
    }
  }

  lemma FreshPrefix(h: Chain, n: nat)
    requires FreshKeys(h) && n <= |h|
    ensures FreshKeys(h[..n])
  {
    var p := h[..n];
    forall m, i | 0 <= m < |p| && 0 <= i < |p[m].logs|
      ensures p[m].logs[i].key !in EventsOf(p[..m])
    {
      assert p[..m] == h[..m] && p[m] == h[m];
    }
  }

  // ----- Rolling back

  function Below(events: Events, count: nat): Events {
    map k | k in events && events[k].blockNumber < count :: events[k]
  }

  lemma {:induction false} BelowDropsFreshLogs(events: Events, logs: seq<ChainLog>, count: nat)
    requires forall j :: 0 <= j < |logs| ==> logs[j].body.key !in events && count <= logs[j].blockNumber
    ensures Below(Project(events, logs), count) == Below(events, count)
    decreases |logs|
  {
    if logs != [] {
      BelowDropsFreshLogs(events, logs[..|logs| - 1], count);
      BelowAfterUpsert(Project(events, logs[..|logs| - 1]), logs[|logs| - 1], count, events);
    }
  }

  lemma BelowAfterUpsert(projected: Events, log: ChainLog, count: nat, events: Events)
    requires Below(projected, count) == Below(events, count)
    requires log.body.key !in events && count <= log.blockNumber
    ensures Below(projected[log.body.key := log], count) == Below(events, count)
  {
    var after := projected[log.body.key := log];
    forall k
      ensures k in Below(after, count) <==> k in Below(events, count)
      ensures k in Below(after, count) ==> Below(after, count)[k] == Below(events, count)[k]
    {
      assert k in Below(projected, count) <==> k in Below(events, count);
      assert k in Below(projected, count) ==> Below(projected, count)[k] == Below(events, count)[k];
    }
  }

  /** Deleting everything at or above a height leaves the faithful index of the shorter history. */
  lemma {:induction false} RollbackIsFaithful(h: Chain, count: nat)
    requires FreshKeys(h) && count <= |h|
    ensures Below(EventsOf(h), count) == EventsOf(h[..count])
    decreases |h|
  {
    hide Project;
    if count == |h| {
      assert h[..count] == h;
      NothingAbove(h);
    } else {
      var front := h[..|h| - 1];
      FreshPrefix(h, |h| - 1);
      RollbackIsFaithful(front, count);
      assert front[..count] == h[..count];
      LastBlockIsFresh(h, LogKey("", 0));
      BelowDropsFreshLogs(EventsOf(front), BlockLogs(h, |h| - 1), count);
    }
  }

  lemma NothingAbove(h: Chain)
    ensures Below(EventsOf(h), |h|) == EventsOf(h)
  {
    hide EventsOf;
    EventsAreOfHistory(h);
  }

  // ----- Common prefixes

  /** The length of the longest common prefix that is no longer than n. */
  ghost function CommonBelow(h: Chain, c: Chain, n: nat): (r: nat)
    requires n <= |h|
    ensures r <= n && r <= |c| && h[..r] == c[..r]
  {
    if n <= |c| && h[..n] == c[..n] then n else CommonBelow(h, c, n - 1)
  }

  ghost function CommonLength(h: Chain, c: Chain): nat {
    CommonBelow(h, c, |h|)
  }

  lemma {:induction false} CommonBelowIsLongest(h: Chain, c: Chain, n: nat, m: nat)
    requires m <= n <= |h| && m <= |c| && h[..m] == c[..m]
    ensures m <= CommonBelow(h, c, n)
    decreases n
  {
    if !(n <= |c| && h[..n] == c[..n]) {
      CommonBelowIsLongest(h, c, n - 1, m);
    }
  }

  /** No common block lies above the common length. */
  lemma CommonLengthIsLongest(h: Chain, c: Chain, m: nat)
    requires m <= |h| && m <= |c| && h[..m] == c[..m]
    ensures m <= CommonLength(h, c)
  {
    CommonBelowIsLongest(h, c, |h|, m);
  }

  /** A common prefix above which nothing is common is the longest one. */
  lemma CommonLengthIs(h: Chain, c: Chain, n: nat)
    requires n <= |h| && n <= |c| && h[..n] == c[..n]
    requires forall m: nat :: n < m <= |h| && m <= |c| ==> h[..m] != c[..m]
    ensures CommonLength(h, c) == n
  {
    CommonLengthIsLongest(h, c, n);
  }
}
