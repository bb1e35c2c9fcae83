/**
 Cursor pagination of subgraph observations (packages/graph/src/index.ts:268-376).

 Identifiers are ranked by the server's ascending order, 0 being the empty string that starts the
 walk; no row has it.  Hex strings are lower-cased.  What the subgraph and the chain answer may
 change from one query to the next.
 */
module Pagination {
  import opened Sorting
  import opened Wrappers

  datatype Error =
    | ChainMismatch | FinalityMissing | FinalityOutOfRange | SourceMismatch
    | DeploymentMismatch | IndexingErrors | IndexAhead | IndexLagging | NotFinal | MetaNotCanonical
    | RowNotFinal | RowFromFuture | RowStale | RowReorged | ObservedInFuture | ObservedStale
    | DidNotAdvance

  datatype Row = Row(id: nat, indexedBlock: nat, indexedBlockHash: string, observedAt: int)
  datatype Meta = Meta(deployment: string, hasIndexingErrors: bool, blockNumber: nat, blockHash: Option<string>)
  datatype Finality = FINAL | SAFE
  datatype Observation = Observation(row: Row, retrievedAt: int, finality: Finality)

  datatype Config = Config(chainId: nat, deploymentId: string, pageSize: nat, maxIndexedLagBlocks: nat,
    maxObservationAgeSeconds: nat)
  datatype Options = Options(sourceId: string, nowSeconds: int, finalityBlock: Option<int>)

  /** The answers to query number q: rows after a cursor, metadata, chain head and block hashes. */
  datatype Outside = Outside(
    chainId: nat, rows: (nat, nat) -> seq<Row>, meta: nat -> Meta, latest: nat -> nat,
    hashAt: (nat, nat) -> Option<string>)

  // ----- The checks, in the source's order

  function CheckRequest(config: Config, sourceId: string, options: Options, outside: Outside): Option<Error> {
    if outside.chainId != config.chainId then Some(ChainMismatch)
    else if options.finalityBlock == None then Some(FinalityMissing)
    else if options.finalityBlock.value < 0 || options.finalityBlock.value > 2147483647 then Some(FinalityOutOfRange)
    else if options.sourceId != sourceId then Some(SourceMismatch)
    else None
  }

  function CheckMeta(config: Config, finality: int, outside: Outside, q: nat): Option<Error> {
    var meta, latest := outside.meta(q), outside.latest(q);
    if meta.deployment != config.deploymentId then Some(DeploymentMismatch)
    else if meta.hasIndexingErrors then Some(IndexingErrors)
    else if meta.blockNumber > latest then Some(IndexAhead)
    else if latest - meta.blockNumber > config.maxIndexedLagBlocks then Some(IndexLagging)
    else if meta.blockNumber > finality then Some(NotFinal)
    else if outside.hashAt(q, meta.blockNumber) == None then Some(MetaNotCanonical)
    else if meta.blockHash.Some? && outside.hashAt(q, meta.blockNumber) != meta.blockHash then Some(MetaNotCanonical)
    else None
  }

  function CheckRow(config: Config, now: int, finality: int, outside: Outside, q: nat, row: Row): Option<Error> {
    var latest := outside.latest(q);
    if row.indexedBlock > outside.meta(q).blockNumber || row.indexedBlock > finality then Some(RowNotFinal)
    else if row.indexedBlock > latest then Some(RowFromFuture)
    else if latest - row.indexedBlock > config.maxIndexedLagBlocks then Some(RowStale)
    else if outside.hashAt(q, row.indexedBlock) != Some(row.indexedBlockHash) then Some(RowReorged)
    else if now < row.observedAt then Some(ObservedInFuture)
    else if now - row.observedAt > config.maxObservationAgeSeconds then Some(ObservedStale)
    else None
  }

  /** A finalized query on the configured chain for this source. */
  ghost predicate IsRequest(config: Config, sourceId: string, options: Options, outside: Outside) {
    && outside.chainId == config.chainId && options.sourceId == sourceId
    && options.finalityBlock.Some? && 0 <= options.finalityBlock.value <= 2147483647
  }

  lemma CheckRequestIff(config: Config, sourceId: string, options: Options, outside: Outside)
    ensures CheckRequest(config, sourceId, options, outside) == None <==> IsRequest(config, sourceId, options, outside)
  {
  }

  /** The page was answered by the configured deployment, without errors, at a recent, final and canonical block. */
  ghost predicate MetaIsFinal(config: Config, finality: int, outside: Outside, q: nat) {
    var meta, latest := outside.meta(q), outside.latest(q);
    && meta.deployment == config.deploymentId && !meta.hasIndexingErrors
    && meta.blockNumber <= latest <= meta.blockNumber + config.maxIndexedLagBlocks && meta.blockNumber <= finality
    && outside.hashAt(q, meta.blockNumber).Some?
    && (meta.blockHash == None || meta.blockHash == outside.hashAt(q, meta.blockNumber))
  }

  lemma CheckMetaIff(config: Config, finality: int, outside: Outside, q: nat)
    ensures CheckMeta(config, finality, outside, q) == None <==> MetaIsFinal(config, finality, outside, q)
  {
  }

  /**
   The row was indexed at a recent, final and canonical block, and observed neither in the future nor too long ago.
   */
  ghost predicate RowIsFinal(config: Config, now: int, finality: int, outside: Outside, q: nat, row: Row) {
    var latest := outside.latest(q);
    && row.indexedBlock <= outside.meta(q).blockNumber && row.indexedBlock <= finality
    && row.indexedBlock <= latest <= row.indexedBlock + config.maxIndexedLagBlocks
    && outside.hashAt(q, row.indexedBlock) == Some(row.indexedBlockHash)
    && row.observedAt <= now <= row.observedAt + config.maxObservationAgeSeconds
  }

  lemma CheckRowIff(config: Config, now: int, finality: int, outside: Outside, q: nat, row: Row)
    ensures CheckRow(config, now, finality, outside, q, row) == None
       <==> RowIsFinal(config, now, finality, outside, q, row)
  {
  }

  /** What a caller may rely on about a row that passed: canonical, final, recent. */
  lemma CheckedRowIsTrustworthy(config: Config, now: int, finality: int, outside: Outside, q: nat, row: Row)
    requires CheckMeta(config, finality, outside, q) == None
    ensures CheckRow(config, now, finality, outside, q, row) == None
       <==> && row.indexedBlock <= outside.meta(q).blockNumber
            && outside.latest(q) <= row.indexedBlock + config.maxIndexedLagBlocks
            && outside.hashAt(q, row.indexedBlock) == Some(row.indexedBlockHash)
            && row.observedAt <= now <= row.observedAt + config.maxObservationAgeSeconds
  {
  }

  // ----- One page

  function Ids(rows: seq<Row>): set<nat> {
    set row | row in rows :: row.id
  }

  ghost predicate Distinct(rows: seq<Row>) {
    forall i, j :: 0 <= i < j < |rows| ==> rows[i].id != rows[j].id
  }

  /** The rows of a page whose identifier appears for the first time. */
  function NewRows(page: seq<Row>, seen: set<nat>): seq<Row> {
    if page == [] then []
    else
      var before, last := NewRows(page[..|page| - 1], seen), page[|page| - 1];
      if last.id in seen + Ids(page[..|page| - 1]) then before else before + [last]
  }

  lemma IdsAppend(rows: seq<Row>, row: Row)
    ensures Ids(rows + [row]) == Ids(rows) + {row.id}
  {
  }

  lemma DistinctAppend(rows: seq<Row>, row: Row)
    requires Distinct(rows) && row.id !in Ids(rows)
    ensures Distinct(rows + [row])
  {
    assert forall i :: 0 <= i < |rows| ==> rows[i].id in Ids(rows);
  }

  /** New rows are distinct and unseen, and no identifier of the page is lost. */
  lemma {:induction false} NewRowsAreFresh(page: seq<Row>, seen: set<nat>)
    ensures Distinct(NewRows(page, seen)) && Ids(NewRows(page, seen)) == Ids(page) - seen
    decreases |page|
  {
    if page != [] {
      hide Ids, Distinct;
      var front, last := page[..|page| - 1], page[|page| - 1];
      var before := NewRows(front, seen);
      NewRowsAreFresh(front, seen);
      assert page == front + [last];
      IdsAppend(front, last);
      IdsAppend(before, last);
      if last.id !in seen + Ids(front) {
        DistinctAppend(before, last);
      }
    }
  }

  lemma {:induction false} NewRowsAreOfPage(page: seq<Row>, seen: set<nat>)
    ensures forall row :: row in NewRows(page, seen) ==> row in page
    decreases |page|
  {
    if page != [] {
      hide Ids;
      NewRowsAreOfPage(page[..|page| - 1], seen);
    }
  }

  /** A page of distinct rows none of which was seen is taken whole. */
  lemma {:induction false} UnseenPageIsNew(page: seq<Row>, seen: set<nat>)
    requires Distinct(page) && Ids(page) !! seen
    ensures NewRows(page, seen) == page
    decreases |page|
  {
    if page != [] {
      var front, last := page[..|page| - 1], page[|page| - 1];
      assert page == front + [last];
      assert Ids(page) == Ids(front) + {last.id};
      UnseenPageIsNew(front, seen);
      assert last.id !in Ids(front);
    }
  }

  function Accept(options: Options, rows: seq<Row>): seq<Observation> {
    seq(|rows|, i requires 0 <= i < |rows| => Observation(rows[i], options.nowSeconds, FINAL))
  }

  lemma AcceptConcat(options: Options, a: seq<Row>, b: seq<Row>)
    ensures Accept(options, a + b) == Accept(options, a) + Accept(options, b)
  {
  }

  lemma AcceptOne(options: Options, row: Row)
    ensures Accept(options, [row]) == [Observation(row, options.nowSeconds, FINAL)]
    ensures Accept(options, []) == []
  {
  }

  ghost predicate RowsPass(config: Config, options: Options, finality: int, outside: Outside, q: nat, rows: seq<Row>) {
    forall i :: 0 <= i < |rows| ==> CheckRow(config, options.nowSeconds, finality, outside, q, rows[i]) == None
  }

  ghost predicate SomeRowFails(config: Config, options: Options, finality: int, outside: Outside, q: nat,
    rows: seq<Row>, error: Error)
  {
    exists i :: 0 <= i < |rows| && CheckRow(config, options.nowSeconds, finality, outside, q, rows[i]) == Some(error)
  }

  lemma {:induction false} NewRowsOfPrefix(page: seq<Row>, n: nat, seen: set<nat>)
    requires n <= |page|
    ensures NewRows(page[..n], seen) <= NewRows(page, seen)
    decreases |page|
  {
    if n == |page| {
      assert page[..n] == page;
    } else {
      assert page[..|page| - 1][..n] == page[..n];
      NewRowsOfPrefix(page[..|page| - 1], n, seen);
    }
  }

  lemma NewRowsStep(page: seq<Row>, i: nat, known: set<nat>)
    requires i < |page|
    ensures Ids(page[..i + 1]) == Ids(page[..i]) + {page[i].id}
    ensures NewRows(page[..i + 1], known)
         == NewRows(page[..i], known) + if page[i].id in known + Ids(page[..i]) then [] else [page[i]]
  {
    hide Ids;
    assert page[..i + 1] == page[..i] + [page[i]];
    IdsAppend(page[..i], page[i]);
    assert page[..i + 1][..i] == page[..i];
  }

  lemma NewRowFails(config: Config, options: Options, finality: int, outside: Outside, q: nat, page: seq<Row>, i: nat,
    known: set<nat>)
    requires i < |page| && page[i].id !in known + Ids(page[..i])
    requires CheckRow(config, options.nowSeconds, finality, outside, q, page[i]).Some?
    ensures !RowsPass(config, options, finality, outside, q, NewRows(page, known))
    ensures SomeRowFails(config, options, finality, outside, q, NewRows(page, known),
      CheckRow(config, options.nowSeconds, finality, outside, q, page[i]).value)
  {
    hide CheckRow, Ids, NewRows;
    NewRowsStep(page, i, known);
    NewRowsOfPrefix(page, i + 1, known);
    var at := |NewRows(page[..i], known)|;
    assert NewRows(page[..i + 1], known)[at] == page[i];
    assert NewRows(page, known)[at] == page[i];
  }

  /** The inner loop after i rows of the page. */
  ghost predicate TakenUpTo(config: Config, options: Options, finality: int, outside: Outside, q: nat, page: seq<Row>,
    known: set<nat>, taken: seq<Observation>, i: nat, seen: set<nat>, result: seq<Observation>, added: nat)
    requires i <= |page|
  {
    var rows := NewRows(page[..i], known);
    && seen == known + Ids(page[..i]) && added == |rows| && result == taken + Accept(options, rows)
    && RowsPass(config, options, finality, outside, q, rows)
  }

  lemma RowSkipped(config: Config, options: Options, finality: int, outside: Outside, q: nat, page: seq<Row>,
    known: set<nat>, taken: seq<Observation>, i: nat, seen: set<nat>, result: seq<Observation>, added: nat)
    requires i < |page| && TakenUpTo(config, options, finality, outside, q, page, known, taken, i, seen, result, added)
    requires page[i].id in seen
    ensures TakenUpTo(config, options, finality, outside, q, page, known, taken, i + 1, seen, result, added)
  {
    hide CheckRow, Ids, NewRows, Accept, RowsPass;
    NewRowsStep(page, i, known);
    assert seen == known + Ids(page[..i + 1]);
    assert NewRows(page[..i], known) + [] == NewRows(page[..i], known);
  }

  lemma RowTaken(config: Config, options: Options, finality: int, outside: Outside, q: nat, page: seq<Row>,
    known: set<nat>, taken: seq<Observation>, i: nat, seen: set<nat>, result: seq<Observation>, added: nat)
    requires i < |page| && TakenUpTo(config, options, finality, outside, q, page, known, taken, i, seen, result, added)
    requires page[i].id !in seen && CheckRow(config, options.nowSeconds, finality, outside, q, page[i]) == None
    ensures page[i].indexedBlock <= finality
    ensures TakenUpTo(config, options, finality, outside, q, page, known, taken, i + 1, seen + {page[i].id},
                      result + [Observation(page[i], options.nowSeconds, FINAL)], added + 1)
  {
    hide Ids, NewRows, Accept;
    NewRowsStep(page, i, known);
    AcceptConcat(options, NewRows(page[..i], known), [page[i]]);
    AcceptOne(options, page[i]);
  }

  /** The inner loop: skip known identifiers, check and record the others. */
  method TakePage(config: Config, options: Options, finality: int, outside: Outside, q: nat, page: seq<Row>,
    known: set<nat>, taken: seq<Observation>)
    returns (error: Option<Error>, seen: set<nat>, result: seq<Observation>, added: nat)
    ensures error == None <==> RowsPass(config, options, finality, outside, q, NewRows(page, known))
    ensures error == None ==>
              && seen == known + Ids(page) && added == |NewRows(page, known)|
              && result == taken + Accept(options, NewRows(page, known))
    ensures error.Some? ==> SomeRowFails(config, options, finality, outside, q, NewRows(page, known), error.value)
  {
    seen, result, added := known, taken, 0;
    assert page[..0] == [];
    for i := 0 to |page|
      invariant TakenUpTo(config, options, finality, outside, q, page, known, taken, i, seen, result, added)
    {
      hide CheckRow, Ids, NewRows, SomeRowFails, RowsPass, Accept;
      if page[i].id in seen {
        RowSkipped(config, options, finality, outside, q, page, known, taken, i, seen, result, added);
        continue;
      }
      var row := page[i];
      error := CheckRow(config, options.nowSeconds, finality, outside, q, row);
      if error.Some? {
        NewRowFails(config, options, finality, outside, q, page, i, known);
        return;
      }
      RowTaken(config, options, finality, outside, q, page, known, taken, i, seen, result, added);
      seen := seen + {row.id};
      added := added + 1;
      result := result + [Observation(row, options.nowSeconds, if row.indexedBlock <= finality then FINAL else SAFE)];
    }
    assert page[..|page|] == page;
    error := None;
  }

  // ----- A faithful server

  function After(store: seq<Row>, cursor: nat): seq<Row> {
    if store == [] then []
    else (if store[0].id > cursor then [store[0]] else []) + After(store[1..], cursor)
  }

  function Take(rows: seq<Row>, n: nat): seq<Row> {
    if |rows| <= n then rows else rows[..n]
  }

  ghost predicate Ascending(store: seq<Row>) {
    && (forall i :: 0 <= i < |store| ==> store[i].id > 0)
    && forall i, j :: 0 <= i < j < |store| ==> store[i].id < store[j].id
  }

  /** Every query, whenever asked, answers the first pageSize rows of the store above the cursor. */
  ghost predicate Faithful(config: Config, outside: Outside, store: seq<Row>) {
    Ascending(store) && forall q, cursor :: outside.rows(q, cursor) == Take(After(store, cursor), config.pageSize)
  }

  lemma AfterSkipsFirst(store: seq<Row>, cursor: nat)
    requires store != [] && store[0].id <= cursor
    ensures After(store, cursor) == After(store[1..], cursor)
  {
  }

  lemma {:induction false} AfterCursor(store: seq<Row>, k: nat)
    requires Ascending(store) && k <= |store|
    ensures After(store, Cursor(store, k)) == store[k..]
    decreases |store|
  {
    hide After;
    if k == 0 {
      NothingSkipped(store, 0);
    } else {
      var rest := store[1..];
      AfterSkipsFirst(store, Cursor(store, k));
      if k == 1 {
        NothingSkipped(rest, store[0].id);
      } else {
        AfterCursor(rest, k - 1);
        assert rest[k - 1..] == store[k..];
      }
    }
  }

  lemma {:induction false} NothingSkipped(store: seq<Row>, cursor: nat)
    requires forall i :: 0 <= i < |store| ==> store[i].id > cursor
    ensures After(store, cursor) == store
    decreases |store|
  {
    if store != [] {
      NothingSkipped(store[1..], cursor);
      assert store == [store[0]] + store[1..];
    }
  }

  /** Metadata and rows pass on the page starting at `start` and on every later page. */
  ghost predicate PagesPass(config: Config, options: Options, finality: int, outside: Outside, store: seq<Row>,
    start: nat, q: nat)
    requires config.pageSize > 0 && start <= |store|
    decreases |store| - start
  {
    && CheckMeta(config, finality, outside, q) == None
    && RowsPass(config, options, finality, outside, q, Take(store[start..], config.pageSize))
    && (|store| - start < config.pageSize
      || PagesPass(config, options, finality, outside, store, start + config.pageSize, q + 1))
  }

  lemma PageAdvances(page: seq<Row>, seen: set<nat>)
    requires NewRows(page, seen) != []
    ensures seen < seen + Ids(page)
  {
    NewRowsAreFresh(page, seen);
    assert NewRows(page, seen)[0].id in Ids(NewRows(page, seen));
  }

  lemma IdsConcat(a: seq<Row>, b: seq<Row>)
    ensures Ids(a + b) == Ids(a) + Ids(b)
  {
  }

  lemma LaterRowsAreUnseen(store: seq<Row>, done: nat, size: nat)
    requires Ascending(store) && done + size <= |store|
    ensures Distinct(store[done..done + size]) && Ids(store[done..done + size]) !! Ids(store[..done])
  {
  }

  function Cursor(store: seq<Row>, done: nat): nat
    requires done <= |store|
  {
    if done == 0 then 0 else store[done - 1].id
  }

  /** On a faithful server the page after `done` rows is the next slice of the store, all of it new. */
  lemma NextPage(config: Config, outside: Outside, store: seq<Row>, done: nat, q: nat)
    requires config.pageSize > 0 && Faithful(config, outside, store) && done <= |store|
    ensures outside.rows(q, Cursor(store, done)) == Take(store[done..], config.pageSize)
    ensures NewRows(Take(store[done..], config.pageSize), Ids(store[..done])) == Take(store[done..], config.pageSize)
  {
    hide Ids, Distinct, NewRows, After;
    AfterCursor(store, done);
    var size := if |store| - done <= config.pageSize then |store| - done else config.pageSize;
    assert Take(store[done..], config.pageSize) == store[done..done + size];
    LaterRowsAreUnseen(store, done, size);
    UnseenPageIsNew(store[done..done + size], Ids(store[..done]));
  }

  // ----- The loop

  ghost predicate Vouched(config: Config, options: Options, finality: int, outside: Outside, observation: Observation) {
    && observation.finality == FINAL && observation.retrievedAt == options.nowSeconds
    && exists q, cursor :: && observation.row in outside.rows(q, cursor)
                           && MetaIsFinal(config, finality, outside, q)
                           && RowIsFinal(config, options.nowSeconds, finality, outside, q, observation.row)
  }

  /** A result that can be trusted whatever the server did: no identifier twice, every row checked and final. */
  ghost predicate Sound(config: Config, options: Options, finality: int, outside: Outside, result: seq<Observation>) {
    && (forall i, j :: 0 <= i < j < |result| ==> result[i].row.id != result[j].row.id)
    && forall i :: 0 <= i < |result| ==> Vouched(config, options, finality, outside, result[i])
  }

  ghost predicate Recorded(result: seq<Observation>, seen: set<nat>) {
    forall i :: 0 <= i < |result| ==> result[i].row.id in seen
  }

  lemma SoundExtends(config: Config, options: Options, finality: int, outside: Outside, q: nat, cursor: nat,
    result: seq<Observation>, seen: set<nat>)
    requires Sound(config, options, finality, outside, result) && CheckMeta(config, finality, outside, q) == None
    requires Recorded(result, seen)
    requires RowsPass(config, options, finality, outside, q, NewRows(outside.rows(q, cursor), seen))
    ensures var more := Accept(options, NewRows(outside.rows(q, cursor), seen));
            Sound(config, options, finality, outside, result + more)
              && Recorded(result + more, seen + Ids(outside.rows(q, cursor)))
  {
    hide CheckMeta, CheckRow, NewRows;
    var rows := NewRows(outside.rows(q, cursor), seen);
    NewRowsAreFresh(outside.rows(q, cursor), seen);
    NewRowsAreOfPage(outside.rows(q, cursor), seen);
    assert forall i :: 0 <= i < |rows| ==> rows[i].id in Ids(rows);
    var more := Accept(options, rows);
    forall i | 0 <= i < |more| ensures Vouched(config, options, finality, outside, more[i]) {
      assert rows[i] in outside.rows(q, cursor);
      CheckMetaIff(config, finality, outside, q);
      CheckRowIff(config, options.nowSeconds, finality, outside, q, rows[i]);
    }
  }

  /** On a faithful server the loop has taken exactly the first `done` rows. */
  ghost predicate OnTrack(config: Config, options: Options, finality: int, outside: Outside, store: seq<Row>,
                          done: nat, q: nat, lastId: nat, seen: set<nat>, result: seq<Observation>)
    requires config.pageSize > 0
  {
    && done <= |store| && lastId == Cursor(store, done)
    && seen == Ids(store[..done]) && result == Accept(options, store[..done])
    && PagesPass(config, options, finality, outside, store, 0, 0)
      == PagesPass(config, options, finality, outside, store, done, q)
  }

  lemma FailingPage(config: Config, options: Options, finality: int, outside: Outside, store: seq<Row>,
                    done: nat, q: nat, lastId: nat, seen: set<nat>, result: seq<Observation>)
    requires config.pageSize > 0 && Faithful(config, outside, store)
    requires OnTrack(config, options, finality, outside, store, done, q, lastId, seen, result)
    requires CheckMeta(config, finality, outside, q) != None
          || !RowsPass(config, options, finality, outside, q, NewRows(outside.rows(q, lastId), seen))
    ensures !PagesPass(config, options, finality, outside, store, 0, 0)
  {
    hide CheckMeta, RowsPass, NewRows, Ids, Faithful, Accept;
    NextPage(config, outside, store, done, q);
  }

  lemma PassingPage(config: Config, options: Options, finality: int, outside: Outside, store: seq<Row>,
                    done: nat, q: nat, lastId: nat, seen: set<nat>, result: seq<Observation>)
    requires config.pageSize > 0 && Faithful(config, outside, store)
    requires OnTrack(config, options, finality, outside, store, done, q, lastId, seen, result)
    requires CheckMeta(config, finality, outside, q) == None
    requires RowsPass(config, options, finality, outside, q, NewRows(outside.rows(q, lastId), seen))
    ensures var page := outside.rows(q, lastId);
            && NewRows(page, seen) == page && done + |page| <= |store|
            && result + Accept(options, page) == Accept(options, store[..done + |page|])
    ensures var page := outside.rows(q, lastId);
            |page| < config.pageSize ==>
              result + Accept(options, page) == Accept(options, store)
                && PagesPass(config, options, finality, outside, store, 0, 0)
    ensures var page := outside.rows(q, lastId);
            |page| >= config.pageSize ==>
              && |page| == config.pageSize && page[|page| - 1].id != lastId
              && OnTrack(config, options, finality, outside, store, done + config.pageSize, q + 1, page[|page| - 1].id,
                         seen + Ids(page), result + Accept(options, page))
  {
    hide CheckMeta, RowsPass, NewRows, Ids, Accept, After;
    NextPage(config, outside, store, done, q);
    var page := outside.rows(q, lastId);
    assert store[..done + |page|] == store[..done] + page;
    AcceptConcat(options, store[..done], page);
    IdsConcat(store[..done], page);
    assert store[..|store|] == store;
  }

  lemma StartsOnTrack(config: Config, options: Options, finality: int, outside: Outside, store: seq<Row>)
    requires config.pageSize > 0
    ensures OnTrack(config, options, finality, outside, store, 0, 0, 0, {}, [])
    ensures Sound(config, options, finality, outside, []) && Recorded([], {})
  {
    hide PagesPass;
    AcceptOne(options, Row(0, 0, "", 0));
    assert store[..0] == [];
  }

  /** The page loop.  It ends against any server over finitely many identifiers: a full page must bring a new one. */
  method WalkPages(config: Config, options: Options, finality: int, outside: Outside, ghost ids: set<nat>,
    ghost store: seq<Row>)
    returns (r: Result<seq<Observation>, Error>)
    requires config.pageSize > 0
    requires forall q, cursor :: Ids(outside.rows(q, cursor)) <= ids
    ensures r.Ok? ==> Sound(config, options, finality, outside, r.value)
    ensures Faithful(config, outside, store) ==> (r.Ok? <==> PagesPass(config, options, finality, outside, store, 0, 0))
    ensures Faithful(config, outside, store) && r.Ok? ==> r.value == Accept(options, store)
  {
    hide CheckMeta, CheckRow, NewRows, Ids, Sound, Recorded, RowsPass, SomeRowFails, Faithful, PagesPass, Accept,
      OnTrack;
    var result: seq<Observation>, seen: set<nat>, lastId: nat, q: nat := [], {}, 0, 0;
    ghost var faithful, done: nat := Faithful(config, outside, store), 0;
    StartsOnTrack(config, options, finality, outside, store);
    while true
      invariant seen <= ids && Sound(config, options, finality, outside, result) && Recorded(result, seen)
      invariant faithful ==> OnTrack(config, options, finality, outside, store, done, q, lastId, seen, result)
      decreases ids - seen
    {
      var page := outside.rows(q, lastId);
      var refusedMeta := CheckMeta(config, finality, outside, q);
      if refusedMeta.Some? {
        if faithful { FailingPage(config, options, finality, outside, store, done, q, lastId, seen, result); }
        return Err(refusedMeta.value);
      }
      var refusedRow, nowSeen, taken, added := TakePage(config, options, finality, outside, q, page, seen, result);
      if refusedRow.Some? {
        if faithful { FailingPage(config, options, finality, outside, store, done, q, lastId, seen, result); }
        return Err(refusedRow.value);
      }
      SoundExtends(config, options, finality, outside, q, lastId, result, seen);
      if faithful { PassingPage(config, options, finality, outside, store, done, q, lastId, seen, result); }
      if added > 0 { PageAdvances(page, seen); }
      seen, result := nowSeen, taken;
      if added == 0 && |page| >= config.pageSize {
        return Err(DidNotAdvance);
      }
      if |page| < config.pageSize {
        return Ok(result);
      }
      if page[|page| - 1].id == lastId {
        return Ok(result);
      }
      lastId, q, done := page[|page| - 1].id, q + 1, done + config.pageSize;
    }
  }

  // ----- The final order

  function Collated(collation: nat -> nat): Observation -> (nat, nat) {
    (o: Observation) => (collation(o.row.id), 0)
  }

  ghost function Identity(): Observation -> (nat, nat) {
    (o: Observation) => (o.row.id, 0)
  }

  lemma SortKeepsSound(config: Config, options: Options, finality: int, outside: Outside, result: seq<Observation>,
    collation: nat -> nat)
    requires Sound(config, options, finality, outside, result)
    ensures Sound(config, options, finality, outside, Sort(result, Collated(collation)))
    ensures Ordered(Sort(result, Collated(collation)), Collated(collation))
    ensures multiset(Sort(result, Collated(collation))) == multiset(result)
  {
    hide Vouched, Sort;
    var key, id := Collated(collation), Identity();
    var sorted := Sort(result, key);
    assert forall i, j :: 0 <= i < j < |result| ==> id(result[i]) != id(result[j]);
    SortKeepsDistinct(result, key, id);
    SortOrders(result, key);
    SortKeeps(result, key);
    forall i, j | 0 <= i < j < |sorted|
      ensures sorted[i].row.id != sorted[j].row.id
    {
      assert id(sorted[i]) != id(sorted[j]);
    }
    forall i | 0 <= i < |sorted|
      ensures Vouched(config, options, finality, outside, sorted[i])
    {
      assert sorted[i] in multiset(sorted);
      var j :| 0 <= j < |result| && result[j] == sorted[i];
    }
  }

  /**
   What it returns is sound against any server, and in the locale's order; on a faithful server it
   succeeds exactly when every check of every page passes, and then returns every row of the store once.
   */
  method FetchObservations(config: Config, sourceId: string, options: Options, outside: Outside, collation: nat -> nat,
                           ghost ids: set<nat>, ghost store: seq<Row>)
    returns (r: Result<seq<Observation>, Error>)
    requires config.pageSize > 0
    requires forall q, cursor :: Ids(outside.rows(q, cursor)) <= ids
    ensures CheckRequest(config, sourceId, options, outside).Some? ==>
      r == Err(CheckRequest(config, sourceId, options, outside).value)
    ensures r.Ok? ==>
              && options.finalityBlock.Some? && Sound(config, options, options.finalityBlock.value, outside, r.value)
              && Ordered(r.value, Collated(collation))
    ensures CheckRequest(config, sourceId, options, outside) == None && Faithful(config, outside, store) ==>
              && (r.Ok? <==> PagesPass(config, options, options.finalityBlock.value, outside, store, 0, 0))
              && (r.Ok? ==> multiset(r.value) == multiset(Accept(options, store)))
  {
    hide Ids, Sound, Faithful, PagesPass, Accept, Ordered;
    var refused := CheckRequest(config, sourceId, options, outside);
    if refused.Some? {
      return Err(refused.value);
    }
    r := WalkPages(config, options, options.finalityBlock.value, outside, ids, store);
    if r.Ok? {
      SortKeepsSound(config, options, options.finalityBlock.value, outside, r.value, collation);
      r := Ok(Sort(r.value, Collated(collation)));
    }
  }
}
