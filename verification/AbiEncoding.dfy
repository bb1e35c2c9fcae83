/**
 The byte strings hashed into the active-bounds and portfolio-price commitments, against a decoder
 that follows offsets as the Solidity Contract ABI Specification lays out (section "Formal
 Specification of the Encoding"): packages/shared/src/risk.ts:289-304 and
 packages/shared/src/price.ts:159-220.
 */
module AbiEncoding {
  import opened AbiWords
  import Uint256
  import PriceProtection

  // ----- Reading encoded bytes

  /** The word at a byte offset; bytes past the end read as zero. */
  function WordAt(data: seq<Byte>, at: nat): (w: seq<Byte>)
    ensures |w| == 32
  {
    seq(32, i requires 0 <= i < 32 => if at + i < |data| then data[at + i] else 0)
  }

  function UintAt(data: seq<Byte>, at: nat): nat {
    ReadBytes(WordAt(data, at))
  }

  lemma WordIsSlice(data: seq<Byte>, at: nat, w: seq<Byte>)
    requires at + 32 <= |data| && data[at..at + 32] == w
    ensures WordAt(data, at) == w
  {
    assert forall k :: 0 <= k < 32 ==> WordAt(data, at)[k] == data[at..at + 32][k];
  }

  lemma WordOfFlatten(words: seq<seq<Byte>>, i: nat)
    requires EachOf(words, 32) && i < |words|
    ensures WordAt(Flatten(words), 32 * i) == words[i]
  {
    hide Flatten, WordAt;
    FlattenPart(words, 32, i);
    WordIsSlice(Flatten(words), 32 * i, words[i]);
  }

  lemma WordPlaced(head: seq<seq<Byte>>, rest: seq<seq<Byte>>, p: nat)
    requires EachOf(head, 32) && EachOf(rest, 32) && p < |rest|
    ensures WordAt(Flatten(head + rest), 32 * |head| + 32 * p) == rest[p]
  {
    hide Flatten, WordAt;
    WordOfFlatten(head + rest, |head| + p);
  }

  // ----- Active bounds

  datatype ActiveAssetBound = ActiveAssetBound(token: string, minimumWeightBps: nat, maximumWeightBps: nat,
    paused: bool)

  /** What the bound schema admits. */
  predicate IsBound(bound: ActiveAssetBound) {
    IsAddress(bound.token) && bound.minimumWeightBps <= bound.maximumWeightBps <= 10_000
  }

  /** A JavaScript array has fewer than 2^32 elements. */
  ghost predicate AreBounds(bounds: seq<ActiveAssetBound>) {
    |bounds| < 0x1_0000_0000 && forall i :: 0 <= i < |bounds| ==> IsBound(bounds[i])
  }

  function BoundWords(bound: ActiveAssetBound): (words: seq<seq<Byte>>)
    requires IsBound(bound)
    ensures |words| == 4 && EachOf(words, 32)
  {
    [AddressWord(bound.token), Word(bound.minimumWeightBps), Word(bound.maximumWeightBps),
      Word(if bound.paused then 1 else 0)]
  }

  function BoundParts(bounds: seq<ActiveAssetBound>): (parts: seq<seq<seq<Byte>>>)
    requires forall i :: 0 <= i < |bounds| ==> IsBound(bounds[i])
    ensures |parts| == |bounds| && EachOf(parts, 4)
    ensures forall i :: 0 <= i < |parts| ==> parts[i] == BoundWords(bounds[i])
  {
    seq(|bounds|, i requires 0 <= i < |bounds| => BoundWords(bounds[i]))
  }

  /** The bytes hashed by hashActiveBounds. */
  function BoundsPreimage(bounds: seq<ActiveAssetBound>): seq<Byte>
    requires AreBounds(bounds)
  {
    Flatten([Word(32), Word(|bounds|)] + Flatten(BoundParts(bounds)))
  }

  datatype DecodedBound = DecodedBound(token: seq<Byte>, minimumWeightBps: nat, maximumWeightBps: nat, paused: bool)

  /** abi.decode(data, (ActiveAssetBound[])). */
  function DecodeBounds(data: seq<Byte>): seq<DecodedBound> {
    var start := UintAt(data, 0);
    var length := UintAt(data, start);
    seq(length, i requires 0 <= i < length => DecodeBound(data, start + 32 + 128 * i))
  }

  function DecodeBound(data: seq<Byte>, at: nat): DecodedBound {
    DecodedBound(WordAt(data, at)[12..], UintAt(data, at + 32), UintAt(data, at + 64), UintAt(data, at + 96) != 0)
  }

  function Meaning(bound: ActiveAssetBound): DecodedBound
    requires IsBound(bound)
  {
    DecodedBound(AddressBytes(bound.token), bound.minimumWeightBps, bound.maximumWeightBps, bound.paused)
  }

  lemma PlaceInRecord(parts: seq<seq<seq<Byte>>>, size: nat, i: nat, j: nat)
    requires EachOf(parts, size) && i < |parts| && j < size
    ensures size * i + j < |Flatten(parts)| && Flatten(parts)[size * i + j] == parts[i][j]
  {
    hide Flatten;
    FlattenPart(parts, size, i);
    var at := size * i;
    assert Flatten(parts)[at..at + size][j] == Flatten(parts)[at + j];
  }

  /** Words grouped in records of one size: which word stands where. */
  lemma WordOfRecord(head: seq<seq<Byte>>, parts: seq<seq<seq<Byte>>>, size: nat, i: nat, j: nat, place: nat)
    requires EachOf(head, 32) && EachOf(parts, size) && i < |parts| && j < size && place == size * i + j
    requires forall k :: 0 <= k < |parts| ==> EachOf(parts[k], 32)
    ensures WordAt(Flatten(head + Flatten(parts)), 32 * |head| + 32 * place) == parts[i][j]
  {
    hide Flatten, WordAt;
    PlaceInRecord(parts, size, i, j);
    FlattenOfWords(parts);
    WordPlaced(head, Flatten(parts), place);
  }

  lemma {:induction false} FlattenOfWords(parts: seq<seq<seq<Byte>>>)
    requires forall k :: 0 <= k < |parts| ==> EachOf(parts[k], 32)
    ensures EachOf(Flatten(parts), 32)
    decreases |parts|
  {
    if parts != [] {
      FlattenOfWords(parts[..|parts| - 1]);
    }
  }

  /** Every field of every bound is read back from the place the ABI gives it. */
  lemma BoundDecodes(bounds: seq<ActiveAssetBound>, i: nat)
    requires AreBounds(bounds) && i < |bounds|
    ensures DecodeBound(BoundsPreimage(bounds), 64 + 128 * i) == Meaning(bounds[i])
  {
    hide Flatten, WordAt, Word, AddressWord, ReadBytes;
    var head := [Word(32), Word(|bounds|)];
    var parts := BoundParts(bounds);
    var bound := bounds[i];
    forall j | 0 <= j < 4
      ensures WordAt(BoundsPreimage(bounds), 64 + 128 * i + 32 * j) == BoundWords(bound)[j]
    {
      WordOfRecord(head, parts, 4, i, j, 4 * i + j);
      assert 32 * |head| + 32 * (4 * i + j) == 64 + 128 * i + 32 * j;
    }
    var data, at, w := BoundsPreimage(bounds), 64 + 128 * i, BoundWords(bound);
    assert WordAt(data, at + 32 * 0) == w[0] && WordAt(data, at + 32 * 1) == w[1];
    assert WordAt(data, at + 32 * 2) == w[2] && WordAt(data, at + 32 * 3) == w[3];
    WordReadsBack(bound.minimumWeightBps);
    WordReadsBack(bound.maximumWeightBps);
    WordReadsBack(if bound.paused then 1 else 0);
  }

  /** Decoding the hashed bytes gives back the bounds, tokens as their twenty bytes. */
  lemma BoundsRoundTrip(bounds: seq<ActiveAssetBound>)
    requires AreBounds(bounds)
    ensures DecodeBounds(BoundsPreimage(bounds)) == seq(|bounds|, i requires 0 <= i < |bounds| => Meaning(bounds[i]))
  {
    hide Flatten, WordAt, Word, ReadBytes, Meaning, DecodeBound;
    var data, n := BoundsPreimage(bounds), |bounds|;
    BoundsHead(bounds);
    forall i | 0 <= i < n
      ensures DecodeBounds(data)[i] == Meaning(bounds[i])
    {
      BoundDecodes(bounds, i);
    }
  }

  lemma BoundsHead(bounds: seq<ActiveAssetBound>)
    requires AreBounds(bounds)
    ensures UintAt(BoundsPreimage(bounds), 0) == 32 && UintAt(BoundsPreimage(bounds), 32) == |bounds|
  {
    hide Flatten, WordAt, Word, ReadBytes;
    var words := [Word(32), Word(|bounds|)] + Flatten(BoundParts(bounds));
    FlattenOfWords(BoundParts(bounds));
    WordOfFlatten(words, 0);
    WordOfFlatten(words, 1);
    WordReadsBack(32);
    WordReadsBack(|bounds|);
  }

  ghost predicate SameBounds(a: seq<ActiveAssetBound>, b: seq<ActiveAssetBound>) {
    |a| == |b| && forall i :: 0 <= i < |a| ==> SameBound(a[i], b[i])
  }

  ghost predicate SameBound(a: ActiveAssetBound, b: ActiveAssetBound) {
    LowerCase(a.token) == LowerCase(b.token) && a.(token := b.token) == b
  }

  lemma MeaningIff(a: ActiveAssetBound, b: ActiveAssetBound)
    requires IsBound(a) && IsBound(b)
    ensures Meaning(a) == Meaning(b) <==> SameBound(a, b)
  {
    hide AddressBytes, LowerCase;
    AddressBytesIff(a.token, b.token);
  }

  /** Two lists of bounds commit to the same bytes exactly when they differ at most in address case. */
  lemma BoundsCommitmentIff(a: seq<ActiveAssetBound>, b: seq<ActiveAssetBound>)
    requires AreBounds(a) && AreBounds(b)
    ensures BoundsPreimage(a) == BoundsPreimage(b) <==> SameBounds(a, b)
  {
    hide BoundsPreimage, DecodeBounds, Meaning, SameBound;
    if BoundsPreimage(a) == BoundsPreimage(b) {
      BoundsRoundTrip(a);
      BoundsRoundTrip(b);
      var meanings := DecodeBounds(BoundsPreimage(a));
      assert |a| == |meanings| == |b|;
      forall i | 0 <= i < |a| ensures SameBound(a[i], b[i]) {
        assert Meaning(a[i]) == meanings[i] == Meaning(b[i]);
        MeaningIff(a[i], b[i]);
      }
    }
    if SameBounds(a, b) {
      SameBoundsSameBytes(a, b);
    }
  }

  lemma SameBoundsSameBytes(a: seq<ActiveAssetBound>, b: seq<ActiveAssetBound>)
    requires AreBounds(a) && AreBounds(b) && SameBounds(a, b)
    ensures BoundsPreimage(a) == BoundsPreimage(b)
  {
    hide Flatten, AddressBytes, LowerCase;
    forall i | 0 <= i < |a| ensures BoundWords(a[i]) == BoundWords(b[i]) {
      assert SameBound(a[i], b[i]);
      AddressBytesIff(a[i].token, b[i].token);
    }
    assert BoundParts(a) == BoundParts(b);
  }

  // ----- Portfolio prices

  predicate FitsUint256(n: int) {
    0 <= n <= Uint256.UINT256_MAX
  }

  predicate IsEncodable(s: PriceProtection.PriceSnapshot) {
    && IsAddress(s.token) && IsHexText(s.snapshotId, 64)
    && FitsUint256(s.price) && FitsUint256(s.priceDecimals) && FitsUint256(s.observedAt)
  }

  function SnapshotSlots(s: PriceProtection.PriceSnapshot): (words: seq<seq<Byte>>)
    requires IsEncodable(s)
    ensures |words| == 5 && EachOf(words, 32)
  {
    [AddressWord(s.token), HexWord(s.snapshotId), Word(s.price), Word(s.priceDecimals), Word(s.observedAt)]
  }

  ghost predicate AreEncodable(snapshots: seq<PriceProtection.PriceSnapshot>) {
    |snapshots| < 0x1_0000_0000 && forall i :: 0 <= i < |snapshots| ==> IsEncodable(snapshots[i])
  }

  function TokenWords(s: PriceProtection.PriceSnapshot): (words: seq<seq<Byte>>)
    requires IsEncodable(s)
    ensures |words| == 1 && EachOf(words, 32)
  {
    [AddressWord(s.token)]
  }

  function TokenParts(snapshots: seq<PriceProtection.PriceSnapshot>): (parts: seq<seq<seq<Byte>>>)
    requires forall i :: 0 <= i < |snapshots| ==> IsEncodable(snapshots[i])
    ensures |parts| == |snapshots| && EachOf(parts, 1)
    ensures forall i :: 0 <= i < |parts| ==> parts[i] == TokenWords(snapshots[i])
  {
    seq(|snapshots|, i requires 0 <= i < |snapshots| => TokenWords(snapshots[i]))
  }

  function SnapshotParts(snapshots: seq<PriceProtection.PriceSnapshot>): (parts: seq<seq<seq<Byte>>>)
    requires forall i :: 0 <= i < |snapshots| ==> IsEncodable(snapshots[i])
    ensures |parts| == |snapshots| && EachOf(parts, 5)
    ensures forall i :: 0 <= i < |parts| ==> parts[i] == SnapshotSlots(snapshots[i])
  {
    seq(|snapshots|, i requires 0 <= i < |snapshots| => SnapshotSlots(snapshots[i]))
  }

  /** Two offsets, the token array, the snapshot array. */
  function PortfolioWords(snapshots: seq<PriceProtection.PriceSnapshot>): seq<seq<Byte>>
    requires AreEncodable(snapshots)
  {
    var n := |snapshots|;
    var tokenTail := [Word(n)] + Flatten(TokenParts(snapshots));
    [Word(64), Word(64 + |tokenTail| * 32)] + tokenTail + [Word(n)] + Flatten(SnapshotParts(snapshots))
  }

  /** The bytes hashed by computePortfolioPriceSnapshotHash. */
  function PortfolioPreimage(snapshots: seq<PriceProtection.PriceSnapshot>): seq<Byte>
    requires AreEncodable(snapshots)
  {
    Flatten(PortfolioWords(snapshots))
  }

  datatype DecodedSnapshot = DecodedSnapshot(token: seq<Byte>, snapshotId: seq<Byte>, price: nat, priceDecimals: nat,
    observedAt: nat)
  datatype DecodedPortfolio = DecodedPortfolio(tokens: seq<seq<Byte>>, snapshots: seq<DecodedSnapshot>)

  /** abi.decode(data, (address[], PriceSnapshot[])). */
  function DecodePortfolio(data: seq<Byte>): DecodedPortfolio {
    var tokens, prices := UintAt(data, 0), UintAt(data, 32);
    var m, n := UintAt(data, tokens), UintAt(data, prices);
    DecodedPortfolio(
      seq(m, i requires 0 <= i < m => WordAt(data, tokens + 32 + 32 * i)[12..]),
      seq(n, i requires 0 <= i < n => DecodeSnapshot(data, prices + 32 + 160 * i)))
  }

  function DecodeSnapshot(data: seq<Byte>, at: nat): DecodedSnapshot {
    DecodedSnapshot(WordAt(data, at)[12..], WordAt(data, at + 32), UintAt(data, at + 64), UintAt(data, at + 96),
      UintAt(data, at + 128))
  }

  function SnapshotMeaning(s: PriceProtection.PriceSnapshot): DecodedSnapshot
    requires IsEncodable(s)
  {
    DecodedSnapshot(AddressBytes(s.token), HexWord(s.snapshotId), s.price, s.priceDecimals, s.observedAt)
  }

  /** Where the words of the portfolio encoding stand. */
  lemma PortfolioLayout(snapshots: seq<PriceProtection.PriceSnapshot>)
    requires AreEncodable(snapshots)
    ensures var n := |snapshots|;
            var words := PortfolioWords(snapshots);
            && EachOf(words, 32) && |words| == 4 + n + 5 * n
            && words[0] == Word(64) && words[1] == Word(96 + 32 * n) && words[2] == Word(n) && words[3 + n] == Word(n)
            && words[..3] + Flatten(TokenParts(snapshots)) == words[..3 + n]
            && words[..4 + n] + Flatten(SnapshotParts(snapshots)) == words
  {
    hide Flatten, Word;
    var tokens, prices := Flatten(TokenParts(snapshots)), Flatten(SnapshotParts(snapshots));
    FlattenLength(TokenParts(snapshots), 1);
    FlattenLength(SnapshotParts(snapshots), 5);
    FlattenOfWords(TokenParts(snapshots));
    FlattenOfWords(SnapshotParts(snapshots));
    var n := |snapshots|;
    var words := PortfolioWords(snapshots);
    assert words == [Word(64), Word(96 + 32 * n), Word(n)] + tokens + [Word(n)] + prices;
  }

  lemma TokenDecodes(snapshots: seq<PriceProtection.PriceSnapshot>, i: nat)
    requires AreEncodable(snapshots) && i < |snapshots|
    ensures WordAt(PortfolioPreimage(snapshots), 96 + 32 * i) == AddressWord(snapshots[i].token)
  {
    hide Flatten, Word, PortfolioWords, WordAt, AddressWord;
    PortfolioLayout(snapshots);
    var words, parts := PortfolioWords(snapshots), TokenParts(snapshots);
    FlattenLength(parts, 1);
    FlattenPart(parts, 1, i);
    assert Flatten(parts)[i..i + 1][0] == parts[i][0];
    assert words[3 + i] == (words[..3] + Flatten(parts))[3 + i] == Flatten(parts)[i];
    WordOfFlatten(words, 3 + i);
  }

  lemma SnapshotDecodes(snapshots: seq<PriceProtection.PriceSnapshot>, i: nat)
    requires AreEncodable(snapshots) && i < |snapshots|
    ensures DecodeSnapshot(PortfolioPreimage(snapshots), 128 + 32 * |snapshots| + 160 * i)
      == SnapshotMeaning(snapshots[i])
  {
    hide Flatten, Word, PortfolioWords, WordAt, AddressWord, ReadBytes, HexWord;
    PortfolioLayout(snapshots);
    var words, parts, n := PortfolioWords(snapshots), SnapshotParts(snapshots), |snapshots|;
    var at := 128 + 32 * n + 160 * i;
    forall j | 0 <= j < 5
      ensures WordAt(PortfolioPreimage(snapshots), at + 32 * j) == SnapshotSlots(snapshots[i])[j]
    {
      WordOfRecord(words[..4 + n], parts, 5, i, j, 5 * i + j);
      assert 32 * |words[..4 + n]| + 32 * (5 * i + j) == at + 32 * j;
    }
    var data, w := PortfolioPreimage(snapshots), SnapshotSlots(snapshots[i]);
    assert WordAt(data, at + 32 * 0) == w[0] && WordAt(data, at + 32 * 1) == w[1] && WordAt(data, at + 32 * 2) == w[2];
    assert WordAt(data, at + 32 * 3) == w[3] && WordAt(data, at + 32 * 4) == w[4];
    WordReadsBack(snapshots[i].price);
    WordReadsBack(snapshots[i].priceDecimals);
    WordReadsBack(snapshots[i].observedAt);
  }

  lemma PortfolioHead(snapshots: seq<PriceProtection.PriceSnapshot>)
    requires AreEncodable(snapshots)
    ensures var data, n := PortfolioPreimage(snapshots), |snapshots|;
            UintAt(data, 0) == 64 && UintAt(data, 32) == 96 + 32 * n && UintAt(data, 64) == n
              && UintAt(data, 96 + 32 * n) == n
  {
    hide Flatten, Word, PortfolioWords, WordAt, ReadBytes;
    PortfolioLayout(snapshots);
    var words, n := PortfolioWords(snapshots), |snapshots|;
    WordOfFlatten(words, 0);
    WordOfFlatten(words, 1);
    WordOfFlatten(words, 2);
    WordOfFlatten(words, 3 + n);
    WordReadsBack(64);
    WordReadsBack(96 + 32 * n);
    WordReadsBack(n);
  }

  /** Following the two offsets gives back the tokens and every field of every snapshot. */
  lemma PortfolioRoundTrip(snapshots: seq<PriceProtection.PriceSnapshot>)
    requires AreEncodable(snapshots)
    ensures var decoded := DecodePortfolio(PortfolioPreimage(snapshots));
            && decoded.tokens == seq(|snapshots|, i requires 0 <= i < |snapshots| => AddressBytes(snapshots[i].token))
            && decoded.snapshots == seq(|snapshots|, i requires 0 <= i < |snapshots| => SnapshotMeaning(snapshots[i]))
  {
    hide WordAt, PortfolioPreimage, SnapshotMeaning, DecodeSnapshot, AddressBytes, AddressWord, UintAt;
    var data, n := PortfolioPreimage(snapshots), |snapshots|;
    PortfolioHead(snapshots);
    var decoded := DecodePortfolio(data);
    forall i | 0 <= i < n
      ensures decoded.tokens[i] == AddressBytes(snapshots[i].token)
        && decoded.snapshots[i] == SnapshotMeaning(snapshots[i])
    {
      TokenDecodes(snapshots, i);
      SnapshotDecodes(snapshots, i);
    }
  }

  ghost predicate SameSnapshot(a: PriceProtection.PriceSnapshot, b: PriceProtection.PriceSnapshot) {
    && LowerCase(a.token) == LowerCase(b.token) && LowerCase(a.snapshotId) == LowerCase(b.snapshotId)
    && a.price == b.price && a.priceDecimals == b.priceDecimals && a.observedAt == b.observedAt
  }

  lemma SnapshotMeaningIff(a: PriceProtection.PriceSnapshot, b: PriceProtection.PriceSnapshot)
    requires IsEncodable(a) && IsEncodable(b)
    ensures SnapshotMeaning(a) == SnapshotMeaning(b) <==> SameSnapshot(a, b)
  {
    hide LowerCase, AddressBytes, Pairs;
    AddressBytesIff(a.token, b.token);
    HexWordIff(a.snapshotId, b.snapshotId);
  }

  /** Two snapshot lists with one commitment are the same list up to hex case. */
  lemma PortfolioCommitmentIff(a: seq<PriceProtection.PriceSnapshot>, b: seq<PriceProtection.PriceSnapshot>)
    requires AreEncodable(a) && AreEncodable(b)
    ensures PortfolioPreimage(a) == PortfolioPreimage(b)
      <==> |a| == |b| && forall i :: 0 <= i < |a| ==> SameSnapshot(a[i], b[i])
  {
    hide PortfolioPreimage, DecodePortfolio, SnapshotMeaning, SameSnapshot;
    if PortfolioPreimage(a) == PortfolioPreimage(b) {
      PortfolioRoundTrip(a);
      PortfolioRoundTrip(b);
      var meanings := DecodePortfolio(PortfolioPreimage(a)).snapshots;
      assert |a| == |meanings| == |b|;
      forall i | 0 <= i < |a| ensures SameSnapshot(a[i], b[i]) {
        assert SnapshotMeaning(a[i]) == meanings[i] == SnapshotMeaning(b[i]);
        SnapshotMeaningIff(a[i], b[i]);
      }
    }
    if |a| == |b| && forall i :: 0 <= i < |a| ==> SameSnapshot(a[i], b[i]) {
      SameSnapshotsSameBytes(a, b);
    }
  }

  lemma SameSnapshotsSameBytes(a: seq<PriceProtection.PriceSnapshot>, b: seq<PriceProtection.PriceSnapshot>)
    requires AreEncodable(a) && AreEncodable(b) && |a| == |b|
    requires forall i :: 0 <= i < |a| ==> SameSnapshot(a[i], b[i])
    ensures PortfolioPreimage(a) == PortfolioPreimage(b)
  {
    hide Flatten, AddressBytes, LowerCase, HexWord;
    forall i | 0 <= i < |a| ensures SnapshotSlots(a[i]) == SnapshotSlots(b[i])
      && AddressWord(a[i].token) == AddressWord(b[i].token) {
      assert SameSnapshot(a[i], b[i]);
      AddressBytesIff(a[i].token, b[i].token);
      HexWordIff(a[i].snapshotId, b[i].snapshotId);
    }
    assert TokenParts(a) == TokenParts(b) && SnapshotParts(a) == SnapshotParts(b);
  }
}
