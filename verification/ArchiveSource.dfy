/** The archive source: from a raw header to the bytes a verifier decodes
    (src/sources/archive_rpc.rs). */
module ArchiveSource {
  import opened Primitives
  import opened MerkleSpec
  import opened NetworkSpec
  import opened Beacon
  import opened HeaderWithProof
  import opened PreMerge
  import opened Validator
  import opened Verifier

  /** Answers by slot. A block is decoded with the layout of the fork of its slot. */
  datatype BeaconProvider = BeaconProvider(
    block: u64 -> Result<BeaconBlock, Error>,
    batch: u64 -> Result<HistoricalBatch, Error>)

  type EpochProvider = u64 -> Result<EpochAccumulator, Error>

  /** What parsing the execution node's answer comes to. A difficulty of more than 32 bytes, behind
      fields that parse, is a panic. */
  datatype Answer = Parsed(header: Header) | Refused(error: Error) | LongDifficulty

  function BuildPostMergeHwp(header: Header, provider: Option<BeaconProvider>): Reply {
    if provider.None? then Err(DataSource("no BeaconDataProvider configured"))
    else match SlotForExecutionTimestamp(header.timestamp)
      case None => Err(DataSource("timestamp before beacon genesis"))
      case Some(slot) =>
        match (provider.value.block(slot), provider.value.batch(slot))
        case (Err(e), _) => Err(e)
        case (_, Err(e)) => Err(e)
        case (Ok(block), Ok(batch)) =>
          Ok(AsSszBytes(HeaderWithProof(header, BuildPostMergeProof(slot, batch, block))))
  }

  /** An epoch that is shorter than the header's index in it is a panic as well. */
  function FetchHeaderWithProof(answer: Answer, epochs: Option<EpochProvider>, beacon: Option<BeaconProvider>)
    : Fetched
  {
    match answer
    case LongDifficulty => Panicked
    case Refused(e) => Replied(Err(e))
    case Parsed(header) =>
      if header.number >= 15_537_394 then Replied(BuildPostMergeHwp(header, beacon))
      else if epochs.None? then Replied(Err(DataSource("no EpochProvider configured")))
      else match epochs.value(EpochIndexOfBlock(header.number))
        case Err(e) => Replied(Err(e))
        case Ok(epoch) =>
          match PreMergeConstruction(header, epoch)
          case IndexOutOfRange => Panicked
          case Failed(cause) => Replied(Err(ProofConstruction(cause)))
          case Constructed(proof) => Replied(Ok(AsSszBytes(HeaderWithProof(header, OfHashes(proof)))))
  }

  /** The source as the verifier holds it; it does not look blocks up by hash. */
  function ArchiveRpcSource(node: u64 -> Answer, epochs: Option<EpochProvider>, beacon: Option<BeaconProvider>)
    : Source
  {
    Source((number: u64) => FetchHeaderWithProof(node(number), epochs, beacon),
           _ => Replied(Err(DataSource("lookup by hash not implemented"))))
  }

  /** The epoch at hand ends before the header's record. */
  predicate EpochTooShort(header: Header, epochs: Option<EpochProvider>) {
    && !IsParisActiveAtBlock(header.number) && epochs.Some?
    && var epoch := epochs.value(EpochIndexOfBlock(header.number));
      epoch.Ok? && |epoch.value| <= header.number % SLOTS_PER_HISTORICAL_ROOT
  }

  /** Fetching panics exactly on an overlong difficulty and on an epoch that is too short. */
  lemma FetchPanicsExactly(answer: Answer, epochs: Option<EpochProvider>, beacon: Option<BeaconProvider>)
    ensures FetchHeaderWithProof(answer, epochs, beacon) == Panicked <==>
      answer.LongDifficulty? || (answer.Parsed? && EpochTooShort(answer.header, epochs))
  {
  }

  /** From header to verified block after the merge, through all four forks: with the block and
      the batch of the header's slot, the bytes the source makes decode to the right shape, and they
      are verified exactly when the block's payload has the header's hash, short of a collision. */
  lemma {:induction false} PostMergeEndToEnd(
    acc: Accumulators, summaries: Summaries, header: Header, slot: u64, epochs: Option<EpochProvider>,
    provider: BeaconProvider, block: BeaconBlock, batch: HistoricalBatch)
    requires IsParisActiveAtBlock(header.number) && HeaderSurvives(header)
    requires SlotForExecutionTimestamp(header.timestamp) == Some(slot)
    requires provider.block(slot) == Ok(block) && block.Fork() == ForkForSlot(slot)
    requires provider.batch(slot) == Ok(batch)
    requires batch.blockRoots[slot % SLOTS_PER_HISTORICAL_ROOT] == BlockRoot(block)
    requires Anchored(acc, summaries, slot, batch, ForkForSlot(slot))
    ensures var kind := KindForHeader(header.number, header.timestamp);
      var fetched := FetchHeaderWithProof(Parsed(header), epochs, Some(provider));
      var verified := CheckNumber(acc, summaries, header.number, fetched) == Verified(VerifiedBlock(header, kind));
      && (HashSlow(header) == block.body.payload.blockHash ==> verified)
      && (verified ==>
          || HashSlow(header) == block.body.payload.blockHash
          || Found(BuiltCollision(header, block)))
  {
    hide Validate, BuildPostMergeProof, AsSszBytes, FromSszBytes, BlockRoot, Anchored, HeaderSurvives, BuiltCollision,
         Found;
    var hwp := HeaderWithProof(header, BuildPostMergeProof(slot, batch, block));
    ForkDispatchCoherent(header.number, header.timestamp);
    GuardAdmitsDecodedKind(header.number, header.timestamp);
    EncodeThenDecode(hwp);
    BuiltAcceptedExactly(acc, summaries, header, slot, batch, block);
  }

  /** The same before the merge: with the right epoch at hand, the block is verified exactly
      when its timestamp is before Shanghai. Past that the decoder expects another shape. */
  lemma PreMergeEndToEnd(
    acc: Accumulators, summaries: Summaries, header: Header, epochs: EpochProvider, epoch: EpochAccumulator,
    beacon: Option<BeaconProvider>)
    requires !IsParisActiveAtBlock(header.number) && HeaderSurvives(header)
    requires var e := EpochIndexOfBlock(header.number);
      epochs(e) == Ok(epoch) && e < |acc.historicalEpochs| && acc.historicalEpochs[e] == EpochRoot(epoch)
    requires var i := header.number % SLOTS_PER_HISTORICAL_ROOT;
      i < |epoch| && epoch[i].blockHash == HashSlow(header)
    ensures var fetched := FetchHeaderWithProof(Parsed(header), Some(epochs), beacon);
      CheckNumber(acc, summaries, header.number, fetched) == Verified(VerifiedBlock(header, HistoricalHashes))
      <==> !IsShanghaiActiveAtTimestamp(header.timestamp)
  {
    hide Validate, AsSszBytes, FromSszBytes, HeaderSurvives, EpochRoot;
    var proof := PreMergeConstruction(header, epoch).proof;
    EncodeThenDecode(HeaderWithProof(header, OfHashes(proof)));
    PreMergeComplete(acc, summaries, header, epoch);
    if IsShanghaiActiveAtTimestamp(header.timestamp) {
      HashesDoNotDecode(header, proof);
    }
  }

  /** A pre-merge proof is too short for every later shape. */
  lemma HashesDoNotDecode(header: Header, proof: Vector15)
    requires HeaderSurvives(header) && KindForHeader(header.number, header.timestamp) != HistoricalHashes
    ensures FromSszBytes(AsSszBytes(HeaderWithProof(header, OfHashes(proof)))) == Err(BadProofLength)
  {
    EncodedFieldsSplit(HeaderWithProof(header, OfHashes(proof)));
  }

  /** Source `k` of the verifier is an archive source, and the sources before it fail. */
  ghost predicate FallsTo(v: Verifier, number: u64, k: nat, node: u64 -> Answer, epochs: Option<EpochProvider>,
                          beacon: Option<BeaconProvider>)
    reads v.provider.lock
  {
    && k < |v.dataSources|
    && v.dataSources[k] == ArchiveRpcSource(node, epochs, beacon)
    && forall j :: 0 <= j < k ==> v.AttemptsByNumber(number)[j].Fails?
  }

  /** What the archive source brings then decides the call, unless it fails too. */
  lemma ArchiveDecides(v: Verifier, number: u64, k: nat, node: u64 -> Answer, epochs: Option<EpochProvider>,
                       beacon: Option<BeaconProvider>, r: Call, called: nat)
    requires FallsTo(v, number, k, node, epochs, beacon)
    requires FirstThatWorks(v.AttemptsByNumber(number), r, called)
    ensures var call := CheckNumber(v.acc, v.Snapshot(), number, FetchHeaderWithProof(node(number), epochs, beacon));
      !call.Fails? ==> r == call && called == k + 1
  {
    hide CheckNumber, FetchHeaderWithProof;
    if !v.AttemptsByNumber(number)[k].Fails? {
      FirstDecides(v.AttemptsByNumber(number), r, called, k);
    }
  }

  /** So a call that falls to an archive source with the block and the batch of the header's slot
      verifies the header, in all four forks. */
  lemma {:induction false} PostMergeCallVerifies(
    v: Verifier, k: nat, node: u64 -> Answer, header: Header, slot: u64, epochs: Option<EpochProvider>,
    provider: BeaconProvider, block: BeaconBlock, batch: HistoricalBatch, r: Call, called: nat)
    requires FallsTo(v, header.number, k, node, epochs, Some(provider)) && node(header.number) == Parsed(header)
    requires FirstThatWorks(v.AttemptsByNumber(header.number), r, called)
    requires IsParisActiveAtBlock(header.number) && HeaderSurvives(header)
    requires SlotForExecutionTimestamp(header.timestamp) == Some(slot)
    requires provider.block(slot) == Ok(block) && block.Fork() == ForkForSlot(slot)
    requires provider.batch(slot) == Ok(batch)
    requires Committed(header, slot, batch, block)
    requires Anchored(v.acc, v.Snapshot(), slot, batch, ForkForSlot(slot))
    ensures r == Verified(VerifiedBlock(header, KindForHeader(header.number, header.timestamp))) && called == k + 1
  {
    hide CheckNumber, FetchHeaderWithProof, FallsTo, FirstThatWorks, Anchored, HeaderSurvives, Found, BuiltCollision,
         BlockRoot;
    PostMergeEndToEnd(v.acc, v.Snapshot(), header, slot, epochs, provider, block, batch);
    ArchiveDecides(v, header.number, k, node, epochs, Some(provider), r, called);
  }

  lemma {:induction false} PreMergeCallVerifies(
    v: Verifier, k: nat, node: u64 -> Answer, header: Header, epochs: EpochProvider, epoch: EpochAccumulator,
    beacon: Option<BeaconProvider>, r: Call, called: nat)
    requires FallsTo(v, header.number, k, node, Some(epochs), beacon) && node(header.number) == Parsed(header)
    requires FirstThatWorks(v.AttemptsByNumber(header.number), r, called)
    requires !IsParisActiveAtBlock(header.number) && HeaderSurvives(header)
    requires !IsShanghaiActiveAtTimestamp(header.timestamp)
    requires var e := EpochIndexOfBlock(header.number);
      epochs(e) == Ok(epoch) && e < |v.acc.historicalEpochs| && v.acc.historicalEpochs[e] == EpochRoot(epoch)
    requires var i := header.number % SLOTS_PER_HISTORICAL_ROOT;
      i < |epoch| && epoch[i].blockHash == HashSlow(header)
    ensures r == Verified(VerifiedBlock(header, HistoricalHashes)) && called == k + 1
  {
    hide CheckNumber, FetchHeaderWithProof, FallsTo, FirstThatWorks, HeaderSurvives, EpochRoot;
    PreMergeEndToEnd(v.acc, v.Snapshot(), header, epochs, epoch, beacon);
    ArchiveDecides(v, header.number, k, node, Some(epochs), beacon, r, called);
  }

  /** And a call that falls to an archive source with a truncated epoch panics, whatever the
      sources behind it hold. */
  lemma ShortEpochEndsTheCall(v: Verifier, k: nat, node: u64 -> Answer, header: Header, epochs: Option<EpochProvider>,
                              beacon: Option<BeaconProvider>, r: Call, called: nat)
    requires FallsTo(v, header.number, k, node, epochs, beacon) && node(header.number) == Parsed(header)
    requires FirstThatWorks(v.AttemptsByNumber(header.number), r, called)
    requires EpochTooShort(header, epochs)
    ensures r == Panics && called == k + 1
  {
    hide FetchHeaderWithProof, FallsTo, FirstThatWorks, EpochTooShort;
    FetchPanicsExactly(Parsed(header), epochs, beacon);
    ArchiveDecides(v, header.number, k, node, epochs, beacon, r, called);
  }

  /** What the source reports when it fails: the first thing that is missing. */
  lemma FetchErrors(header: Header, epochs: Option<EpochProvider>, beacon: Option<BeaconProvider>, e: Error)
    ensures FetchHeaderWithProof(Refused(e), epochs, beacon) == Replied(Err(e))
    ensures var reply := FetchHeaderWithProof(Parsed(header), epochs, beacon);
      if header.number >= 15_537_394 then
        && (beacon.None? ==> reply == Replied(Err(DataSource("no BeaconDataProvider configured"))))
        && (beacon.Some? && header.timestamp < 1_606_824_023 ==>
            reply == Replied(Err(DataSource("timestamp before beacon genesis"))))
        && (beacon.Some? && header.timestamp >= 1_606_824_023 ==>
            var slot := (header.timestamp - 1_606_824_023) / 12;
            var (block, batch) := (beacon.value.block(slot), beacon.value.batch(slot));
            && (block.Err? ==> reply == Replied(Err(block.error)))
            && (block.Ok? && batch.Err? ==> reply == Replied(Err(batch.error)))
            && (block.Ok? && batch.Ok? ==> reply.Replied? && reply.reply.Ok?))
      else
        && (epochs.None? ==> reply == Replied(Err(DataSource("no EpochProvider configured"))))
        && (epochs.Some? ==>
            var epoch := epochs.value(header.number / 8192);
            && (epoch.Err? ==> reply == Replied(Err(epoch.error)))
            && (epoch.Ok? && header.number % 8192 < |epoch.value|
                && epoch.value[header.number % 8192].blockHash != HashSlow(header)
                ==> reply == Replied(Err(ProofConstruction(HashMismatch)))))
  {
    hide AsSszBytes, BuildPostMergeProof, PreMergeProof;
  }

  lemma ByHashIsRefused(
    node: u64 -> Answer, epochs: Option<EpochProvider>, beacon: Option<BeaconProvider>, hash: Digest)
    ensures ArchiveRpcSource(node, epochs, beacon).byHash(hash)
         == Replied(Err(DataSource("lookup by hash not implemented")))
    ensures forall number: u64 ::
      ArchiveRpcSource(node, epochs, beacon).byNumber(number) == FetchHeaderWithProof(node(number), epochs, beacon)
  {
    hide FetchHeaderWithProof;
  }

  // ---- By hash, from any source that holds the bytes ----

  predicate HashFallsTo(v: Verifier, hash: Digest, k: nat, bytes: Bytes)
    reads v.provider.lock
  {
    && k < |v.dataSources|
    && v.dataSources[k].byHash(hash) == Replied(Ok(bytes))
    && forall j :: 0 <= j < k ==> v.AttemptsByHash(hash)[j].Fails?
  }

  /** A call by hash that falls to the bytes built for a block of any of the four forks verifies
      its header. */
  lemma {:induction false} PostMergeHashCallVerifies(
    v: Verifier, k: nat, header: Header, slot: u64, block: BeaconBlock, batch: HistoricalBatch, r: Call, called: nat)
    requires HashFallsTo(v, HashSlow(header), k,
                         AsSszBytes(HeaderWithProof(header, BuildPostMergeProof(slot, batch, block))))
    requires FirstThatWorks(v.AttemptsByHash(HashSlow(header)), r, called)
    requires IsParisActiveAtBlock(header.number) && HeaderSurvives(header)
    requires SlotForExecutionTimestamp(header.timestamp) == Some(slot) && block.Fork() == ForkForSlot(slot)
    requires Committed(header, slot, batch, block)
    requires Anchored(v.acc, v.Snapshot(), slot, batch, ForkForSlot(slot))
    ensures r == Verified(VerifiedBlock(header, KindForHeader(header.number, header.timestamp))) && called == k + 1
  {
    hide Validate, BuildPostMergeProof, AsSszBytes, HeaderSurvives, FirstThatWorks, Anchored, Committed;
    var hwp := HeaderWithProof(header, BuildPostMergeProof(slot, batch, block));
    ForkDispatchCoherent(header.number, header.timestamp);
    GuardAdmitsDecodedKind(header.number, header.timestamp);
    PostMergeComplete(v.acc, v.Snapshot(), header, slot, batch, block);
    HonestReplyVerifies(v, hwp, k, r, called);
  }

  /** The same before the merge, with the proof built from the committed epoch. */
  lemma {:induction false} PreMergeHashCallVerifies(
    v: Verifier, k: nat, header: Header, epoch: EpochAccumulator, r: Call, called: nat)
    requires !IsParisActiveAtBlock(header.number) && HeaderSurvives(header)
    requires !IsShanghaiActiveAtTimestamp(header.timestamp)
    requires EpochOf(v.acc, header.number, epoch)
    requires var i := header.number % SLOTS_PER_HISTORICAL_ROOT;
      && i < |epoch| && epoch[i].blockHash == HashSlow(header)
      && HashFallsTo(v, HashSlow(header), k, AsSszBytes(HeaderWithProof(header, OfHashes(PreMergeProof(epoch, i)))))
    requires FirstThatWorks(v.AttemptsByHash(HashSlow(header)), r, called)
    ensures r == Verified(VerifiedBlock(header, HistoricalHashes)) && called == k + 1
  {
    hide Validate, AsSszBytes, HeaderSurvives, FirstThatWorks, PreMergeProof, EpochRoot;
    var i := header.number % SLOTS_PER_HISTORICAL_ROOT;
    PreMergeComplete(v.acc, v.Snapshot(), header, epoch);
    HonestReplyVerifies(v, HeaderWithProof(header, OfHashes(PreMergeProof(epoch, i))), k, r, called);
  }
}
