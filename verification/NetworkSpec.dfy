/** Mainnet constants, fork dispatch and era addressing (src/portal_types/network_spec.rs,
    src/portal_types/consensus/constants.rs, src/portal_types/consensus/historical_summaries.rs,
    src/sources/beacon_rpc.rs). */
module NetworkSpec {
  import opened Primitives

  const MAINNET_PARIS_BLOCK: u64 := 15_537_394
  const MAINNET_SHANGHAI_TIMESTAMP: u64 := 1_681_338_455
  const MAINNET_CANCUN_TIMESTAMP: u64 := 1_710_338_135
  const MAINNET_BEACON_GENESIS_TIMESTAMP: u64 := 1_606_824_023
  const MAINNET_SECONDS_PER_SLOT: u64 := 12

  const SLOTS_PER_EPOCH: u64 := 32
  const SLOTS_PER_HISTORICAL_ROOT: u64 := 8192
  const CAPELLA_FORK_EPOCH: u64 := 194_048
  const DENEB_FORK_EPOCH: u64 := 269_568
  const ELECTRA_FORK_EPOCH: u64 := 364_032

  /** Lengths of the two lists shipped with the verifier: 60,708 bytes behind a 4-byte offset
      and 24,256 bytes, 32 bytes an entry (ARCHITECTURE.md). */
  const PRE_MERGE_EPOCHS := 1897
  const FROZEN_HISTORICAL_ROOTS := 758

  datatype ForkName = Bellatrix | Capella | Deneb | Electra

  /** Which of the four proof shapes authenticates a header. */
  datatype ProofKind = HistoricalHashes | HistoricalRoots | HistoricalSummariesCapella | HistoricalSummariesDeneb

  function SlotForExecutionTimestamp(timestamp: u64): Option<u64> {
    if timestamp < MAINNET_BEACON_GENESIS_TIMESTAMP then None
    else Some((timestamp - MAINNET_BEACON_GENESIS_TIMESTAMP) / MAINNET_SECONDS_PER_SLOT)
  }

  predicate IsParisActiveAtBlock(blockNumber: u64) {
    blockNumber >= MAINNET_PARIS_BLOCK
  }

  predicate IsShanghaiActiveAtTimestamp(timestamp: u64) {
    timestamp >= MAINNET_SHANGHAI_TIMESTAMP
  }

  predicate IsCancunActiveAtTimestamp(timestamp: u64) {
    timestamp >= MAINNET_CANCUN_TIMESTAMP
  }

  function ForkForSlot(slot: u64): ForkName {
    var epoch := slot / SLOTS_PER_EPOCH;
    if epoch >= ELECTRA_FORK_EPOCH then Electra
    else if epoch >= DENEB_FORK_EPOCH then Deneb
    else if epoch >= CAPELLA_FORK_EPOCH then Capella
    else Bellatrix
  }

  /** The proof shape built for a beacon block of each fork (src/sources/archive_rpc.rs). */
  function KindForFork(fork: ForkName): ProofKind {
    match fork
    case Bellatrix => HistoricalRoots
    case Capella => HistoricalSummariesCapella
    case Deneb => HistoricalSummariesDeneb
    case Electra => HistoricalSummariesDeneb
  }

  /** The proof shape the decoder reads after a header: timestamp first, number last. */
  function KindForHeader(number: u64, timestamp: u64): ProofKind {
    if IsCancunActiveAtTimestamp(timestamp) then HistoricalSummariesDeneb
    else if IsShanghaiActiveAtTimestamp(timestamp) then HistoricalSummariesCapella
    else if IsParisActiveAtBlock(number) then HistoricalRoots
    else HistoricalHashes
  }

  /** The era checks the validator makes before it looks at a proof of each shape. */
  predicate GuardAdmits(kind: ProofKind, number: u64, timestamp: u64) {
    match kind
    case HistoricalHashes => !IsParisActiveAtBlock(number)
    case HistoricalRoots => IsParisActiveAtBlock(number) && !IsShanghaiActiveAtTimestamp(timestamp)
    case HistoricalSummariesCapella => IsShanghaiActiveAtTimestamp(timestamp) && !IsCancunActiveAtTimestamp(timestamp)
    case HistoricalSummariesDeneb => IsCancunActiveAtTimestamp(timestamp)
  }

  /** Builder and decoder pick one shape for a header exactly when its number is post-merge or
      its timestamp is post-Shanghai; post-merge numbers are the only ones the builder is
      called for. */
  lemma ForkDispatchCoherent(number: u64, timestamp: u64)
    requires timestamp >= MAINNET_BEACON_GENESIS_TIMESTAMP
    ensures var slot := SlotForExecutionTimestamp(timestamp).value;
      && KindForFork(ForkForSlot(slot)) != HistoricalHashes
      && (KindForFork(ForkForSlot(slot)) == KindForHeader(number, timestamp)
          <==> IsParisActiveAtBlock(number) || IsShanghaiActiveAtTimestamp(timestamp))
  {
    var slot := SlotForExecutionTimestamp(timestamp).value;
    assert IsShanghaiActiveAtTimestamp(timestamp) <==> slot / SLOTS_PER_EPOCH >= CAPELLA_FORK_EPOCH;
    assert IsCancunActiveAtTimestamp(timestamp) <==> slot / SLOTS_PER_EPOCH >= DENEB_FORK_EPOCH;
  }

  /** The decoder's choice always passes the validator's guard, and it is the only choice that
      does exactly when the header is not a pre-merge number with a post-Shanghai timestamp. */
  lemma GuardAdmitsDecodedKind(number: u64, timestamp: u64)
    ensures GuardAdmits(KindForHeader(number, timestamp), number, timestamp)
    ensures (forall kind :: GuardAdmits(kind, number, timestamp) ==> kind == KindForHeader(number, timestamp))
        <==> IsParisActiveAtBlock(number) || !IsShanghaiActiveAtTimestamp(timestamp)
  {
    if !IsParisActiveAtBlock(number) && IsShanghaiActiveAtTimestamp(timestamp) {
      assert GuardAdmits(HistoricalHashes, number, timestamp);
      assert KindForHeader(number, timestamp) != HistoricalHashes;
    }
  }

  /** The eras by number and timestamp, for the validator's checks and for the decoder's choice. */
  lemma ErasByNumber(number: u64, timestamp: u64)
    ensures GuardAdmits(HistoricalHashes, number, timestamp) <==> number < 15_537_394
    ensures GuardAdmits(HistoricalRoots, number, timestamp) <==> number >= 15_537_394 && timestamp < 1_681_338_455
    ensures GuardAdmits(HistoricalSummariesCapella, number, timestamp) <==> 1_681_338_455 <= timestamp < 1_710_338_135
    ensures GuardAdmits(HistoricalSummariesDeneb, number, timestamp) <==> timestamp >= 1_710_338_135
    ensures KindForHeader(number, timestamp) ==
      if timestamp >= 1_710_338_135 then HistoricalSummariesDeneb
      else if timestamp >= 1_681_338_455 then HistoricalSummariesCapella
      else if number >= 15_537_394 then HistoricalRoots
      else HistoricalHashes
  {
  }

  // ---- Era addressing ----

  function CapellaSlot(): u64 {
    CAPELLA_FORK_EPOCH * SLOTS_PER_EPOCH
  }

  function HistoricalSummaryIndex(slot: u64): Option<nat> {
    if slot < CapellaSlot() then None
    else Some((slot - CapellaSlot()) / SLOTS_PER_HISTORICAL_ROOT)
  }

  function EpochIndexOfBlock(blockNumber: u64): u64 {
    blockNumber / SLOTS_PER_HISTORICAL_ROOT
  }

  /** The commitment that covers a slot, and the slot's place in it. */
  datatype Address =
    | InHistoricalRoots(entry: nat, offset: nat)
    | InSummaries(entry: nat, offset: nat)
  {
    predicate Valid() {
      offset < SLOTS_PER_HISTORICAL_ROOT && (InHistoricalRoots? ==> entry < FROZEN_HISTORICAL_ROOTS)
    }

    function Slot(): nat {
      (if InHistoricalRoots? then 0 else CapellaSlot()) + entry * SLOTS_PER_HISTORICAL_ROOT + offset
    }
  }

  function AddressOf(slot: u64): Address {
    var offset := slot % SLOTS_PER_HISTORICAL_ROOT;
    match HistoricalSummaryIndex(slot)
    case None => InHistoricalRoots(slot / SLOTS_PER_HISTORICAL_ROOT, offset)
    case Some(entry) => InSummaries(entry, offset)
  }

  /** Slots and valid addresses are in one-to-one correspondence. */
  lemma AddressingIsPartition(slot: u64, address: Address)
    ensures AddressOf(slot).Valid()
    ensures address.Valid() ==> (AddressOf(slot) == address <==> address.Slot() == slot)
  {
  }

  /** Numbers and pairs of an epoch and an index in it are in one-to-one correspondence. */
  lemma EpochsArePartition(number: u64, epoch: nat, index: nat)
    requires index < 8192
    ensures number == 8192 * epoch + index <==>
      EpochIndexOfBlock(number) == epoch && number % SLOTS_PER_HISTORICAL_ROOT == index
  {
  }

  /** A slot covers the twelve seconds from its start, and the first one starts at beacon genesis. */
  lemma SlotCoversTwelveSeconds(timestamp: u64, slot: u64)
    ensures SlotForExecutionTimestamp(timestamp) == Some(slot) <==>
      1_606_824_023 + 12 * slot <= timestamp < 1_606_824_023 + 12 * (slot + 1)
    ensures SlotForExecutionTimestamp(timestamp) == None <==> timestamp < 1_606_824_023
  {
  }

  /** The first slot of each fork. */
  lemma ForkIntervals(slot: u64)
    ensures ForkForSlot(slot) == Bellatrix <==> slot < 6_209_536
    ensures ForkForSlot(slot) == Capella <==> 6_209_536 <= slot < 8_626_176
    ensures ForkForSlot(slot) == Deneb <==> 8_626_176 <= slot < 11_649_024
    ensures ForkForSlot(slot) == Electra <==> 11_649_024 <= slot
  {
  }

  /** Every pre-merge block has an entry in the shipped list of epochs, and the last entry is
      used. */
  lemma PreMergeBlocksAreCovered(number: u64)
    ensures EpochIndexOfBlock(number) < PRE_MERGE_EPOCHS <== !IsParisActiveAtBlock(number)
    ensures EpochIndexOfBlock(MAINNET_PARIS_BLOCK - 1) == PRE_MERGE_EPOCHS - 1
  {
  }
}
