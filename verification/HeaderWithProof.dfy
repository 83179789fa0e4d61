/** `HeaderWithProof`, its four proof shapes, their builders and the SSZ codec
    (src/portal_types/execution/header_with_proof.rs, ssz_header.rs). */
module HeaderWithProof {
  import opened Primitives
  import opened Bits
  import opened NetworkSpec
  import opened Beacon
  import opened Ssz

  /** An execution-layer header: the two fields that choose an era, and everything else. */
  datatype Header = Header(number: u64, timestamp: u64, rest: Bytes)

  /** Keccak-256 of the header's RLP, and the header's RLP codec. No value is given to them,
      so statements hold for all such functions; what a statement needs of the codec is one of
      its hypotheses. */
  const HEADER_HASH: Header -> Digest
  const HEADER_TO_RLP: Header -> Bytes
  const HEADER_FROM_RLP: Bytes -> Option<Header>

  function HashSlow(header: Header): Digest {
    HEADER_HASH(header)
  }

  type Vector11 = s: seq<Digest> | |s| == 11 ghost witness ZeroDigests(11)
  type Vector12 = s: seq<Digest> | |s| == 12 ghost witness ZeroDigests(12)
  type Vector13 = s: seq<Digest> | |s| == 13 ghost witness ZeroDigests(13)
  type Vector14 = s: seq<Digest> | |s| == 14 ghost witness ZeroDigests(14)
  type Vector15 = s: seq<Digest> | |s| == 15 ghost witness ZeroDigests(15)

  datatype BlockProofHistoricalRoots = BlockProofHistoricalRoots(
    beaconBlockProof: Vector14, beaconBlockRoot: Digest, executionBlockProof: Vector11, slot: u64)

  datatype BlockProofHistoricalSummariesCapella = BlockProofHistoricalSummariesCapella(
    beaconBlockProof: Vector13, beaconBlockRoot: Digest, executionBlockProof: Vector11, slot: u64)

  datatype BlockProofHistoricalSummariesDeneb = BlockProofHistoricalSummariesDeneb(
    beaconBlockProof: Vector13, beaconBlockRoot: Digest, executionBlockProof: Vector12, slot: u64)

  datatype BlockHeaderProof =
    | OfHashes(hashes: Vector15)
    | OfRoots(roots: BlockProofHistoricalRoots)
    | OfCapella(capella: BlockProofHistoricalSummariesCapella)
    | OfDeneb(deneb: BlockProofHistoricalSummariesDeneb)
  {
    function Kind(): ProofKind {
      match this
      case OfHashes(_) => HistoricalHashes
      case OfRoots(_) => HistoricalRoots
      case OfCapella(_) => HistoricalSummariesCapella
      case OfDeneb(_) => HistoricalSummariesDeneb
    }
  }

  datatype HeaderWithProof = HeaderWithProof(header: Header, proof: BlockHeaderProof)

  // ---- Builders ----

  /** `FixedVector::new(..).expect(..)`: the length is right, so neither `expect` can fail. */
  function ExecutionProof11(block: BeaconBlock): Vector11
    requires block.Fork() == Bellatrix || block.Fork() == Capella
  {
    BuildExecutionBlockHashProof(block)
  }

  function ExecutionProof12(block: BeaconBlock): Vector12
    requires block.Fork() == Deneb || block.Fork() == Electra
  {
    BuildExecutionBlockHashProof(block)
  }

  function RootsProof13(roots: RootsPerHistoricalRoot, slot: u64): Vector13 {
    BuildRootsProof(roots, slot % SLOTS_PER_HISTORICAL_ROOT)
  }

  function BatchProof14(batch: HistoricalBatch, slot: u64): Vector14 {
    BlockRootProof(batch, slot % SLOTS_PER_HISTORICAL_ROOT)
  }

  function BuildHistoricalRootsProof(slot: u64, batch: HistoricalBatch, block: BeaconBlock): BlockProofHistoricalRoots
    requires block.Fork() == Bellatrix
  {
    BlockProofHistoricalRoots(BatchProof14(batch, slot), BlockRoot(block), ExecutionProof11(block), slot)
  }

  function BuildCapellaProof(slot: u64, blockRoots: RootsPerHistoricalRoot, block: BeaconBlock)
    : BlockProofHistoricalSummariesCapella
    requires block.Fork() == Capella
  {
    BlockProofHistoricalSummariesCapella(
      RootsProof13(blockRoots, slot), BlockRoot(block), ExecutionProof11(block), slot)
  }

  /** Deneb and Electra blocks fill the same container. */
  function BuildDenebProof(slot: u64, blockRoots: RootsPerHistoricalRoot, block: BeaconBlock)
    : BlockProofHistoricalSummariesDeneb
    requires block.Fork() == Deneb || block.Fork() == Electra
  {
    BlockProofHistoricalSummariesDeneb(
      RootsProof13(blockRoots, slot), BlockRoot(block), ExecutionProof12(block), slot)
  }

  /** The dispatch on the fork of the fetched block (src/sources/archive_rpc.rs). Every vector
      gets the length its type demands, whatever the block and the batch. */
  function BuildPostMergeProof(slot: u64, batch: HistoricalBatch, block: BeaconBlock): (proof: BlockHeaderProof)
    ensures proof.Kind() == KindForFork(block.Fork())
  {
    if block.body.BodyBellatrix? then OfRoots(BuildHistoricalRootsProof(slot, batch, block))
    else if block.body.BodyCapella? then OfCapella(BuildCapellaProof(slot, batch.blockRoots, block))
    else OfDeneb(BuildDenebProof(slot, batch.blockRoots, block))
  }

  // ---- Encoding ----

  /** The fixed-length container of a post-merge proof. */
  function ContainerBytes(beaconProof: seq<Digest>, root: Digest, executionProof: seq<Digest>, slot: u64): (b: Bytes)
    ensures |b| == 32 * |beaconProof| + 32 + 32 * |executionProof| + 8
  {
    Flatten(beaconProof) + root + Flatten(executionProof) + U64Bytes(slot)
  }

  function ContainerFromBytes(b: Bytes, n: nat, m: nat): Option<(seq<Digest>, Digest, seq<Digest>, u64)> {
    if |b| != 32 * n + 32 + 32 * m + 8 then None
    else
      var i, j := 32 * n + 32, 32 * n + 32 + 32 * m;
      Some((Digests(b[..32 * n], n), b[32 * n..i], Digests(b[i..j], m), U64FromBytes(b[j..])))
  }

  lemma ContainerRoundTrip(beaconProof: seq<Digest>, root: Digest, executionProof: seq<Digest>, slot: u64)
    ensures ContainerFromBytes(ContainerBytes(beaconProof, root, executionProof, slot), |beaconProof|, |executionProof|)
         == Some((beaconProof, root, executionProof, slot))
  {
    FourParts(Flatten(beaconProof), root, Flatten(executionProof), U64Bytes(slot));
    DigestsOfFlatten(beaconProof);
    DigestsOfFlatten(executionProof);
    U64Inverse(slot, []);
  }

  lemma ContainerCanonical(b: Bytes, n: nat, m: nat)
    requires ContainerFromBytes(b, n, m).Some?
    ensures var (beaconProof, root, executionProof, slot) := ContainerFromBytes(b, n, m).value;
      |beaconProof| == n && |executionProof| == m && ContainerBytes(beaconProof, root, executionProof, slot) == b
  {
    var i, j := 32 * n + 32, 32 * n + 32 + 32 * m;
    FlattenOfDigests(b[..32 * n], n);
    FlattenOfDigests(b[i..j], m);
    U64Inverse(0, b[j..]);
    assert b == b[..32 * n] + b[32 * n..i] + b[i..j] + b[j..];
  }

  /** 480, 840, 808 and 840 bytes: the length does not tell the shapes apart. */
  function ProofBytes(proof: BlockHeaderProof): (b: Bytes)
    ensures |b| == (match proof.Kind()
      case HistoricalHashes => 480
      case HistoricalRoots => 840
      case HistoricalSummariesCapella => 808
      case HistoricalSummariesDeneb => 840)
  {
    match proof
    case OfHashes(p) => Flatten(p)
    case OfRoots(p) => ContainerBytes(p.beaconBlockProof, p.beaconBlockRoot, p.executionBlockProof, p.slot)
    case OfCapella(p) => ContainerBytes(p.beaconBlockProof, p.beaconBlockRoot, p.executionBlockProof, p.slot)
    case OfDeneb(p) => ContainerBytes(p.beaconBlockProof, p.beaconBlockRoot, p.executionBlockProof, p.slot)
  }

  function ProofFromBytes(kind: ProofKind, b: Bytes): (r: Option<BlockHeaderProof>)
    ensures r.Some? ==> r.value.Kind() == kind
  {
    match kind
    case HistoricalHashes =>
      if |b| == 480 then Some(OfHashes(Digests(b, 15))) else None
    case HistoricalRoots =>
      (match ContainerFromBytes(b, 14, 11)
       case None => None
       case Some((p, root, q, slot)) =>
         ContainerCanonical(b, 14, 11);
         Some(OfRoots(BlockProofHistoricalRoots(p, root, q, slot))))
    case HistoricalSummariesCapella =>
      (match ContainerFromBytes(b, 13, 11)
       case None => None
       case Some((p, root, q, slot)) =>
         ContainerCanonical(b, 13, 11);
         Some(OfCapella(BlockProofHistoricalSummariesCapella(p, root, q, slot))))
    case HistoricalSummariesDeneb =>
      (match ContainerFromBytes(b, 13, 12)
       case None => None
       case Some((p, root, q, slot)) =>
         ContainerCanonical(b, 13, 12);
         Some(OfDeneb(BlockProofHistoricalSummariesDeneb(p, root, q, slot))))
  }

  /** With the next lemma: the codec of a shape is a bijection between its proofs and the byte
      strings of its length. */
  lemma ProofRoundTrip(proof: BlockHeaderProof)
    ensures ProofFromBytes(proof.Kind(), ProofBytes(proof)) == Some(proof)
  {
    hide ContainerBytes, ContainerFromBytes;
    match proof {
      case OfHashes(p) => DigestsOfFlatten(p);
      case OfRoots(p) => ContainerRoundTrip(p.beaconBlockProof, p.beaconBlockRoot, p.executionBlockProof, p.slot);
      case OfCapella(p) => ContainerRoundTrip(p.beaconBlockProof, p.beaconBlockRoot, p.executionBlockProof, p.slot);
      case OfDeneb(p) => ContainerRoundTrip(p.beaconBlockProof, p.beaconBlockRoot, p.executionBlockProof, p.slot);
    }
  }

  lemma ProofCanonical(kind: ProofKind, b: Bytes)
    requires ProofFromBytes(kind, b).Some?
    ensures ProofBytes(ProofFromBytes(kind, b).value) == b
  {
    hide ContainerBytes, ContainerFromBytes;
    match kind {
      case HistoricalHashes => FlattenOfDigests(b, 15);
      case HistoricalRoots => ContainerCanonical(b, 14, 11);
      case HistoricalSummariesCapella => ContainerCanonical(b, 13, 11);
      case HistoricalSummariesDeneb => ContainerCanonical(b, 13, 12);
    }
  }

  const MAX_HEADER_BYTES := 2048
  const MAX_PROOF_BYTES := 1024

  /** The header's RLP, cut to the capacity of its byte list. */
  function HeaderBytes(header: Header): (b: Bytes)
    ensures b <= HEADER_TO_RLP(header)
    ensures |b| == if |HEADER_TO_RLP(header)| <= 2048 then |HEADER_TO_RLP(header)| else 2048
  {
    var rlp := HEADER_TO_RLP(header);
    if |rlp| <= MAX_HEADER_BYTES then rlp else rlp[..MAX_HEADER_BYTES]
  }

  function AsSszBytes(hwp: HeaderWithProof): Bytes {
    TwoFields(HeaderBytes(hwp.header), ProofBytes(hwp.proof))
  }

  /** `b` holds the digests of the two branches with the root between them, from the first byte on,
      and then the digits of the slot, the lowest first. */
  predicate LaidOut(b: Bytes, beaconProof: seq<Digest>, root: Digest, executionProof: seq<Digest>, slot: u64) {
    var (n, m) := (|beaconProof|, |executionProof|);
    && |b| == 32 * (n + 1 + m) + 8
    && (forall i :: 0 <= i < n ==> b[32 * i..32 * i + 32] == beaconProof[i])
    && b[32 * n..32 * n + 32] == root
    && (forall i :: 0 <= i < m ==> b[32 * (n + 1 + i)..32 * (n + 1 + i) + 32] == executionProof[i])
    && (forall i :: 0 <= i < 8 ==> b[32 * (n + 1 + m) + i] as nat == slot / Pow256(i) % 256)
  }

  lemma ContainerLaidOut(beaconProof: seq<Digest>, root: Digest, executionProof: seq<Digest>, slot: u64)
    ensures LaidOut(ContainerBytes(beaconProof, root, executionProof, slot), beaconProof, root, executionProof, slot)
  {
    hide Flatten, LeBytes, Pow256;
    var b := ContainerBytes(beaconProof, root, executionProof, slot);
    var (n, m) := (|beaconProof|, |executionProof|);
    FourParts(Flatten(beaconProof), root, Flatten(executionProof), U64Bytes(slot));
    forall i | 0 <= i < n
      ensures b[32 * i..32 * i + 32] == beaconProof[i]
    {
      FlattenAt(beaconProof, i);
      assert b[32 * i..32 * i + 32] == b[..32 * n][32 * i..32 * i + 32];
    }
    forall i | 0 <= i < m
      ensures b[32 * (n + 1 + i)..32 * (n + 1 + i) + 32] == executionProof[i]
    {
      FlattenAt(executionProof, i);
      var part := b[32 * (n + 1)..32 * (n + 1 + m)];
      assert b[32 * (n + 1 + i)..32 * (n + 1 + i) + 32] == part[32 * i..32 * i + 32];
    }
    forall i | 0 <= i < 8
      ensures b[32 * (n + 1 + m) + i] as nat == slot / Pow256(i) % 256
    {
      LittleEndian(slot, 8, i);
      assert b[32 * (n + 1 + m)..] == U64Bytes(slot);
    }
  }

  /** Where every part of a proof stands, shape by shape. */
  lemma ProofLayout(proof: BlockHeaderProof)
    ensures var b := ProofBytes(proof);
      match proof
      case OfHashes(p) => |b| == 480 && forall i :: 0 <= i < 15 ==> b[32 * i..32 * i + 32] == p[i]
      case OfRoots(p) => LaidOut(b, p.beaconBlockProof, p.beaconBlockRoot, p.executionBlockProof, p.slot)
      case OfCapella(p) => LaidOut(b, p.beaconBlockProof, p.beaconBlockRoot, p.executionBlockProof, p.slot)
      case OfDeneb(p) => LaidOut(b, p.beaconBlockProof, p.beaconBlockRoot, p.executionBlockProof, p.slot)
  {
    hide ContainerBytes, LaidOut, Flatten;
    match proof {
      case OfHashes(p) =>
        forall i | 0 <= i < 15
          ensures Flatten(p)[32 * i..32 * i + 32] == p[i]
        {
          FlattenAt(p, i);
        }
      case OfRoots(p) => ContainerLaidOut(p.beaconBlockProof, p.beaconBlockRoot, p.executionBlockProof, p.slot);
      case OfCapella(p) => ContainerLaidOut(p.beaconBlockProof, p.beaconBlockRoot, p.executionBlockProof, p.slot);
      case OfDeneb(p) => ContainerLaidOut(p.beaconBlockProof, p.beaconBlockRoot, p.executionBlockProof, p.slot);
    }
  }

  /** The container: the offsets 8 and 8 plus the header's length, four bytes each with the lowest
      first, then the header, then the proof. */
  lemma WireLayout(hwp: HeaderWithProof)
    ensures var (b, h) := (AsSszBytes(hwp), |HeaderBytes(hwp.header)|);
      && b[..4] == [8, 0, 0, 0]
      && b[4..8] == [((8 + h) % 256) as byte, ((8 + h) / 256) as byte, 0, 0]
      && b[8..8 + h] == HeaderBytes(hwp.header) && b[8 + h..] == ProofBytes(hwp.proof)
  {
    hide HeaderBytes, ProofBytes;
    var h := |HeaderBytes(hwp.header)|;
    assert LeBytes(8, 4) == [8, 0, 0, 0];
    SmallOffset(8 + h);
    assert AsSszBytes(hwp) == LeBytes(8, 4) + LeBytes(8 + h, 4) + HeaderBytes(hwp.header) + ProofBytes(hwp.proof);
  }

  lemma SmallOffset(x: nat)
    requires x < 65536
    ensures LeBytes(x, 4) == [(x % 256) as byte, (x / 256) as byte, 0, 0]
  {
    assert LeBytes(x, 4) == [(x % 256) as byte] + LeBytes(x / 256, 3);
    assert LeBytes(x / 256, 3) == [(x / 256) as byte] + LeBytes(0, 2);
    assert LeBytes(0, 2) == [0] + LeBytes(0, 1) && LeBytes(0, 1) == [0] + LeBytes(0, 0);
  }

  method SszAppend(proof: BlockHeaderProof, buf: Bytes) returns (out: Bytes)
    ensures out == buf + ProofBytes(proof)
  {
    out := buf;
    match proof {
      case OfHashes(p) =>
        out := out + Flatten(p);
      case OfRoots(p) =>
        out := AppendContainer(p.beaconBlockProof, p.beaconBlockRoot, p.executionBlockProof, p.slot, out);
      case OfCapella(p) =>
        out := AppendContainer(p.beaconBlockProof, p.beaconBlockRoot, p.executionBlockProof, p.slot, out);
      case OfDeneb(p) =>
        out := AppendContainer(p.beaconBlockProof, p.beaconBlockRoot, p.executionBlockProof, p.slot, out);
    }
  }

  method AppendContainer(beaconProof: seq<Digest>, root: Digest, executionProof: seq<Digest>, slot: u64, buf: Bytes)
    returns (out: Bytes)
    ensures out == buf + ContainerBytes(beaconProof, root, executionProof, slot)
  {
    out := buf + Flatten(beaconProof);
    out := out + root;
    out := out + Flatten(executionProof);
    out := out + U64Bytes(slot);
  }

  // ---- Decoding ----

  datatype DecodeError = BadOffsets | BytesTooLong | BadHeader | BadProofLength

  /** The proof variant is chosen from the decoded header, not from a tag. */
  function FromSszBytes(bytes: Bytes): Result<HeaderWithProof, DecodeError> {
    match SplitTwoFields(bytes)
    case None => Err(BadOffsets)
    case Some((headerBytes, proofBytes)) =>
      if |headerBytes| > MAX_HEADER_BYTES then Err(BytesTooLong)
      else match HEADER_FROM_RLP(headerBytes)
        case None => Err(BadHeader)
        case Some(header) =>
          if |proofBytes| > MAX_PROOF_BYTES then Err(BytesTooLong)
          else match ProofFromBytes(KindForHeader(header.number, header.timestamp), proofBytes)
            case None => Err(BadProofLength)
            case Some(proof) => Ok(HeaderWithProof(header, proof))
  }

  /** Which bytes decode, and what the others are refused for: the offsets first, the header next,
      its length before its content, and the proof last. */
  lemma DecodeOutcomes(bytes: Bytes)
    ensures var r := FromSszBytes(bytes);
      var o := if |bytes| >= 8 then FromLe(bytes[4..8]) else 0;
      if |bytes| < 8 || bytes[..4] != [8, 0, 0, 0] || o < 8 || o > |bytes| then r == Err(BadOffsets)
      else if o > 2056 then r == Err(BytesTooLong)
      else match HEADER_FROM_RLP(bytes[8..o])
        case None => r == Err(BadHeader)
        case Some(header) =>
          var kind := KindForHeader(header.number, header.timestamp);
          var length :=
            if kind == HistoricalHashes then 480 else if kind == HistoricalSummariesCapella then 808 else 840;
          if |bytes| > o + 1024 then r == Err(BytesTooLong)
          else if |bytes| != o + length then r == Err(BadProofLength)
          else r.Ok? && r.value.header == header && r.value.proof.Kind() == kind
  {
    hide LeBytes, FromLe, Digests, ContainerBytes, KindForHeader;
    if |bytes| >= 8 {
      ToLeFromLe(bytes[..4]);
      FitsBelow(8, 4);
      FromLeToLe(8, 4);
      SmallOffset(8);
    }
  }

  /** Registers variable-length items by reading their offsets, then cuts the bytes at them. */
  class SszDecoderBuilder {
    const bytes: Bytes
    var itemsIndex: nat
    var offsets: seq<nat>

    constructor (bytes: Bytes)
      ensures this.bytes == bytes && itemsIndex == 0 && offsets == []
    {
      this.bytes := bytes;
      itemsIndex, offsets := 0, [];
    }

    /** Fails on a missing prefix, an offset past the end, or one below its predecessor. */
    method RegisterAnonymousVariableLengthItem() returns (ok: bool)
      modifies this
      ensures var last := if old(offsets) == [] then 0 else old(offsets)[|old(offsets)| - 1];
        ok <==> old(itemsIndex) + 4 <= |bytes|
                && last <= FromLe(bytes[old(itemsIndex)..old(itemsIndex) + 4]) <= |bytes|
      ensures ok ==> itemsIndex == old(itemsIndex) + 4
                     && offsets == old(offsets) + [FromLe(bytes[old(itemsIndex)..old(itemsIndex) + 4])]
    {
      if |bytes| < itemsIndex + 4 {
        return false;
      }
      var offset := FromLe(bytes[itemsIndex..itemsIndex + 4]);
      if offset > |bytes| {
        return false;
      }
      if offsets != [] && offsets[|offsets| - 1] > offset {
        return false;
      }
      offsets := offsets + [offset];
      itemsIndex := itemsIndex + 4;
      ok := true;
    }
  }

  method DecodeHeaderWithProof(bytes: Bytes) returns (r: Result<HeaderWithProof, DecodeError>)
    ensures r == FromSszBytes(bytes)
  {
    var builder := new SszDecoderBuilder(bytes);
    var ok := builder.RegisterAnonymousVariableLengthItem();
    if !ok {
      return Err(BadOffsets);
    }
    ok := builder.RegisterAnonymousVariableLengthItem();
    if !ok || builder.offsets[0] != builder.itemsIndex {
      return Err(BadOffsets);
    }
    var items := [bytes[builder.offsets[0]..builder.offsets[1]], bytes[builder.offsets[1]..]];
    var next := items[0];
    items := items[1..];
    if |next| > MAX_HEADER_BYTES {
      return Err(BytesTooLong);
    }
    var decoded := HEADER_FROM_RLP(next);
    if decoded.None? {
      return Err(BadHeader);
    }
    var header := decoded.value;
    next := items[0];
    if |next| > MAX_PROOF_BYTES {
      return Err(BytesTooLong);
    }
    var kind := if IsCancunActiveAtTimestamp(header.timestamp) then HistoricalSummariesDeneb
                else if IsShanghaiActiveAtTimestamp(header.timestamp) then HistoricalSummariesCapella
                else if IsParisActiveAtBlock(header.number) then HistoricalRoots
                else HistoricalHashes;
    var proof := ProofFromBytes(kind, next);
    r := if proof.Some? then Ok(HeaderWithProof(header, proof.value)) else Err(BadProofLength);
  }

  /** What a header needs of its RLP codec to survive the wire. */
  predicate HeaderSurvives(header: Header) {
    |HEADER_TO_RLP(header)| <= MAX_HEADER_BYTES && HEADER_FROM_RLP(HEADER_TO_RLP(header)) == Some(header)
  }

  lemma EncodedFieldsSplit(hwp: HeaderWithProof)
    ensures SplitTwoFields(AsSszBytes(hwp)) == Some((HeaderBytes(hwp.header), ProofBytes(hwp.proof)))
  {
    SplitOfTwoFields(HeaderBytes(hwp.header), ProofBytes(hwp.proof));
  }

  /** Decoding an encoding returns the value exactly when the proof has the shape of the
      header's era. */
  lemma EncodeThenDecode(hwp: HeaderWithProof)
    requires HeaderSurvives(hwp.header)
    ensures FromSszBytes(AsSszBytes(hwp)) == Ok(hwp)
        <==> hwp.proof.Kind() == KindForHeader(hwp.header.number, hwp.header.timestamp)
  {
    SplitOfTwoFields(HeaderBytes(hwp.header), ProofBytes(hwp.proof));
    ProofRoundTrip(hwp.proof);
  }

  /** Accepted bytes re-encode to themselves exactly when the header's own bytes do. */
  lemma DecodeThenEncode(bytes: Bytes)
    requires FromSszBytes(bytes).Ok?
    ensures var hwp := FromSszBytes(bytes).value;
      AsSszBytes(hwp) == bytes <==> HeaderBytes(hwp.header) == SplitTwoFields(bytes).value.0
  {
    var hwp := FromSszBytes(bytes).value;
    var (first, second) := SplitTwoFields(bytes).value;
    TwoFieldsOfSplit(bytes);
    ProofCanonical(hwp.proof.Kind(), second);
    if AsSszBytes(hwp) == bytes {
      SplitOfTwoFields(HeaderBytes(hwp.header), ProofBytes(hwp.proof));
    }
  }

  /** Whatever decodes passes the era check of its own shape. */
  lemma DecodedPassesGuard(bytes: Bytes)
    requires FromSszBytes(bytes).Ok?
    ensures var hwp := FromSszBytes(bytes).value;
      GuardAdmits(hwp.proof.Kind(), hwp.header.number, hwp.header.timestamp)
  {
    var hwp := FromSszBytes(bytes).value;
    GuardAdmitsDecodedKind(hwp.header.number, hwp.header.timestamp);
  }
}
