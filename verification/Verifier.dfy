/** The public verifier: ordered sources and a replaceable summaries snapshot
    (src/api.rs, src/historical_summaries_provider.rs). */
module Verifier {
  import opened Primitives
  import opened MerkleSpec
  import opened NetworkSpec
  import opened HeaderWithProof
  import opened PreMerge
  import opened Validator

  datatype Error =
    | NoDataSource
    | BlockNotFound(number: u64)
    | DataSource(message: string)
    | ProofConstruction(failure: ConstructionError)
    | SszDecode(number: u64, cause: DecodeError)
    | VerificationFailed(number: u64, reason: Reason)
    | WrongHash(number: u64)
    | BlockNumberMismatch(expected: u64, actual: u64)

  datatype VerifiedBlock = VerifiedBlock(header: Header, authPath: ProofKind)

  /** How a call ends. A panic inside validation or inside a source unwinds through every caller. */
  datatype Call = Verified(block: VerifiedBlock) | Fails(error: Error) | Panics

  type Reply = Result<Bytes, Error>

  /** What asking a source comes to. */
  datatype Fetched = Replied(reply: Reply) | Panicked

  /** A data source is asked by number or by hash. */
  datatype Source = Source(byNumber: u64 -> Fetched, byHash: Digest -> Fetched)

  /** The verdict on a value already at hand. */
  function Check(acc: Accumulators, summaries: Summaries, hwp: HeaderWithProof): Call {
    match Validate(acc, summaries, hwp)
    case Accepted => Verified(VerifiedBlock(hwp.header, hwp.proof.Kind()))
    case Rejected(reason) => Fails(VerificationFailed(hwp.header.number, reason))
    case IndexPanic => Panics
  }

  /** What one source brings for a request by number. */
  function CheckNumber(acc: Accumulators, summaries: Summaries, number: u64, fetched: Fetched): Call {
    match fetched
    case Panicked => Panics
    case Replied(Err(e)) => Fails(e)
    case Replied(Ok(bytes)) =>
      match FromSszBytes(bytes)
      case Err(cause) => Fails(SszDecode(number, cause))
      case Ok(hwp) =>
        if hwp.header.number != number then Fails(BlockNumberMismatch(number, hwp.header.number))
        else Check(acc, summaries, hwp)
  }

  /** What one source brings for a request by hash. */
  function CheckHash(acc: Accumulators, summaries: Summaries, hash: Digest, fetched: Fetched): Call {
    match fetched
    case Panicked => Panics
    case Replied(Err(e)) => Fails(e)
    case Replied(Ok(bytes)) =>
      match FromSszBytes(bytes)
      case Err(cause) => Fails(SszDecode(0, cause))
      case Ok(hwp) =>
        if HashSlow(hwp.header) != hash then Fails(WrongHash(hwp.header.number))
        else Check(acc, summaries, hwp)
  }

  /** What a reply to a request by number comes to, case by case. */
  lemma NumberOutcomes(acc: Accumulators, summaries: Summaries, number: u64, bytes: Bytes, e: Error)
    ensures CheckNumber(acc, summaries, number, Panicked) == Panics
    ensures CheckNumber(acc, summaries, number, Replied(Err(e))) == Fails(e)
    ensures var call := CheckNumber(acc, summaries, number, Replied(Ok(bytes)));
      match FromSszBytes(bytes)
      case Err(cause) => call == Fails(SszDecode(number, cause))
      case Ok(hwp) =>
        && (hwp.header.number != number ==> call == Fails(BlockNumberMismatch(number, hwp.header.number)))
        && (hwp.header.number == number ==>
            match Validate(acc, summaries, hwp)
            case Accepted => call == Verified(VerifiedBlock(hwp.header, hwp.proof.Kind()))
            case Rejected(reason) => call == Fails(VerificationFailed(number, reason))
            case IndexPanic => call == Panics)
  {
    hide Validate, FromSszBytes;
  }

  /** And to one by hash: an accepted value with the requested hash is verified. */
  lemma HashOutcomes(acc: Accumulators, summaries: Summaries, hash: Digest, bytes: Bytes, e: Error)
    ensures CheckHash(acc, summaries, hash, Panicked) == Panics
    ensures CheckHash(acc, summaries, hash, Replied(Err(e))) == Fails(e)
    ensures var call := CheckHash(acc, summaries, hash, Replied(Ok(bytes)));
      match FromSszBytes(bytes)
      case Err(cause) => call == Fails(SszDecode(0, cause))
      case Ok(hwp) =>
        && (HashSlow(hwp.header) != hash ==> call == Fails(WrongHash(hwp.header.number)))
        && (HashSlow(hwp.header) == hash ==>
            match Validate(acc, summaries, hwp)
            case Accepted => call == Verified(VerifiedBlock(hwp.header, hwp.proof.Kind()))
            case Rejected(reason) => call == Fails(VerificationFailed(hwp.header.number, reason))
            case IndexPanic => call == Panics)
  {
    hide Validate, FromSszBytes;
  }

  /** Whatever two sources replied and whatever the snapshots were, two blocks verified for one
      pre-merge number have one hash, or the replies reveal a collision. */
  lemma VerifiedNumbersAgree(acc: Accumulators, s: Summaries, t: Summaries, number: u64, a: Fetched, b: Fetched)
    requires CheckNumber(acc, s, number, a).Verified? && CheckNumber(acc, t, number, b).Verified?
    requires CheckNumber(acc, s, number, a).block.authPath == HistoricalHashes
    requires CheckNumber(acc, t, number, b).block.authPath == HistoricalHashes
    ensures var (x, y) := (FromSszBytes(a.reply.value).value, FromSszBytes(b.reply.value).value);
      || HashSlow(CheckNumber(acc, s, number, a).block.header) == HashSlow(CheckNumber(acc, t, number, b).block.header)
      || Found(ProofCollision(x, y))
  {
    hide Validate, FromSszBytes, ProofCollision;
    var (x, y) := (FromSszBytes(a.reply.value).value, FromSszBytes(b.reply.value).value);
    PreCapellaIgnoresSnapshot(acc, s, t, x);
    AtMostOneHeader(acc, t, x, y);
  }

  /** Whatever is verified for a number or for a hash has it, and agrees with what is committed to
      at its position: the epoch's record before the merge, the block of its slot after it. */
  lemma VerifiedIsAuthentic(acc: Accumulators, summaries: Summaries, number: u64, hash: Digest, fetched: Fetched)
    ensures var call := CheckNumber(acc, summaries, number, fetched);
      call.Verified? ==>
        var hwp := FromSszBytes(fetched.reply.value).value;
        && call.block == VerifiedBlock(hwp.header, hwp.proof.Kind())
        && hwp.header.number == number && Authentic(acc, summaries, hwp)
    ensures var call := CheckHash(acc, summaries, hash, fetched);
      call.Verified? ==>
        var hwp := FromSszBytes(fetched.reply.value).value;
        && call.block == VerifiedBlock(hwp.header, hwp.proof.Kind())
        && HashSlow(hwp.header) == hash && Authentic(acc, summaries, hwp)
  {
    hide Validate, FromSszBytes, Authentic;
    if CheckNumber(acc, summaries, number, fetched).Verified? || CheckHash(acc, summaries, hash, fetched).Verified? {
      AcceptedIsAuthentic(acc, summaries, FromSszBytes(fetched.reply.value).value);
    }
  }

  /** `r` is what trying `attempts` in order comes to, after `called` of them: all before the
      last were failures, the last one decides, and it was a failure only if none was left. */
  predicate FirstThatWorks(attempts: seq<Call>, r: Call, called: nat) {
    && 1 <= called <= |attempts|
    && (forall j :: 0 <= j < called - 1 ==> attempts[j].Fails?)
    && r == attempts[called - 1]
    && (r.Fails? ==> called == |attempts|)
  }

  /** That description leaves no choice. */
  lemma FirstThatWorksIsUnique(attempts: seq<Call>, r: Call, called: nat, r': Call, called': nat)
    requires FirstThatWorks(attempts, r, called) && FirstThatWorks(attempts, r', called')
    ensures r == r' && called == called'
  {
    assert r == attempts[called - 1] && r' == attempts[called' - 1];
  }

  lemma FirstDecides(attempts: seq<Call>, r: Call, called: nat, k: nat)
    requires FirstThatWorks(attempts, r, called)
    requires k < |attempts| && (forall j :: 0 <= j < k ==> attempts[j].Fails?) && !attempts[k].Fails?
    ensures r == attempts[k] && called == k + 1
  {
    FirstThatWorksIsUnique(attempts, r, called, attempts[k], k + 1);
  }

  // ---- Panics ----

  /** The value that reaches validation when one is asked for by number or by hash. */
  function Matching(number: Option<u64>, hash: Option<Digest>, fetched: Fetched): Option<HeaderWithProof> {
    if fetched.Panicked? || fetched.reply.Err? || FromSszBytes(fetched.reply.value).Err? then None
    else
      var hwp := FromSszBytes(fetched.reply.value).value;
      if number.Some? && hwp.header.number != number.value then None
      else if hash.Some? && HashSlow(hwp.header) != hash.value then None
      else Some(hwp)
  }

  predicate BringsMissingEntry(number: Option<u64>, hash: Option<Digest>, fetched: Fetched) {
    var m := Matching(number, hash, fetched);
    m.Some? && NamesMissingEntry(m.value)
  }

  /** The source itself panics, or what it brings makes validation panic. */
  predicate EndsInPanic(number: Option<u64>, hash: Option<Digest>, fetched: Fetched) {
    fetched.Panicked? || BringsMissingEntry(number, hash, fetched)
  }

  lemma ChecksPanicExactly(acc: Accumulators, summaries: Summaries, number: u64, hash: Digest, fetched: Fetched)
    requires Shipped(acc)
    ensures CheckNumber(acc, summaries, number, fetched) == Panics <==> EndsInPanic(Some(number), None, fetched)
    ensures CheckHash(acc, summaries, hash, fetched) == Panics <==> EndsInPanic(None, Some(hash), fetched)
  {
    hide Validate, FromSszBytes, NamesMissingEntry;
    if fetched.Replied? && fetched.reply.Ok? && FromSszBytes(fetched.reply.value).Ok? {
      PanicsExactly(acc, summaries, FromSszBytes(fetched.reply.value).value);
    }
  }

  /** The panic is real: every post-merge header from before Shanghai, behind a proof with any two
      branches and any slot from Capella on, decodes and makes both checks panic. */
  lemma {:induction false} MissingEntryPanics(acc: Accumulators, summaries: Summaries, header: Header,
                                              p: Vector14, q: Vector11, slot: u64)
    requires Shipped(acc) && slot >= CapellaSlot()
    requires IsParisActiveAtBlock(header.number) && !IsShanghaiActiveAtTimestamp(header.timestamp)
    requires HeaderSurvives(header)
    ensures var fetched := Replied(Ok(AsSszBytes(HeaderWithProof(header, MissingEntryProof(header, p, q, slot)))));
      && CheckNumber(acc, summaries, header.number, fetched) == Panics
      && CheckHash(acc, summaries, HashSlow(header), fetched) == Panics
      && BringsMissingEntry(Some(header.number), None, fetched)
      && BringsMissingEntry(None, Some(HashSlow(header)), fetched)
  {
    hide Validate, FromSszBytes, AsSszBytes, HeaderSurvives, Fold;
    var hwp := HeaderWithProof(header, MissingEntryProof(header, p, q, slot));
    EncodeThenDecode(hwp);
    PanicsExactly(acc, summaries, hwp);
  }

  /** The value behind the lock, shared by every clone of a provider. */
  class SummariesLock {
    var summaries: Summaries

    constructor (summaries: Summaries)
      ensures this.summaries == summaries
    {
      this.summaries := summaries;
    }
  }

  class HistoricalSummariesProvider {
    const lock: SummariesLock

    constructor (summaries: Summaries)
      ensures fresh(lock) && lock.summaries == summaries
    {
      lock := new SummariesLock(summaries);
    }

    constructor Clone(other: HistoricalSummariesProvider)
      ensures lock == other.lock
    {
      lock := other.lock;
    }

    method SetSummaries(summaries: Summaries)
      modifies lock
      ensures lock.summaries == summaries
    {
      lock.summaries := summaries;
    }

    /** The entry that covers the slot, exactly when the snapshot reaches that far. */
    method GetHistoricalSummary(slot: u64) returns (r: Option<HistoricalSummary>)
      ensures r.Some? <==>
        slot >= CapellaSlot() && AddressOf(slot).entry < |lock.summaries|
      ensures r.Some? ==> r.value == lock.summaries[AddressOf(slot).entry]
      ensures r == Validator.GetHistoricalSummary(lock.summaries, slot)
    {
      var index := HistoricalSummaryIndex(slot);
      if index.None? {
        return None;
      }
      var summaries := lock.summaries;
      r := if index.value < |summaries| then Some(summaries[index.value]) else None;
    }
  }

  class Verifier {
    const acc: Accumulators
    const provider: HistoricalSummariesProvider
    const dataSources: seq<Source>

    /** Without a snapshot the verifier starts with an empty one. */
    constructor (acc: Accumulators, summaries: Option<Summaries>, dataSources: seq<Source>)
      ensures fresh(provider) && fresh(provider.lock)
      ensures this.acc == acc && this.dataSources == dataSources
      ensures Snapshot() == if summaries.Some? then summaries.value else []
    {
      this.acc, this.dataSources := acc, dataSources;
      provider := new HistoricalSummariesProvider(if summaries.Some? then summaries.value else []);
    }

    constructor Clone(other: Verifier)
      ensures acc == other.acc && provider == other.provider && dataSources == other.dataSources
    {
      acc, provider, dataSources := other.acc, other.provider, other.dataSources;
    }

    function Snapshot(): Summaries
      reads provider.lock
    {
      provider.lock.summaries
    }

    /** Seen by every clone, since the lock is shared. */
    method SetHistoricalSummaries(summaries: Summaries)
      modifies provider.lock
      ensures Snapshot() == summaries
    {
      provider.SetSummaries(summaries);
    }

    method Verify(hwp: HeaderWithProof) returns (r: Call)
      ensures r == Check(acc, Snapshot(), hwp)
    {
      var verdict := Validate(acc, provider.lock.summaries, hwp);
      match verdict {
        case Accepted => r := Verified(VerifiedBlock(hwp.header, hwp.proof.Kind()));
        case Rejected(reason) => r := Fails(VerificationFailed(hwp.header.number, reason));
        case IndexPanic => r := Panics;
      }
    }

    /** What each source's reply would come to against the present snapshot. */
    function AttemptsByNumber(number: u64): (attempts: seq<Call>)
      reads provider.lock
      ensures |attempts| == |dataSources|
    {
      seq(|dataSources|, i requires 0 <= i < |dataSources| reads provider.lock =>
        CheckNumber(acc, Snapshot(), number, dataSources[i].byNumber(number)))
    }

    function AttemptsByHash(hash: Digest): (attempts: seq<Call>)
      reads provider.lock
      ensures |attempts| == |dataSources|
    {
      seq(|dataSources|, i requires 0 <= i < |dataSources| reads provider.lock =>
        CheckHash(acc, Snapshot(), hash, dataSources[i].byHash(hash)))
    }

    /** `called` counts the sources that were asked. */
    method VerifyBlockByNumber(number: u64) returns (r: Call, called: nat)
      ensures dataSources == [] ==> r == Fails(NoDataSource) && called == 0
      ensures dataSources != [] ==> FirstThatWorks(AttemptsByNumber(number), r, called)
      ensures r.Verified? ==> r.block.header.number == number
    {
      called := 0;
      if dataSources == [] {
        return Fails(NoDataSource), called;
      }
      hide Check, FromSszBytes;
      var lastErr: Option<Error> := None;
      ghost var attempts := AttemptsByNumber(number);
      for i := 0 to |dataSources|
        invariant called == i
        invariant forall j :: 0 <= j < i ==> attempts[j].Fails?
        invariant lastErr == if i == 0 then None else Some(attempts[i - 1].error)
      {
        called := called + 1;
        match dataSources[i].byNumber(number) {
          case Panicked =>
            return Panics, called;
          case Replied(Ok(bytes)) =>
            match FromSszBytes(bytes) {
              case Err(cause) =>
                lastErr := Some(SszDecode(number, cause));
              case Ok(hwp) =>
                if hwp.header.number != number {
                  lastErr := Some(BlockNumberMismatch(number, hwp.header.number));
                  continue;
                }
                var verified := Verify(hwp);
                match verified {
                  case Fails(e) => lastErr := Some(e);
                  case _ => return verified, called;
                }
            }
          case Replied(Err(e)) =>
            lastErr := Some(e);
        }
      }
      r := Fails(if lastErr.Some? then lastErr.value else BlockNotFound(number));
    }

    method VerifyBlockByHash(hash: Digest) returns (r: Call, called: nat)
      ensures dataSources == [] ==> r == Fails(NoDataSource) && called == 0
      ensures dataSources != [] ==> FirstThatWorks(AttemptsByHash(hash), r, called)
      ensures r.Verified? ==> HashSlow(r.block.header) == hash
    {
      called := 0;
      if dataSources == [] {
        return Fails(NoDataSource), called;
      }
      hide Check, FromSszBytes;
      var lastErr: Option<Error> := None;
      ghost var attempts := AttemptsByHash(hash);
      for i := 0 to |dataSources|
        invariant called == i
        invariant forall j :: 0 <= j < i ==> attempts[j].Fails?
        invariant lastErr == if i == 0 then None else Some(attempts[i - 1].error)
      {
        called := called + 1;
        match dataSources[i].byHash(hash) {
          case Panicked =>
            return Panics, called;
          case Replied(Ok(bytes)) =>
            match FromSszBytes(bytes) {
              case Err(cause) =>
                lastErr := Some(SszDecode(0, cause));
              case Ok(hwp) =>
                if HashSlow(hwp.header) != hash {
                  lastErr := Some(WrongHash(hwp.header.number));
                  continue;
                }
                var verified := Verify(hwp);
                match verified {
                  case Fails(e) => lastErr := Some(e);
                  case _ => return verified, called;
                }
            }
          case Replied(Err(e)) =>
            lastErr := Some(e);
        }
      }
      r := Fails(if lastErr.Some? then lastErr.value else DataSource("no source produced bytes"));
    }
  }

  /** The first source that does not merely fail is source `k`, and it panics or names a missing
      entry. */
  predicate DefeatedByNumber(v: Verifier, number: u64, k: nat)
    reads v.provider.lock
  {
    && k < |v.dataSources|
    && (forall j :: 0 <= j < k ==> v.AttemptsByNumber(number)[j].Fails?)
    && EndsInPanic(Some(number), None, v.dataSources[k].byNumber(number))
  }

  predicate DefeatedByHash(v: Verifier, hash: Digest, k: nat)
    reads v.provider.lock
  {
    && k < |v.dataSources|
    && (forall j :: 0 <= j < k ==> v.AttemptsByHash(hash)[j].Fails?)
    && EndsInPanic(None, Some(hash), v.dataSources[k].byHash(hash))
  }

  /** A call panics exactly when the first source that does not merely fail panics itself or names
      a missing entry, and
      then no source behind it is asked, whatever it holds. */
  lemma CallsPanicExactly(v: Verifier, number: u64, hash: Digest, r: Call, called: nat, k: nat)
    requires Shipped(v.acc)
    ensures FirstThatWorks(v.AttemptsByNumber(number), r, called) ==>
      (DefeatedByNumber(v, number, k) <==> r == Panics && called == k + 1)
    ensures FirstThatWorks(v.AttemptsByHash(hash), r, called) ==>
      (DefeatedByHash(v, hash, k) <==> r == Panics && called == k + 1)
  {
    hide CheckNumber, CheckHash, EndsInPanic;
    if k < |v.dataSources| {
      ChecksPanicExactly(v.acc, v.Snapshot(), number, hash, v.dataSources[k].byNumber(number));
      ChecksPanicExactly(v.acc, v.Snapshot(), number, hash, v.dataSources[k].byHash(hash));
      FirstPanicDecides(v.AttemptsByNumber(number), r, called, k);
      FirstPanicDecides(v.AttemptsByHash(hash), r, called, k);
    }
  }

  lemma FirstPanicDecides(attempts: seq<Call>, r: Call, called: nat, k: nat)
    requires k < |attempts|
    ensures FirstThatWorks(attempts, r, called) ==>
      ((forall j :: 0 <= j < k ==> attempts[j].Fails?) && attempts[k] == Panics <==> r == Panics && called == k + 1)
  {
    if FirstThatWorks(attempts, r, called) && (forall j :: 0 <= j < k ==> attempts[j].Fails?) && attempts[k] == Panics {
      FirstDecides(attempts, r, called, k);
    }
  }

  // ---- Honest replies ----

  /** The bytes of an accepted value that any source holds verify it, by its number and by its hash:
      the call that falls to them ends there. */
  lemma {:induction false} HonestReplyVerifies(v: Verifier, hwp: HeaderWithProof, k: nat, r: Call, called: nat)
    requires HeaderSurvives(hwp.header) && hwp.proof.Kind() == KindForHeader(hwp.header.number, hwp.header.timestamp)
    requires Validate(v.acc, v.Snapshot(), hwp) == Accepted
    requires k < |v.dataSources|
    ensures var (number, attempts) := (hwp.header.number, v.AttemptsByNumber(hwp.header.number));
      v.dataSources[k].byNumber(number) == Replied(Ok(AsSszBytes(hwp)))
      && (forall j :: 0 <= j < k ==> attempts[j].Fails?) && FirstThatWorks(attempts, r, called)
      ==> r == Verified(VerifiedBlock(hwp.header, hwp.proof.Kind())) && called == k + 1
    ensures var (hash, attempts) := (HashSlow(hwp.header), v.AttemptsByHash(HashSlow(hwp.header)));
      v.dataSources[k].byHash(hash) == Replied(Ok(AsSszBytes(hwp)))
      && (forall j :: 0 <= j < k ==> attempts[j].Fails?) && FirstThatWorks(attempts, r, called)
      ==> r == Verified(VerifiedBlock(hwp.header, hwp.proof.Kind())) && called == k + 1
  {
    hide Validate, FromSszBytes, AsSszBytes, HeaderSurvives, CheckNumber, CheckHash, FirstThatWorks;
    var (number, hash) := (hwp.header.number, HashSlow(hwp.header));
    EncodeThenDecode(hwp);
    NumberOutcomes(v.acc, v.Snapshot(), number, AsSszBytes(hwp), NoDataSource);
    HashOutcomes(v.acc, v.Snapshot(), hash, AsSszBytes(hwp), NoDataSource);
    if FirstThatWorks(v.AttemptsByNumber(number), r, called)
      && (forall j :: 0 <= j < k ==> v.AttemptsByNumber(number)[j].Fails?)
      && !v.AttemptsByNumber(number)[k].Fails? {
      FirstDecides(v.AttemptsByNumber(number), r, called, k);
    }
    if FirstThatWorks(v.AttemptsByHash(hash), r, called)
      && (forall j :: 0 <= j < k ==> v.AttemptsByHash(hash)[j].Fails?)
      && !v.AttemptsByHash(hash)[k].Fails? {
      FirstDecides(v.AttemptsByHash(hash), r, called, k);
    }
  }
}
