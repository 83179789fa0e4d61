/** Wire-format receipts (src/inclusion.rs). The codecs of the fields are the canonical RLP
    ones; Ethereum's own envelope codec is left unspecified. */
module Receipt {
  import opened Primitives
  import opened Rlp

  // ---- Fields ----

  /** `Eip658Value`: a success flag, or the post-state root of early blocks. */
  datatype Status = Eip658(success: bool) | PostState(root: Digest)

  type Address = s: Bytes | |s| == 20 witness Zeros(20)
  type Bloom = s: Bytes | |s| == 256 witness Zeros(256)

  datatype Log = Log(address: Address, topics: seq<Digest>, data: Bytes)

  datatype Receipt = Receipt(status: Status, cumulativeGasUsed: u64, logsBloom: Bloom, logs: seq<Log>)

  function StatusBytes(s: Status): Bytes {
    match s
    case Eip658(success) => if success then [1] else []
    case PostState(root) => root
  }

  function DecodeStatus(b: Bytes): (r: Option<(Status, Bytes)>)
    ensures r.Some? ==> |r.value.1| < |b|
  {
    match DecodeBytes(b)
    case None => None
    case Some((x, rest)) =>
      if x == [] then Some((Eip658(false), rest))
      else if x == [1] then Some((Eip658(true), rest))
      else if |x| == 32 then Some((PostState(x), rest))
      else None
  }

  function EncodeTopics(topics: seq<Digest>): Bytes {
    if topics == [] then [] else EncodeBytes(topics[0]) + EncodeTopics(topics[1..])
  }

  function DecodeTopics(b: Bytes): Option<seq<Digest>>
    decreases |b|
  {
    if b == [] then Some([])
    else match DecodeFixed(b, 32)
      case None => None
      case Some((topic, rest)) =>
        match DecodeTopics(rest)
        case None => None
        case Some(topics) => Some([topic] + topics)
  }

  /** The payload of a log's list. */
  function LogPayload(log: Log): Bytes {
    EncodeBytes(log.address) + EncodeItem(true, EncodeTopics(log.topics)) + EncodeBytes(log.data)
  }

  function DecodeLogPayload(p: Bytes): Option<Log> {
    match DecodeFixed(p, 20)
    case None => None
    case Some((address, p1)) =>
      match DecodeList(p1)
      case None => None
      case Some((topicBytes, p2)) =>
        match (DecodeTopics(topicBytes), DecodeBytes(p2))
        case (Some(topics), Some((data, p3))) => if p3 == [] then Some(Log(address, topics, data)) else None
        case _ => None
  }

  function EncodeLogs(logs: seq<Log>): Bytes {
    if logs == [] then [] else EncodeItem(true, LogPayload(logs[0])) + EncodeLogs(logs[1..])
  }

  function DecodeLogs(b: Bytes): Option<seq<Log>>
    decreases |b|
  {
    if b == [] then Some([])
    else match DecodeList(b)
      case None => None
      case Some((payload, rest)) =>
        match (DecodeLogPayload(payload), DecodeLogs(rest))
        case (Some(log), Some(logs)) => Some([log] + logs)
        case _ => None
  }

  /** The four fields every receipt body starts with. */
  function FieldBytes(r: Receipt): Bytes {
    EncodeBytes(StatusBytes(r.status)) + EncodeU64(r.cumulativeGasUsed) + EncodeBytes(r.logsBloom)
    + EncodeItem(true, EncodeLogs(r.logs))
  }

  function DecodeFields(p: Bytes): Option<(Receipt, Bytes)> {
    match DecodeStatus(p)
    case None => None
    case Some((status, p1)) =>
      match DecodeU64(p1)
      case None => None
      case Some((gas, p2)) =>
        match DecodeFixed(p2, 256)
        case None => None
        case Some((bloom, p3)) =>
          match DecodeList(p3)
          case None => None
          case Some((logBytes, p4)) =>
            match DecodeLogs(logBytes)
            case None => None
            case Some(logs) => Some((Receipt(status, gas, bloom, logs), p4))
  }

  // ---- Field laws: decode what was encoded, and nothing else ----

  lemma StatusRoundTrip(s: Status, rest: Bytes)
    ensures DecodeStatus(EncodeBytes(StatusBytes(s)) + rest) == Some((s, rest))
  {
    BytesRoundTrip(StatusBytes(s), rest);
  }

  lemma StatusCanonical(b: Bytes)
    requires DecodeStatus(b).Some?
    ensures b == EncodeBytes(StatusBytes(DecodeStatus(b).value.0)) + DecodeStatus(b).value.1
  {
    BytesCanonical(b);
  }

  lemma {:induction false} TopicsRoundTrip(topics: seq<Digest>)
    ensures DecodeTopics(EncodeTopics(topics)) == Some(topics)
  {
    hide EncodeBytes, DecodeBytes;
    if topics != [] {
      TopicsRoundTrip(topics[1..]);
      BytesRoundTrip(topics[0], EncodeTopics(topics[1..]));
      assert topics == [topics[0]] + topics[1..];
    }
  }

  lemma {:induction false} TopicsCanonical(b: Bytes)
    requires DecodeTopics(b).Some?
    ensures EncodeTopics(DecodeTopics(b).value) == b
    decreases |b|
  {
    if b != [] {
      BytesCanonical(b);
      var (topic, rest) := DecodeFixed(b, 32).value;
      TopicsCanonical(rest);
      assert DecodeTopics(b).value[1..] == DecodeTopics(rest).value;
    }
  }

  lemma LogSteps(p: Bytes, address: Bytes, p1: Bytes, topicBytes: Bytes, p2: Bytes, topics: seq<Digest>, data: Bytes)
    requires |address| == 20 && DecodeFixed(p, 20) == Some((address, p1))
    requires DecodeList(p1) == Some((topicBytes, p2)) && DecodeTopics(topicBytes) == Some(topics)
    requires DecodeBytes(p2) == Some((data, []))
    ensures DecodeLogPayload(p) == Some(Log(address, topics, data))
  {
    hide DecodeFixed, DecodeList, DecodeTopics, DecodeBytes;
  }

  lemma LogRoundTrip(log: Log)
    requires |LogPayload(log)| < LIMIT
    ensures DecodeLogPayload(LogPayload(log)) == Some(log)
  {
    var topics, data := EncodeItem(true, EncodeTopics(log.topics)), EncodeBytes(log.data);
    hide DecodeFixed, DecodeList, DecodeTopics, DecodeBytes, EncodeItem, EncodeTopics, DecodeLogPayload;
    assert LogPayload(log) == EncodeBytes(log.address) + (topics + data);
    FixedRoundTrip(log.address, topics + data);
    ListRoundTrip(EncodeTopics(log.topics), data);
    TopicsRoundTrip(log.topics);
    BytesRoundTrip(log.data, []);
    assert data + [] == data;
    LogSteps(LogPayload(log), log.address, topics + data, EncodeTopics(log.topics), data, log.topics, log.data);
  }

  lemma LogCanonical(p: Bytes)
    requires DecodeLogPayload(p).Some?
    ensures LogPayload(DecodeLogPayload(p).value) == p
  {
    hide DecodeFixed, DecodeList, DecodeTopics, DecodeBytes, EncodeItem, EncodeTopics, EncodeBytes;
    var (address, p1) := DecodeFixed(p, 20).value;
    var (topicBytes, p2) := DecodeList(p1).value;
    var (data, p3) := DecodeBytes(p2).value;
    FixedCanonical(p, 20);
    ListCanonical(p1);
    TopicsCanonical(topicBytes);
    BytesCanonical(p2);
    Regroup(EncodeBytes(address), EncodeItem(true, topicBytes), EncodeBytes(data), [], []);
  }

  /** Five parts joined from the left or from the right. */
  lemma Regroup(a: Bytes, b: Bytes, c: Bytes, d: Bytes, e: Bytes)
    ensures a + b + c + d + e == a + (b + (c + (d + e)))
    ensures a + b + c == a + (b + (c + []))
  {
  }

  lemma {:induction false} LogsRoundTrip(logs: seq<Log>)
    requires |EncodeLogs(logs)| < LIMIT
    ensures DecodeLogs(EncodeLogs(logs)) == Some(logs)
  {
    hide LogPayload, DecodeLogPayload, EncodeItem, DecodeList;
    if logs != [] {
      LogRoundTrip(logs[0]);
      LogsRoundTrip(logs[1..]);
      ListRoundTrip(LogPayload(logs[0]), EncodeLogs(logs[1..]));
      assert logs == [logs[0]] + logs[1..];
    }
  }

  lemma {:induction false} LogsCanonical(b: Bytes)
    requires DecodeLogs(b).Some?
    ensures EncodeLogs(DecodeLogs(b).value) == b
    decreases |b|
  {
    if b != [] {
      var (payload, rest) := DecodeList(b).value;
      ListCanonical(b);
      LogCanonical(payload);
      LogsCanonical(rest);
      var logs := DecodeLogs(b).value;
      assert logs[1..] == DecodeLogs(rest).value;
    }
  }

  lemma {:induction false} FieldsSteps(
    p: Bytes, status: Status, p1: Bytes, gas: u64, p2: Bytes, bloom: Bloom, p3: Bytes,
    logBytes: Bytes, p4: Bytes, logs: seq<Log>)
    requires DecodeStatus(p) == Some((status, p1)) && DecodeU64(p1) == Some((gas, p2))
    requires DecodeFixed(p2, 256) == Some((bloom, p3)) && DecodeList(p3) == Some((logBytes, p4))
    requires DecodeLogs(logBytes) == Some(logs)
    ensures DecodeFields(p) == Some((Receipt(status, gas, bloom, logs), p4))
  {
    hide DecodeStatus, DecodeU64, DecodeFixed, DecodeList, DecodeLogs;
  }

  lemma {:induction false} FieldsRoundTrip(r: Receipt, rest: Bytes)
    requires |FieldBytes(r)| < LIMIT
    ensures DecodeFields(FieldBytes(r) + rest) == Some((r, rest))
  {
    hide DecodeStatus, DecodeU64, DecodeFixed, DecodeList, DecodeLogs, DecodeFields,
         EncodeBytes, EncodeItem, EncodeU64, EncodeLogs, StatusBytes;
    var s, g := EncodeBytes(StatusBytes(r.status)), EncodeU64(r.cumulativeGasUsed);
    var b, l := EncodeBytes(r.logsBloom), EncodeItem(true, EncodeLogs(r.logs));
    Regroup(s, g, b, l, rest);
    StatusRoundTrip(r.status, g + (b + (l + rest)));
    U64RoundTrip(r.cumulativeGasUsed, b + (l + rest));
    FixedRoundTrip(r.logsBloom, l + rest);
    ListRoundTrip(EncodeLogs(r.logs), rest);
    LogsRoundTrip(r.logs);
    FieldsSteps(FieldBytes(r) + rest, r.status, g + (b + (l + rest)), r.cumulativeGasUsed, b + (l + rest),
                r.logsBloom, l + rest, EncodeLogs(r.logs), rest, r.logs);
  }

  lemma FieldsCanonical(p: Bytes)
    requires DecodeFields(p).Some?
    ensures p == FieldBytes(DecodeFields(p).value.0) + DecodeFields(p).value.1
  {
    hide DecodeStatus, DecodeU64, DecodeFixed, DecodeList, DecodeLogs,
         EncodeBytes, EncodeItem, EncodeU64, EncodeLogs, StatusBytes;
    var (status, p1) := DecodeStatus(p).value;
    var (gas, p2) := DecodeU64(p1).value;
    var (bloom, p3) := DecodeFixed(p2, 256).value;
    var (logBytes, p4) := DecodeList(p3).value;
    StatusCanonical(p);
    U64Canonical(p1);
    FixedCanonical(p2, 256);
    ListCanonical(p3);
    LogsCanonical(logBytes);
    Regroup(EncodeBytes(StatusBytes(status)), EncodeU64(gas), EncodeBytes(bloom), EncodeItem(true, logBytes), p4);
  }

  // ---- Receipts ----

  const ARBITRUM_TX_TYPE_MIN: byte := 0x64
  const ARBITRUM_TX_TYPE_MAX: byte := 0x6A
  const OP_DEPOSIT_TX_TYPE: byte := 0x7E

  /** An Ethereum envelope: its type and content belong to a codec this model does not open. */
  datatype Envelope = Envelope(txType: byte, content: Bytes)

  const DECODE_ENVELOPE: Bytes -> Option<Envelope>
  const ENCODE_ENVELOPE: Envelope -> Bytes

  datatype DecodedReceipt =
    | Ethereum(envelope: Envelope)
    | Arbitrum(txType: byte, receipt: Receipt)
    | OpDeposit(receipt: Receipt, depositNonce: Option<u64>, depositReceiptVersion: Option<u64>)

  datatype ReceiptError = EmptyBytes | BadEnvelope | BadBody | UnsupportedType(tag: byte)

  /** Nonce and version are written only when both are there. */
  function DepositTail(nonce: Option<u64>, version: Option<u64>): Bytes {
    if nonce.Some? && version.Some? then EncodeU64(nonce.value) + EncodeU64(version.value) else []
  }

  /** The list payload behind the type byte. */
  function BodyPayload(d: DecodedReceipt): Bytes
    requires !d.Ethereum?
  {
    FieldBytes(d.receipt) + if d.OpDeposit? then DepositTail(d.depositNonce, d.depositReceiptVersion) else []
  }

  function WireBytes(d: DecodedReceipt): Bytes {
    match d
    case Ethereum(envelope) => ENCODE_ENVELOPE(envelope)
    case Arbitrum(txType, _) => [txType] + EncodeItem(true, BodyPayload(d))
    case OpDeposit(_, _, _) => [OP_DEPOSIT_TX_TYPE] + EncodeItem(true, BodyPayload(d))
  }

  lemma ListItem(payload: Bytes)
    ensures EncodeItem(true, payload) == Prefix(true, |payload|) + payload
  {
  }

  method ToWireBytes(d: DecodedReceipt) returns (out: Bytes)
    ensures out == WireBytes(d)
  {
    hide EncodeBytes, EncodeItem, EncodeU64, EncodeLogs, StatusBytes, Prefix;
    match d {
      case Ethereum(envelope) =>
        out := ENCODE_ENVELOPE(envelope);
      case Arbitrum(txType, receipt) =>
        out := [txType];
        assert BodyPayload(d) == FieldBytes(receipt);
        out := out + EncodeItem(true, FieldBytes(receipt));
      case OpDeposit(r, nonce, version) =>
        var payload := [];
        payload := payload + EncodeBytes(StatusBytes(r.status));
        payload := payload + EncodeU64(r.cumulativeGasUsed);
        payload := payload + EncodeBytes(r.logsBloom);
        payload := payload + EncodeItem(true, EncodeLogs(r.logs));
        if nonce.Some? && version.Some? {
          payload := payload + EncodeU64(nonce.value);
          payload := payload + EncodeU64(version.value);
        }
        assert payload == BodyPayload(d);
        ListItem(payload);
        out := [OP_DEPOSIT_TX_TYPE];
        out := out + Prefix(true, |payload|);
        out := out + payload;
    }
  }

  predicate IsArbitrum(tag: byte) {
    ARBITRUM_TX_TYPE_MIN <= tag <= ARBITRUM_TX_TYPE_MAX
  }

  /** Values the decoder can produce: a tag of the family, nonce and version together or not at
      all, and a body that fits in memory. */
  predicate WellFormed(d: DecodedReceipt) {
    && !d.Ethereum?
    && |BodyPayload(d)| < LIMIT
    && (d.Arbitrum? ==> IsArbitrum(d.txType))
    && (d.OpDeposit? ==> d.depositNonce.Some? == d.depositReceiptVersion.Some?)
  }

  /** The whole of `body` is one list. */
  function DecodeWholeList(body: Bytes): Option<Bytes> {
    match DecodeList(body)
    case None => None
    case Some((payload, rest)) => if rest == [] then Some(payload) else None
  }

  function DecodeDepositTail(p: Bytes): Option<(Option<u64>, Option<u64>)> {
    if p == [] then Some((None, None))
    else match DecodeU64(p)
      case None => None
      case Some((nonce, p1)) =>
        match DecodeU64(p1)
        case None => None
        case Some((version, p2)) => if p2 == [] then Some((Some(nonce), Some(version))) else None
  }

  function DecodeTagged(tag: byte, body: Bytes): Option<DecodedReceipt> {
    match DecodeWholeList(body)
    case None => None
    case Some(payload) =>
      match DecodeFields(payload)
      case None => None
      case Some((receipt, rest)) =>
        if tag == OP_DEPOSIT_TX_TYPE then
          match DecodeDepositTail(rest)
          case None => None
          case Some((nonce, version)) => Some(OpDeposit(receipt, nonce, version))
        else if rest == [] then Some(Arbitrum(tag, receipt))
        else None
  }

  function DecodedFrom(raw: Bytes): Result<DecodedReceipt, ReceiptError> {
    if raw == [] then Err(EmptyBytes)
    else if raw[0] >= 0x80 || raw[0] <= 0x04 then
      match DECODE_ENVELOPE(raw)
      case None => Err(BadEnvelope)
      case Some(envelope) => Ok(Ethereum(envelope))
    else if IsArbitrum(raw[0]) || raw[0] == OP_DEPOSIT_TX_TYPE then
      match DecodeTagged(raw[0], raw[1..])
      case None => Err(BadBody)
      case Some(d) => Ok(d)
    else Err(UnsupportedType(raw[0]))
  }

  /** Reads the fields one after the other off a cursor. */
  method DecodeOpDeposit(body: Bytes) returns (r: Option<DecodedReceipt>)
    ensures r == DecodeTagged(OP_DEPOSIT_TX_TYPE, body)
  {
    hide DecodeItem, DecodeStatus, DecodeU64, DecodeFixed, DecodeLogs;
    var item := DecodeItem(body);
    if item.None? || !item.value.list || item.value.rest != [] {
      return None;
    }
    var p := item.value.payload;
    var status := DecodeStatus(p);
    if status.None? {
      return None;
    }
    p := status.value.1;
    var gas := DecodeU64(p);
    if gas.None? {
      return None;
    }
    p := gas.value.1;
    var bloom := DecodeFixed(p, 256);
    if bloom.None? {
      return None;
    }
    p := bloom.value.1;
    var list := DecodeList(p);
    if list.None? {
      return None;
    }
    var logs := DecodeLogs(list.value.0);
    if logs.None? {
      return None;
    }
    p := list.value.1;
    var nonce, version := None, None;
    if p != [] {
      var n := DecodeU64(p);
      if n.None? {
        return None;
      }
      p := n.value.1;
      var v := DecodeU64(p);
      if v.None? {
        return None;
      }
      p := v.value.1;
      nonce, version := Some(n.value.0), Some(v.value.0);
    }
    if p != [] {
      return None;
    }
    r := Some(OpDeposit(Receipt(status.value.0, gas.value.0, bloom.value.0, logs.value), nonce, version));
  }

  method DecodeReceipt(raw: Bytes) returns (r: Result<DecodedReceipt, ReceiptError>)
    ensures r == DecodedFrom(raw)
  {
    hide DecodeList, DecodeFields, DecodeDepositTail;
    if raw == [] {
      return Err(EmptyBytes);
    }
    var tag := raw[0];
    if 0x80 <= tag {
      var envelope := DECODE_ENVELOPE(raw);
      r := if envelope.Some? then Ok(Ethereum(envelope.value)) else Err(BadEnvelope);
    } else if ARBITRUM_TX_TYPE_MIN <= tag <= ARBITRUM_TX_TYPE_MAX {
      var body := raw[1..];
      var item := DecodeList(body);
      if item.None? {
        return Err(BadBody);
      }
      var fields := DecodeFields(item.value.0);
      body := item.value.1;
      r := if fields.Some? && fields.value.1 == [] && body == [] then Ok(Arbitrum(tag, fields.value.0))
           else Err(BadBody);
    } else if tag == OP_DEPOSIT_TX_TYPE {
      var deposit := DecodeOpDeposit(raw[1..]);
      r := if deposit.Some? then Ok(deposit.value) else Err(BadBody);
    } else if tag <= 0x04 {
      var envelope := DECODE_ENVELOPE(raw);
      r := if envelope.Some? then Ok(Ethereum(envelope.value)) else Err(BadEnvelope);
    } else {
      r := Err(UnsupportedType(tag));
    }
  }

  lemma TailRoundTrip(nonce: Option<u64>, version: Option<u64>)
    requires nonce.Some? == version.Some?
    ensures DecodeDepositTail(DepositTail(nonce, version)) == Some((nonce, version))
  {
    if nonce.Some? {
      U64RoundTrip(nonce.value, EncodeU64(version.value));
      U64RoundTrip(version.value, []);
      assert EncodeU64(version.value) + [] == EncodeU64(version.value);
    }
  }

  lemma TailCanonical(p: Bytes)
    requires DecodeDepositTail(p).Some?
    ensures var (nonce, version) := DecodeDepositTail(p).value;
      nonce.Some? == version.Some? && DepositTail(nonce, version) == p
  {
    if p != [] {
      U64Canonical(p);
      U64Canonical(DecodeU64(p).value.1);
    }
  }

  /** A tagged body of one list decodes by its fields and what follows them. */
  lemma {:induction false} TaggedSteps(tag: byte, receipt: Receipt, rest: Bytes)
    requires |FieldBytes(receipt) + rest| < LIMIT
    ensures var raw := [tag] + EncodeItem(true, FieldBytes(receipt) + rest);
      && raw[0] == tag
      && DecodeWholeList(raw[1..]) == Some(FieldBytes(receipt) + rest)
      && DecodeFields(FieldBytes(receipt) + rest) == Some((receipt, rest))
  {
    hide DecodeFields, DecodeList, FieldBytes, EncodeItem;
    var payload := FieldBytes(receipt) + rest;
    ListRoundTrip(payload, []);
    assert EncodeItem(true, payload) + [] == EncodeItem(true, payload);
    assert ([tag] + EncodeItem(true, payload))[1..] == EncodeItem(true, payload);
    FieldsRoundTrip(receipt, rest);
  }

  /** Every well-formed Arbitrum or OP value decodes back from its wire bytes. */
  lemma {:induction false} WireRoundTrip(d: DecodedReceipt)
    requires WellFormed(d)
    ensures DecodedFrom(WireBytes(d)) == Ok(d)
  {
    hide DecodeFields, DecodeWholeList, FieldBytes, EncodeItem, DepositTail, DecodeDepositTail;
    if d.OpDeposit? {
      TaggedSteps(OP_DEPOSIT_TX_TYPE, d.receipt, DepositTail(d.depositNonce, d.depositReceiptVersion));
      TailRoundTrip(d.depositNonce, d.depositReceiptVersion);
    } else {
      TaggedSteps(d.txType, d.receipt, []);
    }
  }

  /** Every accepted Arbitrum or OP byte string re-encodes to itself, and its value is
      well-formed. */
  lemma {:induction false} WireCanonical(raw: Bytes)
    requires DecodedFrom(raw).Ok? && !DecodedFrom(raw).value.Ethereum?
    ensures WellFormed(DecodedFrom(raw).value)
    ensures WireBytes(DecodedFrom(raw).value) == raw
  {
    hide DecodeList, DecodeFields, FieldBytes, EncodeItem, DepositTail, DecodeDepositTail;
    var payload := DecodeWholeList(raw[1..]).value;
    ListCanonical(raw[1..]);
    FieldsCanonical(payload);
    var rest := DecodeFields(payload).value.1;
    if raw[0] == OP_DEPOSIT_TX_TYPE {
      TailCanonical(rest);
    }
    assert EncodeItem(true, payload) + [] == raw[1..];
    assert raw == [raw[0]] + raw[1..];
  }

  /** No two accepted byte strings have one value. */
  lemma {:induction false} AcceptedBytesAreUnique(a: Bytes, b: Bytes)
    requires DecodedFrom(a).Ok? && !DecodedFrom(a).value.Ethereum?
    requires DecodedFrom(b) == DecodedFrom(a)
    ensures a == b
  {
    hide DecodedFrom, WireBytes;
    WireCanonical(a);
    WireCanonical(b);
  }

  /** A deposit whose body fits survives the wire exactly when nonce and version are both there
      or both missing. */
  lemma {:induction false} DepositSurvives(receipt: Receipt, nonce: Option<u64>, version: Option<u64>)
    requires |FieldBytes(receipt) + DepositTail(nonce, version)| < LIMIT
    ensures var d := OpDeposit(receipt, nonce, version);
      DecodedFrom(WireBytes(d)) == Ok(d) <==> nonce.Some? == version.Some?
  {
    var d := OpDeposit(receipt, nonce, version);
    if nonce.Some? == version.Some? {
      WireRoundTrip(d);
    } else if DecodedFrom(WireBytes(d)) == Ok(d) {
      WireCanonical(WireBytes(d));
    }
  }

  /** A five-item deposit body, nonce without version, is refused. */
  lemma {:induction false} FiveItemsRefused(receipt: Receipt, nonce: u64)
    requires |FieldBytes(receipt) + EncodeU64(nonce)| < LIMIT
    ensures DecodedFrom([OP_DEPOSIT_TX_TYPE] + EncodeItem(true, FieldBytes(receipt) + EncodeU64(nonce))) == Err(BadBody)
  {
    hide DecodeFields, DecodeWholeList, FieldBytes, EncodeItem;
    TaggedSteps(OP_DEPOSIT_TX_TYPE, receipt, EncodeU64(nonce));
    U64RoundTrip(nonce, []);
    assert EncodeU64(nonce) + [] == EncodeU64(nonce);
  }

  // ---- Types, by number ----

  /** Which bytes go to the envelope codec, which are a family of this repository, and which are
      refused by their type. */
  lemma TypesDispatch(raw: Bytes)
    requires raw != []
    ensures raw[0] <= 0x04 || raw[0] >= 0x80 ==>
      DecodedFrom(raw) == match DECODE_ENVELOPE(raw) case None => Err(BadEnvelope) case Some(e) => Ok(Ethereum(e))
    ensures 0x05 <= raw[0] <= 0x63 || 0x6B <= raw[0] <= 0x7D || raw[0] == 0x7F <==>
      DecodedFrom(raw) == Err(UnsupportedType(raw[0]))
    ensures forall t :: DecodedFrom(raw) == Err(UnsupportedType(t)) ==> t == raw[0]
    ensures DecodedFrom(raw).Ok? ==>
      match DecodedFrom(raw).value
      case Ethereum(_) => raw[0] <= 0x04 || raw[0] >= 0x80
      case Arbitrum(txType, _) => txType == raw[0] && 0x64 <= raw[0] <= 0x6A
      case OpDeposit(_, _, _) => raw[0] == 0x7E
    ensures 0x64 <= raw[0] <= 0x6A || raw[0] == 0x7E ==> DecodedFrom(raw).Ok? || DecodedFrom(raw) == Err(BadBody)
    ensures DecodedFrom(raw) != Err(EmptyBytes) && DecodedFrom([]) == Err(EmptyBytes)
  {
    hide DecodeWholeList, DecodeFields, DecodeDepositTail;
  }

  // ---- What stands where, for any reader of the format ----

  lemma {:induction false} TopicItems(topics: seq<Digest>)
    ensures var items := Items(EncodeTopics(topics));
      && items.Some? && |items.value| == |topics|
      && forall i :: 0 <= i < |topics| ==> items.value[i] == (false, topics[i])
  {
    hide EncodeItem, DecodeItem;
    if topics != [] {
      TopicItems(topics[1..]);
      NextItem(false, topics[0], EncodeTopics(topics[1..]));
    }
  }

  /** A log is its address, the list of its topics, its data. */
  lemma LogItems(log: Log)
    requires |LogPayload(log)| < LIMIT
    ensures Items(LogPayload(log)) == Some([(false, log.address), (true, EncodeTopics(log.topics)), (false, log.data)])
  {
    hide EncodeItem, DecodeItem, EncodeTopics, Items;
    var (a, t, d) := (EncodeBytes(log.address), EncodeItem(true, EncodeTopics(log.topics)), EncodeBytes(log.data));
    Regroup(a, t, d, [], []);
    NoItems();
    NextItem(false, log.data, []);
    NextItem(true, EncodeTopics(log.topics), d + []);
    NextItem(false, log.address, t + (d + []));
    assert Items(LogPayload(log)).value
        == [(false, log.address), (true, EncodeTopics(log.topics)), (false, log.data)];
  }

  lemma NoItems()
    ensures Items([]) == Some([])
  {
  }

  lemma {:induction false} LogListItems(logs: seq<Log>)
    requires |EncodeLogs(logs)| < LIMIT
    ensures var items := Items(EncodeLogs(logs));
      && items.Some? && |items.value| == |logs|
      && forall i :: 0 <= i < |logs| ==> items.value[i] == (true, LogPayload(logs[i]))
  {
    hide EncodeItem, DecodeItem, LogPayload;
    if logs != [] {
      LogListItems(logs[1..]);
      NextItem(true, LogPayload(logs[0]), EncodeLogs(logs[1..]));
    }
  }

  /** A receipt is its status (nothing for failure, 1 for success, or the old state root), the gas, the
      bloom, the list of logs; what follows comes after. */
  lemma FieldItems(r: Receipt, rest: Bytes)
    requires |FieldBytes(r)| < LIMIT && Items(rest).Some?
    ensures var status := match r.status
        case Eip658(success) => if success then [1] else []
        case PostState(root) => root;
      Items(FieldBytes(r) + rest) == Some([(false, status), (false, Be(r.cumulativeGasUsed)), (false, r.logsBloom),
                                           (true, EncodeLogs(r.logs))] + Items(rest).value)
  {
    hide EncodeItem, DecodeItem, EncodeLogs, Items, Be;
    var (s, g) := (EncodeBytes(StatusBytes(r.status)), EncodeU64(r.cumulativeGasUsed));
    var (b, l) := (EncodeBytes(r.logsBloom), EncodeItem(true, EncodeLogs(r.logs)));
    Regroup(s, g, b, l, rest);
    NextItem(true, EncodeLogs(r.logs), rest);
    NextItem(false, r.logsBloom, l + rest);
    NextItem(false, Be(r.cumulativeGasUsed), b + (l + rest));
    NextItem(false, StatusBytes(r.status), g + (b + (l + rest)));
    assert Items(FieldBytes(r) + rest).value
        == [(false, StatusBytes(r.status)), (false, Be(r.cumulativeGasUsed)), (false, r.logsBloom),
            (true, EncodeLogs(r.logs))] + Items(rest).value;
  }

  lemma {:induction false} TailItems(nonce: Option<u64>, version: Option<u64>)
    ensures Items(DepositTail(nonce, version)) ==
      Some(if nonce.Some? && version.Some? then [(false, Be(nonce.value)), (false, Be(version.value))] else [])
  {
    hide EncodeItem, DecodeItem, Items, Be;
    NoItems();
    if nonce.Some? && version.Some? {
      EightBytes(nonce.value, []);
      EightBytes(version.value, []);
      NextItem(false, Be(version.value), []);
      assert EncodeU64(version.value) + [] == EncodeU64(version.value);
      NextItem(false, Be(nonce.value), EncodeU64(version.value));
      assert Items(DepositTail(nonce, version)).value == [(false, Be(nonce.value)), (false, Be(version.value))];
    }
  }

  /** The wire form of an Arbitrum receipt or a deposit: the type byte, then one list with the items of
      the receipt, and for a deposit nonce and version where both are there. */
  lemma {:induction false} WireItems(d: DecodedReceipt)
    requires !d.Ethereum? && |BodyPayload(d)| < LIMIT
    ensures WireBytes(d) == [if d.Arbitrum? then d.txType else 0x7E] + EncodeItem(true, BodyPayload(d))
    ensures Items(FieldBytes(d.receipt)).Some? && |Items(FieldBytes(d.receipt)).value| == 4
    ensures Items(BodyPayload(d)) == Some(Items(FieldBytes(d.receipt)).value
      + if d.OpDeposit? && d.depositNonce.Some? && d.depositReceiptVersion.Some?
        then [(false, Be(d.depositNonce.value)), (false, Be(d.depositReceiptVersion.value))] else [])
  {
    hide EncodeItem, FieldBytes, DepositTail, Be, Items;
    NoItems();
    FieldItems(d.receipt, []);
    assert FieldBytes(d.receipt) + [] == FieldBytes(d.receipt);
    if d.OpDeposit? {
      TailItems(d.depositNonce, d.depositReceiptVersion);
      var tail := DepositTail(d.depositNonce, d.depositReceiptVersion);
      FieldItems(d.receipt, tail);
      assert Items(BodyPayload(d)).value == Items(FieldBytes(d.receipt)).value + Items(tail).value;
    } else {
      assert BodyPayload(d) == FieldBytes(d.receipt);
      assert Items(FieldBytes(d.receipt)).value + [] == Items(FieldBytes(d.receipt)).value;
    }
  }
}
