/** Gossip messages and the flat events the sidecar builds from them
    (`convertToXatuEvent`). */
module Events {
  import opened Wrappers
  import opened JavaNumbers
  import Hex
  import SubnetTopic

  const SlotsPerEpoch: int := 32

  type Bytes = Hex.Bytes

  datatype Checkpoint = Checkpoint(epoch: U64, root: Bytes)

  datatype AttestationData = AttestationData(
    slot: U64,
    beaconBlockRoot: Bytes,
    source: Checkpoint,
    target: Checkpoint)

  /** Who an attestation speaks for: one named validator (a single attestation), or the
      validators set in an SSZ-serialized aggregation bitlist. */
  datatype Attesters = Single(validatorIndex: U64) | Aggregated(aggregationBitsSsz: Bytes)

  datatype Attestation = Attestation(
    data: AttestationData,
    firstCommitteeIndex: U64,
    attesters: Attesters,
    signatureSsz: Bytes)

  /** The aggregate inside a signed aggregate-and-proof always carries aggregation bits. */
  datatype Aggregate = Aggregate(
    data: AttestationData,
    firstCommitteeIndex: U64,
    aggregationBitsSsz: Bytes,
    signatureSsz: Bytes)

  datatype BlockHeader = BlockHeader(proposerIndex: U64, parentRoot: Bytes, stateRoot: Bytes)

  /** The payload of an accepted gossip message. `OtherMessage` stands for every payload
      the sidecar does not handle (sync-committee messages, contributions, ...). */
  datatype Message =
    | SignedBeaconBlock(slot: U64, proposerIndex: U64, blockRoot: Bytes)
    | SignedAggregateAndProof(aggregatorIndex: U64, aggregate: Aggregate)
    | AttestationMessage(attestation: Attestation)
    | BlobSidecar(slot: U64, index: U64, header: BlockHeader, blockRoot: Bytes)
    | DataColumnSidecar(
        slot: U64, index: U64, kzgCommitmentsCount: Int, beaconBlockRoot: Bytes,
        maybeHeader: Option<BlockHeader>)
    | OtherMessage

  /** A gossip message accepted by the node, with its transport metadata. */
  datatype GossipEvent = GossipEvent(
    message: Message,
    topic: string,
    arrivalTimestamp: Option<U64>,
    transportPeerId: Option<string>,
    messageId: Bytes,
    messageSize: Int)

  datatype HeaderFields = HeaderFields(proposerIndex: Long, parentRoot: string, stateRoot: string)

  /** The type-specific part of an event; numbers are `long`s, roots, bits and
      signatures are `0x`-prefixed hex. */
  datatype EventBody =
    | BeaconBlockEvent(proposerIndex: Long, blockRoot: string)
    | AggregateAndProofEvent(
        aggregatorIndex: Long, sourceEpoch: Long, targetEpoch: Long, committeeIndex: Long,
        attestationDataRoot: string, sourceRoot: string, targetRoot: string,
        aggregationBits: string, signature: string)
    | AttestationEvent(
        subnetId: Long, sourceEpoch: Long, targetEpoch: Long, committeeIndex: Long,
        attesterIndex: Long, shouldProcess: bool,
        attestationDataRoot: string, sourceRoot: string, targetRoot: string,
        aggregationBits: string, signature: string)
    | BlobSidecarEvent(
        proposerIndex: Long, blobIndex: Long, blockRoot: string, parentRoot: string, stateRoot: string)
    | DataColumnSidecarEvent(
        columnIndex: Long, kzgCommitmentsCount: Int, blockRoot: string, header: Option<HeaderFields>)

  /** One flat event as queued for the native library. */
  datatype Event = Event(
    slot: Long,
    epoch: Long,
    timestampMs: Long,
    messageSize: Int,
    peerId: string,
    messageId: string,
    topic: string,
    body: EventBody)

  /** The `event_type` tag each event carries. */
  function EventType(e: Event): string {
    match e.body
    case BeaconBlockEvent(_, _) => "BEACON_BLOCK"
    case AggregateAndProofEvent(_, _, _, _, _, _, _, _, _) => "AGGREGATE_AND_PROOF"
    case AttestationEvent(_, _, _, _, _, _, _, _, _, _, _) => "ATTESTATION"
    case BlobSidecarEvent(_, _, _, _, _) => "BLOB_SIDECAR"
    case DataColumnSidecarEvent(_, _, _, _) => "DATA_COLUMN_SIDECAR"
  }

  /** The tag a message of each handled kind is reported under; none for the others. */
  function ExpectedEventType(m: Message): Option<string> {
    match m
    case SignedBeaconBlock(_, _, _) => Some("BEACON_BLOCK")
    case SignedAggregateAndProof(_, _) => Some("AGGREGATE_AND_PROOF")
    case AttestationMessage(_) => Some("ATTESTATION")
    case BlobSidecar(_, _, _, _) => Some("BLOB_SIDECAR")
    case DataColumnSidecar(_, _, _, _, _) => Some("DATA_COLUMN_SIDECAR")
    case OtherMessage => None
  }

  /** The slot a handled message belongs to. */
  function MessageSlot(m: Message): U64
    requires !m.OtherMessage?
  {
    match m
    case SignedBeaconBlock(slot, _, _) => slot
    case SignedAggregateAndProof(_, agg) => agg.data.slot
    case AttestationMessage(att) => att.data.slot
    case BlobSidecar(slot, _, _, _) => slot
    case DataColumnSidecar(slot, _, _, _, _) => slot
  }

  /** `slot / SLOTS_PER_EPOCH` on a `long` slot. Java's division truncates toward zero,
      so the remainder takes the sign of the slot (Dafny's own `/` would floor a
      negative slot instead). */
  function EpochOf(slot: Long): (epoch: Long)
    ensures 0 <= slot ==> 0 <= epoch * SlotsPerEpoch <= slot < epoch * SlotsPerEpoch + SlotsPerEpoch
    ensures slot < 0 ==> epoch * SlotsPerEpoch - SlotsPerEpoch < slot <= epoch * SlotsPerEpoch <= 0
  {
    if slot >= 0 then slot / SlotsPerEpoch else -((-(slot as int)) / SlotsPerEpoch)
  }

  function HeaderFieldsOf(h: BlockHeader): HeaderFields {
    HeaderFields(LongValue(h.proposerIndex), Hex.ToHexString(h.parentRoot), Hex.ToHexString(h.stateRoot))
  }

  /** `convertToXatuEvent`: the flat event for one of the five handled message kinds, and
      nothing for any other kind. Every event repeats the message's transport metadata. */
  function ConvertToXatuEvent(ev: GossipEvent): (r: Option<Event>)
    ensures r.None? <==> ev.message.OtherMessage?
    ensures r.Some? ==> Some(EventType(r.value)) == ExpectedEventType(ev.message)
    ensures r.Some? ==> r.value.slot == LongValue(MessageSlot(ev.message))
    ensures r.Some? ==> r.value.timestampMs == LongValue(ev.arrivalTimestamp.GetOr(0))
    ensures r.Some? ==> r.value.peerId == ev.transportPeerId.GetOr("")
    ensures r.Some? ==> r.value.topic == ev.topic && r.value.messageSize == ev.messageSize
    ensures r.Some? ==> r.value.messageId == Hex.ToUnprefixedHexString(ev.messageId)
  {
    var timestampMs := LongValue(ev.arrivalTimestamp.GetOr(0));
    var peerId := ev.transportPeerId.GetOr("");
    var messageId := Hex.ToUnprefixedHexString(ev.messageId);
    var size := ev.messageSize;
    var topic := ev.topic;
    match ev.message
    case SignedBeaconBlock(slot, proposer, root) =>
      var s := LongValue(slot);
      Some(Event(s, EpochOf(s), timestampMs, size, peerId, messageId, topic,
        BeaconBlockEvent(LongValue(proposer), Hex.ToHexString(root))))
    case SignedAggregateAndProof(aggregator, agg) =>
      var s := LongValue(agg.data.slot);
      Some(Event(s, EpochOf(s), timestampMs, size, peerId, messageId, topic,
        AggregateAndProofEvent(
          LongValue(aggregator),
          LongValue(agg.data.source.epoch), LongValue(agg.data.target.epoch),
          LongValue(agg.firstCommitteeIndex),
          Hex.ToHexString(agg.data.beaconBlockRoot),
          Hex.ToHexString(agg.data.source.root), Hex.ToHexString(agg.data.target.root),
          Hex.ToHexString(agg.aggregationBitsSsz), Hex.ToHexString(agg.signatureSsz))))
    case AttestationMessage(att) =>
      var s := LongValue(att.data.slot);
      var attester := match att.attesters
        case Single(index) => LongValue(index)
        case Aggregated(_) => 0;
      var bits := match att.attesters
        case Single(_) => ""
        case Aggregated(ssz) => Hex.ToHexString(ssz);
      Some(Event(s, EpochOf(s), timestampMs, size, peerId, messageId, topic,
        AttestationEvent(
          SubnetTopic.ExtractSubnetId(topic),
          LongValue(att.data.source.epoch), LongValue(att.data.target.epoch),
          LongValue(att.firstCommitteeIndex),
          attester, true,
          Hex.ToHexString(att.data.beaconBlockRoot),
          Hex.ToHexString(att.data.source.root), Hex.ToHexString(att.data.target.root),
          bits, Hex.ToHexString(att.signatureSsz))))
    case BlobSidecar(slot, index, header, blockRoot) =>
      var s := LongValue(slot);
      Some(Event(s, EpochOf(s), timestampMs, size, peerId, messageId, topic,
        BlobSidecarEvent(
          LongValue(header.proposerIndex), LongValue(index), Hex.ToHexString(blockRoot),
          Hex.ToHexString(header.parentRoot), Hex.ToHexString(header.stateRoot))))
    case DataColumnSidecar(slot, index, kzgCount, blockRoot, maybeHeader) =>
      var s := LongValue(slot);
      var header := match maybeHeader
        case Some(h) => Some(HeaderFieldsOf(h))
        case None => None;
      Some(Event(s, EpochOf(s), timestampMs, size, peerId, messageId, topic,
        DataColumnSidecarEvent(LongValue(index), kzgCount, Hex.ToHexString(blockRoot), header)))
    case OtherMessage => None
  }

  /** Every event's epoch is its slot divided by 32, rounded toward zero: for the slots
      below 2^63 that consensus ever produces, the epoch whose 32 slots contain it. */
  lemma EventEpochIsSlotDiv32(ev: GossipEvent)
    requires ConvertToXatuEvent(ev).Some?
    ensures var e := ConvertToXatuEvent(ev).value;
      && e.epoch == EpochOf(e.slot)
      && (MessageSlot(ev.message) < TwoTo63 ==>
            e.slot == MessageSlot(ev.message) && e.epoch * 32 <= e.slot < e.epoch * 32 + 32)
  {
  }

  /** A single attestation reports its validator and no aggregation bits; an aggregated
      one reports attester 0 and its bitlist as non-empty hex. Both are tagged with the
      topic's subnet id and marked for processing. */
  lemma AttestationAttesterFields(ev: GossipEvent)
    requires ev.message.AttestationMessage?
    ensures var body := ConvertToXatuEvent(ev).value.body;
      && body.AttestationEvent?
      && body.subnetId == SubnetTopic.ExtractSubnetId(ev.topic)
      && body.shouldProcess
      && match ev.message.attestation.attesters
         case Single(index) => body.attesterIndex == LongValue(index) && body.aggregationBits == ""
         case Aggregated(ssz) =>
           && body.attesterIndex == 0
           && body.aggregationBits == Hex.ToHexString(ssz)
           && |body.aggregationBits| > 0
  {
  }

  /** Header-derived fields of a data-column event are present exactly when the sidecar
      carries its signed block header. */
  lemma DataColumnHeaderFields(ev: GossipEvent)
    requires ev.message.DataColumnSidecar?
    ensures var body := ConvertToXatuEvent(ev).value.body;
      && body.DataColumnSidecarEvent?
      && (body.header.Some? <==> ev.message.maybeHeader.Some?)
      && (body.header.Some? ==>
            body.header.value.proposerIndex == LongValue(ev.message.maybeHeader.value.proposerIndex))
  {
  }
}
