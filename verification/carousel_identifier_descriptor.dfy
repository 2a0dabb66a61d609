/** The carousel_identifier_descriptor of ISO/IEC 13818-6 (DSM-CC),
    section 11.4.1: descriptor tag 0x13, whose payload is a 32-bit
    carousel_id followed by private data bytes that this descriptor does
    not interpret.

    A descriptor is framed, as every MPEG descriptor (ISO/IEC 13818-1,
    section 2.6), by a one-byte descriptor_tag and a one-byte
    descriptor_length counting the payload bytes that follow; a descriptor
    is therefore at most 2 + 255 bytes long.
 */
module CarouselIdentifier {
  import opened Bytes
  import opened Options
  import PsiBuffer

  /** Descriptor tag of the carousel_identifier_descriptor. */
  const DID_CAROUSEL_IDENTIFIER: uint8 := 0x13

  /** Bytes taken by descriptor_tag and descriptor_length. */
  const DESCRIPTOR_HEADER_SIZE: nat := 2

  /** Largest serialised descriptor, header included. */
  const MAX_DESCRIPTOR_SIZE: nat := 257

  /** Largest private_data accepted from XML: what remains of the largest
      descriptor after the header and the 4-byte carousel_id. */
  const MAX_PRIVATE_DATA_SIZE: nat := MAX_DESCRIPTOR_SIZE - 6

  datatype CarouselIdentifierDescriptor = CarouselIdentifierDescriptor(
    carouselId: uint32,
    privateData: seq<uint8>
  )

  /** Resets the content to carousel_id 0 and no private data. */
  function ClearContent(d: CarouselIdentifierDescriptor): (r: CarouselIdentifierDescriptor)
    ensures r.carouselId == 0 && r.privateData == []
  {
    CarouselIdentifierDescriptor(0, [])
  }

  // ---------------------------------------------------------------------
  // Binary payload
  // ---------------------------------------------------------------------

  /** The payload: the carousel_id as four big-endian bytes, then the
      private data unchanged. */
  function SerializePayload(d: CarouselIdentifierDescriptor): (r: seq<uint8>)
    ensures |r| == 4 + |d.privateData|
    ensures FromBE(r[..4]) == d.carouselId
    ensures r[4..] == d.privateData
  {
    PsiBuffer.PutBytes(PsiBuffer.PutUInt32(d.carouselId), d.privateData)
  }

  /** Reads a payload back: the first four bytes are the carousel_id and
      every remaining byte is private data. A payload too short to hold the
      carousel_id leaves the descriptor invalid, modelled as None. */
  function DeserializePayload(payload: seq<uint8>): (r: Option<CarouselIdentifierDescriptor>)
    ensures r.Some? <==> |payload| >= 4
    ensures r.Some? ==> r.value.carouselId == FromBE(payload[..4])
    ensures r.Some? ==> r.value.privateData == payload[4..]
  {
    if |payload| < 4 then None
    else Some(CarouselIdentifierDescriptor(PsiBuffer.GetUInt32(payload), PsiBuffer.GetBytes(payload, 4)))
  }

  /** Deserialising a serialised payload gives back the descriptor. */
  lemma PayloadRoundTrip(d: CarouselIdentifierDescriptor)
    ensures DeserializePayload(SerializePayload(d)) == Some(d)
  {
    PsiBuffer.GetPutUInt32(d.carouselId, d.privateData);
  }

  /** Every payload of at least four bytes is the serialisation of the
      descriptor read from it: no payload byte is lost or altered. */
  lemma PayloadBytesRoundTrip(payload: seq<uint8>)
    requires |payload| >= 4
    ensures SerializePayload(DeserializePayload(payload).value) == payload
  {
    PsiBuffer.PutGetUInt32(payload);
    assert payload == payload[..4] + payload[4..];
  }

  /** A cleared descriptor is the one a payload of four zero bytes
      describes. */
  lemma ClearedPayload(d: CarouselIdentifierDescriptor)
    ensures SerializePayload(ClearContent(d)) == [0, 0, 0, 0]
    ensures DeserializePayload([0, 0, 0, 0]) == Some(ClearContent(d))
  {
    PayloadRoundTrip(ClearContent(d));
  }

  // ---------------------------------------------------------------------
  // Complete descriptor: header and payload
  // ---------------------------------------------------------------------

  /** The complete descriptor, or None when the payload does not fit in
      the 8-bit descriptor_length. */
  function Serialize(d: CarouselIdentifierDescriptor): (r: Option<seq<uint8>>)
    ensures r.Some? <==> |d.privateData| <= MAX_PRIVATE_DATA_SIZE
    ensures r.Some? ==> |r.value| == DESCRIPTOR_HEADER_SIZE + 4 + |d.privateData|
    ensures r.Some? ==> |r.value| <= MAX_DESCRIPTOR_SIZE
    ensures r.Some? ==> r.value[0] == DID_CAROUSEL_IDENTIFIER
    ensures r.Some? ==> r.value[1] == |r.value| - DESCRIPTOR_HEADER_SIZE
    ensures r.Some? ==> r.value[DESCRIPTOR_HEADER_SIZE..] == SerializePayload(d)
  {
    var payload := SerializePayload(d);
    if |payload| <= 0xFF then
      Some([DID_CAROUSEL_IDENTIFIER, |payload|] + payload)
    else
      None
  }

  /** Reads a complete descriptor: the tag must be 0x13 and the length
      byte must count exactly the bytes that follow. */
  function Deserialize(bytes: seq<uint8>): (r: Option<CarouselIdentifierDescriptor>)
    ensures r.Some? <==>
      |bytes| >= DESCRIPTOR_HEADER_SIZE + 4 && bytes[0] == DID_CAROUSEL_IDENTIFIER
      && bytes[1] == |bytes| - DESCRIPTOR_HEADER_SIZE
    ensures r.Some? ==> DeserializePayload(bytes[DESCRIPTOR_HEADER_SIZE..]) == r
  {
    if |bytes| >= DESCRIPTOR_HEADER_SIZE && bytes[0] == DID_CAROUSEL_IDENTIFIER
       && bytes[1] == |bytes| - DESCRIPTOR_HEADER_SIZE
    then DeserializePayload(bytes[DESCRIPTOR_HEADER_SIZE..])
    else None
  }

  /** A descriptor that serialises reads back unchanged. */
  lemma DescriptorRoundTrip(d: CarouselIdentifierDescriptor)
    requires |d.privateData| <= MAX_PRIVATE_DATA_SIZE
    ensures Deserialize(Serialize(d).value) == Some(d)
  {
    PayloadRoundTrip(d);
  }

  /** Every descriptor that reads successfully is the serialisation of
      what was read. */
  lemma DescriptorBytesRoundTrip(bytes: seq<uint8>)
    requires Deserialize(bytes).Some?
    ensures Serialize(Deserialize(bytes).value) == Some(bytes)
  {
    var payload := bytes[DESCRIPTOR_HEADER_SIZE..];
    PayloadBytesRoundTrip(payload);
    assert bytes == [bytes[0], bytes[1]] + payload;
  }

  // ---------------------------------------------------------------------
  // Display and XML
  // ---------------------------------------------------------------------

  /** What the display routine hands to the text output. */
  datatype DisplayItem = CarouselIdItem(carouselId: uint32) | PrivateDataItem(data: seq<uint8>)

  /** Displays a payload: nothing at all unless four bytes can be read,
      otherwise the carousel_id and then the rest as private data. */
  function DisplayDescriptor(payload: seq<uint8>): (r: seq<DisplayItem>)
    ensures r == [] <==> |payload| < 4
    ensures r != [] ==> r == [CarouselIdItem(FromBE(payload[..4])), PrivateDataItem(payload[4..])]
  {
    if |payload| >= 4 then
      [CarouselIdItem(PsiBuffer.GetUInt32(payload)), PrivateDataItem(PsiBuffer.GetBytes(payload, 4))]
    else
      []
  }

  /** The display shows exactly what deserialisation reads, and shows
      nothing for a payload that deserialisation rejects. */
  lemma DisplayShowsDeserialized(payload: seq<uint8>)
    ensures DeserializePayload(payload).None? ==> DisplayDescriptor(payload) == []
    ensures DeserializePayload(payload).Some? ==>
      DisplayDescriptor(payload)
      == [CarouselIdItem(DeserializePayload(payload).value.carouselId),
          PrivateDataItem(DeserializePayload(payload).value.privateData)]
  {
  }

  /** The XML form of the descriptor, reduced to the parsed values of its
      carousel_id attribute and private_data child, each None when absent.
      The attribute text and the hexadecimal child text are not modelled. */
  datatype XmlElement = XmlElement(carouselIdAttr: Option<uint32>, privateDataChild: Option<seq<uint8>>)

  /** Builds the XML form: the carousel_id attribute always, the
      private_data child only when there is private data. */
  function BuildXML(d: CarouselIdentifierDescriptor): (r: XmlElement)
    ensures r.carouselIdAttr == Some(d.carouselId)
    ensures r.privateDataChild.None? <==> d.privateData == []
    ensures r.privateDataChild.Some? ==> r.privateDataChild.value == d.privateData
  {
    XmlElement(Some(d.carouselId), if d.privateData == [] then None else Some(d.privateData))
  }

  /** Builds the descriptor from its XML form: the carousel_id attribute is
      required; the private_data child is optional (absent means empty) and
      is refused when longer than MAX_PRIVATE_DATA_SIZE bytes. */
  function AnalyzeXML(e: XmlElement): (r: Option<CarouselIdentifierDescriptor>)
    ensures r.Some? <==>
      e.carouselIdAttr.Some? && (e.privateDataChild.None? || |e.privateDataChild.value| <= MAX_PRIVATE_DATA_SIZE)
    ensures r.Some? ==> r.value.carouselId == e.carouselIdAttr.value
    ensures r.Some? && e.privateDataChild.Some? ==> r.value.privateData == e.privateDataChild.value
    ensures r.Some? && e.privateDataChild.None? ==> r.value.privateData == []
  {
    match (e.carouselIdAttr, e.privateDataChild)
    case (None, _) => None
    case (Some(id), None) => Some(CarouselIdentifierDescriptor(id, []))
    case (Some(id), Some(data)) =>
      if |data| <= MAX_PRIVATE_DATA_SIZE then Some(CarouselIdentifierDescriptor(id, data)) else None
  }

  /** A descriptor that fits in a complete descriptor survives the trip
      through XML; a larger one is refused on the way back. */
  lemma XmlRoundTrip(d: CarouselIdentifierDescriptor)
    ensures AnalyzeXML(BuildXML(d)).Some? <==> |d.privateData| <= MAX_PRIVATE_DATA_SIZE
    ensures AnalyzeXML(BuildXML(d)).Some? ==> AnalyzeXML(BuildXML(d)).value == d
  {
  }

  /** Whatever XML is accepted serialises to a descriptor of at most
      MAX_DESCRIPTOR_SIZE bytes. */
  lemma AnalyzedFitsDescriptor(e: XmlElement)
    requires AnalyzeXML(e).Some?
    ensures Serialize(AnalyzeXML(e).value).Some?
    ensures |Serialize(AnalyzeXML(e).value).value| <= MAX_DESCRIPTOR_SIZE
  {
  }
}
