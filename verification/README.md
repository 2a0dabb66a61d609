# TSDuck byte-order utilities and the carousel_identifier_descriptor

A Dafny model of two small, pure parts of TSDuck, the MPEG transport stream
toolkit, with proofs of their properties.

1. **Byte-order and sign-extension utilities** (`ts::ByteSwap16/24/32/64`,
   `ts::CondByteSwap{16,32,64}{BE,LE}`, `ts::SignExtend24/40/48`), whose
   behaviour the unit tests in `src/utest/utestByteSwap.cpp` pin down.
   - Module `ByteSwap` models them on bounded naturals, which stand in for
     the C++ `uintN_t` types.
   - Each swap is proved to reverse the byte image of its argument and to
     be its own inverse (ByteSwap24 on values below 2^24).
   - Each conditional swap is characterised by what the host stores in
     memory. The host byte order is an explicit `Endianness` parameter; in
     C++ it is fixed at compile time.
   - Each sign extension keeps the low N bits and fills the high bits with
     copies of bit N-1. Read as two's complement, its result has the value
     of the N-bit field.
   - Every test vector is a lemma. For the conditional swaps, the lemma
     covers both branches of the test's `#if`.
2. **The carousel_identifier_descriptor** (tag 0x13, ISO/IEC 13818-6
   DSM-CC, section 11.4.1), in module `CarouselIdentifier`.
   - The payload is a 32-bit `carousel_id` followed by opaque
     `private_data`. The model covers `clearContent`, `serializePayload`,
     `deserializePayload`, the guard in `DisplayDescriptor`, `buildXML`
     and the size bound in `analyzeXML`.
   - It also covers the complete descriptor: the payload framed by a
     one-byte tag and a one-byte length, as in ISO/IEC 13818-1, section
     2.6.
   - Module `PsiBuffer` models the four buffer operations the descriptor
     uses. `putUInt32` and `getUInt32` are four-byte big-endian encode and
     decode; `putBytes` appends; `getBytes` reads every byte from the read
     position to the end.
   - `PsiBuffer` ties the two parts together. The big-endian encoding is
     `CondByteSwap32BE` of the value stored natively. On a little-endian
     host, it is `ByteSwap32` of the value stored little-endian.

Module `Bytes` holds the shared vocabulary: fixed-width unsigned types,
little- and big-endian byte images (`ToLE`, `FromLE`, `ToBE`, `FromBE`)
and their round-trip lemmas. Module `Options` holds `Option`.

## Model

| member | source | states |
|---|---|---|
| ByteSwap.SignExtend24 | src/utest/utestByteSwap.cpp:80-84 | keeps the low 24 bits; the top byte is 0x00 when bit 23 is clear and 0xFF when it is set, whatever the argument's top byte; read as a 32-bit two's-complement number the result has the value of the 24-bit field |
| ByteSwap.SignExtend24Vectors | src/utest/utestByteSwap.cpp:80-84 | 0xAA723456 becomes 0x00723456 and 0xAA923456 becomes 0xFF923456 |
| ByteSwap.SignExtend40 | src/utest/utestByteSwap.cpp:86-90 | keeps the low 40 bits of a 64-bit value; the top 24 bits are all zero or all one according to bit 39; the 64-bit two's-complement value equals that of the 40-bit field |
| ByteSwap.SignExtend40Vectors | src/utest/utestByteSwap.cpp:86-90 | 0xAAAAAA723456789A becomes 0x000000723456789A and 0xAAAAAAA23456789A becomes 0xFFFFFFA23456789A |
| ByteSwap.SignExtend48 | src/utest/utestByteSwap.cpp:92-96 | keeps the low 48 bits; the top 16 bits are all zero or all one according to bit 47; the 64-bit two's-complement value equals that of the 48-bit field |
| ByteSwap.SignExtend48Vectors | src/utest/utestByteSwap.cpp:92-96 | 0xAAAA723456789ABC becomes 0x0000723456789ABC and 0xAAAAA23456789ABC becomes 0xFFFFA23456789ABC |
| ByteSwap.ByteSwap16Reverses | src/utest/utestByteSwap.cpp:98-101 | byte i of the result's two-byte image is byte 1-i of the argument's |
| ByteSwap.ByteSwap16Involutive | src/utest/utestByteSwap.cpp:98-101 | swapping twice gives back the argument |
| ByteSwap.ByteSwap16Vectors | src/utest/utestByteSwap.cpp:98-101 | 0x1234 becomes 0x3412 |
| ByteSwap.ByteSwap24Reverses | src/utest/utestByteSwap.cpp:103-107 | the three-byte image of the result is the reversed three-byte image of the argument, and the result is below 2^24 |
| ByteSwap.ByteSwap24Involutive | src/utest/utestByteSwap.cpp:103-107 | swapping twice gives back the low 24 bits of the argument, so exactly the argument when it is below 2^24 |
| ByteSwap.ByteSwap24Vectors | src/utest/utestByteSwap.cpp:103-107 | 0x123456 becomes 0x563412 and 0xABCDEF becomes 0xEFCDAB |
| ByteSwap.ByteSwap32Reverses | src/utest/utestByteSwap.cpp:109-112 | the four-byte image of the result is the reversed image of the argument |
| ByteSwap.ByteSwap32Involutive | src/utest/utestByteSwap.cpp:109-112 | swapping twice gives back the argument |
| ByteSwap.ByteSwap32Vectors | src/utest/utestByteSwap.cpp:109-112 | 0x12345678 becomes 0x78563412 |
| ByteSwap.ByteSwap64Reverses | src/utest/utestByteSwap.cpp:114-117 | the eight-byte image of the result is the reversed image of the argument |
| ByteSwap.ByteSwap64Involutive | src/utest/utestByteSwap.cpp:114-117 | swapping twice gives back the argument |
| ByteSwap.ByteSwap64Vectors | src/utest/utestByteSwap.cpp:114-117 | 0x0123456789ABCDEF becomes 0xEFCDAB8967452301 |
| ByteSwap.CondByteSwap16BE | src/utest/utestByteSwap.cpp:119-126 | the host's memory image of the result is the big-endian image of the argument: a swap on a little-endian host, the identity on a big-endian one |
| ByteSwap.CondByteSwap16LE | src/utest/utestByteSwap.cpp:128-135 | the host's memory image of the result is the little-endian image of the argument |
| ByteSwap.CondByteSwap16Vectors | src/utest/utestByteSwap.cpp:119-135 | on a little-endian host 0x1234 becomes 0x3412 through the BE form and stays 0x1234 through the LE form; on a big-endian host the other way round |
| ByteSwap.CondByteSwap16Involutive | src/utest/utestByteSwap.cpp:119-135 | each conditional swap, applied twice on the same host, gives back the argument |
| ByteSwap.CondByteSwap32BE | src/utest/utestByteSwap.cpp:137-144 | the host's memory image of the result is the big-endian image of the argument |
| ByteSwap.CondByteSwap32LE | src/utest/utestByteSwap.cpp:146-153 | the host's memory image of the result is the little-endian image of the argument |
| ByteSwap.CondByteSwap32Vectors | src/utest/utestByteSwap.cpp:137-153 | 0x12345678 becomes 0x78563412 exactly when the requested order differs from the host's, and is unchanged otherwise |
| ByteSwap.CondByteSwap32Involutive | src/utest/utestByteSwap.cpp:137-153 | each conditional swap, applied twice on the same host, gives back the argument |
| ByteSwap.CondByteSwap64BE | src/utest/utestByteSwap.cpp:155-162 | the host's memory image of the result is the big-endian image of the argument |
| ByteSwap.CondByteSwap64LE | src/utest/utestByteSwap.cpp:164-171 | the host's memory image of the result is the little-endian image of the argument |
| ByteSwap.CondByteSwap64Vectors | src/utest/utestByteSwap.cpp:155-171 | 0x0123456789ABCDEF becomes 0xEFCDAB8967452301 exactly when the requested order differs from the host's, and is unchanged otherwise |
| ByteSwap.CondByteSwap64Involutive | src/utest/utestByteSwap.cpp:155-171 | each conditional swap, applied twice on the same host, gives back the argument |
| PsiBuffer.PutUInt32 | src/libtsduck/dtv/descriptors/tsCarouselIdentifierDescriptor.cpp:53 | a 32-bit field is written as its four-byte big-endian image, which decodes back to the value |
| PsiBuffer.GetUInt32 | src/libtsduck/dtv/descriptors/tsCarouselIdentifierDescriptor.cpp:59 | a 32-bit field is read as the big-endian value of the next four bytes |
| PsiBuffer.PutBytes | src/libtsduck/dtv/descriptors/tsCarouselIdentifierDescriptor.cpp:54 | a byte block is appended: what was written before is kept, and the block follows it unchanged |
| PsiBuffer.GetBytes | src/libtsduck/dtv/descriptors/tsCarouselIdentifierDescriptor.cpp:60 | reading a byte block with no size takes every byte from the read position to the end, in order |
| PsiBuffer.GetPutBytes | src/libtsduck/dtv/descriptors/tsCarouselIdentifierDescriptor.cpp:54-60 | reading the rest of a buffer after what preceded an appended block gives back exactly that block |
| PsiBuffer.PutGetBytes | src/libtsduck/dtv/descriptors/tsCarouselIdentifierDescriptor.cpp:54-60 | a buffer is what precedes the read position followed by what getBytes reads there |
| PsiBuffer.GetPutUInt32 | src/libtsduck/dtv/descriptors/tsCarouselIdentifierDescriptor.cpp:51-61 | reading back a written 32-bit field gives the value written, whatever follows it |
| PsiBuffer.PutGetUInt32 | src/libtsduck/dtv/descriptors/tsCarouselIdentifierDescriptor.cpp:51-61 | writing back a 32-bit field that was read reproduces its four bytes |
| PsiBuffer.PutUInt32IsNativeStore | src/libtsduck/dtv/descriptors/tsCarouselIdentifierDescriptor.cpp:53 | the bytes written are the host's memory image of CondByteSwap32BE of the value; on a little-endian host they are ByteSwap32 of the value stored little-endian |
| PsiBuffer.GetUInt32IsNativeLoad | src/libtsduck/dtv/descriptors/tsCarouselIdentifierDescriptor.cpp:59 | the value read is CondByteSwap32BE of the four bytes loaded as a native integer, on either host |
| CarouselIdentifier.ClearContent | src/libtsduck/dtv/descriptors/tsCarouselIdentifierDescriptor.cpp:34-38 | the cleared descriptor has carousel_id 0 and no private data, whatever it held before |
| CarouselIdentifier.ClearedPayload | src/libtsduck/dtv/descriptors/tsCarouselIdentifierDescriptor.cpp:34-38 | the cleared descriptor serialises to four zero bytes, and four zero bytes deserialise to it |
| CarouselIdentifier.SerializePayload | src/libtsduck/dtv/descriptors/tsCarouselIdentifierDescriptor.cpp:51-55 | the payload is 4 + \|private_data\| bytes: four bytes whose big-endian value is carousel_id, then private_data verbatim |
| CarouselIdentifier.DeserializePayload | src/libtsduck/dtv/descriptors/tsCarouselIdentifierDescriptor.cpp:57-61 | a payload is accepted exactly when it holds at least four bytes; carousel_id is then the big-endian value of the first four and private_data is every remaining byte |
| CarouselIdentifier.PayloadRoundTrip | src/libtsduck/dtv/descriptors/tsCarouselIdentifierDescriptor.cpp:51-61 | deserialising a serialised payload gives back the same carousel_id and private_data |
| CarouselIdentifier.PayloadBytesRoundTrip | src/libtsduck/dtv/descriptors/tsCarouselIdentifierDescriptor.cpp:51-61 | every payload of at least four bytes is the serialisation of what is read from it |
| CarouselIdentifier.Serialize | src/libtsduck/dtv/descriptors/tsCarouselIdentifierDescriptor.cpp:51-55 | a descriptor serialises exactly when its private data fits (at most 251 bytes); the result is tag 0x13, the payload length, then the payload, at most 257 bytes in all |
| CarouselIdentifier.Deserialize | src/libtsduck/dtv/descriptors/tsCarouselIdentifierDescriptor.cpp:40-44 | descriptor bytes are accepted exactly when the tag is 0x13, the length byte counts the bytes that follow, and at least four of them follow; the content is what the payload deserialises to |
| CarouselIdentifier.DescriptorRoundTrip | src/libtsduck/dtv/descriptors/tsCarouselIdentifierDescriptor.cpp:40-61 | a descriptor whose private data fits reads back unchanged from its serialisation |
| CarouselIdentifier.DescriptorBytesRoundTrip | src/libtsduck/dtv/descriptors/tsCarouselIdentifierDescriptor.cpp:40-61 | descriptor bytes that are accepted are exactly the serialisation of what was read from them |
| CarouselIdentifier.DisplayDescriptor | src/libtsduck/dtv/descriptors/tsCarouselIdentifierDescriptor.cpp:68-74 | nothing is displayed unless four bytes can be read; otherwise the carousel_id read big-endian, then every remaining byte as private data |
| CarouselIdentifier.DisplayShowsDeserialized | src/libtsduck/dtv/descriptors/tsCarouselIdentifierDescriptor.cpp:68-74 | the display shows exactly the fields deserialisation reads, and nothing for a payload deserialisation rejects |
| CarouselIdentifier.BuildXML | src/libtsduck/dtv/descriptors/tsCarouselIdentifierDescriptor.cpp:81-87 | the carousel_id attribute is always written; the private_data child is written exactly when there is private data |
| CarouselIdentifier.AnalyzeXML | src/libtsduck/dtv/descriptors/tsCarouselIdentifierDescriptor.cpp:89-93 | an element is accepted exactly when the carousel_id attribute is present and the private_data child, if present, holds at most MAX_DESCRIPTOR_SIZE - 6 bytes; an absent child means no private data |
| CarouselIdentifier.XmlRoundTrip | src/libtsduck/dtv/descriptors/tsCarouselIdentifierDescriptor.cpp:81-93 | a descriptor comes back unchanged from its XML form exactly when its private data fits the size bound |
| CarouselIdentifier.AnalyzedFitsDescriptor | src/libtsduck/dtv/descriptors/tsCarouselIdentifierDescriptor.cpp:91-92 | every descriptor accepted from XML serialises, to at most MAX_DESCRIPTOR_SIZE bytes |

## Left out

- ByteSwap.ByteSwap24: the implementation header `tsByteSwap.h` is not part of this model. The swap bodies follow the shift-and-mask formulation, and the tests fix them only on their inputs. For an argument of 2^24 or more, the model drops the top byte; the tests use no such argument.
- ByteSwap.SignExtend24: `int32_t` and `int64_t` results are modelled by their two's-complement bit pattern, which is what the tests compare. The signed reading is stated through `Signed`.
- The other overloads and templates in `tsByteSwap.h` (signed variants, generic `CondByteSwap`, the memory get/put helpers) are not part of this model.
- Compile-time detection of the host byte order (`TS_LITTLE_ENDIAN`) is replaced by the `Endianness` parameter.
- CarouselIdentifier.DeserializePayload: a payload shorter than four bytes yields `None`. This stands for the read error that leaves the descriptor invalid. The field values the C++ object holds afterwards are not modelled.
- PsiBuffer.GetUInt32: requires four readable bytes instead of modelling the buffer's error flag, bit-level cursor and read-only state. Every caller checks the length first.
- `MAX_DESCRIPTOR_SIZE` (257) and the descriptor framing come from headers and base classes that are not part of this model. The framing is that of ISO/IEC 13818-1, section 2.6: a tag byte, then a length byte counting up to 255 payload bytes.
- CarouselIdentifier.AnalyzeXML: XML text handling is not modelled. This covers parsing the `carousel_id` attribute, including its range check, and decoding the hexadecimal `private_data` text. The arguments are their parsed values, and `None` stands for an absent or unparsable item.
- CarouselIdentifier.DisplayDescriptor: the text formatting through `TablesDisplay` and `UString::Format`, including the hexadecimal dump of private data, is abstracted to the list of items handed to the display. A payload of exactly four bytes yields an empty private-data item; what the display prints for an empty block is not part of this model.
- The default constructor and descriptor registration (`TS_REGISTER_DESCRIPTOR`) are left out: both are object set-up and global registry.
