# C509 certificate codec

C509 (draft-ietf-cose-cbor-encoded-cert-19) re-encodes X.509 certificates in CBOR. This project models the codec of
`c509-cert` at the level of bytes, over a CBOR core built from section 3 and Appendix C of RFC 8949, and proves what an
encode followed by a decode keeps, what it loses, and when each of the two fails.

Each part of the grammar is written twice:

* a pure specification, `EncX` (value to bytes, or no bytes) and `DecX` (bytes to value and tail, or failure);
* methods over the cursor `Minicbor.Decoder` and the growing buffer `Minicbor.Encoder`, step by step and loop by loop as
  in the Rust source, proved to move cursor and buffer exactly as the specification says (`Reads`, `Writes`).

The theorems are about the specification. They compose because every one of them carries an arbitrary tail:
`DecX(EncX(v) + rest) == Ok(v, rest)`. Exactness comes from two halves: a *typed* value survives the trip, and whatever a
decoder accepts is typed (the `...IsItem` lemmas, which also show it to be well-formed CBOR with the item count its
heads claim). So a value that is not typed cannot come back.

| module | models |
|---|---|
| `ByteStrings`, `RustTypes`, `Wrappers` | big-endian numbers, integer widths, UTF-8, OIDs, the 128-bit accumulator |
| `Cbor`, `Minicbor`, `Lists` | heads, items, skipping; cursor and buffer; counted runs of elements |
| `Addresses`, `Chains`, `Rfc3779`, `Rfc3779Properties`, `Rfc3779Codec` | `src/extensions/ip_addr.rs` |
| `Common`, `Names`, `Algorithms`, `GeneralNames`, `DistributionPoints`, `AuthorityKeys`, `DirectoryAttributes`, `ExtKeyUsages`, `BasicConstraint`, `PairLists` | the productions below the extension list |
| `Extensions`, `ExtensionProperties`, `ExtensionCodec` | `src/extensions/mod.rs` |
| `WellFormedness` | every encoding as well-formed CBOR |
| `Heads`, `Items`, `Encodings` | the wire form, octet by octet: heads, item trees, UTF-8, OID arcs |
| `WireForms`, `Coverage` | which values take which form, with the registry numbers written out; prefixes as ranges |
| `Canonical`, `FieldReproduction`, `ValueReproduction`, `Rfc3779Reproduction`, `Reproduction` | which accepted bytes re-encoding gives back |
| `Certificates`, `CertificateProperties`, `CertificateCodec` | `src/certificate.rs`, form detection of `src/main.rs` |
| `Examples` | the draft's own worked examples, and concrete values that a round trip does not bring back |

## What the code does where its comments say otherwise

The model follows the code.

* `encode` and `encode_sequence` call writing infallible (`src/certificate.rs:102`, `src/certificate.rs:112`). It fails
  for dates before the epoch and for extensions with no wire form; `CertificateEncodes` gives the exact condition.
* `src/common.rs:167-168` says indefinite-length arrays are rejected everywhere. ExtKeyUsage and TlsFeatures are read by
  minicbor's own `Vec` reader, which takes them.
* The grammar asks for non-empty lists, or lists of at least two; the readers take any length.
* `build_prefix` keeps host bits of a decoded prefix, the encoder drops them; so an accepted value is given back in
  network form only.
* `tests/vectors.rs:372-379` says every entry of extension 34 fits the int form. The range there ends in an address of
  twelve significant bytes, so that family is written in raw form.
* The comment at the head of `src/extensions/ip_addr.rs` says both forms are delta chains. The raw form has no chain.

## Model

| member | source | states |
|---|---|---|
| Rfc3779Properties.FamiliesRoundTrip | src/extensions/ip_addr.rs:235-478 | Every list of families whose addresses match their AFI is encodable, and decoding its bytes followed by any tail gives the list with host bits cleared and leaves exactly the tail, in either form |
| Rfc3779Properties.FamiliesRoundTripExactly | src/extensions/ip_addr.rs:235-478 | A list comes back unchanged if and only if every address is of its family and no prefix has a bit set after its length |
| Rfc3779Properties.AcceptedFamiliesReencode | src/extensions/ip_addr.rs:235-478 | Whatever bytes were accepted, in whichever form, their value can be encoded without error and that decodes to the value's network form |
| Rfc3779Properties.FamiliesAreWritable | src/extensions/ip_addr.rs:355-478 | Encoding families never fails, well-typed or not: the error branches of the int form are dead |
| Rfc3779Properties.FamiliesAreItem | src/extensions/ip_addr.rs:235-352 | Accepted bytes are one well-formed CBOR item, three items a family, and hold only addresses of their own families |
| Rfc3779Properties.FormAgrees | src/extensions/ip_addr.rs:267-276 | The form guessed by probing the first entry is the form the encoder chose by inspecting every entry, for every non-empty family |
| Rfc3779Properties.EntriesRoundTrip | src/extensions/ip_addr.rs:278-351 | Entries written in either form are read back as their network forms |
| Rfc3779Properties.IntEntryRoundTrip | src/extensions/ip_addr.rs:282-310 | From any chain state in range, a written entry is read back and both chains move to one and the same state |
| Rfc3779Properties.IntEntryIsWritable | src/extensions/ip_addr.rs:422-448 | From any chain state in 0..9*2^56 an entry that fits the int form is written without error, leaving a state in 1..9*2^56 |
| Rfc3779Properties.RawEntryRoundTrip | src/extensions/ip_addr.rs:312-348 | An entry in raw form is read back as its network form |
| Rfc3779Properties.AccumulatorFits | src/extensions/ip_addr.rs:217-222 | For inputs of at most 2^63-1 bytes every sum the int-form accumulator takes, the minimum of a range and the sums of a refused entry included, lies within 2^127 - 2^64, also for IPv6, where nothing checks it |
| Rfc3779Properties.EntriesCapacityIsExact | src/extensions/ip_addr.rs:278-278 | If the entries are accepted, the capacity reserved for them was their exact number |
| Rfc3779Properties.EntryNetworkKeepsMeaning | src/extensions/ip_addr.rs:80-91 | Truncating a prefix to its network changes neither the set of addresses it covers nor its significant bytes |
| Rfc3779Properties.NetworkReencodes | src/extensions/ip_addr.rs:355-478 | The network form of a list is written with the very same bytes as the list |
| Rfc3779Properties.NetworkIsTyped | src/extensions/ip_addr.rs:71-91 | Truncation keeps every address in its family |
| Rfc3779Properties.FamiliesNetworkFixesExactly | src/extensions/ip_addr.rs:82-91 | Truncation changes nothing if and only if no prefix has a host bit set |
| Rfc3779Properties.ChoiceRoundTrip | src/extensions/ip_addr.rs:258-352 | inherit, the empty list and both forms of an address choice are told apart and read back |
| Rfc3779Properties.FamilyRoundTrip | src/extensions/ip_addr.rs:243-254 | AFI, optional SAFI and choice of one family are read back in order |
| Rfc3779Properties.AsEntryRoundTrip | src/extensions/ip_addr.rs:494-518 | From any state in the u64 range an AS id or range has deltas that fit a CBOR int and is read back exactly |
| Rfc3779Properties.AsEntryInStep | src/extensions/ip_addr.rs:217-230 | Encoder and decoder chain states are equal after each AS entry and stay in the u64 range |
| Rfc3779Properties.AsIdentifiersRoundTrip | src/extensions/ip_addr.rs:483-556 | Every list of AS ids and ranges over the whole u64 range, in any order, and inherit, is encodable and comes back exactly |
| Rfc3779Properties.AsIdentifiersAreItem | src/extensions/ip_addr.rs:483-520 | Accepted AS identifiers are one well-formed item |
| Rfc3779Properties.AsCapacityIsExact | src/extensions/ip_addr.rs:489-489 | If AS identifiers are accepted, the capacity reserved for them was their exact number |
| Addresses.PrefixRoundTrip | src/extensions/ip_addr.rs:71-91 | build_prefix undoes prefix_to_framed up to the host bits, for every prefix of length 0..32 or 0..128 |
| Addresses.AddrRoundTrip | src/extensions/ip_addr.rs:50-105 | build_addr with the same fill undoes trimming, for every address and fill |
| Addresses.TrimmedIsUniqueShortest | src/extensions/ip_addr.rs:93-105 | The trimmed bytes are the one shortest byte string that builds the address |
| Addresses.FramingIdentifiesPrefix | src/extensions/ip_addr.rs:82-91 | For two prefixes of a family, covering the same addresses, having one network form and having one framing are equivalent |
| Addresses.NetworkBits | src/extensions/ip_addr.rs:82-84 | The network address keeps each leading bit and clears each bit after the prefix length |
| Addresses.NetworkKeepsMeaning | src/extensions/ip_addr.rs:80-91 | Truncating a prefix keeps its framing and the addresses it covers |
| Addresses.NetworkFixesExactly | src/extensions/ip_addr.rs:82-84 | A prefix is its own network form if and only if every bit after its length is clear |
| Addresses.AbsoluteRoundTrip | src/extensions/ip_addr.rs:107-143 | With at most 7 significant bytes and unusedBits at most 7 the framed integer exists, lies in 1..9*2^56, and gives the framing back |
| Addresses.FramedRoundTrip | src/extensions/ip_addr.rs:107-143 | An integer that was split within the int form is rebuilt from its parts |
| Chains.ChainRoundTrip | src/extensions/ip_addr.rs:420-448 | A delta chain over any list is read back entry by entry, given that each entry keeps both ends in step |
| Rfc3779Codec.BuildAddress | src/extensions/ip_addr.rs:50-67 | Fills a buffer in place and returns the address, or fails for an unknown AFI or an overlong value |
| Rfc3779Codec.BuildNet | src/extensions/ip_addr.rs:71-78 | Prefix length is 8 bits a byte less unusedBits, counted in 8 bits without loss once the width check has passed; a negative one is refused, and none exceeds the width |
| Rfc3779Codec.TrimAddress | src/extensions/ip_addr.rs:95-105 | The loop strips exactly the trailing fill bytes |
| Rfc3779Codec.AbsoluteInt | src/extensions/ip_addr.rs:108-125 | The 16-byte buffer holds the framed integer, which fits 64 bits |
| Rfc3779Codec.FramedAddress | src/extensions/ip_addr.rs:129-143 | The loop strips leading zero bytes of the 16-byte form and splits off unusedBits; negative and zero are refused |
| Rfc3779Codec.DeltaChain.NextAbsolute | src/extensions/ip_addr.rs:217-222 | Adds a delta to the shared 128-bit accumulator, with no overflow |
| Rfc3779Codec.DeltaChain.NextDelta | src/extensions/ip_addr.rs:225-230 | Gives the difference to the accumulator and moves it to the new value |
| Rfc3779Codec.DecodeDelta | src/extensions/ip_addr.rs:289-302 | Reading one delta never overflows 128 bits, because its byte was already read |
| Rfc3779Codec.EncodeDelta | src/extensions/ip_addr.rs:201-209 | A delta outside the CBOR int range is refused |
| Rfc3779Codec.ProbeForm | src/extensions/ip_addr.rs:267-276 | The second cursor infers the form without moving the first |
| Rfc3779Codec.DecodeIntEntry | src/extensions/ip_addr.rs:282-310 | Entry, tail, refusals and the accumulator it leaves are those of DecIntEntry, with no overflow |
| Rfc3779Codec.DecodeRawEntry | src/extensions/ip_addr.rs:312-348 | Entry, tail and refusals are those of DecRawEntry; a range bound with unused bits is refused |
| Rfc3779Codec.DecodeIpAddressChoice | src/extensions/ip_addr.rs:258-352 | Value, tail and refusals are those of DecChoice: inherit, empty, or entries in the inferred form |
| Rfc3779Codec.DecodeIpAddressFamilies | src/extensions/ip_addr.rs:235-255 | Value, tail and refusals are those of DecFamilies; a length that is no multiple of 3 is refused |
| Rfc3779Codec.EncodeIntEntries | src/extensions/ip_addr.rs:420-448 | The loop over one mutable accumulator appends exactly the bytes of the pure chain EncChain |
| Rfc3779Codec.EncodeRawEntries | src/extensions/ip_addr.rs:449-474 | The loop appends exactly the raw form of each entry in order |
| Rfc3779Codec.EncodeIpAddressChoice | src/extensions/ip_addr.rs:390-478 | Decides the form from all entries, resolved first, and appends exactly the bytes of EncChoice |
| Rfc3779Codec.EncodeIpAddressFamilies | src/extensions/ip_addr.rs:355-372 | Appends exactly the bytes of EncFamilies, three elements a family |
| Rfc3779Codec.DecodeAsIdentifiers | src/extensions/ip_addr.rs:483-520 | Value, tail and refusals are those of DecAsIdentifiers; an id outside u64 is refused |
| Rfc3779Codec.EncodeAsIdentifiers | src/extensions/ip_addr.rs:523-556 | The loop over one mutable accumulator appends exactly the bytes of EncAsIdentifiers |
| ExtensionProperties.ExtensionsRoundTrip | src/extensions/mod.rs:303-360 | A typed, encodable list followed by any tail is read back as what survives of it, before the same tail |
| ExtensionProperties.ExtensionsRoundTripExactly | src/extensions/mod.rs:303-360 | A list comes back unchanged if and only if ids are signed as written, values match their ids and are themselves in order, no prefix has host bits, and it is not a lone critical KeyUsage of 0 |
| ExtensionProperties.ExtensionsSurviveExactly | src/extensions/mod.rs:335-353 | The trip loses something exactly for host bits and for the sign of a lone KeyUsage of 0 |
| ExtensionProperties.ExtensionsEncode | src/extensions/mod.rs:335-360 | A list can be encoded if and only if a lone KeyUsage is below 2^31 and otherwise every extension has a wire form |
| ExtensionProperties.DecodedExtensionsReencode | src/extensions/mod.rs:201-223 | A decoded list can be encoded again if and only if it has no id of the least i32 and is no lone KeyUsage of 2^31 or more |
| ExtensionProperties.SurvivorsReencode | src/extensions/mod.rs:335-360 | What survives is written with the very same bytes |
| ExtensionProperties.ExtensionsAreItem | src/extensions/mod.rs:306-333 | Accepted extensions are one well-formed item, and each is typed and encodable again unless its id is the least i32 |
| ExtensionProperties.ExtensionIsItems | src/extensions/mod.rs:237-266 | An accepted extension is two well-formed items |
| ExtensionProperties.ExtensionEncodes | src/extensions/mod.rs:268-297 | One extension can be encoded if and only if its id can be negated where critical, its value has a form, and an OID carries raw bytes |
| ExtensionProperties.IntExtensionRoundTrip | src/extensions/mod.rs:256-276 | Id, criticality and value of a registered extension come back |
| ExtensionProperties.OidExtensionRoundTrip | src/extensions/mod.rs:241-294 | OID, criticality and raw bytes of an unregistered extension come back |
| ExtensionProperties.CriticalRoundTrip | src/extensions/mod.rs:196-223 | Magnitude and sign are split as they were joined, 0 excepted |
| ExtensionProperties.ValueRoundTrip | src/extensions/mod.rs:110-193 | Every value under its own id is read back in its network form |
| ExtensionProperties.ValueIsItem | src/extensions/mod.rs:112-144 | An accepted value is one well-formed item, is typed by its id and can be encoded again |
| ExtensionProperties.ValueEncodes | src/extensions/mod.rs:147-193 | A value can be encoded if and only if its path length is below 2^31 and issuer and serial come together |
| ExtensionCodec.DecodeCriticalMagnitude | src/extensions/mod.rs:201-204 | On every input, value, tail and refusals are those of DecCritical, the function the round trips are about |
| ExtensionCodec.EncodeCriticalI32 | src/extensions/mod.rs:209-223 | Appends the signed int of EncCritical; refuses exactly a critical value of the least i32 |
| ExtensionCodec.DecodeValue | src/extensions/mod.rs:112-144 | On every input, value, tail and refusals are those of DecValue, the function the round trips are about |
| ExtensionCodec.EncodeValue | src/extensions/mod.rs:147-193 | Appends exactly the bytes of EncValue, the function the round trips are about, and refuses exactly where it has none |
| ExtensionCodec.DecodeExtension | src/extensions/mod.rs:239-266 | On every input, value, tail and refusals are those of DecExtension, the function the round trips are about |
| ExtensionCodec.EncodeExtension | src/extensions/mod.rs:269-297 | Appends exactly the bytes of EncExtension, the function the round trips are about, and refuses exactly where it has none |
| ExtensionCodec.DecodeExtensions | src/extensions/mod.rs:306-333 | For every input whose announced count the original can reserve, value, tail and refusals are those of DecExtensions; a larger count, which exceeds the bytes left, is refused here and panics or aborts there |
| ExtensionCodec.EncodeExtensions | src/extensions/mod.rs:335-359 | Appends exactly the bytes of EncExtensions, the function the round trips are about, and refuses exactly where it has none |
| CertificateProperties.CertificateRoundTrip | src/certificate.rs:178-206 | The wrapped form is the head of 11 elements before the sequence form; it is read back before any tail, and the reader of either form tells the two apart |
| CertificateProperties.SequenceRoundTrip | src/certificate.rs:117-175 | The sequence form is read back as what survives of the certificate, before any tail, and starts with an int |
| CertificateProperties.CertificateRoundTripExactly | src/certificate.rs:86-206 | An encodable certificate comes back unchanged, in either form, if and only if it is typed and none of its extensions lose anything |
| CertificateProperties.CertificateEncodes | src/certificate.rs:100-114 | The encoders succeed, without reaching their expect, if and only if no date predates the epoch and the extensions have a wire form |
| CertificateProperties.AcceptedCertificateReencodes | src/certificate.rs:117-175 | Re-encoding an accepted certificate fails only for the least i32 id or a lone KeyUsage of 2^31 or more; otherwise it decodes to what survives and re-encoding that gives the same bytes |
| CertificateProperties.AcceptedEitherWayReencodes | src/main.rs:12-21 | The same through the reader that detects the form, whichever form comes in and goes out |
| CertificateProperties.EncodingIsUnambiguous | src/certificate.rs:152-175 | Two typed certificates whose encodings agree, even as prefixes of longer inputs, keep the same and leave the same tail |
| CertificateProperties.EncodingIsWellFormed | src/certificate.rs:152-206 | An encoding of a typed certificate is eleven well-formed items in sequence and one when wrapped, and capturing one raw item at the start of the wrapped form succeeds and takes exactly it |
| CertificateProperties.SequenceIsElevenItems | src/certificate.rs:117-149 | Accepted input is eleven well-formed items and gives a typed certificate |
| CertificateProperties.CertificateIsItem | src/certificate.rs:180-193 | An accepted wrapped certificate is one well-formed item |
| CertificateCodec.DecodeFields | src/certificate.rs:117-149 | On every input, value, tail and refusals are those of DecSequence, the function the round trips are about |
| CertificateCodec.EncodeFields | src/certificate.rs:152-175 | Appends exactly the bytes of EncSequence, the function the round trips are about, and refuses exactly where it has none |
| CertificateCodec.Decode | src/certificate.rs:88-90 | Gives the certificate of DecCertificate or refuses where it does; bytes after the item are ignored |
| CertificateCodec.DecodeSequence | src/certificate.rs:95-98 | Gives the certificate of DecSequence or refuses where it does; bytes after the eleventh item are ignored |
| CertificateCodec.Encode | src/certificate.rs:101-103 | Gives exactly the bytes of EncCertificate, or none where the original panics |
| CertificateCodec.EncodeSequence | src/certificate.rs:108-114 | Gives exactly the bytes of EncSequence, or none where the original panics |
| CertificateCodec.DecodeCertificate | src/main.rs:16-21 | Gives what DecEither gives, which undoes both encoders |
| Names.NameRoundTripExactly | src/name.rs:24-99 | A name comes back, compact or not, if and only if no registered attribute has id 0 and is printableString |
| Names.NameRoundTrip | src/name.rs:24-99 | A name that keeps its signs comes back before any tail; and no name starts like null, so the optional form is unambiguous |
| Names.NameIsItem | src/name.rs:26-53 | An accepted name is one well-formed item, two an attribute, and keeps its signs |
| Names.OptionalNameRoundTrip | src/name.rs:55-99 | An absent name and a present one are told apart |
| Names.DecodeName | src/name.rs:26-53 | For every input whose announced count the original can reserve, value, tail and refusals are those of DecName; a larger count, which exceeds the bytes left, is refused here and panics or aborts there |
| Names.EncodeName | src/name.rs:65-85 | Appends exactly the bytes of EncName, the function the round trips are about, and never fails |
| Common.RdnAttrRoundTrip | src/common.rs:111-161 | An attribute that keeps its sign, so no registered id 0 marked printableString, comes back, for any value readers and writers that undo each other |
| Common.RdnAttrIsItems | src/common.rs:114-135 | An accepted attribute is two well-formed items, and id 0 is never printableString |
| Common.AttributeTypeRoundTrip | src/common.rs:123-152 | Id and printableString flag share one signed int |
| Common.IntOrOidRoundTrip | src/common.rs:277-300 | An int or OID comes back |
| Common.SpecialTextRoundTrip | src/common.rs:339-385 | Text, bytes and tagged MAC addresses come back and are told apart by their first byte |
| Common.OptUintRoundTrip | src/common.rs:195-218 | An optional uint comes back |
| Common.BigUintRoundTrip | src/common.rs:221-228 | A number of any size comes back through its minimal bytes |
| Common.TimeRoundTrip | src/common.rs:231-248 | A date from the epoch on comes back |
| Common.RawRoundTrip | src/common.rs:250-266 | One well-formed item is captured as it stands, whatever follows |
| Common.RawIsItem | src/common.rs:252-256 | What is captured is one well-formed item by itself |
| Common.CapacityIsExact | src/common.rs:71-79 | An accepted count never exceeds the bytes left, so the bounded capacity equals it |
| Common.DefiniteArrayLen | src/common.rs:169-173 | Refuses indefinite lengths |
| Common.ExpectArrayLen | src/common.rs:186-192 | Refuses any other length |
| Common.DecodeSpecialText | src/common.rs:341-357 | On every input, value, tail and refusals are those of DecSpecialText, the function the round trips are about |
| Common.RawItem | src/common.rs:252-256 | On every input, value, tail and refusals are those of DecRaw, the function the round trips are about |
| Common.EncodeTime | src/common.rs:239-248 | Refuses dates before the epoch |
| Common.ReadTime | src/common.rs:231-236 | Refuses seconds past year 9999 |
| GeneralNames.GeneralNamesRoundTripExactly | src/extensions/general_name.rs:65-208 | Both forms of a list bring it back if and only if every kind matches its variant, nested names keep their signs, and raw values are one item under an unassigned kind |
| GeneralNames.AltNameRoundTrip | src/extensions/general_name.rs:181-208 | The bare-text shortcut never collides with the list form |
| GeneralNames.GeneralNamesRoundTrip | src/extensions/general_name.rs:153-177 | The list comes back before any tail |
| GeneralNames.GeneralNamesAreItem | src/extensions/general_name.rs:153-165 | Accepted names are one well-formed item, two a name |
| GeneralNames.GeneralNameRoundTrip | src/extensions/general_name.rs:65-150 | One name comes back |
| GeneralNames.DecodeGeneralName | src/extensions/general_name.rs:65-102 | On every input, value, tail and refusals are those of DecGeneralName, the function the round trips are about |
| GeneralNames.EncodeGeneralName | src/extensions/general_name.rs:105-150 | Appends exactly the bytes of EncGeneralName, the function the round trips are about, and never fails |
| GeneralNames.DecodeAltName | src/extensions/general_name.rs:181-192 | On every input, value, tail and refusals are those of DecAltName, the function the round trips are about |
| GeneralNames.EncodeAltName | src/extensions/general_name.rs:195-208 | Appends exactly the bytes of EncAltName, the function the round trips are about, and never fails |
| DistributionPoints.PointsRoundTrip | src/extensions/distribution_point.rs:30-99 | Lists of points come back through both nested compact forms |
| DistributionPoints.PointsEncodingIsUnambiguous | src/extensions/distribution_point.rs:70-99 | No two different lists share an encoding |
| DistributionPoints.PointsAreItem | src/extensions/distribution_point.rs:30-67 | Accepted points are one well-formed item |
| DistributionPoints.DecodePoints | src/extensions/distribution_point.rs:30-67 | For every input whose announced count the original can reserve, value, tail and refusals are those of DecPoints; a larger count, which exceeds the bytes left, is refused here and panics or aborts there |
| DistributionPoints.EncodePoints | src/extensions/distribution_point.rs:70-99 | Appends exactly the bytes of EncPoints, the function the round trips are about, and never fails |
| AuthorityKeys.AuthorityKeyRoundTrip | src/extensions/authority_key_identifier.rs:30-76 | Encodable if and only if issuer and serial come together, and then it comes back |
| AuthorityKeys.AuthorityKeyIsItem | src/extensions/authority_key_identifier.rs:32-51 | Accepted input is one item with both or neither |
| AuthorityKeys.DecodeAuthorityKey | src/extensions/authority_key_identifier.rs:32-51 | On every input, value, tail and refusals are those of DecAuthorityKey, the function the round trips are about |
| AuthorityKeys.EncodeAuthorityKey | src/extensions/authority_key_identifier.rs:54-76 | Appends exactly the bytes of EncAuthorityKey, the function the round trips are about, and refuses exactly where it has none |
| DirectoryAttributes.DirectoryRoundTrip | src/extensions/subject_directory_attributes.rs:18-44 | Multi-valued attributes that keep their signs come back before any tail |
| DirectoryAttributes.DirectoryIsItem | src/extensions/subject_directory_attributes.rs:20-32 | Accepted input is one well-formed item |
| DirectoryAttributes.DecodeDirectory | src/extensions/subject_directory_attributes.rs:20-32 | For every input whose announced count the original can reserve, value, tail and refusals are those of DecDirectory; a larger count, which exceeds the bytes left, is refused here and panics or aborts there |
| DirectoryAttributes.EncodeDirectory | src/extensions/subject_directory_attributes.rs:34-44 | Appends exactly the bytes of EncDirectory, the function the round trips are about, and never fails |
| DirectoryAttributes.DecodeTexts | src/common.rs:72-79 | On every input, value, tail and refusals are those of DecTexts, the function the round trips are about |
| ExtKeyUsages.ExtKeyUsageRoundTrip | src/extensions/ext_key_usage.rs:16-40 | A single purpose and a list come back |
| ExtKeyUsages.DecodeExtKeyUsage | src/extensions/ext_key_usage.rs:18-23 | On every input, value, tail and refusals are those of DecExtKeyUsage, the function the round trips are about; indefinite-length arrays included |
| ExtKeyUsages.EncodeExtKeyUsage | src/extensions/ext_key_usage.rs:26-40 | Appends exactly the bytes of EncExtKeyUsage, the function the round trips are about, and never fails |
| ExtKeyUsages.TlsFeaturesRoundTrip | src/extensions/mod.rs:141-189 | TLS features come back |
| BasicConstraint.BasicConstraintsRoundTrip | src/extensions/basic_constraints.rs:20-57 | Encodable if and only if the path length is below 2^31, and then it comes back |
| BasicConstraint.DecodeBasicConstraints | src/extensions/basic_constraints.rs:22-32 | On every input, value, tail and refusals are those of DecBasicConstraints, the function the round trips are about; below -2 is refused |
| BasicConstraint.EncodeBasicConstraints | src/extensions/basic_constraints.rs:35-57 | Appends exactly the bytes of EncBasicConstraints, the function the round trips are about, and refuses exactly where it has none |
| Algorithms.AlgorithmRoundTrip | src/algorithm.rs:41-95 | All three alternatives come back |
| Algorithms.DecodeAlgorithm | src/algorithm.rs:43-68 | On every input, value, tail and refusals are those of DecAlgorithm, the function the round trips are about |
| Algorithms.EncodeAlgorithm | src/algorithm.rs:71-95 | Appends exactly the bytes of EncAlgorithm, the function the round trips are about, and never fails |
| PairLists.NameConstraintsRoundTrip | src/extensions/name_constraints.rs:22-68 | Both optional subtrees come back |
| PairLists.PoliciesRoundTrip | src/extensions/policy/certificate_policies.rs:14-101 | Policies and their qualifiers come back |
| PairLists.MappingsRoundTrip | src/extensions/policy/policy_mappings.rs:16-46 | Mappings come back |
| PairLists.PolicyConstraintsRoundTrip | src/extensions/policy/policy_constraints.rs:25-47 | Both optional counts come back |
| PairLists.IdAndTextsRoundTrip | src/extensions/access_description.rs:19-49 | Access descriptions come back |
| Examples.Ipv4PrefixesOfAppendixA5 | tests/vectors.rs:261-277 | The IPv4 prefixes of Appendix A.5 are written as the three integers given there |
| Examples.Ipv6EntriesOfAppendixA5 | tests/vectors.rs:278-284 | Its IPv6 prefix and range are written as the integers given there |
| Examples.ExtensionsOfSection331 | tests/vectors.rs:194-211 | The extension array of section 3.3.1, as a closed value, is written octet for octet |
| Examples.HostBitsAreLost | src/extensions/ip_addr.rs:82-84 | 10.0.0.1/8 comes back as 10.0.0.0/8 |
| Examples.LoneZeroLosesItsSign | src/extensions/mod.rs:339-352 | A lone critical KeyUsage of 0 comes back non-critical |
| Examples.OversizedKeyUsageHasNoForm | src/extensions/mod.rs:321-352 | -2^31 is accepted as a lone KeyUsage that cannot be encoded again |
| Examples.LeastIdHasNoForm | src/extensions/mod.rs:256-263 | -2^31 is accepted as an id that cannot be encoded again |
| Examples.TypeZeroLosesItsFlag | src/common.rs:123-152 | Attribute type 0 cannot carry the printableString flag |
| Examples.FramedIntegerNeeds60Bits | src/extensions/ip_addr.rs:108-125 | A /49 prefix takes the int form with an integer of at least 2^59 |
| Rfc3779Properties.DecodedEntriesCoverTheSame | src/extensions/ip_addr.rs:235-478 | Entry by entry, what is read back covers exactly the addresses the original covered, in the same family |
| Rfc3779Codec.DecodeDeltaPair | src/extensions/ip_addr.rs:285-292 | On every input, value, tail and refusals are those of DecDeltaPair, the function the round trips are about, and the accumulator is left at the maximum without overflow |
| Rfc3779Codec.EncodeDeltaPair | src/extensions/ip_addr.rs:434-445 | Appends exactly the bytes of EncDeltaPair, the function the round trips are about, and refuses exactly where it has none; the accumulator is left at the maximum |
| Rfc3779Codec.DecodeRawBound | src/extensions/ip_addr.rs:318-327 | On every input, value, tail and refusals are those of DecRawBound, the function the round trips are about; an empty string and a non-zero unusedBits are refused |
| Rfc3779Codec.DecodeIntEntries | src/extensions/ip_addr.rs:279-310 | On every input, value, tail and refusals are those of DecChain, the function the round trips are about; the accumulator starts at 0 and stays within 2^64 times the bytes read |
| Rfc3779Codec.DecodeRawEntries | src/extensions/ip_addr.rs:281-350 | On every input, value, tail and refusals are those of DecMany, the function the round trips are about |
| Rfc3779Codec.DecodeFamily | src/extensions/ip_addr.rs:244-253 | On every input, value, tail and refusals are those of DecFamily, the function the round trips are about |
| Rfc3779Codec.ResolveEntry | src/extensions/ip_addr.rs:398-411 | Reduces an entry to the significant bytes that the prefix and bound theorems are about |
| Rfc3779Codec.EncodeIntEntry | src/extensions/ip_addr.rs:425-446 | Appends exactly the bytes of EncIntEntry, the function the round trips are about, and refuses exactly where it has none; the accumulator moves to the entry's last value |
| Rfc3779Codec.EncodeRawEntry | src/extensions/ip_addr.rs:450-474 | Appends exactly the bytes of EncRawEntry, the function the round trips are about, and never fails |
| Rfc3779Codec.EncodeFamily | src/extensions/ip_addr.rs:360-370 | Appends exactly the bytes of EncFamily, the function the round trips are about, and refuses exactly where it has none |
| Rfc3779Codec.DecodeAsEntry | src/extensions/ip_addr.rs:494-518 | On every input, value, tail and refusals are those of DecAsEntry, the function the round trips are about; the accumulator moves to the entry's last value |
| Rfc3779Codec.EncodeAsEntry | src/extensions/ip_addr.rs:537-552 | Appends exactly the bytes of EncAsEntry, the function the round trips are about, and refuses exactly where it has none; the accumulator moves to the entry's last value |
| CertificateCodec.ReadNotAfter | src/certificate.rs:123-128 | On every input, value, tail and refusals are those of DecNotAfter, the function the round trips are about |
| Common.DecodeOid | src/common.rs:24-27 | Value, tail and refusals are those of DecOid, which stands in for the OID crate with a check of the DER shape; the crate may refuse more |
| Common.DecodeMac | src/common.rs:15-22 | On every input, value, tail and refusals are those of DecMac, the function the round trips are about; only 6 and 8 bytes are taken |
| Common.DecodeIntOrOid | src/common.rs:279-284 | On every input, value, tail and refusals are those of DecIntOrOid, the function the round trips are about |
| Common.EncodeIntOrOid | src/common.rs:287-300 | Appends exactly the bytes of EncIntOrOid, the function the round trips are about, and never fails |
| Common.DecodeAttributeType | src/common.rs:124-130 | On every input, value, tail and refusals are those of DecAttributeType, the function the round trips are about; a magnitude past 16 bits is refused |
| Common.EncodeSpecialText | src/common.rs:367-385 | Appends exactly the bytes of EncSpecialText, the function the round trips are about, and never fails |
| Common.DecodeOptUint | src/common.rs:195-202 | On every input, value, tail and refusals are those of DecOptUint, the function the round trips are about |
| Common.EncodeOptUint | src/common.rs:205-218 | Appends exactly the bytes of EncOptUint, the function the round trips are about, and never fails |
| Common.ReadBigUint | src/common.rs:221-223 | On every input, value, tail and refusals are those of DecBigUint, the function the round trips are about |
| Names.DecodeAttribute | src/common.rs:114-135 | On every input, value, tail and refusals are those of DecAttribute, the function the round trips are about |
| Names.EncodeAttribute | src/common.rs:137-161 | Appends exactly the bytes of EncAttribute, the function the round trips are about, and never fails |
| Names.DecodeOptionalName | src/name.rs:56-62 | On every input, value, tail and refusals are those of DecOptionalName, the function the round trips are about |
| Names.EncodeOptionalName | src/name.rs:88-99 | Appends exactly the bytes of EncOptionalName, the function the round trips are about, and never fails |
| DirectoryAttributes.DecodeAttributes | src/common.rs:114-135 | On every input, value, tail and refusals are those of DecAttributes, the function the round trips are about |
| DirectoryAttributes.EncodeAttributes | src/common.rs:137-161 | Appends exactly the bytes of EncAttributes, the function the round trips are about, and never fails |
| DirectoryAttributes.EncodeTexts | src/common.rs:81-90 | Appends exactly the bytes of EncTexts, the function the round trips are about, and never fails |
| DirectoryAttributes.DecodeBlobs | src/common.rs:72-79 | On every input, value, tail and refusals are those of DecBlobs, the function the round trips are about |
| DirectoryAttributes.EncodeBlobs | src/common.rs:81-90 | Appends exactly the bytes of EncBlobs, the function the round trips are about, and never fails |
| GeneralNames.DecodeGeneralNames | src/extensions/general_name.rs:153-165 | For every input whose announced count the original can reserve, value, tail and refusals are those of DecGeneralNames; a larger count, which exceeds the bytes left, is refused here and panics or aborts there |
| GeneralNames.EncodeGeneralNames | src/extensions/general_name.rs:168-177 | Appends exactly the bytes of EncGeneralNames, the function the round trips are about, and never fails |
| PairLists.DecodeNameConstraints | src/extensions/name_constraints.rs:24-55 | On every input, value, tail and refusals are those of DecNameConstraints, the function the round trips are about |
| PairLists.EncodeNameConstraints | src/extensions/name_constraints.rs:35-68 | Appends exactly the bytes of EncNameConstraints, the function the round trips are about, and never fails |
| PairLists.DecodePolicies | src/extensions/policy/certificate_policies.rs:17-31 | For every input whose announced count the original can reserve, value, tail and refusals are those of DecPolicies; a larger count, which exceeds the bytes left, is refused here and panics or aborts there |
| PairLists.EncodePolicies | src/extensions/policy/certificate_policies.rs:34-48 | Appends exactly the bytes of EncPolicies, the function the round trips are about, and never fails |
| PairLists.DecodeMappings | src/extensions/policy/policy_mappings.rs:19-33 | For every input whose announced count the original can reserve, value, tail and refusals are those of DecMappings; a larger count, which exceeds the bytes left, is refused here and panics or aborts there |
| PairLists.EncodeMappings | src/extensions/policy/policy_mappings.rs:36-46 | Appends exactly the bytes of EncMappings, the function the round trips are about, and never fails |
| PairLists.DecodePolicyConstraints | src/extensions/policy/policy_constraints.rs:27-35 | On every input, value, tail and refusals are those of DecPolicyConstraints, the function the round trips are about |
| PairLists.EncodePolicyConstraints | src/extensions/policy/policy_constraints.rs:38-46 | Appends exactly the bytes of EncPolicyConstraints, the function the round trips are about, and never fails |
| PairLists.DecodeIdAndTexts | src/extensions/access_description.rs:21-35 | For every input whose announced count the original can reserve, value, tail and refusals are those of DecIdAndTexts; a larger count, which exceeds the bytes left, is refused here and panics or aborts there |
| PairLists.EncodeIdAndTexts | src/extensions/access_description.rs:38-49 | Appends exactly the bytes of EncIdAndTexts, the function the round trips are about, and never fails |
| Minicbor.Decoder.Skip | src/common.rs:252-256 | Moves past exactly one item that is well-formed by Appendix C of RFC 8949, which leaves the contents of text strings unchecked, and fails on anything else |
| WellFormedness.AttributeEncodingIsTwoItems | src/common.rs:137-161 | A written attribute is two well-formed items before any tail |
| WellFormedness.NameEncodingIsItem | src/name.rs:65-85 | A written name is one well-formed item before any tail, and raw capture takes exactly it |
| WellFormedness.DirectoryAttributeEncodingIsTwoItems | src/common.rs:137-161 | A written multi-valued attribute is two well-formed items |
| WellFormedness.DirectoryEncodingIsItem | src/extensions/subject_directory_attributes.rs:34-44 | Written directory attributes are one well-formed item, captured whole |
| WellFormedness.GeneralNameEncodingIsTwoItems | src/extensions/general_name.rs:105-150 | A written general name is two well-formed items |
| WellFormedness.GeneralNamesEncodingIsItem | src/extensions/general_name.rs:168-208 | Written general names are one well-formed item, captured whole, in both forms |
| WellFormedness.PointsEncodingIsItem | src/extensions/distribution_point.rs:70-99 | Written points are one well-formed item, captured whole, and each point in them is one |
| WellFormedness.FamilyEncodingIsThreeItems | src/extensions/ip_addr.rs:360-370 | A written family is three well-formed items |
| WellFormedness.FamiliesEncodingIsItem | src/extensions/ip_addr.rs:355-372 | Written families are one well-formed item, captured whole |
| WellFormedness.AsIdentifiersEncodingIsItem | src/extensions/ip_addr.rs:523-556 | Written AS identifiers are one well-formed item, captured whole |
| WellFormedness.ValueEncodingIsItem | src/extensions/mod.rs:147-193 | Every written extension value is one well-formed item, captured whole |
| WellFormedness.ExtensionEncodingIsTwoItems | src/extensions/mod.rs:268-297 | A written extension is two well-formed items |
| WellFormedness.ExtensionsEncodingIsItem | src/extensions/mod.rs:335-359 | A written extension list is one well-formed item, captured whole |
| Common.RdnAttrRoundTripExactly | src/common.rs:111-161 | The generic attribute comes back if and only if it has no registered id 0 marked printableString |
| DirectoryAttributes.DirectoryRoundTripExactly | src/extensions/subject_directory_attributes.rs:18-44 | Multi-valued attributes come back if and only if none with id 0 is marked printableString |
| Rfc3779Properties.EntrySumsReachState | src/extensions/ip_addr.rs:217-222 | The recorded sums are those of the decoders: an accepted entry leaves the last one as the state |
| Rfc3779Properties.ChainSumsBounded | src/extensions/ip_addr.rs:217-222 | No sum of a decoded chain is further from its start than 2^64 times the bytes at hand |
| Rfc3779Properties.AsAccumulatorFits | src/extensions/ip_addr.rs:494-518 | The accumulator of AS identifiers does not overflow either, before the range check |
| Rfc3779Properties.FamiliesCapacityIsExact | src/extensions/ip_addr.rs:242-242 | If the families are accepted, the capacity reserved for them was their exact number |
| Addresses.CoverageIdentifiesPrefix | src/extensions/ip_addr.rs:82-84 | Two prefixes of any family and length cover the same addresses if and only if they have one network form |
| Addresses.LongerCoversLess | src/extensions/ip_addr.rs:82-84 | Of two prefixes the longer leaves out an address the shorter covers |
| Addresses.AbsoluteBelow59Bits | src/extensions/ip_addr.rs:108-125 | A framed integer is below 2^59 if and only if it does not have seven bytes with seven unused bits |
| Examples.AcceptedCertificateHasNoForm | src/certificate.rs:100-114 | Sixteen concrete bytes are accepted as a certificate that neither encoder can write |
| Reproduction.BytesReproducedExactly | src/certificate.rs:105-175 | Re-encoding an accepted sequence gives back its very bytes, which a native signature covers, if and only if they are canonical: shortest heads, no padding, compact forms, network prefixes, definite lengths |
| Reproduction.WrappedBytesReproducedExactly | src/certificate.rs:178-206 | The same for the wrapped form, whose head must be shortest too |
| Reproduction.EncodingsAreCanonical | src/certificate.rs:105-175 | What the encoder writes for a typed certificate is canonical |
| Reproduction.CanonicalSpellingIsUnique | src/certificate.rs:117-175 | Canonical inputs that are read as the same certificate are the same bytes |
| Reproduction.ExtensionsReproduced | src/extensions/mod.rs:303-360 | Accepted extensions are written again byte for byte if and only if a lone KeyUsage is a bare int below 2^31 and all else an array of canonical extensions |
| Reproduction.ValueReproducedExactly | src/extensions/mod.rs:110-193 | An accepted extension value is written again byte for byte if and only if it is canonical for its id |
| Rfc3779Reproduction.FamiliesReproducedExactly | src/extensions/ip_addr.rs:235-478 | Accepted families are written again byte for byte if and only if heads are shortest, the form is the one the encoder chooses, prefixes are networks with at most seven unused bits, and bounds are trimmed |
| Rfc3779Reproduction.AsIdentifiersReproducedExactly | src/extensions/ip_addr.rs:483-556 | Accepted AS identifiers are written again byte for byte if and only if every head is shortest |
| Rfc3779Reproduction.EntriesReproduced | src/extensions/ip_addr.rs:267-351 | Entries are written again the same if and only if the probed form is the chosen one and each entry is canonical in it |
| Rfc3779Reproduction.FramingKept | src/extensions/ip_addr.rs:71-91 | A prefix is framed as it was built if and only if at most seven bits were unused and they were clear |
| Rfc3779Reproduction.TrimmingKept | src/extensions/ip_addr.rs:50-105 | A bound is trimmed as it was built if and only if it did not end in the fill byte |
| ValueReproduction.GeneralNamesReproduced | src/extensions/general_name.rs:153-177 | Accepted general names are written again byte for byte if and only if they are canonical |
| ValueReproduction.AltNameReproduced | src/extensions/general_name.rs:181-208 | So are alternative names, if and only if a lone dNSName is bare text |
| ValueReproduction.PointsReproduced | src/extensions/distribution_point.rs:30-99 | So are points, if and only if a lone URI is bare text and a lone full name is not in an array |
| ValueReproduction.ExtKeyUsageReproduced | src/extensions/ext_key_usage.rs:16-40 | So are key purposes, if and only if a single one is bare and a list has a definite length |
| ValueReproduction.AuthorityKeyReproduced | src/extensions/authority_key_identifier.rs:30-76 | So is an authority key, if and only if its parts are canonical |
| FieldReproduction.NameReproduced | src/name.rs:24-85 | An accepted name is written again byte for byte if and only if a lone commonName is bare and all else an array of canonical attributes |
| FieldReproduction.SerialReproduced | src/common.rs:221-228 | A serial number is written again the same if and only if it has at least one byte and no leading zero |
| ValueReproduction.DirectoryReproduced | src/extensions/subject_directory_attributes.rs:18-44 | Accepted directory attributes are written again byte for byte if and only if the array and each attribute in it are canonical |
| ValueReproduction.IdAndTextsReproduced | src/extensions/access_description.rs:19-49 | Accepted access descriptions are written again byte for byte if and only if every head is shortest |
| ValueReproduction.PoliciesReproduced | src/extensions/policy/certificate_policies.rs:14-101 | Accepted policies are written again byte for byte if and only if every head, of qualifiers too, is shortest |
| ValueReproduction.MappingsReproduced | src/extensions/policy/policy_mappings.rs:16-46 | Accepted mappings are written again byte for byte if and only if every head is shortest |
| ValueReproduction.PolicyConstraintsReproduced | src/extensions/policy/policy_constraints.rs:25-47 | Accepted policy constraints are written again byte for byte if and only if every head is shortest |
| ValueReproduction.NameConstraintsReproduced | src/extensions/name_constraints.rs:22-68 | Accepted name constraints are written again byte for byte if and only if each subtree is null or canonical |
| ValueReproduction.BasicConstraintsReproduced | src/extensions/basic_constraints.rs:20-57 | Accepted basic constraints are encodable, and written again byte for byte if and only if the head is shortest |
| ValueReproduction.TlsFeaturesReproduced | src/extensions/mod.rs:141-189 | Accepted TLS features are written again byte for byte if and only if the array has a definite length and every head is shortest |
| FieldReproduction.AlgorithmReproduced | src/algorithm.rs:41-95 | An accepted algorithm is written again byte for byte if and only if every head is shortest |
| FieldReproduction.AttributeReproduced | src/common.rs:111-161 | An accepted attribute is written again byte for byte if and only if its heads, of a MAC tag too, are shortest |
| Heads.HeadIsReadExactly | src/certificate.rs:117-149 | Every head the fields are read from is read exactly from the octets of one of its five spellings, big-endian, in whatever width |
| Heads.WrittenHeadIsShortest | src/certificate.rs:152-175 | Of all heads read as the same argument the one written is the only shortest |
| Heads.HeadLength | src/certificate.rs:152-175 | A written head takes 1, 2, 3, 5 or 9 octets for arguments below 24, 2^8, 2^16, 2^32, 2^64 |
| Heads.ShortestHeadMeans | src/certificate.rs:152-175 | A head counts as shortest if and only if no spelling of its argument takes fewer octets |
| Heads.TypeTable | src/extensions/ip_addr.rs:184-198 | Which initial octets announce which type, octet by octet |
| Heads.IntIsReadExactly | src/extensions/ip_addr.rs:289-301 | An int is major type 0, or major type 1 with argument -1 - n |
| Heads.NarrowIntsAreReadExactly | src/common.rs:195-202 | The narrower readers take the same ints as far as they fit 32 or 16 bits |
| Heads.StringsAreReadExactly | src/common.rs:341-357 | Byte strings are major type 2 and texts major type 3, of definite length, a text being valid UTF-8 |
| Heads.RestIsReadExactly | src/common.rs:169-202 | null is the octet F6, tags are major type 6, arrays major type 4, and 9F starts an array of indefinite length |
| Items.SkipTakesExactlyAnItem | src/common.rs:252-256 | Skipping leaves r if and only if the octets of some item tree stand before r, in a grammar of ints, strings, arrays, maps of pairs, tags, simple values and floats, definite or indefinite, in any head width |
| Items.SkipTakesExactlyItems | src/common.rs:252-256 | Skipping n items leaves r if and only if the octets of n item trees stand before r |
| Items.WellFormedIsATree | src/common.rs:252-266 | A raw value is well-formed if and only if it is the octets of one item tree |
| WireForms.IntFormExactly | src/extensions/ip_addr.rs:413-419 | A family takes the int form if and only if every prefix has at most 56 bits, every minimum only 0x00 octets from index 7 on, and every maximum only 0xFF octets |
| WireForms.FamilyStartsWith | src/extensions/ip_addr.rs:420-474 | A non-empty family starts, inside the pair of a range, with an int if that condition holds for all entries, and with a byte string if not |
| WireForms.BareNameIsCommonName | src/name.rs:14-85 | A bare value is read as the attribute with id 1 and no printableString flag, and a name is written bare if and only if it is that one attribute |
| WireForms.MacAddressOctets | src/common.rs:164-165 | EUI-48 and EUI-64 are written D8 30 46 and D8 30 48 before the address, and come back |
| WireForms.OnlyMacAddressesAreTagged | src/common.rs:341-357 | A tagged value is accepted if and only if the tag is 48 and a byte string of 6 or 8 octets follows |
| WireForms.BareAltNameIsDnsName | src/extensions/general_name.rs:181-208 | Bare text is read as one name of kind 2, and names are written bare if and only if they are that one dNSName |
| WireForms.BarePointIsOneUri | src/extensions/distribution_point.rs:30-99 | Bare text is read as one point of one URI with nothing else, and points are written bare if and only if they are that |
| WireForms.BareFullNameIsOneText | src/extensions/distribution_point.rs:45-93 | A full name is bare text if and only if it is one text |
| WireForms.BareAuthorityKeyIsKeyIdentifier | src/extensions/authority_key_identifier.rs:30-76 | A bare byte string is read as a key identifier alone, and only that is written so |
| WireForms.BareKeyUsageIsOnePurpose | src/extensions/ext_key_usage.rs:16-40 | A bare identifier is read as a list of one purpose, and only that is written so |
| WireForms.OpenKeyUsageIsRead | src/extensions/ext_key_usage.rs:18-23 | Key purposes are read from an array of indefinite length too |
| WireForms.OpenTlsFeaturesAreRead | src/extensions/mod.rs:141-141 | TLS features are read from an array of indefinite length too |
| WireForms.BareExtensionsAreKeyUsage | src/extensions/mod.rs:321-352 | A bare int is read as one KeyUsage with id 2, critical if negative, and a list is written as a bare int if and only if it is one KeyUsage below 2^31 with that sign |
| WireForms.DatesAreReadExactly | src/common.rs:231-236 | A date is read if and only if it is an int from 0 to 253402300799 |
| WireForms.DatesAreWrittenExactly | src/common.rs:239-248 | A date is written as its seconds if and only if it does not predate the epoch |
| Encodings.TextIsUtf8Exactly | src/common.rs:341-357 | What is taken for text is exactly the UTF-8 forms of Unicode scalar values |
| Encodings.OidIsArcsExactly | src/common.rs:24-31 | What is taken for an OID is exactly the base-128 forms of one or more arcs |
| Coverage.PrefixIsARange | src/extensions/ip_addr.rs:71-91 | A prefix, by its leading bits, covers exactly the addresses that lie as numbers between its first and its last |
| Coverage.LeadingBitsAreARange | src/extensions/ip_addr.rs:71-91 | Octets agree on their leading bits if and only if they lie between the first and the last that do |
| Rfc3779Properties.EntrySumsAre | src/extensions/ip_addr.rs:289-302 | The sums of an entry, one by one: a prefix or id, or minimum and maximum of a range |
| ExtKeyUsages.DecodeTlsFeatures | src/extensions/mod.rs:141-141 | On every input, value, tail and refusals are those of DecTlsFeatures, the function the round trips are about |
| ExtKeyUsages.EncodeTlsFeatures | src/extensions/mod.rs:187-189 | Appends exactly the bytes of EncTlsFeatures, the function the round trips are about, and never fails |

## Left out

- Crates: minicbor, ipnet, oid, macaddr, time and num-bigint are modelled by what they document, without minicbor's own errors for a truncated negative head when its type is asked for.
- Minicbor.Decoder.Skip: does not check that text inside a skipped item is UTF-8, because well-formedness by Appendix C of RFC 8949 does not ask for it; minicbor may refuse more.
- Common.DecodeOid: does not model which OIDs the `oid` crate refuses; `ValidOid` is a stand-in for that crate's own validity test, and DER content octets for its value.
- Object identifiers: arc parsing is not modelled.
- Dates: whole seconds; the sub-second part and the UTC offset of a time value are not modelled.
- Serial numbers: natural numbers with minimal big-endian bytes; arithmetic inside the big-number crate is not modelled.
- Lengths: a list is short enough for the array head it needs, and an input shorter than 2^63 bytes, as Rust guarantees.
- Allocation: `Vec::with_capacity` is not modelled, only the bounded value `bounded_capacity` gives it.
- ExtensionCodec.DecodeExtensions: does not model the panic of reserving the head's count unbounded; such a count exceeds the bytes left, so it is refused here.
- Names.DecodeName: does not model the panic of reserving the head's count unbounded; such a count exceeds the bytes left, so it is refused here.
- GeneralNames.DecodeGeneralNames: does not model the panic of reserving the head's count unbounded; such a count exceeds the bytes left, so it is refused here.
- DistributionPoints.DecodePoints: does not model the panic of reserving the head's count unbounded; such a count exceeds the bytes left, so it is refused here.
- DirectoryAttributes.DecodeDirectory: does not model the panic of reserving the head's count unbounded; such a count exceeds the bytes left, so it is refused here.
- PairLists.DecodePolicies: does not model the panic of reserving the head's count unbounded; such a count exceeds the bytes left, so it is refused here.
- PairLists.DecodeMappings: does not model the panic of reserving the head's count unbounded; such a count exceeds the bytes left, so it is refused here.
- PairLists.DecodeIdAndTexts: does not model the panic of reserving the head's count unbounded; such a count exceeds the bytes left, so it is refused here.
- Trait dispatch: `RdnValue` is monomorphic here, one method for each instance; its element loops are modelled for text and byte strings.
- Loops: counted reading loops run downwards over the number of elements left, which the original counts upwards.
- Errors: messages and causes are one failure value; what a failed encode leaves in the buffer is not stated, because the public encoders discard it.
- Conversion from X.509 (`src/x509_to_c509.rs`), the JSON form (`src/cert_json.rs`, `src/serde_util.rs`), the name tables (`src/registry.rs`) and the command line beyond form detection: table lookup and field copying.
