# Versioned snapshots, key parsing and VM configuration — a Dafny model

This project models four pieces of a Firecracker fork.

- **The version map** (`src/snapshot/src/version_map.rs`, with its copy in `src/snapshot/build.rs`) records, for each root (application) version, the types whose version changes there. `get_type_version` scans back from a root version to the latest record. A missing record gives base version 1. A build script turns the map into two generated functions: `type_version`, which looks up a type's version history, and `is_foreign_type`.
- **The `Versionize` rules for primitives** (`src/snapshot/src/primitives.rs`) cover four kinds of value:
  - leaf types are encoded bincode-style (fixed-width little-endian integers, a one-byte bool, a UTF-8 char, a length-prefixed string);
  - a `Vec` is a `usize` length followed by its elements;
  - a flexible-array-member wrapper is a header followed by its entry vector;
  - decoding rebuilds a wrapper from its entries and then replaces the header.
- **The derive macro** (`struct_field.rs`, `enum_variant.rs`, `enum_desc.rs`) is modelled by what its emitted code means, not by the token text it prints. The model covers:
  - when a field or variant exists at a version;
  - what the per-field serializer writes;
  - what the deserializer reads, or fills from `default_fn` or `Default`;
  - when semantic hooks run;
  - which application version a foreign type is written and read at;
  - how enum arms write a variant or its default.
- **The encryption key and sector arithmetic** (`encryption/src/lib.rs`): `parse_str`, `to_string`, and the sector count, IV and address walk of `encrypt`/`decrypt`.
- **The VMM controller's configuration steps** (`vmm/src/controller.rs`): `set_vm_configuration`, `is_instance_initialized`, `start_microvm`, `set_vsock_device`, and the MiB-to-bytes step of `init_guest_memory`.

The design choices:

- Every operation is a pure function over immutable datatypes.
- Serializers return `Result<seq<byte>>` and deserializers return `Result<(value, rest)>`. A bounded output slice is a separate `Sink`.
- A type's rule is a `Codec` record holding a validity predicate, an encoder and a decoder, all taking the application version. The `Vec` and FAM rules are generic over the element codec.
- Integer widths are explicit:
  - versions are `u16`;
  - `latest_version` truncates to `u16`;
  - the IV counter wraps modulo 2^64;
  - `mem_size_mib << 20` wraps modulo 2^64;
  - `checked_add` on guest addresses panics past 2^64.

Files:

- `common.dfy`: bytes, widths, little-endian codec.
- `errors.dfy`: the snapshot error type.
- `utf8.dfy`: UTF-8 for `char` and `String`.
- `version_map.dfy`: the version map.
- `build_script.dfy`: the generated lookup functions and the crate's configured map.
- `descriptor.dfy`: version bounds.
- `primitives.dfy`: leaf, `Vec` and FAM rules and the bounded writer.
- `struct_field.dfy`, `struct_desc.dfy`: struct fields and their assembly.
- `enum_variant.dfy`, `enum_desc.dfy`: enums.
- `message.dfy`: the `Message` FAM test structure.
- `foreign_field.dfy`: the foreign-type finding.
- `encryption.dfy`: key parsing and sector arithmetic.
- `controller.dfy`: the controller.

## Model

| member | source | states |
|---|---|---|
| VersionMap.New | src/snapshot/src/version_map.rs:25-29 | a new map has exactly one root version, which records no type, so the latest version is 1 |
| VersionMap.NewVersion | src/snapshot/src/version_map.rs:32-35 | appends one empty root version and keeps the earlier ones; the latest version grows by one |
| VersionMap.SetTypeVersion | src/snapshot/src/version_map.rs:38-42 | only the last root version changes: the type now maps to the given version there and every other type keeps its record |
| VersionMap.LatestVersion | src/snapshot/src/version_map.rs:58-60 | below 2^16 root versions, the latest version is their number |
| VersionMap.LatestVersionWraps | src/snapshot/src/version_map.rs:58-60 | the `as u16` narrowing wraps: 2^16 root versions report latest version 0, and 2^16 more report the same latest version |
| VersionMap.ScanSpec | src/snapshot/src/version_map.rs:45-55 | walking the root versions from the newest down, the first record of the type is the answer, and the base version 1 when none records it |
| VersionMap.GetTypeVersionSpec | src/snapshot/src/version_map.rs:45-55 | the result is the type's record in the latest root version up to `root` that has one, and 1 when no such version records it |
| VersionMap.LookupOwnRecord | src/snapshot/src/version_map.rs:45-55 | a type recorded at root version `root` is looked up with that record |
| VersionMap.LookupInherits | src/snapshot/src/version_map.rs:45-55 | a type not recorded at root version `root` gets what root version `root - 1` gives |
| VersionMap.SetTypeVersionLookups | src/snapshot/src/version_map.rs:38-55 | after `set_type_version`, the lookup at the latest root gives the new version; every lookup at an earlier root, and the lookup of every other type at the latest root, is unchanged |
| VersionMap.NewVersionLookups | src/snapshot/src/version_map.rs:32-55 | `new_version` changes no lookup at an existing root, and the new root inherits the previous latest root's answer |
| VersionMap.HistoryIsScan | src/snapshot/src/version_map.rs:63-74 | entry k of the running history equals the scan over the first k+1 root versions |
| VersionMap.TypeHistoryAgrees | src/snapshot/src/version_map.rs:63-74 | `type_history` has one entry per root version, and its entry `root - 1` is `get_type_version(root, name)` |
| VersionMap.NameSet | src/snapshot/src/version_map.rs:77-88 | a name is in the set exactly when some root version records it |
| VersionMap.TypeNames | src/snapshot/src/version_map.rs:77-88 | the result holds no duplicates and holds exactly the names some root version records |
| VersionMap.RootOneRecords | src/snapshot/src/version_map.rs:176-186 | three types set in the first root version are looked up with their own versions 1, 2 and 3 |
| VersionMap.Rounds | src/snapshot/src/version_map.rs:189-197 | n rounds of three `set_type_version` calls and one `new_version` give a valid map of n+1 root versions |
| VersionMap.RoundsContent | src/snapshot/src/version_map.rs:189-197 | round i records MyType, MySecondType and MyThirdType at versions i, i+1 and i+2 |
| VersionMap.RoundsLookup | src/snapshot/src/version_map.rs:199-203 | for every round i, the lookup at root version i gives i, i+1 and i+2, which generalises the hundred-round test to any n |
| VersionMap.GapLookups | src/snapshot/src/version_map.rs:206-238 | all twelve lookups of the gap test: a type skipped in later root versions keeps its last version there |
| VersionMap.UnsetTypeIsBase | src/snapshot/src/version_map.rs:240-244 | a type no root version records is at the base version 1 at every root, which the unset-type test checks at root 1 |
| VersionMap.TwoNewVersions | src/snapshot/src/version_map.rs:169-174 | two `new_version` calls on a fresh map give latest version 3 |
| BuildScript.TypeVersionFn | src/snapshot/build.rs:127-156 | an unknown or compiled-out type gets base version 1; a known, compiled-in type gets its history entry for `app_version - 1`, which equals the map's lookup; application version 0 or one past the history is the indexing panic |
| BuildScript.IsForeignTypeIff | src/snapshot/build.rs:95-124 | the generated chain of per-name blocks, some compiled only under `cfg(test)`, answers true exactly when the type is listed and its block is compiled in the current build |
| BuildScript.SnapshotConfigShape | src/snapshot/build.rs:161-170 | the crate's map has four root versions with the records the build script sets |
| BuildScript.SnapshotHistories | src/snapshot/build.rs:161-170 | the histories emitted for tests::Test and tests::A are [1,2,3,4] and [1,2,3,3] |
| BuildScript.SnapshotRootOneIsBase | src/snapshot/build.rs:161-170 | every type is at base version 1 at root version 1 of the crate's map |
| BuildScript.SnapshotNoForeignTypes | src/snapshot/build.rs:172 | with the empty foreign-type list, no type is foreign in any build |
| BuildScript.SnapshotTestTypesOutsideTests | src/snapshot/build.rs:127-156 | outside test builds the `cfg(test)` block of `tests::Test` is compiled out, so it answers base version 1 at every application version |
| BuildScript.SnapshotUnknownTypes | src/snapshot/build.rs:172-184 | any type other than the two test types gets base version 1 at every application version |
| BuildScript.SnapshotTestTypeInTests | src/snapshot/build.rs:172-184 | in a test build the test types are looked up in their histories, and application version 5 is past the history's end |
| BuildScript.A2History | src/a2/build.rs:10-15 | the a2 crate's map gives A2 the history [1,1,2] |
| Descriptor.ComputeVersion | src/snapshot_derive/src/descriptors/enum_desc.rs:63 | a descriptor's version bounds every start and end version and is one of them, or 0 with no fields |
| Descriptor.PresenceAtDescriptorVersion | src/snapshot_derive/src/descriptors/enum_desc.rs:63 | at the computed descriptor version every member never removed is present and every removed member is absent |
| Primitives.IntRoundTrip | src/snapshot/src/primitives.rs:12-28 | every in-range integer of every width decodes from its encoding followed by any suffix, giving the value and the suffix |
| Primitives.CanonicalInt | src/snapshot/src/primitives.rs:12-28 | every byte string of an unsigned width is the encoding of the value it decodes to |
| Primitives.DecodeBool | src/snapshot/src/primitives.rs:38 | a bool decodes only from byte 0 or 1, and any other byte is a deserialize error |
| Primitives.BoolRoundTrips | src/snapshot/src/primitives.rs:38 | the bool rule round-trips and never fails to encode |
| Primitives.LeavesIgnoreVersion | src/snapshot/src/primitives.rs:14-29 | the leaf rules for bool, integers, char and `String` ignore the version they are given, both writing and reading |
| Primitives.IntRoundTrips | src/snapshot/src/primitives.rs:39-48 | the rule for each of the ten integer types round-trips and never fails to encode, as the max-value tests check |
| Primitives.CharRoundTrips | src/snapshot/src/primitives.rs:51 | the char rule round-trips at every version |
| Primitives.DecodeStr | src/snapshot/src/primitives.rs:52 | whatever a string decodes from is exactly that string's encoding followed by the remaining bytes |
| Primitives.StringRoundTrip | src/snapshot/src/primitives.rs:52 | a string decodes from its length-prefixed UTF-8 encoding followed by any suffix |
| Primitives.StringRoundTrips | src/snapshot/src/primitives.rs:52 | the String rule round-trips at every version |
| Utf8.DecodeEncodeString | src/snapshot/src/primitives.rs:51-52 | decoding the UTF-8 encoding of a string gives that string |
| Utf8.DecodedIsCanonical | src/snapshot/src/primitives.rs:51-52 | the decoder accepts only canonical UTF-8: re-encoding what it returns gives back the input |
| Primitives.VecEncode | src/snapshot/src/primitives.rs:59-71 | a vector encodes exactly when each element does; the output starts with the element count as a usize; a failing element makes the vector fail |
| Primitives.ElementsLength | src/snapshot/src/primitives.rs:59-71 | elements of fixed width w give an encoding of 8 + w·n bytes |
| Primitives.VecDecode | src/snapshot/src/primitives.rs:74-84 | a decoded vector has as many elements as the u64 length prefix says; every failure is a deserialize error |
| Primitives.VecRoundTrip | src/snapshot/src/primitives.rs:54-84 | a vector of elements that round-trip decodes from its encoding followed by any suffix |
| Primitives.VecCodecRoundTrips | src/snapshot/src/primitives.rs:54-90 | the Vec rule round-trips whenever the element rule does, and never fails to encode when the element rule never does |
| Primitives.FamEncode | src/snapshot/src/primitives.rs:99-109 | a wrapper encodes when its header and entry vector do; a header failure is reported unchanged |
| Primitives.FamDecode | src/snapshot/src/primitives.rs:112-123 | the header is read, then the entry vector; the wrapper holds the read header over the entries read as its backing array, and every failure is a deserialize error |
| Primitives.DecodedSliceIff | src/snapshot/src/primitives.rs:112-123 | after the header replacement, the wrapper's slice is exactly the entries read when, and only when, the read header's length field equals their number |
| Primitives.FamRoundTrip | src/snapshot/src/primitives.rs:99-123 | a wrapper decodes to its entries and to the header the header rule restores, followed by any suffix |
| Primitives.FamCodecRoundTrips | src/snapshot/src/primitives.rs:93-129 | the FAM rule round-trips whenever the header and entry rules do |
| Primitives.WriteAll | src/snapshot/src/primitives.rs:16-19 | writing into a bounded slice succeeds exactly when the bytes fit; it appends them and otherwise fails with a serialize error |
| Primitives.SerializeInto | src/snapshot/src/primitives.rs:16-19 | serializing into a writer reports the rule's own error, or else writes the encoding |
| MessageScenario.MessageVersion | src/snapshot/src/primitives.rs:140-149 | the Message struct, with one field starting at version 2, has version 2 |
| MessageScenario.HeaderAtVersionOne | src/snapshot/src/primitives.rs:140-156 | at version 1 the Message header writes len, padding and value as 12 bytes and nothing for extra_value or entries |
| MessageScenario.HeaderRoundTrip | src/snapshot/src/primitives.rs:146-154 | reading the version-1 header back restores every field, and extra_value becomes 321 from its default_fn |
| MessageScenario.WrapperRoundTrip | src/snapshot/src/primitives.rs:320-355 | a wrapper of the test Message reads back with the same entries and the header whose extra_value is 321 |
| MessageScenario.WrapperLength | src/snapshot/src/primitives.rs:320-336 | a wrapper with n u32 entries encodes to 20 + 4n bytes |
| MessageScenario.MismatchedLen | src/snapshot/src/primitives.rs:112-123 | a `Message` header saying `len` 1 before two entries reads back with both entries but exposes only the first; with `len` 3 the slice would run past the entries |
| MessageScenario.WrapperSave | src/snapshot/src/primitives.rs:357-374 | writing a wrapper into a slice fails exactly when the slice is shorter than its encoding, as the 16-byte test expects |
| MessageScenario.PairRoundTrip | src/snapshot/src/primitives.rs:235-263 | a vector of two equal wrappers whose extra_value is 321 reads back equal |
| StructField.New | src/snapshot_derive/src/fields/struct_field.rs:36-49 | the start version is the attribute's or the base version; the end version is the attribute's or 0, and with neither attribute the field exists from the base version on |
| StructField.GenerateSerializer | src/snapshot_derive/src/fields/struct_field.rs:76-111 | a field absent at the target version writes nothing; a present array, path or reference field is written, and any other shape is rejected |
| StructField.GenerateDeserializer | src/snapshot_derive/src/fields/struct_field.rs:113-175 | an absent field comes from default_fn or Default; a present field is read exactly when its shape is readable (array of path with integer-literal length, path, reference) |
| StructField.GenerateSemanticSerializer | src/snapshot_derive/src/fields/struct_field.rs:51-61 | the hook is emitted exactly when the field is absent at the target version and names a semantic serializer |
| StructField.WireAgreement | src/snapshot_derive/src/fields/struct_field.rs:76-175 | at one version a field is written exactly when the reader reads it rather than defaulting it, and the semantic hooks run only for fields not on the wire |
| StructField.GenerationIsTotalForReadableShapes | src/snapshot_derive/src/fields/struct_field.rs:97-175 | a field of readable shape never aborts the derive, whatever its version range |
| StructField.AbsentFieldsNeverReject | src/snapshot_derive/src/fields/struct_field.rs:76-128 | a field absent at the version never aborts the derive: it writes nothing and is defaulted on read, so rejection depends on the shape of present fields only |
| StructField.GenerateSemanticDeserializer | src/snapshot_derive/src/fields/struct_field.rs:63-74 | the hook is emitted exactly when the field is absent at the source version and names a semantic deserializer |
| StructDesc.Translate | src/snapshot_derive/src/fields/struct_field.rs:87-95 | a foreign type's application version is mapped through the version map; any other type keeps it |
| StructDesc.DerivableIff | src/snapshot_derive/src/fields/struct_field.rs:97-108 | the derive succeeds exactly when every field present in some version arm has a supported shape |
| StructDesc.SerializeFields | src/snapshot_derive/src/fields/struct_field.rs:76-111 | the fields serialize exactly when each one does |
| StructDesc.ReadField | src/snapshot_derive/src/fields/struct_field.rs:113-128 | a field absent at the source version consumes no input and takes its default |
| StructDesc.Restore | src/snapshot_derive/src/fields/struct_field.rs:113-128 | the value read back keeps each present field and replaces each absent one with its default |
| StructDesc.FieldRoundTrip | src/snapshot_derive/src/fields/struct_field.rs:76-175 | each field, present or absent, reads back from what its serializer wrote when field types are translated alike on both sides |
| StructDesc.FieldsRoundTrip | src/snapshot_derive/src/fields/struct_field.rs:76-175 | the first n fields read back in order from their concatenated encodings followed by any suffix |
| StructDesc.StructRoundTrip | src/snapshot_derive/src/fields/struct_field.rs:76-175 | a struct reads back at the same application version as its present fields plus defaults for absent ones, with the suffix untouched |
| StructDesc.AllPresentRoundTrip | src/snapshot_derive/src/fields/struct_field.rs:76-175 | a struct whose fields all exist at the local version reads back unchanged |
| StructDesc.SameFields | src/snapshot_derive/src/fields/struct_field.rs:87-95 | with no foreign type involved, the as-written and corrected serializers give identical field bytes |
| StructDesc.TranslationsAgree | src/snapshot_derive/src/fields/struct_field.rs:159-166 | with no foreign type involved, the as-written serializer agrees with the corrected one, so the finding below is confined to foreign types |
| EnumVariant.New | src/snapshot_derive/src/fields/enum_variant.rs:30-57 | a variant is accepted exactly when its discriminant is an integer literal that fits in u16; its start and end default to the base version and 0 |
| EnumVariant.GenerateSerializer | src/snapshot_derive/src/fields/enum_variant.rs:60-81 | a present variant writes itself; an absent one writes its default_fn's variant, and without default_fn generation is rejected |
| EnumDesc.VariantBounds | src/snapshot_derive/src/descriptors/enum_desc.rs:63 | the bounds are each variant's start and end version, in order |
| EnumDesc.ParseVariants | src/snapshot_derive/src/descriptors/enum_desc.rs:67-74 | parsing succeeds exactly when every variant does, and keeps their order |
| EnumDesc.New | src/snapshot_derive/src/descriptors/enum_desc.rs:55-65 | descriptor construction succeeds exactly when every discriminant is an integer literal below 2^16 (the derive can still be rejected afterwards by GenerateSerializer); the descriptor holds one variant per declaration, unannotated ones start at version 1, and its version is computed from their bounds |
| EnumDesc.ArmForSpec | src/snapshot_derive/src/descriptors/enum_desc.rs:18-20 | one version's match arms are generated exactly when every variant's arm is, one arm per variant |
| EnumDesc.ArmsSpec | src/snapshot_derive/src/descriptors/enum_desc.rs:15-30 | arms for versions 1 to n are generated exactly when every variant is allowed at every one of those versions |
| EnumDesc.GenerateSerializer | src/snapshot_derive/src/descriptors/enum_desc.rs:12-33 | one match per version 1 to the descriptor's version, with one arm per variant equal to that variant's own arm, or rejection when any arm is rejected |
| EnumDesc.LateVariantWithoutDefaultRejects | src/snapshot_derive/src/fields/enum_variant.rs:63-73 | a variant added after version 1 without a default_fn makes the enum's derive fail |
| EnumDesc.SerializeEnum | src/snapshot_derive/src/fields/enum_variant.rs:76-80 | writing a variant produces a 4-byte bincode discriminant |
| EnumDesc.DeserializeEnum | src/snapshot_derive/src/descriptors/enum_desc.rs:36-43 | reading consumes four bytes and gives a known variant; every failure is a deserialize error |
| EnumDesc.EnumRoundTrip | src/snapshot_derive/src/descriptors/enum_desc.rs:36-43 | reading back gives the variant written: the value itself where it exists at that version, its default otherwise, whatever version is read at |
| EnumDesc.DeserializeIgnoresVersion | src/snapshot_derive/src/descriptors/enum_desc.rs:35-43 | reading an enum gives the same result at every source version: the version argument plays no part in the read |
| ForeignField.InnerRoundTrips | src/snapshot_derive/src/fields/struct_field.rs:87-95 | the foreign type's rule round-trips at every version on its own |
| ForeignField.AsWrittenLosesField | src/snapshot_derive/src/fields/struct_field.rs:87-95 | as written, a struct holding one foreign field writes one byte at version 1 that its deserializer, reading at version 2, cannot read back |
| ForeignField.CorrectedRoundTrips | src/snapshot_derive/src/fields/struct_field.rs:159-166 | translating by the field's type on both sides, the same struct writes two bytes and reads back |
| Encryption.RadixByte | encryption/src/lib.rs:61 | a two-character chunk parses exactly when its second character is a hex digit and its first is a hex digit or '+' |
| Encryption.ParseStr | encryption/src/lib.rs:52-64 | odd-length input is rejected; a parsed key has half as many bytes as the input has characters |
| Encryption.ParseStrParsed | encryption/src/lib.rs:59-63 | byte i of a parsed key is what chunk i parses to |
| Encryption.ChunksOfAscii | encryption/src/lib.rs:60-62 | on ASCII input slicing never panics, and parsing succeeds exactly when every chunk parses |
| Encryption.BadChunkRejects | encryption/src/lib.rs:61 | one chunk that fails to parse makes the whole ASCII key invalid |
| Encryption.ToString | encryption/src/lib.rs:66-72 | each byte gives exactly two characters |
| Encryption.ToStringAt | encryption/src/lib.rs:66-72 | characters 2i and 2i+1 are the lower-case hex digits of byte i's high and low nibble |
| Encryption.ParseToString | encryption/src/lib.rs:52-72 | parsing what `to_string` prints gives back every key |
| Encryption.ToStringOfParsed | encryption/src/lib.rs:198-220 | an even-length key of hex digits parses, and printing it back gives the key in lower case, as the serialization test expects |
| Encryption.ParseHex | encryption/src/lib.rs:52-64 | the strict parser accepts exactly the even-length strings of hex digits |
| Encryption.ParseStrAgrees | encryption/src/lib.rs:52-64 | on ASCII input without '+', `parse_str` and the strict parser agree |
| Encryption.PlusQuirk | encryption/src/lib.rs:61 | "+f" parses to the byte 15, which prints as "0f", so printing a parsed key does not give the input back |
| Encryption.ParseHexCanonical | encryption/src/lib.rs:52-72 | a key accepted by the strict parser prints back as its lower-case form and re-parses to the same bytes |
| Encryption.MalformedKeysRejected | encryption/src/lib.rs:186-192 | the 17-character key and the key with the non-hex 'x' are both rejected |
| Encryption.DigitKeyParses | encryption/src/lib.rs:194-195 | "0123456789012345" parses to the eight bytes the test lists |
| Encryption.NumSectors | encryption/src/lib.rs:113 | the sector count is the largest n with n·512 ≤ data_len, so a partial trailing sector is not processed |
| Encryption.SectorIv | encryption/src/lib.rs:116 | the IV is 16 bytes whose little-endian value is no_sector + offset modulo 2^64 |
| Encryption.IvHighBytesZero | encryption/src/lib.rs:116 | the upper eight IV bytes are zero and the lower eight are the wrapped 64-bit counter |
| Encryption.SectorPlan | encryption/src/lib.rs:105-174 | the walk completes exactly when the address after the last sector fits in 64 bits; sector k is at data_addr + 512k with IV no_sector + k, and otherwise the walk stops after the sector whose successor overflows |
| Controller.IsInstanceInitialized | vmm/src/controller.rs:46-48 | the guard always reports an uninitialised instance |
| Controller.StartMicrovm | vmm/src/controller.rs:489-491 | starting sets the initialised flag and changes nothing else |
| Controller.SetVmConfiguration | vmm/src/controller.rs:351-391 | the memory-size error and the vCPU-count error each occur under their exact condition, and the post-boot error never does; a rejected request leaves the state unchanged; an accepted one sets vCPU count and hyperthreading to the effective values and memory and template only when given |
| Controller.SetVmConfigurationPreservesValidity | vmm/src/controller.rs:364-388 | from a valid stored configuration every request can be evaluated, and the stored configuration stays valid |
| Controller.SetVmConfigurationIdempotent | vmm/src/controller.rs:351-391 | resubmitting the stored configuration changes nothing, and repeating an accepted request gives the same outcome |
| Controller.SetVsockDevice | vmm/src/controller.rs:75-85 | the vsock configuration is replaced and the call never fails, leaving the other state alone |
| Controller.LastVsockWins | vmm/src/controller.rs:75-85 | setting the vsock device twice leaves exactly the state of setting only the second configuration |
| Controller.GuardsIgnoreStart | vmm/src/controller.rs:46-85 | after start_microvm the guard still reports false, so configuration and vsock calls behave exactly as before boot |
| Controller.MemBytes | vmm/src/controller.rs:266-272 | the byte size is a whole number of MiB, the size in MiB modulo 2^44 times 2^20, as a 64-bit shift gives |
| Controller.MemBytesExact | vmm/src/controller.rs:266-272 | a size below 2^44 MiB converts to exactly mib·2^20 bytes, and dividing by 2^20 gives the size back |
| Controller.MemBytesWrapsAtLimit | vmm/src/controller.rs:266-272 | at 2^44 MiB the 64-bit shift overflows and the byte size silently becomes zero |
| Controller.InitGuestMemory | vmm/src/controller.rs:264-278 | existing memory is kept; a missing size is the not-initialised error; otherwise the size in bytes is recorded |
| Controller.InitGuestMemoryIdempotent | vmm/src/controller.rs:264-278 | initialising guest memory a second time leaves the state as the first call left it |
| Controller.ConfiguredMemoryInitialises | vmm/src/controller.rs:264-278 | after a valid memory size below 2^44 MiB is accepted, initialisation records exactly mib·2^20 bytes |

## Left out

- The Snapshot container is not part of this model: section headers, CRC and `save`/`load`. The tests that go through it are modelled through the codec of the section they write.
- bincode's own implementation is replaced by its fixed-width rules. The rules modelled are integers little-endian, bool as one byte, char as UTF-8, and `String` and `Vec` lengths as u64. `usize`/`isize` are assumed to be 8 bytes wide, and bincode's error messages are not modelled.
- `f32` and `f64` (`primitives.rs:49-50`) are left out: floating point is not modelled.
- `exists_at` and `compute_version` live in helper modules that are not part of this model. They are assumed as follows:
  - a field or variant exists at v when start ≤ v and (end = 0 or v < end);
  - the descriptor version is the largest start or end version.
- The struct descriptor that assembles field code is not part of this model. It is assumed to work as follows:
  - it runs semantic serializers first, then writes the fields in order;
  - it reads all fields, then runs semantic deserializers;
  - its local `version` is the map's answer for the struct itself.
- The serializer's `let app_version` rebinding chains from one field to the next in the emitted code. The model gives each field a fresh binding, because how the descriptor scopes the fields is not shown.
- `vec_to_arr_func!` is not shown. An array whose decoded length differs from its declared length is modelled as a deserialize error.
- The derive functions' token output and the panic messages are modelled as their meaning: a `Derived` value that is generated or rejected.
- `FOREIGN_TYPES` and `VERSION_MAP` are globals in the crate. They are passed explicitly as a `Domain`.
- MessageScenario.MessageEncode: only the version-1 encoding of `Message` is modelled. That is the version every test uses.
- In the encryption module, OpenSSL's AES-XTS cipher, disk and guest-memory I/O, and their errors are left out. `SectorPlan` models the sector count, the IVs and the address walk; I/O errors would stop the loop earlier.
- Encryption.SectorIv: `no_sector + sector_offset` wraps modulo 2^64, as a release build does. A debug build would panic instead.
- Encryption.ParseStr: for non-ASCII input, only whether a slice boundary falls inside a character is modelled, through `IsCharBoundary`. Which UTF-8 character sits there is not modelled.
- `EncryptionContext::new`, `serialize`/`deserialize` (serde glue around `to_string` and `parse_str`) and the `EncryptionDescription` JSON shape are left out.
- The other controller operations are left out: block and net devices, logger, boot source, kernel loading, MMIO setup, `configure_from_json` and epoll. Controller state other than the VM configuration, vsock, guest memory and the flag is also left out.
- Controller.InitGuestMemory: `arch_memory_regions` and `GuestMemory::new` are outside this model. The model records the byte size only, and never fails to create the memory.
- The `VmConfig` type is not shown. It is assumed to hold an optional u8 vCPU count, an optional 64-bit `usize` memory size, an optional hyperthreading flag and an optional CPU template. Its `Default` impl is not shown either: `Controller.DEFAULT_VM_CONFIG` (one vCPU, 128 MiB, no hyperthreading, no template) and `Controller.DefaultIsValid` about it are assumed values, not taken from the code.
- Controller.SetVmConfiguration: a request that leaves the vCPU count or hyperthreading unset, when the stored configuration also lacks it, would panic on `unwrap`. The requires clause excludes that case rather than modelling the panic.
- Primitives.FamEncode: writes the wrapper's whole backing array, where the source writes `as_slice()`, the first `len` entries. The two agree for every wrapper whose header length field equals its entry count, which is what `from_entries` builds; the mismatch on the reading side is `DecodedSliceIff`.
- `FamStructWrapper` itself (`from_entries`, its maximum length, the raw slice) is from `vmm_sys_util` and is not part of this model. `AsSlice` takes the header's length field as a parameter, and a length beyond the backing array is `None`, not a read past the allocation.
- VersionMap.GetTypeVersion: a root version beyond the map makes `split_at` panic. The requires clause `root <= |vm.versions|` excludes that case, and so does the same clause on `StructDesc.Translate`.
- VersionMap.SetTypeVersion: on an empty map (a derived `Default`), `current_version - 1` underflows and panics. The requires clause `Valid` (at least one root version) excludes that case.
- StructField.New: a field without an identifier (a tuple-struct field) panics on `unwrap` in the source. The model takes any name.
- The build script's private copy of `VersionMap` (`build.rs:13-92`) is the same code as `version_map.rs` and is modelled once. Writing the generated source to `OUT_DIR` is I/O.

## Findings

| source | as written | input that shows it | evidently intended | confidence | as-written member | corrected member |
|---|---|---|---|---|---|---|
| src/snapshot_derive/src/fields/struct_field.rs:87-95 | the field serializer translates the application version when the enclosing struct (`Self`) is foreign, while the deserializer (159-166) translates when the field's type is foreign | a non-foreign struct holding one field of foreign type Inner, with the map sending application version 1 to Inner version 2 and Inner's layout changing at 2: one byte is written, and two are expected | both sides translate by the field's type, as the comment at 84-86 describes | not executed | ForeignField.AsWrittenLosesField | StructDesc.StructRoundTrip |
| encryption/src/lib.rs:60-62 | each chunk is parsed with `u8::from_str_radix`, which accepts a leading '+' | the key "+f" parses to [15] and is printed back as "0f" | only hex digits are accepted, so printing a parsed key gives back the input in lower case | not executed | Encryption.PlusQuirk | Encryption.ParseHexCanonical |
