# dns-go in Dafny

A model of the core of dns-go, a small recursive DNS resolver and caching server written in Go. It has three parts, with what is proved about each.

**The wire codec** follows section 4.1 of RFC 1035.

It has four layers:
- the big-endian byte helpers;
- the bounds-checked `PacketWriter`, a class with a 512-byte ceiling and an offset-to-suffix table for name compression (section 4.1.4 of RFC 1035);
- the `PacketReader`, a class that follows compression pointers through its own buffer;
- marshal and unmarshal of the header, the questions, the resource records and whole packets.

Every method is proved equal to a specification function over the writer state `WState(buf, table)` or over the reader's buffer and position. The main results:
- header bit packing round-trips for flags in range;
- one compressed name written is read back as written, while every offset in the table still points at its name (`NameCompression.DomainRoundTrip`);
- a well-formed packet round-trips: valid names, counts equal to the section lengths, and records of types A, AAAA, NS and CNAME (`PacketRoundTrip.PacketRoundTrip`);
- a record of any other type does not round-trip (`PacketRoundTrip.OtherTypeDoesNotRoundTrip`).

**The resolver** is `Lookup` with its first-match record searches and `constructQuery`.

It is written twice, and `Resolver.Lookup` is proved equal to the functions:
- as mutually recursive functions with fuel: `LookupSpec`, `LookupFrom`, `Handle`, `Refer`;
- as the source's loop with nested lookups: `Lookup`, `AskServer`, `HandleResponse`, `FollowReferral`.

The network is an oracle in `Env`, and `Udp` builds one from a raw byte exchange. The proved properties:
- more fuel never changes a finished result;
- a successful lookup always ends on an answer for the name asked: an error code, or an A or CNAME record owned by the name;
- a reply that decodes is exactly the packet the server encoded.

**The caches** come in two kinds:
- the TTL cache keyed by domain and source, `TtlCache.DnsCache` (internal/dns/cache/cache.go);
- the answer cache used by the server, `ServerCache.DomainCache` (internal/dns/cache.go).

Both are classes whose `cache` field is a list of entries, viewed as a map. Each `watchTtl` tick is one sequential `Sweep(now)`, proved to delete exactly the expired entries. Set-then-get and set-leaves-others are proved for both, and `minTtl` is proved to compute the minimum.

**The server** is `lookupCache` together with the request path of `handleConnection` minus its socket: decode, answer from the cache or resolve, insert into the cache, encode. It is written twice: `HandleConnectionAsWritten` as the source has it, and `HandleConnection` with the corrected insertion of "## Findings".

Go maps are modelled as `Table<K, V> = seq<(K, V)>`, one list of entries in one iteration order. A ghost `View` gives the map the list stands for. Go strings are byte sequences, and times are whole seconds passed in as `now`.

## Model

| member | source | states |
|---|---|---|
| Utils.BytesToUint16 | internal/utils/bytes.go:4-9 | the value is `b0 * 256 + b1` |
| Utils.BytesToUint32 | internal/utils/bytes.go:12-19 | the value is `b0 * 2^24 + b1 * 2^16 + b2 * 2^8 + b3` |
| Utils.BytesToUint16Injective | internal/utils/bytes.go:4-9 | different byte pairs decode to different values |
| Utils.BytesToUint32Injective | internal/utils/bytes.go:12-19 | different byte quadruples decode to different values |
| Utils.Uint16ToBytes | internal/dns/io/writer.go:35 | two bytes that `BytesToUint16` decodes back to the value |
| Utils.Uint32ToBytes | internal/dns/io/writer.go:46 | four bytes that `BytesToUint32` decodes back to the value |
| Utils.Uint16BytesRoundTrip | internal/utils/bytes.go:4-9 | encoding a decoded pair gives the pair back |
| Utils.Uint32BytesRoundTrip | internal/utils/bytes.go:12-19 | encoding decoded bytes gives the bytes back |
| Utils.BoolToUint8 | internal/dns/serde/header.go:13-18 | 1 exactly for true, else 0 |
| Utils.DecodeScenarios | internal/dns/serde/header.go:65 | `12 34` decodes to 0x1234 and `00 01 51 80` to 86400 |
| Utils.KeyByValue | internal/utils/map.go:3-12 | found iff some entry holds the value; a found key holds it; the zero key and false otherwise |
| Utils.FindKeyByValue | internal/utils/map.go:3-12 | the loop with early return gives the result of `KeyByValue` |
| Utils.FirstHolding | internal/utils/map.go:4-8 | index of the first entry holding the value: no earlier entry holds it |
| Utils.KeyByValueInView | internal/utils/map.go:3-12 | on a table with unique keys: a found key maps to the value in the map; not found means no key maps to it |
| Utils.KeyByValueUnique | internal/utils/map.go:4-7 | with unique values, the key returned is the one key holding the value |
| Utils.Get | internal/dns/cache.go:56 | a Go map read: present iff the key is in the map, with its value |
| Utils.Put | internal/dns/cache.go:64 | a Go map write: its key is replaced or appended, and no other entry changes |
| Utils.PutView | internal/dns/cache.go:64 | the map after the write is the old map updated at the key |
| Utils.PutAppends | internal/dns/io/writer.go:102 | a new key is appended at the end |
| Utils.PutKeysUnique | internal/dns/cache.go:64 | a write keeps one entry per key |
| Utils.PutValuesUnique | internal/dns/io/writer.go:99-103 | writing a value not yet present keeps the values unique |
| Utils.ReplacedValuesUnique | internal/dns/io/writer.go:99-103 | any table that changes as `Put` does keeps values unique when the value is new |
| Utils.Delete | internal/dns/cache.go:41 | a Go `delete`: the map loses exactly the key, and keys stay unique |
| Utils.ViewHasEntry | internal/dns/cache.go:56 | with unique keys each entry is what the map holds for its key |
| Utils.ViewEntryOf | internal/dns/cache.go:56 | every key of the map comes from an entry of the table |
| Expiry.Expired | internal/dns/cache.go:38 | no contract: the definition is the model; `Expiry.UnexpiredView` and `Expiry.SweepStep` state what the sweep does with it: `expiresAt.Before(now)`, strictly earlier |
| Expiry.Unexpired | internal/dns/cache.go:37-45 | the entries the sweep keeps: none of them expired |
| Expiry.UnexpiredAppend | internal/dns/cache.go:37-45 | sweeping two lists one after the other is sweeping their concatenation |
| Expiry.UnexpiredKeys | internal/dns/cache.go:37-45 | the sweep adds no key |
| Expiry.UnexpiredKeysUnique | internal/dns/cache.go:37-45 | the sweep keeps the table a map |
| Expiry.DeleteAbsent | internal/dns/cache.go:41 | deleting an absent key changes nothing |
| Expiry.DeleteOnce | internal/dns/cache.go:41 | deleting a key listed once removes just its entry |
| Expiry.AbsentFromView | internal/dns/cache.go:56 | a key no entry carries is not in the map |
| Expiry.UnexpiredView | internal/dns/cache.go:37-45 | on the map, the sweep keeps exactly the entries not expired at `now` |
| Expiry.SweepStep | internal/dns/cache.go:38-44 | one iteration deletes the entry iff it expired, moving the loop's state one entry on |
| Expiry.Sweep | internal/dns/cache/cache.go:45-56 | one pass that deletes each expired entry leaves exactly `Unexpired(table, now)` |
| TtlCache.FirstMinimum | internal/dns/cache/cache.go:88-93 | the index of the first entry with the smallest TTL: no TTL is smaller, and every earlier one is larger |
| TtlCache.MinTtlSpec | internal/dns/cache/cache.go:78-96 | 0 for no records; otherwise at most every TTL and equal to one of them |
| TtlCache.MinTtl | internal/dns/cache/cache.go:78-96 | the concatenate-and-scan loop gives `MinTtlSpec` |
| TtlCache.NewCacheRecord | internal/dns/cache/cache.go:17-21 | keeps the records and expires at `now + minTtl`: no later than `now` plus any record's TTL and exactly `now` plus some record's TTL, or at `now` when there are no records |
| TtlCache.DnsCache.constructor | internal/dns/cache/cache.go:33-37 | an empty cache |
| TtlCache.DnsCache.Get | internal/dns/cache/cache.go:61-68 | a hit iff the (domain, source) key is present, with its records and no expiry check; empty records on a miss |
| TtlCache.DnsCache.Set | internal/dns/cache/cache.go:70-76 | the key now holds `newCacheRecord(records)` and the cache stays a map |
| TtlCache.DnsCache.Sweep | internal/dns/cache/cache.go:45-56 | the cache becomes its unexpired entries |
| TtlCache.SetThenGet | internal/dns/cache/cache.go:61-76 | after `Set(d, s, R)`, `Get(d, s)` is `(R, true)` |
| TtlCache.SetLeavesOthers | internal/dns/cache/cache.go:23-26 | `Set` leaves every other key as it was, even the same domain from another source |
| TtlCache.SweepThenGet | internal/dns/cache/cache.go:45-68 | after a sweep, `Get` hits exactly the keys whose entries did not expire before `now` |
| ServerCache.DomainCache.constructor | internal/dns/cache.go:21-25 | an empty cache |
| ServerCache.DomainCache.Get | internal/dns/cache.go:52-58 | a hit iff the domain is present, with its record and no expiry check; the zero record on a miss |
| ServerCache.DomainCache.Set | internal/dns/cache.go:60-65 | the domain now holds the answers expiring at `now + ttl` |
| ServerCache.DomainCache.Sweep | internal/dns/cache.go:34-47 | the cache becomes its unexpired entries |
| ServerCache.UnexpiredKept | internal/dns/cache.go:37-45 | after a sweep every cached answer list is still well typed |
| ServerCache.GetWellTyped | internal/dns/cache.go:52-58 | what a valid cache returns has well-typed records |
| ServerCache.SetThenGet | internal/dns/cache.go:52-65 | after `set`, `get` of the same domain returns the answers with their expiry |
| ServerCache.SetLeavesOthers | internal/dns/cache.go:64 | `set` leaves every other domain as it was |
| ServerCache.SweepThenGet | internal/dns/cache.go:34-58 | after a sweep, `get` hits exactly the domains whose entries did not expire before `now` |
| Writer.IndexOfDot | internal/dns/io/writer.go:105 | `strings.Index(s, ".")`: a dot at the index, or the length when there is none |
| Writer.IndexOfDotFirst | internal/dns/io/writer.go:105 | no dot comes before that index |
| Writer.PointerWord | internal/dns/io/writer.go:81-82 | the two tag bits over the offset's low 14 bits |
| Writer.PointerBytes | internal/dns/io/writer.go:81-83 | two bytes: a first byte tagged `11`, and together they carry the offset's low 14 bits |
| Writer.Write | internal/dns/io/writer.go:30-70 | fails iff `pos + n` would pass 512, leaving everything unchanged; otherwise appends exactly the bytes |
| Writer.CachedDomainInvariant | internal/dns/io/writer.go:95-112 | `cacheDomain` keeps the table a map with one offset per suffix |
| Writer.CachedDomainStep | internal/dns/io/writer.go:99-103 | one insertion of a new suffix keeps that invariant |
| Writer.CachedDomainUnfold | internal/dns/io/writer.go:98-111 | one turn of the `cacheDomain` loop and the rest of it |
| Writer.CachedDomainTurn | internal/dns/io/writer.go:98-111 | the loop's table still leads to the final table after one turn |
| Writer.EncodedDomainTurn | internal/dns/io/writer.go:76-90 | one turn of the `formatDomain` loop: a pointer that ends the name, the last piece, or a length byte, a label and the rest |
| Writer.PrefixChain | internal/dns/io/writer.go:36 | appends only: a prefix of a prefix is a prefix |
| Writer.PacketWriter.constructor | internal/dns/io/writer.go:22-28 | empty buffer, position 0, empty table |
| Writer.PacketWriter.WriteUint16 | internal/dns/io/writer.go:30-39 | equals `Write` of the two big-endian bytes; `pos == len(buf) <= 512` is kept |
| Writer.PacketWriter.WriteUint32 | internal/dns/io/writer.go:41-50 | equals `Write` of the four big-endian bytes |
| Writer.PacketWriter.WriteByte | internal/dns/io/writer.go:52-60 | equals `Write` of the one byte |
| Writer.PacketWriter.WriteBytes | internal/dns/io/writer.go:62-70 | equals `Write` of the bytes |
| Writer.EncodedDomain | internal/dns/io/writer.go:72-93 | no contract: the definition is the model; `Writer.PacketWriter.FormatDomain` is proved equal to it |
| Writer.PacketWriter.FormatDomain | internal/dns/io/writer.go:72-93 | the loop gives `EncodedDomain`: suffixes are tried longest first; at the first one in the table a pointer ends the name; otherwise each piece gets a length byte, the empty last piece giving the zero byte |
| Writer.CachedDomain | internal/dns/io/writer.go:95-112 | no contract: the definition is the model; `Writer.PacketWriter.CacheDomain` is proved equal to it |
| Writer.CacheSuffix | internal/dns/io/writer.go:99-103 | no contract: the definition is the model; one turn of cacheDomain's loop; `Writer.PacketWriter.EnterSuffix` is proved equal to it |
| Writer.PacketWriter.CacheDomain | internal/dns/io/writer.go:95-112 | the buffer is unchanged and the table becomes `CachedDomain`: every new non-empty suffix at `pos + len(domain) - len(suffix)` |
| Writer.PacketWriter.EnterSuffix | internal/dns/io/writer.go:99-103 | the loop body: the suffix is entered unless it is empty or already held |
| Writer.WriteDomainSpec | internal/dns/io/writer.go:114-118 | no contract: the definition is the model; `Writer.PacketWriter.WriteDomain` is proved equal to it |
| Writer.PacketWriter.WriteDomain | internal/dns/io/writer.go:114-118 | format against the old table, update the table, then `Write`; on overflow the buffer is unchanged but the table is updated |
| Writer.WriteDomainWithLengthSpec | internal/dns/io/writer.go:120-131 | no contract: the definition is the model; `Writer.PacketWriter.WriteDomainWithLength` is proved equal to it |
| Writer.PacketWriter.WriteDomainWithLength | internal/dns/io/writer.go:120-131 | a 16-bit length equal to the formatted size (mod 2^16), then the table update with offsets after the length field, then the name |
| Writer.PacketWriter.Buffer | internal/dns/io/writer.go:133-135 | the buffer written so far, at most 512 bytes |
| Reader.Take | internal/dns/reader.go:67-75 | fails with `ErrNotEnoughBytes` iff fewer than `n` bytes remain; otherwise the next `n` bytes and `pos + n` |
| Reader.ReadUint16Spec | internal/dns/reader.go:26-35 | fails iff fewer than 2 bytes remain; otherwise the big-endian value and `pos + 2` |
| Reader.ReadUint32Spec | internal/dns/reader.go:37-46 | fails iff fewer than 4 bytes remain; otherwise the big-endian value and `pos + 4` |
| Reader.ReadDomainSpec | internal/dns/reader.go:86-148 | a name read leaves `pos` inside the buffer; its only errors are a short read or, in this model, a pointer loop |
| Reader.DomainFromInBuffer | internal/dns/reader.go:96-119 | the `ReadDomain` loop leaves `pos` within the buffer when it ends with a name |
| Reader.DomainFromErrors | internal/dns/reader.go:103-105 | the loop fails only with `ErrNotEnoughBytes` or the loop cut-off |
| Reader.DomainFromAccumulates | internal/dns/reader.go:143-144 | labels are appended, each with a dot, to the name read so far |
| Reader.PointerModeKeepsPos | internal/dns/reader.go:96-101 | once a pointer is taken, `pos` never moves and its value does not matter |
| Reader.DomainFromFuel | internal/dns/reader.go:90-145 | a larger pointer budget does not change a read that did not hit the budget |
| Reader.SelfPointerScenario | internal/dns/reader.go:111-127 | a pointer to itself is the loop the source never leaves: `PointerLoop` |
| Reader.SelfPointerLoops | internal/dns/reader.go:111-127 | with any budget, the self-pointer runs it out |
| Reader.NewPacketReader | internal/dns/reader.go:19-24 | `ErrInvalidPacketSize` iff shorter than 12 or longer than 512 bytes; otherwise a reader at 0 |
| Reader.PacketReader.constructor | internal/dns/reader.go:23 | a reader over the bytes at position 0 |
| Reader.PacketReader.ReadUint16 | internal/dns/reader.go:26-35 | equals `ReadUint16Spec`; `pos` moves by 2 or not at all |
| Reader.PacketReader.ReadUint32 | internal/dns/reader.go:37-46 | equals `ReadUint32Spec`; `pos` moves by 4 or not at all |
| Reader.PacketReader.ReadByte | internal/dns/reader.go:48-56 | the next byte and `pos + 1`, or `ErrNotEnoughBytes` with `pos` unchanged |
| Reader.PacketReader.ReadByteAt | internal/dns/reader.go:58-65 | the byte at the position, or `ErrNotEnoughBytes` iff it lies outside; `pos` unchanged |
| Reader.PacketReader.ReadBytes | internal/dns/reader.go:67-75 | equals `Take` from `pos`; `pos` moves by `n` or not at all |
| Reader.PacketReader.ReadBytesAt | internal/dns/reader.go:77-84 | equals `Take` at the position; `pos` unchanged |
| Reader.PacketReader.ReadByteFrom | internal/dns/reader.go:96-101 | the `if pointer >= 0` choice: read at the pointer and advance it, or read at `pos` and advance that |
| Reader.PacketReader.ReadBytesFrom | internal/dns/reader.go:132-137 | the same choice for a label |
| Reader.DomainFrom | internal/dns/reader.go:86-148 | no contract: the definition is the model; the loop from any state; `Reader.PacketReader.ReadDomain` is proved equal to it through `Reader.ReadDomainSpec` |
| Reader.PacketReader.ReadDomain | internal/dns/reader.go:86-148 | the loop gives `ReadDomainSpec`: the name or the error, and where `pos` ends |
| SerdeHeader.Bit | internal/dns/serde/header.go:13-18 | `uint16(BoolToUint8(b))`: the flag as the word 0 or 1 |
| SerdeHeader.FlagsWord | internal/dns/serde/header.go:10-23 | no contract: the definition is the model; the flag packing; `SerdeHeader.FlagsRoundTrip` proves `SerdeHeader.FlagsFrom` inverts it |
| SerdeHeader.FlagsFrom | internal/dns/serde/header.go:52-74 | no contract: the definition is the model; the field extraction from bytes 2 and 3; `SerdeHeader.FlagsRoundTrip` proves it inverts `SerdeHeader.FlagsWord` |
| SerdeHeader.HeaderFromBytes | internal/dns/serde/header.go:52-79 | no contract: the definition is the model; `SerdeHeader.UnmarshalHeaderSpec` and `SerdeHeader.HeaderRoundTrip` state what it decodes |
| SerdeHeader.MarshalHeaderSpec | internal/dns/serde/header.go:9-44 | no contract: the definition is the model; `SerdeHeader.MarshalHeader` is proved equal to it |
| SerdeHeader.FlagBytes | internal/dns/serde/header.go:27 | the flag word as two bytes |
| SerdeHeader.HeaderBytes | internal/dns/serde/header.go:25-41 | exactly 12 bytes |
| SerdeHeader.CountsRoundTrip | internal/dns/serde/header.go:25-41 | ID, flags and the four counts sit big-endian at bytes 0-1, 2-3, ..., 10-11 |
| SerdeHeader.UnmarshalHeaderSpec | internal/dns/serde/header.go:46-82 | fails iff fewer than 12 bytes remain; otherwise the header decoded from those 12 bytes |
| SerdeHeader.Bv8RoundTrip | internal/dns/serde/header.go:66-67 | a `uint8` field survives the conversion |
| SerdeHeader.FlagsRoundTrip | internal/dns/serde/header.go:11-23 | for QR <= 1, opcode <= 15 and rcode <= 15, unpacking the flag word gives the flags back |
| SerdeHeader.FlagBytesRead | internal/dns/serde/header.go:53-61 | bytes 2 and 3 are the word's high and low bytes |
| SerdeHeader.HeaderRoundTrip | internal/dns/serde/header.go:9-82 | `unmarshal(marshal(h)) == h` for flags in range |
| SerdeHeader.QueryHeaderScenario | internal/dns/serde/packet_test.go:38-39 | ID 0x1234 with RD and AD and one question encodes to `12 34 01 20 00 01 00 00 00 00 00 00` |
| SerdeHeader.ResponseFlagsScenario | internal/dns/header_test.go:36-56 | flags `81 80` decode to a response with RD and RA and nothing else |
| SerdeHeader.OpcodeOverflowScenario | internal/dns/serde/header.go:12 | opcode 16 overflows into QR |
| SerdeHeader.ZBitIgnored | internal/dns/serde/header.go:58-61 | bit 6 of byte 3 does not affect the header read |
| SerdeHeader.MarshalHeader | internal/dns/serde/header.go:9-44 | one `WriteBytes` of the 12 header bytes |
| SerdeHeader.UnmarshalHeader | internal/dns/serde/header.go:46-82 | equals `UnmarshalHeaderSpec` from `pos`; `pos` advances 12 or the read fails |
| SerdeQuestion.MarshalQuestionSpec | internal/dns/serde/question.go:8-25 | name, type, class, stopping at the first error; only appends and stays within 512 bytes |
| SerdeQuestion.UnmarshalQuestionSpec | internal/dns/serde/question.go:27-50 | name, type, class in that order; only read errors |
| SerdeQuestion.MarshalQuestion | internal/dns/serde/question.go:8-25 | equals `MarshalQuestionSpec` on the writer state |
| SerdeQuestion.UnmarshalQuestion | internal/dns/serde/question.go:27-50 | equals `UnmarshalQuestionSpec` from `pos` |
| SerdeRecord.MarshalRecordSpec | internal/dns/serde/record.go:10-55 | name, type, class and TTL, then the type's payload; only appends, within 512 bytes |
| SerdeRecord.MarshalDataSpec | internal/dns/serde/record.go:31-52 | A/AAAA: length and address; NS/CNAME: `WriteDomainWithLength`; any other type: nothing at all |
| SerdeRecord.UnmarshalRecordSpec | internal/dns/serde/record.go:57-107 | a record with data of its type's kind; other types get no data, and the payload is not skipped |
| SerdeRecord.UnmarshalDataSpec | internal/dns/serde/record.go:90-104 | only the data changes: A/AAAA read `length` bytes, NS/CNAME read a name whatever the length says |
| SerdeRecord.MarshalRecord | internal/dns/serde/record.go:10-55 | equals `MarshalRecordSpec` on the writer state |
| SerdeRecord.UnmarshalRecord | internal/dns/serde/record.go:57-107 | equals `UnmarshalRecordSpec` from `pos` |
| SerdePacket.MarshalQuestionsSpec | internal/dns/serde/packet.go:15-20 | questions in order through the shared writer; only appends |
| SerdePacket.MarshalRecordsSpec | internal/dns/serde/packet.go:22-41 | records in order through the shared writer; only appends |
| SerdePacket.MarshalPacketSpec | internal/dns/serde/packet.go:8-44 | on success 12 to 512 bytes, starting with the header as given, counts unchecked; the only error is `ErrTooManyBytes` |
| SerdePacket.UnmarshalQuestionsSpec | internal/dns/serde/packet.go:59-66 | exactly the declared number of questions; only read errors |
| SerdePacket.UnmarshalRecordsSpec | internal/dns/serde/packet.go:68-93 | exactly the declared number of records, all well typed; only read errors |
| SerdePacket.UnmarshalPacketSpec | internal/dns/serde/packet.go:46-96 | the size error outside 12..512 bytes; on success the header of the first 12 bytes and sections as long as their counts |
| SerdePacket.UnmarshalQuestionsErr | internal/dns/serde/packet.go:60-63 | the first element error ends the whole read |
| SerdePacket.UnmarshalRecordsErr | internal/dns/serde/packet.go:69-72 | the first element error ends the whole read |
| SerdePacket.MarshalQuestionsStop | internal/dns/serde/packet.go:16-19 | the first failure is the outcome |
| SerdePacket.MarshalRecordsStop | internal/dns/serde/packet.go:23-26 | the first failure is the outcome |
| SerdePacket.MarshalQuestions | internal/dns/serde/packet.go:15-20 | the loop gives `MarshalQuestionsSpec` |
| SerdePacket.MarshalRecords | internal/dns/serde/packet.go:22-41 | the loop gives `MarshalRecordsSpec` |
| SerdePacket.MarshalPacket | internal/dns/serde/packet.go:8-44 | equals `MarshalPacketSpec` |
| SerdePacket.UnmarshalQuestions | internal/dns/serde/packet.go:59-66 | the loop gives `UnmarshalQuestionsSpec` |
| SerdePacket.UnmarshalRecords | internal/dns/serde/packet.go:68-75 | the loop gives `UnmarshalRecordsSpec` |
| SerdePacket.UnmarshalPacket | internal/dns/serde/packet.go:46-96 | equals `UnmarshalPacketSpec` |
| NameCompression.Tail | internal/dns/io/writer.go:105-110 | the suffix after the first dot is shorter |
| NameCompression.InvAgrees | internal/dns/io/writer.go:95-112 | the entry-by-entry invariant is the invariant: every entry points back at its name, and the table is suffix-closed |
| NameCompression.TailsHeld | internal/dns/io/writer.go:98-111 | a suffix-closed table holding a name holds all its non-empty suffixes |
| NameCompression.EncodingOfTail | internal/dns/io/writer.go:76-90 | the encoding of a name ends with the encoding of each suffix not held |
| NameCompression.PointerAgreesWithForward | internal/dns/reader.go:96-127 | reading through a pointer gives what reading forward from its target gives |
| NameCompression.PointerDecodes | internal/dns/reader.go:111-127 | a pointer the writer emits sends the reader to the name entered at that offset |
| NameCompression.LabelCaseDecodes | internal/dns/reader.go:130-144 | a length byte and its label, then the rest, read as the label, a dot and the rest |
| NameCompression.NameDecodes | internal/dns/reader.go:86-148 | the encoding of a valid name against the table reads back as the name and ends after it |
| NameCompression.CachedDomainShape | internal/dns/io/writer.go:95-112 | `cacheDomain` only appends new suffix entries and then holds every suffix |
| NameCompression.WriteKeepsInv | internal/dns/io/writer.go:62-70 | later writes do not disturb what the table points at |
| NameCompression.WrittenNameDecodes | internal/dns/io/writer.go:114-118 | the written encoding reads back as the name |
| NameCompression.CachedKeepsInv | internal/dns/io/writer.go:95-118 | the entries `cacheDomain` adds point at their suffixes in the buffer |
| NameCompression.DomainRoundTrip | internal/dns/io/writer.go:114-118 | `ReadDomain` at the offset `WriteDomain` wrote at gives the name back and ends where the write ended; the invariant is kept |
| PacketRoundTrip.Uint16RoundTrip | internal/dns/io/writer.go:30-39 | a 16-bit write is read back by `ReadUint16` |
| PacketRoundTrip.Uint32RoundTrip | internal/dns/io/writer.go:41-50 | a 32-bit write is read back by `ReadUint32` |
| PacketRoundTrip.BytesRoundTrip | internal/dns/io/writer.go:62-70 | raw bytes are read back by `ReadBytes` |
| PacketRoundTrip.QuestionParts | internal/dns/serde/question.go:8-25 | a successful marshal is the three writes in turn |
| PacketRoundTrip.QuestionRoundTrip | internal/dns/serde/question.go:8-50 | unmarshal at the offset marshal wrote at gives the question back |
| PacketRoundTrip.QuestionReadBack | internal/dns/serde/question.go:27-50 | the three reads in turn give the question |
| PacketRoundTrip.DataRoundTrip | internal/dns/serde/record.go:31-52 | the payload of a supported record reads back |
| PacketRoundTrip.AddressRoundTrip | internal/dns/serde/record.go:32-43 | an address payload is its length and then its bytes |
| PacketRoundTrip.AddressReadBack | internal/dns/serde/record.go:91-97 | length, then that many bytes, read as the address |
| PacketRoundTrip.NameDataRoundTrip | internal/dns/serde/record.go:45-51 | an NS/CNAME payload reads back, compressed against earlier names |
| PacketRoundTrip.DomainWithLengthSplits | internal/dns/io/writer.go:120-131 | `WriteDomainWithLength` is the length write followed by `WriteDomain` |
| PacketRoundTrip.NameReadBack | internal/dns/serde/record.go:99-103 | a length and a name read as the NS/CNAME payload |
| PacketRoundTrip.RecordParts | internal/dns/serde/record.go:10-55 | a successful marshal is the writes in turn |
| PacketRoundTrip.RecordRoundTrip | internal/dns/serde/record.go:10-107 | unmarshal gives back an A/AAAA/NS/CNAME record with a valid name |
| PacketRoundTrip.RecordReadBack | internal/dns/serde/record.go:57-107 | the reads in turn give the record |
| PacketRoundTrip.QuestionsRoundTrip | internal/dns/serde/packet.go:15-20 | the question section reads back in order |
| PacketRoundTrip.QuestionsReadBack | internal/dns/serde/packet.go:59-66 | the loop appends in order |
| PacketRoundTrip.RecordsRoundTrip | internal/dns/serde/packet.go:22-41 | a record section reads back in order |
| PacketRoundTrip.RecordsReadBack | internal/dns/serde/packet.go:68-93 | the loop appends in order |
| PacketRoundTrip.OtherTypeDoesNotRoundTrip | internal/dns/serde/record.go:85-104 | a record of another type, alone at the end, fails to unmarshal: the length read runs out of bytes |
| PacketRoundTrip.HeaderReadBack | internal/dns/serde/header.go:46-82 | a header at the start is read back |
| PacketRoundTrip.PacketParts | internal/dns/serde/packet.go:8-44 | a successful marshal is the header then four sections in turn |
| PacketRoundTrip.SectionsReadBack | internal/dns/serde/packet.go:46-96 | the sections read in turn give the packet |
| PacketRoundTrip.PaddedPacketRoundTrip | internal/dns/serde/packet.go:8-96 | a marshalled well-formed packet, followed by any bytes within 512, unmarshals to the packet |
| PacketRoundTrip.PacketRoundTrip | internal/dns/serde/packet.go:8-96 | `UnmarshalPacket(MarshalPacket(p)) == p` for well-formed packets |
| CodecScenarios.FormatCom | internal/dns/io/writer.go:75-90 | "com." against a table without it is `03 63 6f 6d 00` |
| CodecScenarios.FormatGoogle | internal/dns/serde/packet_test.go:42-43 | "google.com." with an empty table is `06 67 6f 6f 67 6c 65 03 63 6f 6d 00` |
| CodecScenarios.GoogleSplits | internal/dns/io/writer.go:75 | the split of "google.com." |
| CodecScenarios.CacheGoogle | internal/dns/io/writer.go:95-112 | writing "google.com." at 12 enters it at 12 and "com." at 19 |
| CodecScenarios.FormatMxGoogle | internal/dns/serde/packet_test.go:91 | "mx.google.com." is then `02 6d 78 c0 0c` |
| CodecScenarios.FormatComCompressed | internal/dns/serde/packet_test.go:145 | "com." is then `c0 13` |
| CodecScenarios.OneQuestionScenario | internal/dns/serde/packet_test.go:13-54 | the one-question packet ("google.com." A IN, ID 0x1234, RD and AD) marshals to its 28 listed bytes, and those bytes, which are also the input of the unmarshal test at line 159, unmarshal back to the packet |
| CodecScenarios.QuestionAInWritten | internal/dns/serde/question.go:8-25 | a question of type A and class IN is written as its name followed by `00 01 00 01` |
| CodecScenarios.ReadMxGoogle | internal/dns/serde/packet_test.go:205-215 | read back after "google.com." at offset 12, `02 6d 78 c0 0c` is "mx.google.com." and leaves `pos` after its 5 bytes |
| Resolver.Received | internal/dns/dns.go:116-122 | the 512-byte receive buffer: the reply, cut to 512 bytes, then zeros |
| Resolver.Udp | internal/dns/dns.go:93-123 | no contract: the definition is the model; `sendQuery` over a byte exchange; `Resolver.UdpSound` and `Resolver.SendQueryReply` state what it returns |
| Resolver.SendQuery | internal/dns/dns.go:93-123 | marshal, exchange, unmarshal: never the size error, and a decoded reply has matching counts and typed records |
| Resolver.UdpSound | internal/dns/dns.go:93-123 | the UDP exchange satisfies what `Lookup` requires of replies, whatever the network does |
| Resolver.SendQueryReply | internal/dns/dns.go:101-122 | a server replying with an encoded well-formed packet is understood exactly |
| Resolver.FirstMatch | internal/dns/dns.go:125-161 | the first selected record: it is selected and none before it is |
| Resolver.FirstMatchAppend | internal/dns/dns.go:65 | searching two lists one after the other finds the first list's match if it has one |
| Resolver.GetIPv4 | internal/dns/dns.go:125-132 | the loop returns the address of the first A record of the owner, or nil and false; `resolveNameServer` (153-161) is the same search |
| Resolver.GetCname | internal/dns/dns.go:134-141 | the target of the first CNAME record of that exact owner, or "" and false |
| Resolver.PickNameServer | internal/dns/dns.go:143-151 | the target of the first NS record, whoever owns it, or "" and false |
| Resolver.ConstructQuery | internal/dns/dns.go:163-179 | a standard query with the given ID < 65535: AA, TC, RD, RA, AD and CD clear, rcode 0, counts matching its one question (domain, A, IN) and empty record sections |
| Resolver.QueryRoundTrip | internal/dns/dns.go:163-179 | a query for a valid name is decoded as sent |
| Resolver.WithCnameAnswers | internal/dns/dns.go:65-66 | answers concatenated, the answer count the two counts' sum mod 2^16 (Go's `uint16 +=`), all else unchanged; when both inputs' counts match, the result's match iff the answers fit 16 bits |
| Resolver.LookupSpec | internal/dns/dns.go:35-91 | from the drawn root server; a result has typed records and matching counts unless the answers overflowed |
| Resolver.LookupFrom | internal/dns/dns.go:43-47 | one exchange; a transport error is returned unchanged |
| Resolver.Handle | internal/dns/dns.go:49-68 | in order: an error code returns the response, then an A record for the name, then a CNAME with a nested lookup whose answers are appended |
| Resolver.Refer | internal/dns/dns.go:70-89 | no NS is `ErrUnableToResolve`; glue is asked next; otherwise a nested lookup of the host, whose address is asked next, or `ErrUnableToResolve` |
| Resolver.LookupFuel | internal/dns/dns.go:43-90 | more fuel does not change a result that did not run out |
| Resolver.LookupFromFuel | internal/dns/dns.go:43-47 | the same for one turn |
| Resolver.HandleFuel | internal/dns/dns.go:49-68 | the same for the response analysis |
| Resolver.ReferFuel | internal/dns/dns.go:70-89 | the same for referrals |
| Resolver.LookupAnswers | internal/dns/dns.go:49-89 | a success always ends on an answer for the name asked: an error code, or its A or CNAME record; referrals are never returned |
| Resolver.LookupFromAnswers | internal/dns/dns.go:43-90 | the same from any address |
| Resolver.HandleAnswers | internal/dns/dns.go:49-68 | the same for the response analysis |
| Resolver.ReferAnswers | internal/dns/dns.go:70-89 | the same for referrals |
| Resolver.ReferralScenario | internal/dns/dns.go:70-77 | a referral with glue is followed: two exchanges give the answer, one runs out |
| Resolver.EmptyAnswerHasErrorCode | internal/dns/dns.go:49-55 | a success without answers ended on an error code |
| Resolver.NxDomainScenario | internal/dns/dns.go:49-51 | an NXDOMAIN reply is the result, without answers |
| Resolver.Lookup | internal/dns/dns.go:35-91 | the loop with its nested lookups gives `LookupSpec`; the address changes, the query does not |
| Resolver.AskServer | internal/dns/dns.go:44-47 | one turn: the result, or the next address with the same continuation |
| Resolver.HandleResponse | internal/dns/dns.go:49-68 | the response analysis agrees with `Handle` |
| Resolver.FollowReferral | internal/dns/dns.go:70-89 | the referral steps agree with `Refer` |
| Server.LookupCache | internal/dns/server.go:71-92 | a hit iff the first question's domain is cached; a hit copies ID, RD, question count and questions, sets response type and RA, leaves other flags zero, gives the cached answers with their count as `uint16` and empty other sections; a miss is the zero packet |
| Server.CachedReplyRoundTrip | internal/dns/server.go:62-67 | a cached reply to a well-formed query is decoded by the client exactly as built |
| Server.RepeatedQueryHits | internal/dns/server.go:45-57 | once answers are cached under the domain, the same question hits with them |
| Server.CacheResponseAsWritten | internal/dns/server.go:52-57 | stores under `Answers[0].Domain` with `Answers[0].Ttl`; panics (`ok` false) exactly when there are no answers |
| Server.CacheResponse | internal/dns/server.go:52-57 | the same insertion, with a reply without answers relayed and not cached |
| Server.Cached | internal/dns/server.go:47-57 | no contract: the definition is the model; the cache after the miss path; `Server.Resolve`, `Server.ResolveAsWritten` and both handlers are proved to leave it |
| Server.Reply | internal/dns/server.go:62-65 | no contract: the definition is the model; the reply after the miss path; `Server.Resolve` and `Server.HandleConnection` are proved to return it |
| Server.Resolve | internal/dns/server.go:47-65 | the miss path with the corrected insertion of "## Findings": the lookup's error, or the encoded response, with its answers cached if it has any |
| Server.HandleConnection | internal/dns/server.go:38-65 | the handler with the corrected insertion: decode errors are returned, a query without a question panics, a hit is encoded without touching the cache, a miss resolves and caches any answers |
| Server.ReplyAsWritten | internal/dns/server.go:47-65 | a successful lookup without answers panics; every other lookup gets the corrected handler's reply |
| Server.NxDomainPanicsAsWritten | internal/dns/server.go:52-57 | the NXDOMAIN reply of `Resolver.NxDomainScenario` makes the handler as written panic |
| Server.ResolveAsWritten | internal/dns/server.go:47-65 | the miss path as written: the lookup's error, `Panic` when it succeeds without answers, else the encoded response with its answers cached |
| Server.HandleConnectionAsWritten | internal/dns/server.go:38-65 | the handler as written: as `Server.HandleConnection`, and a `Panic` comes only from a request without a question or a miss whose lookup succeeds without answers |

## Left out

- `sendQuery`'s socket work is out. The exchange is a function from address and query bytes to an optional reply, and `None` stands for any dial, write, read or short-write failure (`Transport`). `Lookup` runs against the packet-level oracle `Env.send`, which `UdpSound` proves `Udp(exchange)` to be an instance of.
- `rand.Intn` for the root server and for the query ID is out. Both are functions of the name being resolved, in `Env`. Go draws a fresh root and ID on every call; the model gives every lookup of the same name the same root and ID. No lemma relies on this.
- `StartServer`, the UDP read and write in `handleConnection`, `fmt.Println` of packets, and main.go are out. `Server.HandleConnection` goes from the request bytes to the reply bytes.
- The goroutines, tickers, contexts and `sync.RWMutex` of both caches are out, because they concern concurrency. A tick is one call of `Sweep(now)`.
- Wall-clock time is whole seconds. `time.Now()` is the parameter `now`.
- Go maps are entry lists in one iteration order. Where Go's iteration order could matter, the model fixes one order: in `KeyByValue`, and in the order of the sweep's deletions.
- `DnsCache` keys take the source address in printed form as bytes. `net.IP.String()` is not part of this model.
- `Uint16ToBytes`, `Uint32ToBytes` and `BoolToUint8` come from a file that is not part of this model. They are defined as the big-endian encoders that the decoders of internal/utils/bytes.go invert.
- The serde layer's `io.NewPacketReader` is modelled by internal/dns/reader.go, which has the same methods. The io reader file is not part of this model.
- The `String()` methods, internal/utils/diff.go, and the older codec in package dns are out: internal/dns/header.go, packet.go, writer.go, question.go, record.go, domain.go and query.go. They are out because the live path (dns.go, server.go) encodes and decodes only through the serde package.
- Payloads of record types other than A, AAAA, NS and CNAME are not modelled. The writer writes no length for them, and the reader neither skips nor reads them. No round trip is claimed for them, and `OtherTypeDoesNotRoundTrip` shows why.
- Reader.ReadDomainSpec: the source follows compression pointers without bound. The model allows `len(buf) + 1` pointers and then returns `PointerLoop`. That this loses only runs that never end is argued in the comment on `JumpBudget`, not proved.
- Resolver.LookupSpec: the source's loop and recursion are unbounded. Each turn of the loop costs one unit of fuel, and a nested lookup (for a CNAME or a name server's address) starts with the fuel the loop that started it has left. Fuel therefore bounds how deep the chain of exchanges goes, not how many there are. `OutOfFuel` stands for running out. `LookupFuel` proves that fuel only cuts runs short.
- Server.Resolve, Server.HandleConnection: they model the handler with the corrected insertion of "## Findings", so a lookup that succeeds without answers is encoded and relayed; the source panics on `response.Answers[0]` there (internal/dns/server.go:53), which `Server.ResolveAsWritten` and `Server.HandleConnectionAsWritten` model.
- Resolver.LookupSpec and Server.LookupCache require a question. The source panics on `query.Questions[0]` without one, and `Server.HandleConnection` returns `Panic` there before calling them.
- SerdeRecord.MarshalRecordSpec, Resolver.GetIPv4, Resolver.GetCname and Resolver.PickNameServer require each record's data to have its type's kind. The source panics on a failed type assertion otherwise. Records produced by `UnmarshalPacket` always have it, and `Udp` returns `Panic` for other queries.
- PacketRoundTrip.PacketRoundTrip holds only for well-formed packets:
  - flags in range;
  - counts equal to the section lengths;
  - names made of 1-63 byte labels, each followed by a dot;
  - records of supported types.

  Outside these conditions the source does not round-trip: fields overflow, `byte(len)` truncates labels, and names without the final dot lose their terminator.
- Go slices returned by `ReadBytes` alias the buffer. The model copies values, which is invisible because nothing writes through them.

## Findings

| source | as written | input that shows it | evidently intended | confidence | as-written member | corrected member |
|---|---|---|---|---|---|---|
| internal/dns/server.go:52-57 | after a successful `Lookup`, the entry is stored under `response.Answers[0].Domain` with `Answers[0].Ttl` | a query whose resolution ends on an NXDOMAIN reply (rcode 3, no answers), which `Lookup` returns as a success (`Resolver.NxDomainScenario`, `Resolver.EmptyAnswerHasErrorCode`): indexing `Answers[0]` panics, and since `handleConnection` has no `recover` the panic ends the whole server process, so this request and every later one go unanswered | a reply without answers is relayed to the client and not cached | not executed | Server.CacheResponseAsWritten, Server.HandleConnectionAsWritten | Server.CacheResponse, Server.HandleConnection |
