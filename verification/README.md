# Token factory: wire codec and denom keeper

This project models two connected parts of the token factory module and proves
properties of them.

**The wire codec** of `Denom` and `GenesisState`: the encoder that fills one buffer
backwards, the closed-form size, the decoding loops with their 64-bit wrap-around
checks, and the routine that skips unknown fields and groups with a depth counter.
`Wire.Field` is a grammar of protocol buffer fields (the "Message Structure" of the
Protocol Buffers encoding specification) that knows nothing of loops, indices or depth
counters. Skipping, both decoders and the encoder are proved against it in both
directions, so that a round trip, last-one-wins, concatenation and the size bounds
follow from the grammar.

**The denom keeper** as a state machine over a byte store: keys, records, the three
message handlers, genesis import, export and validation. Every run of the byte store
is proved to refine a plain table from names to denoms, using the codec's round trip.

## How the source is modelled

- Bytes are integers below 256, words are bounded integers; conversions, shifts and
  sums that wrap or truncate in Go do so explicitly (`Words.WrapInt`, `Words.ShiftLeft`,
  `Words.ToInt32`). "Or" is defined bit by bit; that or-ing a shifted group equals adding it
  is a lemma, for 64-bit and for 32-bit accumulators.
- A Go slice has an `int` length, so inputs and buffers have at most `MAX_INT` bytes.
  `Fits` says that a buffer of `Size` bytes can be allocated; `Marshal` panics otherwise.
- Decoding functions take the rest of the input and the index it starts at, and say in
  unbounded integers when an index overflows; that the wrapped arithmetic of the loops
  detects exactly this is part of the methods' contracts. The functions return the
  receiver also when they fail: `Unmarshal` leaves decoded fields, and even part of a
  number, in it.
- Functions that decoders and encoders share, and the order and the rules of the keeper, are
  each tied to bytes, tag values and named fields by a lemma that does not call them:
  `KnownSets`, `DenomLayout`, `GenesisLayout`, `KeyLayout`, `LessExact`, `HandlerRules` and the
  error lemmas of `WireErrors`.
- Identical loops that the generator repeats inline (varints, length-delimited reads, text
  and number blocks of the encoder) are one method each. `skipDenom`, `skipGenesis` and
  `skipParams` are the same text and are modelled once, as are the three `encodeVarint`s
  and `sov`s. Texts of error messages are left out, their kinds and arguments are kept.
- `dAtA[:i]` is the buffer together with the bound `i`. Decoders never write to their
  input, so it is a value.
- About the SDK store only this is assumed: get, set and delete on a map, where a present
  but empty value counts as found, and a prefix iterator that visits each key once in
  ascending byte order (`ByteStore.KeysBelow`).
- `MustUnmarshal` panics on an undecodable value; the keeper methods require that the
  values they read decode, and `Keeper.ValidIsReadable` shows that valid stores meet this.

## Model

| member | source | states |
|---|---|---|
| `Words.OrShift` | x/tokenfactory/types/denom.pb.go:428-446 | one turn of a varint loop adds the shifted group modulo the accumulator's width, also when the shift reaches past the width and contributes nothing |
| `Varint.EncodeExact` | x/tokenfactory/types/denom.pb.go:245-299 | the closed form (bitlen(x or 1) + 6) / 7 is the number of bytes the loop writes, 1 to 10 for a uint64, and those bytes stand for x |
| `Varint.SovIsLeast` | x/tokenfactory/types/denom.pb.go:297-299 | the closed form is the least number of 7-bit groups that hold x |
| `Varint.EncodeInto` | x/tokenfactory/types/denom.pb.go:245-255 | the encoding loop fills exactly the range from the returned base to the old offset and nothing else |
| `Varint.RoundTrip` | x/tokenfactory/types/denom.pb.go:245-323 | the decoding loop recovers every uint64 from its encoding, whatever follows |
| `Varint.ReadExact` | x/tokenfactory/types/denom.pb.go:308-322 | reading succeeds exactly on inputs that start with a varint of at most ten bytes; ten continuation bytes overflow, fewer end the input |
| `Varint.VarintAtLeastMinimal` | x/tokenfactory/types/denom.pb.go:297-299 | no accepted varint is shorter than the minimal one, also after truncation to 64 or 32 bits |
| `Varint.ReadUint64` | x/tokenfactory/types/denom.pb.go:308-322 | the loop with its 64-bit or-accumulation computes the varint's value modulo 2^64, in bounds and terminating |
| `Varint.ReadInt32` | x/tokenfactory/types/denom.pb.go:428-446 | the loop that or-s into an int32 field computes the low 32 bits as a signed number |
| `Wire.SkipField` | x/tokenfactory/types/denom.pb.go:590-667 | every index is in bounds, each turn moves forward, the depth never exceeds the index, the tests on wrapped indices detect exactly the true overflows, and the result is that of the skipping function |
| `Wire.SkipExact` | x/tokenfactory/types/denom.pb.go:590-667 | skipping ends after n bytes inside the input if and only if the first n bytes are one complete field with balanced groups |
| `Wire.SkipComplete` | x/tokenfactory/types/denom.pb.go:590-667 | any complete field followed by any bytes is skipped with n equal to its length; inside a group the loop goes on behind it |
| `Wire.SkipBodySound` | x/tokenfactory/types/denom.pb.go:590-667 | with d groups open, successful skipping has run over complete fields, a closing tag, and then continues with d - 1 open |
| `Wire.SkipByWireType` | x/tokenfactory/types/denom.pb.go:590-667 | a tag of wire type 0 is skipped with a varint behind it, 1 with eight bytes, 2 with a length and that many bytes, 5 with four bytes |
| `Wire.SkipGroups` | x/tokenfactory/types/denom.pb.go:590-667 | an opening and a closing tag are skipped together whatever their field numbers, and any complete field may be put into a group |
| `WireErrors.SkipErrors` | x/tokenfactory/types/denom.pb.go:590-667 | skipping returns an error exactly where, behind opened groups and complete fields in them, something stands that cannot be skipped: unreadable varint, illegal wire type, unmatched closing tag, overflow of the index, end of input |
| `Wire.ReadChunk` | x/tokenfactory/types/denom.pb.go:330-363 | the loop for lengths and the tests on wrapped ints compute the length-delimited read, whose payload and errors `WireErrors.ChunkErrors` and `WireErrors.ChunkOf` settle |
| `WireErrors.ChunkErrors` | x/tokenfactory/types/denom.pb.go:330-363 | a length-delimited read is refused exactly if its length is unreadable (too long or cut off), its true end index exceeds the largest int (invalid length), or only the input is too short (unexpected end) |
| `WireErrors.ChunkOf` | x/tokenfactory/types/denom.pb.go:330-363 | with a varint of value n at the front, the payload is the next n bytes if they are there; otherwise overflow and short input give different errors |
| `WireErrors.HeaderErrors` | x/tokenfactory/types/denom.pb.go:308-330 | a tag is refused exactly if it is unreadable, closes a group, or its number is not positive as an int32, in this order of precedence |
| `Wire.SkipUnknown` | x/tokenfactory/types/denom.pb.go:569-581 | an unknown field is skipped from its tag on, and a skip that leaves the input is rejected |
| `WireErrors.UnknownErrors` | x/tokenfactory/types/denom.pb.go:569-581 | an unknown field is refused exactly if it cannot be skipped or announces more bytes than there are |
| `DenomCodec.StepSound` | x/tokenfactory/types/denom.pb.go:306-583 | a successful turn of the decoding loop has consumed one legal field and applied its effect |
| `DenomCodec.DecodeFields` | x/tokenfactory/types/denom.pb.go:303-589 | decoding legal fields followed by anything applies them in order and goes on with the rest |
| `DenomCodec.DecodeLanguage` | x/tokenfactory/types/denom.pb.go:303-589 | Unmarshal leads from m to m' if and only if the input is a sequence of legal fields whose effects lead from m to m' |
| `DecodeErrors.DecodeFailure` | x/tokenfactory/types/denom.pb.go:303-589 | Unmarshal returns error e and leaves m' if and only if the input is a sequence of legal fields and a rest where none stands for reason e, told in bytes and true indices, and m' is the effect of those fields, where one number field may hold the low 32 bits read so far |
| `DecodeErrors.FailingIsStuck` | x/tokenfactory/types/denom.pb.go:303-589 | at such a place no legal field stands, whatever follows |
| `DenomCodec.AcceptanceIgnoresReceiver` | x/tokenfactory/types/denom.pb.go:303-589 | whether an input is accepted does not depend on what the receiver held |
| `DenomCodec.DecodeConcat` | x/tokenfactory/types/denom.pb.go:303-589 | once a is accepted, a + b is accepted exactly when b is accepted into the value a left, with the same result |
| `FieldNumbers.UnknownIgnored` | x/tokenfactory/types/denom.pb.go:323-582 | a field whose tag value carries an unknown number from 10 to 2^31 - 1 changes neither acceptance nor result between accepted inputs |
| `FieldNumbers.KnownSets` | x/tokenfactory/types/denom.pb.go:323-567 | a field of number 1 to 9 sets exactly the field of that name, with its payload, low 32 bits or truth value; with another wire type it is rejected |
| `FieldNumbers.IllegalRejected` | x/tokenfactory/types/denom.pb.go:323-330 | a field whose number is 0 or not positive as an int32 is rejected where it stands, with the signed number in the error |
| `DenomCodec.LastWins` | x/tokenfactory/types/denom.pb.go:324-567 | each of the nine fields ends up with what its last occurrence says, or with what the receiver held |
| `DenomCodec.EncodedSize` | x/tokenfactory/types/denom.pb.go:256-295 | Size is the length of the encoding |
| `DenomCodec.RoundTripDenom` | x/tokenfactory/types/denom.pb.go:162-589 | unmarshalling the encoding of any Denom, negative numbers included, gives back that Denom |
| `DenomCodec.ReencodeBound` | x/tokenfactory/types/denom.pb.go:256-589 | the Size of a decoded message exceeds the input by at most five bytes for each negative number, so not at all without one, and encoding it again decodes to the same message |
| `DenomCodec.NarrowEncoding` | x/tokenfactory/types/denom.pb.go:216-235 | that bound is met for every message: with negative numbers written in 32 bits the input is shorter by five bytes each and decodes to the same message |
| `DenomCodec.MarshalIsShortest` | x/tokenfactory/types/denom.pb.go:177-243 | Marshal writes a shortest input that decodes to d if and only if precision, maxSupply and supply are not negative |
| `DenomMessage.DenomMessage.Size` | x/tokenfactory/types/denom.pb.go:256-295 | computes the length of the encoding |
| `DenomMessage.PutText` | x/tokenfactory/types/denom.pb.go:181-187 | a text block writes key, length and text in front of the old index and nothing else |
| `DenomMessage.DenomMessage.MarshalToSizedBuffer` | x/tokenfactory/types/denom.pb.go:177-243 | returns Size, fills exactly the last Size bytes with the encoding and leaves all other bytes unchanged |
| `DenomMessage.DenomMessage.Marshal` | x/tokenfactory/types/denom.pb.go:162-170 | the new buffer holds the encoding from index 0 on |
| `DenomMessage.DenomLayout` | x/tokenfactory/types/denom.pb.go:177-243 | the encoding byte by byte: nine blocks in ascending order behind the keys 0x0a to 0x4a, default values left out, texts behind their length, negative numbers in 64-bit two's complement |
| `DenomMessage.DenomMessage.UnmarshalField` | x/tokenfactory/types/denom.pb.go:306-583 | one turn of the loop: new receiver, index and error, also when a number is read in part |
| `DenomMessage.DenomMessage.Unmarshal` | x/tokenfactory/types/denom.pb.go:303-589 | every index is in bounds, the loop ends with the index at the end of the input, and receiver and error are those of the decoding function |
| `GenesisCodec.ParamsLanguage` | x/tokenfactory/types/params.pb.go:153-202 | Params accepts exactly the sequences of complete fields with positive numbers |
| `FieldNumbers.ParamsByNumber` | x/tokenfactory/types/params.pb.go:153-202 | Params takes a field exactly if its number is from 1 to 2^31 - 1, without effect on what follows; others are rejected |
| `DecodeErrors.ParamsFailure` | x/tokenfactory/types/params.pb.go:153-202 | Params returns error e if and only if, behind complete fields, something stands that is none for reason e |
| `GenesisCodec.GenesisBytes` | x/tokenfactory/types/genesis.pb.go:124-182 | the encoding starts with an empty params field, and Size is its length for every list |
| `GenesisCodec.GenesisLayout` | x/tokenfactory/types/genesis.pb.go:124-155 | the encoding byte by byte: 0a 00 for an empty list, and for each further element the key 0x12, the length of its encoding and its encoding at the end |
| `GenesisCodec.GenesisLanguage` | x/tokenfactory/types/genesis.pb.go:190-306 | the decoder accepts exactly the sequences of legal fields and appends one element for each field 2, in input order |
| `FieldNumbers.GenesisByNumber` | x/tokenfactory/types/genesis.pb.go:209-303 | by the number in the tag: 2 appends the decoded payload at the end of the list, 1 and unknown ones change nothing, others are rejected; a failing nested message leaves its part in the list |
| `DecodeErrors.GenesisFailure` | x/tokenfactory/types/genesis.pb.go:190-306 | the decoder returns error e and leaves g' if and only if the input is legal fields and a rest that fails for reason e, and g' holds their elements and the part of a nested Denom that failed |
| `GenesisCodec.RoundTripGenesis` | x/tokenfactory/types/genesis.pb.go:109-306 | decoding the encoding gives the same params and the same list in the same order and multiplicity |
| `GenesisMessage.UnmarshalParams` | x/tokenfactory/types/params.pb.go:153-202 | the loop computes the decoding function of Params |
| `GenesisMessage.GenesisMessage.Size` | x/tokenfactory/types/genesis.pb.go:167-182 | the summing loop computes the length of the encoding |
| `GenesisMessage.GenesisMessage.MarshalToSizedBuffer` | x/tokenfactory/types/genesis.pb.go:124-155 | writing the list from last to first into the shrinking prefix never overwrites what is written, and yields exactly the encoding |
| `GenesisMessage.GenesisMessage.Marshal` | x/tokenfactory/types/genesis.pb.go:109-117 | the new buffer holds the encoding from index 0 on |
| `GenesisMessage.GenesisMessage.Unmarshal` | x/tokenfactory/types/genesis.pb.go:190-306 | the loop with its nested Unmarshal calls computes the decoding function, with the partial list on failure |
| `KeeperSpec.KeyExact` | x/tokenfactory/types/key_denom.go:7-24 | names and record keys correspond one to one, and the params key is not below the prefix |
| `KeeperSpec.KeyLayout` | x/tokenfactory/types/key_denom.go:7-24 | the prefix is the text Denom/value/, a record key is the prefix, the name and a slash, and the params key is the text p_tokenfactory |
| `KeeperSpec.PutRefines` | x/tokenfactory/keeper/denom.go:14-21 | storing a record keeps every record under its own name and is a map update on the table |
| `KeeperSpec.DropRefines` | x/tokenfactory/keeper/denom.go:44-54 | removing a record removes exactly that name from the table |
| `KeeperSpec.AbsExact` | x/tokenfactory/keeper/denom.go:24-41 | a lookup in the byte store finds exactly the table's entry, whose Denom field is the name asked for |
| `KeeperSpec.AbsInjective` | x/tokenfactory/keeper/denom.go:14-71 | a valid byte store is determined by its table and the presence of params |
| `KeeperSpec.StepRefines` | x/tokenfactory/keeper/msg_server_denom.go:13-101 | each handler on bytes commutes with the rule on the table, answers the same and keeps the store valid |
| `KeeperSpec.RunRefines` | x/tokenfactory/keeper/msg_server_denom.go:13-101 | for every run of messages the byte store stays valid, stands for the table's state and gives the table's answers |
| `Runs.HandlerRules` | x/tokenfactory/keeper/msg_server_denom.go:13-101 | each answer by its condition, and after a successful create or update the record equals the message in each of the nine fields, after a delete there is none |
| `Runs.RecordAfterRun` | x/tokenfactory/keeper/msg_server_denom.go:13-101 | after any run the record at d equals, field by field, the last successful create or update message for d, is absent if the last success was a delete, and is unchanged without success |
| `Runs.ChangeIsAuthorised` | x/tokenfactory/keeper/msg_server_denom.go:13-101 | a record changes only by a successful message for its name, and an existing one only by its owner |
| `Runs.RunProjection` | x/tokenfactory/keeper/msg_server_denom.go:13-101 | the record at d and the answers to messages for d are those of the run of these messages alone |
| `Runs.OwnerStable` | x/tokenfactory/keeper/msg_server_denom.go:44-101 | until d is deleted it keeps its owner, creates of d fail, and an update or delete of d succeeds exactly when its owner sends it |
| `ImportExport.ImportRefines` | x/tokenfactory/module/genesis.go:11-20 | import keeps the store valid, writes params and lays the list over the table, later entries over earlier ones |
| `ImportExport.ImportLastWins` | x/tokenfactory/module/genesis.go:11-20 | after an import the record of a name is the last entry for it in the list, or what it was before |
| `ByteStore.LessExact` | x/tokenfactory/keeper/denom.go:57-71 | the order of the iterator is the byte order: at the first difference the one that has ended or has the smaller byte comes first |
| `ImportExport.AllRecordsExact` | x/tokenfactory/keeper/denom.go:57-71 | GetAllDenom lists each entry of the table exactly once and nothing else, in ascending order of the names followed by byte 47, told by the first difference |
| `ImportExport.ExportImport` | x/tokenfactory/module/genesis.go:11-31 | importing an export on the empty store rebuilds the same byte store, params included |
| `ImportExport.ExportImportReachable` | x/tokenfactory/module/genesis.go:11-31 | this holds for every store reached from a genesis by messages, and its export passes validation |
| `ImportExport.ExportMarshalImport` | x/tokenfactory/module/genesis.go:11-31 | it also holds when the export goes through the genesis codec |
| `ImportExport.ImportOrder` | x/tokenfactory/module/genesis.go:11-20 | permutations of a list of distinct names import to the same store |
| `ImportExport.ImportExportPermutes` | x/tokenfactory/module/genesis.go:11-31 | import followed by export permutes the list if and only if its names are distinct |
| `Keeper.Keeper.SetDenom` | x/tokenfactory/keeper/denom.go:14-21 | stores the encoding of the record under the key of its name and changes nothing else |
| `Keeper.Keeper.GetDenom` | x/tokenfactory/keeper/denom.go:24-41 | reports found exactly if the key is present, and then the decoded record |
| `Keeper.Keeper.RemoveDenom` | x/tokenfactory/keeper/denom.go:44-54 | deletes that one key |
| `Keeper.Keeper.GetAllDenom` | x/tokenfactory/keeper/denom.go:57-71 | the iterator loop collects the decoded records in key order; on a valid store they ascend by name and slash and are exactly the records that lookups find |
| `Keeper.Keeper.CreateDenom` | x/tokenfactory/keeper/msg_server_denom.go:13-42 | refuses a taken name and otherwise stores each of the nine fields of the message under its own name, on bytes and on the table |
| `Keeper.Keeper.UpdateDenom` | x/tokenfactory/keeper/msg_server_denom.go:44-76 | refuses a missing name or a wrong owner and otherwise replaces the record by the nine fields of the message |
| `Keeper.Keeper.DeleteDenom` | x/tokenfactory/keeper/msg_server_denom.go:78-101 | refuses a missing name or a wrong owner and otherwise removes the record |
| `Keeper.Keeper.InitGenesis` | x/tokenfactory/module/genesis.go:11-20 | the importing loop and the params entry |
| `Keeper.Keeper.ExportGenesis` | x/tokenfactory/module/genesis.go:23-31 | params and all records of the store, in ascending order on a valid store |
| `Keeper.ValidIsReadable` | x/tokenfactory/keeper/denom.go:24-71 | on a valid store no keeper operation meets a value that does not decode |
| `Keeper.Validate` | x/tokenfactory/types/genesis.go:21-35 | accepts a genesis if and only if the names in its list are pairwise distinct |

## Left out

- DenomCodec.RoundTripDenom: for messages whose encoding fits a Go slice, since Marshal cannot allocate a longer one; the same for GenesisCodec.RoundTripGenesis.
- DenomCodec.ReencodeBound: the unconditional claim that re-encoding never grows does not hold, a negative number can come in six bytes (tag and five) and go out in eleven; NarrowEncoding and MarshalIsShortest give the exact condition.
- Keeper.Keeper.SetDenom: for records that can be marshalled, and messages are restricted to those; a longer one makes the marshaller panic, and what the SDK does then is not modelled.
- Elements of a decoded genesis list are values: the element that Unmarshal fills in place is a separate message whose contents are appended.
- Differences between nil and empty slices, nil receivers, and the getters.
- The handlers copy supply, maxSupply and canChangeMaxSupply unchecked, so nothing relates these fields.
- UpdateParams with its authority check: Params is empty, so it can only rewrite the same entry.
- JSON, bech32 address checks, gas, events, logging, codec registration, queries and pagination, simulation.
- The generated code under api/, the medasdigital module, app wiring, IBC, wasm, upgrades and commands.
