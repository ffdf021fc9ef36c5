# Kopi wire codec and moving average: a verified model

The chain keeps its denomination parameters, genesis state and governance messages in
Protocol Buffers. For every message a generated file holds three closures: `size` predicts
the encoded length, `marshal` fills a buffer of that length backwards, `unmarshal` parses
into an existing object with an index and inlined varint loops, keeping the records it
does not know. This project models these closures and proves that they form a codec, and
it proves the properties of the fixed-point moving average in `utils/math.go`.

## Layout

| file | content |
|---|---|
| `wire.dfy`, `wire_laws.dfy`, `bits.dfy` | bytes, errors, varints, length prefixes, record lengths; or, shift and bit length on uint64 |
| `codec.dfy` | messages as values; size, forward encoding and decoding for any schema |
| `lexing.dfy`, `decoding.dfy` | one record, its tag and its errors; concatenation, failures, order independence, discarded records |
| `records.dfy`, `skip_errors.dfy` | record trees; which inputs skipping accepts, and which error it reports where |
| `fields.dfy`, `layout.dfy` | what an input means and what an encoding is, field number by field number, without a schema |
| `sizes.dfy`, `roundtrip.dfy` | size laws, round trip and merging |
| `compatibility.dfy`, `evolution.dfy` | readers that lack fields of a message, and readers that lack fields at any level |
| `reader.dfy`, `writer.dfy` | the parsing loops and backward writes that the generated code repeats inline, once each |
| `params.dfy`, `genesis.dfy`, `query.dfy`, `tx.dfy`, `dex.dfy`, `trade.dfy`, `loans.dfy` | one class per message, with the methods `Size`, `Marshal`, `Unmarshal` |
| `end_to_end.dfy`, `single_records.dfy` | objects sent over the wire; inputs of one record, whole or broken |
| `moving_average.dfy` | the moving average |

A class has the fields of the generated struct. `Value()` is its content as a `Message`,
fields in field-number order. `Size`, `Marshal` and `Unmarshal` are proved against the
functions of `codec.dfy`, which take the message's schema (`PARAMS`, `K_COIN`, ...). In
addition `Marshalled` and `ReadFrom` say for each class, without `Value()` and the schema,
which variable stands under which tag byte and is set from which field number. The
laws are about these functions and hold for every schema: a list of field kinds by number,
with gaps for numbers not in use. The kinds are strings and byte strings, repeated strings,
uint64 and int64 (as its 64 bits), bool, sub-messages and repeated sub-messages, which are
all that the proto files of the repository use. The laws that involve encoding (round
trip, merging, normal form, old readers) also need every field number to be below 16
(`Narrow`), so that a tag is one byte; no proto file of the repository has a larger number.

## Assumptions

- `runtime.Sov`, `runtime.EncodeVarint` and `runtime.Skip` of github.com/cosmos/cosmos-proto
  are not part of the repository. The gogoproto files of the same messages hold their
  twins, such as lines 120-130, 143-145 and 218-295 of
  x/dex/types/liquidity_next_index.pb.go, and they are modelled as those. `Skip` counts open
  groups and does not compare the field numbers of group tags; it returns a length that may
  lie past the end, which the caller checks.
- `options.Size`, `options.Marshal` and `options.Unmarshal` call the nested message's own
  closures; the discard flag is handed down.
- Go `int` has 64 bits and wraps, a slice is shorter than 2^63, and a message whose size
  exceeds an int cannot be marshalled: hence the bounds on sizes and inputs.
- A string or byte field is a byte sequence, nil is the empty one, and lists hold no nil.
- `LegacyDec` of cosmossdk.io/math is an integer scaled by 10^18. `Mul` and `Quo` round half
  to even on the magnitude; `Quo` first divides toward zero at double precision.
- Errors are modelled with the values in their messages. Where a length does not fit, the
  error is invalid length or unexpected end depending on whether the absolute index would
  still fit an int, as in the code.

## Results where the code surprises

- A field number is truncated to int32, so a record with a number that the schema does not
  have is not always kept: its tag can stand for a known field (`AliasedFieldNumber`) or be
  refused. `AcceptedTags` and `BranchOfTag` say for all tags which branch they take,
  `KeptVerbatim` and `UnknownTrees` exactly when records are kept. The other laws hold
  nevertheless.
- The check `iNdEx > l` after the decoding loop can never fire: every pass keeps the index
  within the buffer.
- The moving average need not arrive at a constant target: `NeverReachesZero` is an input,
  `ReachesTargetExactly` the exact condition for all inputs, and `Converges` says where every
  run ends instead.

## Model

| member | source | states |
|---|---|---|
| `Wire.ScanVarint` | api/kopi/dex/liquidity_next_index.pulsar.go:370-383 | a varint ends at a byte below 0x80, at most 10 bytes on; otherwise the error is overflow when 10 bytes are there and unexpected end when fewer are |
| `WireLaws.ScanStopsFirst` | api/kopi/dex/liquidity_next_index.pulsar.go:370-383 | the varint read ends at the first byte below 0x80, and fails only when all bytes it may look at are continuations |
| `WireLaws.VarintRoundTrip` | api/kopi/dex/liquidity_next_index.pulsar.go:311-315 | every uint64, written as its minimal varint and followed by anything, reads back as itself and takes exactly Sov bytes |
| `WireLaws.VarintNotLonger` | api/kopi/dex/liquidity_next_index.pulsar.go:279-281 | no accepted encoding of a value is shorter than its minimal varint |
| `WireLaws.SovMinimal` | api/kopi/dex/liquidity_next_index.pulsar.go:279-281 | the predicted varint length is at most k exactly when the value is below 128^k |
| `WireLaws.SovSubadditive` | api/kopi/denominations/genesis.pulsar.go:285-288 | one length prefix over two joined payloads is never longer than the two prefixes |
| `WireLaws.ReadsVarints` | api/kopi/dex/liquidity_next_index.pulsar.go:370-383 | only varints are read, at most ten bytes of which the last alone is below 0x80; the errors are those of an input that starts with none |
| `WireLaws.GoInt32` | api/kopi/denominations/params.pulsar.go:425-425 | the int32 of a field number is the one congruent to it modulo 2^32 |
| `WireLaws.GoInt64` | api/kopi/denominations/params.pulsar.go:453-453 | the int of a length is the one congruent to it modulo 2^64 |
| `WireLaws.GoSum` | api/kopi/denominations/params.pulsar.go:457-457 | a sum of ints wraps to the one int congruent to it modulo 2^64 |
| `Bits.SovIsBitLength` | x/dex/types/liquidity_next_index.pb.go:143-145 | the predicted varint length is the bit length of x with its lowest bit set, rounded up to groups of seven, for every x |
| `Bits.OrDisjoint` | api/kopi/denominations/params.pulsar.go:410-424 | or-ing a shifted group into lower bits adds it |
| `Bits.AccumulateGroup` | api/kopi/denominations/params.pulsar.go:410-424 | one pass of the shift-and-or loop turns the base-128 sum of the groups so far, modulo 2^64, into that of one group more, for all ten shifts, the last of which keeps one bit |
| `Reader.DecodeVarint` | api/kopi/denominations/params.pulsar.go:410-424 | the inlined loop: value is the base-128 sum modulo 2^64, index moves by the varint length, or the exact error |
| `Reader.ReadTag` | api/kopi/denominations/params.pulsar.go:425-432 | end-group and non-positive field numbers (after truncation to int32) are the decoder's outcome; otherwise the header read agrees with the specification |
| `Reader.ReadLength` | api/kopi/denominations/params.pulsar.go:438-463 | with wrapping 64-bit ints the three guards accept exactly the lengths that lie in the buffer, and reject the others with the exact error |
| `Reader.ReadPayload` | api/kopi/denominations/params.pulsar.go:434-465 | wrong wire type, bad length or truncated payload end decoding with that error; otherwise the record is exactly the slice found |
| `Reader.ReadScalar` | api/kopi/dex/liquidity_next_index.pulsar.go:365-383 | a varint field: wire type check and the value with its end |
| `Reader.PassVarint` | x/dex/types/liquidity_next_index.pb.go:241-252 | a varint whose value is not needed: index moves by its length, or the exact error |
| `Reader.SkipPass` | x/dex/types/liquidity_next_index.pb.go:223-286 | one pass of the skipping loop, index and lengths wrapping like Go ints, against the specified step |
| `Reader.SkipLoop` | x/dex/types/liquidity_next_index.pb.go:218-295 | the loop of skip returns the specified record length or its exact error, and the length is a non-negative Go int |
| `Reader.SkipRecord` | api/kopi/denominations/params.pulsar.go:534-549 | the default branch: the skipped slice is the whole record from its tag on, and the wrapping guards reject exactly what does not fit |
| `Writer.EncodeVarint` | x/dex/types/liquidity_next_index.pb.go:120-130 | the loop writes the groups of the minimal varint so that it ends just before the offset; everything before it and from the offset on is untouched |
| `Writer.PutRecord` | api/kopi/denominations/params.pulsar.go:365-369 | payload, length and tag written backwards form the forward record in front of what was there |
| `Writer.PutBytes` | api/kopi/denominations/params.pulsar.go:364-370 | a singular string or bytes field, omitted when empty; the buffer stays the tail of the forward encoding |
| `Writer.PutStrings` | api/kopi/denominations/params.pulsar.go:1045-1053 | a repeated string field, last element first, empty strings kept |
| `Writer.PutUint64` | api/kopi/dex/liquidity_next_index.pulsar.go:311-315 | a uint64 field, omitted when zero |
| `Writer.PutBool` | api/kopi/dex/tx.pulsar.go:6406-6415 | a bool field, omitted when false and written as 1 |
| `Writer.Allocate` | api/kopi/denominations/params.pulsar.go:354-363 | the buffer has exactly Size(x) bytes and starts with the unknown records at its end |
| `Writer.SizeRepeated` | api/kopi/denominations/params.pulsar.go:977-982 | every string of a list counts, empty ones too |
| `DenominationsParams.DexDenom.Size` | api/kopi/denominations/params.pulsar.go:310-342 | the size loop computes the size of the object's value |
| `DenominationsParams.DexDenom.Marshal` | api/kopi/denominations/params.pulsar.go:344-394 | the backward writer fills the buffer from its end to exactly index 0 with the forward encoding, and appends it to the given buffer; tag byte by tag byte, each variable stands under its own number (1 name, 2 factor, 3 min_liquidity) and is left out as the source says |
| `DenominationsParams.DexDenom.UnmarshalField` | api/kopi/denominations/params.pulsar.go:433-550 | one record: the field switch applies it to the object in place, or fails with the decoder's error |
| `DenominationsParams.DexDenom.Unmarshal` | api/kopi/denominations/params.pulsar.go:395-557 | decoding into the object ends with the specified message in it, or with the specified error; on success each variable is made from the records of its own number (1 name, 2 factor, 3 min_liquidity) and the old value, and the other records are kept in order or dropped |
| `DenominationsParams.KCoin.Size` | api/kopi/denominations/params.pulsar.go:960-1002 | the size loop computes the size of the object's value |
| `DenominationsParams.KCoin.Marshal` | api/kopi/denominations/params.pulsar.go:1004-1070 | the backward writer fills the buffer from its end to exactly index 0 with the forward encoding, and appends it to the given buffer; tag byte by tag byte, each variable stands under its own number (1 denom, 2 references, 3 max_supply, 4 max_mint_amount, 5 max_burn_amount) and is left out as the source says |
| `DenominationsParams.KCoin.UnmarshalField` | api/kopi/denominations/params.pulsar.go:1109-1292 | one record: the field switch applies it to the object in place, or fails with the decoder's error |
| `DenominationsParams.KCoin.Unmarshal` | api/kopi/denominations/params.pulsar.go:1071-1299 | decoding into the object ends with the specified message in it, or with the specified error; on success each variable is made from the records of its own number (1 denom, 2 references, 3 max_supply, 4 max_mint_amount, 5 max_burn_amount) and the old value, and the other records are kept in order or dropped |
| `DenominationsParams.CollateralDenom.Size` | api/kopi/denominations/params.pulsar.go:1604-1636 | the size loop computes the size of the object's value |
| `DenominationsParams.CollateralDenom.Marshal` | api/kopi/denominations/params.pulsar.go:1638-1688 | the backward writer fills the buffer from its end to exactly index 0 with the forward encoding, and appends it to the given buffer; tag byte by tag byte, each variable stands under its own number (1 denom, 2 ltv, 3 max_deposit) and is left out as the source says |
| `DenominationsParams.CollateralDenom.UnmarshalField` | api/kopi/denominations/params.pulsar.go:1727-1844 | one record: the field switch applies it to the object in place, or fails with the decoder's error |
| `DenominationsParams.CollateralDenom.Unmarshal` | api/kopi/denominations/params.pulsar.go:1689-1851 | decoding into the object ends with the specified message in it, or with the specified error; on success each variable is made from the records of its own number (1 denom, 2 ltv, 3 max_deposit) and the old value, and the other records are kept in order or dropped |
| `DenominationsParams.CAsset.Size` | api/kopi/denominations/params.pulsar.go:2198-2238 | the size loop computes the size of the object's value |
| `DenominationsParams.CAsset.Marshal` | api/kopi/denominations/params.pulsar.go:2240-2304 | the backward writer fills the buffer from its end to exactly index 0 with the forward encoding, and appends it to the given buffer; tag byte by tag byte, each variable stands under its own number (1 name, 2 base_denom, 3 dex_fee_share, 4 borrow_limit, 5 minimum_loan_size) and is left out as the source says |
| `DenominationsParams.CAsset.UnmarshalField` | api/kopi/denominations/params.pulsar.go:2343-2526 | one record: the field switch applies it to the object in place, or fails with the decoder's error |
| `DenominationsParams.CAsset.Unmarshal` | api/kopi/denominations/params.pulsar.go:2305-2533 | decoding into the object ends with the specified message in it, or with the specified error; on success each variable is made from the records of its own number (1 name, 2 base_denom, 3 dex_fee_share, 4 borrow_limit, 5 minimum_loan_size) and the old value, and the other records are kept in order or dropped |
| `DenominationsParams.Params.Size` | api/kopi/denominations/params.pulsar.go:3103-3147 | the size loop computes the size of the object's value |
| `DenominationsParams.Params.Marshal` | api/kopi/denominations/params.pulsar.go:3149-3242 | the backward writer fills the buffer from its end to exactly index 0 with the forward encoding, and appends it to the given buffer; tag byte by tag byte, each variable stands under its own number (1 dex_denoms, 2 k_coins, 3 c_assets, 4 collateral_denoms) and is left out as the source says |
| `DenominationsParams.Params.PutDexDenoms` | api/kopi/denominations/params.pulsar.go:3217-3232 | the backward loop over DexDenoms |
| `DenominationsParams.Params.PutKCoins` | api/kopi/denominations/params.pulsar.go:3201-3216 | the backward loop over KCoins |
| `DenominationsParams.Params.PutCAssets` | api/kopi/denominations/params.pulsar.go:3185-3200 | the backward loop over CAssets |
| `DenominationsParams.Params.PutCollateralDenoms` | api/kopi/denominations/params.pulsar.go:3169-3184 | the backward loop over CollateralDenoms |
| `DenominationsParams.Params.AppendDexDenom` | api/kopi/denominations/params.pulsar.go:3311-3314 | a new DexDenom is appended and decoded into; nothing else changes |
| `DenominationsParams.Params.AppendKCoin` | api/kopi/denominations/params.pulsar.go:3345-3348 | the same for KCoins |
| `DenominationsParams.Params.AppendCAsset` | api/kopi/denominations/params.pulsar.go:3379-3382 | the same for CAssets |
| `DenominationsParams.Params.AppendCollateralDenom` | api/kopi/denominations/params.pulsar.go:3413-3416 | the same for CollateralDenoms |
| `DenominationsParams.Params.UnmarshalField` | api/kopi/denominations/params.pulsar.go:3281-3434 | one record: the field switch applies it to the object in place, or fails with the decoder's error |
| `DenominationsParams.Params.Unmarshal` | api/kopi/denominations/params.pulsar.go:3243-3441 | decoding into the object ends with the specified message in it, or with the specified error; on success each variable is made from the records of its own number (1 dex_denoms, 2 k_coins, 3 c_assets, 4 collateral_denoms) and the old value, and the other records are kept in order or dropped |
| `DenominationsGenesis.GenesisState.Size` | api/kopi/denominations/genesis.pulsar.go:272-296 | the size loop computes the size of the object's value |
| `DenominationsGenesis.GenesisState.Marshal` | api/kopi/denominations/genesis.pulsar.go:298-341 | the backward writer fills the buffer from its end to exactly index 0 with the forward encoding, and appends it to the given buffer; tag byte by tag byte, each variable stands under its own number (1 params) and is left out as the source says |
| `DenominationsGenesis.GenesisState.MergeParams` | api/kopi/denominations/genesis.pulsar.go:410-416 | the Params object is allocated only when absent, then decoded into in place |
| `DenominationsGenesis.GenesisState.UnmarshalField` | api/kopi/denominations/genesis.pulsar.go:380-433 | one record: the field switch applies it to the object in place, or fails with the decoder's error |
| `DenominationsGenesis.GenesisState.Unmarshal` | api/kopi/denominations/genesis.pulsar.go:342-440 | decoding into the object ends with the specified message in it, or with the specified error; on success each variable is made from the records of its own number (1 params) and the old value, and the other records are kept in order or dropped |
| `DenominationsQuery.QueryParamsRequest.Size` | api/kopi/denominations/query.pulsar.go:249-269 | the size loop computes the size of the object's value |
| `DenominationsQuery.QueryParamsRequest.Marshal` | api/kopi/denominations/query.pulsar.go:271-300 | the backward writer fills the buffer from its end to exactly index 0 with the forward encoding, and appends it to the given buffer |
| `DenominationsQuery.QueryParamsRequest.UnmarshalField` | api/kopi/denominations/query.pulsar.go:339-356 | one record: the field switch applies it to the object in place, or fails with the decoder's error |
| `DenominationsQuery.QueryParamsRequest.Unmarshal` | api/kopi/denominations/query.pulsar.go:301-363 | decoding into the object ends with the specified message in it, or with the specified error; on success every record is kept or dropped |
| `DenominationsQuery.QueryParamsResponse.Size` | api/kopi/denominations/query.pulsar.go:630-654 | the size loop computes the size of the object's value |
| `DenominationsQuery.QueryParamsResponse.Marshal` | api/kopi/denominations/query.pulsar.go:656-699 | the backward writer fills the buffer from its end to exactly index 0 with the forward encoding, and appends it to the given buffer; tag byte by tag byte, each variable stands under its own number (1 params) and is left out as the source says |
| `DenominationsQuery.QueryParamsResponse.MergeParams` | api/kopi/denominations/query.pulsar.go:768-774 | the same for the query response |
| `DenominationsQuery.QueryParamsResponse.UnmarshalField` | api/kopi/denominations/query.pulsar.go:738-791 | one record: the field switch applies it to the object in place, or fails with the decoder's error |
| `DenominationsQuery.QueryParamsResponse.Unmarshal` | api/kopi/denominations/query.pulsar.go:700-798 | decoding into the object ends with the specified message in it, or with the specified error; on success each variable is made from the records of its own number (1 params) and the old value, and the other records are kept in order or dropped |
| `DenominationsTx.MsgUpdateParamsResponse.Size` | api/kopi/denominations/tx.pulsar.go:249-269 | the size loop computes the size of the object's value |
| `DenominationsTx.MsgUpdateParamsResponse.Marshal` | api/kopi/denominations/tx.pulsar.go:271-300 | the backward writer fills the buffer from its end to exactly index 0 with the forward encoding, and appends it to the given buffer |
| `DenominationsTx.MsgUpdateParamsResponse.UnmarshalField` | api/kopi/denominations/tx.pulsar.go:339-356 | one record: the field switch applies it to the object in place, or fails with the decoder's error |
| `DenominationsTx.MsgUpdateParamsResponse.Unmarshal` | api/kopi/denominations/tx.pulsar.go:301-363 | decoding into the object ends with the specified message in it, or with the specified error; on success every record is kept or dropped |
| `DenominationsTx.MsgAddKCoin.Size` | api/kopi/denominations/tx.pulsar.go:1989-2043 | the size loop computes the size of the object's value |
| `DenominationsTx.MsgAddKCoin.Marshal` | api/kopi/denominations/tx.pulsar.go:2045-2132 | the backward writer fills the buffer from its end to exactly index 0 with the forward encoding, and appends it to the given buffer; tag byte by tag byte, each variable stands under its own number (1 authority, 2 denom, 3 references, 4 max_supply, 5 max_mint_amount, 6 max_burn_amount, 7 factor, 8 min_liquidity) and is left out as the source says |
| `DenominationsTx.MsgAddKCoin.UnmarshalUpperField` | api/kopi/denominations/tx.pulsar.go:2300-2444 | fields 5 to 8 and unknown records |
| `DenominationsTx.MsgAddKCoin.UnmarshalField` | api/kopi/denominations/tx.pulsar.go:2171-2444 | one record: the field switch applies it to the object in place, or fails with the decoder's error |
| `DenominationsTx.MsgAddKCoin.Unmarshal` | api/kopi/denominations/tx.pulsar.go:2133-2451 | decoding into the object ends with the specified message in it, or with the specified error; on success each variable is made from the records of its own number (1 authority, 2 denom, 3 references, 4 max_supply, 5 max_mint_amount, 6 max_burn_amount, 7 factor, 8 min_liquidity) and the old value, and the other records are kept in order or dropped |
| `DenominationsTx.MsgAddCAsset.Size` | api/kopi/denominations/tx.pulsar.go:7408-7456 | the size loop computes the size of the object's value |
| `DenominationsTx.MsgAddCAsset.Marshal` | api/kopi/denominations/tx.pulsar.go:7458-7536 | the backward writer fills the buffer from its end to exactly index 0 with the forward encoding, and appends it to the given buffer; tag byte by tag byte, each variable stands under its own number (1 authority, 2 name, 3 base_denom, 4 dex_fee_share, 5 factor, 6 min_liquidity, 7 borrow_limit) and is left out as the source says |
| `DenominationsTx.MsgAddCAsset.UnmarshalUpperField` | api/kopi/denominations/tx.pulsar.go:7704-7816 | fields 5 to 7 and unknown records |
| `DenominationsTx.MsgAddCAsset.UnmarshalField` | api/kopi/denominations/tx.pulsar.go:7575-7816 | one record: the field switch applies it to the object in place, or fails with the decoder's error |
| `DenominationsTx.MsgAddCAsset.Unmarshal` | api/kopi/denominations/tx.pulsar.go:7537-7823 | decoding into the object ends with the specified message in it, or with the specified error; on success each variable is made from the records of its own number (1 authority, 2 name, 3 base_denom, 4 dex_fee_share, 5 factor, 6 min_liquidity, 7 borrow_limit) and the old value, and the other records are kept in order or dropped |
| `Dex.LiquidityNextIndex.Size` | api/kopi/dex/liquidity_next_index.pulsar.go:266-289 | the size loop computes the size of the object's value |
| `Dex.LiquidityNextIndex.Marshal` | api/kopi/dex/liquidity_next_index.pulsar.go:291-325 | the backward writer fills the buffer from its end to exactly index 0 with the forward encoding, and appends it to the given buffer; tag byte by tag byte, each variable stands under its own number (1 next) and is left out as the source says |
| `Dex.LiquidityNextIndex.UnmarshalField` | api/kopi/dex/liquidity_next_index.pulsar.go:364-400 | one record: the field switch applies it to the object in place, or fails with the decoder's error |
| `Dex.LiquidityNextIndex.Unmarshal` | api/kopi/dex/liquidity_next_index.pulsar.go:326-407 | decoding into the object ends with the specified message in it, or with the specified error; on success each variable is made from the records of its own number (1 next) and the old value, and the other records are kept in order or dropped |
| `Dex.DiscountLevel.Size` | api/kopi/dex/discount_level.pulsar.go:289-317 | the size loop computes the size of the object's value |
| `Dex.DiscountLevel.Marshal` | api/kopi/dex/discount_level.pulsar.go:319-362 | the backward writer fills the buffer from its end to exactly index 0 with the forward encoding, and appends it to the given buffer; tag byte by tag byte, each variable stands under its own number (1 trade_amount, 2 discount) and is left out as the source says |
| `Dex.DiscountLevel.UnmarshalField` | api/kopi/dex/discount_level.pulsar.go:401-486 | one record: the field switch applies it to the object in place, or fails with the decoder's error |
| `Dex.DiscountLevel.Unmarshal` | api/kopi/dex/discount_level.pulsar.go:363-493 | decoding into the object ends with the specified message in it, or with the specified error; on success each variable is made from the records of its own number (1 trade_amount, 2 discount) and the old value, and the other records are kept in order or dropped |
| `DexTrade.MsgTrade.Size` | api/kopi/dex/tx.pulsar.go:6341-6384 | the size loop computes the size of the object's value |
| `DexTrade.MsgTrade.Marshal` | api/kopi/dex/tx.pulsar.go:6386-6460 | the backward writer fills the buffer from its end to exactly index 0 with the forward encoding, and appends it to the given buffer; tag byte by tag byte, each variable stands under its own number (1 creator, 2 denom_from, 3 denom_to, 4 amount, 5 max_price, 6 allow_incomplete) and is left out as the source says |
| `DexTrade.MsgTrade.UnmarshalField` | api/kopi/dex/tx.pulsar.go:6499-6696 | one record: the field switch applies it to the object in place, or fails with the decoder's error |
| `DexTrade.MsgTrade.Unmarshal` | api/kopi/dex/tx.pulsar.go:6461-6703 | decoding into the object ends with the specified message in it, or with the specified error; on success each variable is made from the records of its own number (1 creator, 2 denom_from, 3 denom_to, 4 amount, 5 max_price, 6 allow_incomplete) and the old value, and the other records are kept in order or dropped |
| `DexTrade.MsgTradeResponse.Size` | api/kopi/dex/tx.pulsar.go:6987-7013 | the size loop computes the size of the object's value |
| `DexTrade.MsgTradeResponse.Marshal` | api/kopi/dex/tx.pulsar.go:7015-7054 | the backward writer fills the buffer from its end to exactly index 0 with the forward encoding, and appends it to the given buffer; tag byte by tag byte, each variable stands under its own number (1 amount_used, 2 amount_received) and is left out as the source says |
| `DexTrade.MsgTradeResponse.UnmarshalField` | api/kopi/dex/tx.pulsar.go:7093-7148 | one record: the field switch applies it to the object in place, or fails with the decoder's error |
| `DexTrade.MsgTradeResponse.Unmarshal` | api/kopi/dex/tx.pulsar.go:7055-7155 | decoding into the object ends with the specified message in it, or with the specified error; on success each variable is made from the records of its own number (1 amount_used, 2 amount_received) and the old value, and the other records are kept in order or dropped |
| `MoneyMarketLoans.UserLoan.Size` | api/kopi/mm/query.pulsar.go:6905-6941 | the size loop computes the size of the object's value |
| `MoneyMarketLoans.UserLoan.Marshal` | api/kopi/mm/query.pulsar.go:6943-7000 | the backward writer fills the buffer from its end to exactly index 0 with the forward encoding, and appends it to the given buffer; tag byte by tag byte, each variable stands under its own number (1 denom, 2 amount_borrowed, 3 amount_borrowed_usd, 6 interest_rate) and is left out as the source says |
| `MoneyMarketLoans.UserLoan.UnmarshalField` | api/kopi/mm/query.pulsar.go:7039-7184 | one record: the field switch applies it to the object in place, or fails with the decoder's error |
| `MoneyMarketLoans.UserLoan.Unmarshal` | api/kopi/mm/query.pulsar.go:7001-7191 | decoding into the object ends with the specified message in it, or with the specified error; on success each variable is made from the records of its own number (1 denom, 2 amount_borrowed, 3 amount_borrowed_usd, 6 interest_rate) and the old value, and the other records are kept in order or dropped |
| `Lexing.LexLocal` | api/kopi/denominations/params.pulsar.go:3256-3440 | a record reads the same wherever it stands and whatever follows it |
| `Lexing.AcceptedTags` | api/kopi/denominations/params.pulsar.go:3273-3280 | over all uint64 tags: accepted exactly when it ends no group and the low 32 bits of its number are a positive int32, and read as the number it encodes exactly when that number is below 2^31 |
| `Lexing.BranchOfTag` | api/kopi/denominations/params.pulsar.go:3273-3435 | over all tags that can be read, minimal or not: which take the end-group error, the illegal-tag error, the known branch and the unknown branch |
| `Lexing.KeptVerbatim` | api/kopi/denominations/params.pulsar.go:3418-3433 | a whole record is kept verbatim exactly when its tag is accepted and the low 32 bits of its number are no field of the schema |
| `Lexing.AliasedFieldNumber` | api/kopi/denominations/params.pulsar.go:3273-3280 | the failing inputs: a tag whose number exceeds a field number by a multiple of 2^32 is read as that field |
| `Lexing.WrongWireTypeReported` | api/kopi/denominations/params.pulsar.go:435-437 | a known field met with any other wire type gives WrongWireType of that wire type and that number |
| `Lexing.NoVarintReported` | api/kopi/denominations/params.pulsar.go:438-452 | a known field whose value or length prefix is no varint gives overflow or unexpected end |
| `Lexing.ScalarRead` | api/kopi/dex/liquidity_next_index.pulsar.go:365-383 | a varint field is read as the base-128 sum of its bytes modulo 2^64, overlong or not |
| `Lexing.PayloadRead` | api/kopi/denominations/params.pulsar.go:453-464 | a length-delimited field is read exactly when it ends within the input; otherwise the error is invalid length exactly when its end is no Go int and unexpected end when it is |
| `Lexing.UnknownRead` | api/kopi/denominations/params.pulsar.go:534-549 | a record of another number: kept when it ends within the input, the same two errors when it does not, and an error of skipping as it is |
| `Lexing.NoTagReported` | api/kopi/denominations/params.pulsar.go:410-424 | an input that starts with no varint gives overflow or unexpected end |
| `Lexing.EndGroupReported` | api/kopi/denominations/params.pulsar.go:427-429 | a tag of wire type 4 ends decoding, whatever its number |
| `Lexing.IllegalTagReported` | api/kopi/denominations/params.pulsar.go:430-432 | a number that is not positive as an int32 is reported as that int32 with the whole tag |
| `Decoding.FailsExactly` | api/kopi/denominations/params.pulsar.go:3256-3440 | decoding fails with e exactly when some record, behind an accepted prefix, cannot be read or applied with e |
| `Decoding.NestedErrorIsReported` | api/kopi/denominations/params.pulsar.go:3312-3314 | an error inside a sub-message or list element is the error of the whole input |
| `Decoding.DecodeConcat` | api/kopi/denominations/params.pulsar.go:3254-3440 | if b is accepted, decoding b ++ c is decoding c into the result of b, value and error alike |
| `Decoding.DecodeTwice` | api/kopi/denominations/params.pulsar.go:3243-3440 | one call on b ++ c and two calls on the same object succeed together with the same message |
| `Decoding.DecodeShift` | api/kopi/denominations/params.pulsar.go:3301-3310 | the index in the buffer decides at most which error is reported |
| `Decoding.DecodeIsFold` | api/kopi/denominations/params.pulsar.go:3256-3440 | the decoder accepts exactly the record sequences whose every record applies, and is their left fold |
| `Decoding.ApplyAllFieldByField` | api/kopi/denominations/tx.pulsar.go:2171-2445 | every field of the result is its own records replayed on its old value and unknown bytes are the unknown records joined; decoding fails exactly when some field's own records fail |
| `Decoding.OrderIndependent` | api/kopi/denominations/tx.pulsar.go:2133-2451 | inputs with the same records per field and the same unknown bytes, however interleaved, decode alike |
| `Decoding.SwapAdjacent` | api/kopi/denominations/tx.pulsar.go:2133-2451 | two adjacent complete records of different fields, or one known and one unknown, can be swapped anywhere in an input |
| `Decoding.SubMessageInParts` | api/kopi/denominations/genesis.pulsar.go:412-418 | two occurrences of a singular sub-message are one occurrence of the joined bytes |
| `Decoding.DiscardIsErasure` | api/kopi/denominations/params.pulsar.go:3418-3433 | decoding with DiscardUnknown is decoding without it and clearing the unknown records at every level; both fail together with the same error |
| `Sizes.SizeIsEncodedLength` | api/kopi/denominations/params.pulsar.go:3103-3147 | the size function is the length of the encoding, for every message tree |
| `Sizes.DecodeNoGrowth` | api/kopi/denominations/genesis.pulsar.go:272-440 | after an accepted decode the size is at most the size before plus the bytes consumed |
| `RoundTrip.DecodeKeepsValid` | api/kopi/denominations/params.pulsar.go:3256-3440 | the parser invariant: at every level unknown fields stay whole records that the schema does not know, and fields keep their kinds |
| `RoundTrip.DecodeUnknown` | api/kopi/denominations/params.pulsar.go:3418-3433 | unknown records decode to themselves |
| `RoundTrip.EncodedMerges` | api/kopi/denominations/params.pulsar.go:3149-3441 | decoding the encoding of y into any valid x merges y into x: last non-default scalar wins, lists append, sub-messages merge, unknown records append |
| `RoundTrip.MergeIntoEmpty` | api/kopi/denominations/params.pulsar.go:3149-3441 | merging into an empty message is a copy |
| `RoundTrip.EncodedDecodes` | api/kopi/denominations/params.pulsar.go:3149-3441 | full-tree round trip: every valid message of any schema with one-byte tags decodes from its encoding |
| `RoundTrip.EncodingsConcatenate` | api/kopi/denominations/genesis.pulsar.go:342-440 | two encodings in one buffer decode to the merged message |
| `RoundTrip.EncodeInjective` | api/kopi/denominations/params.pulsar.go:3149-3242 | different valid messages have different encodings |
| `RoundTrip.NormalForm` | api/kopi/denominations/params.pulsar.go:3149-3441 | decode, encode, decode gives the first decode again for every accepted input, with either flag, and the re-encoding is no longer than the input |
| `Compatibility.FieldlessKeepsInput` | api/kopi/denominations/tx.pulsar.go:271-363 | a message without fields keeps every accepted input byte for byte |
| `Compatibility.PartialReader` | api/kopi/denominations/tx.pulsar.go:301-363 | a reader that lacks any of the fields accepts all that the full reader accepts, decodes the fields it has alike and keeps exactly the other records, in order |
| `Compatibility.EncodingPassesThrough` | api/kopi/denominations/tx.pulsar.go:271-363 | every encoder output is accepted by a message without fields, leaves it unchanged and still decodes to the original message |
| `Records.SkipReadsOneRecord` | x/dex/types/liquidity_next_index.pb.go:218-295 | a record of the wire format, its varints minimal or not, groups nested to any depth, is skipped whole |
| `Records.SkipsExactlyRecords` | x/dex/types/liquidity_next_index.pb.go:218-295 | skipping ends at n within the input if and only if the first n bytes are one record |
| `SkipErrors.SkipFailsExactly` | x/dex/types/liquidity_next_index.pb.go:218-295 | skipping fails with e if and only if the input is some open groups, with whole records in them, and then bytes that start neither a record nor the end of a group, for the reason e: no varint, a payload past the input or past every int, an unopened group, wire type 6 or 7 |
| `SkipErrors.SkipsPastExactly` | x/dex/types/liquidity_next_index.pb.go:218-295 | skipping ends past the input if and only if a record outside any group is cut short |
| `Records.UnknownTree` | api/kopi/denominations/params.pulsar.go:3418-3433 | a record of the wire format, whatever varint its tag is, takes the unknown branch exactly when the number the decoder sees is none of the schema, and is then kept verbatim |
| `Records.UnknownTrees` | api/kopi/denominations/params.pulsar.go:3418-3433 | a concatenation of records is valid unknown data exactly when every one of them is such a record |
| `Fields.ContentsOfTrees` | api/kopi/denominations/params.pulsar.go:3256-3440 | the contents of a number in a sequence of record trees are those of the trees with that number, in order, and the other records are the remaining trees |
| `Fields.FieldFromContents` | api/kopi/denominations/params.pulsar.go:3256-3440 | every field of the result is made from the contents of the records with its number alone: last one for a single value (a bool is true for every value but 0), all appended for a list, all joined for a sub-message |
| `Fields.UnknownFromOthers` | api/kopi/denominations/params.pulsar.go:3418-3433 | unknown bytes grow by exactly the records with other numbers, or by nothing with DiscardUnknown |
| `Layout.StringsForm` | api/kopi/denominations/params.pulsar.go:1045-1053 | the backward loop over a list leaves its elements in order, each under the tag byte, none omitted |
| `Layout.ListForm` | api/kopi/denominations/params.pulsar.go:3217-3232 | the same for a list of messages |
| `SingleRecords.ReadMintLimit` | api/kopi/denominations/params.pulsar.go:1207-1240 | the bytes 0x22, length, p set max_mint_amount of any KCoin to p and leave every other variable as it was |
| `SingleRecords.ReadFlag` | api/kopi/dex/tx.pulsar.go:6660-6679 | the byte 0x30 and any varint, overlong ones too, set allow_incomplete to whether its value modulo 2^64 is not 0 |
| `SingleRecords.ReadAmountUsed` | api/kopi/dex/tx.pulsar.go:7094-7114 | the byte 0x8 and any varint set amount_used to the int64 congruent to its value |
| `SingleRecords.ReadNameCutShort` | api/kopi/denominations/params.pulsar.go:461-463 | a DexDenom name announced longer than what is there gives unexpected end |
| `SingleRecords.ReadWrongWireType` | api/kopi/denominations/params.pulsar.go:434-437 | a field of DexDenom met with another wire type gives WrongWireType(wire type, number) |
| `SingleRecords.ReadIllegalWireType` | api/kopi/denominations/params.pulsar.go:534-538 | a record of wire type 6 or 7 gives IllegalWireType |
| `Evolution.DecodeOlder` | api/kopi/denominations/params.pulsar.go:3256-3440 | a reader that lacks fields at any level accepts what the full reader accepts, from any pair of states in which its message stands for the full one, and the results again stand for each other |
| `Evolution.ReadInFull` | api/kopi/denominations/params.pulsar.go:3149-3441 | the encoding of a message that stands for a full message decodes, with the full schema, to that message |
| `Evolution.OldReaderKeepsMeaning` | api/kopi/denominations/params.pulsar.go:3149-3441 | an input that passes through a reader lacking fields at any level, sub-messages and list elements included, and is encoded again still decodes to the same full message |
| `EndToEnd.SendParams` | api/kopi/denominations/params.pulsar.go:3149-3441 | parameters marshalled and unmarshalled into a new object are the same |
| `EndToEnd.SendGenesis` | api/kopi/denominations/genesis.pulsar.go:298-440 | the same for the genesis state |
| `EndToEnd.SendNextIndex` | api/kopi/dex/liquidity_next_index.pulsar.go:291-407 | every uint64 index survives |
| `EndToEnd.SendThroughResponse` | api/kopi/denominations/tx.pulsar.go:271-363 | a MsgAddKCoin sent through the field-less response comes out unchanged |
| `EndToEnd.SendThroughRequest` | api/kopi/denominations/query.pulsar.go:271-363 | a MsgAddCAsset sent through the field-less request comes out unchanged |
| `EndToEnd.AnswerQuery` | api/kopi/denominations/query.pulsar.go:656-798 | the bytes of a genesis state read as a query response hold the same parameters |
| `EndToEnd.SendTogether` | api/kopi/dex/discount_level.pulsar.go:319-493 | two levels marshalled one after the other into one buffer and read back as one: the second wins field by field unless empty, unknown records join |
| `EndToEnd.SendTrade` | api/kopi/dex/tx.pulsar.go:6386-6703 | a trade order with its flag survives |
| `EndToEnd.SendTradeResult` | api/kopi/dex/tx.pulsar.go:7015-7155 | every pair of int64 amounts survives |
| `EndToEnd.ForwardLoan` | api/kopi/mm/query.pulsar.go:6943-7191 | a loan entry of any later schema that fills the gap or adds numbers passes this version without loss |
| `EndToEnd.ForwardGenesis` | api/kopi/denominations/genesis.pulsar.go:298-440 | a genesis state of any later schema, with new fields at any level, passes this version without loss |
| `MovingAverages.Weights` | utils/math.go:10-11 | the two weights at 18 decimals are 0.000011574074074074 and 0.999988425925925926 |
| `MovingAverages.RoundsHalfToEven` | utils/math.go:14-15 | rounding gives n exactly when n is the integer nearest to d / 10^18, the even one at a tie, for either sign |
| `MovingAverages.AverageRoundsTwice` | utils/math.go:9-17 | the average is the sum of two integers, each nearest to its product with the literal weight, even at ties |
| `MovingAverages.TieIsEven` | utils/math.go:14-15 | a product is half way between two decimals only for an even scaled amount |
| `MovingAverages.ChopComplement` | utils/math.go:13-16 | two amounts that add up to v units round to v together |
| `MovingAverages.NoDrift` | utils/math.go:9-17 | MovingAverage(v, v) is exactly v for every decimal, though two products are rounded |
| `MovingAverages.Monotone` | utils/math.go:9-17 | the average is monotone in both arguments |
| `MovingAverages.Between` | utils/math.go:9-17 | the average lies between its arguments |
| `MovingAverages.RunBetween` | utils/math.go:9-17 | over every finite sequence of samples the average never leaves a range that holds its start and its samples |
| `MovingAverages.RunMonotone` | utils/math.go:9-17 | larger starts and samples never give a smaller average |
| `MovingAverages.ErrorBound` | utils/math.go:10-15 | the distance from the ideal average is at most 86400 + 6400 |new - old| / 10^18, in units of 1 / 86400 of the last decimal |
| `MovingAverages.GapStep` | utils/math.go:9-17 | towards a constant target the gap keeps its sign, never grows and decays by the old weight within one unit |
| `MovingAverages.GapShrinks` | utils/math.go:9-17 | a gap above 86400 units strictly shrinks |
| `MovingAverages.GapNeverGrows` | utils/math.go:9-17 | the gap to a constant target never grows over any number of steps |
| `MovingAverages.HalvesInTwoDays` | utils/math.go:9-17 | a gap of at least 4 * 86400 units halves within 172801 steps |
| `MovingAverages.HalvesRepeatedly` | utils/math.go:9-17 | after k * 172801 steps the gap is below 4 * 86400 units, or 2^k times the gap is at most the initial gap |
| `MovingAverages.SettlesOrMoves` | utils/math.go:9-17 | every step moves at least one unit until the share of the amount rounds like that of the target |
| `MovingAverages.ExactStep` | utils/math.go:9-17 | the average is the old amount plus the rounded share of the new one minus the rounded share of the old one |
| `MovingAverages.StallsExactly` | utils/math.go:9-17 | the average stands still, then for ever, exactly when the shares of amount and target round alike |
| `MovingAverages.Converges` | utils/math.go:9-17 | every run against a constant target ends and stays, after at most as many steps as the gap has units, at the amount nearest to its start whose share rounds like the share of the target; the gap left is at most 86400 units |
| `MovingAverages.SettlesSoon` | utils/math.go:9-17 | the same limit after k * 172801 + 4 * 86400 steps when the gap is below 2^k * 4 * 86400 units |
| `MovingAverages.ReachesTargetExactly` | utils/math.go:9-17 | a run reaches its target exactly when it starts there or the neighbour of the target on the side of the start has a share that rounds differently |
| `MovingAverages.NeverReachesZero` | utils/math.go:9-17 | a failing input: from 100000 units towards zero a run moves, ends at 43200 and stays there |
| `MovingAverages.StallsNearZero` | utils/math.go:9-17 | towards zero the average stands still exactly at the amounts of at most 43200 units |

## Left out

- The protoreflect surface (Has, Get, Set, Clear, Mutable, Range, NewField, list wrappers, descriptors): per-field switches.
- The other messages of the repository: the same closures over other schemas; the laws cover their schemas, the classes are not repeated.
- Field numbers from 16 on, whose tags take more than one byte: decoding covers them, the laws about encodings do not; no proto file of the repository has one.
- Field kinds that no proto file of the repository has: fixed-width and zigzag numbers, maps, oneofs, packed lists.
- The early return of each closure on a nil receiver.
- The partly filled object after a decoding error: `Unmarshal` promises only the error then.
- Wrap-around inside `size` for messages of 2^63 bytes or more, which no buffer can hold.
- The inlined loops are methods here (`Reader`, `Writer`), and the switch of `unmarshal` is a method of its own, `UnmarshalField`; the generated code repeats both in place.
- UTF-8 validity, the difference between nil and empty byte fields, cached sizes, recursion limits.
- `MinMax`, `pow`, `PowInt`, `PowDec`, and the panics of LegacyDec on more than 315 bits.
- Application wiring, gRPC stubs, keepers, command line and documentation server.
