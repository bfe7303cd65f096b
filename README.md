# Alias method sampler (Go package `alias`), modelled in Dafny

The Go package `alias` picks items from a discrete distribution with
Walker's alias method. An `Alias` object holds:

- a table of slots, each with a threshold `prob` and an `alias` index;
- the unit `avgP` that thresholds are measured against;
- two rejection bounds, `maxRi` and `maxRj`;
- a padding index, `dummy`.

This project models the integer builder `NewInt` (Vose's algorithm, with a
padding weight added when the weights do not divide evenly), the sampler
`Gen`, the binary encoding `MarshalBinary` / `UnmarshalBinary`, and the two
helpers `calcMax` and `checkAvgP`. It then proves what these promise:

- The builder gives every index exactly its weight of (slot, threshold)
  pairs and leaves one slot full.
- An accepted draw therefore resolves to an index with probability
  proportional to its weight.
- The padding index is never returned.
- A built table survives the encoding round trip.

Modules, one file each:

- `Wrappers` (`wrappers.dfy`): `Option` and `Result`.
- `LittleEndian` (`little_endian.dfy`): `Byte`, `U32`, and the 4-byte
  little-endian word.
- `Slots` (`slots.dfy`): `Piece` and `Table` as values, `CalcMax` and why it
  is unbiased, the largest threshold, and the well-formedness of a table.
- `Sampling` and `Distribution` (`sampling.dfy`): one attempt of the
  sampler, plus the counting argument for its distribution.
- `Codec` (`codec.dfy`): the binary format as pure functions, with both
  round trips.
- `VoseSpec` (`vose_spec.dfy`): the builder's specification on values. It
  covers the sums, the padding, the two stacks sharing one array, and the
  state of each loop with the lemma that keeps it.
- `AliasMethod` (`alias.dfy`): the `Alias` class and the imperative code.
  The class's table is an `array<Piece>` and its methods change its fields.
  `NewInt` and its phases write the `twins` and `table` arrays in place.

The source's `panic` calls become `assert false` in branches the proofs show
to be dead. The two panics are the stacks not meeting after the partition
and the small stack not being empty at the end. The `checkAvgP` panic (no
full slot) is dead for the same reason.

## Model

| member | source | states |
|---|---|---|
| Slots.CalcMax | alias.go:33-36 | for n ≤ 2^31, one more than the bound is a multiple of n, at most 2^31, and within n of 2^31; above 2^31 the 32-bit subtraction wraps to 2^32-1 |
| Slots.CalcMaxUnbiased | alias.go:33-36 | the values 0..CalcMax(n) hit every residue modulo n the same number of times, so reducing an accepted draw is unbiased |
| AliasMethod.Alias.CheckAvgP | alias.go:38-47 | finds a slot exactly when some threshold equals avgP-1 computed in 32-bit arithmetic; for avgP ≥ 1 that is the full-slot property |
| AliasMethod.NewInt | alias.go:159-264 | empty weights give TooFewWeights, a non-positive weight gives NonPositiveWeight, and both are iff; otherwise a fresh alias that meets Built: one slot per padded weight, the unit as avgP, the original count as padding index, a well-formed table, and each index owning exactly its padded weight |
| AliasMethod.SumWeights | alias.go:174-180 | succeeds iff every weight is positive, and then returns their sum |
| VoseSpec.PaddingExact | alias.go:185-193 | padding keeps the weights and adds one exactly when the total is not a multiple of the count; afterwards unit × count = total; all padded weights are positive and fit 32 bits; the unit is below 2^31 |
| AliasMethod.Pad | alias.go:185-193 | returns the padded weights and the unit, storable in slots, with unit × count = total |
| AliasMethod.Partition | alias.go:199-217 | after pushing every weight onto the stack its size calls for, the partition state holds for all indices |
| VoseSpec.PartitionStart | alias.go:199-202 | with both stacks empty the partition state holds for no weights |
| VoseSpec.PartitionStep | alias.go:206-217 | pushing the next weight as an item holding its index keeps the stacks sorted and tracked, and their total equal to the prefix sum |
| VoseSpec.PartitionDone | alias.go:219-223 | after the partition the stacks meet, so the panic is unreachable, and the pairing state holds with an all-zero table |
| AliasMethod.Pair | alias.go:225-246 | the pairing loop keeps its state, and at its end one stack is empty |
| VoseSpec.PairingStep | alias.go:227-245 | one pairing step keeps the stacks sorted and tracked, keeps finished slots valid, keeps every index's mass intact, and removes one stacked item |
| VoseSpec.StacksExit | alias.go:225-255 | when the pairing loop stops, the small stack is empty and every item left on the large stack weighs exactly the unit |
| VoseSpec.ClearStart | alias.go:248-255 | the clearing state holds where the pairing loop stops, and smTop is -1, so the second panic is unreachable |
| AliasMethod.Clear | alias.go:248-251 | clearing every item left on the large stack keeps the clearing state down to lgBot |
| VoseSpec.ClearStep | alias.go:249-251 | filling the slot of the item at i to avgP-1 finishes that unfinished slot and keeps the clearing state |
| VoseSpec.ClearDone | alias.go:248-261 | after clearing, every slot has a threshold below the unit and a slot as alias, every index owns exactly its weight, and some slot is full, so checkAvgP does not panic |
| AliasMethod.Stacks | alias.go:195-246 | after the partition and the pairing, the small stack is empty and the clearing state holds |
| AliasMethod.Build | alias.go:195-255 | the finished table: valid slots, mass equal to each weight, and a full slot |
| VoseSpec.BuiltFrom | alias.go:257-263 | such a table with the unit, the rejection bounds of its size and unit, and the original count as padding index is a built table |
| VoseSpec.BuiltSamplesOriginal | alias.go:280-283 | an attempt on a built table never yields the padding index, so it yields one of the original indices |
| VoseSpec.BuiltDistribution | alias.go:153-158 | among the draw pairs that pass both rejection bounds, the number resolving to index j is a fixed multiple of j's weight |
| VoseSpec.BuiltPaddingRejected | alias.go:280-282 | the draws resolving to the padding index, which Gen rejects, are the same multiple of the padding weight |
| Distribution.AcceptedPairsProportional | alias.go:267-284 | in a well-formed table of at most 2^31 slots, the accepted pairs resolving to j number (maxRi+1)/slots × (maxRj+1)/avgP × Mass(j) |
| Sampling.Split | alias.go:270-271 | the two masked draws are below 2^31 and together are the low 62 bits of the random value |
| Sampling.Resolve | alias.go:277-279 | a threshold draw at most the slot's threshold keeps the slot, otherwise the draw goes to the alias |
| Sampling.Attempt | alias.go:269-283 | a draw above a bound is rejected; otherwise the result is the resolved slot unless it is the padding index; with valid aliases the result is a slot index |
| AliasMethod.Alias.Gen | alias.go:267-284 | over a sequence of draws, returns the result of the first accepted attempt and how many draws it used, or None when every attempt is rejected |
| LittleEndian.GetPutU32 | alias.go:291-292 | reading back a written 32-bit little-endian word gives the value |
| LittleEndian.PutGetU32 | alias.go:315-316 | writing the value of four bytes gives the same bytes |
| Codec.Encode | alias.go:287-300 | the encoding is 8 bytes per slot, plus 4 bytes exactly when the padding index differs from the slot count |
| Codec.EncodedLength | alias.go:287-300 | an encoding's length is a multiple of 4, its length / 8 is the slot count, and it is a multiple of 8 iff the padding index equals the slot count |
| AliasMethod.WriteSlot | alias.go:290-292 | writes the slot's two words at its offset and leaves the rest of the buffer as it was |
| AliasMethod.Alias.MarshalBinary | alias.go:287-300 | returns the encoding of the alias's table value |
| Codec.SlotError | alias.go:318-323 | a record is refused iff its threshold is 2^31 or more, or its alias is not a slot index; the threshold is checked first |
| Codec.FirstBad | alias.go:313-327 | the records before the returned index are accepted, and the one at it, if any, is refused |
| Codec.Decode | alias.go:303-351 | BadLength iff the length is not a multiple of 4; TooLarge iff there are 2^32 or more slots; success iff every record is accepted, and then a well-formed table with one slot per record and the buffer's padding index |
| Codec.DecodeSlots | alias.go:312-327 | the records decode iff none is refused, then to the records themselves; otherwise the error is that of a refused record |
| Codec.FromSlots | alias.go:329-348 | the table recovered from accepted records is well formed and keeps the records and the padding index |
| AliasMethod.ReadSlots | alias.go:312-327 | reads records in order and stops at the first refused one with its error; the table then holds the records before it, followed by zero slots |
| Slots.MaxProb | alias.go:333-339 | the largest threshold: no slot exceeds it, some slot attains it, and it is 0 for no slots |
| AliasMethod.LargestProb | alias.go:333-338 | returns the largest threshold of the table, starting from 0 |
| AliasMethod.Alias.RecoverMetadata | alias.go:333-348 | sets avgP to the largest threshold plus one, then the rejection bounds from the slot count and avgP, then the padding index from the trailing word or the slot count |
| AliasMethod.Alias.UnmarshalBinary | alias.go:303-351 | succeeds iff Decode succeeds, and then the alias is the decoded table in a fresh array; failures return Decode's error; a bad length or too large a buffer changes nothing; a refused record leaves the partly read table; no failure changes the scalar fields |
| AliasMethod.Alias.Load | alias.go:312-350 | on a buffer of whole records, the outcome and the new state agree with Decode |
| Codec.DecodeRefused | alias.go:313-323 | with a refused record, decoding fails with that record's error |
| Codec.DecodeAccepted | alias.go:329-350 | with every record accepted, decoding gives the table of the records with the buffer's padding index |
| Slots.WellFormedUnit | alias.go:329-339 | in a well-formed table, one more than the largest threshold is avgP, which is how decoding recovers it |
| Codec.FromSlotsOfWellFormed | alias.go:329-342 | a well-formed table is determined by its slots and its padding index |
| Codec.EncodedSlotsDecode | alias.go:312-327 | the records of an encoding are all accepted and read back as the slots, whatever follows them |
| Codec.EncodedDummy | alias.go:344-348 | the padding index read from an encoding is the one that was written, trailing word or not |
| AliasMethod.Alias.Empty | alias_test.go:143-144 | the zero alias that the test unmarshals into: an empty table and all fields zero |
| Codec.DecodeEncode | alias_test.go:137-153 | decoding the encoding of a well-formed table gives back every field |
| Codec.DecodedRecords | alias.go:313-326 | every slot of a decoded table re-encodes to its record of the buffer |
| Codec.EncodeDecode | alias.go:287-351 | a decoded buffer re-encodes to itself, unless it spelled out a padding index equal to the slot count |
| AliasMethod.BuiltRoundTrip | alias_test.go:137-153 | decoding the encoding of a table built by NewInt gives the same table |
| AliasMethod.MarshalRoundTrip | alias_test.go:114-154 | building from positive integer weights, marshalling, and unmarshalling into a zero alias gives no error and the same value |

## Left out

- `New`, the floating-point builder (alias.go:54-152), is not modelled, because it relies on floating point. The float cases of the marshalling test go with it.
- The statistical distribution tests and bench_test.go are not modelled: they are Monte Carlo checks and timings. The distribution is instead proved by counting (VoseSpec.BuiltDistribution).
- AliasMethod.Alias.Gen: the random source and the `goto` retry are not modelled. Gen takes a finite sequence of 63-bit draws and returns None when all of them are rejected, so a source that never gives an accepted draw is not captured.
- AliasMethod.NewInt: requires fewer than 2^31 weights. So its "too many probabilities" branch (2^32 weights or more) cannot be reached and is not written. Counts between 2^31 and 2^32, where the source's calcMax wraps, say nothing.
- AliasMethod.Alias.UnmarshalBinary: requires a length that is not a multiple of 4, or at least 8 bytes. On 0 or 4 bytes the source reads no slot and calls calcMax(0), which divides by zero.
- Distribution.AcceptedPairsProportional: stated only for tables of at most 2^31 slots, the range where calcMax does not wrap.
- The mask and shift in Gen are modelled as remainder and quotient by 2^31, which is the same thing for the non-negative values of Int63.
- Some integer widths are modelled as exact integers because no wrap-around changes the result:
  - the uint64 total of the weights, which stays below 2^62;
  - the uint32 sum `g.prob + l.prob`, whose wrap, if any, is undone by the following `- avg`;
  - the padding weight's round trip through int32 and back to uint32.
- The error strings become the constructors of BuildError and DecodeError.
- Slice capacities, and encoding/binary as a library, are not modelled. Its little-endian words are written out in LittleEndian.
- AliasMethod.MarshalRoundTrip: the test's reflect.DeepEqual is modelled as equality of the table values, that is, the slot contents and the four scalars.
