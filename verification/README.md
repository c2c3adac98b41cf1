# Verified models of MCUXpresso SDK drivers

The drivers of this SDK mostly read, modify and write device registers. The ones modelled here hold real
algorithms, and the project proves what they compute:

- **AES** (`Bytes`, `AesEngine`, `AesBlocks`, `NistModes`, `AesModes`, `AesCtr`, `AesCtrStream`, `NistGcm`, `AesGcm`,
  `AesGcmConformance`): ECB, CBC, CFB, OFB, CTR and GCM built over a block engine, proved against
  NIST SP 800-38A (sections 6.1 to 6.5) and NIST SP 800-38D (sections 6.2, 6.4, 7.1 and 7.2).
- **ASRC** (`AsrcRate`, `AsrcClock`, `AsrcLayout`, `AsrcTransfer`, `AsrcEdma`): the bit-by-bit ratio division, the clock
  divider search, the blocking conversion against two FIFOs and the eDMA transfer rings.
- **BBNSM RTC** (`BbnsmRtc`): reading a two-register counter while it moves, and the enable fields.
- **CADC** (`CadcSamples`): sample slots packed into many registers.
- **BiSS** (`BissMaster`): register data packing, clock codes and the split of a position word.
- **ADC12** (`Adc12Calibration`): the calibration check in unsigned arithmetic.

`Powers` holds powers of two and facts about division. Imperative code is modelled by methods over arrays and
classes; their contracts name functions whose properties the lemmas prove. Input and output buffers of the AES
calls may be the same array, as callers of the driver may encrypt in place.

## Assumptions about the devices

- AES engine (`AesEngine`, stated only there). The low byte of CFG selects cipher, hash, hash source and byte
  swaps; its upper half selects the cipher input, the holding update and the output. COPY_TO_Y copies OUTTEXT as
  it stands and starts a new hash; GCM_TAG is the hash accumulator added to OUTTEXT as it stands; counter mode
  increments the low 32 bits of HOLDING; HOLDING[3] reads one ahead of the next counter, as the comment at
  `drivers/aes/fsl_aes.c:765` says. The cipher, its inverse and the field product are parameters; lemmas that need
  a permutation say so.
- ASRC. The input status bit means the FIFO fill is at or below the watermark; the converter consumes input and
  fills the output at any time; words read from the output are arbitrary, and so is the fill seen at each pass. The
  arrays of a blocking conversion are memory from the start of a buffer on, so they reach past the buffer; input and
  output memory do not overlap. A completion interrupt arrives only for
  a queued eDMA transfer, and the queue size is the default of four.
- RTC. The counter has 47 bits at 32768 Hz, moves only forward and only while enabled, and may move by any amount
  between two register reads. Every finished call has some finite number of such moves; the contracts hold for
  every number.
- Register fields whose positions live in device headers are kept as separate fields (RTC enables, ADC12 results).

## Where the code and its documentation part

- The routines named for a 32-bit increment and decrement carry through all sixteen bytes. `UpIsInc32` says when
  that matters, `CiphertextExact`, `ChainingExact` and `AnyCutsExact` what it does to GCM and to chained CTR calls.
  `CarryLeavesTheStandard` gives a failing IV for every key whose hash product can be undone, `EdgeFails` a failing
  counter for every key.
- GCM bit lengths are 32 bits wide: `LengthBlockExact` for the block, `TagExact` for the tag, `EncryptExact` and
  `DecryptExact` for sections 7.1 and 7.2 as a whole, `LongDataLeavesTheStandard` for the failing sizes.
- The ratio loop is exact exactly when no doubling overflows, which every output rate up to 2^31 guarantees
  (`LongDivision`, `SmallRatesFit`, `OverflowExample`). Processing options are chosen from what the division leaves
  of the input rate, so extreme ratios are not refused; `SelectionExact` says when the options are those of the
  rates themselves, `RefusalLost` gives rates that should have been refused and `OptionsDiffer` supported rates that
  get other options than their own.
- A tuned divider of nine does not fit its field: `NineExact` gives the rates, `PackedDecodes` the consequence,
  `NineExample` an instance.
- A blocking conversion stores whole words a sample width apart, so the last 16-bit sample changes two bytes behind
  the samples: every call that stores 16-bit samples can write past its buffer, and no other (`OverrunExact`,
  `StoresPastBuffer`). Input loads reach past the buffer too, but what they find there is masked out (`OwnBytes`).
- The tail of a blocking conversion is read without advancing the output address. The output lies in order after
  every run exactly when the tail is at most one frame (`InOrderExact`); otherwise a run that sees the tail arrive in
  two pieces loses a frame, for every content (`FrameLost`).
- With an output watermark of zero nothing is ever read, so a conversion with samples to produce never ends
  (`ZeroMarkReadsNothing`, `TransferBlocking`).
- A first RTC reading of zero is accepted without a second one; `SnapshotExact` says from which counter values
  that can go wrong, and `PassedAlarmExact` when an alarm already due is accepted for it.
- At the documented maximum of 64 bytes, writing BiSS register data also clears the register behind the data
  (`RDataWrite`).
- Two lower limits of the calibration table wrap around when the table would make them negative:
  `CalibrationSucceeds`, `WrappedLimitRefuses`.

## Model

| member | source | states |
|---|---|---|
| AesEngine.InputSwapCancels | drivers/aes/fsl_aes.c:36-42 | with the input swap selected, four little-endian word loads reach the engine as the block in memory order |
| AesBlocks.WriteText | drivers/aes/fsl_aes.c:784-807 | the four INTEXT writes run the engine once on the sixteen bytes of memory |
| AesBlocks.OneBlock | drivers/aes/fsl_aes.c:228-275 | one engine step on the input block, the sixteen output bytes replaced and nothing else, in place or not |
| AesBlocks.SetHolding | drivers/aes/fsl_aes.c:331-340 | HOLDING takes the sixteen bytes, most significant first, and no other register changes |
| AesBlocks.ReadSwapped | drivers/aes/fsl_aes.c:835-844 | four swapped word reads store an engine block in order |
| Bytes.Pad | drivers/aes/fsl_aes.c:1096-1098 | a string is padded to whole blocks by the fewest bytes, and they are zeroes |
| AesBlocks.PadBlock | drivers/aes/fsl_aes.c:1137-1148 | a short block is copied into a temporary whose other bytes are zeroes |
| NistModes.EcbRoundTrip | drivers/aes/fsl_aes.c:388-465 | ECB decryption undoes ECB encryption for every whole number of blocks |
| NistModes.CbcRoundTrip | drivers/aes/fsl_aes.c:575-595 | CBC decryption undoes CBC encryption for every message and IV |
| NistModes.CfbRoundTrip | drivers/aes/fsl_aes.c:607-627 | CFB decryption undoes CFB encryption for every message and IV |
| NistModes.StreamRoundTrip | drivers/aes/fsl_aes.c:639-659 | a stream mode is its own inverse at every length, short last block included |
| AesModes.RunIsEcb | drivers/aes/fsl_aes.c:27-28 | the engine with the ECB word over any number of blocks is section 6.1 of SP 800-38A |
| AesModes.RunIsCbcEncrypt | drivers/aes/fsl_aes.c:29-29 | the engine with the CBC encryption word over any number of blocks is section 6.2 |
| AesModes.RunIsCbcDecrypt | drivers/aes/fsl_aes.c:30-30 | the reversed engine with the CBC decryption word is the inverse of section 6.2 |
| AesModes.RunIsCfbEncrypt | drivers/aes/fsl_aes.c:31-31 | the engine with the CFB encryption word is section 6.3 |
| AesModes.RunIsCfbDecrypt | drivers/aes/fsl_aes.c:32-32 | the engine with the CFB decryption word is the inverse of section 6.3 |
| AesModes.RunIsOfb | drivers/aes/fsl_aes.c:33-33 | the engine with the OFB word is section 6.4, with the holding register at the right output block |
| AesModes.EncryptEcb | drivers/aes/fsl_aes.c:388-420 | refused exactly for a partial block or an invalid key; otherwise the buffer holds the ECB encryption and is untouched past it |
| AesModes.DecryptEcb | drivers/aes/fsl_aes.c:433-465 | the same for decryption with the inverse cipher |
| AesModes.AcceptedSizes | drivers/aes/fsl_aes.c:487-513 | every multiple of sixteen in the four CBC and CFB configurations, every size in OFB, and no other configuration |
| AesModes.BlockMode | drivers/aes/fsl_aes.c:477-563 | which configurations and sizes are accepted, and that the output is exactly the mode SP 800-38A defines, OFB with a short last block included, in place or not |
| AesModes.BlockModeRoundTrip | drivers/aes/fsl_aes.c:575-659 | the matching configuration with the same IV returns the message |
| AesCtr.Increment | drivers/aes/fsl_aes.c:914-931 | the in-place loop computes Up of the sixteen bytes |
| AesCtr.Decrement | drivers/aes/fsl_aes.c:940-957 | the in-place loop computes Down of the sixteen bytes |
| AesCtr.UpValue | drivers/aes/fsl_aes.c:914-931 | Up adds one to the big-endian value modulo 256 to the length |
| AesCtr.DownValue | drivers/aes/fsl_aes.c:940-957 | Down subtracts one modulo 256 to the length |
| AesCtr.DownUp | drivers/aes/fsl_aes.c:914-957 | increment and decrement are inverses, both ways, for every byte string |
| AesCtr.UpIsInc32 | drivers/aes/fsl_aes.c:907-931 | the increment is inc32 of section 6.2 of SP 800-38D exactly when the low 32 bits are not all ones |
| AesCtr.RunIsCtr | drivers/aes/fsl_aes.c:34-34 | the engine with the CTR word is section 6.5 with inc32 counters, and HOLDING ends at the next counter |
| AesCtr.CryptCtr | drivers/aes/fsl_aes.c:681-773 | output, returned counter, last key block and unused byte count of a call of any size, and that a refusal changes no buffer |
| AesCtr.NextCounterExact | drivers/aes/fsl_aes.c:763-765 | the returned counter is the next counter exactly when its low word is not all ones |
| AesCtrStream.ChainingCorrect | drivers/aes/fsl_aes.c:671-677 | two calls cut at any byte, bridged by counterlast, equal one call when the second is empty or the counter is not spoilt |
| AesCtrStream.ChainingFails | drivers/aes/fsl_aes.c:763-765 | with a spoilt counter a second call of a block or more is wrong for every message and every permutation |
| AesCtrStream.ChainingExact | drivers/aes/fsl_aes.c:681-773 | the two together as an equivalence |
| AesCtrStream.FeedPiece | drivers/aes/fsl_aes.c:671-773 | one piece of a message through the driver as its comments tell callers to chain: output, counter, counterlast and unused bytes |
| AesCtrStream.FeedPieces | drivers/aes/fsl_aes.c:671-773 | the caller's loop over any number of pieces; the output is that of one call when no counter is used that a call has spoilt |
| AesCtrStream.CarriedExact | drivers/aes/fsl_aes.c:763-765 | what a caller carries to the next piece is right exactly when the call did not spoil the counter |
| AesCtrStream.NextBytes | drivers/aes/fsl_aes.c:671-677 | however a message goes on, its next bytes meet the rest of counterlast and then the key block of the carried counter |
| AesCtrStream.AnyCutsCorrect | drivers/aes/fsl_aes.c:681-773 | from any point of a message and any right carried state, pieces of any sizes come out as one call when no spoilt counter is used |
| AesCtrStream.AnyCutsExact | drivers/aes/fsl_aes.c:681-773 | a message cut anywhere, into any number of pieces of any sizes, comes out as one call exactly when no counter is used that a call has spoilt, provided a message that goes on under such a counter goes on for a block |
| AesCtrStream.EdgeFails | drivers/aes/fsl_aes.c:763-765 | a counter after whose first block every message of a block or more comes out wrong, in pieces of any sizes |
| AesGcm.HashPadded | drivers/aes/fsl_aes.c:1047-1057 | the IV and AAD loops hash the zero-padded string and change nothing but the accumulator |
| AesGcm.InitialCounter | drivers/aes/fsl_aes.c:1041-1082 | the first counter for any IV, with the hash restarted under the same sub-key |
| AesGcm.StartRestored | drivers/aes/fsl_aes.c:1160-1160 | the decrement before the tag restores the pre-counter block for every IV |
| AesGcm.RunHashes | drivers/aes/fsl_aes.c:1103-1115 | a counter-mode run with the hash on hashes exactly its output or exactly its input |
| AesGcm.CryptData | drivers/aes/fsl_aes.c:1121-1155 | hash-output, hash-input and hand-padded paths all hash the padded ciphertext while the data is processed in counter mode |
| AesGcm.FinishTag | drivers/aes/fsl_aes.c:1157-1174 | the tag is the hash extended by the length block, added to the cipher of the restored block |
| AesGcm.EqualBytes | drivers/aes/fsl_aes.c:1182-1197 | gathering all differences says whether the first n bytes agree |
| AesGcm.ArgumentsAccepted | drivers/aes/fsl_aes.c:861-905 | accepted exactly with an IV, with every buffer that has a size and with one of the seven tag sizes, for sizes that add up in 32 bits |
| AesGcm.GcmProcess | drivers/aes/fsl_aes.c:994-1203 | which arguments are refused, the data written, the tag written when encrypting, and that decryption succeeds exactly when the first tagSize bytes agree |
| AesGcm.DecryptTagGcm | drivers/aes/fsl_aes.c:1258-1283 | the same for the entry point that compares with its own copy of the tag, and that the copy overruns its buffer exactly for a tag of more than sixteen bytes |
| AesGcmConformance.LengthBlockExact | drivers/aes/fsl_aes.c:1164-1172 | the length block is the standard's exactly when both sizes are below 2^29 bytes |
| AesGcmConformance.StartExact | drivers/aes/fsl_aes.c:1067-1081 | the first counter is inc32 of the pre-counter block exactly when the IV has twelve bytes or the block does not end in 32 one bits |
| AesGcmConformance.EncryptRefines | drivers/aes/fsl_aes.c:994-1203 | ciphertext and tag are those of section 7.1 of SP 800-38D for sizes below 2^29 and such IVs |
| AesGcmConformance.DecryptRefines | drivers/aes/fsl_aes.c:994-1203 | plaintext and compared tag are those of section 7.2 under the same condition |
| AesGcmConformance.TagBytesRefine | drivers/aes/fsl_aes.c:1157-1197 | the bytes a call stores or compares are the first ones of the standard's tag under the same condition |
| AesGcmConformance.CiphertextExact | drivers/aes/fsl_aes.c:1067-1081 | for a block or more of data the condition on the IV is also necessary |
| AesGcmConformance.TagExact | drivers/aes/fsl_aes.c:1157-1174 | for a hash that loses nothing, the whole tag is the standard's exactly when the IV, AAD and data sizes are below 2^29 bytes |
| AesGcmConformance.EncryptExact | drivers/aes/fsl_aes.c:994-1203 | ciphertext and tag are those of section 7.1 exactly when the sizes fit and, unless there is no data, the pre-counter block can be counted up |
| AesGcmConformance.DecryptExact | drivers/aes/fsl_aes.c:994-1203 | plaintext and compared tag are those of section 7.2 exactly then |
| AesGcmConformance.LongDataLeavesTheStandard | drivers/aes/fsl_aes.c:1164-1172 | a core for which every AAD of 2^29 bytes or more gets another tag than the standard's |
| AesGcmConformance.EveryJ0Occurs | drivers/aes/fsl_aes.c:1041-1082 | for every such product every block is the pre-counter block of an IV of sixteen bytes |
| AesGcmConformance.CarryLeavesTheStandard | drivers/aes/fsl_aes.c:914-931 | for every permutation and every hash product that can be undone, an IV of sixteen bytes under which every message of a block or more gets another ciphertext than the standard's |
| AesGcmConformance.CodedRoundTrip | drivers/aes/fsl_aes.c:994-1203 | decrypting what encryption made returns the plaintext and asks for the tag encryption made, for all inputs |
| AesGcmConformance.EncryptThenDecrypt | drivers/aes/fsl_aes.c:1223-1283 | the two calls in a row succeed and return the plaintext for every accepted message, IV, AAD and tag size |
| AsrcRate.LongDivision | drivers/asrc/fsl_asrc.c:321-341 | the 32-bit loop with its early exit gives floor(in * 2^26 / out) modulo 2^32 exactly when no doubling overflows and is never above it, what is left of the input rate, and that the value fits exactly when the quotient is below 64 |
| AsrcRate.SmallRatesFit | drivers/asrc/fsl_asrc.c:327-341 | no doubling overflows for output rates up to 2^31 |
| AsrcRate.OverflowExample | drivers/asrc/fsl_asrc.c:327-341 | two rates for which a doubling overflows |
| AsrcRate.SetIdealRatioConfig | drivers/asrc/fsl_asrc.c:312-357 | the ratio kept, the two options as functions of the remainder alone and that no rates are refused, while 129 times the output rate fits 32 bits |
| AsrcRate.SelectionExact | drivers/asrc/fsl_asrc.c:175-233 | the options the rates themselves ask for or their refusal, and that the driver has chosen those exactly when the rates are not refused and the remainder asks for the same two |
| AsrcRate.SlowOutputExact | drivers/asrc/fsl_asrc.c:175-233 | for output rates up to 76 kHz the driver's options are those of the rates exactly when no filter is needed and rate and remainder lie on the same side |
| AsrcRate.RefusalLost | drivers/asrc/fsl_asrc.c:343-346 | rates that should be refused and are accepted |
| AsrcRate.OptionsDiffer | drivers/asrc/fsl_asrc.c:343-346 | 48 kHz and 96 kHz to 96 kHz get other options than their own |
| AsrcClock.CalculateClockDivider | drivers/asrc/fsl_asrc.c:144-173 | the loop packs the pair the search function gives, divider less one above three bits of prescaler |
| AsrcClock.CoarseFits | drivers/asrc/fsl_asrc.c:151-166 | the coarse pair brackets the quotient, the prescaler is never one and is below eight exactly when the quotient is below 1152 |
| AsrcClock.CoarseFinest | drivers/asrc/fsl_asrc.c:151-166 | no usable pair that brackets the quotient has a smaller prescaler, and the prescaler found determines the divider |
| AsrcClock.TuningExact | drivers/asrc/fsl_asrc.c:167-170 | tuning keeps the prescaler and adds one to the divider exactly when the coarse pair runs too fast |
| AsrcClock.DividerMeaning | drivers/asrc/fsl_asrc.c:167-170 | the divided clock is never above the rate, the divider is at most nine, and tuning fires only when the divider below would exceed the rate |
| AsrcClock.PackedDecodes | drivers/asrc/fsl_asrc.c:172-172 | the packed value decodes to the pair exactly when the rates do not need a divider of nine and the quotient is below 1152 |
| AsrcClock.NineExact | drivers/asrc/fsl_asrc.c:151-170 | the divider is tuned to nine exactly when the quotient starts with eight after its halvings and the source clock still exceeds the rate |
| AsrcClock.SearchExample | drivers/asrc/fsl_asrc.c:144-173 | 300 kHz over 48 kHz gives divider seven, prescaler zero and the value 48 |
| AsrcClock.NineExample | drivers/asrc/fsl_asrc.c:167-172 | rates for which the divider is nine |
| AsrcTransfer.OwnBytes | drivers/asrc/fsl_asrc.c:137-141 | a masked word load depends on the sample's own bytes alone, in every format |
| AsrcTransfer.SampleBytes | drivers/asrc/fsl_asrc.c:247-281 | for each of the six formats, which bytes of the buffer reach which bytes of the word pushed |
| AsrcTransfer.SamplesAt | drivers/asrc/fsl_asrc.c:137-141 | the words pushed are those of consecutive samples |
| AsrcTransfer.WriteSamples | drivers/asrc/fsl_asrc.c:126-142 | the masked samples of the buffer are pushed in order, though loads reach past it |
| AsrcTransfer.ReadSamples | drivers/asrc/fsl_asrc.c:112-124 | the samples lie one width apart, the upper bytes of the last word behind them, and no other byte has changed |
| AsrcTransfer.TopUp | drivers/asrc/fsl_asrc.c:687-691 | topping up never exceeds 64 words a channel and pushes the next samples, as many as are left or fit above the watermark |
| AsrcTransfer.TransferBlocking | drivers/asrc/fsl_asrc.c:665-730 | after any number of passes the words pushed are an in-order prefix of the masked samples and the FIFO bound holds; the run of fills returned explains the words read and every byte of output memory, and the call has succeeded exactly when that run leaves nothing to read; memory past the last word is untouched; with a tail of one frame memory is as after one read; with a zero watermark nothing is read; no range error when the buffers fit the address space; the status words and fills the device showed determine how many samples were written and the whole run of reads, and it stops early only after the given number of passes |
| AsrcLayout.LaidAppend | drivers/asrc/fsl_asrc.c:112-124 | a read that starts where another ended leaves memory as one read of both |
| AsrcLayout.TailPlace | drivers/asrc/fsl_asrc.c:700-726 | in every run the output address stops where the last watermark or less begins |
| AsrcLayout.HeadInOrder | drivers/asrc/fsl_asrc.c:700-713 | in every run all samples before the tail lie in order |
| AsrcLayout.WholeInOrder | drivers/asrc/fsl_asrc.c:700-726 | with a tail of one frame every run, finished or not, leaves memory as one read of all its words |
| AsrcLayout.FrameLost | drivers/asrc/fsl_asrc.c:716-725 | with a longer tail there is a run that leaves the output without one frame, whatever the words |
| AsrcLayout.InOrderExact | drivers/asrc/fsl_asrc.c:700-726 | every converting run leaves the output in order exactly when the tail is at most one frame |
| AsrcLayout.LaterMemoryKept | drivers/asrc/fsl_asrc.c:112-124 | no run changes a byte past the last word |
| AsrcLayout.OverrunExact | drivers/asrc/fsl_asrc.c:112-124 | every run stays inside a buffer of the size given exactly when nothing is stored or samples take four bytes |
| AsrcLayout.StoresPastBuffer | drivers/asrc/fsl_asrc.c:119-123 | a run of every 16-bit request that changes a byte behind its buffer |
| AsrcLayout.ZeroMarkReadsNothing | drivers/asrc/fsl_asrc.c:700-713 | with a zero watermark no run reads anything |
| AsrcEdma.Ring.Submit | drivers/asrc/fsl_asrc_edma.c:298-318 | refused exactly when full, otherwise the transfer joins the end of the queue |
| AsrcEdma.Ring.Complete | drivers/asrc/fsl_asrc_edma.c:56-77 | the oldest transfer is retired, and queue-idle is reported exactly when none is left |
| AsrcEdma.Ring.Terminate | drivers/asrc/fsl_asrc_edma.c:424-443 | everything pending is dropped, every slot is free and both indices are zero |
| AsrcEdma.EdmaHandle.TransferEdma | drivers/asrc/fsl_asrc_edma.c:350-365 | when it succeeds, that the output half stays queued when the input half is refused, and that outputs accepted minus inputs accepted counts those refusals over every run |
| AsrcEdma.EdmaHandle.OutputCompleted | drivers/asrc/fsl_asrc_edma.c:79-102 | completions retire outputs in the order they were accepted |
| BbnsmRtc.NonzeroIsTrue | drivers/bbnsm/fsl_bbnsm.c:141-155 | for every interleaving with a forward-moving counter, a nonzero result is the time at one of the reads |
| BbnsmRtc.SnapshotExact | drivers/bbnsm/fsl_bbnsm.c:141-155 | every run from a counter value returns a true time exactly when that value is in the first second or past the lower register's range |
| BbnsmRtc.TornZero | drivers/bbnsm/fsl_bbnsm.c:143-152 | the run that returns a torn zero, for every other starting value |
| BbnsmRtc.ResultBounds | drivers/bbnsm/fsl_bbnsm.c:141-155 | a result is never ahead of the clock at the end of the call |
| BbnsmRtc.PassedAlarmExact | drivers/bbnsm/fsl_bbnsm.c:180-209 | an alarm due at the start of the call is refused in every run exactly when it is zero or the counter is past the lower register's range |
| BbnsmRtc.Rtc.GetSeconds | drivers/bbnsm/fsl_bbnsm.c:141-155 | the loop returns and its reads form such a run; with the clock stopped the result is the time |
| BbnsmRtc.Rtc.SetSeconds | drivers/bbnsm/fsl_bbnsm.c:163-178 | the counter shows the seconds, and a running timer stays running |
| BbnsmRtc.Rtc.SetAlarm | drivers/bbnsm/fsl_bbnsm.c:198-237 | accepted exactly when the time is after what the reads returned, what is programmed then and that nothing is otherwise; a refusal is only for a time that has passed |
| BbnsmRtc.Rtc.StartTimer | drivers/bbnsm/fsl_bbnsm.h:252-266 | the enable field becomes 0b10 from every value and nothing else changes |
| BbnsmRtc.Rtc.StopTimer | drivers/bbnsm/fsl_bbnsm.h:273-287 | the enable field becomes 0b01 from every value and nothing else changes |
| BbnsmRtc.Rtc.SetThenGet | drivers/bbnsm/fsl_bbnsm.c:141-178 | with the clock stopped any 32-bit time written is read back |
| BbnsmRtc.Rtc.Perform | drivers/bbnsm/fsl_bbnsm.c:87-237 | over every run of calls no enable field becomes 0b11, and the timer runs exactly when the last starting or stopping call started it |
| CadcSamples.TwoBitField | drivers/cadc/fsl_cadc.c:23-31 | writing one two-bit field leaves the others of the register |
| CadcSamples.FourBitField | drivers/cadc/fsl_cadc.c:27-28 | what writing a value of any width does to the four-bit fields: low bits in its own, the others added to the fields above |
| CadcSamples.NarrowChannel | drivers/cadc/fsl_cadc.c:27-28 | a channel number is read back exactly when it is below sixteen, and then no other slot changes |
| CadcSamples.MaskIsPairBit | drivers/cadc/fsl_cadc.c:676-691 | the mask table selects bits 4 to 7 of the first control register for pairs 0, 1, 4 and 5 and bits 7 to 10 of the second for pairs 2, 3, 6 and 7, in that order |
| CadcSamples.TwoBitLayout | drivers/cadc/fsl_cadc.c:24-31 | zero-crossing modes and gains lie in order through their two registers |
| CadcSamples.FourBitLayout | drivers/cadc/fsl_cadc.c:24-31 | channel numbers lie in order, four to a register |
| CadcSamples.GainBits | drivers/cadc/fsl_cadc.h:102-107 | the code is the binary logarithm of the gain |
| CadcSamples.CrossingBits | drivers/cadc/fsl_cadc.h:123-129 | each sign change has one bit of the code |
| CadcSamples.PairChanged | drivers/cadc/fsl_cadc.c:676-691 | the mask table moves the one bit the registers keep for the pair and no other bit of the control registers |
| CadcSamples.Adc.SetSampleConfig | drivers/cadc/fsl_cadc.c:700-853 | slot, channel gain and channel pair take the configuration; every other slot, gain, pair and control bit stays; the slot reads back exactly when the channel number is below sixteen |
| CadcSamples.Adc.ConfigureAll | drivers/cadc/fsl_cadc.c:700-853 | after any sequence of calls each slot, gain and pair decodes to its last setting or is untouched |
| BissMaster.RDataWrite | drivers/biss/fsl_biss.c:557-579 | the words hold the bytes, then zeroes to the end of one more word, and later words are untouched; below 64 bytes nothing behind the data registers changes, and at 64 the register behind them becomes zero |
| BissMaster.RDataRead | drivers/biss/fsl_biss.c:581-590 | the bytes read are the bytes of the words |
| BissMaster.WriteThenRead | drivers/biss/fsl_biss.c:557-590 | reading after writing returns the bytes for every count |
| BissMaster.CalculateMaDiv | drivers/biss/fsl_biss.c:60-87 | when a code is refused, that codes 0 to 16 come from the fast branch and 17 to 30 from the slow one, and the frequency bracket a code of either branch stands for |
| BissMaster.CalculateAgsDiv | drivers/biss/fsl_biss.c:89-103 | when the code divides by zero; a request above a twentieth of the source clock gives -1, and only that does; a fast code is at most 0x7B and a slow one at most 255 exactly when its quotient is small enough, which is so from 128 Hz on, where 0x7C comes only from the fallback; and the frequency bracket a code of either branch stands for |
| BissMaster.AgsCodeOutOfRange | drivers/biss/fsl_biss.c:89-103 | frequencies whose codes leave the range of their branch |
| BissMaster.PositionRebuilds | drivers/biss/fsl_biss.c:1368-1382 | multiturn, singleturn and status bits rebuild every word of the data length |
| BissMaster.PartsBounded | drivers/biss/fsl_biss.c:1071-1074 | each part stays in the bits the lengths leave it |
| BissMaster.PartsReadBack | drivers/biss/fsl_biss.c:1368-1382 | a word put together from parts gives them back |
| Adc12Calibration.Signed | drivers/adc12/fsl_adc12.c:19-22 | the raw field in two's complement: in range, and equal to it or less by its full range |
| Adc12Calibration.CalibrationSucceeds | drivers/adc12/fsl_adc12.c:95-128 | success exactly when the documented table holds over the integers and CLP1 is at least 23 and CLP2 at least 18 |
| Adc12Calibration.WrappedLimitRefuses | drivers/adc12/fsl_adc12.c:36-60 | values inside the table that the wrapped limit refuses |

## Left out

- AES cipher rounds, key loading and the GF(2^128) product: done by the hardware, so they are parameters.
- Polling of the ready, idle and enable flags: the model takes the device as ready; `TransferBlocking` covers
  every number of passes of its loop instead.
- DecryptTagGcm: what happens after a tag of more than sixteen bytes has overrun the copy is not modelled.
- TagExact: with a wrong IV length and a wrong data length at once two errors could cancel, so at most one is assumed;
  the tag is compared whole, since cut tags can agree by chance.
- AnyCutsExact: when less than a block is left to process under a spoilt counter, those bytes can come out right by
  chance, so that case is not decided; `AnyCutsCorrect` has no such bound.
- EncryptExact: likewise a message shorter than a block, but not empty, under an IV that cannot be counted up.
- SelectionExact: stated while 23 times the input rate and 129 times the output rate fit 32 bits, that is, for rates
  up to 186 and 33 MHz; beyond that the products of the choice wrap around.
- SetIdealRatioConfig: the split of the ratio over two registers and the processing-option fields are left out;
  their layout is in device headers.
- PositionRebuilds: masks of n ones are written as remainders modulo 2^n.
- Unaligned-access and compiler variants of the AES word helpers: one little-endian load and store.
- The unipolar differential mode and the extended sample slots of the CADC: optional features whose field widths
  are in device headers.
- The interrupt-driven ASRC queue, the eDMA abort calls and spurious completions: they do not keep a queue.
- `BISS_SCDLeftToRight`, the BiSS slave scan and the register protocol around the data words.
- `BBNSM_DisableInterrupts` and the other interrupt and status accessors of the RTC.
- Clock gating, resets and instance lookup in all drivers, and the drivers not named above: single-register
  updates that would add only easy members.
