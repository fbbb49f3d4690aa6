# HChainCtl: the S9 hash-chain controller, modelled in Dafny

`HChainCtl` in `open/bosminer/src/hal/s9/mod.rs` drives one hashing board of an
Antminer S9 through an FPGA IP core. Without its memory-mapped registers, it
encodes and decodes values over four 32-bit FIFOs:

- Control commands for the BM1387 chips are byte strings. They are pushed
  into the command TX FIFO as little-endian words.
- Each chip's 7-byte response comes back as two words in the command RX FIFO.
- Mining work is pushed into the work TX FIFO under a 16-bit work ID. The ID
  advances by `1 << midstate_count_bits` per work.
- Solutions come back from the work RX FIFO as two words. The second word
  carries the work ID, the midstate index and the solution index.
- At start-up the controller counts the chips that answer a broadcast read of
  their address register. It checks their revision and their number, then
  gives chip i the address 4i.

The project has five modules:

- `Types` (`types.dfy`): the `Option`/`Result` wrappers, the errors the
  controller reports, and the byte and word types.
- `Wire` (`wire.dfy`): little-endian conversion between bytes and FIFO words,
  the chunking of a command into words, and the 6 bytes of a response that
  reach the unpacker.
- `WorkIds` (`work_ids.dfy`): the shift-and-mask decoders of a result ID, and
  the sequence of work IDs the counter hands out.
- `Chain` (`chain.dfy`): what the controller puts into the FIFOs and takes out
  of them, as functions of the FIFO contents:
  - reading one response;
  - the enumeration loop;
  - the chip addresses;
  - what `for_all_chips` returns;
  - the word layout of a work;
  - the assembly of a result.
- `HChain` (`hchain.dfy`): the controller as the class `HChainCtl`.
  - Its fields are `workId`, `chipCount`, `midstateCountBits` and the four
    FIFOs. A ghost counter `issued` ties `workId` to the number of IDs handed
    out so far.
  - Its methods update these fields with the source's loops.
  - Each method is proved against the matching `Chain` function.

An RX FIFO that is empty when read stands for the IP core's read time-out
(`ErrorKind::TimedOut`).

The BM1387 command encodings are not part of this model. Commands are
therefore byte sequences passed in by the caller. Unpacking a response is a
function parameter `unpack`, and the revision check is a predicate parameter
`isBm1387`.

`midstate_count_bits` is 0, 1 or 2: one, two or four midstates per work. These
are the three settings the controller's unit test uses.

The work ID a caller gets back from `send_work` and the one
`get_work_id_from_result` decodes from a solution for that work differ:
the decoder shifts the ID right by b. With four midstates the second work
goes out under ID 4, and its solutions decode to work ID 1. A caller that
pairs results with works has to shift the sent ID the same way.

## Model

| member | source | states |
|---|---|---|
| WorkIds.WorkIdFromResultId | open/bosminer/src/hal/s9/mod.rs:458-462 | The work ID is the result ID shifted right by 8 + b. It has at most 24 - b bits. |
| WorkIds.MidstateIdxFromResultId | open/bosminer/src/hal/s9/mod.rs:464-468 | The midstate index is bits 8 .. 8+b of the result ID, so it is below 2^b. |
| WorkIds.SolutionIdxFromResultId | open/bosminer/src/hal/s9/mod.rs:470-474 | The solution index is the low 8 bits (`WORK_ID_OFFSET`), so it is below 256. |
| WorkIds.ResultIdPartition | open/bosminer/src/hal/s9/mod.rs:42-44 | For b ≤ 2, the three decoded fields put back in place (work ID above bit 8+b, midstate index at bit 8, solution index at bit 0) reassemble every result ID within 24 bits exactly. |
| WorkIds.ResultIdRoundTrip | open/bosminer/src/hal/s9/mod.rs:458-474 | For b ≤ 2, a result ID laid out from a work ID below 2^(24-b), a midstate index below 2^b and a solution index below 256 decodes back to exactly those three values. |
| WorkIds.ResultIdTestVectors | open/bosminer/src/hal/s9/mod.rs:671-739 | For 0x00123502 with ONE, TWO and FOUR midstates, the decoders give work IDs 0x1235, 0x1235>>1 and 0x1235>>2, midstate indices 0, 1 and 1, and solution index 2, as the unit test expects. |
| WorkIds.MidstateIdxIgnoresTopByte | open/bosminer/src/hal/s9/mod.rs:578-580 | Decoding the midstate index from the raw second word gives the same value as decoding it from the word with its top byte masked off. |
| WorkIds.IssuedIdNext | open/bosminer/src/hal/s9/mod.rs:399-403 | The ID after n+1 hand-outs is the ID after n hand-outs plus 2^b, wrapped at 2^16 as the `u16` counter wraps. |
| WorkIds.IssuedId | open/bosminer/src/hal/s9/mod.rs:399-403 | The counter after n hand-outs from the initial 0 is n·2^b wrapped at 2^16, a 16-bit value. |
| WorkIds.AdvancedId | open/bosminer/src/hal/s9/mod.rs:401 | One step of the `u16` counter: a 16-bit value, equal to the ID plus 2^b whenever that sum does not pass 0xFFFF. |
| WorkIds.IssuedIdAligned | open/bosminer/src/hal/s9/mod.rs:398-403 | Every ID handed out from the initial 0 has its low b bits clear. |
| WorkIds.IssuedIdIndex | open/bosminer/src/hal/s9/mod.rs:57-58 | The n-th ID shifted right by b is n modulo the roll-over period 2^(16-b). |
| WorkIds.IssuedIdFitsResult | open/bosminer/src/hal/s9/mod.rs:460-462 | An issued ID shifted right by b fits the work-ID field of a result ID. |
| WorkIds.IssuedIdDecodes | open/bosminer/src/hal/s9/mod.rs:458-474 | The result ID a chip forms from an issued work ID, any midstate index below 2^b and any solution index below 256 decodes to the issued ID shifted right by b and to those two indices. |
| WorkIds.AlignedIdDecodes | open/bosminer/src/hal/s9/mod.rs:458-474 | The same for any 16-bit work ID with its low b bits clear that fits the work-ID field. |
| WorkIds.IssuedIdsDistinct | open/bosminer/src/hal/s9/mod.rs:57-58 | Within one roll-over period no two hand-outs give the same work ID. |
| WorkIds.AlignedResultId | open/bosminer/src/hal/s9/mod.rs:42-44 | A chip that ORs its midstate index into the clear low bits of an aligned work ID produces the result ID laid out from the ID shifted right by b. |
| WorkIds.SolutionWordWorkId | open/bosminer/src/hal/s9/mod.rs:586-588 | The work ID read back from a solution for the n-th issued work, with the top byte masked off, is n modulo the roll-over period. |
| WorkIds.SolutionWordMidstateIdx | open/bosminer/src/hal/s9/mod.rs:578 | The midstate index read back from such a solution is the one the chip added. |
| WorkIds.SolutionWordSolutionIdx | open/bosminer/src/hal/s9/mod.rs:472-474 | The solution index read back from a solution word masked to 24 bits is the one the chip reported. |
| Wire.LeBytes | open/bosminer/src/hal/s9/mod.rs:512 | `LittleEndian::write_u32` yields four bytes. |
| Wire.LeWord | open/bosminer/src/hal/s9/mod.rs:487 | `LittleEndian::read_u32` of a 4-byte chunk; `Wire.LeWordOfLeBytes` and `Wire.LeBytesOfLeWord` prove it the inverse of `Wire.LeBytes`. |
| Wire.LeWordOfLeBytes | open/bosminer/src/hal/s9/mod.rs:486-488 | Reading back the little-endian bytes of a word gives the word. |
| Wire.LeBytesOfLeWord | open/bosminer/src/hal/s9/mod.rs:486-488 | Writing out the word read from four bytes gives the bytes back. |
| Wire.ByteLanes | open/bosminer/src/hal/s9/mod.rs:486-488 | Each byte lane of an assembled word holds the byte put there. |
| Wire.Serialize | open/bosminer/src/hal/s9/mod.rs:479-488 | A command whose length is a multiple of 4 occupies length/4 words. Word i is the little-endian value of bytes 4i .. 4i+3. |
| Wire.Deserialize | open/bosminer/src/hal/s9/mod.rs:512-516 | n words carry 4n bytes. |
| Wire.DeserializeSerialize | open/bosminer/src/hal/s9/mod.rs:486-488 | Chunking a command into words loses nothing: the bytes of the words are the command. |
| Wire.SerializeDeserialize | open/bosminer/src/hal/s9/mod.rs:486-488 | Words come back unchanged from their bytes. |
| Wire.SerializeAppend | open/bosminer/src/hal/s9/mod.rs:486-488 | The words of two commands one after the other are the words of each in turn. |
| Wire.DeserializeAppend | open/bosminer/src/hal/s9/mod.rs:486-488 | The bytes of two word sequences one after the other are the bytes of each in turn. |
| Wire.CommandAppended | open/bosminer/src/hal/s9/mod.rs:479-488 | After a command's words are appended, the FIFO carries its previous bytes followed by exactly the command's bytes. |
| Wire.RespFrame | open/bosminer/src/hal/s9/mod.rs:502-521 | The unpacker gets 6 bytes: the 4 bytes of the first word, then the first 2 bytes of the second word. |
| Wire.RespFrameOfWire | open/bosminer/src/hal/s9/mod.rs:518-521 | A response that left the chain as 8 bytes reaches the unpacker as its first 6 bytes, without the checksum and padding bytes. |
| Chain.CmdResp | open/bosminer/src/hal/s9/mod.rs:501-531 | Reading a response yields no response exactly when the FIFO is empty, and then consumes nothing. One word is a time-out error that consumes it. Otherwise exactly two words are consumed. |
| Chain.CmdRespOfWire | open/bosminer/src/hal/s9/mod.rs:501-531 | A response carried as two words is consumed whole. It is unpacked from its first 6 bytes, and a failed unpacking is the unpacking error. |
| Chain.Scan | open/bosminer/src/hal/s9/mod.rs:260-274 | The enumeration loop counts at most one chip per two-word reply and never grows the FIFO. |
| Chain.ScanSucceeds | open/bosminer/src/hal/s9/mod.rs:260-274 | The loop ends without an error exactly when the FIFO holds whole replies and every reply unpacks to a BM1387 address register. |
| Chain.ScanCountsReplies | open/bosminer/src/hal/s9/mod.rs:259-274 | When the loop ends without an error, the chip count is the number of replies and the FIFO is empty. |
| Chain.ScanReportsBadChip | open/bosminer/src/hal/s9/mod.rs:261-272 | A chip of the wrong revision is reported by its number, which is the chip count reached. Its reply lies wholly inside the FIFO. |
| Chain.ScanBadChipReply | open/bosminer/src/hal/s9/mod.rs:261-272 | The reply of the reported chip is one that does not unpack to a BM1387. |
| Chain.ChipAddress | open/bosminer/src/hal/s9/mod.rs:318-331 | Every address is a multiple of 4, and below `MAX_CHIPS_ON_CHAIN` chip i gets address 4i (the stepped counter truncated to 8 bits). |
| Chain.ChipAddressesIncrease | open/bosminer/src/hal/s9/mod.rs:38-40 | Below 64 chips, addresses increase along the chain, so they are distinct. |
| Chain.ChipAddressesWrapAtLimit | open/bosminer/src/hal/s9/mod.rs:38-40 | Chip 64 would get chip 0's address, which is why 64 chips are refused. |
| Chain.AddressingBytes | open/bosminer/src/hal/s9/mod.rs:305-309 | The set-chip-address commands together are a whole number of words. |
| Chain.AddressingWords | open/bosminer/src/hal/s9/mod.rs:305-309 | The words the address loop sends for the first n chips; `Chain.AddressingWordsCarryCommands` proves them the serialization of the commands. |
| Chain.AddressingWordsCarryCommands | open/bosminer/src/hal/s9/mod.rs:305-309 | The words sent during addressing are the serialization of exactly the set-chip-address commands for chips 0 .. n-1, in chain order. |
| Chain.ForAllChipsSucceeds | open/bosminer/src/hal/s9/mod.rs:318-331 | `for_all_chips` succeeds exactly when there are chips and `f` succeeds on every address. It then returns the last chip's value. |
| Chain.ForAllChipsFirstFailure | open/bosminer/src/hal/s9/mod.rs:325-328 | Otherwise it returns the error of the first chip `f` fails on. |
| Chain.ForAllChipsOutcome | open/bosminer/src/hal/s9/mod.rs:318-331 | With no chips the result is the no-chips error. A success means `f` succeeded on every chip. An error is the error of some chip's call. |
| Chain.MidstateWords | open/bosminer/src/hal/s9/mod.rs:546-552 | The midstates occupy 8 words each. |
| Chain.Reversed | open/bosminer/src/hal/s9/mod.rs:549 | `.iter().rev()`: same length, the last word first and the first word last. |
| Chain.ReversedTwice | open/bosminer/src/hal/s9/mod.rs:549 | Reversing twice gives the words back unchanged. |
| Chain.MidstateWordsSlots | open/bosminer/src/hal/s9/mod.rs:546-552 | Midstate m occupies words 8m .. 8m+8 of the midstate part, in reverse word order. |
| Chain.WorkWords | open/bosminer/src/hal/s9/mod.rs:541-552 | The words of a work are 4 + 8·(number of midstates) long and start with the work ID. |
| Chain.WorkWordsLayout | open/bosminer/src/hal/s9/mod.rs:541-552 | A work is 4 + 8·(number of midstates) words: work ID, nbits, ntime and merkle-root word, then midstate m reversed in slot m. |
| Chain.WorkResult | open/bosminer/src/hal/s9/mod.rs:556-584 | Reading a result yields none exactly when the FIFO is empty, and then consumes nothing. One word is a time-out error. Otherwise exactly two words are consumed. |
| Chain.ResultOfWords | open/bosminer/src/hal/s9/mod.rs:574-581 | The result keeps the nonce, has no ntime, a midstate index below 2^b, a result ID of 24 bits, and the solution index of the second word's low byte. |
| Chain.WorkResultTakesTwoWords | open/bosminer/src/hal/s9/mod.rs:563-583 | A result is assembled from the nonce and the second word: no ntime, the decoded midstate index, and the second word masked to 24 bits. The rest of the FIFO is left. |
| Chain.WorkIdOfResult | open/bosminer/src/hal/s9/mod.rs:586-588 | The work ID of a result has at most 24 - b bits. |
| Chain.IssuedWorkResult | open/bosminer/src/hal/s9/mod.rs:556-588 | A solution for the n-th issued work is read back with the chip's midstate index and solution index. Its work ID is n modulo the roll-over period, which is the ID the work was sent under shifted right by b, not that ID itself. |
| HChain.WriteLe | open/bosminer/src/hal/s9/mod.rs:512-516 | Writing a word into the response buffer puts its little-endian bytes at the given offset and changes no other byte. |
| HChain.HChainCtl.constructor | open/bosminer/src/hal/s9/mod.rs:145-154 | A new controller has work ID 0, no chips and empty FIFOs. |
| HChain.HChainCtl.WriteToWorkTxFifo | open/bosminer/src/hal/s9/mod.rs:408-414 | Appends one word to the work TX FIFO. |
| HChain.HChainCtl.WriteToCmdTxFifo | open/bosminer/src/hal/s9/mod.rs:435-439 | Appends one word to the command TX FIFO. |
| HChain.HChainCtl.ReadFromWorkRxFifo | open/bosminer/src/hal/s9/mod.rs:417-431 | Pops the oldest word of the work RX FIFO. An empty FIFO is a time-out and is left unchanged. |
| HChain.HChainCtl.ReadFromCmdRxFifo | open/bosminer/src/hal/s9/mod.rs:442-456 | Pops the oldest word of the command RX FIFO. An empty FIFO is a time-out and is left unchanged. |
| HChain.HChainCtl.NextWorkId | open/bosminer/src/hal/s9/mod.rs:397-403 | Returns the current work ID and advances it by 2^b modulo 2^16. The returned ID is the n-th issued ID and has its low b bits clear. |
| HChain.HChainCtl.SendCtlCmd | open/bosminer/src/hal/s9/mod.rs:479-493 | Appends exactly the command's words, in order, to the command TX FIFO and changes nothing else. |
| HChain.HChainCtl.RecvCtlCmdResp | open/bosminer/src/hal/s9/mod.rs:501-531 | Its result and the FIFO left are those of `Chain.CmdResp`. |
| HChain.HChainCtl.CountChips | open/bosminer/src/hal/s9/mod.rs:259-274 | `chipCount`, the failure and the command RX FIFO left are those of the enumeration loop `Chain.Scan`. |
| HChain.HChainCtl.AssignAddresses | open/bosminer/src/hal/s9/mod.rs:305-309 | Appends the set-chip-address command for each chip, chip i with address 4i, in chain order. |
| HChain.HChainCtl.EnumerateChips | open/bosminer/src/hal/s9/mod.rs:256-315 | Outcome of enumeration. `chipCount` is the number of good replies before the loop stopped. The loop's error, 64 chips or more, and no chip are each an error; any other outcome is success. On an error only the broadcast read was sent. On success the inactivate command was sent three times, then the address commands. |
| HChain.HChainCtl.ForAllChips | open/bosminer/src/hal/s9/mod.rs:316-331 | Returns `Chain.ForAllChipsOutcome`: an error with no chips, the first error of `f` in chain order, or the last chip's value. |
| HChain.HChainCtl.WriteMidstate | open/bosminer/src/hal/s9/mod.rs:546-551 | Appends a midstate's 8 words in reverse order. |
| HChain.HChainCtl.WriteWork | open/bosminer/src/hal/s9/mod.rs:541-552 | Appends exactly `Chain.WorkWords` for the ID and the work. |
| HChain.HChainCtl.SendWork | open/bosminer/src/hal/s9/mod.rs:535-554 | Issues the next work ID, as `NextWorkId` does, and appends the work's words under it. The returned ID is the one used. |
| HChain.HChainCtl.RecvWorkResult | open/bosminer/src/hal/s9/mod.rs:556-584 | Its result and the FIFO left are those of `Chain.WorkResult`. |

## Left out

- Memory mapping of the IP core and raw register access (`mmap`, `new`'s
  hardware part, `ip_core_init`, `enable_ip_core`, `set_baud`,
  `set_work_time`, `set_midstate_count`) are foreign hardware I/O. The FIFOs
  stand in for the registers.
- GPIO plug and reset pins, the voltage controller and its I2C back end
  (`init`, `enter_reset`, `exit_reset`) drive external devices whose code is
  not part of this model.
- `send_voltage_ctrl_heart_beat` is a no-op in the model, and all
  `thread::sleep` calls are dropped.
  - Its error paths in `enumerate_chips`, `send_work` and `recv_work_result`
    are therefore absent.
  - In `send_work` the heartbeat could fail after the work ID was already
    advanced; the model does not capture that.
- Busy waits on the FIFO full and empty flags, and the `wait` flag of
  `send_ctl_cmd`, are dropped. TX FIFOs are unbounded appends.
- HChain.HChainCtl.ReadFromWorkRxFifo: only the time-out error is modelled.
  The register read itself cannot fail here, so the branches of
  `recv_ctl_cmd_resp` and `recv_work_result` that pass on other errors are
  never taken.
- `u256_as_u32_slice` reinterprets memory in a way that depends on
  endianness. Each midstate is taken as its 8 words.
- BM1387 command encodings and `PackedStructSlice::unpack_from_slice` are not
  part of this model.
  - Commands are byte sequences given by the caller. `send_ctl_cmd` asserts
    that a command is a whole number of 4-byte words and panics otherwise;
    the model takes that assert as a precondition of `SendCtlCmd` and of the
    members that send commands.
  - Unpacking and the revision check are parameters.
- HChain.HChainCtl.EnumerateChips: the address closure handed to
  `for_all_chips` sends commands, so its loop is written out in
  `AssignAddresses`. That closure always returns `Ok(())`, so the `?` after
  `for_all_chips` never fails.
- HChain.HChainCtl.NextWorkId: only the wrap-around of the `u16` counter is
  modelled. A debug build of the source would panic on the overflow instead.
- WorkIds.ResultIdPartition: the result-ID and work-ID lemmas are proved for
  b ≤ 2, the three settings the unit test uses (ONE, TWO, FOUR); the model
  assumes b ≤ 2. Larger b is not covered.
- `get_chip_count` only reads `chip_count` (the `chipCount` field), and
  `get_work_id_from_result` is `Chain.WorkIdOfResult`.
- The hardware tests `test_hchain_ctl_instance` and `test_hchain_ctl_init`,
  the asynchronous orchestration in `open/bosminer/bosminer/src/entry.rs` and
  the module list in `open/bosminer/src/lib.rs` are outside the controller's
  logic.
