/** The hash-chain controller `HChainCtl` of the S9 board with its memory
    mapped IP core replaced by four FIFOs: the controller pushes words into
    the command and work TX FIFOs and pops words from the command and work
    RX FIFOs. An RX FIFO that is empty when read stands for the IP core's
    read time-out. Each method is proved against the function of the FIFO
    contents in `Chain` that says what it sends and receives. */
module HChain {
  import opened Types
  import opened Wire
  import opened WorkIds
  import opened Chain

  /** `LittleEndian::write_u32` into the slice `buf[at .. at + 4]`. */
  method WriteLe(buf: array<byte>, at: nat, w: u32)
    requires at + 4 <= buf.Length
    modifies buf
    ensures buf[at .. at + 4] == LeBytes(w)
    ensures forall i | 0 <= i < buf.Length && !(at <= i < at + 4) :: buf[i] == old(buf[i])
  {
    buf[at] := (w & 0xFF) as byte;
    buf[at + 1] := ((w >> 8) & 0xFF) as byte;
    buf[at + 2] := ((w >> 16) & 0xFF) as byte;
    buf[at + 3] := ((w >> 24) & 0xFF) as byte;
  }

  class HChainCtl {
    /** The ID the next submitted work gets (a `u16` in the controller). */
    var workId: u32
    /** The number of chips found by the last enumeration. */
    var chipCount: nat
    /** log2 of the number of midstates per work. */
    const midstateCountBits: u32
    var cmdTx: seq<u32>
    var cmdRx: seq<u32>
    var workTx: seq<u32>
    var workRx: seq<u32>
    /** How many work IDs have been handed out, modulo 2^32. */
    ghost var issued: u32

    /** The midstate setting is one of the three the model covers and the
        work ID is the one issued after `issued` calls of `NextWorkId`. */
    ghost predicate Valid()
      reads this`workId, this`issued
    {
      && midstateCountBits <= MAX_MIDSTATE_COUNT_BITS
      && workId == IssuedId(midstateCountBits, issued)
    }

    /** The controller state `new` sets up: work IDs start at 0, no chip is
        known yet, and the FIFOs are empty. */
    constructor(midstateCountBits: u32)
      requires midstateCountBits <= MAX_MIDSTATE_COUNT_BITS
      ensures Valid()
      ensures this.midstateCountBits == midstateCountBits
      ensures workId == 0 && issued == 0 && chipCount == 0
      ensures cmdTx == [] && cmdRx == [] && workTx == [] && workRx == []
    {
      this.midstateCountBits := midstateCountBits;
      workId := 0;
      issued := 0;
      chipCount := 0;
      cmdTx, cmdRx, workTx, workRx := [], [], [], [];
    }

    // -------------------------------------------------------------------
    // FIFO access
    // -------------------------------------------------------------------

    method WriteToWorkTxFifo(item: u32)
      modifies this`workTx
      ensures workTx == old(workTx) + [item]
    {
      workTx := workTx + [item];
    }

    method WriteToCmdTxFifo(item: u32)
      modifies this`cmdTx
      ensures cmdTx == old(cmdTx) + [item]
    {
      cmdTx := cmdTx + [item];
    }

    /** Pops the oldest word of the work RX FIFO; an empty FIFO is a time-out
        and leaves the FIFO as it is. */
    method ReadFromWorkRxFifo() returns (r: Result<u32>)
      modifies this`workRx
      ensures old(workRx) == [] ==> r == Err(TimedOut) && workRx == old(workRx)
      ensures old(workRx) != [] ==> r == Ok(old(workRx)[0]) && workRx == old(workRx)[1..]
    {
      if workRx == [] {
        return Err(TimedOut);
      }
      r := Ok(workRx[0]);
      workRx := workRx[1..];
    }

    /** Pops the oldest word of the command RX FIFO; an empty FIFO is a
        time-out and leaves the FIFO as it is. */
    method ReadFromCmdRxFifo() returns (r: Result<u32>)
      modifies this`cmdRx
      ensures old(cmdRx) == [] ==> r == Err(TimedOut) && cmdRx == old(cmdRx)
      ensures old(cmdRx) != [] ==> r == Ok(old(cmdRx)[0]) && cmdRx == old(cmdRx)[1..]
    {
      if cmdRx == [] {
        return Err(TimedOut);
      }
      r := Ok(cmdRx[0]);
      cmdRx := cmdRx[1..];
    }

    // -------------------------------------------------------------------
    // Work IDs
    // -------------------------------------------------------------------

    /** Hands out the current work ID and advances it by 2^midstateCountBits,
        wrapping at 2^16. Every ID handed out has its low midstateCountBits
        bits clear, so the chips can put the midstate index there. */
    method NextWorkId() returns (id: u32)
      requires Valid()
      modifies this`workId, this`issued
      ensures Valid()
      ensures id == old(workId) && issued == old(issued) + 1
      ensures workId == AdvancedId(midstateCountBits, old(workId))
      ensures MidstateSlot(midstateCountBits, id) == 0
    {
      IssuedIdNext(midstateCountBits, issued);
      IssuedIdAligned(midstateCountBits, issued);
      id := workId;
      workId := AdvancedId(midstateCountBits, workId);
      issued := issued + 1;
    }

    // -------------------------------------------------------------------
    // Control commands
    // -------------------------------------------------------------------

    /** Pushes a command, a whole number of 4-byte chunks, into the command
        TX FIFO, each chunk as one little-endian word; nothing else changes.
        By `Wire.CommandAppended` the FIFO then carries exactly the
        command's bytes after what it carried before. */
    method SendCtlCmd(cmd: seq<byte>)
      requires |cmd| % 4 == 0
      modifies this`cmdTx
      ensures cmdTx == old(cmdTx) + Serialize(cmd)
    {
      var words := Serialize(cmd);
      var i := 0;
      while i < |cmd| / 4
        invariant 0 <= i <= |cmd| / 4
        invariant cmdTx == old(cmdTx) + words[..i]
      {
        WriteToCmdTxFifo(LeWord(cmd[4 * i .. 4 * i + 4]));
        i := i + 1;
      }
      assert words[..i] == words;
    }

    /** Reads one command response: none when the command RX FIFO is empty,
        otherwise two words written little-endian into an 8-byte buffer
        whose first 6 bytes are unpacked; a missing second word and a
        failed unpacking are errors. */
    method RecvCtlCmdResp<T>(unpack: seq<byte> -> Option<T>) returns (r: Result<Option<T>>)
      modifies this`cmdRx
      ensures r == CmdResp(old(cmdRx), unpack).result
      ensures cmdRx == CmdResp(old(cmdRx), unpack).rest
    {
      var cmdResp := new byte[8](_ => 0);
      var first := ReadFromCmdRxFifo();
      var word0;
      match first {
        case Err(err) =>
          if err == TimedOut {
            return Ok(None);
          }
          return Err(err);
        case Ok(w) =>
          word0 := w;
      }
      WriteLe(cmdResp, 0, word0);
      ghost var low := cmdResp[0..4];
      var second := ReadFromCmdRxFifo();
      if second.Err? {
        return Err(second.error);
      }
      WriteLe(cmdResp, 4, second.value);
      ghost var high := cmdResp[4..8];
      assert cmdResp[0..4] == low;
      assert cmdResp[4..6] == high[..2];
      assert cmdResp[..6] == low + high[..2];
      r := match unpack(cmdResp[..6])
        case None => Err(UnpackFailed)
        case Some(resp) => Ok(Some(resp));
    }

    // -------------------------------------------------------------------
    // Chip enumeration and addressing
    // -------------------------------------------------------------------

    /** The enumeration loop: reads responses to the broadcast read of the
        address register until there is none, counting the BM1387 replies
        in `chipCount`, and stops at the first error or at a chip of
        another revision. */
    method CountChips<R>(unpack: seq<byte> -> Option<R>, isBm1387: R -> bool)
        returns (failure: Option<Error>)
      modifies this`cmdRx, this`chipCount
      ensures var e := Scan(old(cmdRx), unpack, isBm1387, 0);
        chipCount == e.count && cmdRx == e.rest && failure == e.failure
    {
      chipCount := 0;
      while true
        invariant Scan(cmdRx, unpack, isBm1387, chipCount) == Scan(old(cmdRx), unpack, isBm1387, 0)
        decreases |cmdRx|
      {
        var resp := RecvCtlCmdResp(unpack);
        match resp {
          case Err(err) =>
            return Some(err);
          case Ok(None) =>
            return None;
          case Ok(Some(reply)) =>
            if !isBm1387(reply) {
              return Some(UnexpectedChipRev(chipCount));
            }
        }
        chipCount := chipCount + 1;
      }
    }

    /** Sends the set-chip-address command to every chip found, chip i
        getting address 4i (the closure `enumerate_chips` hands to
        `for_all_chips`, which never fails). */
    method AssignAddresses(setChipAddressCmd: ChipAddr -> seq<byte>)
      requires forall addr :: |setChipAddressCmd(addr)| % 4 == 0
      modifies this`cmdTx
      ensures cmdTx == old(cmdTx) + AddressingWords(setChipAddressCmd, chipCount)
    {
      var addr := 0;
      ghost var chip := 0;
      while addr < chipCount * 4
        invariant addr == 4 * chip && chip <= chipCount
        invariant cmdTx == old(cmdTx) + AddressingWords(setChipAddressCmd, chip)
      {
        SendCtlCmd(setChipAddressCmd(addr % 256));
        addr, chip := addr + 4, chip + 1;
      }
    }

    /** Detects the chips on the chain and gives each an address: counts the
        replies to the broadcast read of the address register, rejects a
        chain with a chip of another revision, with no chip or with
        MAX_CHIPS_ON_CHAIN chips or more, takes all chips off the chain
        three times and then gives chip i the address 4i. */
    method EnumerateChips<R>(getAddressCmd: seq<byte>, inactivateCmd: seq<byte>,
                             setChipAddressCmd: ChipAddr -> seq<byte>,
                             unpack: seq<byte> -> Option<R>, isBm1387: R -> bool)
        returns (r: Result<()>)
      requires |getAddressCmd| % 4 == 0 && |inactivateCmd| % 4 == 0
      requires forall addr :: |setChipAddressCmd(addr)| % 4 == 0
      modifies this`cmdTx, this`cmdRx, this`chipCount
      ensures var e := Scan(old(cmdRx), unpack, isBm1387, 0);
        && chipCount == e.count && cmdRx == e.rest
        && (e.failure.Some? ==> r == Err(e.failure.value))
        && (e.failure.None? && e.count >= MAX_CHIPS_ON_CHAIN ==> r == Err(TooManyChips(e.count)))
        && (e.failure.None? && e.count == 0 ==> r == Err(NoChips))
        && (r.Ok? <==> e.failure.None? && 0 < e.count < MAX_CHIPS_ON_CHAIN)
      ensures r.Err? ==> cmdTx == old(cmdTx) + Serialize(getAddressCmd)
      ensures r.Ok? ==> cmdTx == old(cmdTx) + Serialize(getAddressCmd)
                                 + Repeated(Serialize(inactivateCmd), 3)
                                 + AddressingWords(setChipAddressCmd, chipCount)
    {
      SendCtlCmd(getAddressCmd);
      var failure := CountChips(unpack, isBm1387);
      if failure.Some? {
        return Err(failure.value);
      }
      if chipCount >= MAX_CHIPS_ON_CHAIN {
        return Err(TooManyChips(chipCount));
      }
      if chipCount == 0 {
        return Err(NoChips);
      }
      var enumerated := cmdTx;
      for i := 0 to 3
        modifies this`cmdTx
        invariant cmdTx == enumerated + Repeated(Serialize(inactivateCmd), i)
      {
        SendCtlCmd(inactivateCmd);
      }
      AssignAddresses(setChipAddressCmd);
      r := Ok(());
    }

    /** Applies `f` to the address of every chip, in chain order, stopping
        at the first error; the outcome is that error, or the value of the
        last call, or an error when no chip is known. */
    method ForAllChips<R>(f: ChipAddr -> Result<R>) returns (result: Result<R>)
      ensures result == ForAllChipsOutcome(f, chipCount)
    {
      result := Err(NoChipsToIterate);
      var addr := 0;
      ghost var chip := 0;
      while addr < chipCount * 4
        invariant addr == 4 * chip && chip <= chipCount
        invariant result == ForAllChipsOutcome(f, chip)
        invariant forall j | 0 <= j < chip :: f(ChipAddress(j)).Ok?
      {
        var value := f(addr % 256);
        if value.Err? {
          ForAllChipsFirstFailure(f, chipCount, chip);
          return value;
        }
        result := Ok(value.value);
        if chip > 0 {
          ForAllChipsSucceeds(f, chip);
        }
        addr, chip := addr + 4, chip + 1;
      }
    }

    // -------------------------------------------------------------------
    // Work submission and results
    // -------------------------------------------------------------------

    /** Pushes the words of a midstate into the work TX FIFO, last word
        first, as the chips expect them. */
    method WriteMidstate(midstate: Midstate)
      modifies this`workTx
      ensures workTx == old(workTx) + Reversed(midstate)
    {
      var j := 8;
      while j > 0
        invariant 0 <= j <= 8
        invariant workTx == old(workTx) + Reversed(midstate)[..8 - j]
      {
        j := j - 1;
        WriteToWorkTxFifo(midstate[j]);
        assert Reversed(midstate)[..8 - j] == Reversed(midstate)[..8 - j - 1] + [midstate[j]];
      }
    }

    /** Pushes the words of `work` under ID `id` into the work TX FIFO:
        the ID, nbits, ntime, the low word of the merkle root, then each
        midstate's words in reverse order. */
    method WriteWork(id: u32, work: MiningWork)
      modifies this`workTx
      ensures workTx == old(workTx) + WorkWords(id, work)
    {
      WriteToWorkTxFifo(id);
      WriteToWorkTxFifo(work.nbits);
      WriteToWorkTxFifo(work.ntime);
      WriteToWorkTxFifo(work.merkelRootLsw);
      var header := [id, work.nbits, work.ntime, work.merkelRootLsw];
      var m := 0;
      while m < |work.midstates|
        invariant 0 <= m <= |work.midstates|
        invariant workTx == old(workTx) + header + MidstateWords(work.midstates[..m])
      {
        WriteMidstate(work.midstates[m]);
        assert work.midstates[..m + 1][..m] == work.midstates[..m];
        m := m + 1;
      }
      assert work.midstates[..m] == work.midstates;
    }

    /** Submits a work: takes the next work ID and pushes the work under it
        into the work TX FIFO; the ID is returned. */
    method SendWork(work: MiningWork) returns (id: u32)
      requires Valid()
      modifies this`workId, this`issued, this`workTx
      ensures Valid()
      ensures id == old(workId) && issued == old(issued) + 1
      ensures workId == AdvancedId(midstateCountBits, old(workId))
      ensures MidstateSlot(midstateCountBits, id) == 0
      ensures workTx == old(workTx) + WorkWords(id, work)
    {
      id := NextWorkId();
      WriteWork(id, work);
    }

    /** Reads one mining result from the work RX FIFO: none when it is
        empty, otherwise the nonce and the word carrying the result ID. */
    method RecvWorkResult() returns (r: Result<Option<MiningWorkResult>>)
      requires Valid()
      modifies this`workRx
      ensures r == WorkResult(midstateCountBits, old(workRx)).result
      ensures workRx == WorkResult(midstateCountBits, old(workRx)).rest
    {
      var first := ReadFromWorkRxFifo();
      var nonce;
      match first {
        case Err(err) =>
          if err == TimedOut {
            return Ok(None);
          }
          return Err(err);
        case Ok(w) =>
          nonce := w;
      }
      var second := ReadFromWorkRxFifo();
      if second.Err? {
        return Err(second.error);
      }
      var word2 := second.value;
      r := Ok(Some(MiningWorkResult(nonce, None, MidstateIdxFromResultId(midstateCountBits, word2),
                                    word2 & 0xFF_FFFF)));
    }
  }
}
