/** What the hash-chain controller puts into and takes out of the IP core's
    FIFOs, as functions of the FIFO contents: the reading of one command
    response, the enumeration of the chips on the chain, the addresses they
    are given, the word layout of a mining work and the assembly of a
    mining work result. The controller's methods are proved against these. */
module Chain {
  import opened Types
  import opened Wire
  import opened WorkIds

  /** Chips are addressed in steps of 4 in an 8-bit address field, so at
      most 64 of them can be told apart. */
  const MAX_CHIPS_ON_CHAIN: nat := 64

  /** The outcome of reading one two-word response from an RX FIFO, and
      the words left in the FIFO afterwards. */
  datatype Received<+T> = Received(result: Result<Option<T>>, rest: seq<u32>)

  // ---------------------------------------------------------------------
  // Command responses
  // ---------------------------------------------------------------------

  /** Reading one command response from the command RX FIFO `rx`: an empty
      FIFO is no response; otherwise two words are taken, written
      little-endian into an 8-byte buffer, and its first 6 bytes are
      handed to `unpack`. */
  function CmdResp<T>(rx: seq<u32>, unpack: seq<byte> -> Option<T>): (r: Received<T>)
    ensures r.result == Ok(None) <==> rx == []
    ensures rx == [] ==> r.rest == rx
    ensures |rx| == 1 ==> r.result == Err(TimedOut) && r.rest == []
    ensures |rx| >= 2 ==> r.rest == rx[2..]
  {
    if |rx| == 0 then Received(Ok(None), rx)
    else if |rx| == 1 then Received(Err(TimedOut), [])
    else match unpack(RespFrame(rx[0], rx[1]))
      case None => Received(Err(UnpackFailed), rx[2..])
      case Some(reply) => Received(Ok(Some(reply)), rx[2..])
  }

  /** A response that a chip sent as 8 bytes `wire` (7 response bytes and
      one byte of padding), carried by the FIFO as two little-endian words,
      reaches the unpacker as the first 6 bytes the chip sent, and exactly
      its two words are consumed. */
  lemma CmdRespOfWire<T>(wire: seq<byte>, rest: seq<u32>, unpack: seq<byte> -> Option<T>)
    requires |wire| == 8
    ensures CmdResp(Serialize(wire) + rest, unpack).rest == rest
    ensures unpack(wire[..6]).Some? ==>
              CmdResp(Serialize(wire) + rest, unpack).result == Ok(unpack(wire[..6]))
    ensures unpack(wire[..6]).None? ==>
              CmdResp(Serialize(wire) + rest, unpack).result == Err(UnpackFailed)
  {
    var rx := Serialize(wire) + rest;
    assert wire[4..] == wire[4..8];
    assert rx[0] == LeWord(wire[..4]) && rx[1] == LeWord(wire[4..]);
    RespFrameOfWire(wire);
    assert rx[2..] == rest;
  }

  // ---------------------------------------------------------------------
  // Chip enumeration
  // ---------------------------------------------------------------------

  /** Where the enumeration loop stops: the number of chips counted, the
      words left in the command RX FIFO, and the error it stopped with, if
      any. */
  datatype Enumeration = Enumeration(count: nat, rest: seq<u32>, failure: Option<Error>)

  /** The enumeration loop of `enumerate_chips` over the replies `rx` to
      the broadcast read of the address register, `counted` chips having
      been counted so far: it reads responses until there is none, stops
      at the first read error or unpacking error, and stops at a reply
      from a chip that is not a BM1387, reporting that chip's number. */
  function Scan<R>(rx: seq<u32>, unpack: seq<byte> -> Option<R>, isBm1387: R -> bool,
                   counted: nat): (e: Enumeration)
    ensures counted <= e.count <= counted + |rx| / 2
    ensures |e.rest| <= |rx|
    decreases |rx|
  {
    var rcv := CmdResp(rx, unpack);
    match rcv.result
    case Err(err) => Enumeration(counted, rcv.rest, Some(err))
    case Ok(None) => Enumeration(counted, rcv.rest, None)
    case Ok(Some(reply)) =>
      if isBm1387(reply) then Scan(rcv.rest, unpack, isBm1387, counted + 1)
      else Enumeration(counted, rcv.rest, Some(UnexpectedChipRev(counted)))
  }

  /** Reply `k` in `rx` (words 2k and 2k+1) unpacks to a BM1387's address
      register. */
  predicate GoodReply<R>(rx: seq<u32>, k: nat, unpack: seq<byte> -> Option<R>, isBm1387: R -> bool)
    requires 2 * k + 1 < |rx|
  {
    match unpack(RespFrame(rx[2 * k], rx[2 * k + 1]))
    case None => false
    case Some(reply) => isBm1387(reply)
  }

  /** The enumeration loop ends without an error exactly when the FIFO
      holds whole replies and every one of them is a good BM1387 reply. */
  lemma {:induction false} ScanSucceeds<R>(rx: seq<u32>, unpack: seq<byte> -> Option<R>,
                                           isBm1387: R -> bool, counted: nat)
    ensures Scan(rx, unpack, isBm1387, counted).failure.None?
        <==> |rx| % 2 == 0 && forall k: nat | 2 * k + 1 < |rx| :: GoodReply(rx, k, unpack, isBm1387)
    decreases |rx|
  {
    if |rx| >= 2 {
      var rest := rx[2..];
      forall k: nat | 2 * k + 1 < |rest|
        ensures GoodReply(rest, k, unpack, isBm1387) == GoodReply(rx, k + 1, unpack, isBm1387)
      {
        assert rest[2 * k] == rx[2 * (k + 1)] && rest[2 * k + 1] == rx[2 * (k + 1) + 1];
      }
      if GoodReply(rx, 0, unpack, isBm1387) {
        ScanSucceeds(rest, unpack, isBm1387, counted + 1);
        if |rx| % 2 == 0 && forall k: nat | 2 * k + 1 < |rest| :: GoodReply(rest, k, unpack, isBm1387) {
          forall k: nat | 2 * k + 1 < |rx|
            ensures GoodReply(rx, k, unpack, isBm1387)
          {
            if k > 0 {
              assert GoodReply(rest, k - 1, unpack, isBm1387);
            }
          }
        }
      }
    }
  }

  /** When the loop ends without an error it has counted one chip per
      reply and emptied the FIFO. */
  lemma {:induction false} ScanCountsReplies<R>(rx: seq<u32>, unpack: seq<byte> -> Option<R>,
                                                isBm1387: R -> bool, counted: nat)
    requires Scan(rx, unpack, isBm1387, counted).failure.None?
    ensures Scan(rx, unpack, isBm1387, counted).count == counted + |rx| / 2
    ensures Scan(rx, unpack, isBm1387, counted).rest == []
    decreases |rx|
  {
    if |rx| >= 2 {
      ScanCountsReplies(rx[2..], unpack, isBm1387, counted + 1);
    }
  }

  /** A chip of the wrong revision is reported by its position on the
      chain: the number of good replies read before it, and its reply is
      one that the FIFO holds in full. */
  lemma {:induction false} ScanReportsBadChip<R>(rx: seq<u32>, unpack: seq<byte> -> Option<R>,
                                                 isBm1387: R -> bool, counted: nat)
    requires Scan(rx, unpack, isBm1387, counted).failure.Some?
    requires Scan(rx, unpack, isBm1387, counted).failure.value.UnexpectedChipRev?
    ensures Scan(rx, unpack, isBm1387, counted).failure.value.chip
         == Scan(rx, unpack, isBm1387, counted).count
    ensures 2 * (Scan(rx, unpack, isBm1387, counted).count - counted) + 1 < |rx|
    decreases |rx|
  {
    if |rx| >= 2 {
      var rcv := CmdResp(rx, unpack);
      if rcv.result.Ok? && rcv.result.value.Some? && isBm1387(rcv.result.value.value) {
        ScanReportsBadChip(rx[2..], unpack, isBm1387, counted + 1);
      }
    }
  }

  /** The reply of the chip reported as of the wrong revision is not a
      good BM1387 reply. */
  lemma {:induction false} ScanBadChipReply<R>(rx: seq<u32>, unpack: seq<byte> -> Option<R>,
                                               isBm1387: R -> bool, counted: nat)
    requires Scan(rx, unpack, isBm1387, counted).failure.Some?
    requires Scan(rx, unpack, isBm1387, counted).failure.value.UnexpectedChipRev?
    ensures 2 * (Scan(rx, unpack, isBm1387, counted).count - counted) + 1 < |rx|
    ensures !GoodReply(rx, Scan(rx, unpack, isBm1387, counted).count - counted, unpack, isBm1387)
    decreases |rx|
  {
    ScanReportsBadChip(rx, unpack, isBm1387, counted);
    if |rx| >= 2 {
      var rcv := CmdResp(rx, unpack);
      if rcv.result.Ok? && rcv.result.value.Some? && isBm1387(rcv.result.value.value) {
        var rest := rx[2..];
        ScanBadChipReply(rest, unpack, isBm1387, counted + 1);
        var k := Scan(rest, unpack, isBm1387, counted + 1).count - (counted + 1);
        assert rest[2 * k] == rx[2 * (k + 1)] && rest[2 * k + 1] == rx[2 * (k + 1) + 1];
      }
    }
  }

  // ---------------------------------------------------------------------
  // Chip addressing
  // ---------------------------------------------------------------------

  /** The value of the 8-bit chip address field of the BM1387 commands. */
  type ChipAddr = a: int | 0 <= a < 256

  /** The address given to chip `i`: the stepped loop counter 4i of
      `for_all_chips`, truncated to 8 bits by `addr as u8`. */
  function ChipAddress(i: nat): (addr: ChipAddr)
    ensures addr % 4 == 0
    ensures i < MAX_CHIPS_ON_CHAIN ==> addr == 4 * i
  {
    (4 * i) % 256
  }

  /** Below the chip limit the addresses increase with the position on the
      chain, so no two chips share one. */
  lemma ChipAddressesIncrease(i: nat, j: nat)
    requires i < j < MAX_CHIPS_ON_CHAIN
    ensures ChipAddress(i) < ChipAddress(j)
  {
  }

  /** The limit is where truncation to 8 bits starts to matter: chip 64
      would get the address of chip 0. */
  lemma ChipAddressesWrapAtLimit()
    ensures ChipAddress(MAX_CHIPS_ON_CHAIN) == ChipAddress(0)
  {
  }

  /** The words sent to give the first `n` chips their addresses: the
      set-chip-address command for each chip in turn. */
  function AddressingWords(setChipAddressCmd: ChipAddr -> seq<byte>, n: nat): (words: seq<u32>)
    requires forall addr :: |setChipAddressCmd(addr)| % 4 == 0
  {
    if n == 0 then []
    else AddressingWords(setChipAddressCmd, n - 1) + Serialize(setChipAddressCmd(ChipAddress(n - 1)))
  }

  /** The bytes of the set-chip-address commands for the first `n` chips,
      in chain order. */
  function AddressingBytes(setChipAddressCmd: ChipAddr -> seq<byte>, n: nat): (bytes: seq<byte>)
    requires forall addr :: |setChipAddressCmd(addr)| % 4 == 0
    ensures |bytes| % 4 == 0
  {
    if n == 0 then [] else AddressingBytes(setChipAddressCmd, n - 1) + setChipAddressCmd(ChipAddress(n - 1))
  }

  /** The words sent are the serialization of exactly the set-chip-address
      commands for chips 0 .. n-1, in order. */
  lemma {:induction false} AddressingWordsCarryCommands(setChipAddressCmd: ChipAddr -> seq<byte>, n: nat)
    requires forall addr :: |setChipAddressCmd(addr)| % 4 == 0
    ensures AddressingWords(setChipAddressCmd, n) == Serialize(AddressingBytes(setChipAddressCmd, n))
  {
    if n > 0 {
      AddressingWordsCarryCommands(setChipAddressCmd, n - 1);
      SerializeAppend(AddressingBytes(setChipAddressCmd, n - 1), setChipAddressCmd(ChipAddress(n - 1)));
    }
  }

  /** `n` copies of `words`, one after the other. */
  function Repeated(words: seq<u32>, n: nat): seq<u32> {
    if n == 0 then [] else Repeated(words, n - 1) + words
  }

  /** What `for_all_chips` returns for the first `n` chips: an error when
      there is none, otherwise the outcome of applying `f` to their
      addresses in order, stopping at the first error. */
  function ForAllChipsOutcome<R>(f: ChipAddr -> Result<R>, n: nat): (r: Result<R>)
    ensures n == 0 ==> r == Err(NoChipsToIterate)
    ensures r.Ok? ==> forall k | 0 <= k < n :: f(ChipAddress(k)).Ok?
    ensures r.Err? && n > 0 ==> exists k | 0 <= k < n :: f(ChipAddress(k)) == r
  {
    if n == 0 then Err(NoChipsToIterate)
    else if n == 1 then f(ChipAddress(0))
    else match ForAllChipsOutcome(f, n - 1)
      case Err(e) => Err(e)
      case Ok(_) => f(ChipAddress(n - 1))
  }

  /** The outcome is a success exactly when there are chips and `f`
      succeeds on every one of them, and then it is the last chip's value. */
  lemma {:induction false} ForAllChipsSucceeds<R>(f: ChipAddr -> Result<R>, n: nat)
    ensures ForAllChipsOutcome(f, n).Ok? <==> n > 0 && forall k | 0 <= k < n :: f(ChipAddress(k)).Ok?
    ensures ForAllChipsOutcome(f, n).Ok? ==> ForAllChipsOutcome(f, n) == f(ChipAddress(n - 1))
  {
    if n > 1 {
      ForAllChipsSucceeds(f, n - 1);
    }
  }

  /** Otherwise the outcome is the error of the first chip `f` fails on;
      the chips after it are not visited. */
  lemma {:induction false} ForAllChipsFirstFailure<R>(f: ChipAddr -> Result<R>, n: nat, k: nat)
    requires k < n && f(ChipAddress(k)).Err?
    requires forall j | 0 <= j < k :: f(ChipAddress(j)).Ok?
    ensures ForAllChipsOutcome(f, n) == f(ChipAddress(k))
  {
    if n > 1 && k < n - 1 {
      ForAllChipsFirstFailure(f, n - 1, k);
    } else if n > 1 {
      ForAllChipsSucceeds(f, n - 1);
    }
  }

  // ---------------------------------------------------------------------
  // Mining work and its results
  // ---------------------------------------------------------------------

  /** A midstate as the eight 32-bit words it is made of. */
  type Midstate = s: seq<u32> | |s| == 8 witness [0, 0, 0, 0, 0, 0, 0, 0]

  /** The parts of a mining work the controller sends to the IP core. */
  datatype MiningWork = MiningWork(midstates: seq<Midstate>, merkelRootLsw: u32, nbits: u32, ntime: u32)

  /** A solution reported by the IP core. `resultId` keeps the low 24 bits
      of the second result word, from which the work ID and the solution
      index are decoded later. */
  datatype MiningWorkResult = MiningWorkResult(nonce: u32, ntime: Option<u32>, midstateIdx: u32, resultId: u32)

  /** The words of `s` in reverse order: the last word comes first. */
  function Reversed(s: seq<u32>): (r: seq<u32>)
    ensures |r| == |s|
    ensures |s| > 0 ==> r[0] == s[|s| - 1] && r[|s| - 1] == s[0]
  {
    seq(|s|, j requires 0 <= j < |s| => s[|s| - 1 - j])
  }

  /** Reversing twice gives the words back: no word is lost or moved. */
  lemma ReversedTwice(s: seq<u32>)
    ensures Reversed(Reversed(s)) == s
  {
    assert forall j | 0 <= j < |s| :: Reversed(Reversed(s))[j] == s[j];
  }

  /** The words of the midstates, each midstate in reverse word order, as
      the chips expect them. */
  function MidstateWords(midstates: seq<Midstate>): (words: seq<u32>)
    ensures |words| == 8 * |midstates|
  {
    if midstates == [] then []
    else MidstateWords(midstates[..|midstates| - 1]) + Reversed(midstates[|midstates| - 1])
  }

  /** The words that submit `work` under ID `workId`: the ID, nbits, ntime
      and the low word of the merkle root, then the midstates. */
  function WorkWords(workId: u32, work: MiningWork): (words: seq<u32>)
    ensures |words| == 4 + 8 * |work.midstates|
    ensures words[0] == workId
  {
    [workId, work.nbits, work.ntime, work.merkelRootLsw] + MidstateWords(work.midstates)
  }

  /** Midstate `m` occupies words 8m .. 8m+8 of the midstate part. */
  lemma {:induction false} MidstateWordsSlots(midstates: seq<Midstate>, m: nat)
    requires m < |midstates|
    ensures MidstateWords(midstates)[8 * m .. 8 * m + 8] == Reversed(midstates[m])
    decreases |midstates|
  {
    var init := midstates[..|midstates| - 1];
    if m < |midstates| - 1 {
      MidstateWordsSlots(init, m);
      assert init[m] == midstates[m];
    }
  }

  /** The layout of a submitted work: 4 + 8·(number of midstates) words,
      the header words first, then midstate m in slot m in reverse order. */
  lemma WorkWordsLayout(workId: u32, work: MiningWork)
    ensures |WorkWords(workId, work)| == 4 + 8 * |work.midstates|
    ensures WorkWords(workId, work)[..4] == [workId, work.nbits, work.ntime, work.merkelRootLsw]
    ensures forall m | 0 <= m < |work.midstates| ::
              WorkWords(workId, work)[4 + 8 * m .. 4 + 8 * m + 8] == Reversed(work.midstates[m])
  {
    var words := WorkWords(workId, work);
    forall m | 0 <= m < |work.midstates|
      ensures words[4 + 8 * m .. 4 + 8 * m + 8] == Reversed(work.midstates[m])
    {
      MidstateWordsSlots(work.midstates, m);
      assert words[4 + 8 * m .. 4 + 8 * m + 8] == MidstateWords(work.midstates)[8 * m .. 8 * m + 8];
    }
  }

  /** The result assembled from the two words the IP core reports: the
      nonce, no rolled ntime, the midstate index decoded from the second
      word and, as result ID, the second word without its top byte. */
  function ResultOfWords(midstateCountBits: u32, nonce: u32, word2: u32): (r: MiningWorkResult)
    requires midstateCountBits < 32
    ensures r.nonce == nonce && r.ntime == None
    ensures r.midstateIdx < (1 as u32) << midstateCountBits
    ensures r.resultId <= 0xFF_FFFF
    ensures SolutionIdxFromResultId(r.resultId) == word2 & 0xFF
  {
    MiningWorkResult(nonce, None, MidstateIdxFromResultId(midstateCountBits, word2), word2 & 0xFF_FFFF)
  }

  /** Reading one result from the work RX FIFO `rx`: an empty FIFO is no
      result; otherwise the nonce and the second word are taken and
      assembled into a result. */
  function WorkResult(midstateCountBits: u32, rx: seq<u32>): (r: Received<MiningWorkResult>)
    requires midstateCountBits < 32
    ensures r.result == Ok(None) <==> rx == []
    ensures rx == [] ==> r.rest == rx
    ensures |rx| == 1 ==> r.result == Err(TimedOut) && r.rest == []
    ensures |rx| >= 2 ==> r.rest == rx[2..]
  {
    if |rx| == 0 then Received(Ok(None), rx)
    else if |rx| == 1 then Received(Err(TimedOut), [])
    else Received(Ok(Some(ResultOfWords(midstateCountBits, rx[0], rx[1]))), rx[2..])
  }

  /** The work ID of a result (`get_work_id_from_result`). */
  function WorkIdOfResult(midstateCountBits: u32, result: MiningWorkResult): (workId: u32)
    requires midstateCountBits < 32
    ensures workId <= 0xFF_FFFF >> midstateCountBits
  {
    WorkIdFromResultId(midstateCountBits, result.resultId)
  }

  /** Reading a result takes exactly its two words and assembles them. */
  lemma WorkResultTakesTwoWords(midstateCountBits: u32, nonce: u32, word2: u32, rest: seq<u32>)
    requires midstateCountBits < 32
    ensures WorkResult(midstateCountBits, [nonce, word2] + rest)
         == Received(Ok(Some(ResultOfWords(midstateCountBits, nonce, word2))), rest)
  {
    assert ([nonce, word2] + rest)[2..] == rest;
  }

  /** A solution the IP core reports for the work issued as number
      `issued` is read back with the midstate index and solution index the
      chips reported and, as its work ID, the issue number modulo the
      roll-over period. That is the ID the work was sent under shifted
      right by b, not that ID itself: with four midstates the second work
      goes out under ID 4 and its results decode to work ID 1. */
  lemma IssuedWorkResult(midstateCountBits: u32, issued: u32, nonce: u32,
                         midstateIdx: u32, solutionIdx: u32, topByte: u32)
    requires midstateCountBits <= MAX_MIDSTATE_COUNT_BITS
    requires midstateIdx < WorkIdStep(midstateCountBits) && solutionIdx < 256
    ensures var result := ResultOfWords(midstateCountBits, nonce,
                                        SolutionWord(IssuedId(midstateCountBits, issued), midstateIdx, solutionIdx, topByte));
            && result.midstateIdx == midstateIdx
            && SolutionIdxFromResultId(result.resultId) == solutionIdx
            && WorkIdOfResult(midstateCountBits, result) == issued & PeriodMask(midstateCountBits)
            && WorkIdOfResult(midstateCountBits, result) == IssuedId(midstateCountBits, issued) >> midstateCountBits
  {
    var id := IssuedId(midstateCountBits, issued);
    IssuedIdIndex(midstateCountBits, issued);
    SolutionWordWorkId(midstateCountBits, issued, midstateIdx, solutionIdx, topByte);
    SolutionWordMidstateIdx(midstateCountBits, issued, midstateIdx, solutionIdx, topByte);
    SolutionWordSolutionIdx(id, midstateIdx, solutionIdx, topByte);
  }
}
