/** Work IDs and result IDs of the S9 hash-chain controller.

    The controller tags each submitted work with a 16-bit work ID. Its low
    `midstateCountBits` bits are left clear so that the chips can add the
    index of the midstate they solved; the IP core reports a solution with a
    result ID whose bits 0..8 hold the solution index (`WORK_ID_OFFSET` is 8),
    bits 8..8+b the midstate index and the bits above that the work ID
    shifted right by b.

    The controller's `u16` counter is kept in a `u32` restricted to 16 bits;
    its wrap-around is written out as `& 0xFFFF`. */
module WorkIds {
  import opened Types

  /** The model covers the three midstate settings the controller's unit
      test uses, one, two or four midstates per work, that is b = 0, 1 or 2
      bits of midstate index. */
  const MAX_MIDSTATE_COUNT_BITS: u32 := 2
  // ---------------------------------------------------------------------
  // Decoding a result ID (shift and mask, as the controller does)
  // ---------------------------------------------------------------------

  /** The work ID of result ID `resultId`; it has at most 24 - b bits. */
  function WorkIdFromResultId(midstateCountBits: u32, resultId: u32): (workId: u32)
    requires midstateCountBits < 32
    ensures workId <= 0xFF_FFFF >> midstateCountBits
  {
    (resultId >> 8) >> midstateCountBits
  }

  /** The midstate index of result ID `resultId`: below 2^b. */
  function MidstateIdxFromResultId(midstateCountBits: u32, resultId: u32): (idx: u32)
    requires midstateCountBits < 32
    ensures idx < (1 as u32) << midstateCountBits
  {
    (resultId >> 8) & (((1 as u32) << midstateCountBits) - 1)
  }

  /** The solution index of result ID `resultId`: below 256. */
  function SolutionIdxFromResultId(resultId: u32): (idx: u32)
    ensures idx < 256
  {
    resultId & (((1 as u32) << 8) - 1)
  }

  /** The layout of a result ID: the three fields put back in place. */
  function ResultIdOf(midstateCountBits: u32, workId: u32, midstateIdx: u32, solutionIdx: u32): u32
    requires midstateCountBits < 32
  {
    (((workId << midstateCountBits) | midstateIdx) << 8) | solutionIdx
  }

  /** The three fields put back in place reassemble the result ID. */
  ghost predicate Reassembles(midstateCountBits: u32, resultId: u32)
    requires midstateCountBits < 32
  {
    ResultIdOf(midstateCountBits,
               WorkIdFromResultId(midstateCountBits, resultId),
               MidstateIdxFromResultId(midstateCountBits, resultId),
               SolutionIdxFromResultId(resultId)) == resultId
  }

  /** Decoding the result ID laid out from three fields gives them back. */
  ghost predicate DecodesTo(midstateCountBits: u32, workId: u32, midstateIdx: u32, solutionIdx: u32)
    requires midstateCountBits < 32
  {
    var resultId := ResultIdOf(midstateCountBits, workId, midstateIdx, solutionIdx);
    && WorkIdFromResultId(midstateCountBits, resultId) == workId
    && MidstateIdxFromResultId(midstateCountBits, resultId) == midstateIdx
    && SolutionIdxFromResultId(resultId) == solutionIdx
  }

  /** The three decoded fields partition the result ID: every bit of it is
      in exactly one field and they reassemble to the word. */
  lemma ResultIdPartition(midstateCountBits: u32, resultId: u32)
    requires midstateCountBits <= MAX_MIDSTATE_COUNT_BITS
    ensures ResultIdOf(midstateCountBits,
                       WorkIdFromResultId(midstateCountBits, resultId),
                       MidstateIdxFromResultId(midstateCountBits, resultId),
                       SolutionIdxFromResultId(resultId)) == resultId
  {
    assert Reassembles(midstateCountBits, resultId) by {
      if midstateCountBits == 0 {
        PartitionOne(resultId);
      } else if midstateCountBits == 1 {
        PartitionTwo(resultId);
      } else {
        PartitionFour(resultId);
      }
    }
  }

  /** Decoding a laid-out result ID gives back the fields that fit. */
  lemma ResultIdRoundTrip(midstateCountBits: u32, workId: u32, midstateIdx: u32, solutionIdx: u32)
    requires midstateCountBits <= MAX_MIDSTATE_COUNT_BITS
    requires workId <= 0xFF_FFFF >> midstateCountBits
    requires midstateIdx < (1 as u32) << midstateCountBits
    requires solutionIdx < 256
    ensures WorkIdFromResultId(midstateCountBits,
              ResultIdOf(midstateCountBits, workId, midstateIdx, solutionIdx)) == workId
    ensures MidstateIdxFromResultId(midstateCountBits,
              ResultIdOf(midstateCountBits, workId, midstateIdx, solutionIdx)) == midstateIdx
    ensures SolutionIdxFromResultId(
              ResultIdOf(midstateCountBits, workId, midstateIdx, solutionIdx)) == solutionIdx
  {
    assert DecodesTo(midstateCountBits, workId, midstateIdx, solutionIdx) by {
      if midstateCountBits == 0 {
        RoundTripOne(workId, midstateIdx, solutionIdx);
      } else if midstateCountBits == 1 {
        RoundTripTwo(workId, midstateIdx, solutionIdx);
      } else {
        RoundTripFour(workId, midstateIdx, solutionIdx);
      }
    }
  }

  /** The values the controller's unit test expects for the result word
      0x00123502 with one, two and four midstates (b = 0, 1, 2). */
  lemma ResultIdTestVectors()
    ensures WorkIdFromResultId(0, 0x0012_3502) == 0x1235
    ensures WorkIdFromResultId(1, 0x0012_3502) == 0x1235 >> 1
    ensures WorkIdFromResultId(2, 0x0012_3502) == 0x1235 >> 2
    ensures MidstateIdxFromResultId(0, 0x0012_3502) == 0
    ensures MidstateIdxFromResultId(1, 0x0012_3502) == 1
    ensures MidstateIdxFromResultId(2, 0x0012_3502) == 1
    ensures SolutionIdxFromResultId(0x0012_3502) == 2
  {
  }

  /** The midstate index decoded from the second result word is the same
      whether or not its top byte is masked off first. */
  lemma MidstateIdxIgnoresTopByte(midstateCountBits: u32, word: u32)
    requires midstateCountBits <= MAX_MIDSTATE_COUNT_BITS
    ensures MidstateIdxFromResultId(midstateCountBits, word & 0xFF_FFFF)
         == MidstateIdxFromResultId(midstateCountBits, word)
  {
    assert TopByteIgnored(midstateCountBits, word) by {
      if midstateCountBits == 0 {
        TopByteOne(word);
      } else if midstateCountBits == 1 {
        TopByteTwo(word);
      } else {
        TopByteFour(word);
      }
    }
  }

  ghost predicate TopByteIgnored(midstateCountBits: u32, word: u32)
    requires midstateCountBits < 32
  {
    MidstateIdxFromResultId(midstateCountBits, word & 0xFF_FFFF)
      == MidstateIdxFromResultId(midstateCountBits, word)
  }

  // ---------------------------------------------------------------------
  // Issuing work IDs
  // ---------------------------------------------------------------------

  /** The step between consecutive work IDs: one ID per midstate slot. */
  function WorkIdStep(midstateCountBits: u32): u32
    requires midstateCountBits < 16
  {
    (1 as u32) << midstateCountBits
  }

  /** The work ID the counter holds after `issued` IDs have been handed out
      from the initial value 0 (`issued` counted modulo 2^32). */
  function IssuedId(midstateCountBits: u32, issued: u32): (workId: u32)
    requires midstateCountBits < 16
    ensures workId <= 0xFFFF
  {
    (issued << midstateCountBits) & 0xFFFF
  }

  /** One less than the length of a roll-over period of the 16-bit counter:
      2^(16 - b) IDs are handed out before the counter is back at 0. */
  function PeriodMask(midstateCountBits: u32): u32
    requires midstateCountBits < 16
  {
    ((1 as u32) << (16 - midstateCountBits)) - 1
  }

  /** The counter after one more ID is handed out: one step further,
      wrapping at 2^16 as the 16-bit counter does. */
  function AdvancedId(midstateCountBits: u32, workId: u32): (next: u32)
    requires midstateCountBits < 16
    ensures next <= 0xFFFF
    ensures workId + WorkIdStep(midstateCountBits) <= 0xFFFF ==> next == workId + WorkIdStep(midstateCountBits)
  {
    (workId + WorkIdStep(midstateCountBits)) & 0xFFFF
  }

  /** The low `midstateCountBits` bits of a work ID, where the chips put
      the midstate index. */
  function MidstateSlot(midstateCountBits: u32, workId: u32): u32
    requires midstateCountBits < 16
  {
    workId & (WorkIdStep(midstateCountBits) - 1)
  }

  ghost predicate AdvancesOneStep(midstateCountBits: u32, issued: u32)
    requires midstateCountBits < 16
  {
    IssuedId(midstateCountBits, issued + 1) == AdvancedId(midstateCountBits, IssuedId(midstateCountBits, issued))
  }

  ghost predicate LowBitsClear(midstateCountBits: u32, issued: u32)
    requires midstateCountBits < 16
  {
    MidstateSlot(midstateCountBits, IssuedId(midstateCountBits, issued)) == 0
  }

  ghost predicate IndexRecovered(midstateCountBits: u32, issued: u32)
    requires midstateCountBits < 16
  {
    IssuedId(midstateCountBits, issued) >> midstateCountBits
      == issued & PeriodMask(midstateCountBits)
  }

  ghost predicate IdsDiffer(midstateCountBits: u32, i: u32, j: u32)
    requires midstateCountBits < 16
  {
    IssuedId(midstateCountBits, i) != IssuedId(midstateCountBits, j)
  }

  ghost predicate MidstateFillsLowBits(midstateCountBits: u32, workId: u32, midstateIdx: u32, solutionIdx: u32)
    requires midstateCountBits < 16
  {
    ResultIdOf(midstateCountBits, workId >> midstateCountBits, midstateIdx, solutionIdx)
      == ((workId | midstateIdx) << 8) | solutionIdx
  }

  /** Handing out one more ID advances the counter by one step, modulo 2^16. */
  lemma IssuedIdNext(midstateCountBits: u32, issued: u32)
    requires midstateCountBits <= MAX_MIDSTATE_COUNT_BITS
    ensures IssuedId(midstateCountBits, issued + 1) == AdvancedId(midstateCountBits, IssuedId(midstateCountBits, issued))
  {
    assert AdvancesOneStep(midstateCountBits, issued) by {
      if midstateCountBits == 0 {
        NextOne(issued);
      } else if midstateCountBits == 1 {
        NextTwo(issued);
      } else {
        NextFour(issued);
      }
    }
  }

  /** Every issued ID has its low b bits clear, so they are free for the
      midstate index the chips add. */
  lemma IssuedIdAligned(midstateCountBits: u32, issued: u32)
    requires midstateCountBits <= MAX_MIDSTATE_COUNT_BITS
    ensures MidstateSlot(midstateCountBits, IssuedId(midstateCountBits, issued)) == 0
  {
    assert LowBitsClear(midstateCountBits, issued) by {
      if midstateCountBits == 0 {
        AlignedOne(issued);
      } else if midstateCountBits == 1 {
        AlignedTwo(issued);
      } else {
        AlignedFour(issued);
      }
    }
  }

  /** Shifting an issued ID right by b, as the result decoding does, gives
      back the issue number modulo the roll-over period. */
  lemma IssuedIdIndex(midstateCountBits: u32, issued: u32)
    requires midstateCountBits <= MAX_MIDSTATE_COUNT_BITS
    ensures IssuedId(midstateCountBits, issued) >> midstateCountBits
         == issued & PeriodMask(midstateCountBits)
  {
    assert IndexRecovered(midstateCountBits, issued) by {
      if midstateCountBits == 0 {
        IndexOne(issued);
      } else if midstateCountBits == 1 {
        IndexTwo(issued);
      } else {
        IndexFour(issued);
      }
    }
  }

  ghost predicate FitsResultId(midstateCountBits: u32, issued: u32)
    requires midstateCountBits < 16
  {
    IssuedId(midstateCountBits, issued) >> midstateCountBits <= 0xFF_FFFF >> midstateCountBits
  }

  /** An issued ID shifted right by b fits the work-ID field of a result ID. */
  lemma IssuedIdFitsResult(midstateCountBits: u32, issued: u32)
    requires midstateCountBits <= MAX_MIDSTATE_COUNT_BITS
    ensures IssuedId(midstateCountBits, issued) >> midstateCountBits <= 0xFF_FFFF >> midstateCountBits
  {
    assert FitsResultId(midstateCountBits, issued) by {
      if midstateCountBits == 0 {
        FitsOne(issued);
      } else if midstateCountBits == 1 {
        FitsTwo(issued);
      } else {
        FitsFour(issued);
      }
    }
  }

  /** Within one roll-over period no work ID is handed out twice. */
  lemma IssuedIdsDistinct(midstateCountBits: u32, i: u32, j: u32)
    requires midstateCountBits <= MAX_MIDSTATE_COUNT_BITS
    requires i <= PeriodMask(midstateCountBits) && j <= PeriodMask(midstateCountBits)
    requires i != j
    ensures IssuedId(midstateCountBits, i) != IssuedId(midstateCountBits, j)
  {
    assert IdsDiffer(midstateCountBits, i, j) by {
      if midstateCountBits == 0 {
        DistinctOne(i, j);
      } else if midstateCountBits == 1 {
        DistinctTwo(i, j);
      } else {
        DistinctFour(i, j);
      }
    }
  }

  /** The result ID of a solution for the aligned work ID `workId`: the
      chips put the midstate index into the free low bits of the work ID and
      the sum sits at bit 8 above the solution index. By `ResultIdRoundTrip`
      it decodes to the work ID shifted right by b. */
  lemma AlignedResultId(midstateCountBits: u32, workId: u32, midstateIdx: u32, solutionIdx: u32)
    requires midstateCountBits <= MAX_MIDSTATE_COUNT_BITS
    requires workId <= 0xFFFF && MidstateSlot(midstateCountBits, workId) == 0
    requires midstateIdx < WorkIdStep(midstateCountBits)
    ensures ResultIdOf(midstateCountBits, workId >> midstateCountBits, midstateIdx, solutionIdx)
         == ((workId | midstateIdx) << 8) | solutionIdx
  {
    assert MidstateFillsLowBits(midstateCountBits, workId, midstateIdx, solutionIdx) by {
      if midstateCountBits == 0 {
        AlignedResultIdOne(workId, midstateIdx, solutionIdx);
      } else if midstateCountBits == 1 {
        AlignedResultIdTwo(workId, midstateIdx, solutionIdx);
      } else {
        AlignedResultIdFour(workId, midstateIdx, solutionIdx);
      }
    }
  }

  /** A result ID laid out for an issued work ID, with any midstate index
      and solution index, decodes back to the issued ID shifted right by
      b and to those two indices. */
  lemma IssuedIdDecodes(midstateCountBits: u32, issued: u32, midstateIdx: u32, solutionIdx: u32)
    requires midstateCountBits <= MAX_MIDSTATE_COUNT_BITS
    requires midstateIdx < WorkIdStep(midstateCountBits) && solutionIdx < 256
    ensures LaidOutDecodes(midstateCountBits, IssuedId(midstateCountBits, issued), midstateIdx, solutionIdx)
  {
    IssuedIdAligned(midstateCountBits, issued);
    IssuedIdFitsResult(midstateCountBits, issued);
    AlignedIdDecodes(midstateCountBits, IssuedId(midstateCountBits, issued), midstateIdx, solutionIdx);
  }

  /** The same for any 16-bit work ID with its low b bits clear. */
  lemma AlignedIdDecodes(midstateCountBits: u32, workId: u32, midstateIdx: u32, solutionIdx: u32)
    requires midstateCountBits <= MAX_MIDSTATE_COUNT_BITS
    requires workId <= 0xFFFF && MidstateSlot(midstateCountBits, workId) == 0
    requires workId >> midstateCountBits <= 0xFF_FFFF >> midstateCountBits
    requires midstateIdx < WorkIdStep(midstateCountBits) && solutionIdx < 256
    ensures LaidOutDecodes(midstateCountBits, workId, midstateIdx, solutionIdx)
  {
    AlignedResultId(midstateCountBits, workId, midstateIdx, solutionIdx);
    ResultIdRoundTrip(midstateCountBits, workId >> midstateCountBits, midstateIdx, solutionIdx);
  }

  /** The result ID the chips form from the aligned work ID `workId`, the
      midstate index and the solution index decodes to `workId` shifted
      right by b and to the two indices. */
  ghost predicate LaidOutDecodes(midstateCountBits: u32, workId: u32, midstateIdx: u32, solutionIdx: u32)
    requires midstateCountBits < 16
  {
    var resultId := ((workId | midstateIdx) << 8) | solutionIdx;
    && WorkIdFromResultId(midstateCountBits, resultId) == workId >> midstateCountBits
    && MidstateIdxFromResultId(midstateCountBits, resultId) == midstateIdx
    && SolutionIdxFromResultId(resultId) == solutionIdx
  }

  /** The second result word the IP core reports for solution
      `solutionIdx` of midstate `midstateIdx` of the work sent under ID
      `workId`: the chips put the midstate index into the free low bits of
      the work ID, the sum sits at bit 8 above the solution index, and
      `topByte` is whatever the IP core puts in bits 24..32. */
  function SolutionWord(workId: u32, midstateIdx: u32, solutionIdx: u32, topByte: u32): u32 {
    (((workId | midstateIdx) << 8) | solutionIdx) | (topByte << 24)
  }

  ghost predicate WorkIdDecodes(midstateCountBits: u32, issued: u32, midstateIdx: u32,
                                solutionIdx: u32, topByte: u32)
    requires midstateCountBits < 16
  {
    WorkIdFromResultId(midstateCountBits,
        SolutionWord(IssuedId(midstateCountBits, issued), midstateIdx, solutionIdx, topByte) & 0xFF_FFFF)
      == issued & PeriodMask(midstateCountBits)
  }

  ghost predicate MidstateIdxDecodes(midstateCountBits: u32, issued: u32, midstateIdx: u32,
                                     solutionIdx: u32, topByte: u32)
    requires midstateCountBits < 16
  {
    MidstateIdxFromResultId(midstateCountBits,
        SolutionWord(IssuedId(midstateCountBits, issued), midstateIdx, solutionIdx, topByte))
      == midstateIdx
  }

  /** The work ID decoded from a solution for the work issued as number
      `issued`, once the top byte is masked off, is the issue number modulo
      the roll-over period. */
  lemma SolutionWordWorkId(midstateCountBits: u32, issued: u32, midstateIdx: u32,
                           solutionIdx: u32, topByte: u32)
    requires midstateCountBits <= MAX_MIDSTATE_COUNT_BITS
    requires midstateIdx < WorkIdStep(midstateCountBits) && solutionIdx < 256
    ensures WorkIdFromResultId(midstateCountBits,
              SolutionWord(IssuedId(midstateCountBits, issued), midstateIdx, solutionIdx, topByte) & 0xFF_FFFF)
         == issued & PeriodMask(midstateCountBits)
  {
    assert WorkIdDecodes(midstateCountBits, issued, midstateIdx, solutionIdx, topByte) by {
      if midstateCountBits == 0 {
        WorkIdDecodesOne(issued, midstateIdx, solutionIdx, topByte);
      } else if midstateCountBits == 1 {
        WorkIdDecodesTwo(issued, midstateIdx, solutionIdx, topByte);
      } else {
        WorkIdDecodesFour(issued, midstateIdx, solutionIdx, topByte);
      }
    }
  }

  /** The midstate index decoded from a solution for an issued work ID is
      the one the chips added. */
  lemma SolutionWordMidstateIdx(midstateCountBits: u32, issued: u32, midstateIdx: u32,
                                solutionIdx: u32, topByte: u32)
    requires midstateCountBits <= MAX_MIDSTATE_COUNT_BITS
    requires midstateIdx < WorkIdStep(midstateCountBits) && solutionIdx < 256
    ensures MidstateIdxFromResultId(midstateCountBits,
              SolutionWord(IssuedId(midstateCountBits, issued), midstateIdx, solutionIdx, topByte))
         == midstateIdx
  {
    assert MidstateIdxDecodes(midstateCountBits, issued, midstateIdx, solutionIdx, topByte) by {
      if midstateCountBits == 0 {
        MidstateIdxDecodesOne(issued, midstateIdx, solutionIdx, topByte);
      } else if midstateCountBits == 1 {
        MidstateIdxDecodesTwo(issued, midstateIdx, solutionIdx, topByte);
      } else {
        MidstateIdxDecodesFour(issued, midstateIdx, solutionIdx, topByte);
      }
    }
  }

  /** The solution index decoded from a solution word, with or without
      its top byte masked off, is the one the chips reported. */
  lemma SolutionWordSolutionIdx(workId: u32, midstateIdx: u32, solutionIdx: u32, topByte: u32)
    requires solutionIdx < 256
    ensures SolutionIdxFromResultId(SolutionWord(workId, midstateIdx, solutionIdx, topByte) & 0xFF_FFFF)
         == solutionIdx
  {
  }

  // ---------------------------------------------------------------------
  // The facts above for each midstate setting. With the shift amount a
  // literal they are plain bit-vector identities.
  // ---------------------------------------------------------------------

  lemma PartitionOne(r: u32)
    ensures Reassembles(0, r)
  {
  }

  lemma RoundTripOne(w: u32, m: u32, s: u32)
    requires w <= 0xFF_FFFF >> 0 && m < (1 as u32) << 0 && s < 256
    ensures DecodesTo(0, w, m, s)
  {
  }

  lemma TopByteOne(r: u32)
    ensures TopByteIgnored(0, r)
  {
  }

  lemma NextOne(n: u32)
    ensures AdvancesOneStep(0, n)
  {
  }

  lemma AlignedOne(n: u32)
    ensures LowBitsClear(0, n)
  {
  }

  lemma IndexOne(n: u32)
    ensures IndexRecovered(0, n)
  {
  }

  lemma FitsOne(n: u32)
    ensures FitsResultId(0, n)
  {
  }

  lemma WorkIdDecodesOne(n: u32, m: u32, s: u32, top: u32)
    requires m < 1 && s < 256
    ensures WorkIdDecodes(0, n, m, s, top)
  {
  }

  lemma MidstateIdxDecodesOne(n: u32, m: u32, s: u32, top: u32)
    requires m < 1 && s < 256
    ensures MidstateIdxDecodes(0, n, m, s, top)
  {
  }

  lemma DistinctOne(i: u32, j: u32)
    requires i <= PeriodMask(0) && j <= PeriodMask(0) && i != j
    ensures IdsDiffer(0, i, j)
  {
  }

  lemma AlignedResultIdOne(w: u32, m: u32, s: u32)
    requires w <= 0xFFFF && MidstateSlot(0, w) == 0 && m < WorkIdStep(0)
    ensures MidstateFillsLowBits(0, w, m, s)
  {
  }

  lemma PartitionTwo(r: u32)
    ensures Reassembles(1, r)
  {
  }

  lemma RoundTripTwo(w: u32, m: u32, s: u32)
    requires w <= 0xFF_FFFF >> 1 && m < (1 as u32) << 1 && s < 256
    ensures DecodesTo(1, w, m, s)
  {
  }

  lemma TopByteTwo(r: u32)
    ensures TopByteIgnored(1, r)
  {
  }

  lemma NextTwo(n: u32)
    ensures AdvancesOneStep(1, n)
  {
  }

  lemma AlignedTwo(n: u32)
    ensures LowBitsClear(1, n)
  {
  }

  lemma IndexTwo(n: u32)
    ensures IndexRecovered(1, n)
  {
  }

  lemma FitsTwo(n: u32)
    ensures FitsResultId(1, n)
  {
  }

  lemma WorkIdDecodesTwo(n: u32, m: u32, s: u32, top: u32)
    requires m < 2 && s < 256
    ensures WorkIdDecodes(1, n, m, s, top)
  {
  }

  lemma MidstateIdxDecodesTwo(n: u32, m: u32, s: u32, top: u32)
    requires m < 2 && s < 256
    ensures MidstateIdxDecodes(1, n, m, s, top)
  {
  }

  lemma DistinctTwo(i: u32, j: u32)
    requires i <= PeriodMask(1) && j <= PeriodMask(1) && i != j
    ensures IdsDiffer(1, i, j)
  {
  }

  lemma AlignedResultIdTwo(w: u32, m: u32, s: u32)
    requires w <= 0xFFFF && MidstateSlot(1, w) == 0 && m < WorkIdStep(1)
    ensures MidstateFillsLowBits(1, w, m, s)
  {
  }

  lemma PartitionFour(r: u32)
    ensures Reassembles(2, r)
  {
  }

  lemma RoundTripFour(w: u32, m: u32, s: u32)
    requires w <= 0xFF_FFFF >> 2 && m < (1 as u32) << 2 && s < 256
    ensures DecodesTo(2, w, m, s)
  {
  }

  lemma TopByteFour(r: u32)
    ensures TopByteIgnored(2, r)
  {
  }

  lemma NextFour(n: u32)
    ensures AdvancesOneStep(2, n)
  {
  }

  lemma AlignedFour(n: u32)
    ensures LowBitsClear(2, n)
  {
  }

  lemma IndexFour(n: u32)
    ensures IndexRecovered(2, n)
  {
  }

  lemma FitsFour(n: u32)
    ensures FitsResultId(2, n)
  {
  }

  lemma WorkIdDecodesFour(n: u32, m: u32, s: u32, top: u32)
    requires m < 4 && s < 256
    ensures WorkIdDecodes(2, n, m, s, top)
  {
  }

  lemma MidstateIdxDecodesFour(n: u32, m: u32, s: u32, top: u32)
    requires m < 4 && s < 256
    ensures MidstateIdxDecodes(2, n, m, s, top)
  {
  }

  lemma DistinctFour(i: u32, j: u32)
    requires i <= PeriodMask(2) && j <= PeriodMask(2) && i != j
    ensures IdsDiffer(2, i, j)
  {
  }

  lemma AlignedResultIdFour(w: u32, m: u32, s: u32)
    requires w <= 0xFFFF && MidstateSlot(2, w) == 0 && m < WorkIdStep(2)
    ensures MidstateFillsLowBits(2, w, m, s)
  {
  }
}
