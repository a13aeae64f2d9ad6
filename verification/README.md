# FreeImage: entropy coding, page storage, quantizing and run-length codecs

A Dafny model of the hand-written state machines and codecs of FreeImage and of the JPEG library it carries, with proofs
that they do what they are for. Everything is stated over unbounded integers and sequences; where the program relies on
a fixed width (the coding registers, 16-bit table entries, the 2 GB limit of a stream), the fit is proved.

- **JPEG arithmetic coding.** `IntervalCoder` is the exact coder of Annex D of ITU-T T.81 on unbounded integers.
  `Estimation` says on the rows of Table D.3 what a decision does to the interval and to its bin.
  `ArithRegisters`, `ArithFinish` and `ArithEncoder` are the register coder of jcarith.c, which always stands for the
  exact interval; `ArithDecoder` is the decoder of jdarith.c, and recovers every decision of every run from the bytes.
  `McuCoding` says which decisions the five MCU routines make, `Binarization` and `ScanDecisions` which ones these are, in
  closed form and with the predictions and tables of each block; `McuEncoder` and `ScanEncoder` make them,
  `McuDecoding`, `RefineDecoding`, `ScanDecoding` and `ScanRoundTrip` decode whole scans with restarts,
  `ProgressiveScript` says what each scan of a script adds to a block, and `ScriptDecoding` decodes scan after scan into
  the coefficient arrays of the picture.
- **The coefficient controller.** `McuGeometry` has the blocks of each MCU, dummy blocks included, `CoefController` the
  single-pass and multi-pass loops, resumable at any MCU, and `McuOrder` the one sequence both feed. `PictureScans`
  joins controller and coder: where the blocks of each MCU are in the arrays, for interleaved scans and for those of one
  component. `PictureCoding` is the whole way, from the blocks of a picture through one file of all scans and back.
- **Multi-page documents.** `PageChains` and `CacheFile` are the paged store, `PageList` and `MultiPage` the lazily split
  block list over it, and `PageSaving` what saving does. `StoreRuns` and `DocumentRuns` are whole runs of operations.
- **The lossless quantizer**, `LfpQuantizer`, for any hash function.
- **Run-length codecs.** `MemoryStream` is the stream they run over. `IoCache`, `TargaPackets`, `TargaSave`, `TargaLoad`
  and `TargaRoundTrip` are the TARGA packets; `LineBuffer`, `PackBits`, `PsdRows` and `PsdImageData` the PSD rows, and
  `PsdFile` says where each byte of a bitmap is in the file.

Four results differ from what the interfaces suggest. Saving a document goes on after a failing page as long as the
block of source pages it is in goes on, and forgets the failure; `PageSaving.StopsAtFailure` says exactly when it stops.
Deleting a page with a negative number deletes the first page if the first block is a single page, and otherwise leaves
a list that stands for more pages than it counts (`MultiPage.NegativePage`). A chain of stored pages is found again if
and only if page 0 is at most its first page (`PageChains.FoundAgain`), which depends on the free list alone
(`PageChains.SoundIff`); it holds over every run without deletions or with the first file kept, and fails after four
calls (`StoreRuns.ZeroComesBack`, `StoreRuns.CutFile`). And a page can be locked whose number is not in the document
(`DocumentRuns.LockedBeyond`).

Nothing was executed: `dafny verify dfyconfig.toml` checks the proofs.

## Model

| member | source | states |
|---|---|---|
| `JpegAriTable.UnpackV` | FreeImage/LibJPEG/jaricom.c:29 | the packing macro: every field of a packed entry is unpacked again, so none spills into another |
| `JpegAriTable.AritabIsSound` | FreeImage/LibJPEG/jaricom.c:29-153 | all 114 entries: estimates below a half, next states within the table, and the last entry leads to itself |
| `AriTable.MovedIsLegal` | FreeImage/LibJPEG/jcarith.c:229-259 | a bin byte that moves to a next state of the table is a legal bin byte again |
| `AriTable.MovedIs` | FreeImage/LibJPEG/jcarith.c:229-259 | a transition puts the bin into the state the entry names, and exchanges the more probable symbol exactly if the entry says so |
| `IntervalCoder.RunNormal` | FreeImage/LibJPEG/jcarith.c:218-311 | for every sequence of decisions the exact interval stays inside the unit interval, with a width from 0x8000 to 0x10000 and legal bins |
| `IntervalCoder.RunStep` | FreeImage/LibJPEG/jcarith.c:218-311 | one more decision narrows the interval of the run and renormalizes it |
| `IntervalCoder.FixedStays` | FreeImage/LibJPEG/jcarith.c:940-944 | the fixed bin keeps state 113 over every run |
| `IntervalCoder.ContainsPrefix` | FreeImage/LibJPEG/jcarith.c:218-311 | intervals are nested: a point of the final interval is in the interval of every prefix of the run |
| `Estimation.RowOf` | FreeImage/LibJPEG/jaricom.c:29-153 | the entry of every state is a row of the table: estimate, next states, exchange |
| `Estimation.SubInterval` | FreeImage/LibJPEG/jcarith.c:235-259 | on the row of the bin: the estimate is taken off the top of the interval for the less probable symbol, and the two are exchanged if less than that would be left |
| `Estimation.LessProbable` | FreeImage/LibJPEG/jcarith.c:235-246 | after a less probable symbol the bin is in Next_Index_LPS of its row, and its symbol is exchanged exactly if the row says so; no other bin changes |
| `Estimation.MoreProbable` | FreeImage/LibJPEG/jcarith.c:248-259 | after a more probable symbol the bin is in Next_Index_MPS if the interval was renormalized, and as before otherwise; its symbol stays |
| `Estimation.Renormalized` | FreeImage/LibJPEG/jcarith.c:261-265 | the interval is doubled as often as it takes to be 0x8000 wide, and no more often |
| `Estimation.RunBegins` | FreeImage/LibJPEG/jcarith.c:840-916 | a run begins with the unit interval, with every bin in state 0 and the fixed bin in state 113 |
| `Estimation.RunAdapts` | FreeImage/LibJPEG/jcarith.c:218-311 | the same for every decision of every run: what it does to its bin, and that it leaves the others alone |
| `ArithRegisters.RegistersFit` | FreeImage/LibJPEG/jcarith.c:218-311 | registers in range use 28 bits, and 29 after a shift, so c never leaves 32 bits |
| `ArithRegisters.StartCoupled` | FreeImage/LibJPEG/jcarith.c:905-911 | the start state stands for the whole unit interval |
| `ArithRegisters.ShiftCoupled` | FreeImage/LibJPEG/jcarith.c:262-265 | a shift of a and c doubles the exact interval |
| `ArithRegisters.NarrowCoupled` | FreeImage/LibJPEG/jcarith.c:235-259 | changing a and c narrows the exact interval by the same amounts |
| `ArithRegisters.CarryHasRoom` | FreeImage/LibJPEG/jcarith.c:266-283 | a carry finds a byte below 0xFF in the buffer, and leaves a new byte of at most 0x1F |
| `ArithRegisters.ByteCarried` | FreeImage/LibJPEG/jcarith.c:267-283 | handling an overflow over stacked 0xFF bytes keeps data bytes, pending zeros, buffer and c equal to the exact low end |
| `ArithRegisters.ByteStacked` | FreeImage/LibJPEG/jcarith.c:284-285 | stacking a 0xFF byte keeps the exact low end |
| `ArithRegisters.ByteSettled` | FreeImage/LibJPEG/jcarith.c:286-305 | sending the buffer and the stacked bytes, with zeros held back, keeps the exact low end |
| `ArithRegisters.NoMarkers` | FreeImage/LibJPEG/jcarith.c:268-304 | there is a zero behind every 0xFF of stuffed data, so it has no markers |
| `ArithFinish.FinalCodeInside` | FreeImage/LibJPEG/jcarith.c:138-145 | the chosen final code lies in the coding interval and is a multiple of 0x8000 |
| `ArithFinish.FinalCodeZeros` | FreeImage/LibJPEG/jcarith.c:138-145 | it has as many trailing zero bits as any code in the interval: if one is a multiple of 2^k, so is the final code |
| `ArithFinish.FinalPlan` | FreeImage/LibJPEG/jcarith.c:133-193 | after the last shift the code has 28 bits, an overflow finds a byte in the buffer, and the code spells a point of the exact interval |
| `ArithFinish.TailRepresents` | FreeImage/LibJPEG/jcarith.c:180-193 | the bytes sent last, without trailing zeros, make the data represent a point of the final interval |
| `ArithFinish.RepresentsIs` | FreeImage/LibJPEG/jcarith.c:132-193 | what it means to represent a run: the data, read as a binary fraction, is at or above the low end of the exact interval and below its high end |
| `ArithEncoder.Encoder.constructor` | FreeImage/LibJPEG/jcarith.c:924-945 | the fixed bin and the empty state |
| `ArithEncoder.Encoder.Estimate` | FreeImage/LibJPEG/jcarith.c:226-259 | picks the sub-interval and moves the bin exactly as the exact coder does |
| `ArithEncoder.Encoder.CarryOut` | FreeImage/LibJPEG/jcarith.c:268-279 | pending zeros, the incremented buffer, and the stacked bytes as zeros held back |
| `ArithEncoder.Encoder.SettleOut` | FreeImage/LibJPEG/jcarith.c:286-304 | zeros are held back, other bytes are sent with their stuffing |
| `ArithEncoder.Encoder.ByteOut` | FreeImage/LibJPEG/jcarith.c:266-308 | byte output keeps the registers coupled to the exact interval |
| `ArithEncoder.Encoder.Renormalize` | FreeImage/LibJPEG/jcarith.c:261-310 | renormalization of the registers is renormalization of the exact interval |
| `ArithEncoder.Encoder.Encode` | FreeImage/LibJPEG/jcarith.c:218-311 | one decision: the registers, held-back bytes and output always stand for the exact interval of all decisions so far |
| `ArithEncoder.Encoder.FinishPass` | FreeImage/LibJPEG/jcarith.c:132-193 | the segment is stuffed, does not end in a zero, and read as a fraction lies in the final interval |
| `ArithEncoder.Encoder.Reset` | FreeImage/LibJPEG/jcarith.c:350-357 | cleared registers start a new run behind the bytes already sent |
| `ArithDecoder.Refill` | FreeImage/LibJPEG/jdarith.c:110-150 | renormalization and data input always end, with an interval of at least 0x8000 |
| `ArithDecoder.RefillSynced` | FreeImage/LibJPEG/jdarith.c:110-150 | the decoder's renormalization keeps up with the encoder's, across stuffed bytes and the marker behind the segment |
| `ArithDecoder.DecideSynced` | FreeImage/LibJPEG/jdarith.c:152-186 | given a value in the narrowed interval, the decoder takes the coded decision, and both sides narrow alike |
| `ArithDecoder.DecodeTracks` | FreeImage/LibJPEG/jdarith.c:105-187 | each call returns the next coded decision of the segment, whatever the statistics have adapted to |
| `ArithDecoder.DecoderInvertsEncoder` | FreeImage/LibJPEG/jcarith.c:132-311 | for every run, decoding the written bytes returns every decision |
| `ArithDecoder.FindsMarker` | FreeImage/LibJPEG/jdmarker.c:1010-1055 | however far the decoder has read ahead, the marker it finds next is the one right behind the segment |
| `McuEncoder.EmitCategory` | FreeImage/LibJPEG/jcarith.c:753-761 | the loop that finds the magnitude category makes the decisions of figure F.8 |
| `McuEncoder.EmitBits` | FreeImage/LibJPEG/jcarith.c:767-770 | the loop over the lower bits makes the decisions of figure F.9 |
| `McuEncoder.EmitAc` | FreeImage/LibJPEG/jcarith.c:450-550 | the AC loop for a band makes the decisions of figure F.5, section G.1.3.2 for progressive scans |
| `McuEncoder.EmitRefinement` | FreeImage/LibJPEG/jcarith.c:592-684 | the AC refinement loop makes the decisions of section G.1.3.3, the skipped end-of-block decisions included |
| `ScanEncoder.EntropyEncoder.constructor` | FreeImage/LibJPEG/jcarith.c:840-916 | the start of a scan, behind whatever has been sent before |
| `ScanEncoder.EntropyEncoder.EncodeSequential` | FreeImage/LibJPEG/jcarith.c:691-833 | a sequential MCU: decisions, predictions and contexts of all its blocks |
| `ScanEncoder.EntropyEncoder.EncodeDcFirst` | FreeImage/LibJPEG/jcarith.c:361-442 | an MCU of a first DC scan |
| `ScanEncoder.EntropyEncoder.EncodeAcFirst` | FreeImage/LibJPEG/jcarith.c:450-550 | an MCU of a first AC scan |
| `ScanEncoder.EntropyEncoder.EncodeDcRefine` | FreeImage/LibJPEG/jcarith.c:557-586 | an MCU of a DC refinement scan |
| `ScanEncoder.EntropyEncoder.EncodeAcRefine` | FreeImage/LibJPEG/jcarith.c:592-684 | an MCU of an AC refinement scan |
| `ScanEncoder.EntropyEncoder.EmitRestart` | FreeImage/LibJPEG/jcarith.c:318-358 | a restart closes its segment with marker number n mod 8 and clears statistics, predictions and registers |
| `ScanEncoder.EntropyEncoder.RestartIfDue` | FreeImage/LibJPEG/jcarith.c:703-712 | a restart exactly when the interval has been used up |
| `ScanEncoder.EntropyEncoder.EncodeMcu` | FreeImage/LibJPEG/jcarith.c:691-833 | one more accepted MCU, after a restart when one is due |
| `ScanEncoder.EntropyEncoder.FinishScan` | FreeImage/LibJPEG/jcarith.c:132-193 | the finished scan, behind any following marker, is read back by the decoder MCU by MCU |
| `ScanEncoder.EncodeScan` | FreeImage/LibJPEG/jcarith.c:132-916 | any sequence of MCUs, coded with one entropy encoder from start to finish of the pass: its bytes go behind the output, and any decoder reads the MCUs back |
| `Binarization.DcIs` | FreeImage/LibJPEG/jcarith.c:399-441 | a DC difference in closed form: zero or not, sign, whether the magnitude less one is zero, its category from bin 20 on, its bits 14 bins further on; it conditions the next one as zero up to half of 2^L, as large beyond 2^U, and by its sign |
| `Binarization.AcIs` | FreeImage/LibJPEG/jcarith.c:476-549 | a band in closed form: coefficient by coefficient which decisions with which bins, from 189 or 217 on for larger magnitudes, and where the end of the block is said |
| `Binarization.RefineIs` | FreeImage/LibJPEG/jcarith.c:617-683 | the refinement of a band in closed form: correction bits, new signs, and no end of block up to where it was in the stage before |
| `ScanDecisions.SequentialIs` | FreeImage/LibJPEG/jcarith.c:716-829 | a block of a sequential scan codes its DC difference and all its AC coefficients, with the tables of its component |
| `ScanDecisions.DcFirstIs` | FreeImage/LibJPEG/jcarith.c:380-441 | a block of a first DC scan codes the difference of its DC value shifted right by Al, rounding down |
| `ScanDecisions.AcFirstIs` | FreeImage/LibJPEG/jcarith.c:468-549 | a block of a first AC scan codes its band Ss to Se, divided by 2^Al towards zero |
| `ScanDecisions.DcRefineIs` | FreeImage/LibJPEG/jcarith.c:577-583 | a block of a DC refinement scan codes bit Al of its DC value, with the fixed bin |
| `ScanDecisions.AcRefineIs` | FreeImage/LibJPEG/jcarith.c:609-683 | a block of an AC refinement scan codes its band at Al, knowing it at Ah |
| `ScanDecisions.PredictedHere` | FreeImage/LibJPEG/jcarith.c:385-433 | what a difference is taken to is the DC value of the last block of the component in the MCU, and the context is that of the difference of this block |
| `ScanDecisions.PredictedBefore` | FreeImage/LibJPEG/jcarith.c:385-433 | or, if there is none before it in the MCU, of the last one in the MCU before |
| `ScanDecisions.PredictedFirst` | FreeImage/LibJPEG/jcarith.c:335-348 | at the start of a scan and behind each restart marker predictions and contexts are 0 |
| `ScanDecisions.BlockAfterBlock` | FreeImage/LibJPEG/jcarith.c:716-829 | what is coded for a restart interval is what its blocks are coded to, block by block, MCU by MCU |
| `ScanRoundTrip.ClosedSnoc` | FreeImage/LibJPEG/jcarith.c:318-332 | behind the stuffed data of restart interval n there is the marker RSTm with m = n mod 8 |
| `McuDecoding.DcReads` | FreeImage/LibJPEG/jdarith.c:541-582 | DC decoding undoes DC coding: the same value and the same conditioning context for the next block, for differences up to 2^15 |
| `McuDecoding.AcReads` | FreeImage/LibJPEG/jdarith.c:584-631 | AC decoding undoes AC coding: the same coefficients of the band, for magnitudes up to 2^15 |
| `RefineDecoding.RefineReads` | FreeImage/LibJPEG/jdarith.c:435-508 | AC refinement decoding takes every coefficient of the band one bit position further, the end-of-block rule included |
| `RefineDecoding.QuotHalves` | FreeImage/LibJPEG/jcarith.c:600-640 | the quotient of a coefficient at bit position Al+1 is half of the one at Al, with the sign |
| `ScanDecoding.DcFirstReads` | FreeImage/LibJPEG/jdarith.c:241-318 | first DC scans: the value shifted right arithmetically |
| `ScanDecoding.DcRefineReads` | FreeImage/LibJPEG/jdarith.c:402-433 | DC refinement scans add the next bit of the value |
| `ScanDecoding.McuReads` | FreeImage/LibJPEG/jdarith.c:511-635 | for each of the five scan kinds, decoding an MCU undoes coding it, with adaptive statistics and predictions |
| `ScanRoundTrip.ScanReads` | FreeImage/LibJPEG/jdarith.c:189-239 | a scan with restart intervals is read back as a whole: every MCU reaches the bit position of the scan |
| `BinRanges.ScanBins` | FreeImage/LibJPEG/jcarith.c:361-833 | for every sequence of MCUs of each of the five kinds of scan, DC coding stays within 49 bins, AC coding within 245, and contexts up to 16 |
| `BinRanges.SmallCarried` | FreeImage/LibJPEG/jcarith.c:722-771 | every sequence of MCUs with DC values up to 2^14 in magnitude can be carried: no DC difference exceeds 2^15 |
| `BinRanges.CategoryOverflows` | FreeImage/LibJPEG/jdarith.c:554-565 | a magnitude of more than 15 category bits makes the decoder report corrupt data |
| `BinRanges.DcReadsExactly` | FreeImage/LibJPEG/jdarith.c:541-582 | a coded DC value is read back if and only if its difference is at most 2^15 in magnitude |
| `ProgressiveScript.ScanAdvances` | FreeImage/LibJPEG/jcarith.c:361-684 | decoding a block in a legal scan takes its coefficients from their bit positions to the next ones, as sign times shifted magnitude (DC: arithmetic shift) |
| `ProgressiveScript.CompleteBlock` | FreeImage/LibJPEG/jcarith.c:361-684 | a block brought to position 0 in all coefficients is exactly the block of the source |
| `ScriptDecoding.PutIs` | FreeImage/LibJPEG/jdcoefct.c:263-291 | blocks read into different places of the coefficient arrays are all there afterwards |
| `ScriptDecoding.PassReads` | FreeImage/LibJPEG/jdcoefct.c:245-305 | decoding the bytes of a legal scan succeeds, and takes the coefficient arrays of the picture to the positions of the scan |
| `ScriptDecoding.ScriptReads` | FreeImage/LibJPEG/jdcoefct.c:245-305 | decoding the bytes of all scans of a legal script, one after the other, succeeds, and every block of the picture ends cut off at the positions of the script, whatever becomes of the blocks that pad MCUs |
| `ScriptDecoding.CompleteScript` | FreeImage/LibJPEG/jdcoefct.c:245-305 | a script that sends every coefficient to the last bit gives back every block exactly, from arrays of zeros |
| `PictureScans.LayoutOnce` | FreeImage/LibJPEG/jdcoefct.c:263-291 | no block of the arrays is in two MCUs of a scan, or twice in one |
| `PictureScans.BlockInLayout` | FreeImage/LibJPEG/jdcoefct.c:263-291 | every block of the picture is in each scan of its component, interleaved or alone |
| `PictureScans.LayoutInArray` | FreeImage/LibJPEG/jdcoefct.c:263-291 | every block of a scan is in the padded arrays, and a scan of one component has no padding |
| `PictureScans.MembershipIs` | FreeImage/LibJPEG/jcmaster.c:446-454 | block k of every MCU is a block of the component that MCU_membership[k] names |
| `PictureScans.PickBefore` | FreeImage/LibJPEG/jccoefct.c:143-400 | the MCUs that the compressor hands over are what its arrays hold at the places where the decompressor puts them |
| `PictureScans.OneScan` | FreeImage/LibJPEG/jcmaster.c:174-307 | one sequential scan of all components is legal and sends everything |
| `PictureScans.ChainReaches` | FreeImage/LibJPEG/jcmaster.c:238-259 | from any first bit position, a first scan and the refinements below it are legal and reach the last bit |
| `PictureScans.PictureReads` | FreeImage/LibJPEG/jdcoefct.c:245-305 | for every picture and every legal script of interleaved and single-component scans, every block of the picture is found at its place down to the bit positions of the script |
| `PictureScans.WholePicture` | FreeImage/LibJPEG/jdcoefct.c:245-305 | a legal script that sends everything gives back every block of the picture at its place |
| `PictureCoding.ControllerSmall` | FreeImage/LibJPEG/jccoefct.c:185-200 | dummy blocks are as small as the blocks they repeat |
| `PictureCoding.CodePicture` | FreeImage/LibJPEG/jcmaster.c:476-612 | scan by scan into one output: each scan behind its header, with all MCUs of its controller |
| `PictureCoding.RoundTrip` | FreeImage/LibJPEG/jdcoefct.c:245-305 | coding a picture by any legal script that sends everything and decoding the scans of the file restores every block |
| `McuGeometry.GroupsOfBlocks` | FreeImage/LibJPEG/jcmaster.c:140-167 | rounding up to blocks and then to MCUs gives the MCUs of the picture |
| `McuOrder.SizesCover` | FreeImage/LibJPEG/jcmaster.c:140-167 | the blocks of a component, and the MCUs, cover the picture with none to spare |
| `CoefController.Columns` | FreeImage/LibJPEG/jcmaster.c:384-457 | the real blocks of an MCU column, in the last column what last_col_width says |
| `CoefController.Rows` | FreeImage/LibJPEG/jcmaster.c:384-457 | the real block rows of an iMCU row, in the last one what last_row_height says |
| `CoefController.RightBlocks` | FreeImage/LibJPEG/jccoefct.c:185-192 | dummy blocks at the right edge repeat the DC value of the last real block |
| `CoefController.BelowBlocks` | FreeImage/LibJPEG/jccoefct.c:193-200 | dummy blocks below the picture repeat the DC value of the last block of the row above in the MCU |
| `CoefController.CoefController.constructor` | FreeImage/LibJPEG/jccoefct.c:100-130 | a controller at the first MCU of the scan |
| `CoefController.CoefController.StartIMcuRow` | FreeImage/LibJPEG/jccoefct.c:72-93 | the MCU rows of the iMCU row, the last one included |
| `CoefController.CoefController.FillMcu` | FreeImage/LibJPEG/jccoefct.c:169-204 | single pass: the buffer holds the MCU of this place, dummy blocks included |
| `CoefController.CoefController.CompressData` | FreeImage/LibJPEG/jccoefct.c:143-222 | single pass: the accepted MCUs are always those before the controller's place, in order; a refused MCU is the next one again |
| `CoefController.CoefController.LoadRow` | FreeImage/LibJPEG/jccoefct.c:286-300 | a row of the virtual array, padded to whole MCUs |
| `CoefController.CoefController.LoadDummyRow` | FreeImage/LibJPEG/jccoefct.c:301-324 | a dummy row of the virtual array, MCU by MCU |
| `CoefController.CoefController.LoadComponent` | FreeImage/LibJPEG/jccoefct.c:261-325 | an iMCU row of one component, dummy rows at the bottom included |
| `CoefController.CoefController.LoadIMcuRow` | FreeImage/LibJPEG/jccoefct.c:261-325 | an iMCU row of all components; the rows loaded before stay |
| `CoefController.CoefController.CompressFirstPass` | FreeImage/LibJPEG/jccoefct.c:248-332 | first of several passes: loads the arrays, and feeds the same sequence of MCUs |
| `CoefController.CoefController.PickMcu` | FreeImage/LibJPEG/jccoefct.c:373-384 | multi pass: the buffer holds the MCU of this place, the same as in single pass |
| `CoefController.CoefController.CompressOutput` | FreeImage/LibJPEG/jccoefct.c:345-400 | multi pass: the accepted MCUs are always those before the controller's place, in order |
| `McuOrder.BeforeIsPrefix` | FreeImage/LibJPEG/jccoefct.c:143-222 | whatever has been accepted is the beginning of the one sequence of MCUs of the scan |
| `McuOrder.SameMcus` | FreeImage/LibJPEG/jccoefct.c:143-400 | two controllers of the same scan, in any modes and under any suspensions, hand over the same sequence, each MCU once and in order |
| `McuOrder.McuAt` | FreeImage/LibJPEG/jccoefct.c:155-217 | that sequence has the MCU of each place at the index its row and column give |
| `McuOrder.McuCount` | FreeImage/LibJPEG/jcmaster.c:396-430 | it has MCU_rows_in_scan times MCUs_per_row MCUs |
| `McuOrder.BlockInterleaved` | FreeImage/LibJPEG/jccoefct.c:155-217 | every block of the picture is in an interleaved scan, in the MCU and at the place its row and column give |
| `McuOrder.BlockAlone` | FreeImage/LibJPEG/jccoefct.c:72-93 | a scan of one component is its real blocks row by row, one in each MCU |
| `McuOrder.BlockIs` | FreeImage/LibJPEG/jccoefct.c:169-204 | every block of every MCU of an interleaved scan: below the picture its DC value is that of the last block of the row above in the MCU, beyond the right edge that of the block to its left, and its AC entries are zero; elsewhere it is the block of the picture |
| `McuOrder.AcceptedBlock` | FreeImage/LibJPEG/jccoefct.c:143-400 | the same for every block that a controller has handed over, in any mode and under any suspensions |
| `PageChains.FoundAgain` | FreeImage/FreeImage/CacheFile.cpp:199-257 | linked pages are all found again if and only if none but the first is page 0 |
| `PageChains.NothingFreed` | FreeImage/FreeImage/CacheFile.cpp:113-132 | while nothing has been freed page 0 is never a continuation page |
| `PageChains.SoundIff` | FreeImage/FreeImage/CacheFile.cpp:113-132 | writing takes page 0 for a continuation page if and only if it is in the free list behind the first entry and within the pages needed |
| `PageChains.AddFile` | FreeImage/FreeImage/CacheFile.cpp:225-257 | a written chain is apart from all others, which keep their content |
| `PageChains.RemoveFile` | FreeImage/FreeImage/CacheFile.cpp:259-275 | removing a chain leaves all others with their content |
| `CacheFile.CacheFile.constructor` | FreeImage/FreeImage/CacheFile.cpp:32-41 | an empty store with no pages |
| `CacheFile.CacheFile.CleanupMemCache` | FreeImage/FreeImage/CacheFile.cpp:90-111 | eviction keeps every page's content and the bound on the memory list |
| `CacheFile.CacheFile.AllocateBlock` | FreeImage/FreeImage/CacheFile.cpp:113-132 | a page that was free or new; all other pages and the locked block's data stay |
| `CacheFile.CacheFile.LockBlock` | FreeImage/FreeImage/CacheFile.cpp:134-167 | the block of the page with its content in memory, reloaded if need be; NULL if another is locked or the page is unknown |
| `CacheFile.CacheFile.UnlockBlock` | FreeImage/FreeImage/CacheFile.cpp:169-176 | no block is locked afterwards |
| `CacheFile.CacheFile.DeleteBlock` | FreeImage/FreeImage/CacheFile.cpp:178-197 | the page leaves the map and goes to the end of the free list, even if it was not in use |
| `CacheFile.CacheFile.ReadFile` | FreeImage/FreeImage/CacheFile.cpp:199-223 | a stored file read with its size returns exactly the bytes written, however blocks are evicted and reloaded |
| `CacheFile.CacheFile.WriteFile` | FreeImage/FreeImage/CacheFile.cpp:225-257 | unless page 0 becomes a continuation page: a new reference for the bytes, all other files keep theirs, the pages are the next free ones, and so are those that come after; if it does, following the links does not find the pages written |
| `CacheFile.CacheFile.DeleteFile` | FreeImage/FreeImage/CacheFile.cpp:259-275 | only this file goes, and its pages are free again, in order, behind the others |
| `CacheFile.CacheFile.PagesPartitioned` | FreeImage/FreeImage/CacheFile.cpp:113-275 | live chains have no cycles and no pages in common, and every page is either free or in one of them |
| `StoreRuns.RunAll` | FreeImage/FreeImage/CacheFile.cpp:90-275 | every run of writes, reads and (in memory) deletions of live files that does not take page 0 for a continuation page: every call is allowed, a read of what a write returned gives the bytes of that write unless they were deleted in between, and the files, chains and free pages are those that the operations say |
| `StoreRuns.RunNew` | FreeImage/FreeImage/CacheFile.cpp:32-275 | the same from a new store |
| `StoreRuns.ReadsReturn` | FreeImage/FreeImage/CacheFile.cpp:199-275 | reading what a write returned gives the bytes of that write, whatever else was written and deleted in between |
| `StoreRuns.WithoutDeletions` | FreeImage/FreeImage/CacheFile.cpp:113-132 | without deletions no run takes page 0 for a continuation page |
| `StoreRuns.FirstFileSuffices` | FreeImage/FreeImage/CacheFile.cpp:113-275 | no run that begins with writing a file and never deletes it takes page 0 for a continuation page |
| `StoreRuns.ZeroComesBack` | FreeImage/FreeImage/CacheFile.cpp:113-275 | a run of four calls after which it happens: two files of one page, deleted last to first |
| `StoreRuns.CutFile` | FreeImage/FreeImage/CacheFile.cpp:225-257 | the store after this run: a file of two pages or more is stored, and following its links finds only its first page |
| `PageList.PiecesDenote` | FreeImage/FreeImage/MultiPage.cpp:191-211 | splitting a block at a page of it changes neither the pages it stands for nor their number |
| `MultiPage.NegativePage` | FreeImage/FreeImage/MultiPage.cpp:655-682 | with a negative number and a first block of several pages, the list that is left counts one page less and stands for at least as many as before |
| `PageList.StaysAt` | FreeImage/FreeImage/MultiPage.cpp:158-221 | a single-page block found before stays in the list, at the same page |
| `PageList.MovePages` | FreeImage/FreeImage/MultiPage.cpp:790-791 | copying a block before another and erasing it is the move of the page at `target` to just before the page that was at `source` |
| `PageList.ValidSplit` | FreeImage/FreeImage/MultiPage.cpp:193-211 | splitting keeps nodes distinct and every stored file with one block |
| `MultiPage.MultiBitmap.constructor` | FreeImage/FreeImage/MultiPage.cpp:98-126 | a document of n source pages |
| `MultiPage.MultiBitmap.GetPageCount` | FreeImage/FreeImage/MultiPage.cpp:556-573 | the number of pages, cached or counted |
| `MultiPage.MultiBitmap.FindBlock` | FreeImage/FreeImage/MultiPage.cpp:158-221 | a single-page block at exactly this page; the document does not change; the end of the list if there is no such page; for a negative number the first block, split beside its pages |
| `MultiPage.MultiBitmap.SavePageToBlock` | FreeImage/FreeImage/MultiPage.cpp:575-612 | nothing while read-only or a page is locked, else a reference block with a file of its own, and the store as after writing it |
| `MultiPage.MultiBitmap.AppendPage` | FreeImage/FreeImage/MultiPage.cpp:614-628 | the document with the page at its end and the store with its file, or both unchanged if it cannot be edited |
| `MultiPage.MultiBitmap.InsertPage` | FreeImage/FreeImage/MultiPage.cpp:630-653 | the document with the page before this one (at the front for numbers below 1) and the store with its file, or both unchanged |
| `MultiPage.MultiBitmap.DeletePage` | FreeImage/FreeImage/MultiPage.cpp:655-682 | the document without the page and the store without its file, unless it is the only one, missing, or editing is not allowed; what a negative number leaves |
| `MultiPage.MultiBitmap.MovePage` | FreeImage/FreeImage/MultiPage.cpp:780-801 | the document with the page at `target` moved, and success exactly when both pages exist and differ |
| `MultiPage.MultiBitmap.LockPage` | FreeImage/FreeImage/MultiPage.cpp:684-725 | locked page numbers stay distinct; the document does not change |
| `MultiPage.MultiBitmap.UnlockPage` | FreeImage/FreeImage/MultiPage.cpp:727-778 | a changed page is replaced by its stored bytes, in place; length and order stay |
| `DocumentRuns.RunAll` | FreeImage/FreeImage/MultiPage.cpp:556-801 | every run of append, insert, delete, move, lock, unlock and count in which page 0 of the store is not taken for a continuation page: every call is allowed, and the document ends as the edits of its sequence of pages say |
| `DocumentRuns.RunNew` | FreeImage/FreeImage/MultiPage.cpp:556-801 | the same from a new document on a new store |
| `DocumentRuns.InsertIs` | FreeImage/FreeImage/MultiPage.cpp:630-653 | after inserting: the new page at its number, all pages before it as they were, the others one further on |
| `DocumentRuns.DeleteIs` | FreeImage/FreeImage/MultiPage.cpp:655-682 | after deleting: the pages behind it one number lower; the only page stays |
| `DocumentRuns.MoveIs` | FreeImage/FreeImage/MultiPage.cpp:780-801 | after moving: which page has which number, for moves up and for moves down |
| `DocumentRuns.LockedStays` | FreeImage/FreeImage/MultiPage.cpp:575-801 | while a page is locked, only unlocking changes the pages, and nothing their number |
| `DocumentRuns.LockedBeyond` | FreeImage/FreeImage/MultiPage.cpp:684-778 | a page number beyond the document can be locked: after a deletion the last page of the source; the search that unlocking makes for it gives the end of the list |
| `MultiPage.MultiBitmap.Save` | FreeImage/FreeImage/MultiPage.cpp:375-472 | the pages given to the plugin are the document's, page i with number i, up to the end of the first block whose last page fails |
| `PageSaving.AllSaved` | FreeImage/FreeImage/MultiPage.cpp:405-459 | without a failure every page is saved |
| `PageSaving.StopsAtFailure` | FreeImage/FreeImage/MultiPage.cpp:405-459 | saving stops right after the first failing page if and only if that page is the last of its block |
| `PageSaving.FailureForgotten` | FreeImage/FreeImage/MultiPage.cpp:410-425 | a failure within a block of several source pages is followed by more pages and forgotten |
| `LfpQuantizer.ProbeEnds` | FreeImage/FreeImage/LFPQuantizer.cpp:151-166 | probing ends at the colour if the table has it, and at an empty bucket only if it does not |
| `LfpQuantizer.ProbeStops` | FreeImage/FreeImage/LFPQuantizer.cpp:151-166 | probing meets an empty bucket within one round, for any hash |
| `LfpQuantizer.PutValid` | FreeImage/FreeImage/LFPQuantizer.cpp:158-160 | a colour put where its probing ended keeps every colour findable |
| `LfpQuantizer.MaskedIsColor` | FreeImage/FreeImage/LFPQuantizer.cpp:72 | four bytes read and masked are the colour of the three |
| `LfpQuantizer.PixelInside` | FreeImage/FreeImage/LFPQuantizer.cpp:61-65 | no read leaves the image: only the very last 24-bit pixel has no byte behind it |
| `LfpQuantizer.PaletteIs` | FreeImage/FreeImage/LFPQuantizer.cpp:69-132 | the colours that are counted are exactly those of the pixels |
| `LfpQuantizer.PaletteBytes` | FreeImage/FreeImage/LFPQuantizer.cpp:69-132 | the colours that are counted are the numbers that have the blue, green and red byte of some pixel, from the lowest byte up |
| `LfpQuantizer.SameBytes` | FreeImage/FreeImage/LFPQuantizer.cpp:69-132 | two pixels have the same colour if and only if their three bytes are the same |
| `LfpQuantizer.ReserveIs` | FreeImage/FreeImage/LFPQuantizer.cpp:174-193 | a reserved colour has the slot of its first occurrence at the end of the palette |
| `LfpQuantizer.LfpQuantizer.constructor` | FreeImage/FreeImage/LFPQuantizer.cpp:26-30 | an empty table |
| `LfpQuantizer.LfpQuantizer.GetIndexForColor` | FreeImage/FreeImage/LFPQuantizer.cpp:151-166 | the colour's index, the next new one, or -1 exactly if the palette is full |
| `LfpQuantizer.LfpQuantizer.AddReservePalette` | FreeImage/FreeImage/LFPQuantizer.cpp:174-193 | reserved colours have the last slots, the first of equal colours keeping its own |
| `LfpQuantizer.LfpQuantizer.WritePalette` | FreeImage/FreeImage/LFPQuantizer.cpp:202-208 | every colour of the table is at its index, and other slots are not written |
| `LfpQuantizer.LfpQuantizer.QuantizeLine` | FreeImage/FreeImage/LFPQuantizer.cpp:69-101 | a line of pixels has the indices of its colours |
| `LfpQuantizer.LfpQuantizer.Quantize` | FreeImage/FreeImage/LFPQuantizer.cpp:36-139 | success if and only if the colours that are not reserved fit beside the reserve palette; then the palette has the blue, green and red byte of each pixel at its index, and reserved slots are kept apart |
| `MemoryStream.MemoryStream.constructor` | FreeImage/FreeImage/FreeImageIO.cpp:64-165 | an empty stream |
| `MemoryStream.MemoryStream.Read` | FreeImage/FreeImage/FreeImageIO.cpp:64-86 | the bytes from the position on, cut at the end of the file, and the number of whole items |
| `MemoryStream.MemoryStream.Write` | FreeImage/FreeImage/FreeImageIO.cpp:88-124 | the file with the bytes at the position; refused if and only if it would not stay below 0x7FFFFFFF |
| `MemoryStream.MemoryStream.Grow` | FreeImage/FreeImage/FreeImageIO.cpp:95-117 | doubling until there is room, keeping the content |
| `MemoryStream.MemoryStream.Seek` | FreeImage/FreeImage/FreeImageIO.cpp:126-158 | the new position, refused if and only if negative |
| `IoCache.IoCache.constructor` | FreeImage/FreeImage/PluginTARGA.cpp:212-219 | the cache starts at the position of the stream |
| `IoCache.IoCache.GetByte` | FreeImage/FreeImage/PluginTARGA.cpp:229-242 | the next byte of the file |
| `IoCache.IoCache.GetBytes` | FreeImage/FreeImage/PluginTARGA.cpp:244-267 | the next bytes of the file, across refills, seek-backs and a short last read |
| `TargaPackets.GreedyLength` | FreeImage/FreeImage/PluginTARGA.cpp:1211-1219 | the header of a raw packet is paid for by three pixels or by being full |
| `TargaPackets.LineFits` | FreeImage/FreeImage/PluginTARGA.cpp:1211-1219 | a line of n pixels of p bytes never needs more than n * p + ceil(n / 3) bytes |
| `TargaSave.FlushPacket` | FreeImage/FreeImage/PluginTARGA.cpp:1103-1127 | header and pixels of the packet behind what was written |
| `TargaSave.EqualPixel` | FreeImage/FreeImage/PluginTARGA.cpp:1261-1278 | a pixel equal to the next one starts or continues a run |
| `TargaSave.OtherPixel` | FreeImage/FreeImage/PluginTARGA.cpp:1280-1310 | a pixel that differs from the next one ends a run or continues a raw packet |
| `TargaSave.LastPixel` | FreeImage/FreeImage/PluginTARGA.cpp:1240-1259 | the last pixel of the line closes the packet |
| `TargaSave.SaveLine` | FreeImage/FreeImage/PluginTARGA.cpp:1231-1312 | the packets stand for exactly the line, hold 1 to 128 pixels, are greedy, and fit the buffer |
| `TargaLoad.HeaderHere` | FreeImage/FreeImage/PluginTARGA.cpp:605-640 | the first byte of a packet has 0x80 exactly for a run, and one less than the count below it |
| `TargaLoad.NotCorrupt` | FreeImage/FreeImage/PluginTARGA.cpp:614-620 | packets that fit the picture are never taken for corrupt |
| `TargaLoad.LoadPacket` | FreeImage/FreeImage/PluginTARGA.cpp:605-655 | one packet fills its pixels, over line ends |
| `TargaLoad.LoadRle` | FreeImage/FreeImage/PluginTARGA.cpp:571-659 | the picture has exactly the pixels of the packets, crossing lines or not |
| `TargaRoundTrip.SaveRle` | FreeImage/FreeImage/PluginTARGA.cpp:1192-1323 | the stream has, behind what it had, greedy packets for each line that stand for exactly that line: none crosses a line |
| `TargaRoundTrip.SaveAndLoad` | FreeImage/FreeImage/PluginTARGA.cpp:571-1323 | pixel x of line y is at y * width + x again with the bytes it was saved with, 16-bit pixels with bit 15 cleared |
| `PackBits.UnpackPack` | FreeImage/FreeImage/PSDParser.cpp:1310-1775 | unpacking undoes packing for every sequence of bytes, and no header is 128 |
| `PackBits.PackIs` | FreeImage/FreeImage/PSDParser.cpp:1746-1775 | the packets: two equal bytes begin a run, which goes on as far as it can; other packets go on to the next three equal bytes; none is longer than 127 |
| `PackBits.PackedLength` | FreeImage/FreeImage/PSDParser.cpp:1746-1775 | packing n bytes takes at most n + ceil(n / 127) |
| `PackBits.PackRle` | FreeImage/FreeImage/PSDParser.cpp:1746-1775 | the packets of the line within a buffer of that length |
| `PackBits.UnpackRle` | FreeImage/FreeImage/PSDParser.cpp:1310-1347 | the bytes the packets stand for, and the rest of the line untouched |
| `PsdRows.OffsetsDiffer` | FreeImage/FreeImage/PSDParser.cpp:1050-1061 | each channel has an offset of its own within the pixels |
| `PsdRows.TableEntry` | FreeImage/FreeImage/PSDParser.cpp:1506-1528 | the size table gives back every row length that fits its entries |
| `PsdRows.PackedFits` | FreeImage/FreeImage/PSDParser.cpp:1854-1897 | packed rows of one-byte samples have lengths of 16 bits in version 1 files, 32 bits in version 2 files |
| `PsdImageData.WriteImageLine` | FreeImage/FreeImage/PSDParser.cpp:1698-1744 | the samples of the channel one after the other, each with its bytes in the opposite order: byte j of sample i is byte (size - 1 - j) of what the bitmap has |
| `PsdImageData.ReadImageLine` | FreeImage/FreeImage/PSDParser.cpp:1262-1308 | the samples of the row at the places of the channel; other channels untouched |
| `PsdImageData.SamplesBack` | FreeImage/FreeImage/PSDParser.cpp:1262-1744 | reading a row undoes writing it: strides and byte swaps cancel |
| `PsdImageData.WriteRows` | FreeImage/FreeImage/PSDParser.cpp:1831-1886 | all rows of all channels behind what was there, and their sizes; it fails if and only if the stream is full |
| `PsdImageData.PutBack` | FreeImage/FreeImage/PSDParser.cpp:1888-1916 | the size table takes the place left for it, and nothing else changes |
| `PsdImageData.WriteImageData` | FreeImage/FreeImage/PSDParser.cpp:1777-1937 | the stream has the compression, the size table and the rows |
| `PsdFile.RawImage` | FreeImage/FreeImage/PSDParser.cpp:1831-1886 | raw image data byte by byte: 00 00, and then for each channel, row from the top, pixel and byte what the bitmap has, with red, green and blue from offsets 2, 1 and 0 |
| `PsdFile.PackedImage` | FreeImage/FreeImage/PSDParser.cpp:1854-1916 | run-length coded image data: 00 01, the length of every packed row in two or four bytes, the highest first, and the packed rows one after the other |
| `PsdImageData.ReadRows` | FreeImage/FreeImage/PSDParser.cpp:1468-1580 | every sample of every channel is back |
| `PsdImageData.ReadImageData` | FreeImage/FreeImage/PSDParser.cpp:1349-1580 | image data that was written gives back the bitmap |
| `PsdImageData.AlwaysFit` | FreeImage/FreeImage/PSDParser.cpp:2095-2099 | with the version chosen for the picture the size table always has room |
| `PsdImageData.WriteAndRead` | FreeImage/FreeImage/PSDParser.cpp:1777-1937 | writing and reading restores every sample, raw with 8, 16 and 32 bits and run-length coded with 8 |

## Left out

- Suspension inside the arithmetic encoder: like jcarith.c, the model has none; the controller is modelled with an entropy coder that may refuse any MCU.
- The counters `sc` and `zc` are unbounded integers: a run of 2^31 stacked bytes is not modelled as wrapping around.
- ArithDecoder.Decode: the decoder of jdarith.c is a set of functions on values, as the specification the encoder is proved against; its updates in place are not modelled.
- ScanRoundTrip.ScanReads: corrupt or truncated segments are not decoded beyond what BinRanges.CategoryOverflows says.
- The quantized coefficients that the transform makes are parameters, a function from places to blocks; the virtual-array manager is plain rows of blocks.
- CoefController.CoefController.CompressOutput: the list of pointers to blocks is a buffer of block values.
- The decoder's coefficient controller is a function on values: where the blocks of each MCU go, without its suspension; headers are any bytes that begin with a marker, and reading them is not modelled.
- JpegScan.ValidScan: a natural order has 64 distinct places. The shorter orders for small transforms are modelled by any extension of their first lim_Se + 1 places, beyond which no routine looks.
- PictureCoding.RoundTrip: DC values up to 2^14 in magnitude, as those of 8-bit samples are; PictureScans.WholePicture asks only that no DC difference exceeds 2^15, beyond which decoding fails.
- CacheFile.CacheFile.WriteFile: what reading returns for a file whose chain is cut is not modelled, beyond the pages that are found.
- CacheFile.CacheFile.DeleteBlock: only with pages kept in memory, as for deleting files.
- CacheFile.CacheFile.DeleteFile: only with pages kept in memory; the store does not keep its guarantees when deleting and spilling to disk are combined.
- CacheFile.CacheFile.ReadFile: only with the size that was written; the destination buffer is a returned sequence.
- The backing file of the store is a map from page numbers to pages; opening, closing, input/output errors and the size of page numbers are not modelled.
- An iterator into a page list is modelled by the block it stands at, or the number of its node.
- MultiPage.MultiBitmap.AppendPage: only while writing the page does not make page 0 a continuation page; otherwise the store is as WriteFile leaves it, and the page is not read back.
- MultiPage.MultiBitmap.InsertPage: under the same condition as AppendPage.
- MultiPage.MultiBitmap.DeletePage: a stored page is deleted only from a store that keeps its pages in memory.
- MultiPage.MultiBitmap.UnlockPage: a changed page must be a page of the document, which the locked number does not ensure, as DocumentRuns.LockedBeyond shows; otherwise the program writes through the end of the list.
- DocumentRuns.RunAll: without page numbers to delete that are negative, for which MultiPage.NegativePage says what is left.
- MultiPage.MultiBitmap.Save: the plugins that load and save are callbacks on page numbers and stored bytes; opening and closing files, spooling and renaming are left out.
- LfpQuantizer.LfpQuantizer.Quantize: allocation of the 8-bit image is taken to succeed, and the image to have pixels.
- MemoryStream.MemoryStream.Write: enlarging the buffer is taken to succeed below the limit.
- TargaSave.SaveLine: pixels are addressed by number within their line; byte order within a pixel is that of a little-endian machine.
- TargaLoad.LoadRle: packets that stand for exactly the pixels of the picture, and a cache at least as large as a pixel; corrupt streams, conversion to 24 bits, thumbnails, palettes and footers are left out.
- PsdImageData.WriteRows: the loops for raw and for run-length coded rows are one loop with a switch; sizes are appended in the order of the rows, which is the order of the table.
- PsdImageData.ReadImageData: the search for the longest row, which only sizes a buffer, is left out, and as many channels are read as the bitmap has.
- PsdImageData.WriteImageData: run-length coding is modelled for one-byte samples, for which the row buffer is made; choosing the compression, inverting CMYK, layers, resources, profiles and colour conversion are left out.
- The Huffman coder, the forward transform, downsampling and colour conversion of the JPEG library, and all plugins that wrap other libraries, would add nothing to these results.
