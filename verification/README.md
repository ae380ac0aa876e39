# Verified model of the roadside infrastructure system

This project models three parts of the system and proves properties of them.

1. **The erasure code of the I2V link.** Bytes form the field GF(2^8); a batch of `nin` source packets
   is extended by `nout` random linear combinations, and the receiver solves for the sources with
   Gauss-Jordan elimination. Modules `GaloisField`, `Reduction`, `LinearAlgebra`, `Elimination`, `LinearSystems`,
   `Rank`, `FiniteField`, `SharedRows`, `PlantedRows`, `CrossedRows`, `RepeatedRows`, `ErasureCode`,
   `RepeatedPackets`, `WideParity`, `Ldpc`, `Division`, `V2xSender`, `ReceiverModel`, `V2xReceiver`,
   `Stretches` and `EndToEnd`.
2. **The greedy task allocator** of the cluster-level dispatcher. Modules `Allocation` and
   `TaskAllocator`.
3. **The dispatch handshake** between the local scheduler and its model processes. Module `Handshake`.

Code that works on buffers is written as methods on arrays and objects and proved equal to functions on
values; the properties are proved about those functions. `FiniteField`, `Ldpc`, `V2xSender`,
`V2xReceiver` and `TaskAllocator` hold the buffer-level and object-level code; the other modules hold
the functions and the theory.

## What is established

- Whatever arrives of what any number of senders send, in whatever order, the receiver hands out one
  result for every stretch of consecutive packets of one batch that can be decoded (`EndToEnd.Delivers`).
  If no packet repeats before its stretch is decoded, the results are the senders' bytes
  (`V2xSender.LinkDelivers`). Stretches count as determined in the literal sense: no other source gives
  the same packets (`EndToEnd.DeterminedIffUnambiguous`). Hence delivery at most once holds exactly if no
  batch is determined by two stretches (`EndToEnd.AtMostOnceIff`), and a channel that only drops packets
  gets exactly the determined batches, once each, in order (`V2xSender.LossyLinkDelivers`). All this is
  about traces in which no two batches of a sender with equal low bits follow each other.
- Decoding is modelled with the sharing of rows that repeated coefficient ids cause. With different ids
  the round trip holds and failure is exact (`ErasureCode.RoundTrip`, `ErasureCode.FailsIffAmbiguous`).
  Which repeated ids can give a wrong answer is settled for every table (`RepeatedRows.SafeIff`).
- The table product is the product of two polynomials reduced by x^8 + x^4 + x^3 + x^2 + 1
  (`Reduction.MulIsRemainder`), and it makes the bytes a field. Which random draw becomes which coefficient is
  fixed for encoder and decoder (`ErasureCode.ParityBytes`, `ErasureCode.TableEntries`).
- Elimination keeps an invertible transform whose product with the original matrix is the reduced
  matrix; it finds a pivot in every column exactly if the matrix sends only zero to zero.
- The rank routine returns the dimension of the row space, and that number is unique.
- No task that the allocator leaves over fits on any node at the end; what is placed meets its
  deadlines; the early exit of the search changes nothing.
- In the handshake at most one model process runs at a time, no wake-up is lost, some step is always
  possible, and a dispatch is answered after a bounded number of steps. Every dispatch runs the model of the
  selected worker exactly once, and no other (`Handshake.DispatchRunsOnce`).

## Where the code and its documentation or intention differ

- `communication/I2V/src/LDPC.cpp:26` clears the pointer table `outputPkts` where the packet
  `outputPkts[j]` is meant; the model clears each packet, which the accumulation of the parity packets
  needs.
- `communication/I2V/include/FiniteField.h:55` says that elimination returns the rank. It returns the
  number of leading columns with a pivot: `Rank.PivotCountIsNotRank` is an input where the two differ,
  and `Rank.PivotCountIsRankIff` says exactly when they agree.
- The header fields are narrower than the arguments they are written from. A batch of 32 source packets
  or more never decodes to all of them (`ErasureCode.WideBatchLosesPackets`); with a multiple of 32 it
  decodes to nothing (`ErasureCode.WideBatchDecodesToNothing`). With 32 parity packets or more, a parity
  packet is read with coefficients of other draws; in place of a source packet it gives the right answer
  for every source exactly if both coefficient rows agree (`WideParity.WideParityDecodes`,
  `WideParity.MisreadIff`).
- Packets with the same coefficient id point the solver at one shared row, and a repeated pivot row is
  subtracted from itself. The solver's answer is right for every table exactly if the ids are all
  different, or fewer of them differ than there are unknowns, or there is at most one unknown
  (`RepeatedRows.SafeIff`). On encoded packets: let a parity packet arrive twice or more often in place of
  source packet a, with a coefficient for a, and either with none for earlier source packets or after all
  of these. Then decode succeeds, and it is right for every source exactly if the parity row has no
  coefficient for a later source packet (`RepeatedPackets.RepeatedParityMisleads`,
  `RepeatedPackets.MisleadsIff`). A source packet that arrives twice beside a single parity packet can
  mislead as well (`RepeatedPackets.RepeatedSourceMisleads`).
- The `continue` at `communication/I2V/src/v2x_receiver.cpp:47` continues the loop over the history, so the
  history decides nothing (`ReceiverModel.HistoryNeverMatters`) and late packets, or those of
  another sender in between, can repeat a batch (`EndToEnd.LatePacketsRepeatBatch`). When exactly that happens is `EndToEnd.AtMostOnceIff`.
- Batch numbers have eight bits. If the packets of 255 batches in a row are lost, packets of two batches
  can be mixed (`EndToEnd.IdClashMixesBatches`); the delivery theorems exclude exactly adjacent batches
  with equal low bits.
- `recv_buf` at `communication/I2V/src/v2x_receiver.cpp:10` is allocated without room for the header; the
  model takes the size that the read at line 31 uses.
- `curBatchId` is initialised with -1 but has eight bits, so it starts at 255; the model does the same.

## Model

| member | source | states |
|---|---|---|
| GaloisField.MulCommutes | communication/I2V/include/FiniteField.h:32-34 | the table product, read as shift-and-reduce by 0x11D, commutes |
| GaloisField.MulAssociates | communication/I2V/include/FiniteField.h:32-34 | the product is associative |
| GaloisField.MulAddRight | communication/I2V/include/FiniteField.h:20-34 | the product distributes over exclusive or |
| GaloisField.MulOneLeft | communication/I2V/include/FiniteField.h:32-34 | one is neutral for the product |
| GaloisField.MulInverse | communication/I2V/include/FiniteField.h:32-38 | every nonzero byte has an inverse |
| GaloisField.NoZeroDivisors | communication/I2V/include/FiniteField.h:32-34 | a product is zero exactly if a factor is |
| Reduction.MulIsRemainder | communication/I2V/include/MulTable_O8.h:3 | the product is the one byte that differs from the product without carries by a multiple of 0x11D |
| Reduction.TableDoubles | communication/I2V/include/MulTable_O8.h:3 | doubling shifts a byte below 128, and reduces from 128 on; 2 times 128 is 29 |
| GaloisField.MulElem | communication/I2V/include/MulTable_O8.h:3 | the product table entry at x * 256 + y is the field product of x and y |
| GaloisField.DivElem | communication/I2V/include/DivTable_O8.h:4 | the quotient table entry is x times the inverse of y, and 255 for y = 0 |
| GaloisField.DivElemUnique | communication/I2V/include/FiniteField.h:36-38 | for y != 0 the quotient is the one z with z * y = x |
| LinearAlgebra.DotAssociates | communication/I2V/src/FiniteField.cpp:238-243 | combining rows first or applying the matrix first gives the same, the algebra the solver relies on |
| Elimination.RowStepKeepsTracks | communication/I2V/src/FiniteField.cpp:214-232 | applying the same row operations to matrix and transform keeps transform times original equal to the matrix |
| Elimination.RowStepKeepsKernel | communication/I2V/src/FiniteField.cpp:214-232 | a row step changes nothing about which vectors are sent to zero, so the transform stays invertible |
| Elimination.PivotStepColumns | communication/I2V/src/FiniteField.cpp:217-232 | after the step for column i the columns up to i are columns of the identity |
| Elimination.PivotStep | communication/I2V/src/FiniteField.cpp:203-233 | one round keeps the whole elimination invariant |
| Elimination.EliminateInvariant | communication/I2V/src/FiniteField.cpp:201-236 | at the end transform times original is the reduced matrix, the transform is invertible, the columns before the result are unit columns, and a missing pivot means a zero column below |
| LinearSystems.TransformSolves | communication/I2V/src/FiniteField.cpp:238-258 | with a pivot in every column, row i of the transform applied to the right-hand sides gives unknown i |
| LinearSystems.MissingPivot | communication/I2V/src/FiniteField.cpp:203-212 | without a pivot in column i, the unit vector i plus the reduced column i is nonzero and sent to zero |
| LinearSystems.FullRankIffTrivialKernel | communication/I2V/src/FiniteField.cpp:201-236 | every column gets a pivot exactly if only the zero vector is sent to zero |
| Rank.RankIsUnique | communication/I2V/src/FiniteField.cpp:156-190 | the dimension of the row space is one number |
| Rank.TransformKeepsSpan | communication/I2V/src/FiniteField.cpp:175-187 | invertible row operations keep the row space |
| Rank.ForwardKeepsEchelon | communication/I2V/src/FiniteField.cpp:175-187 | one pivot of the rank routine extends the echelon form although r is not advanced |
| Rank.RankOfIsRank | communication/I2V/src/FiniteField.cpp:156-190 | for every matrix the rank routine yields the dimension of the row space and nothing else |
| Rank.PivotCountIsRankIff | communication/I2V/include/FiniteField.h:55-56 | elimination returns the rank exactly if the leading columns, as many as the rank, are independent |
| Rank.PivotCountIsNotRank | communication/I2V/include/FiniteField.h:55-56 | a matrix of rank one for which elimination returns zero |
| FiniteField.MulVec | communication/I2V/src/FiniteField.cpp:31-68 | the unrolled kernel equals the product entry by entry, for every size and y = 0, and writes nothing else |
| FiniteField.MulVecLocal | communication/I2V/src/FiniteField.cpp:71-106 | the in-place kernel equals the product entry by entry |
| FiniteField.AddMulVec | communication/I2V/src/FiniteField.cpp:109-148 | the multiply-and-add kernel equals the sum entry by entry |
| FiniteField.MulMat | communication/I2V/src/FiniteField.cpp:150-154 | the result is the linear combination of all col vectors |
| FiniteField.NewIdentityMat | communication/I2V/src/FiniteField.cpp:23-28 | fresh, separate rows that form the identity |
| FiniteField.FindPivot | communication/I2V/src/FiniteField.cpp:204-209 | the first row from i on with a nonzero entry in the column |
| FiniteField.ScaleTail | communication/I2V/src/FiniteField.cpp:218-221 | the entries from i on are multiplied, those before stay |
| FiniteField.SubtractTail | communication/I2V/src/FiniteField.cpp:227-230 | a multiple is subtracted in the entries from i on, also when both rows are one |
| FiniteField.ClearOthers | communication/I2V/src/FiniteField.cpp:225-232 | the loop over all other rows computes the step-by-step clearing, with rows shared or not |
| FiniteField.EliminateColumn | communication/I2V/src/FiniteField.cpp:214-232 | one round in place is one round of the model, with rows shared or not |
| FiniteField.GaussianElimination | communication/I2V/src/FiniteField.cpp:201-236 | elimination in place computes pivot count, rows, pointers and transform of the model, for every row table, also one that points at a row twice |
| FiniteField.MultiplyAll | communication/I2V/src/FiniteField.cpp:248-252 | the solution rows are the transform rows applied to the right-hand sides |
| FiniteField.GaussianSolve | communication/I2V/src/FiniteField.cpp:244-258 | the solver returns the pivot count, writes the solution if every column has a pivot, and leaves the output alone otherwise |
| FiniteField.DivideTail | communication/I2V/src/FiniteField.cpp:178-179 | dividing from the last entry down to the pivot itself divides the whole row by the old pivot |
| FiniteField.ClearBelow | communication/I2V/src/FiniteField.cpp:181-186 | the column is cleared below the pivot row |
| FiniteField.FindPivotColumn | communication/I2V/src/FiniteField.cpp:159-174 | the search loop terminates and skips exactly the columns without a pivot |
| FiniteField.GetRank | communication/I2V/src/FiniteField.cpp:156-190 | the routine in place computes the rank function |
| SharedRows.ClearFromDistinct | communication/I2V/src/FiniteField.cpp:225-232 | with different pointers the loop clears each row once, by the unchanged pivot row |
| SharedRows.DistinctIsEliminate | communication/I2V/src/LDPC.cpp:62-67 | with different pointers into the table, elimination in shared memory is the textbook algorithm |
| SharedRows.RankAtMostDifferent | communication/I2V/src/FiniteField.cpp:201-236 | there are never more pivots than different rows, shared or not |
| SharedRows.EliminateAlike | communication/I2V/src/LDPC.cpp:62-67 | rows that no pointer leads to play no role |
| PlantedRows.ClearFirst | communication/I2V/src/FiniteField.cpp:225-232 | of several pointers to one row, clearing a column updates the transform for the first |
| PlantedRows.PlantedAnswer | communication/I2V/src/FiniteField.cpp:201-236 | with unit rows and one other row pointed at twice, every column gets a pivot, and the transform yields every unknown, except that the repeated row's own tail takes the place of one |
| CrossedRows.CrossedAnswer | communication/I2V/src/FiniteField.cpp:201-236 | with a unit row pointed at twice beside one mixing row, every column gets a pivot and two unknowns change places |
| RepeatedRows.OneUnknownRecovers | communication/I2V/src/FiniteField.cpp:201-236 | with one unknown, repeated rows do no harm |
| RepeatedRows.RepeatedMisleads | communication/I2V/src/LDPC.cpp:62-67 | any list with a repeated pointer, enough different ones and two unknowns has a table with full rank and a wrong answer |
| RepeatedRows.SafeIff | communication/I2V/src/LDPC.cpp:62-67 | the answer is right for every table and all unknowns exactly if the pointers differ, or too few of them differ, or there is at most one unknown |
| ErasureCode.WideBatchLosesPackets | communication/I2V/src/LDPC.cpp:48-69 | a batch with nin >= 32 decodes, if at all, to nin mod 32 packets |
| ErasureCode.WideBatchDecodesToNothing | communication/I2V/src/LDPC.cpp:48-69 | a batch with nin a multiple of 32 decodes to nothing from its first packet |
| ErasureCode.SystematicRow | communication/I2V/src/LDPC.cpp:34-37 | the first nin rows of the generator matrix reproduce the source packets |
| ErasureCode.EncodedPackets | communication/I2V/src/LDPC.cpp:25-37 | packet r carries the number of its batch, r, nin and nout, and the first nin packets are the source packets |
| ErasureCode.ParityBytes | communication/I2V/src/LDPC.cpp:38-45 | byte k of parity packet j is the sum over the source packets i of draw i * nout + j of the batch times byte k of packet i |
| ErasureCode.TableEntries | communication/I2V/src/LDPC.cpp:52-61 | unit rows for the source packets, draw i * nout + j as coefficient i of parity packet j, leftovers below |
| ErasureCode.EncodedPacketsBelong | communication/I2V/src/LDPC.cpp:19-46 | every encoded packet carries the header and payload that decoding expects of its batch |
| ErasureCode.DecodeIgnoresLeftovers | communication/I2V/src/LDPC.cpp:50-67 | for coefficient ids of the batch, the result does not depend on what earlier calls left in the table |
| ErasureCode.DecodeDifferent | communication/I2V/src/LDPC.cpp:62-68 | with different coefficient ids decoding is elimination of the received coefficient rows |
| ErasureCode.RoundTrip | communication/I2V/src/LDPC.cpp:19-69 | whatever packets of a batch with different coefficient ids are decoded, in whatever order, success means the source packets |
| ErasureCode.DecodesIffTrivialKernel | communication/I2V/src/LDPC.cpp:62-68 | with different ids decoding succeeds exactly if the received coefficient rows send only zero to zero |
| ErasureCode.FailsIffAmbiguous | communication/I2V/src/LDPC.cpp:62-68 | with different ids decoding fails exactly if another source would have given the same packets |
| ErasureCode.TooFewPackets | communication/I2V/src/LDPC.cpp:62-68 | packets with fewer than nin different ids never decode |
| ErasureCode.SystematicPacketsDecode | communication/I2V/src/LDPC.cpp:53-68 | the systematic packets decode in every order, among any others with different ids |
| ErasureCode.MorePacketsStillDecode | communication/I2V/src/LDPC.cpp:53-68 | a decodable set with different ids stays decodable when packets with new ids are added |
| RepeatedPackets.RepeatedParityMisleads | communication/I2V/src/LDPC.cpp:62-67 | a parity packet twice or more often in place of source packet a, with a coefficient for a and with none for earlier source packets or after all of them: decode gives every other source packet, and for a what the parity row mixes from a on, divided by its coefficient for a |
| RepeatedPackets.MisleadsUnlessCancelled | communication/I2V/src/LDPC.cpp:62-67 | that equals packet a exactly if what the parity row mixes in after a cancels out |
| RepeatedPackets.MisleadsIff | communication/I2V/src/LDPC.cpp:62-67 | under the same hypotheses the decode is right for every source exactly if the parity row has no coefficient after a |
| RepeatedPackets.SafeIdsAlwaysRight | communication/I2V/src/LDPC.cpp:48-69 | different ids, too few different ids, or one source packet: for every draw and source, success means the right answer |
| RepeatedPackets.SourcePacketsAlwaysRight | communication/I2V/src/LDPC.cpp:48-69 | without parity packets, source packets may repeat in any way: success means the right answer |
| RepeatedPackets.AlwaysRightIff | communication/I2V/src/LDPC.cpp:48-69 | where a parity id repeats and some source packet before the last is missing, success means the right answer for every draw and source exactly if fewer than nin ids differ |
| RepeatedPackets.RepeatedSourceMisleads | communication/I2V/src/LDPC.cpp:62-67 | for nin >= 3 and every draw whose parity row mixes the source packets nin - 3 and nin - 1, packets 0 to nin - 4, the parity packet, nin - 3 twice and nin - 2 decode with those two in each other's place, scaled |
| RepeatedPackets.RepeatedSourceNotSafe | communication/I2V/src/LDPC.cpp:48-69 | hence for every nin >= 3 a repeated source packet beside a parity packet can give a wrong answer |
| WideParity.WideParityDecodes | communication/I2V/src/LDPC.cpp:48-69 | with nout >= 32, a parity packet in place of source packet a decodes to what the encoder's row and the row regenerated for nout mod 32 make of it |
| WideParity.MisreadIff | communication/I2V/src/LDPC.cpp:48-69 | that is packet a for every source exactly if both rows agree |
| Ldpc.InitPackets | communication/I2V/src/LDPC.cpp:25-32 | every packet gets its truncated header values and a zero payload |
| Ldpc.CopySource | communication/I2V/src/LDPC.cpp:34-37 | the source packets are copied, the other payloads stay |
| Ldpc.MixParity | communication/I2V/src/LDPC.cpp:38-45 | the accumulation over all draws leaves every parity payload as its linear combination |
| Ldpc.Coder.Encode | communication/I2V/src/LDPC.cpp:19-46 | the buffers hold the encoded batch |
| Ldpc.FillSystematic | communication/I2V/src/LDPC.cpp:53-56 | the first nin table rows become unit rows |
| Ldpc.FillParity | communication/I2V/src/LDPC.cpp:57-61 | column-wise drawing yields the parity rows that encoding used: coefficient i of parity packet j is draw i * nout + j |
| Ldpc.Coder.Refill | communication/I2V/src/LDPC.cpp:50-61 | the table holds the generator rows of the batch, draw i * nout + j as coefficient i of parity packet j, and leftovers below |
| Ldpc.Coder.Attach | communication/I2V/src/LDPC.cpp:62-66 | A points at the table rows of the packets, Y at their payloads; equal ids get the same row |
| Ldpc.Coder.Decode | communication/I2V/src/LDPC.cpp:48-69 | decoding in place computes the decode function, repeated ids included, leaves the input packets as they are, and the output too when it fails |
| ReceiverModel.RunConcat | communication/I2V/src/v2x_receiver.cpp:27-78 | repeated calls add up to one run over the whole stream |
| ReceiverModel.HistoryIsInert | communication/I2V/src/v2x_receiver.cpp:44-55 | whatever the history holds, a packet has the same result and leaves everything else the same |
| ReceiverModel.HistoryNeverMatters | communication/I2V/src/v2x_receiver.cpp:27-78 | the same for whole runs |
| ReceiverModel.HistoryIsBounded | communication/I2V/src/v2x_receiver.cpp:50-54 | in every run the history holds at most four batch numbers |
| ReceiverModel.OtherSizesVanish | communication/I2V/src/v2x_receiver.cpp:31-32 | packets of another size leave no trace: every run is the run over the others |
| ReceiverModel.DifferentIdsFit | communication/I2V/include/LDPC.h:12-18 | packets with different coefficient ids of one batch number at most nin + nout, hence at most 62, and fit the tables |
| V2xReceiver.Receiver.constructor | communication/I2V/src/v2x_receiver.cpp:7-18 | the receiver starts in the initial state with separate buffers |
| V2xReceiver.Receiver.Follow | communication/I2V/src/v2x_receiver.cpp:34-61 | node and batch changes reset state and history as written, including the loop that skips nothing |
| V2xReceiver.Receiver.Store | communication/I2V/src/v2x_receiver.cpp:63 | the packet is appended to those held |
| V2xReceiver.Receiver.Attempt | communication/I2V/src/v2x_receiver.cpp:64-69 | the attempt gives the same result as decoding with fresh tables and keeps the packets held |
| V2xReceiver.Receiver.Handle | communication/I2V/src/v2x_receiver.cpp:33-70 | one packet is one step of the receiver model |
| V2xReceiver.Receiver.Recv | communication/I2V/src/v2x_receiver.cpp:27-78 | recv consumes packets up to the first result and returns it in the output rows; packets may repeat |
| V2xReceiver.TryDecodeIsDecode | communication/I2V/src/v2x_receiver.cpp:63-69 | retrying with one more packet is sound: leftovers play no role |
| V2xSender.NothingLost | communication/I2V/src/v2x_sender.cpp:22-37 | batches and waiting packets together are the packets given, in order |
| V2xSender.Accounting | communication/I2V/src/v2x_sender.cpp:22-37 | after k calls floor(k / nin) batches are out and k mod nin packets wait |
| V2xSender.FlattenAt | communication/I2V/src/v2x_sender.cpp:22-37 | packet i of batch m is the argument of call m * nin + i |
| V2xSender.OnAirAt | communication/I2V/src/v2x_sender.cpp:29-36 | position k * (nin + nout) + r of the sent stream is packet r of batch k |
| V2xSender.Sender.constructor | communication/I2V/src/v2x_sender.cpp:7-14 | the sender starts with nothing sent and nothing waiting |
| V2xSender.Sender.Send | communication/I2V/src/v2x_sender.cpp:22-38 | one call is one step of the accounting, and the socket has seen exactly the complete batches |
| V2xSender.Sender.SendBatch | communication/I2V/src/v2x_sender.cpp:28-36 | the collected packets become the next batch on the air, under the next number modulo 256 |
| V2xSender.Sender.Transmit | communication/I2V/src/v2x_sender.cpp:30-36 | every packet goes out once, in order, with the node filled in |
| V2xSender.ArrivalsAreReceived | communication/I2V/src/v2x_sender.cpp:30-36 | any choice of sent packets of any senders, in any order and number, is a trace of the network |
| V2xSender.DroppingIsDelivery | communication/I2V/src/v2x_sender.cpp:30-36 | a channel that only drops packets of a sender keeps batches together and in order, and repeats nothing |
| V2xSender.LinkDelivers | communication/I2V/src/v2x_receiver.cpp:27-78 | whatever arrives of any number of senders, without repeats before a stretch is decoded, the receiver can hold it and hands out a batch for every stretch that determines it |
| V2xSender.LossyLinkDelivers | communication/I2V/src/v2x_receiver.cpp:27-78 | over such a channel the receiver hands out exactly the determined batches, once each, in order |
| Stretches.CutMaximal | communication/I2V/src/v2x_receiver.cpp:37-61 | the trace is cut into maximal stretches of one batch of one sender that join up to it |
| EndToEnd.TooFewReceived | communication/I2V/src/v2x_receiver.cpp:64 | an attempt on fewer than nin packets fails, repeated or not, so the count test loses nothing |
| EndToEnd.FreshIsRight | communication/I2V/src/v2x_receiver.cpp:62-69 | if no id repeats before a stretch is decoded, what comes out of it is the sender's source |
| EndToEnd.DeterminedIsDecodable | communication/I2V/src/v2x_receiver.cpp:62-69 | ignoring the packets after a decode loses nothing: a stretch with different ids has been decoded exactly if all its packets decode |
| EndToEnd.DeterminedIffUnambiguous | communication/I2V/src/LDPC.cpp:62-68 | a batch counts as determined exactly if no other source gives the packets received |
| EndToEnd.StepDescribes | communication/I2V/src/v2x_receiver.cpp:33-70 | every packet keeps the description of the current stretch and hands out what is due |
| EndToEnd.Delivers | communication/I2V/src/v2x_receiver.cpp:27-78 | every run, with packets of several senders dropped, delayed, reordered or repeated, hands out one result for every stretch that can be decoded |
| EndToEnd.DeliversSources | communication/I2V/src/v2x_receiver.cpp:27-78 | without repeats before a stretch is decoded, these are the senders' source packets |
| EndToEnd.AtMostOnceIff | communication/I2V/src/v2x_receiver.cpp:27-78 | no batch is handed out twice exactly if no batch is determined by two stretches |
| EndToEnd.DeliversOnce | communication/I2V/src/v2x_receiver.cpp:27-78 | if packets of a batch stay together, exactly the batches that all their received packets determine are handed out, once each |
| EndToEnd.HandedOutAscending | communication/I2V/src/v2x_receiver.cpp:27-78 | stretches in order of batches are handed out in that order |
| EndToEnd.FreshIsAcceptable | communication/I2V/src/v2x_receiver.cpp:50-65 | without repeats before a stretch is decoded, the packets held fit the tables |
| EndToEnd.IdClashMixesBatches | communication/I2V/src/v2x_receiver.cpp:50-61 | any two batches with equal low bits, with every systematic packet from one of the two in any order, are mixed into one result |
| EndToEnd.LatePacketsRepeatBatch | communication/I2V/src/v2x_receiver.cpp:37-61 | a batch determined, interrupted by other batches or other senders, and determined again is handed out twice |
| Handshake.StepKeepsInv | computing/local_exe/local_scheduler/local_scheduler.py:144-170 | every step of scheduler or worker keeps locks, tokens and wake-ups right |
| Handshake.RunInv | computing/local_exe/local_scheduler/local_scheduler.py:144-170 | the invariant holds in every state of every run, for any number of workers and any interleaving |
| Handshake.MutualExclusion | computing/local_exe/local_scheduler/model_inference.py:66-98 | at most one model process runs, and it is the selected one |
| Handshake.DispatchRunsOnce | computing/local_exe/local_scheduler/local_scheduler.py:144-170 | in every run, from the selection of a worker to the next return to selecting that worker runs its model exactly once and no other worker runs one |
| Handshake.EverySelectionRuns | computing/local_exe/local_scheduler/model_inference.py:66-98 | whenever the scheduler is back at selecting, every worker has run its model exactly as often as it has been selected |
| Handshake.WorkBalance | computing/local_exe/local_scheduler/local_scheduler.py:144-170 | between any two states of a run, what a worker owed and was selected for is what it has run and still owes |
| Handshake.RunningMeans | computing/local_exe/local_scheduler/model_inference.py:72-93 | a model that runs is the selected one and the only one, no flag is set, its worker holds no lock, and the scheduler is at the end lock |
| Handshake.LocksExclude | computing/local_exe/local_scheduler/local_scheduler.py:147-170 | who is inside start_lock or end_lock is there alone |
| Handshake.Conservation | computing/local_exe/local_scheduler/local_scheduler.py:144-170 | start flags, busy workers and end flags sum to one while a dispatch is under way and to zero otherwise |
| Handshake.Progress | computing/local_exe/local_scheduler/model_inference.py:66-98 | no deadlock and no lost wake-up: an explicit process can always move |
| Handshake.StepReducesRank | computing/local_exe/local_scheduler/local_scheduler.py:144-170 | every step but a new selection brings the dispatch closer to its end |
| Handshake.BoundedResponse | computing/local_exe/local_scheduler/local_scheduler.py:157-170 | from any reachable state only a bounded number of steps can pass before the next selection |
| Handshake.RankBounded | computing/local_exe/local_scheduler/local_scheduler.py:157-170 | the bound is linear in the number of workers |
| Allocation.FeasibleIff | computing/task_dispatcher/allocation/allocator.py:69-80 | a task fits exactly if the sum of rate times processing time is at most what the delay leaves of each deadline, times that task's rate |
| Allocation.TotalTimeConcat | computing/task_dispatcher/allocation/allocator.py:73-76 | the total time of two lists is the sum of theirs |
| Allocation.TotalTimeOne | computing/task_dispatcher/allocation/allocator.py:73-76 | one task takes its rate times its processing time |
| Allocation.LoadConcat | computing/task_dispatcher/allocation/allocator.py:140 | the load of two lists is the sum of theirs |
| Allocation.LoadOne | computing/task_dispatcher/allocation/allocator.py:140 | the load of one task times its deadline is its processing time |
| Allocation.LoadGrows | computing/task_dispatcher/allocation/allocator.py:140 | tasks added to a node raise its load |
| Allocation.FeasibilityIsLost | computing/task_dispatcher/allocation/allocator.py:120-139 | tasks added to a node never make another task fit |
| Allocation.TooFarAway | computing/task_dispatcher/allocation/allocator.py:116-118 | a delay above the task's deadline rules a node out |
| Allocation.BestIsBest | computing/task_dispatcher/allocation/allocator.py:138-143 | full search yields the feasible node with the least load, nearest first and in node order on ties |
| Allocation.BestIsUnique | computing/task_dispatcher/allocation/allocator.py:138-143 | there is only one such node |
| Allocation.BestMeans | computing/task_dispatcher/allocation/allocator.py:138-143 | the task fits on the node found, and any other node it fits on would carry more load, or as much at no shorter delay |
| Allocation.PlaceOneTakes | computing/task_dispatcher/allocation/allocator.py:95-148 | a task that fits somewhere is appended to the list of such a node and leaves the candidates; otherwise nothing changes |
| Allocation.PlaceAllInOrder | computing/task_dispatcher/allocation/allocator.py:88-148 | the tasks are placed one after the other, each on what those before it leave |
| Allocation.PlaceAllKeepsTasks | computing/task_dispatcher/allocation/allocator.py:145-148 | no task is lost or doubled |
| Allocation.PlaceOneKeepsSchedulable | computing/task_dispatcher/allocation/allocator.py:120-147 | after an insertion every task on the node meets its deadline, with the newest task's transfer delay on top |
| Allocation.PlaceAllKeepsSchedulable | computing/task_dispatcher/allocation/allocator.py:83-148 | schedulability survives the whole allocation |
| Allocation.NothingLeftFits | computing/task_dispatcher/allocation/allocator.py:83-148 | a task left over at the end of the queue fits on no node |
| TaskAllocator.EdgeNode.InsertTask | computing/task_dispatcher/env/edgenode.py:52-58 | a task is appended once, and the list before the first change is kept |
| TaskAllocator.EdgeNode.IsChanged | computing/task_dispatcher/env/edgenode.py:74-81 | a change is reported exactly if the set of task ids differs from that at the last report |
| TaskAllocator.SameIdsIff | computing/task_dispatcher/env/edgenode.py:74-81 | the sets of ids agree exactly if each id of one list is an id of the other |
| TaskAllocator.DrainOrders | computing/task_dispatcher/allocation/allocator.py:84-90 | the queue yields every task once, by priority |
| TaskAllocator.SortedNodesSorted | computing/task_dispatcher/allocation/allocator.py:103 | the nodes are ordered by delay, ties in the order of the nodes |
| TaskAllocator.SortedNodesComplete | computing/task_dispatcher/allocation/allocator.py:103 | the order contains every node |
| TaskAllocator.GetExecTime | computing/task_dispatcher/allocation/allocator.py:69-80 | every task id is mapped to the time that, times its rate, is the total time |
| TaskAllocator.CheckNode | computing/task_dispatcher/allocation/allocator.py:120-139 | a node is accepted exactly if the total time fits into what the delay leaves of every deadline, at each task's rate |
| TaskAllocator.SumLoad | computing/task_dispatcher/allocation/allocator.py:140 | the load is the sum of opt_time over deadline |
| TaskAllocator.FindNode | computing/task_dispatcher/allocation/allocator.py:105-143 | the sorted search with early exit finds the node that full search finds: the task fits there, and no node it fits on would be less loaded, or as loaded and nearer |
| TaskAllocator.Allocator.PlaceTask | computing/task_dispatcher/allocation/allocator.py:95-148 | one task goes to the best node and leaves the candidates, or nothing changes |
| TaskAllocator.Allocator.Allocate | computing/task_dispatcher/allocation/allocator.py:83-153 | the loop computes the greedy placement by priority and publishes it |
| TaskAllocator.SensorIdsMembers | computing/task_dispatcher/allocation/allocator.py:162-163 | the list of a sensor holds exactly the ids of the tasks that use it |
| TaskAllocator.SensorIdsConcat | computing/task_dispatcher/allocation/allocator.py:162-163 | the ids of a sensor are listed in the order of the tasks |
| TaskAllocator.SensorIdsOne | computing/task_dispatcher/allocation/allocator.py:162-163 | a task that uses the sensor adds its id once, another adds nothing |
| TaskAllocator.DeploysTask | computing/task_dispatcher/allocation/allocator.py:156-170 | a task's id is under a node and a sensor exactly if such a task is on the node's list |
| TaskAllocator.GroupBySensor | computing/task_dispatcher/allocation/allocator.py:162-163 | the task ids of a node are listed per sensor in order |
| TaskAllocator.Allocator.DeployTasks | computing/task_dispatcher/allocation/allocator.py:156-170 | the dictionary put last into the queue lists exactly the placed task ids under node and sensor; of the older ones only the first is taken out |
| TaskAllocator.GreedyPartition | computing/task_dispatcher/allocation/allocator.py:145-148 | in the end every task is on exactly one node or among the candidates |
| TaskAllocator.GreedyIsMaximal | computing/task_dispatcher/allocation/allocator.py:83-148 | for a candidate that is left, on every node the total time with it exceeds some task's deadline less the delay, at that task's rate |
| TaskAllocator.GreedyIsSchedulable | computing/task_dispatcher/allocation/allocator.py:83-148 | from empty nodes, the total time of every node is in the end within each of its tasks' deadlines, at that task's rate, also with the newest task's delay on top |

## Left out

- RepeatedPackets.AlwaysRightIff: covers lists in which a parity id repeats and a source packet before the last one is missing; lists of source packets only are always right (`RepeatedPackets.SourcePacketsAlwaysRight`). For the remaining lists with repeated ids and enough different ones it depends on the order of the packets whether some draw misleads; for these `RepeatedRows.SafeIff` gives the condition over all tables, not over those alone that a draw can yield.
- RepeatedPackets.MisleadsIff: says nothing about orders in which a source packet before a that the parity row mixes in arrives after the parity packet; there decode can fail, be wrong in several packets, or be right.
- Ldpc.Coder.Encode: clears every packet instead of the pointer table, see above.
- V2xSender.Sender.constructor: requires nin >= 1 and field widths that fit the header; the original checks neither.
- V2xReceiver.Receiver.Recv: requires that at most 100 packets of a batch are held and that their coefficient ids are among those the first of them announces; `EndToEnd.FreshIsAcceptable` shows that packets without repeats meet this. A stream that does not could overrun the 100-row tables or read rows left over from earlier batches, which is not modelled.
- EndToEnd.DeliversSources: requires that no packet repeats before its stretch is decoded; what repeats do to a decode is the subject of `RepeatedPackets`.
- FiniteField.GaussianElimination: row tables are sequences of row arrays that are returned with their pointers swapped, where the original swaps pointers inside a table; the rows themselves are changed in place.
- FiniteField.MulVec: the sixteen unrolled lines are written as four groups of four.
- TaskAllocator.Allocator.Allocate: requires different priorities, different task ids and positive rates, times and deadlines; with equal priorities the original compares tasks, which have no order. Times are real numbers, so rounding is not modelled.
- Handshake.Step: the endless loops are a state machine over atomic steps; exceptions, the blocking read of the data queue in a worker, and the choice of task and variant are not part of it.
- The pseudo-random generator is a function from seed and draw number to bytes; the Mersenne Twister is not modelled.
- The product and quotient tables are represented by the operations their entries stand for.
- Sockets, packet capture, radio headers, sequence numbers and rates handed through by recv, and the pauses between packets.
- The communication delay of a task to a node is a parameter of the allocator; reading bandwidths and frame sizes is left out, and so are node names as text.
- Selection of the task and of the model variant in the local scheduler, result files, and miss rates.
- The wireless driver, sensor readers, configuration readers, servers and plotting.
