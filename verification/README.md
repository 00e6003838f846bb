# Verified models of ODR-DabMod's algorithmic cores

ODR-DabMod turns a DAB ensemble into baseband samples. This project models the algorithmic parts of it in Dafny 4.11 and
proves what they are for. `dafny verify dfyconfig.toml` checks everything.

| file | what it models |
|---|---|
| `Complex`, `Sums`, `Integers`, `Twiddles`, `Fourier`, `Butterflies` | exact complex numbers, finite sums, the twiddle table, the plain DFT, the butterfly rows |
| `FftWork`, `FftFactor`, `KissFft`, `FftInverse`, `FastSize` | `kiss/kiss_fft.c`: the recursion, the factoriser, set-up, inverse round trip, fast sizes |
| `KissFftr`, `KissFftNd` | `kiss/kiss_fftr.c` (real samples) and `kiss/kiss_fftnd.c` (several dimensions) |
| `Permutations`, `Lcg`, `FrequencyInterleaver` | the frequency interleaver and the full-period theorem behind it |
| `FicDatabase`, `FicFields`, `FicParser`, `FicLayout`, `FicDecoder` | the FIC decoder and its observer: database steps and what each changes, FIG parsing, the FIG formats of the standard, the objects |
| `Bits`, `Crc16`, `Crc16Table`, `FibCheck` | the table-driven CRC, its compiled-in table, and what the FIB check detects |
| `ThreadsafeQueue`, `Pipeline` | the queue with its condition variables, and the two threads of a pipelined codec |
| `FixedPoint`, `CubeRoot` | fixed-point multiplication, division, square and cube root |
| `Prbs`, `ConvEncoder`, `Puncturing` | energy dispersal, convolutional mother code, puncturing |
| `Flowgraph`, `DabModulator` | the order of the processing nodes, and the connections the modulator makes |
| `GuardInterval` | guard intervals with windowed overlap |
| `EtiReader`, `EtiFrames`, `EtiLayout` | the ETI(NI) byte-stream parser; whole frames, streams of frames, and where they may be cut; the frame layout of the standard |

Each object of the source whose methods change its fields is a class whose methods are proved against a specification
function or a predicate; what the source promises is then proved about that specification. Threads are modelled as atomic
steps, with waiting as a step that is not enabled.

Where a specification follows the source's own tables and formulas, it is tied to the standards as well: `FicLayout` and
`EtiLayout` write FIBs and ETI frames from the fields to the bytes and prove what is read from them, `FicFields` says what
each piece of service information changes field by field, and the interleaver's order, the scrambler's bits, the codewords
and the order of the output blocks are stated with the numbers of the standards and the source.

Results worth knowing before reading on:

* The observer's service list is never stale, but it is emptied when an ensemble is first forwarded, so a service that was
  complete before can be missing (`FicDatabase.ListedServiceLost`); `FicDatabase.CompleteIffNotCleared` says exactly when.
* `push_wait_if_full` and `wait_and_pop` can put each other to sleep for good exactly when the threshold is below the
  prebuffering (`ThreadsafeQueues.DeadlockFreeIff`).
* When `internal_process` fails, the output of that buffer is delivered only if the next call has already passed its test of
  `m_running`; otherwise it stays in the queue for good (`Pipeline.FailedOutputIff`, `Pipeline.FailedOutputLost`).
* A pipelined codec that is given an empty buffer loses its worker. For every codec, also one that fails, a call can then
  wait for ever exactly when the worker gets as far as that buffer and another call follows (`Pipeline.DeadlockIff`).
* The comment in `cbrt` says that the two rounds keep the shift inside the intermediate type. Whether they do is decided by
  two numbers that a caller can compute from the argument (`CubeRoot.CbrtFitsIff`, for every type and argument), and where
  they do the result is the cube root (`CubeRoot.Cbrt`). For the three 32-bit types of `fpm/fixed.hpp` they always do
  (`CubeRoot.ShippedTypesFit`). For the 16-bit type of `src/Buffer.h` they do exactly for raw values up to 1114 whose
  multiple by 8192 is less than 65536 above a cube (`CubeRoot.SixteenBitFits`). Outside this condition the contract of
  `CubeRoot.Cbrt` promises no root: signed words overflow. With wrap-around, up to 1114, the root is right under exactly the
  same condition (`CubeRoot.SixteenBitRight`), and it is wrong for the raw value 420 (`CubeRoot.SixteenBitWrong`).
* `loadEtiData` reads past the end of its data exactly when a call ends strictly inside the payload of the sub-channels
  (`EtiFrames.FrameCut`, `EtiFrames.StreamFed`).
* `loadEtiData` uses the FIC source for the timestamp at the end of every call that consumes all its bytes. Before there is
  one, it does so exactly for calls that end between two fields before the frame characterisation: with no bytes or four
  bytes at the start of a frame, and with no bytes after that (`EtiReading.NoFicSourceIff`).
* The observer keeps an old ensemble label: only a new eid or ecc is forwarded (`FicDatabase.ObservedFollowsIff`,
  `FicDatabase.OldLabelKept`).

Where numbers come from outside: `turn(t)` stands for exp(2·pi·i·t/n) and `cosine(i, d)` for cos(pi·i/d); the few facts
used about them are the predicates `KissFft.IsTurn`, `GuardInterval.OddAboutTheMiddle` and `GuardInterval.FallsFromOne`. `internal_process` and the
plugins of a flowgraph are arbitrary functions.

## Model

| member | source | states |
|---|---|---|
| Twiddles.WHalf | kiss/kiss_fft.c:352-361 | the entry at N/2 of any table of powers of a primitive root is -1 |
| Twiddles.WThird | kiss/kiss_fft.c:96-99 | the entries at N/3 have real part -1/2 and are conjugate, which the radix-3 kernel relies on |
| Twiddles.WQuarter | kiss/kiss_fft.c:70-79 | the entry at N/4 is -i, or i in an inverse state, which the radix-4 kernel relies on |
| Twiddles.WFifth | kiss/kiss_fft.c:143-144 | the entries at multiples of N/5 come in conjugate pairs, which the radix-5 kernel relies on |
| Butterflies.Radix2Row | kiss/kiss_fft.c:26-35 | sum and difference of the twiddled inputs are both recombined bins of the row |
| Butterflies.Radix3Row | kiss/kiss_fft.c:101-127 | the scaled sums and rotated differences are the three recombined bins of the row |
| Butterflies.Radix4Row | kiss/kiss_fft.c:54-83 | the sums and quarter-turned differences are the four recombined bins, in both directions |
| Butterflies.Radix5Row | kiss/kiss_fft.c:153-189 | the four combinations with ya and yb are the five recombined bins of the row |
| FftWork.KfBfly2 | kiss/kiss_fft.c:15-36 | leaves, in place, the radix-2 recombination of the buffer: the same as the generic butterfly |
| FftWork.KfBfly3 | kiss/kiss_fft.c:86-128 | leaves the radix-3 recombination, for every m, stride and buffer |
| FftWork.KfBfly4 | kiss/kiss_fft.c:38-84 | leaves the radix-4 recombination in the forward and the inverse direction |
| FftWork.KfBfly5 | kiss/kiss_fft.c:130-190 | leaves the radix-5 recombination, for every m, stride and buffer |
| FftWork.AccumulateOutput | kiss/kiss_fft.c:217-227 | the index that is reduced by at most one subtraction a step reads the right table entries of the sum |
| FftWork.KfBflyGeneric | kiss/kiss_fft.c:192-233 | leaves the radix-p recombination for every p |
| Fourier.DecimationInTime | kiss/kiss_fft.c:262-287 | a bin of p*m samples is the twiddled sum of the bins of the p interleaved subsequences |
| FftWork.KfWork | kiss/kiss_fft.c:235-300 | for every factor chain, stride and position: exactly the DFT bins of the strided samples, and nothing else changed |
| FftWork.KissFftStride | kiss/kiss_fft.c:371-395 | the transform of strided samples, also in place through the temporary buffer |
| FftFactor.KfFactor | kiss/kiss_fft.c:302-328 | for every n: the radices are 4 as long as it divides, then the least prime dividing what is left; they multiply to n, form a chain ending at 1, and at most log2(n) pairs are written, so the buffer is large enough |
| FftFactor.NextRadix | kiss/kiss_fft.c:314-322 | the first candidate that divides is found, and candidates beyond the root of the original n give way to the cofactor itself |
| FftFactor.FloorSqrt | kiss/kiss_fft.c:310-311 | the largest integer whose square is not above n |
| KissFft.TableIsValid | kiss/kiss_fft.c:352-361 | the table of exact turns is multiplicative, conjugate-symmetric and primitive, in both directions |
| KissFft.KissFftAlloc | kiss/kiss_fft.c:337-368 | a valid state: the table of the requested direction and a factor chain of nfft |
| KissFft.KissFft | kiss/kiss_fft.c:397-400 | the output is the plain DFT of the input, for every length and input |
| FftInverse.Orthogonality | kiss/kiss_fft.c:352-361 | the powers of a table entry sum to n or to zero |
| FftInverse.RoundTrip | kiss/kiss_fft.c:352-400 | transforming with a table and then with its conjugate multiplies every sample by n |
| FftInverse.AllocatedRoundTrip | kiss/kiss_fft.c:352-400 | the round trip, in both orders, for the tables that the set-up builds |
| FastSize.DivideOut | kiss/kiss_fft.c:412-414 | a radix is divided out completely, without changing smoothness or other divisibility |
| FastSize.KissFftNextFastSize | kiss/kiss_fft.c:408-420 | the least product of twos, threes and fives that is not below n |
| KissFftr.KissFftrAlloc | kiss/kiss_fftr.c:21-61 | refuses odd lengths, otherwise builds the half-length state and the super twiddles of the direction |
| KissFftr.PackedBin | kiss/kiss_fftr.c:76-77 | a bin of the packed samples is the even bin plus i times the odd bin |
| KissFftr.ReflectedBin | kiss/kiss_fftr.c:101-103 | the conjugate of the reflected packed bin is the even bin minus i times the odd bin |
| KissFftr.PairOfBins | kiss/kiss_fftr.c:111-115 | bins k and n-k of 2n real samples in terms of the even and odd bins k |
| KissFftr.FirstAndLastBin | kiss/kiss_fftr.c:88-98 | the first and the middle bin of 2n real samples are real: sum and difference of the packed DC parts |
| KissFftr.RoundIsRight | kiss/kiss_fftr.c:100-115 | one round of the loop computes exactly bins k and n-k, also when they are the same one |
| KissFftr.KissFftr | kiss/kiss_fftr.c:63-117 | bins 0 to n of the length-2n DFT of the real samples; a state of the wrong direction changes nothing |
| KissFftr.KissFftri | kiss/kiss_fftr.c:119-155 | the inverse-configured transform of the repacked bins, read as pairs of samples |
| KissFftr.RepackedBins | kiss/kiss_fftr.c:131-153 | repacking the bins of real samples gives twice the packed transform, the doubly written middle bin included |
| KissFftr.RealRoundTrip | kiss/kiss_fftr.c:63-155 | kiss_fftri after kiss_fftr returns 2n times the samples |
| KissFftNd.KissFftNdAlloc | kiss/kiss_fftnd.c:20-79 | one state per dimension, and a temporary buffer of the product of the dimensions |
| KissFftNd.ColumnBin | kiss/kiss_fftnd.c:176-177 | transforming a column of one stage gives an entry of the next stage, rotated |
| KissFftNd.Stage | kiss/kiss_fftnd.c:172-177 | one stage transforms one more dimension and makes it the last one |
| KissFftNd.RunStages | kiss/kiss_fftnd.c:172-188 | no stage reads and writes the same buffer, and the last one lands in the output |
| KissFftNd.KissFftNd | kiss/kiss_fftnd.c:156-188 | the DFT over all dimensions in row-major order, for any number of dimensions, also in place |
| Lcg.FullPeriod | src/FrequencyInterleaver.cpp:73-77 | a generator with multiplier 1 mod 4 and odd increment visits each residue modulo 2^k exactly once |
| FrequencyInterleaving.ModesAreBands | src/FrequencyInterleaver.cpp:41-66 | 1536 of 2048 carriers with beta 511 in mode 1, 384 of 512 with 127 in mode 2, 192 of 256 with 63 in mode 3, 768 of 1024 with 255 in modes 0 and 4, no others; each num is 2^k with k >= 3, carriers = 3/4 num and beta = num/4 - 1 |
| FrequencyInterleaving.PositionOfCarrier | src/FrequencyInterleaver.cpp:85-86 | the written index is the FFT bin of the signed carrier number of section 14.6 of EN 300 401 |
| FrequencyInterleaving.PositionBijective | src/FrequencyInterleaver.cpp:78-87 | each position is that of exactly one kept residue |
| FrequencyInterleaving.IndicesArePermutation | src/FrequencyInterleaver.cpp:76-92 | for every k >= 3 the generator writes exactly a permutation of the carriers |
| FrequencyInterleaving.ResiduesAreStandard | src/FrequencyInterleaver.cpp:73-77 | the generated residues are the sequence of the standard, from 0 on, with multiplier 13 and increment num/4 - 1 |
| FrequencyInterleaving.GeneratedIsStandard | src/FrequencyInterleaver.cpp:76-92 | after every iteration the indices are the kept elements so far, in order, each as the bin of its carrier |
| FrequencyInterleaving.FillIndices | src/FrequencyInterleaver.cpp:73-92 | the loop writes the carrier order of section 14.6 of EN 300 401, made from a sequence d with d[0] = 0 and d[j] = (13 d[j-1] + num/4 - 1) mod num; it is a permutation, and nothing is written past the array |
| FrequencyInterleaving.FrequencyInterleaver.constructor | src/FrequencyInterleaver.cpp:31-93 | for each mode the interleaver holds the carrier order of the standard for that mode's number of bins, and is valid |
| FrequencyInterleaving.FrequencyInterleaver.ScatterBlock | src/FrequencyInterleaver.cpp:118-123 | the unrolled loop puts every sample of a block in its place and touches no other block |
| FrequencyInterleaving.FrequencyInterleaver.Process | src/FrequencyInterleaver.cpp:103-126 | every block of the output is the permuted block of the input; other sizes are refused |
| FrequencyInterleaving.InterleavingInvertible | src/FrequencyInterleaver.cpp:116-125 | input and output determine each other |
| FrequencyInterleaving.TargetsArePermutation | src/FrequencyInterleaver.cpp:116-125 | the map of all positions of a buffer of whole blocks is a permutation: each output position is written exactly once |
| FrequencyInterleaving.TargetInjective | src/FrequencyInterleaver.cpp:116-125 | no output position is written twice |
| FrequencyInterleaving.TargetSurjective | src/FrequencyInterleaver.cpp:116-125 | every output position is written |
| FicDatabase.StepKeepsInvariant | src/FigParser.cpp:188-852 | no piece of service information leaves a stale entry in the observer or breaks a cross reference |
| FicDatabase.RunKeepsInvariant | src/FigParser.cpp:188-852 | after any sequence of events every listed service equals the recomputed primary listing, and a forwarded ensemble has the current eid and ecc |
| FicDatabase.PutServiceKeeps | src/FigParser.cpp:787-803 | changing a service record and refreshing it keeps the invariant |
| FicDatabase.PutSubchannelKeeps | src/FigParser.cpp:769-776 | changing a sub-channel and refreshing the services that have it keeps the invariant |
| FicDatabase.ListingReadsPrimary | src/FigParser.cpp:769-776 | a listing reads no other sub-channel than the primary one, so refreshing only the users suffices |
| FicDatabase.ChangeEnsembleKeeps | src/FigParser.cpp:61-69 | a changed ensemble record keeps the invariant, forwarded or not |
| FicDatabase.CompleteIffNotCleared | src/FigParser.cpp:61-69 | a list of all listable services stays complete exactly when it is not emptied or everything listable is refreshed right after |
| FicDatabase.ListedServiceLost | src/FigParser.cpp:61-69 | a service listed before the first ensemble is forwarded is missing afterwards |
| FicDatabase.ObservedFollowsIff | src/FigParser.cpp:61-69 | the observer's ensemble follows a change exactly when eid or ecc differs and there are an eid and a label |
| FicDatabase.OldLabelKept | src/FigParser.cpp:61-69 | after a second label the observer still holds the first one |
| FicFields.EntryShows | src/FigParser.cpp:805-852 | every entry of the observer's list shows the record field by field: label, programme types, announcements, the primary component and its sub-channel, the Slideshow type of the lowest SCIdS with it, and whether there are secondary components |
| FicFields.AudioComponentFields | src/FigParser.cpp:270-321 | the component is stored with its type, it becomes the primary one exactly when it says so, and nothing else changes |
| FicFields.ComponentDefinitionFields | src/FigParser.cpp:359-402 | the sub-channel of the SCIdS is stored and nothing else changes |
| FicFields.SlideshowFields | src/FigParser.cpp:491-530 | the first application data of a component is stored, later data is not, and nothing else changes |
| FicFields.ProgrammeTypeFields | src/FigParser.cpp:532-573 | the static or the dynamic programme type changes as the flag says, and nothing else |
| FicFields.AnnouncementsFields | src/FigParser.cpp:575-612 | flags and clusters are replaced and nothing else changes |
| FicFields.ServiceLabelFields | src/FigParser.cpp:729-743 | the service's label is replaced and nothing else changes; a record that can be listed now is listed |
| FicFields.ComponentLabelFields | src/FigParser.cpp:745-762 | the label of the component is stored and nothing else changes |
| FicFields.SubchannelInfoFields | src/FigParser.cpp:210-268 | start, size, protection and bit rate are replaced, the language stays, and exactly the services that have the sub-channel are refreshed |
| FicFields.LanguageFields | src/FigParser.cpp:323-357 | the language is replaced, everything else about the sub-channel stays, and exactly the services that have it are refreshed |
| FicFields.EnsembleInfoFields | src/FigParser.cpp:188-208 | eid and alarm flag are replaced, the rest of the ensemble and all records stay |
| FicFields.CountryFields | src/FigParser.cpp:405-433 | local time offset, ecc and table number are replaced, and the services with a programme type are refreshed |
| FicFields.SwitchingFields | src/FigParser.cpp:614-648 | the cluster gets its flags and sub-channel, and the services that announce in it are refreshed |
| FicFields.EnsembleLabelFields | src/FigParser.cpp:715-727 | the label is replaced, the rest of the ensemble and all records stay |
| FicParser.EntryFits | src/FigParser.cpp:210-648 | every entry of a FIG 0 takes at least two bytes and ends inside the FIG |
| FicParser.EntriesValid | src/FigParser.cpp:210-648 | the fields of every parsed entry are in the ranges that the decoder relies on |
| FicParser.FigsValid | src/FigParser.cpp:105-129 | the same for all FIGs of a FIB |
| FicParser.SubchannelRoundTrip | src/FigParser.cpp:210-268 | parsing the bit layout of a long-form sub-channel entry gives back its fields and derived bit rate |
| FicParser.ShortFormRoundTrip | src/FigParser.cpp:210-268 | parsing a short-form entry gives back the size, level and bit rate that its table index stands for |
| FicParser.AudioRoundTrip | src/FigParser.cpp:270-321 | parsing the bit layout of an audio component gives back its fields |
| FicParser.SlideshowRoundTrip | src/FigParser.cpp:491-530 | parsing the bit layout of a Slideshow application gives back its fields and data |
| FicParser.AnnouncementsRoundTrip | src/FigParser.cpp:575-612 | parsing the bit layout of announcement support gives back the flags and the set of clusters |
| FicParser.EntryRoundTrip | src/FigParser.cpp:210-648 | parsing an encoded entry of any list extension, whatever follows it, gives back the event and its length |
| FicLayout.FigureRoundTrip | src/FigParser.cpp:132-762 | the bytes of FIG 0/0, FIG 0/9, a list of entries of any other extension, or a label of an ensemble, a service or a component, written from the fields, are read as those fields |
| FicLayout.FibRoundTrip | src/FigParser.cpp:105-129 | a FIB that holds any FIGs, filled by them or closed by the end marker, is read as what they say, one after the other |
| FicLayout.OthersIgnored | src/FigParser.cpp:132-147 | FIG 0 for the next configuration, another ensemble or data services, and labels of another ensemble, say nothing |
| FicLayout.UnknownIgnored | src/FigParser.cpp:105-186 | nor do other types and extensions, FIGs 0/0 and 0/9 that are too short, labels of another length, and components of data services |
| FicLayout.ProgrammeTypeForms | src/FigParser.cpp:532-573 | FIG 0/17 with or without language and complementary code, and with any reserved bits |
| FicLayout.AnnouncementForms | src/FigParser.cpp:575-612 | FIG 0/18 with any list of clusters and any reserved bits |
| FicLayout.ComponentForms | src/FigParser.cpp:358-402 | FIG 0/8 in the short form with or without the reserved byte, and with any reserved bits; the long form and components of the FIC say nothing |
| FicLayout.SwitchingForms | src/FigParser.cpp:614-648 | FIG 0/19 with or without a region, and with any reserved bit |
| FicLayout.LanguageForms | src/FigParser.cpp:323-357 | FIG 0/5 in the long form, and in the short form about the FIC, says nothing |
| FicLayout.SubchannelForms | src/FigParser.cpp:210-268 | reserved options of the long form and the reserved table of the short form of FIG 0/1 say nothing |
| FicLayout.ServiceForms | src/FigParser.cpp:270-321 | FIG 0/2 with any number of components of any kind: only stream audio of DAB or DAB+ without conditional access says something |
| FicLayout.ApplicationForms | src/FigParser.cpp:491-530 | FIG 0/13 with any number of applications of any type: only Slideshow says something |
| FicLayout.UepTable | src/FigParser.cpp:896-913 | entry by entry the three tables are the table of section 6.2.1 of EN 300 401, by rising bit rate and falling protection level |
| FicLayout.EepRates | src/FigParser.cpp:914-915 | the factors give 8n kbit/s for 12n, 8n, 6n or 4n capacity units of set A and 32n kbit/s for 27n, 21n, 18n or 15n of set B |
| FicDecoding.FicDecoder.FICChangeEnsemble | src/FigParser.cpp:61-69 | the same eid and ecc change nothing; otherwise the list is emptied and the ensemble stored |
| FicDecoding.FicDecoder.UpdateEnsemble | src/FigParser.cpp:876-883 | announces the ensemble once it has an EId and a label |
| FicDecoding.DeriveScids | src/FigParser.cpp:834-842 | the lowest SCIdS that is defined for the sub-channel |
| FicDecoding.FicDecoder.UpdateListedService | src/FigParser.cpp:805-852 | the listing of the primary or of a secondary component, with label, sub-channel and Slideshow type |
| FicDecoding.FicDecoder.UpdateService | src/FigParser.cpp:787-803 | after all secondary components the primary listing stays, and its flag tells whether there were any |
| FicDecoding.FicDecoder.UpdateServices | src/FigParser.cpp:769-776 | the loop over the services refreshes exactly the affected ones |
| FicDecoding.FicDecoder.GetService | src/FigParser.cpp:778-785 | a record with its SId, created when it does not exist |
| FicDecoding.FicDecoder.ChangeSubchannel | src/FigParser.cpp:253-266 | the database and observer step of a sub-channel or language entry |
| FicDecoding.FicDecoder.ChangeEnsemble | src/FigParser.cpp:405-433 | the step of ensemble information, country, announcement switching and ensemble label |
| FicDecoding.FicDecoder.ChangeService | src/FigParser.cpp:296-310 | the step of every kind of entry that changes a service record |
| FicDecoding.FicDecoder.ProcessEntries | src/FigParser.cpp:210-268 | the loop over the entries of a FIG 0 makes exactly their steps, in order |
| FicDecoding.FicDecoder.ProcessFIG0 | src/FigParser.cpp:132-186 | headers for the next configuration, other ensembles and data services are ignored; the rest makes its steps |
| FicDecoding.FicDecoder.ProcessFIG1 | src/FigParser.cpp:650-762 | labels of exactly the expected length make their step |
| FicDecoding.FicDecoder.ProcessFIB | src/FigParser.cpp:105-129 | a FIB with a wrong checksum is counted and changes nothing; otherwise its FIGs make their steps |
| FicDecoding.FicDecoder.Process | src/FigParser.cpp:94-103 | the invariant holds after any FIC data, whose FIBs make their steps in order; other sizes change nothing |
| Crc16.ByteStep | lib/crc.c:250-253 | one table-driven step equals eight serial steps, for every polynomial and register |
| Crc16.TableEntryMeaning | lib/crc.c:193-212 | built from the register 0xffff, entry i is what the register becomes after the byte i |
| Crc16.InitCrc16Tab | lib/crc.c:193-212 | every entry for any polynomial and initial register; from 0xffff a table with which crc16 computes the serial register |
| Crc16.Compute | lib/crc.c:247-256 | equals the bit-serial register on every message and seed |
| Crc16Table.StaticTableIsTable | lib/crc.c:68-101 | the compiled-in table is the table of x^16 + x^12 + x^5 + 1 |
| FibCheck.StepInjective | src/FigParser.cpp:52-59 | with an odd polynomial a register step loses no information |
| FibCheck.AcceptedDifference | src/FigParser.cpp:52-59 | two accepted codewords differ by an error that empties the register |
| FibCheck.BurstDetected | src/FigParser.cpp:52-59 | no non-zero burst of at most 16 bits turns an accepted codeword into an accepted one, of any length and at any place |
| FibCheck.CheckCrc | src/FigParser.cpp:52-59 | true exactly for the codewords whose last two bytes are the complemented register; false for every accepted codeword changed by a burst of at most 16 bits |
| ThreadsafeQueues.ThreadsafeQueue.Push | lib/ThreadsafeQueue.h:62-95 | appended unless a maximum size is reached; the new size is returned |
| ThreadsafeQueues.ThreadsafeQueue.PushOverflow | lib/ThreadsafeQueue.h:106-141 | exactly the newest elements stay, and the flag tells whether any were dropped |
| ThreadsafeQueues.ThreadsafeQueue.PushWaitIfFull | lib/ThreadsafeQueue.h:150-163 | pushed exactly when the size is below the threshold |
| ThreadsafeQueues.ThreadsafeQueue.TryPop | lib/ThreadsafeQueue.h:194-208 | the oldest element, or nothing from an empty queue |
| ThreadsafeQueues.ThreadsafeQueue.WaitAndPop | lib/ThreadsafeQueue.h:210-229 | a wakeup wins and is used up; otherwise the oldest element as soon as the prebuffering is reached; with prebuffering zero an empty queue is not guarded against |
| ThreadsafeQueues.StepKeeps | lib/ThreadsafeQueue.h:150-229 | no step loses, doubles or reorders an element, or lets a sleeper miss its notification |
| ThreadsafeQueues.RunKeeps | lib/ThreadsafeQueue.h:150-229 | the same for every interleaving of producer and consumer |
| ThreadsafeQueues.DeadlockFreeIff | lib/ThreadsafeQueue.h:150-229 | both can be asleep exactly when the threshold is below the prebuffering, and from then on no step of either thread moves anything |
| Pipeline.StepKeeps | src/ModPlugin.cpp:90-154 | the invariant of queues, histories, program counters and m_running is kept by every atomic step |
| Pipeline.EveryRunDelaysByOne | src/ModPlugin.cpp:90-154 | for every interleaving with non-empty buffers: call 0 gets an empty frame, every later accepted call the output for the previous buffer, and metadata is delayed alike |
| Pipeline.RefusalMeansFailure | src/ModPlugin.cpp:146-153 | calls are refused only after internal_process returned 0, and a call that returns the output of a failing buffer is the last accepted one |
| Pipeline.FailedOutputIff | src/ModPlugin.cpp:90-154 | once no call is under way, the output of the failing buffer has been delivered exactly when the call after it passed the test of m_running before the worker cleared it; otherwise it stays in the output queue |
| Pipeline.LostForEver | src/ModPlugin.cpp:90-154 | in the latter case no continuation of the run delivers it |
| Pipeline.FailedOutputLost | src/ModPlugin.cpp:92-94 | for every codec that fails on its first buffer, a run that loses the output |
| Pipeline.FailedOutputDelivered | src/ModPlugin.cpp:99-103 | and a run that delivers it |
| Pipeline.WorkerIsAble | src/ModPlugin.cpp:130-154 | whenever the caller waits, the worker has a step to take |
| Pipeline.WaitEnds | src/ModPlugin.cpp:76-154 | every wait of the caller, also that of the destructor, ends after boundedly many worker steps |
| Pipeline.DeadlockIff | src/ModPlugin.cpp:90-154 | for every codec and all buffers: some interleaving gets stuck exactly when an empty buffer comes before the last call and internal_process succeeds on all those before it |
| FixedPoint.HighestBit | fpm/math.hpp:21-41 | the exponent of the greatest power of two that is not above the value |
| FixedPoint.Sqrt | fpm/math.hpp:461-497 | the square root of the raw value shifted by F, rounded to the nearest integer, in words of at least twice the width: none of its values leaves them |
| FixedPoint.RootFits | fpm/math.hpp:491-497 | the rounded root always fits the type of the argument |
| CubeRoot.DigitFound | fpm/math.hpp:433-442 | one step of the loop decides the next binary digit of the cube root |
| CubeRoot.Round | fpm/math.hpp:431-443 | the loop of a round, in words of the intermediate type, finds the digits of the specification |
| CubeRoot.RoundExact | fpm/math.hpp:431-443 | a round determines all digits whose scaled weight is an integer |
| CubeRoot.Cbrt | fpm/math.hpp:409-458 | the words that the source computes; where no value leaves its type, r^3 <= raw * 2^(2F) < (r+1)^3 for the magnitude, with the sign of the argument, despite the split into two rounds |
| CubeRoot.CbrtFitsIff | fpm/math.hpp:427-456 | for every type and argument: every value of both rounds stays inside the intermediate type exactly when what the leading digits leave, and the share of the digit behind them, do |
| CubeRoot.ShippedTypesFit | fpm/math.hpp:427-456 | for 32-bit types with 8, 16 or 24 fraction bits all shifts and compared values of both rounds stay inside 64 bits |
| CubeRoot.SixteenBitFits | src/Buffer.h:42-42 | with 14 fraction bits and 32-bit words everything fits exactly for raw values up to 1114 that, times 8192, are less than 65536 above a cube |
| CubeRoot.SixteenBitRight | src/Buffer.h:42-42 | up to 1114 the wrapped result is the cube root under exactly that condition |
| CubeRoot.SixteenBitWrong | src/Buffer.h:42-42 | the wrapped result for raw value 420 is not the cube root |
| FixedPoint.Fixed.MulAssign | fpm/fixed.hpp:156-169 | the product rounded to nearest with halves away from zero, or truncated, stored in the width of the base type |
| FixedPoint.Fixed.DivAssign | fpm/fixed.hpp:178-192 | the quotient rounded to nearest with halves away from zero, or truncated, for either sign of the divisor |
| FixedPoint.Rounds | fpm/fixed.hpp:159-163 | dividing twice the value and adding the low bit rounds to nearest |
| FixedPoint.QuotientUnique | fpm/fixed.hpp:156-192 | the rounded or truncated quotient is unique |
| FixedPoint.ProductsFit | fpm/fixed.hpp:23-27 | the products in multiplication and division fit an intermediate type of twice the width |
| FixedPoint.WrapIs | fpm/fixed.hpp:156-192 | what is stored of a value is the one number of the width that differs from it by a multiple of 2^bits |
| Prbs.FourLookups | src/PrbsGenerator.cpp:112-123 | four table lookups equal eight serial steps, for every polynomial and register |
| Prbs.EightSteps | src/PrbsGenerator.cpp:66-71 | eight steps shift the register and feed only the low byte |
| Prbs.ParityCheck | src/PrbsGenerator.cpp:97-106 | the parity of all 32 bits |
| Prbs.GenPrbsTable | src/PrbsGenerator.cpp:58-73 | entry (i, j) is what eight steps make of byte j in place i |
| Prbs.PrbsGenerator.UpdatePrbs | src/PrbsGenerator.cpp:112-123 | eight serial steps of the register |
| Prbs.StartValue | src/PrbsGenerator.cpp:143-152 | the given start, or the least all-ones value that is not below the polynomial |
| Prbs.PrbsGenerator.Process | src/PrbsGenerator.cpp:126-189 | every bit of the output is that of the input plus a bit of the serial sequence that starts at the start register, apart from leading ones and the sync bytes of DVB, whatever the register and buffer held |
| Prbs.Involution | src/PrbsGenerator.cpp:126-189 | a second call on the output of the first gives back the frame |
| Prbs.StartUnique | src/PrbsGenerator.cpp:143-152 | every call starts from the same register |
| Prbs.DabStart | src/DabModulator.cpp:141-141 | for the DAB polynomial the default start is all nine stages set |
| Prbs.DabRecurrence | src/DabModulator.cpp:141-141 | each bit of the sequence is the sum of those five and nine before it, as in section 10.1 of EN 300 401 |
| Prbs.DispersesBits | src/PrbsGenerator.cpp:126-189 | the bytes that process writes, read as bits in order, are the bits of the input plus those of the sequence |
| Prbs.DabSequence | src/PrbsGenerator.cpp:126-189 | with the polynomial 0x110 and the default start the sequence is that of section 10.1 of EN 300 401 from its first bit on |
| Prbs.DabDispersal | src/DabModulator.cpp:141-141 | for DAB every bit of the output is that of the input plus the one of the standard |
| ConvEncoding.TapsAreStreams | src/ConvEncoder.cpp:96-108 | the masks and the parity table give the streams of section 11.1 of EN 300 401 |
| ConvEncoding.ParityEntryIs | src/ConvEncoder.cpp:31-48 | every table entry is the parity of its index |
| ConvEncoding.EncodeFrame | src/ConvEncoder.cpp:82-139 | exactly the codewords of the message and of six zero tail bits, in order |
| ConvEncoding.ConvEncoder.Process | src/ConvEncoder.cpp:59-151 | the encoded frame for the right input size, otherwise nothing |
| ConvEncoding.DecodeRoundTrip | src/ConvEncoder.cpp:82-139 | the message can be decoded from the first stream |
| ConvEncoding.FrameRecoverable | src/ConvEncoder.cpp:82-139 | the frame can be recovered from its encoding |
| Puncturing.BitSize | src/PuncturingRule.cpp:33-42 | the number of ones in the pattern |
| Puncturing.PatternFromTop | src/PuncturingEncoder.cpp:149-167 | a pattern is read from its most significant bit down |
| Puncturing.PuncturingEncoder.AdjustItemSize | src/PuncturingEncoder.cpp:55-79 | the sizes of the input and output blocks that the rules define |
| Puncturing.PuncturingEncoder.AppendRule | src/PuncturingEncoder.cpp:82-88 | the rule comes last and the sizes follow |
| Puncturing.PuncturingEncoder.AppendTailRule | src/PuncturingEncoder.cpp:91-99 | the tail rule is replaced and the sizes follow |
| Puncturing.TailFits | src/PuncturingEncoder.cpp:68-71 | the size counted for a tail rule covers the bits that it keeps |
| Puncturing.PutByte | src/PuncturingEncoder.cpp:154-167 | the selected bits of one byte are shifted in, in order |
| Puncturing.PutRules | src/PuncturingEncoder.cpp:149-173 | one pass over the rules selects exactly by their repeated patterns |
| Puncturing.PadToEnd | src/PuncturingEncoder.cpp:193-203 | zero bits up to the block size |
| Puncturing.PuncturingEncoder.Process | src/PuncturingEncoder.cpp:102-211 | exactly the pattern-selected bits in order, zero-padded, independent of what the buffer held; the size checks, and the block size restored |
| Flowgraphs.ConnectOrderIff | src/Flowgraph.cpp:270-314 | connect keeps every edge forward exactly when it joins two plugins and does not move one with outgoing edges |
| Flowgraphs.ConnectedNodes | src/Flowgraph.cpp:270-314 | connect keeps all nodes, adds both plugins and never duplicates one |
| Flowgraphs.Flowgraph.Connect | src/Flowgraph.cpp:270-314 | the node order, the new edge, and the equivalence above |
| Flowgraphs.Flowgraph.ProcessNode | src/Flowgraph.cpp:126-196 | the plugin gets its input buffers in order of connection; each outgoing buffer gets its output, each incoming one what it leaves there; the metadata moves from all incoming lists through the plugin to all outgoing ones; nothing else changes |
| Flowgraphs.SeesThisFrame | src/Flowgraph.cpp:317-339 | when a node runs, each of its input buffers holds exactly what its source made in this frame, also when plugins take buffers away |
| Flowgraphs.Flowgraph.Run | src/Flowgraph.cpp:317-339 | every node works on what its producers made of this frame, buffers and metadata; a node returning 0 stops the run there, and the edges then hold what was made or what its reader left of it; after a full run no metadata is left |
| Flowgraphs.MadeUnique | src/Flowgraph.cpp:317-339 | what is made in a frame is determined by the graph and the plugins |
| DabModulator.SetUp | src/DabModulator.cpp:281-417 | for any number of sub-channels and any options all connections are made in this order, the output blocks that are present follow one another as equaliser, OFDM generator, gain, guard interval, filter, resampler, predistortion, converter, output, and every edge leads forward |
| DabModulator.ConnectChain | src/DabModulator.cpp:397-417 | each output block that is present follows the last one present |
| GuardInterval.PutNullSymbol | src/GuardIntervalInserter.cpp:150-197 | the null symbol with prefix, fall and suffix equals its contribution to the overlap-add |
| GuardInterval.PutPrefix | src/GuardIntervalInserter.cpp:203-252 | the rise is added to what the symbol before left, then the prefix is copied |
| GuardInterval.PutBody | src/GuardIntervalInserter.cpp:254-296 | the symbol's samples, its fall and its suffix; no window at the end of the last one |
| GuardInterval.PutDataSymbol | src/GuardIntervalInserter.cpp:201-302 | after each symbol the output so far is the overlap-add of the symbols so far |
| GuardInterval.GuardIntervalInserter.Process | src/GuardIntervalInserter.cpp:115-323 | a fixed output length, and every sample the overlap-add of windowed cyclic extensions, independent of what the buffer held; other input sizes are refused |
| GuardInterval.UnitWeight | src/GuardIntervalInserter.cpp:72-92 | the weights at every output sample add up to one |
| GuardInterval.GuardIntervalInserter.UpdateWindow | src/GuardIntervalInserter.cpp:96-113 | the window of any new length is 0.5 - 0.5 cos(pi i / (2w - 1)), which rises from 0 to 1; it can be used exactly when the symbols leave room for it |
| GuardInterval.RaisedCosineComplementary | src/GuardIntervalInserter.cpp:96-113 | its halves are complementary |
| GuardInterval.WindowRises | src/GuardIntervalInserter.cpp:96-113 | the window starts at 0, never falls and ends at 1 |
| EtiReading.NextKeepsValid | src/EtiReader.cpp:100-273 | every round of any stream keeps bytes consumed plus framesize at 6144 modulo 65536, and the sources in agreement with the stream characterisation |
| EtiFrames.ExactIff | src/EtiReader.cpp:100-273 | a round keeps the sum exactly 6144 exactly when it takes no more than what is left of the frame |
| EtiReading.Pieces | src/EtiReader.cpp:93-283 | feeding a stream in two pieces, with the unconsumed bytes presented again, gives the same result |
| EtiReading.AnyPieces | src/EtiReader.cpp:93-283 | the same for any number of pieces and any stream, when no call fails |
| EtiFrames.FrameCut | src/EtiReader.cpp:93-275 | wherever a well-formed frame is cut: the source reads past its data exactly inside the payload, hands over exactly when the payload is there, and consumed plus left is exactly 6144 |
| EtiFrames.StreamCut | src/EtiReader.cpp:93-275 | the same for any place of a stream of well-formed frames |
| EtiFrames.StreamFed | src/EtiReader.cpp:93-283 | such a stream, fed in any pieces, goes well exactly when no piece ends inside a payload, and then every frame's declared slices are handed over once and in order |
| EtiFrames.FrameParsed | src/EtiReader.cpp:93-275 | a well-formed frame is taken whole, the FIC and every sub-channel get exactly the declared slices, and the fields around them are stored |
| EtiLayout.FrameReceived | src/EtiReader.cpp:93-275 | a frame written from its fields in the layout of ETS 300 799 is taken whole: the FIC is its 96 or 128 bytes, sub-channel i has the start address, length and type of stream i and exactly its bytes, and the other fields are stored |
| EtiLayout.StreamReceived | src/EtiReader.cpp:93-283 | such frames, or the beginning of them, fed in any pieces: it goes well exactly when no piece ends strictly inside the sub-channels, and then the complete frames are received one after the other |
| EtiLayout.SourceOfStream | src/EtiReader.cpp:172-186 | an entry of the stream characterisation is read as start address, length and type |
| EtiReading.NoFicSourceIff | src/EtiReader.cpp:275-280 | in every phase before there is a FIC source: a call uses it for the timestamp exactly when its bytes end between two fields, in Sync none or four, in Fc none |
| EtiReading.EtiReader.OnFc | src/EtiReader.cpp:135-159 | a frame without FIC is refused after its header is stored; the FIC source is made once |
| EtiReading.EtiReader.OnNst | src/EtiReader.cpp:160-189 | new sources, as `EtiLayout.SourceOfStream` says, exactly when the stream characterisation differs |
| EtiReading.EtiReader.OnSubch | src/EtiReader.cpp:226-237 | the payload goes to the sub-channels in order; a payload that is not there is read past the end |
| EtiReading.EtiReader.Round | src/EtiReader.cpp:100-273 | one round of the switch in every state |
| EtiReading.EtiReader.Load | src/EtiReader.cpp:93-283 | the state, the bytes consumed and the way it ends are those of the loop's specification, for every input |

## Left out

- CubeRoot.Cbrt: promises the root only where no value leaves its type, because signed words overflow otherwise; `CubeRoot.CbrtFitsIff` says exactly where. The least raw value is excluded: its negation is not a value of the type, and the source calls itself for ever.
- CubeRoot.SixteenBitRight: above 1114 a compared value always overflows (`CubeRoot.SixteenBitFits`); which wrapped results are the root by coincidence there is not characterised.
- EtiReading.EtiReader.Load: what the source reads behind its data, when a call ends inside a payload, is not modelled; the model stops there. Nor are calls after the exception for a missing FIC, which leaves the object between two states; the program makes a new reader then.
- Flowgraphs.Flowgraph.Run: a plugin is a function of its inputs in this frame, chosen anew for every frame (its state is part of the choice); it does not see what its output buffers held before.
- Floating-point rounding: FFT samples, windows and table entries are exact real numbers.
- The FIXED_POINT, SIMD and OpenMP branches of KISS FFT, SSE/NEON code, FFTW, and 16- and 32-bit sample formats: word size is a build option and the parallel branches repeat the same computation.
- Memory: allocation failures, pointer arithmetic and alignment; `timedata` read as `kiss_fft_cpx` is a copy of pairs.
- `floor(sqrt((double)n))` is the integer root, and `& (num - 1)` is the remainder by the power of two num.
- FIC decoder: FIG 0/10 (date and time), Reset, logging, label conversion, FIG bytes that run past their declared length. The inner loops of FIG 0/2 and FIG 0/13 are recursive functions, and one loop stands for the eight equal entry loops.
- Constructors that throw (`nullSize == 0`, more PRBS start bytes than the frame has, puncturing rule lengths that are no multiple of four) have these sizes as preconditions.
- `crc8` and `crc32`, the PRBS weight table, and the inactive `NbFrame` and `FrameSize` phases beyond their single step.
- ETI timestamps are passed on but not computed; the EDI reader is not part of this model.
- The other fpm functions (exponential, logarithm, trigonometry), which are numeric approximations.
- Time interleaver, TII, resampler, filters, sockets, configuration and remote control: plumbing or easy members.
