# SODA: a verified model of its hard parts

SODA is a solid-state drive that computes: firmware on the drive, an NVMe driver on the host, and a small
PostgreSQL-style executor that runs queries next to the data. This project models the parts of it whose
correctness is not visible in any single function, and proves what they are for.

| Part | Files | Main results |
|---|---|---|
| BCH codec | `Arithmetic`, `Gf2`, `GaloisField`, `FieldLaws`, `FieldPoly`, `Generator`, `GeneratorBuild`, `Words`, `RemainderTables`, `Encoder`, `EccBuffer`, `PowerSeries`, `Newton`, `Locator`, `LocatorUnique`, `BerlekampMassey`, `Syndromes`, `Chien`, `Decoder`, `ErrorLocations`, `ErrorCorrection` | the tables give a field exactly when the polynomial has constant term 1; the four-table encoder is long division by the generator; decoding a codeword with at most t flipped bits names exactly those bits, with either root finder |
| Root finder of the codec | `TraceMap`, `DegreeTwo`, `LowRoots`, `LinearSystem`, `Elimination`, `LinearSolve`, `BitMatrix`, `AffineRoots`, `QuarticForms`, `RootSets`, `CubicQuartic`, `PolyDivision`, `PolyGcd`, `EuclidChain`, `TracePoly`, `TraceFactor`, `RepeatedRoots`, `SmallField`, `PolyProduct`, `MisledFinder`, `FalseCorrection` | degrees 1 to 4 are solved exactly; Berlekamp's trace factoring finds all roots of every polynomial that has as many as its degree; it reports false roots exactly when one of its divisions leaves a remainder, and a message for which it does |
| Index and table scans | `BTree`, `BTreeScan`, `HeapScan`, `TableBatch`, `AttrCache` | a whole index scan returns every matching tuple once, in key order; the batches sent to the host decode to the whole relation, up to the first tuple that is too long for the buffer; the test of a tuple does not depend on cached attribute offsets |
| Memory | `PageTree`, `PageTable`, `HoleTable`, `ZoneAlloc`, `MemAlloc`, `MemZones`, `Bitmap`, `Slab` | three levels of tables refine a flat page map; blocks, parked blocks and holes never overlap and, with whole pages, nothing is lost; slab objects are disjoint and the bitmap is exact |
| Ordered index | `AvlTree`, `AvlNodes`, `AvlIter`, `Idr` | the pointer operations compute the operations on values; order, heights, balance after insertion, and exactly when after removal; iterators move by one and fit their path array; exactly when a returned identifier was in use |
| Protocols | `Llist`, `NvmeQueue`, `IoWindow` | every interleaving of the lock-less list is a run of an atomic stack if and only if no consumer stands beside one that takes the first entry; completions are consumed once and in order while the device goes on posting, and reach the callback of their command; the request window is conserved and never stalls |
| Search | `Kmp` | the failure function is the longest border; the matcher finds the pattern exactly when it occurs |
| Shared | `Common` | an option type and three small definitions |

Loops and updates in place are methods over arrays and object fields, each proved against a specification function
or predicate; expressions are functions. Numbers are unbounded, with the width of the source written out where it
matters: 64-bit wrap-around in `PageTable`, 16-bit in `NvmeQueue`, 32-bit words in `Words`, 32-bit
keys and 64-bit bounds in `Idr`.
Concurrent code is a set of atomic steps over one state; a run is any sequence of them, so an invariant kept by
every step holds in every interleaving.

Results where the code does not do what one would expect:

* `build_gf_tables` does not look at the constant term of the polynomial. An even polynomial such as X^5 passes its
  test, and the tables are then no field: `GaloisField.EvenAccepted`, `GaloisField.FieldIffOdd`.
* `gf_poly_gcd` ends at a constant remainder, zero or not, so for coprime polynomials it does not return 1. An error
  locator of degree 5 or more that has too few roots can then be split into parts that all have theirs, and
  `bch_decode` reports errors where it should report an uncorrectable message. `ErrorLocations.LocateErrors` says
  exactly when: some `gf_poly_div` of the factoring leaves a remainder, which nothing looks at
  (`RepeatedRoots.SplitsIffDivided`; a shared root of divisor and quotient, the other way to go wrong, is excluded by
  `RepeatedRoots.ShortestSquareFree`). `FalseCorrection.NamesFalseErrors` is a run: in GF(32) with t = 5, any codeword
  of one byte with eight given bits flipped is answered with locations, although no five flips make it a codeword.
  Locators of degree 4 or less, and the exhaustive search, are never misled.
* `update_cq_head` compares a 16-bit sum with the depth. For the largest depth a controller may report, 65536, the
  phase never changes: `NvmeQueue.LargestQueueFails`, `NvmeQueue.FollowsIffSmall`.
* `alloc_mem_zone` drops the padding in front of an aligned block: `MemAlloc.LosesIffPadded`, and the run
  `MemAlloc.LoseBytes`.
* `avl_erase` does not repair the spine that it takes the successor from. `AvlTree.EraseBalance` says exactly when the
  tree stays balanced, and `AvlTree.EraseUnbalances` is a tree that does not.
* `llist_del_first` needs a lock beside another consumer. `Llist.NeedsNoLock` says exactly which uses of the list
  are always those of an atomic stack, and `Llist.DelFirstFails` gives, within any other uses, a run that no stack has.
* `idr_alloc_u32` never reports a full range. When its walk down from the bound finds no gap it reads through a null
  pointer, and that happens exactly under `Idr.RunsPast`: always when the wanted range is full
  (`Idr.FullRunsPast`), but also with free numbers in it (`Idr.FreeBelowUnseen`, `Idr.FreeInsideUnseen`). The number
  it returns may be below the one asked for (`Idr.ChosenStart` says when), and with a bound of 2^32 or more it may
  wrap around onto a number in use (`Idr.ChosenFresh` says when).
* `storpu_table_getnext` returns an empty batch, which ends the scan for its caller, exactly when everything has been
  delivered or the next tuple alone is too long for the buffer: `TableBatch.TableScan.GetNext`.
* `_bt_first` gives up when no leading key is a lower bound, instead of scanning from the left end:
  `BTreeScan.Scan.First` says exactly when.

## Model

| member | source | states |
|---|---|---|
| GaloisField.BuildGfTables | myssd_sdk/eccengine/bch.c:1106-1127 | accepts exactly the polynomials of degree m for which no power of a below the group order is 1 again, and leaves the powers and the last-written logarithms in the tables |
| GaloisField.OddGivesField | myssd_sdk/eccengine/bch.c:1106-1127 | for an accepted odd polynomial, pow and log are mutually inverse bijections between exponents and nonzero elements |
| GaloisField.FieldIffOdd | myssd_sdk/eccengine/bch.c:1106-1127 | for an accepted polynomial every nonzero element has a logarithm if and only if the constant term is 1 |
| GaloisField.EvenIsNoField | myssd_sdk/eccengine/bch.c:1106-1127 | with an even polynomial the element X+1 is no power of a |
| GaloisField.EvenAccepted | myssd_sdk/eccengine/bch.c:1106-1127 | X^5 passes the test of the builder for m = 5 |
| FieldLaws.Modulo | myssd_sdk/eccengine/bch.c:325-342 | folding high bits onto low ones computes the exponent modulo 2^m - 1 |
| FieldLaws.MulPowers | myssd_sdk/eccengine/bch.c:364-370 | table multiplication adds exponents, for all exponents |
| FieldLaws.MulAssoc | myssd_sdk/eccengine/bch.c:364-370 | table multiplication is associative, zero included |
| FieldLaws.MulDistrib | myssd_sdk/eccengine/bch.c:364-370 | table multiplication distributes over exclusive or |
| FieldLaws.MulInverse | myssd_sdk/eccengine/bch.c:385-388 | gf_inv is the multiplicative inverse |
| FieldLaws.DivMul | myssd_sdk/eccengine/bch.c:377-383 | gf_div undoes multiplication |
| FieldLaws.SqrXor | myssd_sdk/eccengine/bch.c:372-375 | squaring is additive |
| Generator.BinaryCoefficients | myssd_sdk/eccengine/bch.c:1215-1276 | a product over exponents closed under doubling has coefficients 0 and 1 only |
| Generator.GeneratorRoots | myssd_sdk/eccengine/bch.c:1215-1276 | the generator is a binary polynomial of degree ecc_bits that vanishes at a, a^2, ..., a^2t |
| GeneratorBuild.MarkRoots | myssd_sdk/eccengine/bch.c:1215-1243 | the marking loops mark exactly the cyclotomic cosets of 1, 3, ..., 2t-1 |
| GeneratorBuild.MultiplyByRoot | myssd_sdk/eccengine/bch.c:1245-1258 | the in-place loop multiplies the polynomial by X + r |
| GeneratorBuild.StoreWords | myssd_sdk/eccengine/bch.c:1259-1276 | the coefficients are stored left-justified in 32-bit words |
| GeneratorBuild.ComputeGeneratorPolynomial | myssd_sdk/eccengine/bch.c:1215-1276 | the words hold the generator polynomial, of at most m t parity bits |
| RemainderTables.BuildMod8Tables | myssd_sdk/eccengine/bch.c:1132-1160 | entry i of table b is the remainder of i X^(8b) X^ecc_bits by the generator, left-justified |
| Encoder.AbsorbTwice | myssd_sdk/eccengine/bch.c:246-322 | encoding in two calls equals encoding the concatenation |
| Encoder.AbsorbLinear | myssd_sdk/eccengine/bch.c:246-322 | encoding is linear over exclusive or in message and parity |
| Encoder.CodewordIsMultiple | myssd_sdk/eccengine/bch.c:246-322 | message and parity together are a multiple of the generator |
| Encoder.FourTables | myssd_sdk/eccengine/bch.c:284-315 | the four entries chosen by the bytes of a word add up to the remainder of the word |
| Encoder.EncodeByte | myssd_sdk/eccengine/bch.c:168-186 | one byte step of the table loop is eight steps of bitwise long division |
| Encoder.EncodeWord | myssd_sdk/eccengine/bch.c:284-315 | one word step of the four-table loop is 32 steps of bitwise long division |
| Encoder.EncodeUnaligned | myssd_sdk/eccengine/bch.c:168-186 | the byte loop computes the remainder of the whole buffer, with or without bit swapping |
| EccBuffer.SwappedTwice | myssd_sdk/eccengine/bch.c:158-163 | reversing the bits of every byte twice changes nothing |
| EccBuffer.PackedUnpacked | myssd_sdk/eccengine/bch.c:191-231 | packing bytes into words and unpacking them are inverse |
| EccBuffer.LoadEcc8 | myssd_sdk/eccengine/bch.c:191-208 | parity bytes are loaded big-endian, zero-padded, bits swapped if asked |
| EccBuffer.StoreEcc8 | myssd_sdk/eccengine/bch.c:213-231 | parity words are stored as bytes, cut to the given length |
| EccBuffer.EncodeBuffer | myssd_sdk/eccengine/bch.c:246-322 | unaligned head, aligned words and tail together compute the remainder of the buffer, for every alignment |
| Syndromes.ComputeSyndromes | myssd_sdk/eccengine/bch.c:408-439 | every syndrome k < 2t is the value of the remainder at a^(k+1), the even ones although they are only squared |
| Newton.DegreesAddUp | myssd_sdk/eccengine/bch.c:446-496 | if one solution of the identities fails where another goes on, their degrees add up to the index |
| Newton.CrossZero | myssd_sdk/eccengine/bch.c:446-496 | two short solutions of all identities are proportional |
| Locator.LocatorIdentity | myssd_sdk/eccengine/bch.c:446-496 | the syndrome series of any errors times their locator has no odd terms |
| LocatorUnique.LocRoots | myssd_sdk/eccengine/bch.c:974-999 | the locator vanishes exactly at the inverses of the error positions |
| LocatorUnique.MinimalIsLocator | myssd_sdk/eccengine/bch.c:446-496 | for at most t errors a shortest solution of the 2t identities is the error locator |
| BerlekampMassey.Discrepancy | myssd_sdk/eccengine/bch.c:484-490 | the loop computes the next coefficient of syndromes times locator |
| BerlekampMassey.Correct | myssd_sdk/eccengine/bch.c:460-482 | one correction step keeps the solution shortest for one more identity |
| BerlekampMassey.ComputeErrorLocatorPolynomial | myssd_sdk/eccengine/bch.c:446-496 | the result is a shortest solution of all 2t identities, and failure means that none of degree at most t exists |
| Chien.LogRep | myssd_sdk/eccengine/bch.c:765-773 | the representation holds the logarithms of the coefficients over the leading one |
| Chien.ChienSearch | myssd_sdk/eccengine/bch.c:974-999 | finds a complete set of roots below the code length if and only if there is one |
| TraceMap.TraceOfArtin | myssd_sdk/eccengine/bch.c:645-654 | z^2 + z has trace 0 |
| TraceMap.SomeTrace | myssd_sdk/eccengine/bch.c:1165-1201 | some element has trace 1, so the table of the quadratic solver can always be built |
| TraceMap.ArtinOnto | myssd_sdk/eccengine/bch.c:645-654 | every element of trace 0 is z^2 + z for some z |
| TraceMap.Separates | myssd_sdk/eccengine/bch.c:900-930 | two different elements are told apart by the trace after multiplication with one of a, ..., a^m |
| DegreeTwo.BuildDeg2Base | myssd_sdk/eccengine/bch.c:1165-1201 | always succeeds; the table solves z^2 + z = a^i, or a^i plus an element of trace 1 |
| DegreeTwo.SolveArtin | myssd_sdk/eccengine/bch.c:645-659 | adding table entries solves z^2 + z = u whenever that has a solution |
| LowRoots.FindDeg1Roots | myssd_sdk/eccengine/bch.c:615-624 | finds the root of a linear locator, or shows that there is none |
| LowRoots.FindDeg2Roots | myssd_sdk/eccengine/bch.c:629-667 | finds both roots of a quadratic locator, or shows that there are not two |
| PolyDivision.PolyMod | myssd_sdk/eccengine/bch.c:778-806 | remainder in the low coefficients, quotient by the monic divisor in the high ones |
| PolyDivision.PolyDiv | myssd_sdk/eccengine/bch.c:811-824 | the quotient by the monic divisor |
| EuclidChain.Gcd | myssd_sdk/eccengine/bch.c:829-852 | the last remainder but one of the division chain of the two polynomials, which ends at a constant |
| EuclidChain.ChainGcd | myssd_sdk/eccengine/bch.c:829-852 | it is a greatest common divisor when the chain ends in zero; otherwise the polynomials are coprime |
| EuclidChain.ChainUnique | myssd_sdk/eccengine/bch.c:829-852 | two polynomials have one chain only |
| EuclidChain.ReduceBy | myssd_sdk/eccengine/bch.c:778-806 | the unique remainder in the low coefficients, without leading zeros, and the quotient in the high ones |
| EuclidChain.DivideBy | myssd_sdk/eccengine/bch.c:811-824 | the unique quotient |
| LinearSolve.SolveLinearSystem | myssd_sdk/eccengine/bch.c:502-569 | the complete list of the solutions if there are as many as asked for, otherwise nothing |
| BitMatrix.Transpose | myssd_sdk/eccengine/bch.c:598-608 | the exchange of blocks transposes the 16 by 16 bit matrix in place |
| AffineRoots.FindAffine4Roots | myssd_sdk/eccengine/bch.c:575-610 | all four roots of X^4 + aX^2 + bX + c, or there are not four |
| CubicQuartic.FindDeg3Roots | myssd_sdk/eccengine/bch.c:671-698 | all three roots of a cubic locator, or it has not three |
| CubicQuartic.FindDeg4Roots | myssd_sdk/eccengine/bch.c:703-760 | all four roots of a quartic locator, or it has not four |
| TracePoly.ComputeTraceBkMod | myssd_sdk/eccengine/bch.c:858-895 | the sum of m successive squares of a^k X, all modulo f |
| TracePoly.TraceValue | myssd_sdk/eccengine/bch.c:858-895 | at a root x of f its value is the trace of a^k x |
| TracePoly.TraceUnique | myssd_sdk/eccengine/bch.c:858-895 | there is one such polynomial only |
| TraceFactor.FactorPolynomial | myssd_sdk/eccengine/bch.c:900-930 | splits f by the divisor that the division chain of f and the trace polynomial ends with, or not at all when that polynomial is a constant |
| TraceFactor.FactoringUnique | myssd_sdk/eccengine/bch.c:900-967 | the tree of splits is determined by the polynomial |
| TraceFactor.FindRoots | myssd_sdk/eccengine/bch.c:936-967 | as many roots as the degree exactly when every leaf of the tree of splits has all its roots, and then the roots of the leaves |
| TraceFactor.SplitsSolved | myssd_sdk/eccengine/bch.c:936-967 | a polynomial with as many roots as its degree is split into leaves that all have theirs |
| TraceFactor.SplitsIffExact | myssd_sdk/eccengine/bch.c:900-967 | a polynomial has as many roots as its degree if and only if all leaves have theirs, every division is exact and no divisor shares a root with its quotient |
| TraceFactor.FinderRight | myssd_sdk/eccengine/bch.c:936-967 | the roots reported are right if and only if there are fewer than the degree or every division of the tree is exact and divides into parts without a common root |
| RepeatedRoots.SplitsIffDivided | myssd_sdk/eccengine/bch.c:900-967 | without a repeated root the remainders alone decide: as many roots as the degree if and only if all leaves have theirs and every division leaves 0 |
| RepeatedRoots.ShortestSquareFree | myssd_sdk/eccengine/bch.c:446-496 | a shortest solution of the identities has no repeated root |
| ErrorLocations.LocatorSplits | myssd_sdk/eccengine/bch.c:936-967 | so an error locator has as many roots as its degree if and only if all leaves have theirs and every division leaves 0 |
| ErrorLocations.LowNeverMisled | myssd_sdk/eccengine/bch.c:615-760 | the finder reports roots below the code length for a locator of degree at most 4 only if it has as many as its degree, and divides nothing |
| ErrorLocations.FindPolyRoots | myssd_sdk/eccengine/bch.c:936-999 | both builds of the finder: all roots whenever there are as many as the degree; the exhaustive one reports nothing else, and the other one is right exactly when its divisions are |
| ErrorLocations.ExplanationUnique | myssd_sdk/eccengine/bch.c:446-496 | at most one set of at most t errors has given syndromes |
| ErrorLocations.SolutionExplains | myssd_sdk/eccengine/bch.c:446-496 | a locator that satisfies the odd identities has all 2t syndromes right |
| ErrorLocations.PostProcess | myssd_sdk/eccengine/bch.c:1084-1097 | roots become bit numbers in the order of the data, and a root outside the message is an error |
| ErrorLocations.LocateErrors | myssd_sdk/eccengine/bch.c:1077-1099 | at most t errors in the message with the given syndromes are named, and none is overlooked when the message is given up; locations named for a shortest locator explain the syndromes if and only if the search is exhaustive or every division of the factoring leaves 0 |
| Decoder.Init | myssd_sdk/eccengine/bch.c:1300-1390 | for a polynomial with constant term 1, or the default one: succeeds exactly when the parameters are in range and the polynomial is accepted, and then all tables are right |
| Decoder.Encode | myssd_sdk/eccengine/bch.c:246-322 | parity bytes of the data, continuing from given parity |
| Decoder.Decode | myssd_sdk/eccengine/bch.c:1044-1100 | all four ways of calling it, with either root finder; invalid exactly when refused, otherwise the answer of LocateErrors to the syndromes of the call, with the same exact condition for it to be right |
| ErrorCorrection.FlipReceived | myssd_sdk/eccengine/bch.c:1034-1040 | flipping bit loc % 8 of byte loc / 8 changes one coefficient of the received polynomial, or none in the padding |
| ErrorCorrection.CodewordVanishes | myssd_sdk/eccengine/bch.c:408-439 | every encoded codeword vanishes at a, ..., a^2t |
| ErrorCorrection.FlipsSyndromes | myssd_sdk/eccengine/bch.c:1044-1100 | for any number of flipped bits of a codeword, the syndromes the decoder computes are the power sums of their positions |
| ErrorCorrection.FlipsExplain | myssd_sdk/eccengine/bch.c:1044-1100 | for at most t flipped bits the syndromes the decoder computes are those of errors at the flipped bits |
| ErrorCorrection.CorrectsErrors | myssd_sdk/eccengine/bch.c:1044-1100 | decoding a codeword with at most t flipped bits returns exactly their locations, for every t and with either root finder |
| MisledFinder.FiveFalseRoots | myssd_sdk/eccengine/bch.c:829-967 | a polynomial of degree 5 over GF(32) that has fewer than five roots, whose leaves all have theirs, and one of whose divisions leaves a remainder |
| MisledFinder.PolyIsLocator | myssd_sdk/eccengine/bch.c:446-496 | it is a shortest solution of the identities of ten given syndromes |
| MisledFinder.OnlyLocator | myssd_sdk/eccengine/bch.c:446-496 | it is their only shortest solution |
| MisledFinder.NothingExplains | myssd_sdk/eccengine/bch.c:1044-1100 | no set of at most five errors has these syndromes |
| MisledFinder.FalseLocations | myssd_sdk/eccengine/bch.c:1077-1099 | whatever LocateErrors answers to these syndromes is a list of locations, from a locator with fewer roots than its degree and an inexact division |
| MisledFinder.ReportsFalseErrors | myssd_sdk/eccengine/bch.c:1077-1099 | LocateErrors does answer them with locations, although at most five errors never have them |
| FalseCorrection.ParityBits | myssd_sdk/eccengine/bch.c:1215-1276 | the code with m = 5 and t = 5 has 20 parity bits |
| FalseCorrection.FlipsFit | myssd_sdk/eccengine/bch.c:408-439 | eight positions whose power sums are the ten syndromes |
| FalseCorrection.DefaultAccepted | myssd_sdk/eccengine/bch.c:1106-1127 | the default polynomial for m = 5 passes the test of the builder |
| FalseCorrection.ReceivedSyndromes | myssd_sdk/eccengine/bch.c:1044-1100 | a codeword of one byte with the bits at these positions flipped has these syndromes |
| FalseCorrection.NotNear | myssd_sdk/eccengine/bch.c:1044-1100 | no message within five flips of a codeword has them |
| FalseCorrection.NamesFalseErrors | myssd_sdk/eccengine/bch.c:1044-1100 | a run for every byte and either bit order: the default decoder names locations for a message that is no codeword within five flips |
| BTree.CompareAt | mcmqhost/local/pgtest/btree.c:96-152 | _bt_compare is lexicographic over the shorter of key and truncated pivot, minus infinity for the first pivot |
| BTree.PivotPasses | mcmqhost/local/pgtest/btree.c:96-152 | a key beyond a truncated pivot is beyond every tuple not above the pivot |
| BTree.PagesInOrder | mcmqhost/local/pgtest/btree.c:188-212 | high keys separate the leaf pages: tuples of different pages are in key order |
| BTree.GetRoot | mcmqhost/local/pgtest/btree.c:40-94 | the root, from which nothing has been passed; none for an empty index |
| BTree.MoveRight | mcmqhost/local/pgtest/btree.c:188-212 | following right links past high keys and ignored pages never passes the position |
| BTree.BinSearch | mcmqhost/local/pgtest/btree.c:154-186 | on a leaf the first item not before the position, on an internal page the last before it |
| BTree.Search | mcmqhost/local/pgtest/btree.c:214-254 | the descent ends on a leaf with nothing wanted to its left |
| BTreeScan.CheckKeys | mcmqhost/local/pgtest/btree.c:287-333 | true exactly for tuples that satisfy every scan key |
| BTreeScan.ChooseStartKeys | mcmqhost/local/pgtest/btree.c:503-600 | lower bounds on attributes 1, 2, ..., and none exactly when the first attribute has none |
| BTreeScan.MatchNotBefore | mcmqhost/local/pgtest/btree.c:503-600 | a tuple that satisfies all keys is never before the starting position |
| BTreeScan.Collect | mcmqhost/local/pgtest/btree.c:351-441 | the items of a page that satisfy the keys, in order |
| BTreeScan.Scan.ReadPage | mcmqhost/local/pgtest/btree.c:351-441 | the scan holds the matching items from an offset on |
| BTreeScan.Scan.ReadNextPage | mcmqhost/local/pgtest/btree.c:443-478 | pages without matches and ignored pages are skipped, and nothing else |
| BTreeScan.Scan.First | mcmqhost/local/pgtest/btree.c:503-670 | at the first wanted tuple, or none is wanted; gives up exactly without a lower bound |
| BTreeScan.Scan.Next | mcmqhost/local/pgtest/btree.c:672-693 | one tuple further; ends exactly after the last |
| BTreeScan.StartCut | mcmqhost/local/pgtest/btree.c:600-670 | nothing before the offset found can match |
| BTreeScan.MatchesOrdered | mcmqhost/local/pgtest/btree.c:443-478 | the matching tuples along the leaf pages come in key order, heap positions breaking ties |
| BTreeScan.ScanAll | mcmqhost/local/pgtest/btree.c:503-693 | a whole scan returns every matching tuple of the leaf pages once, in key order |
| HeapScan.Scan.GetForward | mcmqhost/local/pgtest/heap.c:270-442 | the next tuple that passes the keys, in (block, line) order; at the end the scan is as new |
| HeapScan.Scan.GetBackward | mcmqhost/local/pgtest/heap.c:270-442 | the tuple that passes the keys before the current one |
| TableBatch.RoundTrip | storpu/local/pgtest.c:186-214 | a batch decodes to the tuples written into it |
| TableBatch.TableScan.StepBackward | storpu/local/pgtest.c:194-201 | a backward step undoes the last forward step |
| TableBatch.TableScan.GetNext | storpu/local/pgtest.c:169-224 | the next undelivered tuples, as many as fit; empty exactly when all are delivered or the next one alone does not fit |
| TableBatch.FetchAll | storpu/local/pgtest.c:169-224 | the batches of a whole run decode to the tuples of the relation that pass the keys, none lost or repeated, up to the first that does not fit; to all of them if and only if all fit |
| AttrCache.WalkFixed | mcmqhost/local/pgtest/heap.c:150-190 | over a fixed-width prefix without nulls the walk does not depend on the tuple |
| AttrCache.MaskTest | mcmqhost/local/pgtest/heap.c:100-125 | the mask test finds exactly the nulls below a bit |
| AttrCache.TupleDesc.NullBefore | mcmqhost/local/pgtest/heap.c:100-125 | whether an earlier attribute is null |
| AttrCache.TupleDesc.GetAttr | mcmqhost/local/pgtest/heap.c:87-195 | the offset is that of the plain walk, and the cache stays right and a prefix |
| AttrCache.TupleDesc.FastGetAttr | mcmqhost/local/pgtest/heap.c:197-218 | null or the offset of the plain walk |
| AttrCache.TupleDesc.KeyTest | mcmqhost/local/pgtest/heap.c:246-268 | true exactly when the tuple passes every key at the offsets of the plain walk, whatever the cache holds |
| AttrCache.TupleDesc.Deform | mcmqhost/local/pgtest/heap.c:577-631 | all null flags and offsets are those of the plain walk |
| AttrCache.CachedIsRight | mcmqhost/local/pgtest/heap.c:197-218 | a cached offset is the offset of the plain walk in every tuple without earlier nulls |
| PageTree.WriteLeaf | myssd_sdk/src/page.c:71-96 | writing a page entry changes one page of the flat map and keeps the tree |
| PageTree.AddTable | myssd_sdk/src/page.c:53-69 | a fresh table in an empty slot keeps the tree |
| PageTree.AddTableSame | myssd_sdk/src/page.c:71-128 | a fresh table in an empty slot changes no page of the flat map |
| PageTable.AddrEndIs | myssd_sdk/include/pagetable.h:267-287 | the end of the chunk in its block, also when the boundary wraps to 0 |
| PageTable.PageDir.SetPtes | myssd_sdk/src/page.c:71-96 | the pages of one table get consecutive frames |
| PageTable.PageDir.AllocInitPte | myssd_sdk/src/page.c:71-96 | the pages of one 2 MiB block are mapped, and no others change |
| PageTable.PageDir.AllocInitPmd | myssd_sdk/src/page.c:98-162 | the pages of one 1 GiB block are mapped, and no others change |
| PageTable.PageDir.WriteMap | myssd_sdk/src/page.c:164-180 | every page of the range is mapped to its frame and all others are unchanged, up to the top of the address space |
| PageTable.PageDir.Follow | myssd_sdk/src/page.c:334-355 | finds the entry exactly when the page is present |
| PageTable.PageDir.Translate | myssd_sdk/src/page.c:357-374 | the physical address of the flat map |
| PageTable.PageDir.Unmap | myssd_sdk/src/page.c:304-319 | removes exactly the pages of the range |
| PageTable.PageDir.TranslateRange | myssd_sdk/src/page.c:376-401 | the longest physically contiguous prefix, to a page boundary |
| PageTable.WrittenTranslates | myssd_sdk/src/page.c:295-302 | after a mapping every byte of the range translates to the byte at the same distance |
| PageTable.OthersKept | myssd_sdk/src/page.c:295-302 | translations outside the range are unchanged |
| ZoneAlloc.Zone.DeleteSlot | myssd_sdk/src/alloc.c:271-282 | one hole leaves the list and its slot becomes unused |
| ZoneAlloc.Zone.MergeHole | myssd_sdk/src/alloc.c:284-301 | touching holes become one; the free bytes are the same and no two holes touch |
| ZoneAlloc.Zone.Alloc | myssd_sdk/src/alloc.c:125-158 | the first hole that fits loses block and padding; 0 exactly when none fits |
| ZoneAlloc.Zone.Insert | myssd_sdk/src/alloc.c:230-255 | the free bytes gain the block, holes stay sorted and apart; fails exactly when no slot is left |
| MemAlloc.PagedHole | myssd_sdk/src/alloc.c:125-158 | holes of memory free in whole pages start and end on page boundaries |
| MemAlloc.LosesIffPadded | myssd_sdk/src/alloc.c:136-145 | some free byte is afterwards neither in a hole nor in the block if and only if the hole does not start on the alignment |
| MemAlloc.LoseBytes | myssd_sdk/src/alloc.c:98-255 | a run from new memory after which nothing is in use and a byte of the zone is in no hole and no list |
| MemAlloc.BlocksDisjoint | myssd_sdk/src/alloc.c:125-198 | a byte of a live block is in no other block, hole or parked block, and inside the zone |
| MemAlloc.ParkedDisjoint | myssd_sdk/src/alloc.c:59-96 | a byte of a parked block is in no hole and no other parked block |
| MemAlloc.NothingLost | myssd_sdk/src/alloc.c:125-255 | with whole pages only, every byte of the zone is free, parked or in use |
| MemAlloc.Allocator.AllocMem | myssd_sdk/src/alloc.c:125-158 | a new aligned block from the first hole that fits; 0 exactly when none fits; a request for no bytes takes no block |
| MemAlloc.Allocator.FreeMem | myssd_sdk/src/alloc.c:210-255 | the block is parked or its bytes are free again; fails exactly when it is not parked and the hole table is full |
| MemAlloc.Allocator.PopPages | myssd_sdk/src/alloc.c:59-72 | the block parked last, or 0 exactly when none is parked |
| MemAlloc.MemInit | myssd_sdk/src/alloc.c:98-123 | nothing in use, and all memory one hole or one parked block |
| MemZones.Memory.AllocMem | myssd_sdk/src/alloc.c:160-176 | the first zone named that has a hole for the block gives it, the other zones are unchanged; 0 exactly when no zone named has one |
| MemZones.Memory.AllocPages | myssd_sdk/src/alloc.c:181-198 | the block parked last in the first zone named that has one for this CPU, or else the first hole that fits; 0 exactly when there is neither |
| MemZones.Memory.FreeMem | myssd_sdk/src/alloc.c:257-269 | the block goes back to the zone that has its address, the others are unchanged; the two panics are reached exactly when no zone has it or the table is full |
| Bitmap.FindNextBit | myssd_sdk/src/bitmap.c:42-70 | the first wanted bit from the start on, in one or two sets, inverted or not |
| Slab.ClassSize | myssd_sdk/src/slab.c:97-112 | all sizes of a class round to one slot size |
| Slab.FindSlot | myssd_sdk/src/slab.c:145-165 | the two-part search around the guess finds an unused slot if and only if the page is not full |
| Slab.SizeClass.Alloc | myssd_sdk/src/slab.c:97-178 | an object that was unused or parked on this CPU; 0 exactly when there is none |
| Slab.SizeClass.Free | myssd_sdk/src/slab.c:180-220 | the object is parked, or its bit is cleared when the cache is full |
| Slab.ObjectsDisjoint | myssd_sdk/src/slab.c:97-220 | live and parked objects are pairwise disjoint and inside the data area of a page |
| AvlTree.FixupKeeps | myssd_sdk/include/avl.h:108-126 | rotations keep the in-order sequence and set exact heights |
| AvlTree.InsertBalanced | myssd_sdk/include/avl.h:128-154 | insertion keeps balance and adds at most one level |
| AvlTree.InsertOrder | myssd_sdk/include/avl.h:128-154 | the in-order sequence gains the new entry at its place and nothing else |
| AvlTree.InsertSorted | myssd_sdk/include/avl.h:128-154 | insertion keeps the order |
| AvlTree.EraseOrder | myssd_sdk/include/avl.h:178-215 | removal takes out the entry a search finds, and nothing else |
| AvlTree.EraseSorted | myssd_sdk/include/avl.h:178-215 | removal keeps the order |
| AvlTree.FindSorted | myssd_sdk/src/idr.c:153-174 | in a sorted tree a search finds a key exactly when it is there |
| AvlTree.EraseBalance | myssd_sdk/include/avl.h:161-215 | removal keeps balance if and only if the key is not found, its node lacks a child, or the first node up the left spine of its right subtree that does not lean left is level |
| AvlTree.FoundIffFind | myssd_sdk/include/avl.h:178-190 | the node meant is there exactly when a search finds the key |
| AvlTree.EraseMinBalance | myssd_sdk/include/avl.h:161-176 | taking out the least node keeps balance exactly when the spine is safe, and lowers the tree exactly when the whole spine leans left |
| AvlTree.EraseUnbalances | myssd_sdk/include/avl.h:161-176 | a balanced sorted tree that removal leaves out of balance |
| AvlNodes.Pool.LeftRotate | myssd_sdk/include/avl.h:74-83 | the pointer writes compute the rotation and touch only the tree's nodes |
| AvlNodes.Pool.RightRotate | myssd_sdk/include/avl.h:85-94 | the pointer writes compute the rotation and touch only the tree's nodes |
| AvlNodes.Pool.FixupAt | myssd_sdk/include/avl.h:96-126 | single and double rotations on linked nodes compute the repair of the value |
| AvlNodes.Pool.InsertRecur | myssd_sdk/include/avl.h:128-154 | linking a node computes insertion on values; no node is shared or lost |
| AvlNodes.Pool.EraseLeast | myssd_sdk/include/avl.h:161-176 | unlinks the leftmost node |
| AvlNodes.Pool.EraseRecur | myssd_sdk/include/avl.h:178-215 | unlinking computes removal on values |
| AvlIter.Iter.Start | myssd_sdk/include/avl.h:222-265 | at an entry with the key, or the nearest on the wanted side; at the end exactly when none qualifies |
| AvlIter.Iter.Get | myssd_sdk/include/avl.h:267-271 | the entry at the position |
| AvlIter.Iter.Increment | myssd_sdk/include/avl.h:273-298 | the in-order successor, or the end |
| AvlIter.Iter.Decrement | myssd_sdk/include/avl.h:300-325 | the in-order predecessor, or the end |
| AvlIter.FewLevels | myssd_sdk/include/avl.h:40-53 | a balanced tree of fewer than 14930351 nodes has at most 33 levels, so that its paths fit the iterator |
| AvlIter.InsertAllLevels | myssd_sdk/include/avl.h:128-154 | so has every tree built by fewer insertions than that |
| Idr.AddFresh | myssd_sdk/src/idr.c:72-123 | adding an unused key keeps keys distinct and makes exactly that key found |
| Idr.RemoveKey | myssd_sdk/src/idr.c:125-151 | removing a key removes that key only |
| Idr.Idr.FindSlot | myssd_sdk/src/idr.c:72-110 | takes the wanted number in an empty table, the one after the greatest when all are below the bound, else the start of the highest gap; the null read happens exactly when there is no such gap |
| Idr.ChosenFresh | myssd_sdk/src/idr.c:72-110 | the number chosen is in use if and only if the bound is 2^32 or more and 0 and 2^32 - 1 are in use |
| Idr.ChosenBound | myssd_sdk/src/idr.c:72-110 | it is within the bound, or the wanted number in an empty table |
| Idr.ChosenStart | myssd_sdk/src/idr.c:72-110 | it is below the wanted one exactly when all numbers in use are below the bound and the one after the greatest is below it |
| Idr.FullRunsPast | myssd_sdk/src/idr.c:99-109 | a full range always ends in the null read |
| Idr.FreeBelowUnseen | myssd_sdk/src/idr.c:99-109 | the null read with three free numbers in the range, below the least one in use |
| Idr.FreeInsideUnseen | myssd_sdk/src/idr.c:99-109 | the null read with five free numbers in the range, inside a gap |
| Idr.AllocateTwice | myssd_sdk/src/idr.c:72-123 | a run of two allocations that ends in the null read |
| Idr.Idr.Alloc | myssd_sdk/src/idr.c:72-123 | the number chosen is inserted with the pointer, or nothing when there is no memory for the node; it was not in use, and the table stays valid, exactly when it does not wrap around; it is below the number asked for exactly when all numbers in use are too small |
| Idr.Idr.Lookup | myssd_sdk/src/idr.c:153-174 | the pointer stored under the id, if any |
| Idr.Idr.Remove | myssd_sdk/src/idr.c:125-151 | returns the pointer and frees exactly that id; whether the tree stays balanced |
| Llist.SwapOutKeeps | myssd_sdk/include/llist.h:265-279 | a successful compare and swap finds its entry on top with the next pointer unchanged since it was read |
| Llist.StepRefines | myssd_sdk/include/llist.h:203-279 | every step that removes nothing beside a consumer inside llist_del_first is a step of an atomic stack or leaves it alone |
| Llist.RunRefines | myssd_sdk/include/llist.h:203-279 | every run of such steps, by any number of producers and consumers, behaves like an atomic stack |
| Llist.NothingLost | myssd_sdk/include/llist.h:246-279 | what went in is what came out and what is still there |
| Llist.DelFirstFails | myssd_sdk/include/llist.h:14-30 | within any uses with one consumer in llist_del_first and another one that removes in either way, a run that no atomic stack has |
| Llist.NeedsNoLock | myssd_sdk/include/llist.h:8-30 | the uses whose runs always behave like an atomic stack are exactly those where a consumer that takes the first entry has no other consumer beside it |
| Llist.SafeUses | myssd_sdk/include/llist.h:8-30 | in uses where a consumer that takes the first entry has no other consumer beside it, every run behaves like an atomic stack |
| NvmeQueue.HeadFollows | mcmqhost/include/libunvme/nvme_driver.h:160-170 | head and phase are the consumed count modulo the depth and the parity of passes |
| NvmeQueue.LargestQueueFails | mcmqhost/include/libunvme/nvme_driver.h:160-170 | with 65536 entries the phase does not change after a pass |
| NvmeQueue.FollowsIffSmall | mcmqhost/include/libunvme/nvme_driver.h:160-170 | head and phase follow the stream at every step if and only if the depth is below 65536 |
| NvmeQueue.PendingIff | mcmqhost/libunvme/nvme_driver.cpp:581-592 | the phase bit at the head tells exactly whether the next entry has been posted, and the entry read is that one |
| NvmeQueue.CompletionQueue.constructor | mcmqhost/libunvme/nvme_driver.cpp:142-159 | an empty queue |
| NvmeQueue.CompletionQueue.Pending | mcmqhost/libunvme/nvme_driver.cpp:581-592 | true exactly when an entry has been posted and not consumed |
| NvmeQueue.CompletionQueue.Read | mcmqhost/libunvme/nvme_driver.cpp:594-600 | the next entry of the stream |
| NvmeQueue.CompletionQueue.Irq | mcmqhost/libunvme/nvme_driver.cpp:638-649 | with the device posting between all steps: all that was posted before is delivered, once and in posting order, in at most depth turns, and then announced |
| NvmeQueue.CommandTable.Setup | mcmqhost/libunvme/nvme_driver.cpp:251-266 | the next 16-bit id; ids in flight stay distinct exactly when it was not in the table |
| NvmeQueue.CommandTable.Complete | mcmqhost/libunvme/nvme_driver.cpp:594-636 | the callback called is that of the command issued with the id |
| NvmeQueue.CommandTable.IsKnown | mcmqhost/libunvme/nvme_driver.cpp:594-612 | an id is found exactly when a command in flight has it |
| NvmeQueue.Driver.Submit | mcmqhost/libunvme/nvme_driver.cpp:251-266 | completions and commands keep belonging together exactly when the id was not in the table |
| NvmeQueue.Driver.Handle | mcmqhost/libunvme/nvme_driver.cpp:594-636 | the callback of the command that the entry completes is called with its status, and the command is removed |
| NvmeQueue.Driver.Irq | mcmqhost/libunvme/nvme_driver.cpp:638-649 | beside other threads that submit and the device that completes: each entry delivered reaches the callback of its command, once and in order |
| IoWindow.IoThread.SubmitRequest | mcmqhost/libmcmq/io_thread.cpp:82-129 | the request is in flight or waiting; the window is not exceeded and nothing waits beside free places |
| IoWindow.IoThread.SubmitInitial | mcmqhost/libmcmq/io_thread_synthetic.cpp:81-95 | filling the initial window |
| IoWindow.IoThread.NotifyCompletion | mcmqhost/libmcmq/io_thread.cpp:131-150 | a request of the device becomes finished |
| IoWindow.IoThread.TakeFinished | mcmqhost/libmcmq/io_thread.cpp:152-171 | all finished requests are taken |
| IoWindow.IoThread.LetIn | mcmqhost/libmcmq/io_thread.cpp:173-204 | waiting requests move to the device until the window is full or none waits |
| IoWindow.IoThread.ProcessNext | mcmqhost/libmcmq/io_thread.cpp:173-204 | one more completed, and one more submitted exactly while the total has not been reached |
| IoWindow.IoThread.StillRunning | mcmqhost/libmcmq/io_thread_synthetic.cpp:69-95 | an unfinished run has a request in flight |
| IoWindow.IoThread.Conserved | mcmqhost/libmcmq/io_thread.cpp:82-204 | submitted requests are completed, in flight or waiting |
| IoWindow.BytesAddUp | mcmqhost/libmcmq/io_thread.cpp:173-204 | bytes read and written add up to the total |
| Kmp.BorderOfBorder | storpu/local/synthetic.c:171-192 | a shorter border is a border of a longer one |
| Kmp.TryNext | storpu/local/synthetic.c:171-192 | falling back to the next border misses no candidate |
| Kmp.ComputeLps | storpu/local/synthetic.c:171-192 | entry i is the length of the longest border of the prefix of length i + 1 |
| Kmp.FallBack | storpu/local/synthetic.c:194-218 | falling back skips no occurrence |
| Kmp.Search | storpu/local/synthetic.c:194-218 | true if and only if the pattern occurs, for every text and nonempty pattern |

## Left out

- Decoder.Init: the polynomial is the default one or has constant term 1; what the rest of the initialisation makes of
  the tables of an even polynomial is not modelled, because they are no field (`GaloisField.FieldIffOdd`).
- Decoder.Encode: the parity given has zero padding bits, as a zeroed buffer and every result of an earlier call have.
- EccBuffer.SwappedTwice: the 256 entries of the swap table are replaced by the reversal of bits that they tabulate.
- PageTable.PageDir.WriteMap: the range is not empty and lies in one region of 2^39 bytes; an empty range makes the
  loops of the source run around the whole address space, and a longer one runs past the top-level table.
- NvmeQueue.CompletionQueue.constructor: the depth is below 65536, because from there on head and phase do not follow
  the stream (`NvmeQueue.FollowsIffSmall`).
- NvmeQueue.Driver.constructor: the depth is below 65536 for the same reason.
- NvmeQueue.Driver.Handle: only commands with a callback; a waiting thread that removes its own command is left out.
- MemAlloc.MemInit: one zone; the source empties the free lists of all zones each time.
- MemZones.Memory.FreeMem: the address is outside all zones or that of a block in use, as for every caller of the source.
- HeapScan.Scan.GetForward: scans start at block 0 and cover the relation, as `initscan` always sets them up
  (mcmqhost/local/pgtest/heap.c:12-26); parallel scans and visibility are left out.
- HeapScan.Scan.GetBackward: as GetForward.
- Spin locks, memory barriers and cache maintenance: steps are atomic and memory is sequentially consistent.
- The flash translation layer, the command parsers, the virtual machine of the drive, the query operators above the
  scans and the numeric type of the executor.
- File formats and catalogue tables, the simulator link, logging and statistics.
- Backward index scans, index scans on expressions, and index maintenance.
