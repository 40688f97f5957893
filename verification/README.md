# Kernel library algorithms in Dafny

A model of the hard parts of a trimmed Linux kernel port, and proofs about it. Words are natural
numbers with the bit operations written out, and a `long` has 32 bits, as on the target of the port.

- **B+tree** (`lib/btree.c`). `BTree` has the node memory, the in-place shifting, splitting, merging and
  rebalancing, and the key arguments that point into nodes. It is proved against a finite map over whole
  runs. `BTreeSizes` and `BTreeKeyed` have the same algorithm as functions, for the questions that concern every
  node size: `BTreeExact` says for which ones the tree can be broken.
- **BCH codec** (`lib/bch.c`). Log tables, the table-driven encoder, polynomial division, the linear solver and
  the closed-form root finders, each against the mathematics it implements: carry-less polynomials modulo a
  generator, the field GF(2^m), solution sets over GF(2).
- **Resource tree** (`kernel/resource.c`). Ranges in parent, child and sibling pointers.
- **CRCs** (`lib/crc32.c`, `lib/crc8.c`, `lib/crc64.c` and their table generators). Table-driven and sliced forms
  against the bit-at-a-time loop. The little-endian CRC32 is the frame check sequence of section 3.2.9 of IEEE 802.3,
  the CRC64 uses the polynomial of Annex B of ECMA-182; all results hold for every polynomial.
- **Sysctl text** (`kernel/sysctl.c`). Printing and parsing integer vectors and range-list bitmaps.
- **Internet checksum** (`lib/checksum.c`, section 2 of RFC 1071).
- **Async cookies** (`kernel/async.c`). Steps over pending lists.
- **Bitmaps** (`lib/bitmap.c`). Free areas, regions, ranges, rank and select.

How many allocations of an insertion succeed before one fails is a parameter, and so are addresses, alignments, the trailing character that
`proc_do_large_bitmap` reads before setting, the entry count that is read outside a lock, and the words
behind the keys of a full leaf.

## Findings

Properties that the code does not have, each with an input and the exact condition.

- **B+tree, node size.** With an odd number of pairs per node, seven or more, some run of insertions of absent keys
  and removals of present ones ends in an inner root without entries. The next insertion writes before the
  start of the node and stops at `BUG_ON(i < 0)` in `find_level` (`lib/btree.c:407`). With four, five or an even number of
  pairs no run does (`BTreeExact.BreaksIff`, both ways, for all sizes from four on). The geometries of this build have 16,
  10 and 6 pairs; on a 32-bit machine with cache lines of 256 bytes `btree_geo64` would have 21.
- **B+tree, fill.** Two neighbouring children always hold three entries together exactly when a node has fewer than six
  pairs (`BTreeExact.SiblingsIff`). With six or more, a run ends with two neighbouring leaves of one key each. The comment at
  `lib/btree.c:583-589`, that no two neighbours can be merged, is not an invariant either. What is kept is `BTreeHealth.Healthy`.
- **`btree_get_prev`** returns the greatest pair instead of none exactly when no smaller key is stored and the last
  separator of an inner root is 0 (`BTree.Head.GetPrev`). Inserting 1 to n and 0 and removing 0 gets there, for every node
  size (`BTreeExact.ZeroSeparator`). It cannot happen when no operation was called with key 0 (`BTreeRun.RunThenPrev`).
- **`btree_update`** of an absent key 0 stores a new pair exactly when the leaf that owns key 0 has an unused slot
  (`BTree.Head.Update`), for instance whenever a single other key is stored (`BTreeRun.UpdateFindsZero`). For other keys
  it succeeds exactly when the key is present.
- **`btree_remove`** of a key that is not stored should return NULL and change nothing (`include/linux/btree.h:137-138`). For an
  absent key 0 it takes the smallest pair away exactly when the last leaf has an unused slot, since that slot holds key 0 as
  well; on an empty leaf it clears the pair in front of the node. In a full leaf a key below all others is compared with the
  first words of the values, and if they are equal the next greater pair goes. In all other cases nothing happens
  (`BTree.Head.Remove`, with `BTreeAbsent.Mistaken` as the exact condition). One stored key other than 0 is enough
  (`BTreeRun.RemoveTakesOther`).
- **`build_gf_tables`** accepts an even polynomial of degree m as it accepts a primitive one, but then misses element 3
  (`BchTables.EvenMisses`).
- **`csum_partial`** over two pieces stands for the whole exactly when the first piece has even length or the sum of the
  second is a multiple of 257 (`Checksum.CsumPieces`, `Checksum.OddPieceFails`).
- **`async_synchronize_cookie_domain`**: when the wait ends, all calls before the cookie are done exactly when none of them
  that found no memory, or too many entries, is still being run by its caller (`Async.LowestMeansDone`,
  `Async.DirectNotAwaited`). That nothing with a smaller cookie appears later holds exactly for cookies already issued and for
  scopes that can receive no more calls (`Async.StableIffIssued`).
- **`proc_dointvec`**: a vector that is printed and written back is restored whatever was there before exactly when its text
  without the newline fits the buffer and a page (`Sysctl.RestoredIff`). For bitmaps the page does not matter: the text is
  taken in several calls (`SysctlPages.WriteAll`). What lies behind the first 4095 characters of a written vector is reported
  as taken but never read (`SysctlNumbers.BehindPage`).

## Model

| member | source | states |
|---|---|---|
| BTree.Head.constructor | lib/btree.c:177-181 | an empty tree stands for the empty map |
| BTree.Head.Insert | lib/btree.c:511-516 | -ENOMEM exactly when fewer allocations succeed than there are full nodes in a row from the leaf of the key upwards, counting a new root when all are full; then the map is unchanged, and otherwise it gains exactly the new pair; the invariant is kept; no BUG_ON fires |
| BTree.Head.InsertLevel | lib/btree.c:449-509 | one level gains the pair with every interval and health flag kept, also when the key pointer lies in a node of a lower level; fails exactly under that condition, counted from this level, and leaves the level as it was |
| BTree.Head.SplitFull | lib/btree.c:465-493 | room is made above first, then the node is split and the key's node has room; fails exactly when an allocation that is needed does, and changes nothing then |
| BTreeHome.ShortAt | lib/btree.c:461-467 | at the node that the descent finds the condition is decided by the tree before the call; nothing is needed exactly when that node has room |
| BTreeHome.ShortAbove | lib/btree.c:465-479 | a full node needs one node and what the level above needs for the key handed up |
| BTreeRun.EnoughMemory | lib/btree.c:449-479 | one allocation for each level and one more are enough in every tree |
| BTree.Head.Grow | lib/btree.c:414-431 | a new root over the old one under its smallest key |
| BTree.Head.FindLevel | lib/btree.c:389-412 | finds the node of a level whose interval owns the key; only separators above are lowered, none when the key was owned already; no zero appears among keys and separators unless it is the key |
| BTree.Head.GetPos | lib/btree.c:364-374 | the first position whose key is not above the key |
| BTree.Head.GetFill | lib/btree.c:376-384 | the number of pairs in the node |
| BTree.Head.Remove | lib/btree.c:592-637 | a stored key: returns its value and the map loses exactly that key; no BUG_ON fires. Another key: NULL and the same map, unless the slot behind the keys of its leaf compares equal; then the next greater key goes, or, with nothing stored, the pair in front of the leaf is cleared; the value returned is the one in that slot, NULL unless the leaf is full |
| BTreeAbsent.MistakenAt | lib/btree.c:606-610 | whether that happens, as a condition on the tree before the call |
| BTreeAbsent.NextPair | lib/btree.c:606-618 | the pair that goes then has the least key above the one asked for |
| BTree.Head.RemoveLevel | lib/btree.c:592-628 | one level loses exactly the pair pointed at, with the invariant kept on it and above, even though the key pointer may lie in the node being shifted |
| BTree.Head.Rebalance | lib/btree.c:541-590 | a node below half, or empty, ends merged, removed or left alone, with the level's pairs and health kept |
| BTree.Head.RebalanceThin | lib/btree.c:557-582 | the parent entry found is the one of the child, so that BUG_ON does not fire, and the choice of sibling keeps the invariant |
| BTree.Head.Merge | lib/btree.c:521-539 | pairs move left, pointers are swapped, the entry is removed one level up through a pointer into the parent, and the level keeps its pairs |
| BTree.Head.Shrink | lib/btree.c:433-447 | the only child becomes the root; BUG_ON does not fire |
| BTree.Head.Lookup | lib/btree.c:242-269 | agrees with the map on every key |
| BTree.Head.Update | lib/btree.c:272-301 | succeeds exactly for a present key, or for key 0 when its leaf has an unused slot, and changes exactly that key |
| BTree.Head.Last | lib/btree.c:208-222 | the greatest stored pair, nothing exactly for the empty map |
| BTree.Head.GetPrev | lib/btree.c:312-361 | terminates with the greatest pair below the key, or nothing, except exactly when it wraps around; never without zero keys and separators |
| BTreeRun.Run | lib/btree.c:242-638 | over every list of operations the map is the replay of the operations that did not fail, an operation fails exactly when the tree before it needs more allocations than succeed, and a run that never names key 0 leaves no zero key or separator |
| BTreeRun.RunThenPrev | lib/btree.c:312-361 | after any run from the empty tree without key 0, the predecessor search returns nothing exactly when no smaller key is stored, and otherwise the greatest smaller pair |
| BTreeRun.UpdateFindsZero | lib/btree.c:272-301 | with one key stored, other than 0, updating key 0 adds a pair |
| BTreeRun.RemoveTakesOther | lib/btree.c:592-637 | with one key stored, other than 0, removing key 0 empties the map |
| BTreeRun.ChildKeys | lib/btree.c:389-412 | in every valid tree child i is live, not empty and holds keys from separator i up to separator i - 1, in falling order |
| BTreeRun.OneParent | lib/btree.c:541-559 | in every valid tree each node but the root hangs off exactly one pair, one level up |
| BTreeRun.NotAllSingle | lib/btree.c:583-589 | in every valid tree an inner node with two children or more has one that holds two pairs or more |
| BTreeRun.NeighboursHoldThree | lib/btree.c:583-589 | with four or five pairs per node neighbouring children of a valid tree hold three pairs together |
| BTreeKeys.LongCmp | lib/btree.c:104-115 | the comparison of word arrays is the comparison of the numbers they stand for |
| BTreeKeys.DecKey | lib/btree.c:136-147 | the decrement with borrow is minus one, and from zero it is the greatest key |
| BTreeSound.ReachSound | lib/btree.c:541-628 | for four, five or an even number of pairs, every run on node sizes keeps all leaves on one level, no node below the root empty, and two children below an inner root |
| BTreeSound.NeverBreaksIff | lib/btree.c:389-628 | on sizes, no run empties an inner root exactly for those numbers of pairs |
| BTreeSound.TwoSingleLeaves | lib/btree.c:541-590 | from six pairs on a run reaches two neighbouring leaves with one key each |
| BTreeSound.AlwaysThreeIff | lib/btree.c:541-590 | on sizes, neighbours always hold three entries together exactly below six pairs |
| BTreeOdd.OddBreaks | lib/btree.c:449-628 | for every odd number of pairs from seven on, a run from the empty tree ends in an inner root without entries |
| BTreeRealize.RealizeRun | lib/btree.c:449-628 | every run on sizes is the run of a list of keys of the same length, each inserted while absent or removed while present |
| BTreeExact.ProjectRun | lib/btree.c:449-628 | every run of keys is a run on sizes |
| BTreeExact.BreaksIff | lib/btree.c:389-628 | the broken root is reached by some list of keys exactly when the number of pairs is odd and seven or more |
| BTreeExact.SiblingsIff | lib/btree.c:583-589 | in every tree reached by keys neighbours hold three entries together exactly when there are fewer than six pairs |
| BTreeExact.ZeroSeparator | lib/btree.c:312-361 | for every node size n a run reaches a root with separator 0 over a tree without key 0, on which `btree_get_prev` of the smallest key, 1, gives the greatest key, n |
| BchTables.BuildGfTables | lib/bch.c:1121-1144 | succeeds exactly for a polynomial of degree m whose powers of X do not return to one too early; the table of powers is right whenever it does, and with an odd polynomial the field is primitive and the other table has the logarithms |
| BchTables.EvenMisses | lib/bch.c:1121-1144 | with an even polynomial no power of X is 3 |
| BchTables.Modulo | lib/bch.c:324-332 | terminates with v mod 2^m - 1 for every v |
| BchTables.Deg | lib/bch.c:343-347 | the degree, -1 exactly for zero |
| BchTables.GfMul | lib/bch.c:363-368 | the field product, also with zero operands |
| BchTables.GfSqr | lib/bch.c:370-373 | the field square |
| BchTables.GfDiv | lib/bch.c:375-380 | times the divisor it is the dividend |
| BchTables.GfInv | lib/bch.c:382-385 | times the element it is one |
| BchTables.APow | lib/bch.c:387-390 | the power of X for every exponent |
| BchTables.ALog | lib/bch.c:392-395 | the exponent of which the element is the power |
| BchTables.AIlog | lib/bch.c:397-400 | the exponent of the inverse |
| Galois.MulIsProduct | lib/bch.c:363-368 | the field product is congruent to the carry-less product modulo the polynomial |
| Galois.AlphaOnto | lib/bch.c:1121-1144 | every non-zero element is a power of X below 2^m - 1 |
| Galois.AlphaDistinct | lib/bch.c:1121-1144 | those powers are distinct |
| BchParity.ParityWordIs | lib/bch.c:349-359 | the multiply-and-mask word trick is the parity of the set bits, for every 32-bit word |
| BchGauss.Gauss | lib/bch.c:500-538 | elimination keeps the solution set and ends in echelon form with the free columns listed |
| BchGauss.Rewrite | lib/bch.c:539-550 | fails exactly for inconsistent rows and otherwise puts the free columns in place |
| BchGauss.Substitute | lib/bch.c:561-567 | back substitution gives the one solution |
| BchGauss.SolveLinearSystem | lib/bch.c:500-570 | returns nsol exactly when the original equations have exactly nsol solutions, then listing all of them without repeats, and 0 otherwise |
| BchTranspose.Transpose | lib/bch.c:596-606 | the masked swaps transpose the 16 by 16 bit matrix |
| BchAffine.LinearXor | lib/bch.c:572-575 | X^4 + aX^2 + bX is linear over GF(2) |
| BchAffine.RootIffSat | lib/bch.c:576-608 | the roots are the solutions of the transposed system |
| BchAffine.FindAffine4Roots | lib/bch.c:576-608 | lists all roots when there are exactly four, and returns 0 otherwise |
| BchEval.Factor | lib/bch.c:613-762 | p(x) = (x + r) q(x) + p(r) |
| BchEval.RootBound | lib/bch.c:613-762 | a polynomial has at most as many roots as its degree |
| BchRoots.FindPolyDeg1Roots | lib/bch.c:613-623 | the logarithm of the inverse root, exactly when the root is not zero |
| BchTrace.TraceOfPower | lib/bch.c:1189-1198 | one of the first m powers of X has trace other than zero |
| BchTrace.TraceBit | lib/bch.c:1189-1198 | the trace is 0 or 1 |
| BchTrace.Solvable | lib/bch.c:1199-1216 | with trace zero z^2 + z = u has a solution |
| BchDeg2.BuildDeg2Base | lib/bch.c:1183-1218 | always succeeds on a primitive field, and each entry solves z^2 + z = X^i up to an element that is no z^2 + z |
| BchDeg2.BaseSolves | lib/bch.c:642-654 | with such a table the sum of entries selected by u solves z^2 + z = u whenever anything does |
| BchRoots.BaseSum | lib/bch.c:648-654 | the loop over the set bits is that sum |
| BchRoots.FindPolyDeg2Roots | lib/bch.c:628-665 | distinct logarithms of inverse roots, and with the table two of them exactly when there are two roots and none is zero |
| BchQuartic.CubicFactor | lib/bch.c:683-686 | (X + a)(X^3 + aX^2 + bX + c) is affine |
| BchQuartic.FindPolyDeg3Roots | lib/bch.c:670-698 | distinct logarithms of inverse roots, three exactly when there are three roots and none is zero, otherwise none |
| BchQuartic.QuarticShift | lib/bch.c:721-737 | X = z + e removes the linear term |
| BchQuartic.Reciprocal | lib/bch.c:738-745 | Y = 1/z makes it affine |
| BchQuartic.FindPolyDeg4Roots | lib/bch.c:703-762 | distinct logarithms of inverse roots, four exactly when there are four roots and none is zero, otherwise none |
| BchRoots.AllFound | lib/bch.c:613-762 | as many root logarithms as the degree are all roots |
| BchPoly.PolyLogRep | lib/bch.c:767-775 | the logarithms of the polynomial made monic |
| BchPoly.PolyMod | lib/bch.c:780-811 | old a = q (b / lead) + r coefficient by coefficient, q in the upper slots of the same array, with the degree of r below that of b and exact |
| BchPoly.PolyDiv | lib/bch.c:816-829 | returns that q |
| BchMod8.BuildEntry | lib/bch.c:1164-1175 | one table row is the byte times X^deg modulo the generator |
| BchMod8.BuildMod8Tables | lib/bch.c:1149-1178 | entry (b, i) is i X^(8b + deg) modulo the generator, for every generator with its top bit set |
| BchEncode.SwapBit | lib/bch.c:153-158 | with swapping on, the bits of a byte are turned round, and otherwise they stay |
| BchEncode.MessageSpells | lib/bch.c:164-182 | what the encoder takes in has bit j of byte n, from the top or with swapping from the bottom, as coefficient 8 n + j from the highest one on |
| BchEncode.SpellsUnique | lib/bch.c:164-182 | no other polynomial has |
| BchEncode.AbsorbIsRemainder | lib/bch.c:164-182 | byte-at-a-time encoding is the polynomial remainder of seed and message |
| BchEncode.AbsorbSpelled | lib/bch.c:164-182 | the byte loop gives the remainder of the seed and the polynomial that the data spell |
| BchEncode.AbsorbConcat | lib/bch.c:229-241 | encoding in pieces is encoding the whole |
| BchEncode.EncodeUnaligned | lib/bch.c:164-182 | the byte loop on the word array |
| BchEncode.EncodeWords | lib/bch.c:276-312 | four bytes at a time through four tables is the byte loop |
| BchEncode.LoadEcc8 | lib/bch.c:187-204 | any stored bytes to words, bit by bit, with the swapping and the zero padding; bytes that stand for a remainder give the words of the remainder |
| BchEncode.StoreEcc8 | lib/bch.c:209-226 | words to stored bytes |
| BchEncode.BchEncode | lib/bch.c:242-321 | for every length, alignment and stored bytes, also with bits set past ecc_bits, the words become the remainder of the polynomial that old words and data spell; for stored bytes that stand for a remainder it is the remainder modulo the generator, in the words and in the stored bytes |
| BchEncode.AbsorbWide | lib/bch.c:164-182 | the byte loop on all bits of the row is the one on the remainder times a power of X |
| BchWide.TablesWide | lib/bch.c:1149-1178 | the tables serve both |
| BchEncode.EccUnique | lib/bch.c:209-226 | the stored bytes are determined by the remainder |
| BchEncode.PiecesEqualWhole | lib/bch.c:229-241 | two calls through the stored bytes give the bytes of one call |
| Resource.Resources.constructor | kernel/resource.c:186-212 | a root without children is a valid tree |
| Resource.Resources.Request | kernel/resource.c:186-212 | reports the root exactly when the range is empty or not inside it, the first overlapping child otherwise, and else links the range in its place |
| Resource.Resources.Overlapped | kernel/resource.c:805-813 | walks the children that overlap and finds the last one inside the new range, or the first that crosses it |
| Resource.Resources.Wrap | kernel/resource.c:815-831 | the children from first to last become children of the new range |
| Resource.Resources.Insert | kernel/resource.c:785-832 | succeeds exactly when the range lies inside the parent and is disjoint from, inside or around every descendant; keeps children sorted, disjoint, contained and linked. Failure changes nothing and reports the parent exactly when the range is empty or reaches outside, otherwise the first child that crosses it among those of the innermost node around it |
| Resource.Resources.Release | kernel/resource.c:214-241 | takes the range out, with its children or putting them in its place, exactly when it is a child of its parent |
| Resource.Resources.InsertRelease | kernel/resource.c:214-241 | releasing what was just inserted restores every field of every node of the tree |
| ResourceTree.CompatibleDescend | kernel/resource.c:789-803 | inside a child, compatibility with everything below is compatibility below that child |
| ResourceTree.SpliceUndone | kernel/resource.c:214-241 | taking out what was spliced in gives the old lists |
| ResourceTree.LinksDetermined | kernel/resource.c:186-241 | the pointers are determined by the lists |
| CrcLsb.TableStep | lib/crc32.c:147-184 | k steps are a shift and the k steps of the low k bits, for every k |
| CrcRemainder.LsbRemainder | lib/crc32.c:147-184 | for every width from 8 on the bit-at-a-time check, read with its bits reversed, is the remainder of seed and message, the bytes starting with their lowest bit |
| CrcLsb.CrcSeed | lib/crc32.c:147-184 | the seed and the data contribute separately |
| CrcLsb.Gf2Multiply | lib/crc32.c:218-230 | the loop is Horner's rule over the bits of one factor |
| CrcProduct.ProductExactly | lib/crc32.c:218-230 | which gives the one word that, read with its bits reversed, is congruent to the carry-less product modulo X^32 plus the polynomial |
| CrcLsb.MultiplySteps | lib/crc32.c:218-230 | multiplying by the k-th power is k steps |
| CrcLsb.GenericShift | lib/crc32.c:244-272 | the square-and-multiply shift is the check of len zero bytes, for every len and polynomial |
| CrcLsb.CrcCombine | lib/crc32.c:232-243 | the check of two pieces from the checks of each |
| CrcSlice.PopulateRows | lib/gen_crc32table.c:38-57 | row k, entry i is byte i followed by k zero bytes |
| CrcSlice.DoWords | lib/crc32.c:107-114 | one round of slicing by 4 or 8 is 4 or 8 bytes |
| CrcSlice.Crc32Body | lib/crc32.c:59-133 | slicing by 4 and by 8 at any alignment is the bit-at-a-time check |
| CrcSlice.TableCrc | lib/crc32.c:147-184 | a byte at a time by table is the bit-at-a-time check |
| CrcSlice.PopulateLsb | lib/crc8.c:52-64 | doubling fills the table with eight steps of every byte |
| CrcSlice.Crc8 | lib/crc8.c:75-82 | folds the table over the data |
| CrcSlice.Crc8Lsb | lib/crc8.c:75-82 | with the reflected table that is the bit-at-a-time check |
| CrcMsb.PopulateMsb | lib/crc8.c:30-43 | doubling fills the table with eight steps of every byte at the top |
| CrcMsb.Crc8Msb | lib/crc8.c:75-82 | with that table the fold is the bit-at-a-time check |
| CrcMsb.GenerateTable | lib/gen_crc64table.c:24-42 | the generated table has eight steps of every byte at the top |
| CrcMsb.Crc64Be | lib/crc64.c:45-57 | the table-driven check is bit-at-a-time division |
| CrcRemainder.MsbRemainder | lib/crc64.c:45-57 | for every width from 8 on bit-at-a-time division gives the remainder of seed and message |
| SysctlText.GetLongPrinted | kernel/sysctl.c:439-485 | a printed number followed by an allowed character or nothing is read back, sign, value and trailer |
| SysctlText.StrToUlNumeral | kernel/sysctl.c:402-421 | a decimal, octal or hexadecimal numeral is read for its value up to the first other character, and refused exactly when the value exceeds a long |
| SysctlText.GetLongNumeral | kernel/sysctl.c:439-485 | such a numeral of up to 20 characters with its sign is read, and what follows it has to be an allowed character or nothing |
| SysctlText.GetLongTooLong | kernel/sysctl.c:451-475 | a longer one is refused whatever it is worth |
| Sysctl.PrintInts | kernel/sysctl.c:570-641 | the tab-separated text and newline, cut at the buffer size |
| Sysctl.WriteInts | kernel/sysctl.c:570-641 | the loop in place stores what `Wrote` says, the entries not reached keep their values, and the characters left are those of `Left` |
| SysctlNumbers.WriteNumbers | kernel/sysctl.c:570-641 | numbers in any notation with any white space, within a page: as many as there is room for are stored, up to one that is no int or has another character behind it and up to anything that is no number; it is an error exactly when such a thing is reached or nothing was stored; without one, the numbers not reached are what is left |
| SysctlNumbers.BehindPage | kernel/sysctl.c:592-600 | texts that agree on the first 4095 characters are stored and reported alike |
| Sysctl.WriteListed | kernel/sysctl.c:570-641 | a list of numbers of any length: those before the first that is no int are stored, as many as there is room for, and it is an error exactly when such a number is reached |
| Sysctl.RestoredIff | kernel/sysctl.c:570-641 | print and write restore every vector of ints, INT_MIN included, over all old values exactly when the text but for its newline fits the buffer and a page |
| Sysctl.IntsRoundTrip | kernel/sysctl.c:570-641 | the two calls, in both cases |
| SysctlBitmap.PrintBitmap | kernel/sysctl.c:1516-1537 | the comma-separated runs and newline, cut at the buffer size |
| SysctlBitmap.WriteBitmap | kernel/sysctl.c:1434-1548 | the loop does what `Written` says: error, bits and the characters left |
| SysctlBitmap.WriteListed | kernel/sysctl.c:1434-1548 | a list of ranges within a page: accepted exactly when each is a range inside the bitmap; then exactly their bits are set at position 0, and added elsewhere; an error changes nothing |
| SysctlRanges.WriteRanges | kernel/sysctl.c:1434-1548 | the same for ranges in any notation, with newlines in front and the separators the source allows |
| SysctlRanges.WriteBadRange | kernel/sysctl.c:1458-1496 | any other character after a number is an error |
| SysctlBitmap.RunsRestore | kernel/sysctl.c:1516-1537 | the runs of a bitmap restore it |
| SysctlBitmap.RunsMaximal | kernel/sysctl.c:1516-1526 | each of them is a maximal run of set bits, and they come in ascending order |
| SysctlPages.LoadCut | kernel/sysctl.c:1462-1496 | a text cut at the page is taken up to the end of some range, and the next call starts with the next one |
| SysctlPages.WriteAll | kernel/sysctl.c:1434-1548 | a list of ranges of any length, written in as many calls as it takes, sets exactly the bits of the ranges |
| SysctlPages.BitmapRoundTrip | kernel/sysctl.c:1423-1552 | print and write restore every bitmap, the empty one included, however long the text |
| Checksum.From32To16 | lib/checksum.c:38-45 | folding keeps the residue modulo 65535 and whether it is zero |
| Checksum.AddWords | lib/checksum.c:70-82 | no carry of the word loop is lost |
| Checksum.DoCsum | lib/checksum.c:47-99 | for every buffer, length and alignment congruent to the sum of little-endian words, and zero exactly for zero data |
| Checksum.StandsExactly | lib/checksum.c:47-99 | which, with the residue, determines the result |
| Checksum.CsumPartial | lib/checksum.c:126-136 | the running sum plus the folded sum of the data, with end-around carry, which stands for both together |
| Checksum.CsumPieces | lib/checksum.c:126-136 | two calls over any pieces stand for the whole exactly when the first has even length or the sum of the second is a multiple of 257 |
| Checksum.EvenExactly | lib/checksum.c:126-136 | the same of the reference sums |
| Checksum.OddPieceFails | lib/checksum.c:126-136 | a pair of one-byte pieces for which they do not |
| Async.StepInv | kernel/async.c:110-216 | every step keeps the pending lists strictly ascending and in agreement with the entries |
| Async.RunInv | kernel/async.c:110-264 | so does every run |
| Async.LowestMeansDone | kernel/async.c:82-105 | when the lowest cookie in progress is c or more, every queued call below c has completed; every call has, exactly when no direct one is running |
| Async.LowestExactly | kernel/async.c:82-105 | and it is c or more exactly when no queued call of the scope below c is left, so that a call can wait for all before itself |
| Async.FullWait | kernel/async.c:275-278 | a wait for everything ends exactly when the list is empty, that is when no queued call of the scope is left |
| Async.Finishes | kernel/async.c:110-147 | every queued call can return and be taken off, and then no list has it |
| Async.Cookies | kernel/async.c:180-197 | each call takes the next cookie, direct ones as well |
| Async.QueuedOnly | kernel/async.c:180-188 | no direct one is, as long as every call finds memory and few enough entries |
| Async.DirectNotAwaited | kernel/async.c:180-188 | a run where a wait ends while a direct call before the cookie is running |
| Async.SynchronizeHolds | kernel/async.c:289-298 | for an issued c, or a scope that can receive no calls, what is done stays done in every continuation |
| Async.StableIffIssued | kernel/async.c:289-298 | for both kinds of scope it stays so exactly then |
| Async.UnregisterCloses | kernel/async.c:258-264 | after unregistering a domain, waits for everything can receive calls exactly through another registered domain |
| Async.Unregistered | kernel/async.c:197-204 | no later call of such a domain is on the global list |
| Async.Scheduler.LowestInProgress | kernel/async.c:82-105 | a cookie of the list that no other is below, or the greatest possible cookie when the list is empty |
| Async.Scheduler.Schedule | kernel/async.c:166-216 | is the queueing step, or the immediate one without memory or with too many entries seen |
| Async.Scheduler.RunEntry | kernel/async.c:110-147 | is the removal step |
| Async.Scheduler.UnregisterDomain | kernel/async.c:258-264 | is the unregistering step |
| BitmapSearch.FindNextZeroArea | lib/bitmap.c:405-428 | the least aligned start from the given one on of so many zero bits, above the size exactly when there is none |
| BitmapSearch.OrdToPos | lib/bitmap.c:823-833 | the position of the set bit of that rank, the size when there is none |
| BitmapSearch.PosToOrd | lib/bitmap.c:797-803 | -1 exactly for positions outside and bits that are not set |
| BitmapSearch.WeightCounts | lib/bitmap.c:797-803 | the rank is the number of set bits before the position |
| BitmapSearch.RankSelect | lib/bitmap.c:797-833 | rank and select undo each other on set bits |
| BitmapSearch.Remap | lib/bitmap.c:867-886 | exactly the images of the bits are set |
| BitmapSearch.MovedExactly | lib/bitmap.c:874-885 | bits outside old stay, as do all when new is empty; the bit of rank n in old goes to the one of rank n modulo the weight in new |
| BitmapSearch.RemapRoundTrip | lib/bitmap.c:867-886 | with equal weights a subset of old goes to new and back unchanged |
| BitmapSearch.Onto | lib/bitmap.c:1031-1057 | bit n is set exactly when relmap has n and orig has the rank of n |
| BitmapRegion.RegOp | lib/bitmap.c:1108-1158 | tests, sets or clears exactly the bits of an aligned region in the word array |
| BitmapRegion.RegionMap.constructor | lib/bitmap.c:1108-1158 | no region is live at the start |
| BitmapRegion.RegionMap.FindFreeRegion | lib/bitmap.c:1174-1185 | takes the lowest free region, -ENOMEM exactly when there is none; live regions stay aligned, inside and disjoint and all other bits are untouched |
| BitmapRegion.RegionMap.AllocateRegion | lib/bitmap.c:1216-1221 | takes the region, -EBUSY exactly when it is not free |
| BitmapRegion.RegionMap.ReleaseRegion | lib/bitmap.c:1199-1202 | frees exactly that region |
| BitmapRegion.RegionMap.AllocateRelease | lib/bitmap.c:1199-1221 | releasing what was just allocated restores the bitmap |
| BitmapRange.Fill | lib/bitmap.c:350-390 | sets or clears exactly the bits of a range, a word at a time |

## Left out

- BTree.Head.Insert: numbers of pairs that are odd and seven or more, which `BTreeExact.BreaksIff` shows to be unsafe.
- BTreeRealize.RealizeRun: the keys are natural numbers without an upper limit; the keys of a run can be renumbered in order, which is not modelled.
- BTreeKeyed.KAdd: allocation failure, which `BTree.Head.Insert` has, is not in the functional form.
- BTreeExact.BreaksIff: is about the functional form; that `BTree.Head` steps exactly as `BTreeKeyed.KStep` is not stated.
- BTree.Head.constructor: destroying and visiting trees, and the mempool.
- BchQuartic.FindPolyDeg4Roots: fields with m below 5 or above 15, which `bch_init` rejects.
- BCH decoding beyond degree 4: syndromes, the error locator, trace factoring and the Chien search.
- Resource.Resources.Insert: a record that is in the tree already, on which the source warns.
- Resource.Resources.Request: a new record with children of its own.
- Resource.Resources.Release: `__release_child_resources`, and ranges as 32-bit numbers.
- CrcSlice.TableCrc: the loops for 1, 2 and 4 bits at a time; `CrcLsb.TableStep` has the step for every number of bits.
- Big-endian CRC32, and the fixed tables of the smaller checks.
- BitmapRegion.RegOp: orders for which the region size overflows an int; words are 32 bits.
- BitmapSearch.Remap: works on bit sequences; a destination that is the source is not modelled.
- BitmapSearch.FindNextZeroArea: areas of no bits, and index overflow.
- BitmapRegion.RegionMap.ReleaseRegion: regions that were not allocated.
- Sysctl.WriteInts: white space across the end of a page, where the count of characters left would wrap around.
- SysctlBitmap.WriteBitmap: failure to allocate the temporary bitmap.
- Async.Scheduler.Schedule: wrap-around of cookies; each locked section is one step.
- Parsing and printing of bitmaps in `lib/bitmap.c`, string sysctls, and the other conversions of integer vectors.
- Locks, RCU, memory barriers and logging.
