# AutoFPGA: address allocation, decoding and resolution

AutoFPGA reads component descriptions and connects them to buses. This project models the
parts of it that carry invariants and proves them for all inputs:

* **The address allocator.** A bus sorts its slaves, searches for the slot width that costs
  the fewest address bits, gives every slave an aligned window above the NULL region, and
  computes a decode mask for each (`Allocator`, `SlotSearch`, `AddressMap`, `AddressWidth`,
  `Plist`). Buses nest, across data widths and addressing modes, and a component's REGBASE is
  the sum of the bases on the way to it (`BusTree`).
* **The decoders derived from it.** The grouping of simple Wishbone slaves (`SubBusPartition`),
  the strobes and `casez` patterns emitted for the groups (`WbDecode`), their clocked return
  paths under the pipelined protocol of section 3.1.3 of the WISHBONE B4 specification
  (`WbReturnPath`), and the generated cachable-address function (`Cachable`).
* **The resolution engines.** Expression trees and their fixpoint (`Expressions`, `Resolution`),
  what their operators compute (`Arithmetic`), `@$` substitution and what it puts where
  (`Substitution`, `Replacement`, `Nesting`), the loop around both (`Reeval`), inheritance between
  nested maps (`Inheritance`), and the ordering of dependent macros (`AccessDefines`).
* **The interrupt allocator** of a programmable interrupt controller (`Pic`).

`Bits` and `BitFields` hold the arithmetic of powers of two, masks and alignment; `Options`
the optional value.

The form follows the source. Vectors sorted and fields written in place are classes
(`Plist.Plist`, `SubBusPartition.WbBus`, `Pic.PicInfo`), loops are methods with invariants, and
each method is proved against a function; the theorems are about those functions. Emitted
Verilog is modelled as what it computes: predicates on an address, and registers stepped at
each clock edge.

## What the proofs found

Where a property does not hold of the code, the model keeps the code, a lemma gives an input
that shows it, and the condition under which it holds is proved.

* The 32-bit sums of the width estimator can wrap, and a wrapped estimate can win the search:
  nine slaves, `AddressWidth.WrapDefeatsSearch`.
* Slaves of a single word are invisible to the estimator but not to the placement, so the search
  can choose a slot two address bits too wide: `AddressWidth.SingleWordsDefeatSearch`.
* A slave of one octet beside others gets mask 0 and answers every address:
  `AddressMap.ExclusiveIff`.
* The SIO mux slices `addr[-1:0]` unless its group has three slaves, and the partition makes
  groups that are too small, or never filled, for exactly the slave counts listed in
  `SubBusPartition.UsableIff`.
* The cachable function is computed in 32 bits, so on a wider bus it answers for the low 32
  address bits only: `Cachable.CachableModulo`, `Cachable.WideBusMisleads`. It slices
  `i_addr[-1:0]` exactly for a memory that no address bit below 32 selects, on a bus of at most
  32 bits one alone on its bus below bridges alone on theirs: `Cachable.SlicesLegalIff`.
* The macro worklist skips an entry after an erase, and tests membership by substring:
  `AccessDefines.SkippedEntryBreaksModel`, `AccessDefines.SubstringBreaksModel`.
* `find_any_unevaluated` keeps only the last map's "changed" flag, so it can stop with
  expressions unresolved: `Resolution.LastMapHidesProgress`, `Resolution.TextHidesProgress`.
  `Resolution.SettlesIff` says exactly for which arrangements it can do so from some sound
  state, which need not be a state of a run from the beginning.
* A slave with neither SLAVE.ORDER nor a name comes before itself in `compare_naddr`, which then
  is no order to sort by: `Plist.BeforeIsStrictWeakOrder`.
* `resolve_ast_expressions` recurses for ever on exactly the maps described by
  `Reeval.RecursionEndsIff`; `subresults_into` loops for ever on a map whose STR names the map
  itself (`Substitution.SelfReferenceLoops`; in general `Nesting.InnerLoopEndsIff`), and stops
  early when a formatted replacement extends the key of a reference before it
  (`Substitution.FormattedHidesReference`).

* A dotted key whose first component is missing finds whatever the map has under `+`, though that
  be no map and so cannot hold the key: `Inheritance.PlusIsConsulted`.

Where the code and its comments differ, the code is followed: `bus_min_address_width` is
documented as a minimum but only raises the starting cap of the search, and is not enforced;
the leftover macros are said to be listed for reference only but are emitted in the same
guarded form as the others.

## Model

| member | source | states |
|---|---|---|
| Bits.ComputeNextLg | sw/bitlib.cpp:48-54 | the loop returns the least r with v <= 2^r |
| Bits.NextLgLeast | sw/bitlib.cpp:48-54 | nextlg is the lower adjoint of the power of two: nextlg(v) <= r if and only if v <= 2^r |
| SlotSearch.MinAddrSizeBytes | sw/plist.cpp:384-402 | the width estimate, with every operation wrapping at 2^32 and slaves of width 0 skipped |
| SlotSearch.MinAddrSizeOctets | sw/plist.cpp:404-416 | the estimate scaled to octets, with the minimum of two words per slot and NULLSZ truncated to words |
| SlotSearch.Search | sw/plist.cpp:485-539 | the search loop computes ChosenSlot, the specification the optimality theorem is about |
| SlotSearch.SearchIsOptimal | sw/plist.cpp:485-539 | as long as no sum that decides anything wraps, the slot found gives the least total width over the whole searched range, and any wider slot (fewer decoded bits) costs at least one more address bit; the bus's minimum width plays no part |
| SlotSearch.EstimateMono | sw/plist.cpp:384-416 | the estimated width is monotone in the minimum slot width |
| SlotSearch.NoWrap | sw/plist.cpp:384-402 | the 32-bit estimator equals the unbounded one as long as its final sum is below 2^32 |
| Allocator.AscendingEnd | sw/plist.cpp:551-583 | slaves placed in ascending order waste nothing but one final rounding: the end is NULLSZ plus the sum of sizes, aligned up once |
| Allocator.EndBelowTwice | sw/plist.cpp:551-583 | in any order the placement ends below twice NULLSZ plus the sum of sizes |
| Allocator.PackingBound | sw/plist.cpp:551-583 | no disjoint placement above NULLSZ, aligned or not, ends below NULLSZ plus the sum of sizes |
| Allocator.AscendingIsOptimal | sw/plist.cpp:551-583 | ascending placement uses no more address bits than any disjoint placement can |
| Allocator.AnyOrderNearOptimal | sw/plist.cpp:551-583 | any order uses at most one address bit more than any disjoint placement can |
| AddressMap.MaskByTrimming | sw/plist.cpp:591-608 | shifting -1 and trimming to the bus leaves ones exactly from the slot to the bus width, whatever the register's width |
| AddressMap.DecodeExact | sw/plist.cpp:551-608 | the masked word address equals the masked base if and only if the octet address lies in the slave's aligned window |
| AddressMap.Routes | sw/plist.cpp:551-608 | every octet of a slave's window is on the bus, is decoded to that slave and no other, and truncates to its offset |
| AddressMap.NullRegionAndMasks | sw/plist.cpp:551-608 | nothing below NULLSZ is decoded, and every mask is nonzero unless the bus has one slave and no NULL region |
| AddressMap.ExclusiveIff | sw/plist.cpp:551-608 | on two or more slaves decoding is exclusive over the whole bus if and only if no slave is a single octet |
| AddressMap.LoneBus | sw/plist.cpp:433-446 | a lone slave without a NULL region gets a bus of exactly its own size, every address of which is its own |
| AddressMap.EmptyBus | sw/plist.cpp:428-433 | a bus without slaves has at least as many addresses as the NULL region has octets, and fewer than twice as many |
| AddressWidth.EstimateIsLowerBound | sw/plist.cpp:384-416 | the estimate never exceeds the width the placement then takes |
| AddressWidth.EstimateIsExact | sw/plist.cpp:384-416 | the word-scaled estimate equals the octet-scaled width when every slave has an address bit and NULLSZ is whole words |
| AddressWidth.AssignedWidthIsLeast | sw/plist.cpp:485-638 | the width assigned is the real width of the chosen slot, the least over all slots, strictly less than for any wider slot |
| AddressWidth.SortedAssignmentIsOptimal | sw/plist.cpp:483-638 | sorted by width, the assigned bus is as narrow as any disjoint placement allows |
| AddressWidth.AnyOrderCostsOneBit | sw/plist.cpp:245-285 | SLAVE.ORDER costs at most one address bit over any disjoint placement |
| AddressWidth.OrderCanCostABit | sw/plist.cpp:245-285 | that bit is real: an ordered list of three slaves that needs 5 bits where 4 suffice |
| AddressWidth.SingleWordsDefeatSearch | sw/plist.cpp:391-402 | single-word slaves, skipped by the estimator, make the search choose a slot that costs 9 bits instead of 7 |
| AddressWidth.WrapDefeatsSearch | sw/plist.cpp:384-402 | nine slaves whose estimate wraps at 2^32, so that the bus takes 33 bits instead of 29 |
| Plist.BeforeIsStrictWeakOrder | sw/plist.cpp:245-285 | compare_naddr is irreflexive on exactly the slaves with an order or a name, and on those it is transitive and so is its incomparability |
| Plist.SortListFacts | sw/plist.cpp:483 | sorting permutes the slaves and, if each has an order or a name, leaves none before an earlier one |
| Plist.SortedSlaves | sw/plist.cpp:245-285 | in the sorted list no ordered slave precedes an unordered one; the ordered ones ascend in SLAVE.ORDER, the others in address width and then in name, by the first differing character or proper prefix |
| Plist.UnorderedBusIsOptimal | sw/plist.cpp:483-638 | with no SLAVE.ORDER the bus gets no more address bits than any disjoint placement of its slaves needs |
| Plist.Plist.Sort | sw/plist.cpp:483 | the vector becomes the sorted list |
| Plist.Plist.AssignAddresses | sw/plist.cpp:419-642 | the slaves end up sorted, and every p_base, p_mask and the bus width are those of AddressMap.LayoutOf, in all four cases |
| Plist.Plist.Place | sw/plist.cpp:551-596 | the placement loop, in 64-bit masking arithmetic, computes the aligned bases and untrimmed masks |
| Plist.Plist.Trim | sw/plist.cpp:599-638 | the second loop trims the masks to the bus and sets the bus width |
| BusTree.SubBusWidth | sw/subbus.cpp:66-96 | a bridge's width in the parent's units is SlaveWidth, and its NADDR times the parent's word is exactly the nested bus |
| BusTree.GatherPeripherals | sw/gather.cpp:65-92 | the recursion appends the whole tree's entries in order, each with the REGBASE of its level added to its parents' |
| BusTree.RegbaseIsBaseAddress | sw/plist.cpp:369-382 | every gathered REGBASE is the address get_base_address finds by searching down from the same bus |
| BusTree.RegbaseReachesLeaf | sw/gather.cpp:65-92 | for any tree of buses, driving the root with a leaf's REGBASE plus an offset in its window, decoding level by level, reaches exactly that leaf with exactly that offset |
| BusTree.RegistersReached | sw/plist.cpp:115-128 | every register k below NADDR of every gathered leaf is reached from the root at REGBASE plus k words of its bus, and arrives at that leaf as offset k words |
| BusTree.EntryWindow | sw/plist.cpp:115-128 | a leaf's window holds its NADDR words and is less than twice as large; a bridge's is as large as the bus behind it |
| BusTree.RegbaseFits | sw/gather.cpp:65-92 | every gathered address lies on the bus it was gathered from, so 32-bit sums do not wrap below a bus of at most 32 octet address bits |
| BusTree.LeafWindowsDisjoint | sw/gather.cpp:65-92 | windows of different leaves never overlap, wherever in the tree they are |
| Cachable.PrintCachable | sw/bldcachable.cpp:57-109 | the recursion, with submask and subaddr of 32 bits, emits the lines Tests describes |
| Cachable.OneLevel | sw/bldcachable.cpp:85-92 | matching a combined mask is matching the parents' bits and, on the truncated address, the slave's own decoder |
| Cachable.CachableModulo | sw/bldcachable.cpp:57-109 | on a bus of any width, the generated function is true of an address if and only if some address with the same low 32 bits decodes, level by level, to a memory |
| Cachable.CachableIffMemory | sw/bldcachable.cpp:57-109 | on a bus of at most 32 octet address bits it is true of an address if and only if decoding that address level by level ends at a memory |
| Cachable.CachableIff | sw/bldcachable.cpp:57-92 | on a bus of any width it is right everywhere if and only if no memory shares its low 32 address bits with something that is not one |
| Cachable.WideBusMisleads | sw/bldcachable.cpp:57-92 | a bus of 33 bits on which it takes address 2^32 for the memory at 0 |
| Cachable.SlicesLegalIff | sw/bldcachable.cpp:91-107 | an emitted slice is empty if and only if no address bit below 32 selects some memory |
| Cachable.MaskBitsLeast | sw/bldcachable.cpp:87-106 | the emitted slice has room for the mask and not one bit more |
| Cachable.BlindIsLone | sw/bldcachable.cpp:91-107 | on a bus of at most 32 bits that is a memory alone on its bus below bridges alone on theirs |
| SubBusPartition.WbBus.CountSio | sw/bus/wb.cpp:393-416 | the counters are the numbers of SINGLE, DOUBLE and all slaves |
| SubBusPartition.WbBus.AllocateSubbus | sw/bus/wb.cpp:161-240 | the three lists, the bridges created and both flags are those of the specification Allocate |
| SubBusPartition.WbBus.Scan | sw/bus/wb.cpp:209-230 | erasing while scanning, with an index that wraps below zero and back, distributes the list as Members says |
| SubBusPartition.PartitionConserves | sw/bus/wb.cpp:209-230 | every slave ends up in exactly one of the three lists |
| SubBusPartition.PartitionKeepsOrder | sw/bus/wb.cpp:209-230 | each list keeps the slaves' relative order |
| SubBusPartition.GroupKinds | sw/bus/wb.cpp:209-230 | a group that exists holds exactly the slaves of its kind |
| SubBusPartition.AllocatedSizes | sw/bus/wb.cpp:161-230 | beside other slaves the SIO group holds all the SINGLEs and the DIO group all the DOUBLEs plus the SIO bridge |
| SubBusPartition.WhoLeavesTheBus | sw/bus/wb.cpp:175-230 | exactly which components leave the bus for the SIO or the DIO group, by the numbers of slaves of each kind |
| SubBusPartition.BridgesPlaced | sw/bus/wb.cpp:195-230 | a created bridge is on the bus its group was taken from, that to the SIO group in the DIO group if there is one |
| SubBusPartition.BridgesLast | sw/bus/wb.cpp:195-230 | it stands there behind every component |
| SubBusPartition.FlagsIff | sw/bus/wb.cpp:175-190 | the generator's two flags say that all slaves are SINGLE, and that all are SINGLE or DOUBLE and one is DOUBLE |
| SubBusPartition.CountIsNumber | sw/bus/wb.cpp:393-416 | a count is the number of list positions that hold a slave of the kind |
| SubBusPartition.UsableIff | sw/bus/wb.cpp:175-207 | exactly which counts of slaves give groups the emitted logic can decode |
| WbDecode.CountUnusedLsbs | sw/bus/wb.cpp:1014-1019 | the shift loop counts the trailing zeros of the combined mask |
| WbDecode.SliceIsWholeField | sw/bus/wb.cpp:1014-1022 | the slice of the DIO mux runs from the lowest decoded bit to the top of the bus, repaired also when one bit is decoded |
| WbDecode.DecodersAgree | sw/bus/wb.cpp:1079-1168 | the emitted strobe, the casez pattern and the allocator's mask test agree on every address of a DIO group |
| WbDecode.OneStrobe | sw/bus/wb.cpp:1141-1168 | two DIO strobes never coincide |
| WbDecode.MuxFollowsStrobe | sw/bus/wb.cpp:1079-1104 | on every address that strobes a slave the mux selects k if and only if strobe k is the one asserted |
| WbDecode.MuxIdle | sw/bus/wb.cpp:1079-1104 | on every other address it rests at the first slave |
| WbDecode.SioSliceLegalIff | sw/bus/wb.cpp:903-915 | the SIO mux slice has its ends in order if and only if the group has three or more slaves |
| WbDecode.SioDecode | sw/bus/wb.cpp:911-990 | in such a group strobe j holds exactly at address j, and the mux reads that slave, or the last one past the end |
| WbReturnPath.AckExactly | sw/bus/wb.cpp:1046-1067 | over every run, an acknowledgment comes in cycle t if and only if a request of cycle t-2 was not aborted in t-2 or t-1; none follows a dropped cycle |
| WbReturnPath.AcksMatchRequests | sw/bus/wb.cpp:1046-1067 | there are never more acknowledgments than requests, and exactly as many when nothing is aborted |
| WbReturnPath.DataOfStrobedSlave | sw/bus/wb.cpp:1069-1130 | the data two cycles after a strobe is what the strobed slave drives one cycle after it, whatever other requests surround it |
| WbReturnPath.DoubleContract | sw/bus/wb.cpp:1046-1168 | a request in slave k's window strobes k and returns its acknowledgment and word two cycles later |
| WbReturnPath.SingleContract | sw/bus/wb.cpp:888-952 | a strobed SINGLE slave's word and acknowledgment are registered one cycle later |
| WbReturnPath.SioAckExactly | sw/bus/wb.cpp:888-896 | over every run, the SIO group acknowledges in a cycle if and only if it was strobed in the one before |
| WbReturnPath.SioAcksMatchStrobes | sw/bus/wb.cpp:888-896 | its acknowledgments up to any cycle number exactly the strobes before it |
| WbReturnPath.NestedReturn | sw/bus/wb.cpp:875-1130 | an SIO group inside a DIO group returns the addressed SINGLE slave's word exactly two cycles after any request |
| Pic.AddsConsistent | sw/autofpga.cpp:166-230 | after any sequence of adds no number below PIC.MAX is given out twice |
| Pic.ExplicitListed | sw/autofpga.cpp:194-230 | a number is taken after any adds if and only if it is in range and some add asked for it |
| Pic.UnnumberedListed | sw/autofpga.cpp:166-190 | every add without a number is listed unless the list has grown to PIC.MAX, and there are never more than PIC.MAX of them |
| Pic.NextUnnumbered | sw/autofpga.cpp:166-190 | the next one is listed if and only if the list is shorter than PIC.MAX |
| Pic.AssignIdsCorrect | sw/autofpga.cpp:166-268 | explicit numbers stay; the others get ascending numbers in arrival order, each the least still free, and one is left out only if all are taken |
| Pic.AssignedCount | sw/autofpga.cpp:234-268 | the number of interrupts assigned is the lesser of PIC.MAX and the number listed |
| Pic.PicInfo.AddUnnumbered | sw/autofpga.cpp:166-190 | the list grows by one unnumbered interrupt unless it is full or has no name |
| Pic.PicInfo.AddNumbered | sw/autofpga.cpp:194-230 | the list, table and counters agree after a numbered add, which is dropped exactly when out of range, full or taken |
| Pic.PicInfo.AssignIds | sw/autofpga.cpp:234-268 | the nested loops assign as AssignFrom specifies and keep list, table and counters in agreement |
| Pic.PicInfo.GetInt | sw/autofpga.cpp:273-277 | an interrupt is returned exactly for the numbers some listed interrupt has, and it is that interrupt |
| AccessDefines.ContainsJoined | sw/ifdefs.cpp:190-194 | the substring test finds exactly the macros contained in some defined one |
| AccessDefines.MembershipTest | sw/ifdefs.cpp:190-194 | when no macro name contains another, the substring test is membership |
| AccessDefines.BuildAccessDefines | sw/ifdefs.cpp:88-247 | the nested loops compute Resolve, with the entry skipped after each erase |
| AccessDefines.ResolveOrders | sw/ifdefs.cpp:159-247 | every emitted block follows the blocks that define its dependencies, every entry is emitted or left over, and each one left over has a dependency nothing emitted defines |
| AccessDefines.EmittedFileIsLeastModel | sw/ifdefs.cpp:88-322 | with any subset of the independent defines commented out, running the emitted file top to bottom defines exactly the least model of the dependency rules |
| AccessDefines.FileIsComplete | sw/ifdefs.cpp:159-322 | every component is in the emitted file with its own guards and macros, and nothing else is |
| AccessDefines.OrderedPartIsStable | sw/ifdefs.cpp:159-247 | with negated dependencies too, the ordered part defines exactly what the entries provide whose guards hold in the end: no later define makes an earlier guard wrong |
| AccessDefines.SkippedEntryBreaksModel | sw/ifdefs.cpp:232-240 | four components for which the skipped entry leaves a macro undefined |
| AccessDefines.SubstringBreaksModel | sw/ifdefs.cpp:190-194 | two components for which the substring test leaves a macro undefined |
| Expressions.DefineAgrees | sw/ast.cpp:82-87 | defining from partial knowledge keeps the expression, and once fully defined it evaluates to its value in the full scope |
| Expressions.ChangeFlagIsExact | sw/ast.cpp:157-166 | define reports a change if and only if it changed the tree |
| Expressions.LateBinding | sw/ast.cpp:94-175 | a copy defined in the heir's scope has the value under that scope, however much of the original had been resolved |
| Arithmetic.SumsAndProducts | sw/ast.cpp:50-75 | of any two operands, sum, difference and product are the integer ones wrapped to 64 bits, exact whenever they fit, and subtraction undoes addition |
| Arithmetic.Division | sw/ast.cpp:50-75 | quotient and remainder exist for the same operands and are those of division toward zero, the remainder smaller than the divisor and signed like the dividend |
| Arithmetic.Shifts | sw/ast.cpp:50-75 | a left shift multiplies by a power of two and wraps, a right shift divides by it and rounds down |
| Arithmetic.BitwiseOperators | sw/ast.cpp:50-75 | every bit of or, and, exclusive or and complement is the boolean operation on the operands' bits |
| Arithmetic.LongsWithSameBits | sw/ast.cpp:50-75 | and those 64 bits determine the value |
| Arithmetic.Comparisons | sw/ast.cpp:50-75 | the six comparisons are one total order, that of the integers |
| Arithmetic.LogicAndConditional | sw/ast.cpp:50-124 | and, or and not are logical on nonzero; the conditional evaluates its left arm on nonzero and otherwise its right, and only that; an unknown operator gives its left operand |
| Arithmetic.ValuesFit | sw/ast.cpp:50-124 | an expression of 64-bit numbers evaluates to a 64-bit number |
| Arithmetic.LongIsOnly | sw/ast.cpp:50-75 | wrapping gives the one 64-bit value congruent to its argument |
| Arithmetic.Int32IsOnly | sw/ast.cpp:157-166 | storing a value as an int gives the one 32-bit value congruent to it |
| Resolution.ResolutionSound | sw/kveval.cpp:164-229 | over every run, whatever the order of visits, an expression replaced by an integer has the value of recursive evaluation in its scope |
| Resolution.SettledIsComplete | sw/kveval.cpp:164-229 | a state no visit changes has resolved every entry that has a value |
| Resolution.OrderIndependent | sw/kveval.cpp:164-229 | two runs that have settled resolved the same entries to the same integers |
| Resolution.VisitsTerminate | sw/kveval.cpp:164-213 | every visit that changes something uses up an unresolved tree or an undefined identifier |
| Resolution.FindAnyUnevaluated | sw/kveval.cpp:215-229 | the loop ends, keeps the state sound and every integer, leaves the last map's entries stable, and ends settled if nothing is needed late, given what is still text at the start |
| Resolution.SettlesIff | sw/kveval.cpp:164-229 | over all sound states in which only given entries may still be text, every round that ends the loop has settled if and only if no entry outside the last map needs one outside it that is visited later and may still be text or has to be worked out from others |
| Resolution.LastMapHidesProgress | sw/kveval.cpp:221-228 | with several maps it can end though an entry that has a value is unresolved |
| Resolution.TextHidesProgress | sw/kveval.cpp:186-228 | it can also end so when the later entry is a number still held as text |
| Substitution.SubresultsInto | sw/kveval.cpp:231-323 | both loops end on every string of regular references, when no text a name stands for holds a reference or ends in an at sign and formats print integers in digits, and compute Substitute |
| Substitution.SubstituteShrinks | sw/kveval.cpp:231-323 | substitution never adds a reference, uses one up for every change it reports, and keeps the references regular |
| Substitution.QuietIsKept | sw/kveval.cpp:231-323 | a string with no resolvable reference is left alone and reported unchanged |
| Replacement.DecimalReads | sw/kveval.cpp:309-317 | the numeral put in place of a reference reads back as the value, signed only if negative and without a leading zero |
| Replacement.ReplacesReference | sw/kveval.cpp:231-323 | of a reference with any key, in parentheses or not, with or without a format, between any texts: the surroundings stay, and in its place stands the formatted value, the text or the numeral that its name stands for, or it stays if there is none |
| Replacement.NoKeyIsKept | sw/kveval.cpp:291-319 | a mark without a key is left alone |
| Replacement.UnclosedStops | sw/kveval.cpp:251-260 | a format without its closing bracket stops the program |
| Substitution.ExitIsQuiet | sw/kveval.cpp:238-322 | no reference that could be resolved remains at exit, if no reference abuts the key of an earlier one or none has a format |
| Substitution.SilentMeansQuiet | sw/kveval.cpp:231-323 | without formats a string is reported changed if and only if it changed, and if and only if something in it could be replaced |
| Substitution.PassedStays | sw/kveval.cpp:243-319 | in a string whose references do not abut, a replacement leaves every reference before it as it was read |
| Substitution.SelfReferenceLoops | sw/kveval.cpp:306-309 | the inner loop never ends on a map whose STR refers to the map |
| Nesting.InnerLoopEndsIff | sw/kveval.cpp:243-319 | with texts that hold references themselves, the inner loop ends if and only if the references of the string, and those of the texts they bring in, nest to some finite depth |
| Substitution.FormattedHidesReference | sw/kveval.cpp:295-305 | a formatted replacement is not reported, so a reference whose key it extends stays unresolved |
| Reeval.ResolveAst | sw/kveval.cpp:341-397 | on maps that are not stuck the recursion ends with EXPR evaluated, VAL set from it unless present, and STR the VAL as FORMAT prints it |
| Reeval.RecursionEndsIff | sw/kveval.cpp:341-397 | the recursion ends if and only if the map is not one without STR whose EXPR has a value and whose VAL is not an integer |
| Reeval.StrPrintsVal | sw/kveval.cpp:325-397 | exactly the maps that lack a STR and whose EXPR or VAL has a value get one; it is the FORMAT's print of VAL, or a numeral that reads as VAL, and nothing else changes |
| Reeval.StringIsValue | sw/kveval.cpp:325-397 | a map whose STR is built on request offers a text that prints the value it offers |
| Reeval.Evaluate | sw/kveval.cpp:139-229 | a run of find_any_unevaluated on a world, whose EXPR texts are parsed when visited, replaces texts and trees by trees and integers, touches nothing else, and ends settled if nothing is needed late |
| Reeval.PassUsesUp | sw/kveval.cpp:399-437 | whatever steps a pass takes, reporting a change means a reference or a missing STR has been used up for good |
| Reeval.QuietPassFoundNothing | sw/kveval.cpp:399-445 | the pass that ends the loop found no STR to build and, in strings without formats, no reference that stood for anything |
| Reeval.Run | sw/kveval.cpp:439-445 | from every fit state reeval ends, whatever the order of the walk; integers never change and entries never disappear |
| Inheritance.FlattenMaps | sw/mapdhash.cpp:933-989 | the loop computes Flatten for any iteration order of the superclass's keys |
| Inheritance.FlattenLookup | sw/mapdhash.cpp:910-989 | at every key path the flattened map has the component's own entry, or nothing if an own leaf blocks the path, or else a copy of the superclass's |
| Inheritance.OwnEntriesKept | sw/mapdhash.cpp:933-989 | no entry of the component that is not a map changes |
| Inheritance.InheritedAsIs | sw/mapdhash.cpp:910-989 | inherited numbers and strings arrive as the superclass has them, and maps stay maps |
| Inheritance.FlattenIdempotent | sw/mapdhash.cpp:933-989 | flattening twice is flattening once |
| Inheritance.InheritedExpressionBindsLate | sw/mapdhash.cpp:910-989 | an inherited expression takes the heir's values, however much of it the superclass had resolved |
| Inheritance.FindKeyFollowsPath | sw/mapdhash.cpp:578-619 | a dotted key finds what its path of components names |
| Inheritance.FindKeyInherits | sw/mapdhash.cpp:578-619 | after flattening, a key the component lacks finds the inherited entry |
| Inheritance.PlusIsConsulted | sw/mapdhash.cpp:578-619 | a key of several components whose first is missing is looked for in the superclass map, or finds what stands in that map's place; a key of one component is not, and one whose first component is no map finds nothing |
| Inheritance.OuterDots | sw/mapdhash.cpp:578-619 | a key with its first dot at either end is looked up whole |

## Left out

- SlotSearch.SearchIsOptimal: one direction only. It asks for a bus of at most 32 octet address bits, for sums below 2^32 up to the widest slot that decides anything, and for some slave with an address bit; a list outside these conditions may still happen to be assigned optimally.
- AddressWidth.AssignedWidthIsLeast: one direction only, for the same reason; it further asks for no single-word slave and a NULLSZ of whole words.
- Plist.Plist.AssignAddresses: requires widths below 32 bits, as the source's shifts of a 32-bit int do, and data widths up to 2^17 bits; errors reported for NADDR 0 and the port lists written into the maps are not modelled.
- Plist.Plist.Sort: the standard library's sort is modelled by a stable insertion sort; slaves equal in order, width and name could come out in another order there.
- BusTree.GatherPeripherals: the second loop of gather_peripherals, which re-reads REGBASE from the maps, is not modelled.
- BusTree.RegbaseReachesLeaf: trees are values with each list already in its final order, in which components are told apart by an identity; buses of more than 32 octet address bits, where RegbaseFits no longer keeps the source's 32-bit sums from wrapping, and updates in place are not modelled.
- BusTree.SubBusWidth: the unsigned subtraction is not modelled below zero; a nested bus narrower than one word of its parent is excluded.
- Cachable.CachableModulo: reads an empty slice as 0; SlicesLegalIff says when one is emitted. Slaves without a name, which the source skips, are not in the model's lists.
- WbDecode.SioDecode: SINGLE slaves are taken to be one word each, on buses of 16 bits or more; the defaults under the low-power option are not modelled.
- WbReturnPath.NestedReturn: the bridge between the groups is wires only, as emitted; slaves are whatever they drive in each cycle.
- AccessDefines.EmittedFileIsLeastModel: one direction only, for positive dependencies, one provider per macro, nonempty ACCESS tags not yet defined, and no macro name inside another; without these it may or may not hold, as the two counterexamples show.
- Resolution.SettlesIff: the direction from settling to nothing needed late asks that evaluation traps nowhere, since a trap stops the program instead, and finds a sound state, not one of a run from the beginning: a chain of needs may settle when started with nothing resolved.
- Substitution.SubresultsInto: one direction only. It asks that no '@' stands right before a reference, that no reference directly follows the two characters of another, that formats hold no '@' and convert integers to digits only (`%c` prints an '@' for 64), and that texts hold no reference and do not end in '@'. Strings hold no NUL, and the fixed buffers of sprintf are not modelled.
- Nesting.InnerLoopEndsIff: for the inner loop, on strings whose references are complete and lie apart, and texts whose last reference is closed; the outer loop over texts with references is not covered.
- Replacement.ReplacesReference: for strings with one reference; of several, Substitution.ExitIsQuiet and Substitution.PassedStays say what the loops leave and what they keep.
- Substitution.ExitIsQuiet: one direction only; a string with a format behind an abutting key may also end with nothing left to resolve.
- Reeval.Run: evaluation is a parameter that replaces texts and trees and nothing else, which Evaluate shows of find_any_unevaluated; names are looked up by a parameter that may depend on the whole state; a division by zero or a malformed format stops the run. A STR with references in it is excluded. What the names stand for is taken once for a whole string: a lookup that builds the STR of a map also adds its VAL, and a later formatted reference in the same string could print that.
- Pic.PicInfo.AssignIds: writing the numbers back into the maps and trimming names are not modelled.
- Inheritance.FlattenMaps: maps are values, so aliasing between the component and its superclass cannot arise.
- Heap identity of expression trees and maps: Expressions, Resolution and Inheritance are on values; define and flatten_maps in the source change nodes in place.
- The expression grammar, file parsing, command line, messages and dumps: input and output.
- Text of the generated Verilog, C, linker scripts and constraints: string formatting.
- The crossbars and AXI bridges: they live in another repository.
- The AXI and AXI-lite port wiring, the test bench clock scheduler, register and board definitions: they would add only easy members.
