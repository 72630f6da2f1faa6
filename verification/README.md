# A verified model of libelfin's DWARF reader

libelfin reads DWARF 4 debugging information from bytes. This project models its four
interpreters over raw bytes - the DIE tree, the line-number machine, the expression stack
machine and range lists - together with the cursor, the abbreviation index and the growable
buffer they rest on, and proves what they compute.

`dafny verify dfyconfig.toml` checks the whole project.

## How it is built

Each part of the library appears in up to three forms.

* A *reader* or *machine* function says what the bytes at an offset mean: the value and the
  offset after it, or the exception thrown (`Outcomes.Outcome`). `Outcomes.Undefined` stands
  for behaviour that C++ leaves undefined; it is not an exception.
* A *method*, on a class with the source's fields where the source updates an object in place
  (`Cursors.Cursor`, `Values.AttributeValue`, `Abbrevs.AbbrevEntry`, `Abbrevs.Index`,
  `Dies.Die`, `Dies.DieIterator`, `LineTables.LineTable`, `LineTables.LineIterator`,
  `SmallVectors.SmallVector`, `RangeLists.RangeIterator`), has the source's loops and is proved
  equal to the function.
* *Lemmas* relate the function to something that never looks at bytes: an encoder it inverts, a
  rose tree, an assembler, a compiler, a plain sequence, a union of ranges.

| file | what it holds |
|---|---|
| Outcomes, Words | results that may throw; machine words and bit operations as bounded integers |
| Leb128, Sections, Cursor, Forms, Values | numbers, fields and strings at an offset; the cursor; attribute forms, skipping and the typed readers |
| Abbrev, Units | abbreviation declarations and the dense-or-sparse index; unit headers, tiling, the scan for a unit |
| Dies, DieTree, DieDump, FindPc | DIEs and the sibling iterator; trees as stored; reading a whole tree back; the search for a function |
| LineMachine, LineEncode, LineHistory, LineConcat | opcodes and registers; an assembler and its inverse; rows read off the opcodes; programs one after the other |
| LineTable, LineHeader, LineFiles, LineQueries, LineSequences, LineLength, LineErrors | the shared file list; the header's files; any interleaving of iterators; loops and lookups; tables of several sequences; what an opcode's length skips; what an increment throws |
| SmallVector, Expr, Evaluator, ExprEncode, ExprRuns, ExprExact, ExprImplicit, ExprHeights, ExprCompile, ExprResults | the buffer; the stack machine and its loop; operations as bytes; runs, termination and the room for the stack; where operations differ from the standard; implicit values; stack heights; a compiler; what whole evaluations return |
| RangeList | range lists |

## Where the code and its documentation disagree

The model follows the code.

* `skip_form` has no case for DW_FORM_ref8 although the readers do (dwarf/cursor.cc:114-199):
  a DIE with such an attribute cannot be read. `Forms.SkipMatchesEncoding` says exactly when
  skipping works, `DieTree.ReadStored`, `DieTree.WalkStored` and `DieTree.NextStored` which DIEs
  and trees can be read and passed.
* Resolving DW_FORM_indirect assigns a local variable, so the stored form stays indirect and no
  reader accepts the value (dwarf/value.cc:278): `Values.IndirectIsUnreadable`.
* `ensure(0)` at the very end of a section throws (dwarf/internal.hh:125), so an empty block
  there cannot be read.
* An iterator on the last row of a line table equals `end()`, so loops see all rows but the last
  (dwarf/line.cc:299, dwarf/dwarf++.hh:1313-1316): `LineQueries.LoopSeesAllButLast`.
* An extended opcode's length is only an upper bound: `cur` is a pointer, so the bytes it counts
  beyond those read are executed (dwarf/line.cc:433): `LineLengths.ExtendedLands` and
  `LineLengths.PaddingIsExecuted`.
* All six relations compute `<=` (dwarf/expr.cc:317-324), division divides the top by the second
  entry (dwarf/expr.cc:229-236), the arithmetic right shift rounds toward zero
  (dwarf/expr.cc:291-311), and a pick whose index is the depth passes the depth check
  (dwarf/expr.cc:153-157). Module ExprExact states for each exactly when the result is the
  expected one.
* dup, pick and over push a reference into the stack (dwarf/expr.cc:145-161), and `push_back`
  makes room before it reads it (dwarf/small_vector.hh:163-168). When the stack fills a buffer on
  the heap, that buffer is deleted first: sixteen literals and then a dup read freed memory. The
  model keeps the buffer's capacity; `ExprExact.CopyExact`, `ExprExact.CopyInRun` and
  `ExprExact.FullCopy` say exactly when it happens, and the result is then `Undefined`.
* abs, neg and the arithmetic right shift of -2^63, and a register sum that does not fit in 64
  bits, overflow a signed type (dwarf/expr.cc:133-142, 219-225, 246-251, 291-311), which C++
  leaves undefined; in the model they are `Undefined`.
* DW_OP_implicit_value does not step over its block, whose bytes are then executed
  (dwarf/expr.cc:378-383). Module ExprImplicit says which blocks survive that.
* The test for a dense abbreviation table compares 64-bit products that can wrap
  (dwarf/dwarf.cc:253). A sparse table that passes it by overflow asks for a vector longer than
  the library can make, and every lookup in it throws: `Abbrevs.RefusedExactly` and
  `Abbrevs.OneIsRefused`.
* A list made from pairs ends at a (0, 0) pair and takes a low of 2^64 - 1 for a base selection
  (dwarf/rangelist.cc:18-34): `RangeLists.PairsIterate`.

## Model

| member | source | states |
|---|---|---|
| `Leb128.UnsignedRoundTrip` | dwarf/internal.hh:147-162 | decoding inverts ULEB128 encoding for every 64-bit value, with redundant groups up to the ten bytes C++ defines, and consumes exactly the encoded bytes |
| `Leb128.SignedRoundTrip` | dwarf/cursor.cc:14-32 | the same for SLEB128 and every signed 64-bit value |
| `Leb128.TenBytesSuffice` | dwarf/internal.hh:147-162 | the shortest encoding of a 64-bit value has at most ten bytes |
| `Leb128.Examples` | dwarf/internal.hh:147-162 | the examples of section 7.6 of DWARF Version 4, signed and unsigned, are read as it says |
| `Sections.TwoBytes` | dwarf/internal.hh:129-145 | of two bytes the first is the low one in one byte order and the high one in the other |
| `Sections.FixedThrows` | dwarf/internal.hh:121-145 | a field is read exactly when its bytes, and at least one, are there, and is otherwise an underflow |
| `Sections.SizedReaders` | dwarf/internal.hh:164-178 | an address has 1, 2, 4 or 8 bytes or is a runtime error; an offset has 4 or 8 by format or is a logic error |
| `Sections.CstrIs` | dwarf/cursor.cc:98-111 | a string is the bytes up to the first zero byte; without one a format error, beyond the end an empty string |
| `Sections.FixedRoundTrip` | dwarf/internal.hh:129-145 | a field of 1 to 8 bytes reads back the number written, in either byte order |
| `Sections.FixedSignedRoundTrip` | dwarf/internal.hh:129-145 | a field read as signed gives back the number written in two's complement |
| `Sections.CstrRoundTrip` | dwarf/cursor.cc:98-111 | a NUL-terminated string reads back, and the offset after it is past the NUL |
| `Cursors.Cursor.Fixed` | dwarf/internal.hh:129-145 | the or-and-shift loops compute the base-256 number of the bytes, and move past them or throw underflow |
| `Cursors.Cursor.Uleb128` | dwarf/internal.hh:147-162 | the loop computes the number of the 7-bit groups modulo 2^64 and stops after the first byte below 128, else throws underflow |
| `Cursors.Cursor.Sleb128` | dwarf/cursor.cc:14-32 | the loop and its sign extension compute the groups read as two's complement, modulo 2^64, as a signed 64-bit number |
| `Cursors.Cursor.Address` | dwarf/internal.hh:164-178 | an address of the section's size, or a runtime error for a size that is not 1, 2, 4 or 8 |
| `Cursors.Cursor.Offset` | dwarf/cursor.cc:76-87 | 4 or 8 bytes by DWARF format, a logic error if the format is unknown |
| `Cursors.Cursor.Cstr` | dwarf/cursor.cc:98-111 | the string up to the first NUL; a format error if there is none |
| `Cursors.Cursor.Subsection` | dwarf/cursor.cc:34-53 | the delimited section, its format, and the cursor just past it |
| `Cursors.ReservedLength` | dwarf/cursor.cc:34-53 | lengths from 0xfffffff0 to 0xfffffffe are a format error |
| `Cursors.Cursor.Skip` | dwarf/cursor.cc:113-199 | moves to the offset SkipForm gives, or throws what it throws, with a termination measure through DW_FORM_indirect |
| `Cursors.SignExtension` | dwarf/cursor.cc:14-32 | or-ing in the bits above the last group is the signed reading of the groups, modulo 2^64 |
| `Forms.SkipMatchesLeb` | dwarf/cursor.cc:179-185 | the skip loop stops where either LEB128 decoder stops, and runs one past the end where they throw |
| `Forms.SkipMatchesEncoding` | dwarf/cursor.cc:113-199 | skipping advances by exactly the encoded length for every form, both formats and any nesting of DW_FORM_indirect, except that DW_FORM_ref8 throws |
| `Forms.IndirectStep` | dwarf/cursor.cc:192-194 | an indirect value is its inner form's code, then the inner value |
| `Forms.FormNumbers` | dwarf/data.hh:224-254 | the forms by the numbers of section 7.5.4 of DWARF Version 4, up to ref1 |
| `Forms.MoreFormNumbers` | dwarf/data.hh:224-254 | the same from ref2 on |
| `Forms.UnknownForm` | dwarf/cursor.cc:192-199 | a form of any other number cannot be skipped |
| `Values.ReadersInvertEncoding` | dwarf/value.cc:26-269 | the reader for a form returns what was encoded in it; exactly an empty block at the very end throws underflow, and indirect values are rejected |
| `Values.TypeTellsReader` | dwarf/abbrev.cc:11-146 | the type resolved for a name and form tells which readers accept the value, for any bytes |
| `Values.BlockTypes` | dwarf/abbrev.cc:11-48 | a block is a location expression for exactly the twenty attributes that take one, by number |
| `Values.OffsetTypes` | dwarf/abbrev.cc:50-144 | a section offset, or an older data4 or data8, is a line, location-list, macro or range-list pointer by the attribute's number, and otherwise a constant, untyped or an error |
| `Values.SecOffsetReads` | dwarf/value.cc:253-269 | a number stored as data4, data8 or sec_offset is read back as a section offset |
| `Values.FlagReads` | dwarf/value.cc:130-143 | a flag is set exactly when its byte is not zero, and one without a byte is |
| `Values.BlockRoundTrip` | dwarf/value.cc:36-62 | as_block and as_exprloc find the stored block and its length |
| `Values.SignedConstant` | dwarf/value.cc:84-102 | a fixed-size constant read as signed is its two's complement reading |
| `Values.ResolveTypeThrows` | dwarf/abbrev.cc:11-146 | an attribute has no type exactly for an unknown form, or for DW_FORM_sec_offset on an attribute that takes no offset |
| `Values.ResolveAgreesWithSkip` | dwarf/value.cc:271-284 | on any bytes, resolving an indirection and skipping from there is skipping the whole value |
| `Values.ResolveFindsPayload` | dwarf/value.cc:271-284 | resolution stops at the innermost value, whose encoding runs to the end of the whole one |
| `Values.IndirectIsUnreadable` | dwarf/value.cc:271-284 | the resolved value keeps the form indirect, so every reader throws a type mismatch: address, block, both constants, exprloc, flag, reference, section offset and string |
| `Values.AttributeValue.Resolve` | dwarf/value.cc:271-284 | the loop sets type and offset to those of the innermost value and leaves the form |
| `Abbrevs.AbbrevEntry.Read` | dwarf/abbrev.cc:153-174 | reads one declaration: code, tag, children flag, and every attribute specification with its type |
| `Abbrevs.ChildrenByte` | dwarf/abbrev.cc:153-174 | a declaration has children exactly when its children byte is 1, on any bytes; its tag is taken modulo 2^32 |
| `Abbrevs.TableRoundTrip` | dwarf/abbrev.cc:153-174 | reading an encoded table gives back its declarations in order |
| `Dies.AbbrevOfTable` | dwarf/dwarf.cc:206-262 | a unit whose table is stored answers a code with the last declaration that has it, or for a table it cannot index with a length error |
| `Abbrevs.DeclaredIsLast` | dwarf/dwarf.cc:230-262 | what the index must answer for a code: the last declaration with it, or a throw exactly when there is none |
| `Abbrevs.Index.ForceAbbrevs` | dwarf/dwarf.cc:230-262 | fills the index once, as a vector or as a map, so that every code answers as the table does; throws a length error exactly for the tables that are refused |
| `Abbrevs.Index.ReadAll` | dwarf/dwarf.cc:239-247 | the map holds the last declaration of each code, none above the highest code |
| `Abbrevs.Index.MoveToVector` | dwarf/dwarf.cc:253-259 | the vector has highest + 1 slots, each the map's entry or an unused one; a length beyond the longest vector throws and changes nothing |
| `Abbrevs.Index.GetAbbrev` | dwarf/dwarf.cc:206-228 | returns the last entry declared with the code, and throws a format error exactly when none was, in either representation and on every call; for a refused table every call throws a length error |
| `Abbrevs.DenseBound` | dwarf/dwarf.cc:253-259 | a dense table's vector has fewer than 1.5 slots per entry plus one exactly when ten times the highest code does not overflow |
| `Abbrevs.DenseOverflow` | dwarf/dwarf.cc:253-259 | a single declaration with a huge code passes the density test by overflow |
| `Abbrevs.RefusedExactly` | dwarf/dwarf.cc:253-259 | a table of a section is refused exactly when ten times its highest code overflows and still passes the test, so every vector that is meant to be dense can be made |
| `Abbrevs.OneIsRefused` | dwarf/dwarf.cc:239-259 | the bytes of a table with one declaration, which is read and then refused |
| `Abbrevs.HighestIs` | dwarf/dwarf.cc:239-247 | the highest code of a table is one of its codes and none exceeds it |
| `Units.UnitAt` | dwarf/dwarf.cc:268-296 | reads a unit header in either layout of its fields, versions up to 5 |
| `Units.VersionRefused` | dwarf/dwarf.cc:276-279 | a unit of a version above 5 is a format error |
| `Units.FindUnits` | dwarf/dwarf.cc:64-74 | the loop collects the units from the start of the section to its end |
| `Units.UnitsTile` | dwarf/dwarf.cc:64-74 | when the loop finishes with every unit inside the section, on any bytes, the units tile it |
| `Units.TilesIncrease` | dwarf/dwarf.cc:64-74 | units that tile have strictly increasing offsets, each starting where the one before ends |
| `Units.UnitsRoundTrip` | dwarf/dwarf.cc:64-74 | a section written as any mix of 32- and 64-bit units, up to the longest lengths the reader takes, is read back unit by unit |
| `Units.ScanUnits` | dwarf/value.cc:190-195 | the search loop of DW_FORM_ref_addr returns the last unit that does not start past the offset |
| `Units.ScanFindsHolder` | dwarf/value.cc:185-199 | in a tiled section that unit is the one whose bytes contain the offset |
| `Dies.Die.Read` | dwarf/die.cc:28-54 | reads a DIE: its declaration, the offset of each attribute and the offset that follows |
| `Dies.DieIterator.Advance` | dwarf/die.cc:134-161 | operator++: the next byte, the sibling reference, or the walk over the descendants |
| `Dies.DieIterator.Past` | dwarf/die.cc:154-157 | the sub-iterator's loop returns the offset past the null entry of the list |
| `Dies.AttributeIs` | dwarf/die.cc:68-82 | an attribute is the first of that name in the declaration, and out_of_range exactly when there is none |
| `Dies.EnoughFuel` | dwarf/die.cc:134-161 | an answer other than running out of steps is the answer under every larger step bound |
| `DieTree.SkipStoredValues` | dwarf/die.cc:47-53 | every offset recorded for a stored DIE is where that attribute's value starts; skipping throws exactly when some value's innermost form is DW_FORM_ref8 |
| `DieTree.ReadStored` | dwarf/die.cc:28-54 | reading a stored DIE finds its declaration, its value offsets, and its first child or successor, exactly when no value of it is a DW_FORM_ref8, and throws a format error otherwise |
| `DieTree.WalkStored` | dwarf/die.cc:148-158 | walking a stored sibling list ends just past its null entry exactly when every DIE it reads can be read - those that a sibling attribute skips may hold DW_FORM_ref8 |
| `DieTree.SuccessorStored` | dwarf/die.cc:134-161 | the successor of a stored DIE lies past its whole subtree, in each of the three ways; only the walk can fail |
| `DieTree.NextStored` | dwarf/die.cc:134-161 | operator++ from the DIE at offset o of any stored forest lands at o plus the encoded length of its subtree, exactly when the DIEs it reads on the way can be read |
| `DieTree.ShortcutAgreesWithWalk` | dwarf/die.cc:144-158 | following DW_AT_sibling and walking the descendants reach the same offset, as long as the descendants can be walked |
| `DieTree.ChildrenVisited` | dwarf/die.cc:120-161 | a loop from the first child to the end visits exactly the children, in order, and ends; it throws exactly when something it passes cannot be read |
| `DieTree.FollowSibling` | dwarf/die.cc:144-147 | a stored sibling attribute, in any reference form, is read back as the place past the subtree |
| `Dies.ReferenceLands` | dwarf/value.cc:161-217 | a reference within the unit lands at that offset of it; ref_addr lands at that offset of the section, in the unit that holds it; a signature lands at the DIE registered for it or is a format error |
| `DieTree.ReferenceRoundTrip` | dwarf/value.cc:161-217 | a stored reference is read back as the unit and offset it stands for |
| `DieDump.DumpDie` | dwarf/die.cc:163-181 | a DIE's attributes, each through the reader for its form, and its children |
| `DieDump.DumpChildren` | dwarf/die.cc:120-132 | the loop over the children, until the iterators compare equal as operator!= does |
| `DieDump.DumpListStored` | dwarf/die.cc:28-54 | dumping a stored forest gives exactly its trees - tags, attribute names, values and children - or the first exception that their meaning has |
| `DieDump.DumpRootStored` | dwarf/die.cc:163-181 | the same for the tree under a unit's root DIE |
| `DieDump.ValuesShown` | dwarf/value.cc:26-269 | a DIE's values are all shown, under their names and in order, exactly when none is indirect and every string referred to is there |
| `DieDump.DumpShowsForest` | dwarf/die.cc:120-181 | dumping any stored forest returns exactly when every DIE and value in it is readable, and then shows its shape, tags, names and values |
| `FindPc.Find` | examples/find-pc.cc:18-45 | the recursive search with its pushes onto the caller's vector |
| `FindPc.FindInChildren` | examples/find-pc.cc:24-28 | the loop over the children stops at the first one that finds the address |
| `FindPc.SearchStored` | examples/find-pc.cc:18-45 | over a stored tree, with DIEs that can be read or not, the search depends on the tree only |
| `FindPc.SearchIsFirstHit` | examples/find-pc.cc:18-45 | it pushes the post-order-first function DIE with a range containing the address, then all its function-tagged ancestors, innermost first, or nothing; a DIE before it that cannot be read, or whose range throws, ends the search with that exception |
| `FindPc.FindStored` | examples/find-pc.cc:18-45 | the whole search on the bytes of a stored tree has that result |
| `FindPc.FirstHitMeans` | examples/find-pc.cc:29-44 | the first hit among the chains is the first one whose DIE has a range containing the address |
| `FindPc.SearchMeets` | examples/find-pc.cc:18-45 | function DIEs are asked in post-order: no answer and a throw of out_of_range or a type mismatch are passed over, the first that contains the address is pushed with its chain, and any other throw before it is what the search throws |
| `FindPc.FindsExactly` | examples/find-pc.cc:18-45 | on the bytes of a stored tree whose DIEs can be read, and whose function DIEs answer or throw out_of_range or a type mismatch, the search returns, and returns true exactly when some DIE of tag 0x2e or 0x1d has a range containing the address |
| `LineHistory.RunIsHistory` | dwarf/line.cc:235-436 | for any opcodes, every register and every row is what the opcodes so far say: line 1 plus the line advances, file 1, column 0 and isa 0 until set, the default is_stmt flipped by each negate_stmt, flags and discriminator since the last row, and the address counted in operations from where it was last set |
| `LineHistory.BytesAreHistory` | dwarf/line.cc:271-301 | so the bytes of any opcodes are read and executed to those rows |
| `LineHistory.FirstRow` | dwarf/line.cc:239-248 | advance_line n, copy, end_sequence give line 1 + n, address 0, file 1, and every other field in numbers |
| `LineHistory.RowAfterEnd` | dwarf/line.cc:402-406 | the first row after an end_sequence is the same, whatever the registers were |
| `LineHistory.StandardBytes` | dwarf/line.cc:343-389 | the standard opcodes with an operand, in bytes |
| `LineHistory.PlainBytes` | dwarf/line.cc:343-389 | the standard opcodes without one, in bytes |
| `LineHistory.ExtendedBytes` | dwarf/line.cc:396-433 | the extended opcodes with their lengths in bytes |
| `LineErrors.UnknownExtended` | dwarf/line.cc:418-428 | an unknown extended opcode is a runtime error from 0x80 on and a format error below |
| `LineErrors.TrailingOpcodes` | dwarf/line.cc:283-284 | a program that ends after opcodes without a row is a format error |
| `LineErrors.NoSuchFile` | dwarf/line.cc:289-296 | a row whose file index is past the list is a format error, and no other row is |
| `LineErrors.BadDirectory` | dwarf/line.cc:204-231 | a define_file of a relative name in a directory that does not exist is a format error and counts as read |
| `LineMachine.ReadOpAdvances` | dwarf/line.cc:303-436 | every opcode that decodes moves forward, within the section |
| `LineMachine.OpIndexBound` | dwarf/line.cc:320-358 | op_index stays below maximum_operations_per_instruction, whatever the opcode |
| `LineMachine.RowsOpIndex` | dwarf/line.cc:303-436 | hence in every row of every program |
| `LineMachine.NarrowAdvance` | dwarf/line.cc:316-321 | the 32-bit arithmetic of special opcodes never wraps |
| `LineMachine.AdvanceAdds` | dwarf/line.cc:349-358 | advancing by a and then by b is advancing by a + b |
| `LineMachine.AdvancesAdd` | dwarf/line.cc:310-376 | the same for any two of special opcodes, advance_pc and const_add_pc |
| `LineMachine.FixedAdvancesAdd` | dwarf/line.cc:377-380 | fixed_advance_pc adds bytes and clears the operation index; two of them are one by the sum |
| `LineMachine.RowsAscend` | dwarf/line.cc:303-436 | without wrap-around, and with no set_address below the address reached, addresses never decrease within a sequence |
| `LineMachine.RowsAreEmitted` | dwarf/line.cc:271-301 | the rows of a well-formed program are those emitted before it ends |
| `LineEncode.OpRoundTrip` | dwarf/line.cc:303-436 | decoding inverts encoding for every special, standard and extended opcode |
| `LineEncode.SpecialInverts` | dwarf/line.cc:310-316 | the opcode computed by the formula of section 6.2.5.1 decodes to the line and operation advance it was computed from |
| `LineEncode.DistanceArrives` | dwarf/line.cc:349-358 | the operation advance computed between two places leads from one to the other |
| `LineEncode.RowsOfOps` | dwarf/line.cc:271-301 | executing the bytes of a program is executing its opcodes |
| `LineEncode.AssembleAllEmits` | dwarf/line.cc:303-436 | the opcodes assembled for any rows emit exactly those rows |
| `LineEncode.AssembledRoundTrip` | dwarf/line.cc:303-436 | for every opcode base, running the encoded program of rows each reachable from the one before emits exactly those rows |
| `LineEncode.ProgramRoundTrip` | dwarf/line.cc:303-436 | for every base above 3, that holds of any list of rows whose fields are initial or set by an opcode below the base |
| `LineLengths.ExtendedLands` | dwarf/line.cc:396-434 | the next opcode is read where an extended opcode's length says exactly when the operands fill the length |
| `LineLengths.PaddingIsExecuted` | dwarf/line.cc:433 | a byte of padding counted by an end_sequence is executed and emits a second row |
| `LineConcat.RowsConcat` | dwarf/line.cc:271-301 | rows(P;Q) is rows(P) followed by rows(Q) when P ends a sequence |
| `LineTables.LineTable.ReadFileEntry` | dwarf/line.cc:204-231 | adds a file once, by the offset of its end, and rejects a directory out of range after counting the entry as done |
| `LineTables.LineTable.ReadHeaderFiles` | dwarf/line.cc:137-145 | the header loop reads entries up to the empty name |
| `LineTables.LineIterator.StepOnce` | dwarf/line.cc:303-436 | one opcode: registers, the row if any, the shared file list, or what is thrown |
| `LineTables.LineIterator.Increment` | dwarf/line.cc:271-301 | operator++: opcodes up to the next row, the row's file looked up, completion recorded at the end |
| `LineHeader.FilesRead` | dwarf/line.cc:137-145 | encoded header entries are read into the list, one file each, in order |
| `LineHeader.EntryAdded` | dwarf/line.cc:204-231 | a stored entry adds its name if it is absolute, else its directory's path and its name, with its time and length; a relative one whose directory does not exist adds nothing and is an error |
| `LineHeader.HeaderFile` | dwarf/line.cc:137-145 | file by file, what the header's entries add after the implicit one |
| `LineHeader.HeaderHolds` | dwarf/line.cc:137-145 | a table starts with the implicit entry, then the header's, and none of the program's |
| `LineFiles.AnyInterleaving` | dwarf/line.cc:204-231 | for any interleaving of any number of iterators, throwing or not, file_names is the header's list followed by the files of a prefix of the program's entries, without repeats |
| `LineFiles.NextHolds` | dwarf/line.cc:271-301 | one increment keeps that, and afterwards every entry the iterator passed is in the list |
| `LineFiles.NextSame` | dwarf/line.cc:271-301 | an increment that succeeds with a shorter list yields the same row and file with any longer one |
| `LineQueries.EntriesAreRows` | dwarf/line.cc:271-301 | as long as increments return, the k-th entry is the k-th row of the one-pass execution; a pass that comes to the end has yielded them all |
| `LineQueries.SameEntries` | dwarf/line.cc:271-301 | what a pass yields with a shorter file list it yields with any longer one, so other iterators do not change it |
| `LineQueries.LoopSeesAllButLast` | dwarf/dwarf++.hh:1313-1316 | a loop to end() sees all rows but the last, all of them exactly when there are none; one that throws has seen all rows yielded |
| `LineQueries.FindAddress` | dwarf/line.cc:163-179 | the search loop of find_address, with its effect on the file list and what it throws; the row's file is the one looked up when the iterator reached it |
| `LineQueries.LookupFindsFirst` | dwarf/line.cc:163-179 | it returns the first visible row that covers the address, also in a table that is malformed further on; without one, end() or the exception |
| `LineQueries.LookupIs` | dwarf/line.cc:163-179 | it returns the first row seen that starts at or before the address, does not end a sequence and is followed by one that starts past the address; exactly without one it ends as the loop does |
| `LineQueries.FirstCoveringMeans` | dwarf/line.cc:163-179 | that row does not end a sequence, starts at or before the address, and the next visible row starts past it |
| `LineSequences.CoverIsUnique` | dwarf/line.cc:163-179 | with rows that ascend within each sequence and sequences that do not overlap, in any order, only one row covers an address |
| `LineSequences.ClimbingAscends` | dwarf/line.cc:163-179 | a program whose addresses climb within each sequence gives such rows |
| `LineSequences.LookupFindsOnly` | dwarf/line.cc:163-179 | in a table with such rows, whether the program climbs or not, a visible row that covers the address is the one find_address returns |
| `LineQueries.GetFile` | dwarf/line.cc:181-202 | get_file: at once if the index is known, else after forcing a pass, else out_of_range |
| `LineQueries.GetFileAnswers` | dwarf/line.cc:181-202 | its answer is the one-pass full table's, in every state that iterators can leave the file list in |
| `LineQueries.FullTableAt` | dwarf/line.cc:204-231 | entry by entry, what the program adds to the full table |
| `LineQueries.NextFile` | dwarf/line.cc:289-297 | an increment shows its row with the full table's file of the row's own index |
| `LineQueries.YieldFiles` | dwarf/line.cc:289-297 | and so does every entry of a pass |
| `LineQueries.FilesAlways` | dwarf/line.cc:123-202 | from the table's creation, after any interleaving of any iterators, every index the list reaches gives the file of the full table - implicit, header's, program's - and a forced pass that returns completes it |
| `SmallVectors.SmallVector.ReserveRoom` | dwarf/small_vector.hh:85-107 | doubles the capacity until it is enough and copies the elements |
| `SmallVectors.SmallVector.PushBack` | dwarf/small_vector.hh:163-175 | appends a value from outside the vector, growing if needed |
| `SmallVectors.SmallVector.PushRevat` | dwarf/small_vector.hh:85-168 | pushing a reference to an element of the vector itself appends that element, unless the elements fill a buffer on the heap, which is then deleted before it is read |
| `SmallVectors.SmallVector.PopBack` | dwarf/small_vector.hh:177-181 | removes the last element |
| `SmallVectors.SmallVector.ClearAll` | dwarf/small_vector.hh:183-188 | removes all elements and keeps the capacity |
| `SmallVectors.SmallVector.Revat` | dwarf/small_vector.hh:129-141 | the element counted from the back |
| `SmallVectors.SmallVector.SetRevat` | dwarf/small_vector.hh:133-136 | assignment through the returned reference changes that element only |
| `SmallVectors.SmallVector.AssignFrom` | dwarf/small_vector.hh:64-73 | takes the other vector's elements, also from itself |
| `SmallVectors.SmallVector.Move` | dwarf/small_vector.hh:34-55 | copies inline elements or takes the heap buffer; the other vector is left empty |
| `SmallVectors.RunIsPlain` | dwarf/small_vector.hh:64-188 | under any mix of operations, pushes of the vector's own elements among them, the elements are those of a plain sequence |
| `SmallVectors.CopiedWithin` | dwarf/small_vector.hh:85-107 | all elements ever copied by growth number at most the capacity minus Min |
| `SmallVectors.PushesAreCheap` | dwarf/small_vector.hh:85-107 | k pushes from empty, with pops and clears between them, copy fewer than 2k elements |
| `Exprs.DecodeAdvances` | dwarf/expr.cc:90-403 | every operation that decodes moves forward, within the expression |
| `ExprEncode.InstrRoundTrip` | dwarf/expr.cc:90-403 | decoding inverts encoding for every operation, with every operand it can have |
| `ExprEncode.SizedDecodes` | dwarf/expr.cc:98-122 | each fixed-size constant is pushed as the 64-bit word of its signed or unsigned value |
| `Evaluators.Fetch` | dwarf/expr.cc:90-403 | reads the operation byte and its operands with the cursor |
| `Evaluators.Perform` | dwarf/expr.cc:90-403 | the effect of an operation on the stack and its buffer, or what it throws |
| `Evaluators.Exchange` | dwarf/expr.cc:162-174 | swap and rotate, through references into the stack |
| `Evaluators.Combine` | dwarf/expr.cc:211-345 | pop the top and overwrite the second entry with the result |
| `Evaluators.CopyOn` | dwarf/expr.cc:145-161 | dup, pick and over push references into the stack, with the capacity that makes them undefined |
| `Evaluators.PushArguments` | dwarf/expr.cc:40-45 | the arguments are pushed in reverse, so that argument 0 is on top |
| `Evaluators.Turn` | dwarf/expr.cc:75-407 | one turn of the loop: depth check, operands, effect, jump |
| `Evaluators.EvaluateExpr` | dwarf/expr.cc:31-419 | the evaluation, for every bound on its number of operations |
| `ExprResults.EmptyResult` | dwarf/expr.cc:62-67 | an expression of no bytes is an empty location |
| `ExprResults.RegisterResult` | dwarf/expr.cc:368-375 | DW_OP_reg0 to reg31 and regx evaluate to that register |
| `ExprResults.LiteralResult` | dwarf/expr.cc:384-388 | a compiled tree followed by stack_value evaluates to the tree's value itself |
| `ExprResults.StackResult` | dwarf/expr.cc:40-174 | after nop, drop, dup, pick, over, swap or rot on any arguments, k drops leave the entry they should, or the throw there must be; after nop that is argument k |
| `ExprResults.BinaryResult` | dwarf/expr.cc:211-314 | each binary operator by its opcode, on the top and second of any arguments |
| `ExprResults.RelationResult` | dwarf/expr.cc:317-342 | each relation by its opcode |
| `ExprResults.UnaryResult` | dwarf/expr.cc:218-256 | abs, neg and not by their opcodes |
| `ExprResults.AddrResult` | dwarf/expr.cc:95-97 | DW_OP_addr pushes an address of the section's size |
| `ExprResults.MissingOps` | dwarf/expr.cc:125-402 | the operations that are not implemented throw a runtime error, unknown ones expr_error |
| `ExprResults.OversizedLoad` | dwarf/expr.cc:178-194 | reading more bytes than an address has throws expr_error |
| `ExprRuns.EndsInTime` | dwarf/expr.cc:343-355 | with no negative displacement evaluation ends after at most as many operations as bytes |
| `ExprRuns.FuelEnough` | dwarf/expr.cc:75-407 | so a larger bound than that never changes the result |
| `ExprRuns.RunIsAfter` | dwarf/expr.cc:75-407 | an evaluation is its first n operations and then the rest |
| `ExprRuns.FullAtBrim` | dwarf/small_vector.hh:85-107 | in every evaluation the stack fills a buffer on the heap exactly when it is as high as it has been so far and that height is a brim |
| `ExprRuns.BrimIs` | dwarf/small_vector.hh:85-107 | the brims are 8 times the powers of two from 2 on |
| `ExprExact.RelationExact` | dwarf/expr.cc:317-342 | for which operands each of the six relations is computed correctly |
| `ExprExact.BitwiseIs` | dwarf/expr.cc:226-314 | and, or and xor work digit by digit |
| `ExprExact.TruncDivIs` | dwarf/expr.cc:229-236 | what a division leaves is smaller than the divisor and has the dividend's sign |
| `ExprExact.DivisionExact` | dwarf/expr.cc:229-236 | wherever the quotient of the second entry by the top exists, div gives it exactly for equal absolute values |
| `ExprExact.ShiftExact` | dwarf/expr.cc:291-311 | for every count, shra is the arithmetic shift exactly for numbers that are not negative, or lose no bits and are not -2^63 |
| `ExprExact.NegationExact` | dwarf/expr.cc:219-251 | abs and neg give the magnitude and the negation of the signed reading exactly when it is not -2^63 |
| `ExprExact.CopyExact` | dwarf/expr.cc:145-161 | dup, pick and over copy the entry exactly when it is inside the stack and the stack does not fill a buffer on the heap; otherwise they underflow or are undefined, and exactly when |
| `ExprExact.CopyInRun` | dwarf/expr.cc:145-161 | in any evaluation that has come to one, a dup, pick or over copies its entry exactly when that is inside the stack and the stack is not both as high as it has been and 16, 32, 64 and so on entries high |
| `ExprExact.FullCopy` | dwarf/expr.cc:145-161 | sixteen literals followed by a dup, an over or a pick of any of them are undefined |
| `ExprExact.SwapTwice` | dwarf/expr.cc:162-167 | swap undoes itself |
| `ExprExact.RotThrice` | dwarf/expr.cc:168-174 | three rotations are none |
| `ExprImplicit.ImplicitValueRuns` | dwarf/expr.cc:378-383 | an implicit value that ends an expression: an empty one throws, one whose bytes are quiet as operations is returned, and of those with one way through them - no branches, jumps back, callbacks or operations that may be undefined - no other is |
| `ExprImplicit.EvaluatesImplicit` | dwarf/expr.cc:378-383 | the same for an expression that is only the implicit value |
| `ExprImplicit.BlockIsExecuted` | dwarf/expr.cc:378-383 | the value with the one byte 0x13 is executed as drop and underflows the stack |
| `ExprImplicit.EmptyIsRefused` | dwarf/expr.cc:378-383 | an empty value at the end throws underflow |
| `ExprImplicit.LongIsRefused` | dwarf/expr.cc:378-383 | a value longer than the rest of the expression throws underflow |
| `ExprHeights.HeightsSound` | dwarf/expr.cc:74-407 | with heights that agree along every edge no run underflows the stack, every run is at the assigned height wherever it has come to or ended, and nothing is undefined if no offset holds a division, a signed operation that can overflow, or a copy at a height of 16, 32, 64 and so on |
| `ExprHeights.EvaluationSound` | dwarf/expr.cc:74-407 | the same for the evaluation of an expression, from the height of its arguments |
| `ExprCompile.BinaryWord` | dwarf/expr.cc:211-314 | each operator on words does to remainders modulo 2^64 what its meaning does to integers |
| `ExprCompile.Compiles` | dwarf/expr.cc:75-407 | the code of an expression tree - with memory reads, address spaces and thread-local addresses - wherever it lies, leaves the tree's value modulo 2^64 on an otherwise unchanged stack, or throws what its meaning says |
| `ExprCompile.EvaluatesToMeaning` | dwarf/expr.cc:31-419 | evaluating a compiled tree gives its value modulo 2^64, with as much fuel as it has bytes |
| `RangeLists.RangeIterator.Increment` | dwarf/rangelist.cc:66-101 | operator++: base selections are absorbed, the next range is shifted by the base, zeros end the list |
| `RangeLists.Contains` | dwarf/rangelist.cc:50-57 | the loop of contains, which stops at the first range that has the address |
| `RangeLists.SearchDecides` | dwarf/rangelist.cc:50-57 | it decides whether some range starts at or before the address and ends past it |
| `RangeLists.StoredYield` | dwarf/rangelist.cc:66-101 | any stored pairs are iterated up to the first pair of zeros, each shifted by the latest base |
| `RangeLists.ListMeaning` | dwarf/rangelist.cc:50-101 | a well-formed list with base selections is iterated as its shifted ranges, and contains decides their union |
| `RangeLists.Synthesize` | dwarf/rangelist.cc:18-34 | the pair constructor stores the pairs and two zeros |
| `RangeLists.PairsIterate` | dwarf/rangelist.cc:18-34 | iteration gives back the pairs if and only if none is (0, 0) and none has a low of 2^64 - 1 |

## Left out

- elf/: headers, string and symbol tables, section mapping - field copying and I/O.
- dwarf/attrs.cc, `die::resolve`, `to_string`, exception texts, object lifetime, shared pointers, section loading and byte-order sniffing.
- dwarf/die_str_map.cc: the reference taken at line 101 aliases the iterator advanced at line 102, so the loop does not do what its documentation says.
- die_pc_range: an arbitrary function from DIEs to outcomes in FindPc; the range list it builds is RangeList's.
- Type units: a map from signatures to places stands for the cached `get_type_unit`; name_unit and name_entry are not modelled.
- The numeric part of the line-table header and its directory list (dwarf/line.cc:71-135) are given, not parsed; the opcode table has 13 entries, so `LineMachine.Header.Valid` asks for an opcode base of 1 to 13, as the array bound in the source does.
- LineQueries.FindAddress: dwarf/line.cc:292 stores a pointer into a vector that may grow later, and a define_file between the returned row and the next may leave it dangling; the model stores the file itself.
- DieDump.DumpShowsForest: a DW_FORM_strp offset beyond the end of the string section counts as readable, as an empty string, since the reader does not check it.
- Cursor: positions are unbounded offsets, so pointer overflow is not captured.
- Units.UnitsTile: a length that delimits a section past its parent's end, an invalid pointer the source does not check for, is `Undefined`; the source's loop would end with a unit that does not tile.
- Leb128.UnsignedRoundTrip: groups past the tenth byte, whose shift C++ leaves undefined, are taken to add nothing.
- Dies.Next: a sibling reference may point back, so `Next`, `Walk`, dumps and searches carry a step bound; running out of it is `Timeout`, and `Dies.EnoughFuel` says no other answer depends on it.
- Dies.Differ: compares declarations where the source compares pointers to them.
- Exprs.Run: carries a step bound for the same reason; a jump past the end stops, one before the start is `Undefined`.
- Exprs.Context: the callbacks are arbitrary functions that give a word or throw expr_error; the operations that are not implemented throw.
- Evaluators.EvaluateExpr: operands are read before the stack is looked at, as in the source, but as a separate step.
- SmallVectors.SmallVector: elements are trivially copyable; running out of memory is not modelled, here or in the abbreviation index.
- Evaluators.PushArguments: counts an index down to 0; the source's pointer steps below the first argument to end the loop.
- Abbrevs.Index.ForceAbbrevs: asks for a section of fewer than 2^59 bytes, so that the number of entries times 15 fits in 64 bits.
- FindPc.FindsExactly: asks that every DIE of the tree can be read; `FindPc.SearchIsFirstHit` covers the others.
- LineEncode.ProgramRoundTrip: bases up to 3 lack an opcode that copies or advances, so their rows depend on the row before; `LineEncode.AssembledRoundTrip` covers them. Sections have fewer than 2^64 bytes.
- LineConcat.RowsConcat: asks that the declared lengths of the second program's extended opcodes do not wrap when it is moved.
- RangeLists.LargestOffset: for 4-byte addresses the shift at dwarf/rangelist.cc:72 is undefined in C++; the evident intent, 2^32 - 1, is modelled. The slice taken by the constructor is given, not computed.
- DWARF 5 beyond the unit header's reordered fields, location lists and macros, which the library does not read.
