# Verified models of MicroPython for UEFI

A Dafny 4.11 model of the twelve algorithmic cores of this repository, with proofs that they do
what their code and documentation promise.  `dafny verify dfyconfig.toml` checks everything.

| part | files | what is modelled |
|---|---|---|
| native assembler | `AsmBase`, `AsmX64`, `AsmX64Emit`, `AsmX64Run`, `AsmThumb`, `AsmThumbEmit`, `AsmThumbRun` | pass state, label table, the emitters of both targets, a decoder, an interpreter and a byte machine for each |
| heaps | `HeapAlgorithm`, `HeapQ`, `TimeQ` | the sink-to-a-leaf sift in place, the list heap, the queue over circular time |
| frame buffer | `FrameBuf`, `FrameBufDraw`, `FrameBufFill`, `FrameBufLine`, `FrameBufScroll` | seven packed formats, fills, lines, scrolling, all in place |
| WebSocket | `WebSocketFrames`, `WebSocketMachine`, `WebSocketLeaks`, `WebSocket` | frames as bytes, the reader as a machine, when it leaks, the resumable reader and the writer |
| JSON | `JsonText`, `JsonScan`, `JsonMachine`, `JsonCorrect`, `JsonReader` | texts and trees, scanners, the explicit-stack machine, the reader's loop |
| I2C | `I2CBus`, `I2CMaster` | a bus monitor, the bit-banged master |
| 2048 | `Tiles2048`, `Board2048` | lines as values, the board of item objects |
| mount table | `VfsPaths`, `VfsTable` | path prefixes, the linked list |
| base64 | `Base64` | the two-pass encoder, the shift-register decoder |
| command line | `CommandLine`, `CommandWords` | quoting, escapes, the two passes; what lines look like and stand for |
| text console | `Terminal`, `VirtualConsole` | a one-character terminal, the batching driver |
| random ranges | `RandomRange` | masks, counts, ranges |
| shared | `Basics` | bytes, options, powers of two, the meaning of a bit mask |

Code that changes state is modelled by classes and methods with loops over the source's fields and
buffers.  Each such method is tied by its `ensures` to a function of the old state, and the lemmas
are about those functions.  Bytes are integers from 0 to 255 or bit vectors; wrapping, truncating
and sign-extending steps are written out.

How the main results fit together:

- Assembler: `EncodeStable` of a target feeds `PassesAgree`, which gives `EmitAssertsHold` and
  `BytesInPlace`; with the decoders' round trips this gives `SiteDecodes` and, for both targets,
  `BytesRunProgram`.
- Heaps: `SinkStep` and `FloatStep` make `SiftUp` and `SiftDown` restore the order; the list heap
  and, through `WindowOrdered`, the time queue are built on them.
- Frame buffer: `GetPut` makes every drawing operation a `Painted` region; fills, lines and the
  scroll say which region and which values.
- WebSocket: a `Position` in the stream says what is owed and what is still coming; every step
  keeps the reader's `View` in agreement with it, which gives `ReadDelivers` for one call,
  `LeaksIff` for all sequences of calls and `Exchange` from writer to reader.
- JSON: `ValueRuns`, `ElemsRun` and `MembersRun` follow the grammar while the machine runs without
  recursion; `StepKeepsPath` holds for any input.
- Formats and tables are also stated in plain arithmetic or bytes, apart from the functions the code
  is proved against: `DataInCode`, `PutStores`, `DataMeans`, `WireFormat`, `EncodeMeans`,
  `EscapesScan`, `LineFeedGoesDown`, `FrameInBits`, and the lemmas named `Known...`.
- I2C, console, mount table, base64, command line, 2048: an independent reading (monitor,
  one-character terminal, longest match, decoder, unquoting, slide and merge) is proved equal to
  what the in-place code leaves.

Where the code is not what it seems, or what its comments say:

- x64 operands with base register 13 and displacement 0 get the one-byte form, which the processor
  reads as relative to the instruction pointer; loads and stores are right if and only if they use
  another operand (`LoadFaithfulIff`, `StoreFaithfulIff`).
- The wide conditional Thumb branch puts displacement bits 14 to 19 where the processor expects
  bits 12 to 17 to stand, so it is right only in three windows (`WideBccRoundTrip`,
  `ConditionalBranchMisses`), although its caller takes it for every distance.
- `mp_asm_base_align` is commented as taking a multiple of 2; its mask rounds up if and only if the
  alignment is a power of two (`MaskRoundsIff`, and `SixIsNotAligned` for an instance).
- The time queue's comparison is an order exactly on entries that share a half-period window or are
  copies of two entries half a period apart (`OrderedIff`).
- The scroll's loops compare for equality with their ends, so a step larger than the screen does
  not stop; `ScanStopsIff` and `NestedScanStopsIff` say exactly when they do.
- A comment in the WebSocket reader says that control frames do not alter `ws_flags`; the code lets
  them (`NoteFlags`).  A control payload that is not read in one piece is handed over as data; no
  reads of the stream can do that if and only if no control frame in it carries more than one byte
  (`LeaksIff`, and `PingPayloadLeaks` for an instance).
- The JSON reader accepts more than JSON, as its own comment says: `LoadEndsIff` says what texts
  with other commas, colons and closing brackets stand for.  Beyond the comment, an outermost
  container need not be closed at all (`LoadUnclosed`).
- `check_game_over` declares a full board lost although another key would move exactly when no
  neighbours along the pressed key's lines are equal and some across them are (`LostTooSoonIff`, and
  `OverTooSoon` for an instance).
- `OutputString` does not end on a single column once a character is to be printed wide, and ends
  on every other string and console (`OutputEndsIff`).
- `randrange` and `randint` cut the size of a range to 32 bits, so that every member can come out
  if and only if it is below 2^32 (`AllReachedIff`).
- `OutputString` restores the attribute it found, so a width marker does not outlive the call
  (`MarkerForgotten`).

## Model

| member | source | states |
|---|---|---|
| AsmBase.MaskRoundsIff | MicroPython/py/asmbase.c:87-90 | adding the alignment less one and masking rounds every offset up to the next multiple if and only if the alignment is a power of two |
| AsmBase.SixIsNotAligned | MicroPython/py/asmbase.c:87-90 | an alignment of 6 takes offset 1 to 2, not to 6 |
| AsmBase.ComputedTable | MicroPython/py/asmbase.c:48-62 | before every call of the compute pass the table holds exactly the labels defined so far, each with the offset of its definition |
| AsmBase.ComputedExtends | MicroPython/py/asmbase.c:74-85 | seen from any call, the final table only adds labels that lie at or behind the end of what has been counted |
| AsmBase.PassesAgree | MicroPython/py/asmbase.c:48-89 | for every well-formed program and every encoder whose sizes do not depend on labels further on, the emit pass is at the same offset as the compute pass before every call, with the same final label table |
| AsmBase.ComputeAssertsHold | MicroPython/py/asmbase.c:74-85 | no assertion of a compute pass can fail |
| AsmBase.EmitAssertsHold | MicroPython/py/asmbase.c:64-85 | no assertion of the emit pass can fail: every label is where the compute pass put it and every write fits the buffer |
| AsmBase.BytesInPlace | MicroPython/py/asmbase.c:64-72 | what a call of the emit pass wrote is still there, unchanged, at the end of the pass |
| AsmBase.LabelAt | MicroPython/py/asmbase.c:74-85 | a label's final entry is the offset of the call that defined it |
| AsmBase.Asm.constructor | MicroPython/py/asmbase.c:36-39 | a new assembler has room for its labels, no code, and stands at offset 0 of a compute pass; what the labels hold is not said, as the source does not set them before a pass starts |
| AsmBase.Asm.StartPass | MicroPython/py/asmbase.c:48-62 | the compute pass forgets all labels; the emit pass keeps them and gets a buffer of at least the counted size; both start at offset 0 |
| AsmBase.Asm.GetCurToWriteBytes | MicroPython/py/asmbase.c:64-72 | returns the place to write only while emitting, and advances the offset by the size asked for in either pass |
| AsmBase.Asm.LabelAssign | MicroPython/py/asmbase.c:74-85 | is the step of the specification, under exactly the assertions of the source |
| AsmBase.Asm.Align | MicroPython/py/asmbase.c:87-90 | moves the offset by the source's mask and writes nothing; `MaskRoundsIff` says when that is rounding up |
| AsmBase.Asm.Data | MicroPython/py/asmbase.c:92-100 | stores the digits of the value in base 256, the least significant first, and nothing else |
| AsmBase.LittleEndianDigit | MicroPython/py/asmbase.c:92-100 | byte k is the value divided by 256^k, cut to a byte |
| AsmBase.LittleEndianNumber | MicroPython/py/asmbase.c:92-100 | read as a number, the bytes are the value cut to their size |
| AsmBase.DataInCode | MicroPython/py/asmbase.c:92-100 | in the final code the bytes at the offset of a data call are the digits of its value, and the next call's offset is right behind them |
| AsmX64.FitMeansSmall | MicroPython/py/asmx64.c:117 | the mask test is true of exactly -128 to 127 for every displacement a program below 2^31 bytes can have |
| AsmX64.FitMask | MicroPython/py/asmx64.c:117 | clearing the low seven bits of a word is taking away its remainder, which is how the test is written here |
| AsmX64.EncodeStable | MicroPython/py/asmx64.c:484-526 | the choice between short and long jumps, made from what the label table holds at the time, cannot differ in size between the passes |
| AsmX64.Sizes | MicroPython/py/asmx64.c:183-526 | how long each instruction is: which form constants and operands take, a jump the short one only to a known label behind and near, and padding is no longer than needed |
| AsmX64.KnownRegisterBytes | MicroPython/py/asmx64.c:207-330 | the bytes of pushes, pops, register moves and arithmetic, and the return, as the processor's manual has them |
| AsmX64.KnownLoadBytes | MicroPython/py/asmx64.c:183-201 | the bytes of loads with a short and a long displacement |
| AsmX64.KnownStoreBytes | MicroPython/py/asmx64.c:183-201 | the bytes of a store through register 12 |
| AsmX64.KnownConstantBytes | MicroPython/py/asmx64.c:332-363 | the bytes of a 32-bit and a 64-bit constant move |
| AsmX64.KnownJumpBytes | MicroPython/py/asmx64.c:479-526 | the bytes of short jumps back |
| AsmX64.KnownFarJumpBytes | MicroPython/py/asmx64.c:479-526 | the bytes of long jumps ahead |
| AsmX64.Word32RoundTrip | MicroPython/py/asmx64.c:147-155 | a signed 32-bit word is read back from its four bytes, whatever follows |
| AsmX64.MemRoundTrip | MicroPython/py/asmx64.c:183-201 | the operand bytes are read back as base register and displacement exactly for the addressable operands |
| AsmX64.BranchRoundTrip | MicroPython/py/asmx64.c:484-526 | a displacement written in one or four bytes, relative to the end of the instruction, leads to the destination it was computed from |
| AsmX64.DecodeEncode | MicroPython/py/asmx64.c:207-526 | whatever follows them, the bytes of any modelled instruction decode to what the instruction means and to its length, except the padded move (`AsmX64Run.AlignedSiteDecodes`) and the operand of register 13 without displacement (`LoadFaithfulIff`, `StoreFaithfulIff`) |
| AsmX64.LoadFaithfulIff | MicroPython/py/asmx64.c:183-201 | a load is read back as written if and only if it is not from register 13 with displacement 0 |
| AsmX64.StoreFaithfulIff | MicroPython/py/asmx64.c:183-201 | a store is read back as written if and only if it is not to register 13 with displacement 0 |
| AsmX64Emit.WriteMemOperand | MicroPython/py/asmx64.c:183-201 | writes exactly the specified operand bytes in either pass |
| AsmX64Emit.MovI64ToR64Optimised | MicroPython/py/asmx64.c:353-363 | takes the four-byte form exactly when the value fits, as specified |
| AsmX64Emit.PadForWord | MicroPython/py/asmx64.c:365-371 | adds no-operations until the word behind the two opcode bytes is aligned, and counts the same in both passes |
| AsmX64Emit.MovI64ToR64Aligned | MicroPython/py/asmx64.c:365-371 | is the specified encoding of the aligned move |
| AsmX64Emit.JmpLabel | MicroPython/py/asmx64.c:479-504 | writes what the encoding specifies for a jump, short only to a known label behind that is near enough |
| AsmX64Emit.JccLabel | MicroPython/py/asmx64.c:479-526 | the same for conditional jumps with their longer opcode |
| AsmX64Emit.EmitInstr | MicroPython/py/asmx64.c:207-526 | every emitter refines the encoding function in both passes |
| AsmX64Emit.Assemble | MicroPython/py/asmbase.c:48-98 | any number of compute passes and an emit pass run without a failing assertion and leave the specified code and label table |
| AsmX64Run.NopsSkipped | MicroPython/py/asmx64.c:207-209 | no-operations in front of an instruction do not change a run |
| AsmX64Run.SiteDecodes | MicroPython/py/asmx64.c:484-526 | in the final code the machine reads at each instruction's offset exactly what the instruction means, jumps leading to the final offset of their labels |
| AsmX64Run.AlignedSiteDecodes | MicroPython/py/asmx64.c:365-371 | behind its padding an aligned move is read back, and its word is aligned |
| AsmBase.LabelsLandOnCalls | MicroPython/py/asmx64.c:479-526 | a label's offset is the offset of the call behind its definition |
| AsmX64Run.BytesRunProgram | MicroPython/py/asmx64.c:207-526 | for any branch outcomes and any number of steps, a machine that fetches and decodes the emitted bytes performs the same effects and ends the same way as an interpreter of the labelled program |
| AsmThumb.EncodeStable | MicroPython/py/asmthumb.c:314-353 | the choice between narrow and wide branches cannot differ in size between the passes |
| AsmThumb.Sizes | MicroPython/py/asmthumb.c:208-353 | every instruction has the size its form takes; branches are narrow only to a known label behind and near, and constants take the shortest of three forms |
| AsmThumb.KnownMoveBytes | MicroPython/py/asmthumb.c:208-272 | the bytes of short constant moves, as the processor's manual has them |
| AsmThumb.KnownWideMoveBytes | MicroPython/py/asmthumb.c:254-260 | the bytes of a 32-bit constant move |
| AsmThumb.KnownAlignedBytes | MicroPython/py/asmthumb.c:274-288 | the bytes of an aligned constant move |
| AsmThumb.KnownBackBytes | MicroPython/py/asmthumb.c:214-353 | the bytes of branches back |
| AsmThumb.KnownAheadBytes | MicroPython/py/asmthumb.c:214-353 | the bytes of branches ahead |
| AsmThumb.FitMask9 | MicroPython/py/asmthumb.c:42 | clearing the low eight bits of a word is taking away its remainder |
| AsmThumb.FitMask12 | MicroPython/py/asmthumb.c:43 | clearing the low eleven bits of a word is taking away its remainder |
| AsmThumb.FitMask23 | MicroPython/py/asmthumb.c:44 | clearing the low 22 bits of a word is taking away its remainder |
| AsmThumb.FieldShifts | MicroPython/py/asmthumb.c:214-244 | the shifts and masks that cut a displacement into fields are quotients and remainders |
| AsmThumb.NarrowBRoundTrip | MicroPython/py/asmthumb.c:214-228 | a narrow branch is read back with its displacement if and only if the displacement is even and in range |
| AsmThumb.NarrowBccRoundTrip | MicroPython/py/asmthumb.c:224-244 | a narrow conditional branch is read back with its displacement if and only if the displacement is even and in range |
| AsmThumb.WideBRoundTrip | MicroPython/py/asmthumb.c:314-334 | a wide unconditional branch is read back with its displacement if and only if it is even and in [-2^22, 2^22) |
| AsmThumb.WideBccRoundTrip | MicroPython/py/asmthumb.c:226-244 | a wide conditional branch is read back as written exactly in three windows of displacements, the middle one of which is [-4096, 4096) |
| AsmThumb.MovLoads | MicroPython/py/asmthumb.c:208-288 | whichever form is chosen, a constant move leaves the constant in the register |
| AsmThumbEmit.BNLabel | MicroPython/py/asmthumb.c:216-222 | writes the narrow form and reports whether the displacement fits |
| AsmThumbEmit.BccNWLabel | MicroPython/py/asmthumb.c:230-244 | writes the narrow or wide form as asked and reports whether the narrow one fits |
| AsmThumbEmit.BlLabel | MicroPython/py/asmthumb.c:246-252 | writes the linking branch and reports whether it fits |
| AsmThumbEmit.MovRegI32Optimised | MicroPython/py/asmthumb.c:262-272 | picks the one-, two- or four-halfword form as specified |
| AsmThumbEmit.MovRegI32Aligned | MicroPython/py/asmthumb.c:274-288 | branches around an aligned copy of the constant and then loads it, as specified |
| AsmThumbEmit.BLabel | MicroPython/py/asmthumb.c:317-334 | is the specified encoding: narrow only backwards and near, wide otherwise |
| AsmThumbEmit.BccLabel | MicroPython/py/asmthumb.c:336-353 | the same for conditional branches |
| AsmThumbEmit.Assemble | MicroPython/py/asmbase.c:48-98 | a compute and an emit pass run without a failing assertion and leave the specified code and label table |
| AsmThumbEmit.SiteDecodes | MicroPython/py/asmthumb.c:214-353 | at the site of a branch the processor reads a branch to exactly the offset of the label's definition if and only if the displacement is one the instruction reaches |
| AsmThumbEmit.AlignedSite | MicroPython/py/asmthumb.c:274-288 | the four bytes of the constant stand word aligned, least significant first, and read as the constant; the branch in front of them leads behind them, and what follows loads the constant |
| AsmThumbEmit.ConditionalBranchMisses | MicroPython/py/asmthumb.c:336-353 | a displacement of 4096 is assembled into a branch that goes somewhere else: the packing of the conditional wide form is not faithful there |
| AsmThumbRun.MovRuns | MicroPython/py/asmthumb.c:208-272 | run by the byte machine, a constant move of any of the three forms sets the register's halves as the interpreter does, instruction by instruction |
| AsmThumbRun.AlignedRuns | MicroPython/py/asmthumb.c:274-288 | the machine jumps over the aligned word, wherever the move starts, and then loads the constant |
| AsmThumbRun.BranchRuns | MicroPython/py/asmthumb.c:214-353 | a branch that reaches takes the machine to the offset of its label, or to the next call if it is not taken |
| AsmThumbRun.BytesRunProgram | MicroPython/py/asmthumb.c:208-353 | for any branch outcomes and any number of steps, a machine that fetches and decodes the emitted halfwords performs the same effects and ends the same way as an interpreter of the labelled program |
| HeapAlgorithm.FloatStep | MicroPython/extmod/moduheapq.c:41-54 | one step of floating up keeps everything but the floating item in order |
| HeapAlgorithm.SinkStep | MicroPython/extmod/moduheapq.c:56-71 | moving the smaller child up keeps the heap order except around the hole |
| HeapAlgorithm.RootFirst | MicroPython/extmod/moduheapq.c:41-71 | nothing in a heap is before its root |
| HeapAlgorithm.RefilledConserves | MicroPython/extmod/moduheapq.c:81-95 | taking the root away and putting the last item in its place loses the root only |
| HeapAlgorithm.SiftDown | MicroPython/extmod/moduheapq.c:41-54 | floats the item up to the start position and no further: the whole range is a heap again if only that item was out of order, and it is a permutation in any case |
| HeapAlgorithm.SinkHole | MicroPython/extmod/moduheapq.c:56-71 | sinks the hole to a leaf, each time moving up the child that its sibling is not before |
| HeapAlgorithm.SiftUp | MicroPython/extmod/moduheapq.c:56-71 | sinking to a leaf and floating back to the start restores the order of the whole subtree, permuting it |
| HeapQ.ObjList.HeapPush | MicroPython/extmod/moduheapq.c:73-79 | adds exactly the item, and keeps a heap a heap for every strict weak order |
| HeapQ.ObjList.HeapPop | MicroPython/extmod/moduheapq.c:81-95 | removes exactly the first item or reports an empty list; of a heap it is an item that no other is before, and a heap remains |
| HeapQ.ObjList.Heapify | MicroPython/extmod/moduheapq.c:97-103 | makes any list a heap that is a permutation of it |
| HeapQ.ObjList.Drain | MicroPython/extmod/moduheapq.c:81-103 | heapify and pops until empty give the items sorted, each as often as before |
| HeapQ.RootIsFirst | MicroPython/extmod/moduheapq.c:81-95 | the root of a heap is before or level with all members |
| HeapQ.LeavesInOrder | MicroPython/extmod/moduheapq.c:97-103 | the half of the list that heapify skips needs no sifting |
| TimeQ.TimeLessMeans | MicroPython/extmod/modutimeq.c:62-75 | the wrapping comparison holds exactly when the first time is ahead by less than half a period, or is equal and was pushed first |
| TimeQ.WindowOrder | MicroPython/extmod/modutimeq.c:62-75 | inside one half-period window it compares delays from the window's start, then push order |
| TimeQ.WindowOrdered | MicroPython/extmod/modutimeq.c:62-75 | inside one window it is a strict weak order |
| TimeQ.OrderedIff | MicroPython/extmod/modutimeq.c:62-75 | for any entries, the comparison is a strict weak order on them if and only if they share a half-period window or are copies of two entries exactly half a period apart |
| TimeQ.NoOrderAroundTheCircle | MicroPython/extmod/modutimeq.c:62-75 | an instance: three entries a third of a period apart are each before the next in a circle |
| TimeQ.RootIsEarliest | MicroPython/extmod/modutimeq.c:104-122 | the root of the heap is the entry due first, of several due together the one pushed first |
| TimeQ.PopsAscend | MicroPython/extmod/modutimeq.c:142-165 | of two entries popped in a row the second is due later, or together with the first and was pushed after it |
| TimeQ.TimeQueue.HeapPush | MicroPython/extmod/modutimeq.c:124-140 | appends to the pending entries in push order, or reports a full queue and changes nothing |
| TimeQ.TimeQueue.HeapPop | MicroPython/extmod/modutimeq.c:142-165 | returns and removes the circularly earliest pending entry, first pushed first, or reports an empty queue |
| TimeQ.TimeQueue.PeekTime | MicroPython/extmod/modutimeq.c:167-176 | tells the time of the entry that a pop would return and changes nothing |
| FrameBuf.FieldSet | MicroPython/extmod/modframebuf.c:65-236 | a field reads back the value stored in it, cut to its width |
| FrameBuf.FieldKept | MicroPython/extmod/modframebuf.c:65-236 | storing one field of a cell leaves the others alone |
| FrameBuf.PixelsApart | MicroPython/extmod/modframebuf.c:65-219 | for all seven formats different pixels of the screen are different fields |
| FrameBufDraw.PutStores | MicroPython/extmod/modframebuf.c:65-236 | for all seven formats, in plain arithmetic: setting a pixel stores the colour, cut to the format, in the cell and at the bits where the format has that pixel, and leaves all other pixels of the cell and all other cells alone |
| FrameBufDraw.GetReads | MicroPython/extmod/modframebuf.c:71-245 | and reading a pixel reads those bits |
| FrameBuf.GetPut | MicroPython/extmod/modframebuf.c:65-219 | setting a pixel makes it read as the colour, cut to the format, and changes no other pixel |
| FrameBuf.PaintRun | MicroPython/extmod/modframebuf.c:77-236 | a run along a row paints exactly the pixels of the run |
| FrameBufDraw.OnScreenAddressable | MicroPython/extmod/modframebuf.c:262-303 | with the stride rounded up and a large enough buffer every pixel on the screen is in the buffer |
| FrameBufDraw.FrameBuffer.SetPixel | MicroPython/extmod/modframebuf.c:65-75 | is the specified update for whichever of the seven formats, and stores the colour at the bits the format has for the pixel; the stores are the shifts and masks of the source |
| FrameBufDraw.FrameBuffer.GetPixel | MicroPython/extmod/modframebuf.c:71-245 | reads the pixel the specification reads, for all seven formats; which bits that are says `GetReads` |
| FrameBufDraw.FrameBuffer.Gs4HmsbSetPixel | MicroPython/extmod/modframebuf.c:161-169 | sets the nibble the pixel's parity selects |
| FrameBufFill.MonoHorizFillRect | MicroPython/extmod/modframebuf.c:77-91 | paints exactly the rectangle, walking a byte pointer down each column |
| FrameBufFill.MvlsbFillRect | MicroPython/extmod/modframebuf.c:103-115 | paints exactly the rectangle with the bit selected by the row; where pixels are says `GetReads` |
| FrameBufFill.Rgb565FillRect | MicroPython/extmod/modframebuf.c:125-133 | paints exactly the rectangle with halfword stores |
| FrameBufFill.Gs2HmsbFillRect | MicroPython/extmod/modframebuf.c:151-157 | paints exactly the rectangle pixel by pixel |
| FrameBufFill.PairRun | MicroPython/extmod/modframebuf.c:179-210 | in the four-bit format a run of even length from an even column is a run of equal bytes |
| FrameBufFill.Gs4Row | MicroPython/extmod/modframebuf.c:179-210 | a row is right for every parity of start and width: a low nibble, whole bytes, a high nibble |
| FrameBufFill.Gs4HmsbFillRect | MicroPython/extmod/modframebuf.c:179-210 | paints exactly the rectangle, two pixels to a byte |
| FrameBufFill.Gs8FillRect | MicroPython/extmod/modframebuf.c:221-229 | paints exactly the rectangle with one store of equal bytes a row |
| FrameBufFill.FillRect | MicroPython/extmod/modframebuf.c:247-260 | for any integers, exactly the pixels of the rectangle that are on the screen are set, all others keep their values |
| FrameBufFill.Fill | MicroPython/extmod/modframebuf.c:314-320 | sets every pixel on the screen |
| FrameBufLine.BandIsRounded | MicroPython/extmod/modframebuf.c:404-467 | the error bound |2*minor*i - 2*major*k| <= major determines the minor offset: it is the rounded one |
| FrameBufLine.WithinHalfAPixel | MicroPython/extmod/modframebuf.c:404-467 | at every major step the drawn point is within half a pixel of the true line, and a tie goes away from the start |
| FrameBufLine.PointsNearLine | MicroPython/extmod/modframebuf.c:404-467 | in plain coordinates: along the longer side point i is i pixels from the start on the way to the end, along the other side it is on that way and nearest to the true line |
| FrameBufLine.EndPoints | MicroPython/extmod/modframebuf.c:404-467 | the line starts at its first end point and reaches the second, in all octants |
| FrameBufLine.PointsTouch | MicroPython/extmod/modframebuf.c:404-467 | consecutive points are neighbours, the major coordinate advancing by exactly one |
| FrameBufLine.TrailMembers | MicroPython/extmod/modframebuf.c:404-467 | the pixels drawn are exactly the visible points of the line |
| FrameBufLine.Correct | MicroPython/extmod/modframebuf.c:454-457 | the correction loop runs at most once a step |
| FrameBufLine.Advance | MicroPython/extmod/modframebuf.c:443-460 | one trip round the loop keeps the accumulated error equal to its formula and inside the bound |
| FrameBufLine.Line | MicroPython/extmod/modframebuf.c:404-467 | paints exactly the visible points of the rounded line, the second end point included, and nothing else |
| FrameBufScroll.ScanStopsIff | MicroPython/extmod/modframebuf.c:513-542 | a scan that runs until it is at its end stops if and only if the step is not larger than the size |
| FrameBufScroll.NestedScanStopsIff | MicroPython/extmod/modframebuf.c:513-542 | the two nested scans stop exactly under a condition on the two steps and the screen |
| FrameBufScroll.SourceNotMoved | MicroPython/extmod/modframebuf.c:513-542 | the scan direction is such that a pixel's source has not been overwritten when it is read |
| FrameBufScroll.MoveOne | MicroPython/extmod/modframebuf.c:513-542 | one copied pixel adds exactly that pixel to those moved |
| FrameBufScroll.Scroll | MicroPython/extmod/modframebuf.c:513-542 | every pixel whose source is on the screen gets the source's old value, every other pixel keeps its own |
| WebSocketFrames.MaskingUndone | MicroPython/extmod/modwebsocket.c:177-180 | masking with the same key and position is undone by masking again |
| WebSocketFrames.XorIsBitwise | MicroPython/extmod/modwebsocket.c:177-180 | bytes are combined by the exclusive or of bit vectors |
| WebSocketFrames.DataMeans | MicroPython/extmod/modwebsocket.c:94-182 | byte i of what a data frame carries is byte i on the wire combined with byte i modulo 4 of the key, or the byte itself without a key; control frames carry nothing |
| WebSocketFrames.WireFormat | MicroPython/extmod/modwebsocket.c:94-161 | the bytes of a frame: flags, mask bit and length, a 16-bit length with its high byte first, the key, the payload |
| WebSocketFrames.KnownMaskedFrame | MicroPython/extmod/modwebsocket.c:94-182 | a masked frame of two bytes and what it carries |
| WebSocketFrames.HeaderParsed | MicroPython/extmod/modwebsocket.c:94-143 | the first two bytes determine opcode, length field, mask bit and how much of the header follows |
| WebSocketFrames.OptParsed | MicroPython/extmod/modwebsocket.c:145-161 | the rest of the header gives the 16-bit length and the key |
| WebSocketFrames.SentReadsBack | MicroPython/extmod/modwebsocket.c:218-254 | a written frame of fewer than 65536 bytes is a legal frame whose data is what was written |
| WebSocketFrames.AllSentReadsBack | MicroPython/extmod/modwebsocket.c:218-254 | any sequence of written messages reads back joined together |
| WebSocketFrames.EncodeMore | MicroPython/extmod/modwebsocket.c:218-254 | writing one more frame appends its bytes to the stream |
| WebSocketFrames.SentBytesAre | MicroPython/extmod/modwebsocket.c:218-254 | the bytes of a message as it is sent, for short and long ones |
| WebSocketMachine.HeaderAgrees | MicroPython/extmod/modwebsocket.c:94-143 | after a header the reader's fields agree with the place in the stream |
| WebSocketMachine.OptAgrees | MicroPython/extmod/modwebsocket.c:145-161 | after the rest of a header the fields agree with the place in the stream |
| WebSocketMachine.PayloadAgrees | MicroPython/extmod/modwebsocket.c:163-182 | after any part of the payload the fields agree with the place in the stream |
| WebSocketMachine.PayloadOwed | MicroPython/extmod/modwebsocket.c:171-182 | the bytes handed over are the owed ones; the one-byte mask position that wraps picks the right key byte |
| WebSocketMachine.FinishedAgrees | MicroPython/extmod/modwebsocket.c:183-190 | at the end of a frame the fields agree with the next header |
| WebSocketMachine.NothingLost | MicroPython/extmod/modwebsocket.c:76-216 | when nothing is on its way any more, nothing is owed |
| WebSocketMachine.ReadDelivers | MicroPython/extmod/modwebsocket.c:76-216 | one call, however the stream is split: at most the bytes asked for, in order, nothing lost; if no control frame carries more than one byte, what it returns is always owed data |
| WebSocketMachine.ResultTells | MicroPython/extmod/modwebsocket.c:76-216 | the socket's answers are used in order; the end is reported only when the last of them gave nothing, an error only when it would have blocked, none was left or a header is still incomplete |
| WebSocketLeaks.ReadsDeliver | MicroPython/extmod/modwebsocket.c:76-216 | any calls over any splitting return exactly what was owed less what still is, as long as no control frame carries more than one byte |
| WebSocketLeaks.LeaksIff | MicroPython/extmod/modwebsocket.c:76-216 | every sequence of calls that uses up the stream returns exactly the data of its frames if and only if no control frame carries more than one byte |
| WebSocketLeaks.LeakyRun | MicroPython/extmod/modwebsocket.c:182-208 | for every stream with a longer control frame there are calls that return more than its data |
| WebSocketLeaks.PingPayloadLeaks | MicroPython/extmod/modwebsocket.c:182-208 | the first byte of a two-byte ping is returned as data to a call that asks for one byte, although the stream holds no data |
| WebSocketLeaks.SentShort | MicroPython/extmod/modwebsocket.c:218-254 | a writer of data frames never sends such a frame |
| WebSocket.Connection.constructor | MicroPython/extmod/modwebsocket.c:60-74 | a new reader waits for the two bytes of a header |
| WebSocket.Connection.FillBuf | MicroPython/extmod/modwebsocket.c:80-91 | a short read of header bytes is kept and the rest asked for later; nothing else changes |
| WebSocket.Connection.Header | MicroPython/extmod/modwebsocket.c:94-143 | the fields after a header are the specified ones |
| WebSocket.Connection.NoteFlags | MicroPython/extmod/modwebsocket.c:101-110 | a continuation keeps the type of the frame before it, any other frame, also a control frame, replaces it |
| WebSocket.Connection.Opt | MicroPython/extmod/modwebsocket.c:145-161 | the fields after the rest of a header are the specified ones |
| WebSocket.Connection.Demask | MicroPython/extmod/modwebsocket.c:177-180 | each byte is combined by exclusive or with the key byte its position selects |
| WebSocket.Connection.ReadStep | MicroPython/extmod/modwebsocket.c:80-208 | one trip round the loop, on any bytes and for any answer of the socket, leaves the call's result what it was and is nearer to its end, or gives it |
| WebSocket.Connection.Read | MicroPython/extmod/modwebsocket.c:76-216 | on any stream of legal frames, whatever the socket answers, the loop computes the specified call and keeps the reader in step with the stream; if no control frame carries more than one byte, what it returns is owed data |
| WebSocket.Connection.ReadMany | MicroPython/extmod/modwebsocket.c:76-216 | calls of any sizes over any splitting return, joined together, what was owed at first less what is still owed, and all of it once the stream is used up, if no control frame carries more than one byte |
| WebSocket.Connection.Write | MicroPython/extmod/modwebsocket.c:218-254 | writes exactly the encoding of one frame |
| WebSocket.Exchange | MicroPython/extmod/modwebsocket.c:76-254 | messages written one after the other and read back in reads of any sizes over any splitting: what is received is a prefix of the messages joined, and all of it once the stream is used up |
| JsonText.EntriesAreMembers | MicroPython/extmod/modujson.c:238-251 | with distinct keys the entries of a dictionary are exactly the members of the text |
| JsonText.LastMemberStays | MicroPython/extmod/modujson.c:238-251 | whatever the keys, a key holds the value of its last member, or what it held before if it has none |
| JsonText.LegalIsReadable | MicroPython/extmod/modujson.c:58-66 | every JSON text is one of those the reader takes, which may have commas and colons wherever there may be white space and either bracket at the end of a container |
| JsonText.DigitsAreDecimal | MicroPython/extmod/modujson.c:181-202 | each digit of a number stands for itself at its place, counted from the right |
| JsonText.KnownMeanings | MicroPython/extmod/modujson.c:104-144 | what keywords and signs stand for, and which bytes are white space |
| JsonText.KnownTexts | MicroPython/extmod/modujson.c:104-229 | keywords, numbers, strings and empty containers in plain bytes |
| JsonText.KnownStrings | MicroPython/extmod/modujson.c:145-180 | plain, escaped and numbered characters in plain bytes |
| JsonText.KnownArrays | MicroPython/extmod/modujson.c:205-207 | arrays of one and two elements in plain bytes |
| JsonText.KnownObjects | MicroPython/extmod/modujson.c:208-211 | objects of one member in plain bytes |
| JsonText.Utf8RoundTrip | MicroPython/py/vstr.c:146-173 | the bytes stored for an escaped character are its UTF-8 form, from which it is read back whatever follows |
| JsonText.KnownUtf8 | MicroPython/py/vstr.c:146-173 | one character of each length in UTF-8 |
| JsonScan.HexDigitRight | MicroPython/extmod/modujson.c:160-163 | the byte arithmetic gives every hexadecimal digit of either case its value |
| JsonScan.HexRight | MicroPython/extmod/modujson.c:157-166 | four digits give the number they stand for |
| JsonScan.CharScans | MicroPython/extmod/modujson.c:148-173 | any legal character, plain or escaped, is read as its bytes, escapes by the table of section 2.5 of RFC 4627 |
| JsonScan.EscapesScan | MicroPython/extmod/modujson.c:148-173 | the eight escapes of two bytes in plain bytes, each with the byte it stands for |
| JsonScan.StringScans | MicroPython/extmod/modujson.c:145-180 | any legal string is read as its bytes up to the closing quote |
| JsonScan.NumberScans | MicroPython/extmod/modujson.c:181-197 | an integer is scanned whole and no further |
| JsonScan.NumberParses | MicroPython/extmod/modujson.c:198-202 | the scanned text of an integer parses to its value |
| JsonScan.IntegersOnly | MicroPython/extmod/modujson.c:198-202 | of the texts without a point or an exponent exactly the integers as written are numbers |
| JsonMachine.LexShortens | MicroPython/extmod/modujson.c:104-229 | every token takes up at least one byte, so the loop ends |
| JsonMachine.StepKeepsPath | MicroPython/extmod/modujson.c:104-263 | on every input the stack stays the path of open containers, each the last one put into the one before it |
| JsonCorrect.ShowsOne | MicroPython/extmod/modujson.c:104-282 | what the reader returns shows at most one tree |
| JsonCorrect.ValueRuns | MicroPython/extmod/modujson.c:104-263 | a value inside a container is attached to it, shows its tree, and nothing else is touched |
| JsonCorrect.ElemsRun | MicroPython/extmod/modujson.c:238-240 | the elements of an array are appended in order |
| JsonCorrect.MembersRun | MicroPython/extmod/modujson.c:241-251 | the members of an object are stored under their keys |
| JsonCorrect.LoadReadsText | MicroPython/extmod/modujson.c:92-282 | every legal text of a value, nested to any depth, with any white space and escapes, is read as exactly the tree it stands for |
| JsonCorrect.LoadEndsIff | MicroPython/extmod/modujson.c:92-282 | the same for every text the reader takes, JSON or not; it is an error if and only if anything but white space follows |
| JsonCorrect.LoadUnclosed | MicroPython/extmod/modujson.c:92-282 | an outermost container that is never closed is read all the same |
| JsonCorrect.NothingIsNoText | MicroPython/extmod/modujson.c:92-282 | white space, commas and colons alone are an error |
| JsonReader.ReadInteger | MicroPython/py/parsenum.c:46-132 | the value of an optional minus sign and digits, an error for anything else a number can consist of |
| JsonReader.Reader.ReadWord | MicroPython/extmod/modujson.c:121-144 | a keyword is accepted only in full |
| JsonReader.Reader.ReadHex | MicroPython/extmod/modujson.c:157-166 | the escape loop computes the specified number, which is always a character number |
| JsonReader.Reader.ReadString | MicroPython/extmod/modujson.c:145-180 | the string loop is the specified scanner |
| JsonReader.Reader.ReadNumber | MicroPython/extmod/modujson.c:181-197 | the number loop is the specified scanner, and its flag tells whether a point or an exponent was met |
| JsonReader.Reader.ReadPrimitive | MicroPython/extmod/modujson.c:121-203 | the token functions and the switch agree |
| JsonReader.Reader.Add | MicroPython/extmod/modujson.c:238-251 | appends to a list, or stores under the waiting key |
| JsonReader.Reader.Enter | MicroPython/extmod/modujson.c:204-262 | a new container is attached at once and becomes the innermost; it cannot be a key |
| JsonReader.Reader.Leave | MicroPython/extmod/modujson.c:212-226 | the container around the innermost becomes the innermost |
| JsonReader.Reader.End | MicroPython/extmod/modujson.c:264-282 | only white space may follow, and one complete value must be there |
| JsonReader.Reader.Load | MicroPython/extmod/modujson.c:92-282 | the loop computes the machine's result on every input, legal or not |
| JsonReader.Loads | MicroPython/extmod/modujson.c:285-291 | reads a string; the result is that of the machine |
| I2CBus.BitsGiveValue | MicroPython/extmod/machine_i2c.c:117-130 | bits sent most significant first stand for the byte they came from |
| I2CBus.KnownSamples | MicroPython/extmod/machine_i2c.c:77-147 | what a monitor makes of a start, a stop, a bit and a change while the clock is low |
| I2CBus.FrameInBits | MicroPython/extmod/machine_i2c.c:113-147 | a byte goes over the wire with its most significant bit first, and the acknowledge bit last |
| I2CBus.ByteInBits | MicroPython/extmod/machine_i2c.c:149-180 | eight bits on the wire are a byte, the first bit the most significant |
| I2CBus.FramesParsed | MicroPython/extmod/machine_i2c.c:113-147 | a monitor reads back exactly the bytes and acknowledgements of any transaction |
| I2CBus.TransactionParsed | MicroPython/extmod/machine_i2c.c:185-264 | a start followed by the events of a transaction parses back to it |
| I2CBus.ChangesAreMarks | MicroPython/extmod/machine_i2c.c:77-180 | on any trace the data wire changes while the clock is high exactly as often as there are starts and stops |
| I2CBus.TransactionMarks | MicroPython/extmod/machine_i2c.c:185-264 | the events of a transaction hold one start, and a stop exactly if it is to end with one; there is no third such change |
| I2CMaster.Master.SclLow | MicroPython/extmod/machine_i2c.c:46-48 | a bit is complete when the clock falls, and the slave may move only then |
| I2CMaster.Master.Start | MicroPython/extmod/machine_i2c.c:77-87 | the monitor sees one start, from a free bus as well as after a transaction without a stop |
| I2CMaster.Master.Stop | MicroPython/extmod/machine_i2c.c:89-97 | the monitor sees one stop and the bus is free |
| I2CMaster.Master.WriteByte | MicroPython/extmod/machine_i2c.c:113-144 | the monitor sees the byte and the slave's answer, which is the result, and no start or stop |
| I2CMaster.Master.ReadByte | MicroPython/extmod/machine_i2c.c:149-180 | the byte returned is the one the slave put on the wire, and the monitor sees it with the master's answer |
| I2CMaster.Master.WriteAll | MicroPython/extmod/machine_i2c.c:206-216 | bytes are sent until one is refused; the acknowledged ones are counted |
| I2CMaster.Master.WriteTo | MicroPython/extmod/machine_i2c.c:185-226 | the trace is exactly start, address byte, attempted bytes with their acknowledgements, and a stop if wanted or refused; the result counts acknowledged bytes or says that nobody answered |
| I2CMaster.Master.ReadFrom | MicroPython/extmod/machine_i2c.c:231-268 | the trace is exactly the read transaction, only the last byte refused; the bytes returned are those on the wire |
| I2CMaster.SentIsPrefix | MicroPython/extmod/machine_i2c.c:206-216 | what is sent is a prefix of the data, and it ends early only at a refusal |
| I2CMaster.SentCounts | MicroPython/extmod/machine_i2c.c:206-216 | the count is that of the bytes sent, less the refused one |
| I2CMaster.ReceivedAre | MicroPython/extmod/machine_i2c.c:231-268 | byte i of those read is the one on the wire at its time, and only the last is refused |
| I2CMaster.AddressParsed | MicroPython/extmod/machine_i2c.c:194-195 | the monitor reads any seven-bit address and the direction out of the first byte |
| I2CMaster.SlaveBitsAgain | MicroPython/extmod/machine_i2c.c:157-165 | shifting in eight bits keeps them: the byte has exactly the bits that were on the wire |
| Tiles2048.MergeConserves | Examples/2048.py:508-519 | joining keeps the sum of the tiles |
| Tiles2048.RunMerges | Examples/2048.py:390-458 | equal tiles in a row are joined in pairs, and one is left over if their number is odd |
| Tiles2048.MergeSplits | Examples/2048.py:390-458 | tiles with no equal neighbours across a seam are joined on either side of it, so each tile is joined at most once |
| Tiles2048.SlidMeans | Examples/2048.py:397-458 | a slide leaves the joined tiles from the edge on, and gaps behind them |
| Tiles2048.CompactIsFill | Examples/2048.py:375-388 | a line without gaps is determined by its tiles |
| Tiles2048.JoinedHalf | Examples/2048.py:390-395 | each join of neighbours is the next step of the merge |
| Tiles2048.StaysHalf | Examples/2048.py:390-395 | where nothing joins, the tile is final |
| Tiles2048.SettlingDrags | Examples/2048.py:375-388 | dragging a tile into the gap keeps it the only one out of place, and only happens on a line that had a gap |
| Tiles2048.ChangeLeavesRoom | Examples/2048.py:460-477 | a line that a move changes has an empty cell afterwards |
| Tiles2048.FullLineStaysIff | Examples/2048.py:375-395 | a full line is left alone by a slide if and only if no two neighbours are equal |
| Board2048.LinesDetermine | Examples/2048.py:375-458 | the lines of a grid determine it |
| Board2048.LinesInPlain | Examples/2048.py:375-458 | how the lines of the four directions run, in plain coordinates |
| Board2048.MoveConserves | Examples/2048.py:397-458 | a move keeps the sum of the tiles of any lines of its direction |
| Board2048.TotalIsGridSum | Examples/2048.py:375-458 | whichever way the lines run, their total is the sum of the whole grid |
| Board2048.MoveKeepsGridSum | Examples/2048.py:397-458 | a move in any of the four directions keeps the sum of the whole grid |
| Board2048.MoveLeavesRoom | Examples/2048.py:460-501 | a move that changes the grid leaves an empty cell for the new tile |
| Board2048.FullAfterIff | Examples/2048.py:460-475 | after a slide the board is full if and only if it was and no neighbours along the key's lines are equal |
| Board2048.StuckIff | Examples/2048.py:375-458 | on a full board a key moves nothing if and only if no neighbours along its lines are equal |
| Board2048.LostTooSoonIff | Examples/2048.py:460-475 | a key declares the game lost while another key would still move something if and only if the board is full, no neighbours along the key's lines are equal, and some neighbours across them are |
| Board2048.OverTooSoon | Examples/2048.py:460-475 | an instance: two equal pairs in the columns of a two-by-two board, and a key along the rows |
| Board2048.Board.Drag | Examples/2048.py:521-530 | moves one item to an empty cell, its stored position with it, and notes the move |
| Board2048.Board.Join | Examples/2048.py:508-519 | two equal items become one of twice the value in the cell moved to; unequal ones are left alone |
| Board2048.Board.Settle | Examples/2048.py:375-388 | a tile slides past exactly the gaps before it |
| Board2048.Board.Compress | Examples/2048.py:375-434 | closes all gaps of a line and touches no other line; the flag is set exactly when something moved |
| Board2048.Board.TestAndJoin | Examples/2048.py:390-395 | joins exactly two equal neighbours |
| Board2048.Board.JoinAll | Examples/2048.py:397-434 | the joining pass merges the tiles once each, from the edge moved to |
| Board2048.Board.MoveLine | Examples/2048.py:397-458 | a line becomes its slid form; the flag is set exactly when that differs |
| Board2048.Board.MoveLines | Examples/2048.py:397-458 | all lines are slid, in each of the four directions, and the flag is set exactly when the grid changed |
| Board2048.Board.CountItems | Examples/2048.py:566-573 | the count reaches the number of cells exactly when the board is full |
| Board2048.Board.AddRandom | Examples/2048.py:488-501 | a new tile of value 2 in a cell that was empty, whatever the random number |
| Board2048.Board.Move | Examples/2048.py:460-477 | the whole move: slide, a loss exactly on a full board without equal neighbours along the key's lines, a win, and a new tile exactly when the grid changed |
| VfsPaths.FirstIsLongest | MicroPython/extmod/vfs.c:61-76 | in an ordered table the first match is the longest, and the newest among root mounts |
| VfsPaths.HoldsMeans | MicroPython/extmod/vfs.c:61-76 | a mount point holds its own path and all paths below it, and at the root everything |
| VfsPaths.RestRebuilds | MicroPython/extmod/vfs.c:63-74 | mount point and remainder give the path back |
| VfsPaths.MountKeepsOrder | MicroPython/extmod/vfs.c:193-215 | a mount that the check allows keeps root mounts last and no directory before one below it |
| VfsPaths.UnmountKeepsOrder | MicroPython/extmod/vfs.c:229-235 | removing any entry keeps the table in order |
| VfsPaths.OrderNeeded | MicroPython/extmod/vfs.c:61-76 | without the order the first match could hide a longer one |
| VfsTable.Table.Lookup | MicroPython/extmod/vfs.c:49-89 | for every path, absolute or relative: the first match with its remainder, the virtual root, the current volume or nothing; at a root mount the remainder is the path as given |
| VfsTable.Table.Search | MicroPython/extmod/vfs.c:61-76 | the walk of the linked list finds the first match |
| VfsTable.Check | MicroPython/extmod/vfs.c:62-75 | comparing without the leading slash is comparing whole path components |
| VfsTable.Table.MountAt | MicroPython/extmod/vfs.c:193-217 | mounts exactly when the point is free, in front of the root mounts, and keeps the table in order |
| VfsTable.Table.Insert | MicroPython/extmod/vfs.c:205-215 | the new entry is linked in at the first root mount and the list stays intact |
| VfsTable.Table.Umount | MicroPython/extmod/vfs.c:221-244 | takes out exactly the first entry named, or reports that there is none; the current volume falls back to the root if it was that one |
| Base64.LetterSextet | MicroPython/extmod/modubinascii.c:108-122 | the decoder's table undoes the encoder's for all 64 letters, and the pad is not a letter |
| Base64.LetterInAlphabet | MicroPython/extmod/modubinascii.c:197-212 | the letters are those of table 1 of RFC 4648, in its order |
| Base64.EncodeMeans | MicroPython/extmod/modubinascii.c:167-217 | every three bytes become four letters for six bits each, the first bits first; a letter for which no byte is left is a pad; a newline comes last |
| Base64.DecodeFailsIff | MicroPython/extmod/modubinascii.c:124-164 | a text is refused if and only if no pad closes it and its letters are no multiple of four |
| Base64.NoiseSkipped | MicroPython/extmod/modubinascii.c:145-151 | characters outside the alphabet make no difference wherever they stand |
| Base64.TakeMeans | MicroPython/extmod/modubinascii.c:149-156 | a step gives out only bits that were waiting, so losing the high bits of the 32-bit register does no harm |
| Base64.FourLetters | MicroPython/extmod/modubinascii.c:136-157 | four letters give back the three bytes they encode |
| Base64.LastOne | MicroPython/extmod/modubinascii.c:137-143 | two letters and two pads give back one byte |
| Base64.LastTwo | MicroPython/extmod/modubinascii.c:137-143 | three letters and a pad give back two bytes |
| Base64.DecodeEncode | MicroPython/extmod/modubinascii.c:124-217 | decoding undoes encoding for every byte string, trailing newline included |
| Base64.DecodeNoisy | MicroPython/extmod/modubinascii.c:124-164 | any text with the same clean form as an encoding decodes to the same bytes |
| Base64.A2b | MicroPython/extmod/modubinascii.c:124-164 | the decoding loop is the specified decoder, errors included |
| Base64.Sextets | MicroPython/extmod/modubinascii.c:174-195 | the first pass writes the sextets and pad values |
| Base64.ToLetters | MicroPython/extmod/modubinascii.c:197-215 | the second pass turns them into letters in place and adds the newline |
| Base64.B2a | MicroPython/extmod/modubinascii.c:167-217 | the two passes give the specified encoding |
| CommandLine.EscapedPassed | MicroPythonApp/MicroPython.c:146-168 | the search for a closing quote passes over an escaped text |
| CommandLine.UnescapeEscaped | MicroPythonApp/MicroPython.c:294-320 | removing the escapes undoes escaping |
| CommandLine.QuotedEnds | MicroPythonApp/MicroPython.c:176-210 | a quoted parameter ends with its closing quote |
| CommandLine.ParseJoined | MicroPythonApp/MicroPython.c:372-446 | parsing a line of quoted arguments gives back the arguments, for every list |
| CommandLine.QuotingUndone | MicroPythonApp/MicroPython.c:372-446 | quoting, trimming and parsing gives back every argument list |
| CommandWords.LineParses | MicroPythonApp/MicroPython.c:146-323 | every line of words with spaces between them is parsed into what the words stand for; words are made of plain, escaped and quoted characters, and quotes are kept or dropped |
| CommandWords.OpenQuoteRefused | MicroPythonApp/MicroPython.c:176-210 | a line whose last word has a quote that is never closed is refused, with the words before it found |
| CommandWords.NextStatus | MicroPythonApp/MicroPython.c:236-323 | nothing but spaces is an invalid parameter, and an open quote is an end not found |
| CommandLine.TrimMeans | MicroPythonApp/MicroPython.c:335-356 | trimming takes away spaces and tabs at both ends, all of them and nothing else |
| CommandLine.PassesAgree | MicroPythonApp/MicroPython.c:409-446 | for every line, stripping quotes or not, both passes find the same number of parameters and fail alike |
| CommandLine.FindFirstCharacter | MicroPythonApp/MicroPython.c:146-168 | the two nested loops compute the specified place |
| CommandLine.FindEndOfParameter | MicroPythonApp/MicroPython.c:176-210 | the recursion ends and computes the specified end, or finds an open quote |
| CommandLine.RemoveMarks | MicroPythonApp/MicroPython.c:294-320 | the in-place removal loop ends and gives the unescaped text |
| CommandLine.GetNextParameter | MicroPythonApp/MicroPython.c:236-323 | status, parameter and rest of the line are the specified ones |
| CommandLine.TrimSpaces | MicroPythonApp/MicroPython.c:335-356 | removes exactly the spaces and tabs at both ends |
| CommandLine.ParseLoadOptionsToArgs | MicroPythonApp/MicroPython.c:372-446 | the result is that of the specified parser; the slots counted in the first pass suffice for the second |
| Terminal.PutProper | VirtualConsoleDxe/VirtualConOut.c:173-299 | whatever the character, the cursor stays on the screen |
| Terminal.LineFeedGoesDown | VirtualConsoleDxe/VirtualConOut.c:193-221 | a line feed moves the cursor a row down; on the last row every row goes one up instead and the last becomes empty |
| Terminal.CarriageReturnGoesBack | VirtualConsoleDxe/VirtualConOut.c:222-227 | a carriage return moves the cursor to the start of its row and changes nothing else |
| Terminal.BackspaceErases | VirtualConsoleDxe/VirtualConOut.c:175-192 | a backspace moves the cursor one place left, from the start of a row to the end of the one above, and erases the character there |
| Terminal.PrintWrites | VirtualConsoleDxe/VirtualConOut.c:239-299 | a character is written at the cursor, or at the start of the next line if it does not fit, and the cursor moves behind it, or to the next line if that is over the edge |
| Terminal.MarkersSet | VirtualConsoleDxe/VirtualConOut.c:229-237 | a width marker sets the width and prints nothing |
| Terminal.OutputJoins | VirtualConsoleDxe/VirtualConOut.c:137-306 | two calls print what one call would as long as the first string leaves the width as it found it |
| Terminal.OutputJoinsIff | VirtualConsoleDxe/VirtualConOut.c:137-306 | for every second string two calls print what one would, exactly when the first string leaves the width as it found it |
| Terminal.NoMarkers | VirtualConsoleDxe/VirtualConOut.c:229-237 | a string without width markers leaves the width as it found it |
| Terminal.MarkerForgotten | VirtualConsoleDxe/VirtualConOut.c:301 | a width set at the end of one call is forgotten before the next |
| Terminal.PrintWraps | VirtualConsoleDxe/VirtualConOut.c:266-273 | a wide character that does not fit goes to the next line |
| Terminal.OutputEndsIff | VirtualConsoleDxe/VirtualConOut.c:137-306 | the driver's loop ends if and only if there are two columns or no character is to be printed while the width is wide |
| Terminal.TripGoes | VirtualConsoleDxe/VirtualConOut.c:239-299 | where the loop ends, every trip takes up characters or, for a wide character that does not fit, moves the cursor to the left |
| Terminal.BatchPrints | VirtualConsoleDxe/VirtualConOut.c:253-286 | printing a batch and then the rest of the word gives the same as printing its characters one at a time |
| VirtualConsole.Console.Backspace | VirtualConsoleDxe/VirtualConOut.c:175-192 | moves back, also over the line's start, and erases the character |
| VirtualConsole.Console.Scroll | VirtualConsoleDxe/VirtualConOut.c:199-215 | every row moves up by one and the last becomes blank |
| VirtualConsole.Console.PlaceRun | VirtualConsoleDxe/VirtualConOut.c:253-286 | the loop places exactly one batch |
| VirtualConsole.Console.PrintRun | VirtualConsoleDxe/VirtualConOut.c:239-299 | is one trip of the specified loop |
| VirtualConsole.Console.OutputString | VirtualConsoleDxe/VirtualConOut.c:137-306 | on every string for which the source's loop ends, leaves the screen and cursor of a terminal that takes one character at a time, with the cursor on the screen |
| RandomRange.BelowReached | MicroPython/extmod/modurandom.c:59-69 | every number below the bound can come out |
| RandomRange.BelowExact | MicroPython/extmod/modurandom.c:59-69 | the numbers that can come out are exactly those below the bound |
| RandomRange.BelowMeans | MicroPython/extmod/modurandom.c:59-69 | what comes out is the first word below the bound, after each is cut to the fewest bits that hold the bound |
| RandomRange.AllReachedIff | MicroPython/extmod/modurandom.c:59-69 | every number below a count can come out if and only if the count is below 2^32: larger ones are cut to 32 bits |
| RandomRange.CountExact | MicroPython/extmod/modurandom.c:119-125 | the count, by truncating division for either sign of the step, is exactly the number of steps inside the range |
| RandomRange.RandBelow | MicroPython/extmod/modurandom.c:59-69 | the mask is the smallest that covers the bound, and the first word below the bound is taken |
| RandomRange.RandRange | MicroPython/extmod/modurandom.c:97-136 | an error exactly for an empty range or a zero step; otherwise a member of the range, which one being a function of the generator's words |
| RandomRange.RandRangeTo | MicroPython/extmod/modurandom.c:97-105 | with one argument, an error exactly for a bound that is not positive; otherwise a number below it |
| RandomRange.RandRangeFrom | MicroPython/extmod/modurandom.c:106-114 | with two, an error exactly for an empty interval; otherwise a number in it |
| RandomRange.RandInt | MicroPython/extmod/modurandom.c:139-147 | an error exactly for an empty interval; otherwise a number with both ends included |

## Left out

- Assembler: the other x64 instructions and operand sizes, calls, stack frames, and the ports `asmx86.c`, `asmarm.c` and `asmxtensa.c`; they repeat the sizing logic or have fixed sizes.
- Assembler: executable-memory allocation, cache flushing, and programs of 2^31 bytes or more.
- AsmX64.DecodeEncode: leaves out the padded move, which has a lemma of its own, and the operand of register 13 without displacement, which is not read back.
- AsmX64Run.BytesRunProgram: a program that uses register 13 without a displacement as an operand is outside `Runnable`; the effects of instructions on registers and memory are recorded, not executed.
- AsmThumbRun.BytesRunProgram: asks that every branch reaches its label, because others do not go there; other operations are recorded by their halfwords, and IT blocks and raw operations that write the program counter or have a branch's bits are not modelled.
- AsmBase.Asm.StartPass: running out of executable memory is not modelled.
- HeapQ.ObjList.HeapPush: raising from a comparison in the middle of a sift is not modelled; the order is a total function.
- TimeQ.TimeQueue.HeapPush: the id counter does not wrap and the times in the queue share a half-period window; by `TimeQ.OrderedIff` the only other queues in order hold two entries exactly half a period apart, which are left out.
- TimeQ.TimeQueue.HeapPop: the check of the result list's type and length is not modelled.
- Frame buffer: blitting, text, and the 16-bit overflow of a rounded stride in the constructor; index arithmetic stays below 2^31.
- FrameBufScroll.Scroll: is stated for the steps for which the source's loops stop.
- WebSocket: the close handshake, fragmented messages, 64-bit lengths and write errors, which the source asserts away, switches off or leaves to the socket.
- WebSocket.Connection.ReadMany: asks for control frames of at most one byte, because with a longer one the reader hands its payload over as data.
- JSON: numbers with a fraction or an exponent keep their text, because the conversion is in another file; surrogate pairs are excluded as in the source; key equality between numbers and booleans and running out of memory are not modelled.
- JsonCorrect.LoadEndsIff: keeps the one comma between two values and the one colon behind a key, which the reader does not need; which inputs without them are accepted is only given by the machine.
- I2C: timing, and clock stretching beyond the timeout; a slave that stretches less makes the same trace.
- I2CMaster.Master.WriteTo: asks that the slave leaves the data wire alone while the master sends, as the bus rules demand.
- 2048: everything that draws, animates or deletes objects of the user interface.
- Mount table: the methods of the mounted file systems and their exceptions, `chdir`, and mount points that are not absolute or end in a slash.
- Base64: the allocation of the decoder's output, which grows here; `hexlify`, `unhexlify` and `crc32`.
- Command line: allocation failures, and the null characters that end C strings.
- Text console: the history, whose rows are overwritten after they are saved; locks, modes and clearing the screen.  The codes of the two width markers come from a header that is not part of this model.
- VirtualConsole.Console.OutputString: asks for two columns or nothing to be printed wide, because otherwise the source's loop does not end; a console without columns is not modelled.
- Terminal.OutputJoinsIff: asks for two columns, so that both strings end.
- RandomRange.RandRange: bounds are unbounded integers, where the source's are machine words whose difference may overflow; no claim that rejection ends or about the quality of the generator, which is any sequence of words.
- Garbage collection, boxing of arguments and error messages everywhere.
