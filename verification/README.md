# Verified models of kernel and bootloader cores

This project states and proves, in Dafny 4.11, what the algorithmic cores of this kernel and its
bootloader compute.  It checks with `dafny verify dfyconfig.toml`.

| files | system part |
|---|---|
| `Machine.dfy` | fixed-width integers |
| `Decimal.dfy`, `Utf16.dfy`, `Output.dfy`, `Format.dfy`, `Vsnprintf.dfy`, `FormatText.dfy`, `FormatMeaning.dfy` | the kernel formatter, `lib/vsprintf.c` |
| `CharTable.dfy`, `CharSpan.dfy`, `CharDevice.dfy` | the character-device registry, `fs/char_device.c` |
| `Ccitt.dfy`, `CcittTable.dfy`, `Xmodem.dfy`, `XmodemProtocol.dfy`, `XmodemLine.dfy`, `XmodemWire.dfy`, `XmodemReceiver.dfy`, `Flash.dfy` | the XMODEM receiver and the flash writer, `bootloader/rp2350/flash_program.c` |
| `Bvec.dfy` | scatter-gather iterators, `include/linux/bvec.h` |
| `Initramfs.dfy` | the inode and dentry graph, `fs/initramfs/initramfs.c` |
| `Gf2.dfy`, `Crc8.dfy`, `Crc8Table.dfy`, `Crc8Theory.dfy` | table-driven CRC-8, `lib/crc8.c` |
| `Partition.dfy` | the MBR partition table, `block/partition.c` |
| `TimeLoop.dfy` | the round-robin task ring, `lib/time_loop.c` |
| `Memchr.dfy` | `memchr_inv`, `lib/_string.c` |

Code that updates state in place is imperative here too: buffers are arrays, the registry, the
task ring and the serial line are classes on the heap, and loops are loops.  Each such method is
proved against a specification function, and the theorems are about those functions and about
runs.  Where the source uses a cast or unsigned arithmetic, the model wraps explicitly.

How to read the main results:

- **Formatter.** `Vsnprintf.Render` is the unbounded text of a format.  `Vsnprintf.Vsnprintf`
  ties the buffer and the result to it for every size.  The text itself is built from
  `NumberText`, `Pad` and `StringGlyphs`, which describe fields the way section 7.21.6.1 of
  ISO/IEC 9899:2011 does, and from `Digits` and `Encode`, whose round trips are proved.
  `RenderWith` takes the reader of the format and the renderer of conversions as arguments; the
  guard that a reader advances always holds for `NextRound`.  `FormatMeaning` says what literal
  text, written specifications, integers and strings print without these functions, in terms of
  characters, values and positions.
- **Registry.** `CharTable` and `CharSpan` treat the registry as a table of chains and prove the
  interval-map theorems; `CharDevice` proves that the linked chains compute the same table.
  `SpanExactly` says when a span is registered and which error comes otherwise, `AllOrNothing`
  what the call leaves behind.
- **XMODEM.** `Xmodem.Receive` is what one complete packet does, and `XmodemProtocol` composes it
  with a stop-and-wait sender: safety over every run, which states are stuck and how they are
  reached, and from which states the transfer can still finish.  `XmodemLine.CallCourse` is what
  the receiver does to any line of bytes and timeouts, and `XmodemReceiver` proves that the
  byte-level code does just that.  `CleanCourse` says that a file without loss arrives, and
  `XmodemWire.LossyCourse` that a line with losses takes the receiver through the exchange of
  `XmodemProtocol`.  `Ccitt` shifts the 16-bit checksum bit by bit and proves that it is the
  remainder of polynomial division, and `CcittTable` that the constant table agrees.
- **CRC-8.** `Crc8.Serial` shifts bit by bit.  `Crc8Table` proves that the generated tables
  compute it, and `Crc8Theory` that it is the remainder of polynomial division.

Behaviour of the source that the theorems had to respect, each with its exact condition:

- `vsnprintf` prints 0x before a hexadecimal zero under the `#` flag as long as there is a digit;
  section 7.21.6.1 of ISO/IEC 9899:2011 asks for it only for nonzero results.  The model follows
  the code; `StandardExactly` says when its text is the standard's, and `ZeroIsMarked` gives an
  input for which it is not.
- The first loop of `find_dynamic_major` counts from 126 down to 234 and never runs; it is not
  shown.
- The minor-range check of `__register_chrdev_region` accepts base minors above 2^20
  (`SizeCheckTooLoose`, `SizeCheckExact`).  They leave the range of device numbers
  (`InRangeExactly`, `AboveRange`, `DevExactly`), but the chains stay in order up to the point where
  the end of a region wraps around in 32 bits, and no further (`RegisterEffect`, `FindableExactly`,
  `RunKeepsGood`); from there on the same numbers can be registered again (`TwiceExactly`,
  `TwoOwners`).
- `register_chrdev_region` is not all or nothing for a span that begins in major 0, and does
  nothing for a span whose end wraps (`SuccessCoversExactly`, `FailureRestoresExactly`,
  `MajorZeroLeaks`, and the inputs `LeakExample` and `WrapExample`).  `unregister_chrdev_region`
  does not end for a span that reaches into major 4095 (`UnregisterEndsExactly`).
- The receiver compares the packet number with `packetno - 1` as an int, so a repeated packet 255
  is refused while 0 is expected: data stays correct, but the transfer never advances again
  (`ProgressExactly`, `StuckForever`, `StuckExactly`).  Every file of at least 255 blocks can end up
  there (`StuckWitness`, `StuckReachable`, and byte by byte `StuckOnTheLine`).
- The guard of `Flash_Write_Page` wraps for page numbers from 2^20 - 1 on (`PageCheckExact`); page
  2^20 overwrites the first sector (`PageCheckTooLoose`, `SectorsMeet`).
- The size clamp of `mbr_partition_table_format` wraps when start plus request reaches 2^32
  (`CreateExactly`, `CreatePastEnd`).  Line 407 passes the device where the partition is meant; the
  model reads the partition.
- `add_task_to_task_pool` never replaces the head, so priorities stay in order only under the
  condition of `OrderExactly`; `remove_task_from_pool` never updates it (`RemoveTask`), so
  runs are about removals behind the head (`TimeLoop.Run`).
- Deleting a file that has been given entries of its own leaves counts that nothing accounts for
  (`LeaveNeedsNoEntries`, `FreedWithEntries`).

## Model

| member | source | states |
|---|---|---|
| Decimal.DigitsDenote | lib/vsprintf.c:74-111 | the digit sequence used as specification denotes n in its base and has no leading zero |
| Decimal.DigitsUnique | lib/vsprintf.c:74-111 | any digit sequence without a leading zero is the one that `Digits` gives for its value, so the two directions make decimal text canonical |
| Decimal.Reciprocal10 | lib/vsprintf.c:33-49 | `r * 0xccd >> 15` is r / 10 for every r below 16389, in 32-bit arithmetic, and 16389 is the first failure |
| Decimal.Reciprocal10000 | lib/vsprintf.c:53-67 | `x * 0x346DC5D7 >> 43` is x / 10000 for every x below 1,128,869,999, in 64-bit arithmetic, and 1,128,869,999 is the first failure |
| Decimal.PutDecFull4 | lib/vsprintf.c:33-49 | the four decimal digits of r, leading zeros included, end up just before `end`, and nothing else in the buffer changes |
| Decimal.PutDecHelper4 | lib/vsprintf.c:53-67 | the lowest four digits of x are written and the quotient by 10000 is returned |
| Decimal.LimbBounds | lib/vsprintf.c:83-104 | for any four 16-bit limbs all four carries stay below the exactness bound of the reciprocal, the second below the stated maximum, and the last quotient below 10000 |
| Decimal.LargestCarry | lib/vsprintf.c:53-60 | the stated largest value 1,125,520,955 is reached, by the all-ones number |
| Decimal.LimbGroups | lib/vsprintf.c:81-104 | the remainders of the carries are the base-10000 groups of the 64-bit number that the limbs make up |
| Decimal.Carries | lib/vsprintf.c:74-104 | none of the 32-bit sums of put_dec wraps, for every 64-bit n, and their remainders are the groups of n |
| Decimal.FixedIsPadded | lib/vsprintf.c:106-110 | twenty fixed digits are leading zeros followed by the canonical digits, and never more than twenty are needed |
| Decimal.PutDec | lib/vsprintf.c:74-111 | for every 64-bit n the bytes from the result to `end` are exactly the canonical decimal digits, in at most 20 bytes, with the rest of the buffer unchanged |
| Decimal.StripZeros | lib/vsprintf.c:106-110 | skipping zeros stops exactly at the first digit of the canonical text |
| Decimal.NumberFits | lib/vsprintf.c:304-306 | a 64-bit number in base 8 or 16 never needs more than the 22 bytes reserved for it |
| Decimal.PutOctal | lib/vsprintf.c:129-132 | the base 8 loop produces the canonical octal digits inside the 22 bytes |
| Decimal.PutHex | lib/vsprintf.c:133-136 | the base 16 loop produces the canonical hexadecimal digits in the requested case |
| Decimal.Number | lib/vsprintf.c:113-142 | for base 8, 10 or 16 the bytes up to `end` are the canonical digits of the number; zero gives no digit at all |
| Utf16.DecodeInverts | lib/vsprintf.c:274-293 | decoding the UTF-16 form of any sequence of code points gives that sequence back |
| Utf16.EncodeRoundTrip | lib/vsprintf.c:506-538 | a strict UTF-8 reader, which refuses overlong forms and surrogates, reads back every encoded sequence |
| Utf16.SizeIsEncoded | lib/vsprintf.c:243-272 | the measured size is the length of the UTF-8 form of exactly the characters taken |
| Utf16.TakenIsPrefix | lib/vsprintf.c:243-272 | the characters taken are a prefix of the decoded string |
| Utf16.TakenIsLongest | lib/vsprintf.c:252-268 | a character is left out only because it does not fit, or because it is a high surrogate that would fill the room exactly |
| Utf16.TakenFits | lib/vsprintf.c:252-268 | and a high surrogate is taken only when more than three bytes are left |
| Utf16.TakenAll | lib/vsprintf.c:243-272 | with room to spare the whole string is taken |
| Utf16.ScanOne | lib/vsprintf.c:248-269 | one round of the scan either stops where nothing more is taken, or moves on by one character and adds its length |
| Utf16.Utf8Length | lib/vsprintf.c:243-272 | for every string and limit the result is the byte length of the characters that the emit loop will consume, never above the limit, and no word behind the readable memory is looked at |
| Utf16.ToUtf32 | lib/vsprintf.c:274-293 | the result is the code point at the position, U+FFFD for an unpaired surrogate, and the cursor moves by one or two words |
| Output.KeptIsLongest | lib/vsprintf.c:525-529 | the cut lies between two characters and the next character would not leave room for the final NUL |
| Output.KeptSingles | lib/vsprintf.c:295-300 | when every character is one byte the cut is at min(length, size - 1) |
| Output.EmitAdd | lib/vsprintf.c:295-300 | putting out x and then y leaves the same buffer as putting out x followed by y |
| Output.EmitHolds | lib/vsprintf.c:525-551 | for any text and size, after the final NUL the buffer holds the longest run of whole characters that fits, and nothing outside the first `size` bytes has changed |
| Output.PutC | lib/vsprintf.c:295-300 | one byte is stored at the position if that lies inside the size, the rest of the buffer stays, and the position always grows |
| Output.StoreUtf8 | lib/vsprintf.c:531-537 | the bytes written from the last one backwards are the UTF-8 form of the code point |
| Output.PutMultibyte | lib/vsprintf.c:519-537 | a multi-byte character is stored whole, or replaced by a NUL when it does not fit; the count grows by its full length either way |
| Output.PutWide | lib/vsprintf.c:506-538 | started with the measured length, the wide loop puts out exactly the characters taken, and its unsigned countdown ends at zero without wrapping |
| Format.GetFlags | lib/vsprintf.c:153-180 | the run of flag characters at the cursor is read up to the first other character, and each of the five flags is set exactly when its character occurs in the run |
| Format.SkipAtoi | lib/vsprintf.c:23-31 | the digits at the cursor are read up to the first other character |
| Format.GetInt | lib/vsprintf.c:182-193 | a width or precision is a number, a star that takes the next argument, or nothing |
| Format.ParseDirective | lib/vsprintf.c:344-377 | one conversion specification is read, a negative width turned into the left flag and its absolute value |
| FormatText.FlagsRead | lib/vsprintf.c:153-180 | written flags are read back, whatever their order: each is set exactly when its character was written |
| FormatText.DigitsRead | lib/vsprintf.c:23-31 | written digits are read back as their value |
| FormatText.AmountRead | lib/vsprintf.c:182-193 | a width or precision written as digits, as nothing or as a star is read back, and a star takes the next argument |
| FormatText.NumberRead | lib/vsprintf.c:182-193 | the parser reads back the canonical decimal text of every number |
| FormatText.DirectiveRead | lib/vsprintf.c:344-377 | parsing any written specification (flags, width and precision as digits or stars, qualifier, conversion letter) yields what it was written from, a negative width as its absolute value with the flag `-` |
| Vsnprintf.DigitTextShape | lib/vsprintf.c:455-469 | the digits of an integer conversion are zeros up to the precision and then the canonical digits, with one zero more for %#o when needed |
| Vsnprintf.NumberLayout | lib/vsprintf.c:450-485 | the width, precision and radix arithmetic computes the closed forms that the field is laid out with |
| Vsnprintf.NumberGlyphsAreText | lib/vsprintf.c:450-504 | the pieces that the code puts out for an integer are, put together, the text of the conversion: sign, radix mark, zeros or spaces and digits filled to the width |
| Vsnprintf.PutField | lib/vsprintf.c:487-545 | padding, sign, radix mark, zeros and body are put out in order, on either side |
| Vsnprintf.PutNumber | lib/vsprintf.c:444-545 | an integer conversion puts out its text, for every value of 64 bits and every specification |
| Vsnprintf.PayloadLength | lib/vsprintf.c:527-541 | the length measured before a string is put out is the length its characters have |
| Vsnprintf.FetchString | lib/vsprintf.c:382-413 | the string argument of %c, %s, %lc or %ls is measured and cut at the precision; a null pointer becomes (null) or nothing |
| Vsnprintf.PutString | lib/vsprintf.c:382-413 | a string conversion puts out its characters, padded with spaces to the width in bytes |
| Vsnprintf.PutConversion | lib/vsprintf.c:382-545 | every valid conversion puts out what the specification says for it |
| Vsnprintf.ReadRound | lib/vsprintf.c:338-443 | at each position the next thing asked for is a literal, a conversion, or an invalid conversion that ends the text |
| Vsnprintf.PutRound | lib/vsprintf.c:338-546 | one round of the loop leaves the buffer and the count on the way to the result for the whole text |
| Vsnprintf.PutAll | lib/vsprintf.c:338-548 | the loop leaves the buffer as putting out the whole unbounded rendering would, and counts its length |
| Vsnprintf.Vsnprintf | lib/vsprintf.c:302-554 | for every format, argument list and size the result is the length of the unbounded rendering, the buffer holds its longest run of whole characters and a NUL, and no byte at or past `size` is written |
| FormatText.NumberArgExactly | lib/vsprintf.c:195-225 | the number printed is the one value in the range of its type and qualifier that agrees with the argument modulo that range |
| FormatText.DigitsStillDenote | lib/vsprintf.c:455-469 | precision and flags add only leading zeros: the digits still denote the magnitude, and there are at least as many as asked for |
| FormatText.NarrowTruncation | lib/vsprintf.c:295-300 | without wide conversions the cut is at exactly min(length, size - 1) bytes |
| FormatText.WideStringText | lib/vsprintf.c:506-538 | the output of %ls is valid UTF-8 that decodes to the code points taken, all of them when the precision leaves room |
| FormatText.FieldIsFilled | lib/vsprintf.c:487-545 | every conversion is at least as wide as its field, and a narrower text is filled to exactly the width |
| FormatMeaning.TextPrintsItself | lib/vsprintf.c:338-342 | text whose percent signs are doubled prints itself, wherever it stands in a format |
| FormatMeaning.SpecificationPrints | lib/vsprintf.c:338-443 | a written specification prints its conversion of the argument behind those that its stars take, and the format goes on behind it with the next argument |
| FormatMeaning.InvalidEnds | lib/vsprintf.c:435-442 | any letter but c, s, d, i, o, u, x, X and p ends the output |
| FormatMeaning.DigitsExactly | lib/vsprintf.c:448-469 | an integer conversion prints the shortest digits that denote the magnitude in base 8, 10 or 16, are as many as the precision asks for (one by default, eight for pointers), and begin with a zero for %#o |
| FormatMeaning.IntegerExactly | lib/vsprintf.c:443-504 | for every specification and value: the sign is a minus exactly for negative values and otherwise what the flags ask for, the mark is 0x or 0X exactly under the # flag and before digits, the letters are capital for %X alone, and the field is filled to the width with spaces behind, zeros in between or spaces before |
| FormatMeaning.PointerExactly | lib/vsprintf.c:444-445 | %p prints the address of what it points to, or a number modulo 2^32 |
| FormatMeaning.StringFills | lib/vsprintf.c:487-545 | a string conversion is filled to its width with spaces, behind it or before it |
| FormatMeaning.NarrowExactly | lib/vsprintf.c:394-408 | %s puts out the bytes before the first NUL, or as many of them as the precision allows |
| FormatMeaning.NullExactly | lib/vsprintf.c:398-400 | %s of a null pointer puts out (null), or nothing when the precision leaves no room for all of it |
| FormatMeaning.CharExactly | lib/vsprintf.c:380-392 | %c puts out the value modulo 256, %lc the code point of that number modulo 2^16, U+FFFD for a surrogate and nothing for NUL |
| FormatText.StandardExactly | lib/vsprintf.c:470-485 | an integer conversion other than %p puts out the text of section 7.21.6.1 of ISO/IEC 9899:2011 exactly when it is not a zero in base 16 under the flag # with a precision other than 0 |
| FormatText.StandardRendering | lib/vsprintf.c:338-546 | the bytes of a whole format are those of the rendering with the texts of the standard exactly when none of its conversions is such a zero |
| FormatText.ZeroIsMarked | lib/vsprintf.c:470-485 | a concrete input of that kind: %#x of 0 puts out 0x0, where the standard asks for 0 |
| CharTable.BusyExactly | fs/char_device.c:95-111 | for any range that passed the size check the insertion scan reports a collision exactly when the range meets a range already in the chain and its end does not wrap around |
| CharTable.InsertKeepsGood | fs/char_device.c:97-124 | inserting at the place the scan finds keeps the chain sorted by (major, baseminor) and free of overlaps exactly when the end of the range does not wrap around in 32 bits |
| CharTable.RemoveUndoesInsert | fs/char_device.c:135-153 | removing a region right after its insertion restores the chain, contents and order |
| CharTable.RemovesCommute | fs/char_device.c:135-153 | two removals may be exchanged |
| CharTable.OwnerIsUnique | fs/char_device.c:421-437 | in a good chain at most one entry owns a device number |
| CharTable.OwnsTest | fs/char_device.c:428-430 | the 32-bit comparison of the lookup is membership in the region, for regions whose end does not wrap around |
| CharTable.SizeCheckExact | fs/char_device.c:73-77 | the size check guarantees a region of at most 2^20 minors exactly when the base minor is at most 2^20 |
| CharTable.SizeCheckTooLoose | fs/char_device.c:73-77 | a concrete larger base minor that the check accepts |
| CharTable.DynamicIsLargest | fs/char_device.c:38-55 | the search returns the largest free major of 384..511, or nothing when all are in use |
| CharTable.InUseExactly | fs/char_device.c:47-54 | a major counts as in use exactly when some region of the table has it |
| CharTable.DynamicRegistration | fs/char_device.c:85-124 | with major 0 the largest free major from 511 down to 384 is taken and the insertion cannot collide; EBUSY is returned only when all 128 of them are in use |
| CharTable.RegisterExactly | fs/char_device.c:59-132 | with a given major each error is returned exactly when its condition holds, for every base minor: EINVAL above the limit, which wraps around beyond 2^20, and EBUSY exactly when the range meets a registered one and its end does not wrap around |
| CharTable.RegisterEffect | fs/char_device.c:59-153 | a failed registration leaves the table as it was; a successful one inserts its region, is undone by unregistering it, and keeps the table good exactly when its end does not wrap around in 32 bits |
| CharTable.FindableExactly | fs/char_device.c:59-132 | after a successful registration every number of every region is found by the lookup's test in this region and owned by no other exactly when the end of the new region does not wrap around |
| CharTable.InRangeExactly | fs/char_device.c:73-132 | a successful registration keeps all minors in the range of device numbers exactly when its base minor is at most 2^20 |
| CharTable.AboveRange | fs/char_device.c:73-77 | a concrete input between the two bounds: minors from 2^21 on are registered in good order, out of the range of device numbers |
| CharTable.TwiceExactly | fs/char_device.c:95-111 | a registered region can be registered a second time exactly when it is empty or its 32-bit end wraps around |
| CharTable.TwoOwners | fs/char_device.c:73-124 | a concrete input: in an empty table the number 0xFFFF_FFFF of major 1 is registered twice without EBUSY |
| CharTable.RegisterOwns | fs/char_device.c:59-132 | after an insertion exactly the numbers of the region are owned besides those owned before |
| CharTable.UnregisterKeepsGood | fs/char_device.c:135-153 | removal keeps every chain sorted and in its bucket |
| CharTable.RunKeepsGood | fs/char_device.c:59-153 | over a run of registrations and removals every chain stays sorted, in its bucket and free of overlaps, and every number is found where it belongs, at every moment exactly when no registered region has an end that wraps around |
| CharTable.RunKeepsRange | fs/char_device.c:59-153 | over a run the regions stay in the range of device numbers exactly when none of them ends above 2^20 |
| CharSpan.DevExactly | include/linux/kdev_t.h:10-12 | the number made of a major and a minor stands for them exactly when the minor is below 2^20 |
| CharSpan.DevMixes | include/linux/kdev_t.h:10-12 | a concrete minor out of range changes the major: the two are combined bit by bit |
| CharSpan.RollbackRestores | fs/char_device.c:181-187 | after a failure at any part the rollback restores every chain, contents and order |
| CharSpan.PartsOwn | fs/char_device.c:171-179 | the parts registered across major boundaries own exactly the numbers of the span |
| CharSpan.SpanExactly | fs/char_device.c:165-188 | for a first major above 0 and no wrap-around: the call succeeds exactly when every major of the span is below 512, has memory for its entry and has no region that meets the part of the span in it; the error is that of the first major for which this fails, EINVAL, ENOMEM or EBUSY in this order |
| CharSpan.SpanNumbersExactly | fs/char_device.c:165-188 | in a table without empty regions that is: every major below 512, memory for every entry, and no number of the span owned |
| CharSpan.AllOrNothing | fs/char_device.c:165-188 | with a first major above 0 and no wrap-around, success, which comes exactly when every major of the span can be registered, adds exactly [from, from + count), and failure leaves the table equal to what it was |
| CharSpan.SpanKeepsGood | fs/char_device.c:165-188 | whatever the arguments, the table stays good |
| CharSpan.SuccessCoversExactly | fs/char_device.c:165-188 | a successful call covers its span exactly when the span is empty, or starts above major 0 and does not wrap |
| CharSpan.MajorZeroLeaks | fs/char_device.c:181-187 | a failing span that began in major 0 leaves its allocated first region behind |
| CharSpan.FirstPartFails | fs/char_device.c:171-179 | the part of a span in major 0 fails exactly when there is no memory or no free major, with ENOMEM or EBUSY and no effect |
| CharSpan.SpanFromZero | fs/char_device.c:165-188 | a span that begins in major 0 fails with ENOMEM without memory, with EBUSY without a free major, and otherwise goes on like a span from major 1 on, behind the region that was allocated |
| CharSpan.FailureRestoresExactly | fs/char_device.c:181-187 | a failing call restores the table exactly when its first major is above 0, or there is no memory for its first part, or every major that can be allocated is in use |
| CharSpan.LeakExample | fs/char_device.c:165-188 | a concrete input: in an empty table a span over the end of major 0, with memory for one region, fails and leaves major 511 in use |
| CharSpan.WrapExample | fs/char_device.c:165-180 | a concrete input: a span over the end of the device numbers succeeds and registers nothing |
| CharSpan.UnregisterUndoesRegister | fs/char_device.c:165-288 | taking out the same span again restores every chain |
| CharSpan.UnregisterOwns | fs/char_device.c:135-153 | removing a region frees exactly its numbers, if it is in the table |
| CharSpan.UnregisterPartsKeepGood | fs/char_device.c:277-288 | taking a span out of any good table leaves a good table |
| CharSpan.UnregisterPartsOwn | fs/char_device.c:277-288 | taking a span out of any good table frees exactly the numbers of those parts of it that the table holds |
| CharSpan.RegisterRunUnregister | fs/char_device.c:165-288 | a span that is registered, left alone by any other registrations and removals, and taken out again frees exactly its numbers |
| CharSpan.UnregisterEndsExactly | fs/char_device.c:277-288 | the loop of unregister_chrdev_region ends exactly when its span is empty or stops before major 4095; otherwise it goes back to device number 0 for ever |
| CharDevice.Registry.Uses | fs/char_device.c:48-52 | walking one chain tells whether the major is in use |
| CharDevice.Registry.FindDynamicMajor | fs/char_device.c:46-54 | the loop over linked chains computes the dynamic major of the abstract table |
| CharDevice.Registry.Scan | fs/char_device.c:97-111 | the walk stops at the insertion place with the two neighbours, or reports a collision, as the abstract scan does |
| CharDevice.Registry.Link | fs/char_device.c:113-124 | the pointer updates insert the region at its place in its chain, and all other chains stay linked and unchanged |
| CharDevice.Registry.RegisterRegion | fs/char_device.c:59-132 | table and result are those of the abstract registration, on the linked structure and for every base minor |
| CharDevice.Registry.Unlink | fs/char_device.c:147-150 | the pointer updates take out exactly that entry |
| CharDevice.Registry.UnregisterRegion | fs/char_device.c:135-153 | the first equal entry is taken out and returned, or nothing changes and null is returned |
| CharDevice.Registry.RegisterLoop | fs/char_device.c:171-179 | the loop over majors computes the abstract registration of all parts, with the place and reason of a failure |
| CharDevice.Registry.RollbackLoop | fs/char_device.c:181-186 | the loop after the failure computes the abstract rollback |
| CharDevice.Registry.RegisterSpan | fs/char_device.c:165-188 | the whole call, rollback included, has the effect and result of the abstract one; from a good table it succeeds exactly when every major of the span can be registered, and otherwise returns the error of the first that cannot |
| CharDevice.Registry.UnregisterSpan | fs/char_device.c:277-288 | the loop computes the abstract removal of all parts, for the spans for which it ends |
| CharDevice.Registry.AllocRegion | fs/char_device.c:201-210 | the region is registered under a dynamic major and its first device number returned |
| CharDevice.Registry.FindChrdev | fs/char_device.c:421-437 | the entry found is the first one that covers the device number; while no end has wrapped around it is the one owner of the number, and null is returned exactly when there is none |
| Xmodem.ReceiveAllSound | bootloader/rp2350/flash_program.c:320-345 | over any packets, the accepted ones carry 1, 2, 3, ... modulo 256 and each passed the checks, and the expected number follows |
| Xmodem.DuplicatesBounded | bootloader/rp2350/flash_program.c:320-345 | between two new packets at most 24 duplicates are acknowledged, whatever else comes, and the first 24 are; the retransmission counter is 25 less the duplicates since the last new packet |
| Ccitt.CrcIsRemainder | bootloader/rp2350/flash_program.c:171-179 | the value that the loop computes is the one remainder that the buffer with two zero bytes behind it leaves on division by x^16 + x^12 + x^5 + 1 over the field of two elements |
| CcittTable.TableIsEntry | bootloader/rp2350/flash_program.c:136-169 | each of the 256 constants of the table is what the register makes of its byte bit by bit |
| CcittTable.TableIsRemainder | bootloader/rp2350/flash_program.c:136-169 | entry x of the table is the one remainder of x * 2^16 divided by that polynomial |
| Xmodem.ChecksExactly | bootloader/rp2350/flash_program.c:230-249 | the trailer passes the test exactly when it is that remainder, high byte first, or without CRC the sum of the block modulo 256 |
| XmodemProtocol.PacketShape | bootloader/rp2350/flash_program.c:313-322 | what a sender packs for a block is a packet of the right size with its start byte, its number and the complement, and a trailer that is the remainder or the sum of the block; it passes the receiver's tests |
| XmodemProtocol.ExpectedPacket | bootloader/rp2350/flash_program.c:320-341 | the packet the receiver waits for is accepted, acknowledged, and resets its patience |
| XmodemProtocol.RepeatedPacket | bootloader/rp2350/flash_program.c:320-345 | a repeated packet is acknowledged again and costs patience, except when the expected number is 0: then it is refused |
| XmodemProtocol.RunKeepsStep | bootloader/rp2350/flash_program.c:310-345 | over any run with lost packets, lost replies and detected damage the receiver is level with the sender or one block ahead, and what it accepted is what was sent |
| XmodemProtocol.ReceivedIsPrefix | bootloader/rp2350/flash_program.c:310-345 | at every step the received data is a prefix of the data sent, across any number of wraparounds, and all of it when the sender is done |
| XmodemProtocol.ProgressExactly | bootloader/rp2350/flash_program.c:320-345 | an exchange without loss makes progress exactly when the receiver is not stuck and has patience left |
| XmodemProtocol.StuckForever | bootloader/rp2350/flash_program.c:320-345 | once the acknowledgement of a packet numbered 255 is lost, no later exchange changes anything |
| XmodemProtocol.StuckExactly | bootloader/rp2350/flash_program.c:320-322 | that state is reached exactly one block ahead after 254 modulo 256 acknowledged blocks |
| XmodemProtocol.StuckWitness | bootloader/rp2350/flash_program.c:320-345 | for every block number that is 254 modulo 256 a run leads to the stuck state: all blocks before it are delivered, then one reply is lost |
| XmodemProtocol.StuckReachable | bootloader/rp2350/flash_program.c:320-345 | a transfer can get stuck exactly when it has at least 255 blocks |
| XmodemProtocol.FinishExactly | bootloader/rp2350/flash_program.c:310-345 | from a state in step the transfer can still be finished exactly when it is finished, or the receiver has not given up, is not stuck, and has patience for one more repeated packet if it is ahead |
| XmodemReceiver.Sum | bootloader/rp2350/flash_program.c:239-243 | the loop computes the 8-bit sum of the buffer |
| XmodemReceiver.Crc | bootloader/rp2350/flash_program.c:171-179 | the table-driven loop computes the 16-bit checksum of its part of the buffer |
| XmodemReceiver.Check | bootloader/rp2350/flash_program.c:230-249 | the test passes exactly when the trailer is the remainder of the block divided by x^16 + x^12 + x^5 + 1, or without CRC its sum modulo 256 |
| XmodemReceiver.Line.Flush | bootloader/rp2350/flash_program.c:251-255 | flushing reads up to and including the first timeout, and ends on every line |
| XmodemReceiver.Await | bootloader/rp2350/flash_program.c:277-302 | of up to sixteen tries the first that finds a start byte, the end of the text or a double cancel decides, with the trychar bytes and the ACK written on the way; nothing is returned only after sixteen tries without one |
| XmodemReceiver.ReadPacket | bootloader/rp2350/flash_program.c:313-318 | a packet is complete exactly when no timeout falls among its bytes, and then the buffer holds what came over the line |
| XmodemReceiver.Append | bootloader/rp2350/flash_program.c:324-329 | of a new block what still fits is appended; nothing at or past destsz is written |
| XmodemReceiver.Acceptable | bootloader/rp2350/flash_program.c:320-322 | the three-part test, number comparison as an int included |
| XmodemReceiver.TakePacket | bootloader/rp2350/flash_program.c:320-345 | variables, destination and reply move exactly as the packet-level receiver does |
| XmodemReceiver.Answer | bootloader/rp2350/flash_program.c:333-345 | the reply sent for a packet is ACK, or after a flush NAK or three CAN bytes |
| XmodemReceiver.PacketRound | bootloader/rp2350/flash_program.c:310-345 | a packet that came whole is taken and answered as the packet-level receiver says, any other one is refused, and the line is left as `Serve` says |
| XmodemProtocol.PacketsAreSmooth | bootloader/rp2350/flash_program.c:313-341 | each packet of a file is the one the receiver waits for after those before it |
| XmodemProtocol.ReceiveInOrder | bootloader/rp2350/flash_program.c:320-341 | packets that come in order are all accepted, with full patience left |
| XmodemLine.StepOnTrack | bootloader/rp2350/flash_program.c:276-341 | on a line that carries a file, a round takes exactly the next packet, acknowledges it, and stands at the one after it |
| XmodemLine.CleanCourse | bootloader/rp2350/flash_program.c:257-347 | on a line that carries a file without loss every packet is accepted in order, under the 16-bit checksum, and the transfer is complete |
| XmodemLine.SilentCall | bootloader/rp2350/flash_program.c:257-308 | without a sender the receiver asks sixteen times with C, sixteen times with NAK, sends three CAN bytes and gives up |
| XmodemLine.TryExactly | bootloader/rp2350/flash_program.c:277-306 | a packet starts with byte 1 or 2, the text ends with byte 4 and two bytes 0x18 cancel, after which everything up to the first timeout is read |
| XmodemLine.ReplyExactly | bootloader/rp2350/flash_program.c:320-346 | a packet is acknowledged with 6 at once; a refusal is 0x15 and a cancellation three times 0x18, each after everything up to the first timeout has been read |
| XmodemLine.HeaderExactly | bootloader/rp2350/flash_program.c:268-274 | the search for a ZMODEM header ends behind the first Z, which is answered with 0x15, or behind the inputs tried |
| XmodemWire.SegmentTaken | bootloader/rp2350/flash_program.c:276-346 | anything of a packet's shape that comes before a timeout leads the byte-level receiver to the state and the reply of the packet-level one, with the rest of the line before it |
| XmodemWire.WireCourse | bootloader/rp2350/flash_program.c:276-347 | from any point of an exchange with lost packets, lost replies and detected damage the byte-level receiver goes through the line as the packet-level one through the exchange, as long as it is left a try |
| XmodemWire.LossyCourse | bootloader/rp2350/flash_program.c:257-347 | on a whole line of this kind the receiver accepts exactly the packets that the exchange has it accept; it reports success exactly when the sender got the last block through, and a cancellation exactly when the exchange ended in one |
| XmodemWire.LossyPayload | bootloader/rp2350/flash_program.c:257-347 | what has been received then are the first blocks of the file, all of them when the sender is done |
| XmodemWire.StuckOnTheLine | bootloader/rp2350/flash_program.c:320-345 | the stuck transfer byte by byte: after a lost reply to a packet numbered 255 the receiver takes none of the packets that follow and ends with a synchronisation error |
| XmodemReceiver.NoStart | bootloader/rp2350/flash_program.c:287-308 | without a packet the round ends the transfer with the right code, or the receiver falls back from CRC to the plain checksum |
| XmodemReceiver.Turn | bootloader/rp2350/flash_program.c:276-346 | one round of the outer loop reads and writes what `Step` says of the line and keeps the receiver in step with its packets, or ends the transfer |
| XmodemReceiver.XmodemReceive | bootloader/rp2350/flash_program.c:257-347 | on every line the receiver terminates, and the bytes written, the position reached, the packets taken and the end are those of `CallCourse`, so every whole packet at the read position is taken and answered; the destination holds the payloads of the accepted packets cut at destsz and is untouched behind them; on a line that carries a file without loss the whole file is received, and on one with losses and detected damage the blocks that the exchange delivers, with the result code of its end |
| Flash.PageCheckExact | bootloader/rp2350/flash_program.c:73-74 | an accepted page number lies in the flash exactly when it is below 2^20 - 1 |
| Flash.SectorExactly | bootloader/rp2350/flash_program.c:47-74 | the page really written is the one with the same number modulo 2^20, and the guard accepts exactly those of the first 1024, besides the last one that 32-bit addresses reach |
| Flash.SectorsMeet | bootloader/rp2350/flash_program.c:47-61 | two page numbers name the same sector exactly when they agree modulo 2^20 |
| Flash.PageCheckTooLoose | bootloader/rp2350/flash_program.c:73-74 | a concrete page number, 2^20, that is accepted and names the first sector |
| Flash.Chip.Program | bootloader/rp2350/flash_program.c:54-61 | programming only clears bits |
| Flash.WriteOnePage | bootloader/rp2350/flash_program.c:63-67 | sixteen chunks programmed into an erased sector leave the buffer there, and nothing else changes |
| Flash.WritePage | bootloader/rp2350/flash_program.c:69-83 | a dirty page that the guard accepts replaces the sector at its wrapped address, whatever that held, and is no longer dirty; otherwise nothing changes |
| Flash.FillPage | bootloader/rp2350/flash_program.c:363-368 | the page buffer holds its part of the data and 0xFF behind it |
| Flash.WriteToFlash | bootloader/rp2350/flash_program.c:352-373 | the target pages that lie in the flash, their numbers taken modulo 2^20, hold the data and then 0xFF, whatever was there before, and no other byte of the flash changes |
| Flash.PagesCoverData | bootloader/rp2350/flash_program.c:358 | the pages cover the data with less than a page to spare, exactly when the rounded size does not wrap |
| Bvec.MovedAdds | include/linux/bvec.h:137-159 | advancing by a and then by b is advancing by a + b |
| Bvec.SingleIsMoved | include/linux/bvec.h:161-172 | the single-step form agrees with the bulk form inside one vector |
| Bvec.SingleExactly | include/linux/bvec.h:161-172 | a single step is a bulk advance exactly when it does not pass the end of the current vector |
| Bvec.StepsAreMoved | include/linux/bvec.h:161-172 | n one-byte single steps are one bulk advance by n |
| Bvec.MovedDrops | include/linux/bvec.h:137-159 | advancing by n drops exactly the first n byte addresses |
| Bvec.PieceFits | include/linux/bvec.h:117-134 | a piece stays in one page, does not pass the end of its vector or of the request, is empty exactly when its vector is, and ends its page, its vector or the request |
| Bvec.PieceIsFirst | include/linux/bvec.h:117-134 | the bytes of a piece are the next bytes of the iteration |
| Bvec.PiecesCoverBytes | include/linux/bvec.h:174-178 | the pieces each stay in a page, are not empty unless a vector is, each end their page, their vector or the request, and, put together, are exactly the next bi_size bytes |
| Bvec.BvecIter.Advance | include/linux/bvec.h:137-159 | the loop moves the iterator by the bytes asked for, empty vectors included, or empties it and reports failure when that is too many |
| Bvec.BvecIter.AdvanceSingle | include/linux/bvec.h:161-172 | the single step in 32-bit arithmetic, which looks only at the current vector; `SingleExactly` says when it is a bulk advance |
| Bvec.ForEach | include/linux/bvec.h:174-178 | the loop terminates and yields those pieces: together they are the bytes to come, each in one page, each as long as its page, its vector and the request allow |
| Bvec.BvecIterAll.Advance | include/linux/bvec.h:198-218 | one step of the page walk gives the next page, offset and length, and moves to the next vector at its end |
| Bvec.WalkStep | include/linux/bvec.h:198-218 | each step of the page walk meets the next piece of the bounded iterator, or passes an empty vector behind the last byte |
| Bvec.WalkIsPieces | include/linux/bvec.h:198-218 | the page walk goes through the pieces of for_each_bvec and then one empty piece for each empty vector at the end |
| Bvec.WalkAll | include/linux/bvec.h:198-218 | over whole vectors, empty ones included, the loop over bvec_advance produces the same pieces as for_each_bvec, and then one empty piece for each empty vector at the end |
| Initramfs.JoinInode | fs/initramfs/initramfs.c:160-180 | a new inode without links keeps all reference counts exact |
| Initramfs.LeaveInode | fs/initramfs/initramfs.c:248-252 | an unreferenced inode without entries may go: counts stay exact and no entry targets it |
| Initramfs.LeaveNeedsNoEntries | fs/initramfs/initramfs.c:248-252 | freeing an unreferenced inode keeps the counts exact exactly when it has no entries |
| Initramfs.AddEntry | fs/initramfs/initramfs.c:190-213 | one entry more and one count more keep the graph consistent |
| Initramfs.DropEntry | fs/initramfs/initramfs.c:242-271 | one entry less and one count less keep the graph consistent |
| Initramfs.StillReferred | fs/initramfs/initramfs.c:242-271 | after an unlink every inode that stays is still referred to |
| Initramfs.Superblock.CreateEmptyInode | fs/initramfs/initramfs.c:160-180 | a new inode is first in the list, or nothing changes when memory runs out |
| Initramfs.Superblock.CreateDentry | fs/initramfs/initramfs.c:190-213 | a hard link is first in the list of its parent and counted, or nothing changes; counts stay exact whatever the parent is |
| Initramfs.Superblock.CreateFile | fs/initramfs/initramfs.c:214-229 | a new inode with its one entry, which is first in the list of the parent, or nothing at all when any allocation fails |
| Initramfs.Superblock.CreateDir | fs/initramfs/initramfs.c:235-241 | the same for a directory |
| Initramfs.Superblock.DentryPut | fs/initramfs/initramfs.c:242-257 | the count of the target goes down, and the target is freed exactly when it was the last one |
| Initramfs.Superblock.DeleteDentry | fs/initramfs/initramfs.c:258-271 | a directory with entries is refused and nothing changes; otherwise exactly this entry goes, the others of its list stay in their order, and its target is freed exactly with its last link; the graph stays valid exactly when what is freed has no entries, which holds as long as only directories have entries |
| Initramfs.Superblock.Lookup | fs/initramfs/initramfs.c:303-318 | the first entry with the name, or null exactly when there is none or the inode is no directory |
| Initramfs.CreateSuperblock | fs/initramfs/initramfs.c:272-292 | the new graph is valid and has only its root, a new directory, or null is returned when an allocation fails |
| Initramfs.Run | fs/initramfs/initramfs.c:160-292 | over any run of creations, hard links and deletions from a new superblock every reference count stays exact, every inode referred to, and only directories have entries |
| Initramfs.FreedWithEntries | fs/initramfs/initramfs.c:242-271 | a concrete input: a file with an entry of its own is deleted, and the graph is no longer valid |
| Crc8.XorIsBitwise | lib/crc8.c:40-42 | the arithmetic exclusive or that the proofs use is the bitwise one of the source on bytes |
| Crc8.ShiftLinear | lib/crc8.c:40 | one register step is linear, in both bit orders and for every polynomial |
| Crc8.SerialAppend | lib/crc8.c:76-83 | the checksum of a concatenation continues from the checksum of its first part |
| Crc8Table.MsbSum | lib/crc8.c:41-42 | an entry with top bit i is the sum of two earlier entries |
| Crc8Table.PopulateMsb | lib/crc8.c:31-44 | the doubling generator fills every entry with eight bit-serial steps of its index, for every polynomial |
| Crc8Table.LsbSum | lib/crc8.c:62-63 | an entry with lowest bit i is the sum of two others |
| Crc8Table.PopulateLsb | lib/crc8.c:53-65 | the strided generator does the same for the other bit order |
| Crc8Table.Checksum | lib/crc8.c:76-83 | with either table the result is the bit-serial checksum of the buffer from the given seed |
| Crc8Theory.SerialIsRemainder | lib/crc8.c:76-83 | the checksum is the one remainder of dividing the message, shifted by eight bits and combined with the seed, by the generator polynomial; bits taken from the top |
| Crc8Theory.DividendIsNumber | lib/crc8.c:76-83 | without a seed the dividend is the message followed by a zero byte |
| Crc8Theory.UnnoticedExactly | lib/crc8.c:76-83 | two messages of one length have the same checksum exactly when the generator divides their difference; bits taken from the top |
| Crc8Theory.OneByteExactly | lib/crc8.c:76-83 | at any position, every change of one byte changes the checksum exactly when the polynomial has a constant term; both bit orders |
| Crc8Theory.MirrorTwice | lib/crc8.c:47-65 | mirroring the bits of a byte twice gives the byte back |
| Crc8Theory.SerialMirrored | lib/crc8.c:47-65 | the two bit orders compute mirror images of each other |
| Crc8Theory.RemainderInBothOrders | lib/crc8.c:47-83 | the division theorem in either bit order, with all bytes mirrored for the reflected one |
| Crc8Theory.UnnoticedInBothOrders | lib/crc8.c:47-83 | in either bit order a change goes unnoticed exactly when the generator divides it |
| Partition.UsedMoves | block/partition.c:207-211 | moving an entry into the empty slot before it keeps the used entries and their order |
| Partition.TidyUp | block/partition.c:213-228 | for any table the used entries end up first, in their order, and the empty ones behind |
| Partition.EmptySlot | block/partition.c:115-124 | the first empty slot, or none |
| Partition.FindStart | block/partition.c:376-403 | for any table, a new partition starts at the first multiple of eight behind the entry before it, in 32-bit arithmetic, or at sector 2048 |
| Partition.FindRoom | block/partition.c:405-425 | for any table, a new partition gets what was asked for or all that is left before the next entry or the reserve at the end of the disk, and there is room exactly when that is not nothing |
| Partition.Format | block/partition.c:355-430 | for any four entries on the disk the new table is `Formatted`, or -1 is returned and nothing changes; on a good table the entry added is the one that `FormattedExactly` describes, and the call succeeds exactly when a slot, a sector and a request of eight sectors are there |
| Partition.FormattedExactly | block/partition.c:355-430 | on a good table with room the used entries stay in order and behind them comes an entry of the type asked for, not bootable, with the fixed head, sector and cylinder bytes, at the next multiple of eight, with the rounded request or all that is left |
| Partition.FormatOnGood | block/partition.c:355-430 | on a table in good order formatting appends one entry of the type asked for, not bootable, at the next start and of the size granted, or finds no room |
| Partition.DeletePartition | block/partition.c:298-323 | for any four entries on the disk the new table is `Deleted`, or -1 is returned and nothing changes |
| Partition.DeletedExactly | block/partition.c:298-323 | for any four entries exactly this one goes, and the other used ones keep their order |
| Partition.DeleteOnGood | block/partition.c:298-323 | on a table in good order the entries behind it close up |
| Partition.CreateExactly | block/partition.c:413-425 | a created entry leaves the table ordered, disjoint, aligned and inside the disk exactly when the requested end is below 2^32 |
| Partition.CreatePastEnd | block/partition.c:413-425 | a concrete input: on an empty disk of 4096 sectors a request for 0xFFFF_FFF8 sectors is granted in full |
| Partition.RoomExactly | block/partition.c:370-425 | below that bound a creation succeeds exactly when a slot, a sector and a request of eight sectors are there, and grants the rounded request or all that is left |
| Partition.DeleteKeepsGood | block/partition.c:298-323 | deletion keeps the table in order |
| Partition.RunKeepsGood | block/partition.c:298-430 | over a run of creations and deletions the table stays in order at every moment exactly when no creation that finds room asks for an end at or above 2^32 |
| TimeLoop.First | lib/time_loop.c:50-56 | the place found is the first number that does not exceed the new one |
| TimeLoop.Place | lib/time_loop.c:42-61 | a new task goes right before the first one that does not exceed its priority, or to the end when that is the head or there is none |
| TimeLoop.OrderExactly | lib/time_loop.c:42-61 | descending order of priorities survives an insertion exactly when the new one is below the head's or equal to the last |
| TimeLoop.SplicedIsLinked | lib/time_loop.c:57-60 | the four link updates of an insertion leave one doubly linked cycle with the new node at its place |
| TimeLoop.CutIsLinked | lib/time_loop.c:71-72 | the two link updates of a removal leave one doubly linked cycle of the other nodes |
| TimeLoop.TaskPool.TimeLoop | lib/time_loop.c:18-27 | the task picked is the next one of the ring, or the head's without a current task |
| TimeLoop.TaskPool.FindSpot | lib/time_loop.c:50-56 | the scan terminates at the node that the priorities determine |
| TimeLoop.TaskPool.AddTask | lib/time_loop.c:29-64 | the ring gains exactly the new node at its place and stays a cycle; nothing changes when memory runs out |
| TimeLoop.TaskPool.RemoveTask | lib/time_loop.c:66-77 | the ring loses exactly this node and stays a cycle; the pool still has its head exactly when another node was removed |
| TimeLoop.TaskPool.EachOnce | lib/time_loop.c:18-27 | from any current task, as many picks as there are tasks choose each exactly once |
| TimeLoop.StepsMembers | lib/time_loop.c:29-77 | after any run of additions and removals the ring holds exactly the tasks that were added and not removed, each once |
| TimeLoop.Run | lib/time_loop.c:29-77 | any run of additions and removals behind the head, from a new pool, keeps one doubly linked cycle with the pool's head in front, and the tasks in it are those of the abstract run, in its order |
| Memchr.ScanParts | lib/_string.c:840-861 | scanning in parts finds what one scan finds |
| Memchr.PackIsSpread | lib/_string.c:828-838 | a 64-bit word equals the spread byte exactly when all its eight bytes do |
| Memchr.CheckBytes | lib/_string.c:799-808 | the byte loop finds the first different byte |
| Memchr.WordDiffers | lib/_string.c:854-856 | the comparison of an aligned word differs exactly when the plain scan finds a byte in it |
| Memchr.ScanWords | lib/_string.c:852-861 | whole words and then the bytes behind them find what the plain scan finds |
| Memchr.MemchrInv | lib/_string.c:819-862 | for every buffer, start alignment, length and value the result is that of a plain byte scan |

## Left out

- Vsnprintf.Vsnprintf: models `char` as 8 bits and `long` and pointers as 32 bits, as on the target; C's undefined overflow of widths, precisions, positions and of the negation of the smallest 64-bit number is not modelled, those are unbounded integers; a missing argument reads as zero.
- Utf16.Utf8Length: requires memory that holds a NUL word or is at least as long as the limit, because the source reads on until one of the two.
- CharDevice.Registry.UnregisterSpan: takes the spans for which the source's loop ends; `UnregisterEndsExactly` shows that these are all but the ones that reach into major 4095.
- CharDevice.Registry.FindChrdev: returns the entry, not the operations of its `cdev`; names, `cdev` pointers and the class registration around the chains are not part of this model.
- XmodemReceiver.XmodemReceive: a line is any finite sequence of bytes and timeouts followed by silence; time itself, the UART and the sleep after a ZMODEM header are not modelled.
- XmodemProtocol.ReceivedIsPrefix: damage is any packet of the right shape that the receiver's tests reject; damage that the checksum misses is outside the model, and so are packets of a wrong length.
- XmodemWire.LossyCourse: a lost packet is one timeout on the line, and a timeout follows each packet, as a stop-and-wait sender waits for the reply; the receiver is left at least one of its sixteen tries.
- Initramfs.Run: new entries go into directories, as the VFS sees to; the runs name inodes and entries by their places.
- Flash.WriteToFlash: takes runs of pages without the page whose number is 2^20 - 1 modulo 2^20, because the guard lets it pass and the source would then erase behind the end of the flash, which the Pico SDK leaves undefined; sizes whose rounding wraps are covered as the code treats them (`PagesCoverData`).
- Flash.WritePage: leaves out that same page.
- Flash.Chip.Program: the Pico SDK calls are the erase and program semantics of NOR flash; interrupts are not modelled, and the reads of `Flash_Read_Page` are left out.
- Bvec.BvecIter.Advance: vectors end below 2^32, and the request lies inside them; `bi_sector` is not touched by these operations and not shown.
- Initramfs.Superblock.DeleteDentry: `list_head` links are sequences in the list order, so updates of the list pointers themselves are not shown; `initramfs_mkdir`, which turns the new directory's mode into that of a file, belongs to the VFS side.
- Initramfs.Superblock.CreateEmptyInode: a null `fop` is folded into failed allocation, which has the same effect; page contents, modes beyond the directory bit, majors and magic numbers are not part of this model.
- Partition.Format: the sector transfer and the byte order of the record are not modelled, a failed write leaves the disk as it was.
- Partition.DeletePartition: the device and table-flag checks in front of it are not shown.
- TimeLoop.TaskPool.TimeLoop: asks for a ring with a task in it, as the source does; `tasknode_numbers`, which the source never updates, and the blocking of the scheduler are left out.
- Memchr.MemchrInv: words are read lowest byte first, and the value is already cut to a byte; the multiplying forms of the pattern (lines 829-833) are not shown, only the doubling one.
- Locks are atomic steps throughout; interleavings of several callers are not modelled.
- `lib/Preemptive.c`, whose dead-task and insertion paths read uninitialised or null links, is not modelled.
- The VFS and dcache side of initramfs, and devfs, sysfs, pipefs and templatefs, which copy its structure, are not modelled.
- GPT partitions, block request queues, boot code, the device tree, GPIO and `lib/mempool.c` are not modelled.
- The constant tables of `lib/crc16.c`, `lib/crc32.c` and `lib/crc7.c` are not compared with their polynomials.
