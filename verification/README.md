# Digits, files, JSON, holes and timers

A model of the parts of the yaos repository that carry the most reasoning, and proofs of what they promise:

* **Decimal digits** (`lua-cjson-2.1.0.7/dtoa.c`, `g_fmt.c`). Big integers in arrays of 32-bit words, rewritten in
  place; the cached powers of five; exact division with an estimated quotient; the two loops that turn a double into
  digits; the text made of the digits. Modules `Words`, `Bigints`, `Pow5s`, `RightShift`, `Doubles`, `Digits`,
  `Generate`, `Decimals`, `ShortestDecimals`, `Dtoa`, `GFmt`. `Dtoa.Dtoa` runs from the two words of a double to its
  digits: shortest, nearest and read back, or rounded half to even, all against the exact real value.
  `GFmt.FormatDouble` goes on to the text and a reader of it, and `NumberTexts` takes that text through the JSON
  encoder and decoder.
* **File system image** (`tools/libfs.c`, `tools/mkfs.c`). The bitmap, inodes, indirect tables and data blocks of an
  image are changed in place. The invariant is `Accounted`: every address is a data block of its own whose bit is set,
  and every data block whose bit is set is in one place of one file. On it rests that files are arrays of bytes that do
  not disturb each other. Directories are a view of the file contents (`FsDirs.View`); `TreeOk` says that they are a
  tree, that names are unique and that each link count is the number of entries. `mkfs` establishes both exactly if the
  files fit. `Frame` says of every call which files it leaves alone, byte for byte and block for block; only holes of
  the root directory, which read as zeros, get blocks from any look into it. Modules `FsDisks`, `FsFiles`, `FsImages`,
  `FsTrees`, `FsDirs`, `FsFrames`, `FsNames`, `FsPaths`, `FsComponents` (paths as lists of names), `FsRuns` (sequences of
  calls), `FsLost`, `Mkfs`, `MkfsMain`, `MkfsTree`, `MkfsFits`.
* **JSON** (`lua-cjson-2.1.0.7/lua_cjson.c` over `strbuf.c`, `strbuf.h`). The printer writes into a growable buffer, the
  tokenizer and the recursive-descent parser move a position over the text; both refine functions on byte strings, and
  about these the round trip is proved. What the parser takes is said by the grammar of RFC 4627 as well: strings as
  lists of pieces, values as derivations. Modules `Strbufs`, `JsonStrings`, `JsonEscapes`, `JsonValues`, `JsonGrammar`,
  `JsonCodec`, `JsonParser`, `JsonNumbers`, `NumberTexts`.
* **Kernel lists** (`0014/kernel/timer.c`, `0005/kernel/kheap.c`). Both keep nodes in an active and a free list, and both
  insert with the same search for a place, so `Lists` holds the nodes, the links and the pool, and `Timers` and `Kheaps`
  the rest. `Holes` is about the bytes of address ranges, `KheapRuns` about sequences of heap calls.
  `Calendar` is `mktime64` against counting days.

`Arith` and `Bytes` hold what several of them need. A class stands for each structure that the C code updates in place;
its methods are proved against functions of the old state, and the lemmas are about these functions.

## What the proofs found

* `itruncate` gives the indirect table back when no block within the file needs it any more. A block behind the end of
  the file that is still in the table is then lost: its bit stays set and no file has it. `FsImages.Image.Itruncate` and
  `FsFiles.TableReleased` say exactly when. Writing and cutting keep files without blocks behind their ends, except
  that a write that runs out of free blocks leaves those it had taken. `FsLost.LostBlock` does it on a disk of 15 free
  blocks: a file is written to 13 blocks, a write of two more takes the last free block and fails, and the file is cut.
* `balloc` sets the first clear bit even if it is not that of a data block, and then fails.
* `mkfs` rounds the size of the root directory up to whole blocks, and to one block more when its entries fill its
  blocks. Then the last block of the root directory is a hole, and reading it allocates a block.
* `mkfs` does not look at where the inodes or the blocks for files end. Its disk is one that `libfs.c` can work on if and
  only if the number of files and 2 is at most that of the inodes, and the blocks handed out and the log fit onto the
  disk (`MkfsFits.SoundIfFits`): with more files the root directory names inodes that do not count, and with more blocks
  those of the log belong to files. `MkfsFits.Overfull` gives an input of either kind.
* `icreat` does not look at what `daddent` returns: in a directory of the largest size the new inode is left without an
  entry. For a file this keeps the tree and its counts, for a directory it does not (`FsTrees.CreatedTree`), and counts
  go wrong later even though only empty directories are unlinked: `FsRuns.OrphanBreaksCounts` is such a run. A run of
  `icreat` and `iunlink` keeps tree and counts exactly if each call meets what can be checked before it: that a directory
  is made only where there is room for an entry, and that a directory to be unlinked is empty (`FsRuns.RunTree`).
* `alloc_kheap_4k` rounds a request above 2^64 - 4096 to zero. A request above 2 MiB that no hole can meet takes in one
  physical page after the other until pages or descriptors run out, and the pages stay behind as holes
  (`KheapRuns.Allocate4kRefuses`).
* `cmp` takes a zero without words for less than a zero of one word. Neither loop of `dtoa` is misled by it
  (`Generate.Decide`).
* In `dtoa`, a digit nine is rounded up without comparing the remainder to a half when the upper end point is met
  exactly. For arbitrary scaled numbers that could print 10 where 9 is nearer; for doubles it never does
  (`ShortestDecimals.NeverTenAnyway`).

## Model

| member | source | states |
|---|---|---|
| Bigints.Multadd | lua-cjson-2.1.0.7/dtoa.c:612-667 | The number becomes b*m + a, in place or in a copy of twice the capacity when the carry needs a word that is not there; no 64-bit intermediate overflows and the result has no zero word on top. |
| Bigints.MultaddWords | lua-cjson-2.1.0.7/dtoa.c:632-655 | The carry loop: the words and the carry out together are the old words times m plus a. |
| Bigints.Cmp | lua-cjson-2.1.0.7/dtoa.c:1034-1066 | The sign of the result is the sign of a - b; equal values with different word counts (a zero with one word and one without) are told apart by their lengths. |
| Bigints.CompareFrom | lua-cjson-2.1.0.7/dtoa.c:1059-1065 | Of two word sequences of one length, the values compare as the highest words that differ. |
| Bigints.Diff | lua-cjson-2.1.0.7/dtoa.c:1068-1160 | The result is the absolute difference, normalized and in a number of its own, with sign 1 exactly when a < b. |
| Bigints.SubtractWords | lua-cjson-2.1.0.7/dtoa.c:1112-1124 | The borrow loops of `diff`: the words written are the difference of the two values, for operands of different lengths. |
| Bigints.BorrowStep | lua-cjson-2.1.0.7/dtoa.c:1114-1124 | Bit 32 of the wrapped 64-bit difference is the borrow, and the low word is the digit of the difference. |
| Bigints.Mult | lua-cjson-2.1.0.7/dtoa.c:805-913 | The value is a*b, with the zero words on top dropped; all writes are inside the words allocated. |
| Bigints.MultiplyRow | lua-cjson-2.1.0.7/dtoa.c:846-859 | One row adds a*y to the words from number j on and leaves the words below and behind alone. |
| Bigints.Lshift | lua-cjson-2.1.0.7/dtoa.c:974-1032 | The value is b * 2^k, for shifts by whole words and by odd bits, inside the capacity that was doubled until it sufficed. |
| RightShift.Rshift | lua-cjson-2.1.0.7/dtoa.c:1672-1706 | In place, the value becomes floor(b / 2^k) for every k, normalized, and zero when all words go. |
| RightShift.DroppedBits | lua-cjson-2.1.0.7/dtoa.c:1683-1703 | Dropping whole words and then r bits of the rest is division by 2^(32n + r) without remainder. |
| RightShift.AnyOn | lua-cjson-2.1.0.7/dtoa.c:1708-1737 | True exactly when the value is not a multiple of 2^k. |
| RightShift.S2b | lua-cjson-2.1.0.7/dtoa.c:669-705 | From the value of the first nine digits and the text of the rest, skipping the decimal point, comes the value of all digits. |
| Bigints.I2b | lua-cjson-2.1.0.7/dtoa.c:789-802 | A one-word number with the given value. |
| Bigints.EstimateLow | lua-cjson-2.1.0.7/dtoa.c:2143-2149 | The estimated quotient top(b) / (top(S) + 1) is never too large, whatever the words below are. |
| Bigints.EstimateClose | lua-cjson-2.1.0.7/dtoa.c:2143-2149 | When the top word of S has 17 bits or more, b is less than (estimate + 2) * S: one correction is enough. |
| Bigints.SubtractMultiple | lua-cjson-2.1.0.7/dtoa.c:2160-2190 | The loops that take q * S from b: with q * S no more than b nothing is owed in the end and the words hold the difference. |
| Bigints.Quorem | lua-cjson-2.1.0.7/dtoa.c:2119-2241 | b = q * S + b' always, q being the estimate or one more; q is the exact quotient and b' the remainder when the top word of S is at least 2^16, which is less than `dshift` arranges. |
| Bigints.QuoremAlgebra | lua-cjson-2.1.0.7/dtoa.c:2198-2240 | The answer of `quorem` is the true quotient if and only if b is less than (estimate + 2) * S. |
| Generate.FitsTen | lua-cjson-2.1.0.7/dtoa.c:2106-2117 | If the top word of S has the form `dshift` gives it, a number below 10 * S has no more words than S, so 10 times a remainder fits. |
| Generate.DivideDigit | lua-cjson-2.1.0.7/dtoa.c:2119-2241 | For a divisor prepared by `dshift` and b < 10 * S: a decimal digit and a remainder below S, with b = digit * S + remainder. |
| Dtoa.Dshift | lua-cjson-2.1.0.7/dtoa.c:2106-2117 | The shift, with p2 more places, leaves exactly four zero bits in front of the top word of S. |
| Dtoa.ShiftDivisor | lua-cjson-2.1.0.7/dtoa.c:4152-4159 | After both shifts S has a top word in [2^27, 2^28), the divisor that `quorem` needs. |
| Pow5s.Pow5List.Next | lua-cjson-2.1.0.7/dtoa.c:956-969 | The node behind number i is there or is made by squaring; the nodes already there stay in place and keep 5^(4*2^i). |
| Pow5s.SquareOf | lua-cjson-2.1.0.7/dtoa.c:956-969 | The square of the power in a node is the power the next node has to hold. |
| Pow5s.MultiplyBits | lua-cjson-2.1.0.7/dtoa.c:948-971 | Going through the bits of k with one node for each gives b * 5^(4k), the list only growing at its end. |
| Pow5s.Pow5mult | lua-cjson-2.1.0.7/dtoa.c:915-972 | For every k the value becomes b * 5^k; the list of cached powers is extended at its end only, and every node in it keeps its value. |
| Doubles.Lo0bits | lua-cjson-2.1.0.7/dtoa.c:740-787 | The low zero bits are shifted out and counted: y = x * 2^k with x odd, and 32 for zero. |
| Doubles.Hi0bits | lua-cjson-2.1.0.7/dtoa.c:707-738 | The number of zero bits in front: y * 2^k has its top bit set, and 32 for zero. |
| Doubles.D2b | lua-cjson-2.1.0.7/dtoa.c:1274-1404 | A finite double is the odd number returned times 2^e; its length in bits is returned, and it is 53 bits less the shift for a normalized double. |
| Doubles.ShiftOutWords | lua-cjson-2.1.0.7/dtoa.c:1316-1327 | The two words after the shift across the word boundary are the significand without its k low zero bits. |
| Dtoa.SetScale | lua-cjson-2.1.0.7/dtoa.c:3840-3862 | The exponents of two and five are such that b / S is the double over 10^k and the margins are half the distances to its neighbours. |
| Dtoa.Prepare | lua-cjson-2.1.0.7/dtoa.c:4084-4159 | On the numbers themselves: b / S is exactly d / 10^k, the margin over S is half the distance to the next double below, over 10^k, and S is a divisor for `quorem`. |
| Dtoa.CheckEstimate | lua-cjson-2.1.0.7/dtoa.c:4160-4168 | An estimate of k that is one too large is found out and put right, with b and the margin multiplied by ten. |
| Digits.NoFewerDigits | lua-cjson-2.1.0.7/dtoa.c:4196-4283 | A decimal that lies in the interval when nothing with fewer places does has as few digits as any decimal in the interval, wherever that one has its point. |
| Digits.Roundoff | lua-cjson-2.1.0.7/dtoa.c:4314-4322 | Adding one in the last place, through a run of nines, gives the digits of the number plus one without zeros at the end, k being raised when all were nines. |
| Digits.Trim | lua-cjson-2.1.0.7/dtoa.c:4323-4329 | Dropping the zeros at the end keeps the number. |
| Generate.Decide | lua-cjson-2.1.0.7/dtoa.c:4201-4272 | The tests of one turn: go on only if neither the digit nor the digit plus one is in the interval; otherwise stop with one that is, the nearer if both are, the even one in a tie. |
| Generate.Onward | lua-cjson-2.1.0.7/dtoa.c:4273-4281 | After a turn that goes on, b / S * 10^i is the digits plus the remainder, no decimal of that length is in the interval, and the margins have grown tenfold against S. |
| Generate.EndLow | lua-cjson-2.1.0.7/dtoa.c:4252-4255 | Stopping with the digit gives a shortest decimal of the interval, and the nearest of that length. |
| Generate.EndHigh | lua-cjson-2.1.0.7/dtoa.c:4256-4268 | Stopping with the digit plus one does too. |
| Generate.EndNine | lua-cjson-2.1.0.7/dtoa.c:4261-4265 | A nine is rounded up at the first digit only, and the result, 10, is again shortest. |
| Generate.LeftRight | lua-cjson-2.1.0.7/dtoa.c:4181-4283 | The loop terminates; it returns a shortest decimal of the interval and the nearest such, or, when it is stopped at the limit, the value rounded half to even to that many digits, nothing shorter being in the interval. |
| Generate.FixedCount | lua-cjson-2.1.0.7/dtoa.c:4284-4329 | The digits are the value rounded half to even to the requested count, without zeros at the end, a run of nines carrying into k. |
| Generate.ExactEnd | lua-cjson-2.1.0.7/dtoa.c:4287-4292 | When the remainder is zero the digits are exact and the last is not zero. |
| Generate.RoundLast | lua-cjson-2.1.0.7/dtoa.c:4297-4329 | With the remainder compared to a half: rounded half to even, never ending in a zero. |
| Decimals.HalfWayToNext | lua-cjson-2.1.0.7/dtoa.c:4084-4159 | The interval that is read back as a double ends half-way to the next double above and to the one below, at a power of two as well. |
| ShortestDecimals.InsideAt | lua-cjson-2.1.0.7/dtoa.c:4196-4283 | A decimal lies in the scaled interval if and only if its exact value is read back as the double, end points counting just for an even significand. |
| ShortestDecimals.Seventeen | lua-cjson-2.1.0.7/dtoa.c:4196-4283 | The shortest decimal of a finite double has at most 17 digits. |
| ShortestDecimals.NeverTenAnyway | lua-cjson-2.1.0.7/dtoa.c:4205-4213 | No double is so close below a power of ten that its last digit, a nine, would be the nearer one and yet ten is printed: the branch that rounds a nine up on equality never loses nearness. |
| ShortestDecimals.ShortestOfDouble | lua-cjson-2.1.0.7/dtoa.c:4181-4283 | What is shortest for the scaled integers is, as a real number, the shortest decimal read back as the double, and no decimal of as many digits with whatever exponent that reads back is nearer. |
| Dtoa.FewPlaces | lua-cjson-2.1.0.7/dtoa.c:4169-4180 | No digit, or a single 1, when the last place asked for is at or above the first digit: again the value rounded half to even. |
| Dtoa.Dtoa | lua-cjson-2.1.0.7/dtoa.c:4084-4355 | For every finite double, every mode and every count, from an estimate of k that is right or one too large and checked: modes 0 and 1 give the shortest decimal that reads back, of at most 17 digits, and the nearest of all decimals of as many digits; modes 2 and 3 give the value rounded half to even to the place asked for; modes 4 and 5 give the shortest decimal if it is no longer than the limit and otherwise the rounded one, which happens only if nothing of that length reads back. |
| GFmt.WriteExponent | lua-cjson-2.1.0.7/g_fmt.c:76-85 | The exponent loop writes the decimal of the exponent with two digits, or with as many as it has if those are more. |
| GFmt.Scientific | lua-cjson-2.1.0.7/g_fmt.c:61-86 | Text in this layout reads as sign * 0.d1d2.. * 10^decpt. |
| GFmt.SmallFixed | lua-cjson-2.1.0.7/g_fmt.c:87-94 | So does the layout with zeros behind the point. |
| GFmt.LargeFixed | lua-cjson-2.1.0.7/g_fmt.c:95-105 | So does the layout with the point among the digits, or with zeros behind them. |
| GFmt.ReadParts | lua-cjson-2.1.0.7/g_fmt.c:51-110 | Reading sign, whole part, fraction and exponent gives the number they show. |
| GFmt.Format | lua-cjson-2.1.0.7/g_fmt.c:51-110 | For all digits, every decimal exponent and every precision the text reads as the number; at most 23 characters come out for up to 16 digits, and the text has the shape of a JSON number. The layout is scientific if and only if decpt <= -4 or decpt > precision; otherwise all digits are laid out around the point, with the zeros in front and behind that are needed and no others. |
| GFmt.LetterRange | lua-cjson-2.1.0.7/g_fmt.c:61-105 | Text laid out for digits has a letter e if and only if their value is outside [10^-4, 10^precision). |
| GFmt.WholeText | lua-cjson-2.1.0.7/g_fmt.c:95-105 | A whole number below 10^precision comes out as its decimal digits and nothing else. |
| GFmt.FormatDouble | lua-cjson-2.1.0.7/g_fmt.c:36-111 | From the double to the text: what is read back is the double rounded half to even to `precision` digits, with its sign, in at most 23 characters for precision 1 to 16. There is an exponent if and only if that value is below 10^-4 or at least 10^precision, and a whole number below 10^precision is written as its plain decimal. |
| NumberTexts.ShapedDecimal | lua-cjson-2.1.0.7/g_fmt.c:51-110 | What is written for a number is, byte by byte, a decimal that the number reader of the parser takes in whole, without a needless zero or a point in front. |
| NumberTexts.EncodeNumber | lua-cjson-2.1.0.7/lua_cjson.c:638-674 | A double encoded and decoded again: the parser takes all of its text as one number, in strict mode too, and this text is the double rounded half to even to the precision; a whole number that fits is its plain decimal. |
| FsDisks.NoneShared | tools/libfs.c:178-302 | No block is in two files, or in two places of one, table blocks included. |
| FsDisks.Allocate | tools/libfs.c:178-197 | Marking and clearing a free block and storing its address keeps the accounts, changes one address, and no data of any file. |
| FsDisks.Released | tools/libfs.c:200-213 | Freeing a block and clearing its address keeps the accounts and the data everywhere else. |
| FsDisks.Overwritten | tools/libfs.c:329-350 | Data stored in one block of a file is data of no other file and of no other place. |
| FsImages.Image.Balloc | tools/libfs.c:178-197 | Takes the lowest clear bit; a data block is marked and cleared; failure means that no data block is free. |
| FsImages.Image.Bfree | tools/libfs.c:200-213 | Clears the bit of a data block and refuses every other block number. |
| FsImages.Image.Bmap | tools/libfs.c:276-302 | The address of block n, direct or through the table, allocated with its table if it was a hole; only this file gets addresses; it fails exactly if the free blocks do not suffice, and 0 is returned behind the largest file. |
| FsImages.Image.Iread | tools/libfs.c:305-326 | -1 if and only if the inode is a device, off is behind the end or off + n wraps; otherwise min(n, size - off) bytes, and these are the contents from off on; it fails exactly if holes in the range outnumber the free blocks, and no file changes its contents. |
| FsImages.Image.Iwrite | tools/libfs.c:329-350 | -1 if and only if the inode is a device, off is behind the end or the file would get longer than the largest. Otherwise the contents are overlaid with the bytes, the size is the larger of the old and off + n, all other files are unchanged and the block accounts are kept; it fails exactly if the free blocks do not suffice, a prefix then being written and the size unchanged. |
| FsImages.ReadsBack | tools/libfs.c:305-350 | After a write, a read of the same range needs no block, has the full length and gives the bytes written. |
| FsImages.WriteThenRead | tools/libfs.c:305-350 | The two calls one after the other: the buffer holds the bytes that were written. |
| FsFiles.PatchedContents | tools/libfs.c:329-350 | Bytes patched block by block, across direct and indirect blocks, are an overlay of the contents. |
| FsFiles.SameFileContents | tools/libfs.c:329-350 | A file whose inode, addresses and data are as before has the contents it had. |
| FsFiles.NeedStep | tools/libfs.c:276-302 | Getting one more block of a range costs just what it needs itself, so what a range needs is known before. |
| FsImages.Image.Itruncate | tools/libfs.c:353-396 | Contents are cut or extended with zeros, whatever bytes were left behind the end before; exactly the blocks behind the new end are freed, and the table with the last indirect one; the accounts are kept if and only if no block behind the old end is left in a table that goes. |
| FsFiles.TableReleased | tools/libfs.c:370-384 | Giving the table back keeps the accounts if nothing is left in it, and otherwise no assignment of owners fits any more: the block is lost. |
| FsFiles.ShrunkFile | tools/libfs.c:360-385 | A file cut to a smaller size has the old contents up to there, and no other file changes. |
| FsImages.Image.Ialloc | tools/libfs.c:247-259 | The first inode out of use is taken and blank; failure means that there is none. |
| FsImages.Image.Ifree | tools/libfs.c:262-273 | The inode is out of use; anything but an inode number is refused. |
| Mkfs.Maker.constructor | tools/mkfs.c:88-105 | A blank disk: no file has a block, and the next block to hand out is the first data block. |
| Mkfs.Maker.Iappend | tools/mkfs.c:248-293 | The contents grow by the bytes at their end, with just the blocks the file is longer by, handed out one after the other; other files are unchanged. |
| Mkfs.Maker.Ialloc | tools/mkfs.c:211-229 | The next inode number, with the type and one link. |
| Mkfs.Maker.WriteBitmap | tools/mkfs.c:231-245 | The bits set are exactly those of the blocks [0, used). |
| Mkfs.Maker.FixRoot | tools/mkfs.c:146-151 | The size of the root directory is rounded up, to one block more than it has when its entries fill its blocks, and its contents are extended with zeros. |
| Mkfs.Maker.Finish | tools/mkfs.c:231-245 | The finished disk satisfies the block accounts of `libfs.c`: every used data block belongs to one place of one file. |
| MkfsMain.BuildDisk | tools/mkfs.c:64-151 | For every list of files, as far as the disk goes: each has its inode with its contents and one link, the root directory lists them, and the blocks are handed out one after the other. |
| MkfsFits.SoundIfFits | tools/mkfs.c:211-293 | The disk satisfies the block accounts for some owners, with entries that name inodes in use, if and only if Used + nlog <= size and \|files\| + 2 <= ninodes. |
| MkfsFits.Overfull | tools/mkfs.c:64-156 | Inputs that `mkfs` accepts and that do not fit: 199 empty files, or seven of the largest size, on 1024 blocks with 200 inodes and 30 log blocks. |
| MkfsFits.Build | tools/mkfs.c:64-156 | What is written: the super block, the inodes that count, the bitmap of exactly [0, freeblock) and the blocks; it is sound for `libfs.c` if and only if everything fits, and then holds every file. |
| MkfsTree.BuiltOk | tools/mkfs.c:64-156 | With proper distinct names the built disk is a tree of directories with right link counts, so all operations of `libfs.c` apply to it. |
| FsDirs.DirentLayout | tools/libfs.c:473-499 | An entry is the number of the inode in two bytes, the low one first, and the name, with zeros up to its length. |
| FsDirs.DirentRead | tools/libfs.c:473-499 | An entry reads as the inode number and the name that were written, names being padded or filling the field. |
| FsDirs.WrittenView | tools/libfs.c:473-499 | Writing one entry changes just that entry of the directories, all others in all directories staying as they were. |
| FsNames.Dlookup | tools/libfs.c:454-470 | Finds the inode and the position of the name, or says that the directory has no such live entry; no file changes. |
| FsNames.Daddent | tools/libfs.c:473-499 | The name goes into the first free entry and counts as a link unless it is "."; -1 means that the name was met first or that the directory is full, and leaves every file its bytes and blocks; otherwise only this directory is written. |
| FsTrees.CreatedLinks | tools/libfs.c:553-587 | Creating keeps every link count equal to the number of entries other than ".", names unique, and the first two entries of every directory. |
| FsTrees.CreatedTree | tools/libfs.c:553-587 | Creating keeps the directories a tree with right counts if and only if the new inode gets its entry or is no directory. |
| FsTrees.OneLink | tools/libfs.c:603-645 | An empty directory is named by the one entry in its parent only, so its count is one. |
| FsTrees.UnlinkedTree | tools/libfs.c:603-645 | Removing an entry keeps tree and counts if and only if it is not that of a directory with other entries than "." and ".."; then the inode goes out of use if and only if that was its only link. |
| FsNames.CreateIn | tools/libfs.c:565-580 | In a directory: -1 if and only if the name is there, every file keeping its bytes and blocks; otherwise a new inode of the type, named by the first free entry, with the counts right. Only that inode and the directory are written, and only they get blocks. |
| FsNames.UnlinkIn | tools/libfs.c:615-642 | -1 if and only if there is no such name or it is "." or ".."; otherwise the entry is gone, the count is one less, and an inode without links is freed with its blocks and no others; all other files keep their bytes and blocks. |
| FsNames.FreeInode | tools/libfs.c:632-636 | All blocks of the file are freed with its inode, the entries of a directory go with it, and every other file keeps its bytes and blocks. |
| FsPaths.Skipelem | tools/libfs.c:416-428 | The path is separators, a component without one, and the rest, which is empty or begins with one; returned are the component, or its first DIRSIZ bytes if it is longer, and the rest. |
| FsPaths.FirstIs | tools/libfs.c:416-428 | However a path is split into separators, a component and a rest, these are what is found. |
| FsComponents.PartsOf | tools/libfs.c:416-428 | Every path is a list of components with separators between them, and perhaps some behind. |
| FsComponents.LeadsAlong | tools/libfs.c:527-550 | A path of given components leads from i to c if and only if there is a chain of children with these names, cut to DIRSIZ bytes, all but the last being directories, and the last too if a separator is behind it. |
| FsComponents.LeadsIntoAlong | tools/libfs.c:553-645 | The directory and the name that `icreat` and `iunlink` work on are those at the end of such a chain for all components but the last; with a separator at the end of the path there are none. |
| FsPaths.Ilookup | tools/libfs.c:527-550 | The inode the path leads to through directories, or -1 exactly if it leads nowhere; no file changed its bytes or its blocks, but for holes of the root directory. |
| FsPaths.LeadsVia | tools/libfs.c:527-550 | Since names are unique a path leads on through one child at most. |
| FsPaths.Icreat | tools/libfs.c:553-587 | Along the path: -1 if and only if it does not lead to a directory without that name, every file keeping its bytes and blocks; otherwise the file is created there, with right counts if it gets its entry or is no directory, and no file but it and the directory is written or gets blocks. |
| FsPaths.Iunlink | tools/libfs.c:603-645 | Along the path: -1 if and only if there is nothing to unlink, every file keeping its bytes and blocks; otherwise the entry goes, and with its last link the inode and just its blocks, no file but the directory being written. |
| FsPaths.Emptydir | tools/libfs.c:590-600 | True exactly if the directory has no entries but "." and "..". |
| FsFrames.FrameContents | tools/libfs.c:329-350 | A file outside those that a call may write has its contents and its size as before. |
| FsFrames.FrameUsed | tools/libfs.c:178-213 | With the accounts kept on both sides, what a call does to addresses is what it does to the bitmap: blocks in use stay so unless their file is freed, and all blocks of a freed file are free. |
| FsRuns.StepTree | tools/libfs.c:553-645 | A successful `icreat` or `iunlink` keeps tree and counts if and only if a directory made has room for its entry, or a directory unlinked is empty. |
| FsRuns.RunTree | tools/libfs.c:553-645 | For every sequence of such calls from a tree: tree, unique names and counts hold all the way if and only if every call was guarded so. |
| FsRuns.CallsAreSteps | tools/libfs.c:553-645 | What `icreat` and `iunlink` return is such a step. |
| FsRuns.OrphanBreaksCounts | tools/libfs.c:553-645 | A run in which the counts go wrong: a directory is made in a full one, the names in that one are unlinked, then it is, empty; its inode stays in use, and its parent counts a link less than it has. |
| FsLost.AfterSecond | tools/libfs.c:329-350 | The write that found one free block of two took it for the file, behind its end. |
| FsLost.LostBlock | tools/libfs.c:329-396 | A concrete run from a blank disk: two writes, the second failing, and a truncation, after which no assignment of owners fits. |
| Strbufs.Strbuf.constructor | lua-cjson-2.1.0.7/strbuf.c:44-66 | An empty buffer; a requested length is there with room for the terminator. |
| Strbufs.Strbuf.CalculateNewSize | lua-cjson-2.1.0.7/strbuf.c:134-159 | The doubling loop ends; the size has room for the request and at least doubles when it grows, and it is exact when it shrinks. |
| Strbufs.Strbuf.Resize | lua-cjson-2.1.0.7/strbuf.c:164-186 | The contents are kept, length < size, and the bytes copied by all resizes stay below the size. |
| Strbufs.Strbuf.AppendString | lua-cjson-2.1.0.7/strbuf.c:188-204 | Appends the string, which has no NUL, and does not move the buffer when there was room. |
| Strbufs.Strbuf.AppendChar | lua-cjson-2.1.0.7/strbuf.h:121-125 | Contents plus the character, copying still paid for by growth. |
| Strbufs.Strbuf.AppendMem | lua-cjson-2.1.0.7/strbuf.h:132-137 | Contents plus the bytes, copying still paid for by growth. |
| Strbufs.Strbuf.AppendCharUnsafe | lua-cjson-2.1.0.7/strbuf.h:127-130 | Contents plus the character, given room for one. |
| Strbufs.Strbuf.AppendMemUnsafe | lua-cjson-2.1.0.7/strbuf.h:139-143 | Contents plus the bytes, given room for them. |
| JsonStrings.EscapeRoundTrip | lua-cjson-2.1.0.7/lua_cjson.c:183-220 | Decoding the escaped form of any byte string, NUL included, gives the string back and stops behind the closing quote. |
| JsonStrings.Utf8Unique | lua-cjson-2.1.0.7/lua_cjson.c:866-899 | A byte sequence denotes a scalar value if and only if it is what `codepoint_to_utf8` writes for it (section 3 of RFC 3629). |
| JsonStrings.UnicodeAt | lua-cjson-2.1.0.7/lua_cjson.c:910-966 | An accepted escape, one code unit or a surrogate pair (section 2.2 of RFC 2781), is a scalar value, of six characters or twelve, inside the text. |
| JsonEscapes.Hex4Is | lua-cjson-2.1.0.7/lua_cjson.c:841-862 | Four hexadecimal digits are read as u if and only if they spell u, each in either case. |
| JsonEscapes.UnicodeIs | lua-cjson-2.1.0.7/lua_cjson.c:910-966 | An escape is read as a scalar value if and only if it is that of the value: its code unit, or its pair of surrogates (section 2.1 of RFC 2781). |
| JsonEscapes.DecodeIs | lua-cjson-2.1.0.7/lua_cjson.c:976-1034 | A string is decoded if and only if it is made of plain bytes, escapes of two characters and escapes of code points up to a quote, and then to the bytes these stand for, code points in UTF-8. |
| JsonEscapes.EscapeForm | lua-cjson-2.1.0.7/lua_cjson.c:183-220 | A byte is printed as itself, as its escape of two characters if it has one, and otherwise, if it is a control character, as \u00 and two lower-case digits; no control character is printed. |
| JsonStrings.Decode | lua-cjson-2.1.0.7/lua_cjson.c:976-1034 | The decoded string is shorter than the text it was read from, for any input. |
| JsonStrings.EscapeAll | lua-cjson-2.1.0.7/lua_cjson.c:513-537 | The escaped form is at most six times as long and has no NUL. |
| JsonCodec.AppendString | lua-cjson-2.1.0.7/lua_cjson.c:513-537 | Appends the quoted escaped string; six bytes for each one and two more are enough for all unchecked appends. |
| JsonCodec.AppendData | lua-cjson-2.1.0.7/lua_cjson.c:718-792 | Appends the text of the value if it is not nested deeper than the limit, and throws exactly if it is. |
| JsonCodec.AppendArray | lua-cjson-2.1.0.7/lua_cjson.c:616-636 | The same for arrays: brackets, and commas between elements. |
| JsonCodec.AppendObject | lua-cjson-2.1.0.7/lua_cjson.c:676-715 | The same for objects with string keys. |
| JsonCodec.Encode | lua-cjson-2.1.0.7/lua_cjson.c:794-823 | The whole text of the value, exactly for values within the depth limit. |
| JsonParser.Parser.AppendUnicodeEscape | lua-cjson-2.1.0.7/lua_cjson.c:910-966 | Appends the UTF-8 form of the scalar value that the escape is of and moves on by six or twelve; the room left still covers the rest of the text. |
| JsonParser.Parser.NextStringToken | lua-cjson-2.1.0.7/lua_cjson.c:976-1034 | On any input, appends without checks stay inside the buffer of the size of the input; the token is the decoded string, or an error exactly if there is none. |
| JsonParser.Parser.NextToken | lua-cjson-2.1.0.7/lua_cjson.c:1105-1182 | The tokenizer over the text with its position gives the token of the grammar, and never goes back. |
| JsonParser.Parser.ProcessValue | lua-cjson-2.1.0.7/lua_cjson.c:1322-1349 | The recursive descent gives exactly what the grammar does from there; `current_depth` is what it was before. |
| JsonParser.Parser.ParseArrayContext | lua-cjson-2.1.0.7/lua_cjson.c:1277-1319 | The same behind an opening bracket. |
| JsonParser.Parser.ParseObjectContext | lua-cjson-2.1.0.7/lua_cjson.c:1226-1274 | The same behind an opening brace; a key that comes again replaces its value. |
| JsonParser.DecodeText | lua-cjson-2.1.0.7/lua_cjson.c:1351-1389 | A value exactly if the text, which ends for the scan at the first NUL behind the value, is one value of the grammar within the depth limit, and no other encoding is suspected. |
| JsonGrammar.TokenIs | lua-cjson-2.1.0.7/lua_cjson.c:1105-1182 | A token is found if and only if it is there behind white space: a mark, a word, a string, or a number that does not have one of the odd forms in strict mode. |
| JsonGrammar.OddIs | lua-cjson-2.1.0.7/lua_cjson.c:1051-1090 | The numbers that strict mode refuses: those with a plus sign, a zero in front of a digit, hexadecimal ones, infinities and NaNs, in letters of either case. |
| JsonGrammar.DerivedIsRead | lua-cjson-2.1.0.7/lua_cjson.c:1226-1349 | Text with a derivation as a value is read as that value, at any depth that leaves room. |
| JsonGrammar.ReadIsDerived | lua-cjson-2.1.0.7/lua_cjson.c:1226-1349 | What is read as a value has such a derivation, nested no deeper than the limit. |
| JsonGrammar.PutLooksUp | lua-cjson-2.1.0.7/lua_cjson.c:1250-1262 | A member replaces the value of its key and no other; a new key comes behind the others. |
| JsonGrammar.ParseTextIs | lua-cjson-2.1.0.7/lua_cjson.c:1351-1389 | A text is decoded if and only if no zero is among its first two bytes, it has a derivation as a value that is not nested deeper than the limit, and only white space follows, up to its end or a zero. |
| JsonGrammar.PrintTight | lua-cjson-2.1.0.7/lua_cjson.c:718-792 | A printed text has no white space but that of its strings and numbers. |
| JsonValues.StringTrip | lua-cjson-2.1.0.7/lua_cjson.c:976-1034 | A printed string is read back as its token, in any text. |
| JsonValues.ValueTrip | lua-cjson-2.1.0.7/lua_cjson.c:1322-1349 | A printed value in any text is read back at any depth that leaves room for its own, and the position is behind it. |
| JsonValues.RoundTrip | lua-cjson-2.1.0.7/lua_cjson.c:1351-1389 | Parsing the printed text of a value gives the value and consumes all of the text (section 2 of RFC 4627). |
| JsonNumbers.DecimalsOk | lua-cjson-2.1.0.7/lua_cjson.c:1051-1099 | Decimal numbers, in strict mode those without a leading zero, are read back whole in front of any delimiter, so the round trip holds for them. |
| JsonNumbers.EncodeThenDecode | lua-cjson-2.1.0.7/lua_cjson.c:794-823 | Encoder and decoder one after the other, on their buffers: the value comes back, for every value within both depth limits. |
| Lists.InsertedSorted | 0014/kernel/timer.c:45-60 | Inserting at the place found keeps a list sorted, with all its items and the new one. |
| Lists.Pool.PutInPlace | 0014/kernel/timer.c:45-60 | The links are changed so that the list has the new node at its place and all others in their order; the free list is untouched. |
| Lists.Pool.ReleaseFront | 0014/kernel/timer.c:87-89 | The first k nodes go in one piece to the front of the free list; no node is lost or in both lists. |
| Lists.Pool.Unlink | 0005/kernel/kheap.c:114-133 | Whichever of the three cases applies, the node is out of the list and in front of the free list; the search never fails. |
| Timers.Manager.constructor | 0014/kernel/timer.c:123-138 | Sixteen free nodes and nothing pending. |
| Timers.Manager.SetTimeout | 0014/kernel/timer.c:25-63 | The pending list stays sorted, with the timeout inserted at now + msec, less 2^64 if that does not fit; the first free node is used up, or one new node joins the old ones; failure exactly if there is neither node nor memory, and nothing changes then. |
| Timers.DueInFront | 0014/kernel/timer.c:70-89 | In a sorted queue exactly the first timeouts are due. |
| Timers.Manager.RunBatch | 0014/kernel/timer.c:70-101 | At most ten due timeouts leave the queue and fire in its order; fewer than ten only if no more are due. |
| Timers.Continued | 0014/kernel/timer.c:100-102 | Two runs one after the other are one run: callbacks, queue and free nodes add up. |
| Timers.Manager.RunTimers | 0014/kernel/timer.c:70-103 | The recursion ends; exactly the due callbacks fire, once each and in order; no due timeout is left pending, and every node is pending or free. |
| Timers.SetThenRun | 0014/kernel/timer.c:25-103 | A timeout that was set fires at time t if and only if t has reached now + msec, in 64 bits, along with just those that fire without it, and is pending until then. |
| Calendar.Mktime64 | 0014/kernel/timer.c:105-121 | 86400 times the number of days that a day-by-day count needs from 1970-01-01, plus the time of day. |
| Calendar.DaysTomorrow | 0014/kernel/timer.c:105-121 | From every valid date to the next the formula rises by one, across months, leap days, years and centuries. |
| Calendar.DaysSinceEpoch | 0014/kernel/timer.c:105-121 | For every valid date from year 1 the formula is the number of days that a day-by-day count needs from 1970-01-01, negative before it. |
| Kheaps.AlignedRoom | 0005/kernel/kheap.c:91-92 | The size rounded to 4 KiB in 64 bits has room for the request if and only if the request is at most 2^64 - 4096; above that it is rounded to zero. With room it is the least multiple of 4 KiB that has it. |
| Kheaps.Heap.constructor | 0005/kernel/kheap.c:31-49 | Ten and a hundred free descriptors and no hole. |
| Kheaps.Heap.Free4k | 0005/kernel/kheap.c:51-83 | The donated region becomes a hole at its place by address; a panic exactly if all ten descriptors are in use. |
| Kheaps.Heap.FreeSmall | 0005/kernel/kheap.c:139-158 | The donated region becomes the first small hole; a panic exactly if all hundred descriptors are in use. |
| Kheaps.Heap.Alloc4k | 0005/kernel/kheap.c:85-137 | First fit, the front of the hole being handed out and an empty hole retired, refilling with physical pages until one fits, pages end or descriptors do; holes and accounts are exactly those of the specification. |
| Kheaps.Heap.AllocSmall | 0005/kernel/kheap.c:160-211 | First fit among the small holes, one refill at most; a hole with 16 bytes or fewer left is retired. |
| Kheaps.RefillsOnce | 0005/kernel/kheap.c:170-187 | After one refill the first small hole has room, so the refill loop does not go round again. |
| Kheaps.AllocateHands | 0005/kernel/kheap.c:85-137 | An allocation hands out one range of the rounded size, or nothing; small holes are untouched. |
| KheapRuns.Allocate4kMeets | 0005/kernel/kheap.c:85-137 | A request is met if and only if a hole has room, or it is at most 2 MiB and a page and a descriptor are there; then one page is used and the range starts at it. A larger one is never met by refilling. |
| KheapRuns.Allocate4kRefuses | 0005/kernel/kheap.c:85-137 | A request that is not met takes in the pages for which there are descriptors, up to the first that cannot be had: they stay behind as holes, nothing is handed out, and it is a panic exactly if the descriptors ran out first. |
| KheapRuns.AllocateSmallMeets | 0005/kernel/kheap.c:160-211 | A small request is met if and only if a small hole has room, or a page-sized hole can be had and a small descriptor is free. |
| Holes.CarvedCovered | 0005/kernel/kheap.c:111-136 | The bytes of the holes before are those of the holes after, the range taken, and at most the limit of dropped bytes. |
| Holes.InsertedSpaced | 0005/kernel/kheap.c:61-81 | Inserting a region that has no byte of the holes keeps them in order of address and without overlap. |
| Kheaps.Safe | 0005/kernel/kheap.c:31-211 | When no byte was donated twice, the page-sized holes are sorted, and all holes and all ranges ever handed out are disjoint from each other. |
| Kheaps.Conserved | 0005/kernel/kheap.c:31-211 | Donated bytes are those held in holes and those handed out, and at most 16 for each small hole retired. |
| KheapRuns.RunSafe | 0005/kernel/kheap.c:31-211 | Both hold after every sequence of calls from `init_kheap` on. |
| KheapRuns.RunRoomy | 0005/kernel/kheap.c:111-205 | In every run in which no empty region and no small one of up to 16 bytes is donated, no page-sized hole is empty, and every small hole has more than 16 bytes. |
| KheapRuns.RunHanded | 0005/kernel/kheap.c:31-211 | What was handed out in a run stays handed out in every longer run. |

## Left out

Digits

- `Balloc` and `Bfree`: the per-size free lists, the private memory and the locks. A number that is given up is no longer used; capacities are kept.
- The floating-point quick path, the path for small integers, and the floating-point estimate of k in `dtoa`: `Dtoa.Dtoa` takes the estimate, right or one too large, as a parameter.
- `fpconv_strtod` with `gethex`, `hexnan`, `ulp` and `ratio`; directed rounding, `ROUND_BIASED`, and the branches for IBM, VAX and 16-bit words.
- Zero, infinities and NaNs in `dtoa` and `fpconv_g_fmt`: answered before any big integer is made.
- Bits that do not overlap are combined with `+` where the source writes `|` (`Words.ShiftWord` says that they do not overlap); the pointer into a word array is an index.
- Bigints.Cmp: two numbers without words are not compared, since the source reads words in front of the array then; the same holds for `Bigints.Diff`, which the source never calls so.
- Bigints.Mult: not for two numbers without words, for which the source leaves the first word of the result unset.
- Bigints.Quorem: for a divisor whose top word is not 0xFFFF_FFFF; there `*sxe + 1` becomes zero and the source divides by it. `dshift` keeps the top word below 2^28.
- Bigints.Lshift: for a number that is not zero; the source shifts no zero.

File system

- `fs.h` is not part of this model: its numbers are those in the comments of `libfs.c`, and the layout of super block, inodes and entries follows the comments and the uses in `libfs.c`; the inode blocks, the super block and the boot block are fields and not bytes, and the bitmap is one array of bytes.
- Link counts are not cut to 16 bits, and inodes are referred to by number and not by address.
- `fatal` is the result `Fatal`; what the long jump skips is skipped. File input and output, `mmap` and the commands of `opfs.c` are left out, as are `dmkparlink` and `splitpath`.
- FsImages.Image.Itruncate: the table of a file with indirect blocks is there, as the `assert` in the source asks.
- FsNames.UnlinkIn: a directory that is not empty is unlinked as well, and `FsTrees.UnlinkedTree` says that the directories are no tree then; the caller has to ask `emptydir` first.
- FsPaths.Icreat: called on a tree with right counts. What follows when a directory without an entry is left is stated on the directories as a value, in `FsRuns`. After `Fatal` nothing is stated but the block accounts; the same holds for `FsPaths.Iunlink`.
- MkfsFits.Build: for files that are not too long, with all blocks on the disk and below the one bitmap block that is written, as `mkfs` asserts or finds when it reads past the end (`Completes`). Inodes are counted up to one less than the inode blocks hold; inodes written behind these blocks, into the bitmap block, are left out. Names are taken as they are after the prefix `.fs/` is cut off.

JSON

- Lua tables are lists of elements or of members with string keys; numeric keys, sparse arrays, metatables, functions and the configuration setters are left out, and so are error messages and positions.
- The number reader `fpconv_strtod` is a parameter that gives the end of a number; `JsonNumbers` supplies its grammar for decimals, and `NumberTexts` joins it to the text that is written. Numbers are their texts; what double is read from one is left out; hexadecimal numbers, infinities and NaNs are not printed.
- Buffer sizes do not overflow 32 bits; buffers that grow by a fixed increment are left out.

Kernel lists

- Interrupts, per-CPU storage and spinlocks; callbacks are numbers, and what they do is left out. Whether memory can be allocated, and which physical pages come, are parameters.
- The nodes of the static arrays are objects. `orgin_size` is never read and left out.
- Timers.Manager.SetTimeout: after a wrap of the deadline at 2^64 a timeout is in its place by the wrapped deadline, as in the source.
- Kheaps.Heap.Alloc4k: addresses are not bounded by 64 bits; only the rounding of the request is.
- Calendar.Mktime64: without the 32-bit wrap of the unsigned arithmetic in front of the cast.
- The other copies of these files in the chapters from 0006 on, kernel threads, drivers and start-up code.
