# bababoiOS core, modelled in Dafny

bababoiOS is a hobby "operating system" project made of four parts. This project models the
core logic of each part as pure Dafny functions and short methods, and proves properties about
them.

- **Python desktop shell (`os/`).** The model covers:
  - the launcher: command discovery, command parsing and dispatch, the help listing, presets,
    and script running;
  - the calculator's input rules;
  - the two ASCII renderers: the glyph-atlas film converter and the coloured-block CRT
    converter with its frame cache;
  - the image-to-ASCII converter.
- **os-series-ep2 mini kernel (C).** The model covers:
  - the freestanding string library and `memcmp`;
  - the VGA text console and the scancode keyboard table;
  - the bump heap;
  - the RAM-disk glue under FatFs and the FAT timestamp;
  - the kernel's command loop: calculator, colour palette, screen clearing.
- **64-bit boot stub (`my_python_os64`).** The model covers its banner writer.
- **Project web page script (`site/script.js`).** The model covers the carousel, tabs, contact
  form checks, typing effect and music toggle.

How things are represented:

- C `char` is a character below 256.
- A C string is the text before its first NUL.
- Bytes are integers in `0..255`.
- The 32-bit FAT stamp is a `bv32`.
- Floating-point means and thresholds are restated as exact integer comparisons. OpenCV's
  nearest-neighbour resize is modelled with exact integer division, which is not always the
  index it computes in double precision (see "## Left out").
- Time, file listings, module loading and `eval` are parameters.

There is one module per source file. `Common` holds the shared byte, digit and arithmetic
helpers.

## Model

| member | source | states |
|---|---|---|
| AsciiFilm.CellGeometry | os/ascii_film.py:93-97 | The character grid is the whole number of cells that fit the frame, and the output frame is at most one cell narrower and shorter than the input |
| AsciiFilm.GlobalSize | os/ascii_film.py:133-137 | The launch range is a multiple of the work-group size that covers the output and overshoots it by less than one group |
| AsciiFilm.GlobalSizeIsLeast | os/ascii_film.py:133-137 | No smaller multiple of the work-group size covers the output |
| AsciiFilm.Brightness | os/ascii_film.py:46-50 | The brightness is the truncated mean of the three channels, so it stays within 0..255 |
| AsciiFilm.CharIndex | os/ascii_film.py:51 | A brightness selects a character inside the ramp; black selects the first character and full white the last |
| AsciiFilm.CharIndexMonotone | os/ascii_film.py:51 | A brighter cell never selects an earlier ramp character |
| AsciiFilm.ThreeCharRampTop | os/ascii_film.py:9-10 | With the three-character ramp, only full brightness selects the last character |
| AsciiFilm.GlyphIndexInAtlas | os/ascii_film.py:53-55 | The mask index lies inside the atlas and points at glyph row (glyph, y mod height), column x mod width |
| AsciiFilm.Shade | os/ascii_film.py:58-60 | A shaded channel never exceeds the mask or the channel; mask 0 gives black and mask 255 keeps the channel |
| AsciiFilm.CellOffsetInSource | os/ascii_film.py:41-45 | An output pixel's cell is inside the grid, and its three source bytes are inside the source buffer |
| AsciiFilm.DstIndexInFrame | os/ascii_film.py:57 | An output pixel's three destination bytes are inside the output buffer |
| AsciiFilm.RenderItem | os/ascii_film.py:34-61 | A work item outside the output frame writes nothing; inside, it writes the three bytes of its own pixel |
| AsciiFilm.RenderItemReadsOwnCell | os/ascii_film.py:45-48 | Two sources that agree on a pixel's cell give the same write, so a work item reads only its own cell |
| AsciiFilm.RenderItemComposites | os/ascii_film.py:45-60 | An output pixel is its cell's colour shaded by the mask of the cell's ramp glyph at the pixel's offset |
| AsciiFilm.ExpectedAtItem | os/ascii_film.py:57-60 | The expected frame holds each work item's three bytes at that item's destination |
| AsciiFilm.Dispatch | os/ascii_film.py:147-158 | Whatever the buffer held before, a launch over the rounded-up range leaves exactly the rendered frame |
| AsciiFilm.FlattenAtlasAt | os/ascii_film.py:67-75 | The flattened atlas at a glyph index holds that glyph's pixel at the same row and column |
| AsciiFilm.FlattenAtlasLength | os/ascii_film.py:67-75 | The flattened atlas is the glyph count times the cell area long |
| AsciiFilm.FlattenRowsAt | os/ascii_film.py:67-75 | Row-major flattening puts pixel (y, x) at y times the width plus x |
| Crt.NearestSource | os/crt.py:55 | The nearest-neighbour coordinate lies inside the source range |
| Crt.Downsample | os/crt.py:55 | The resized grid has the requested size, and each cell is the nearest source pixel |
| Crt.ComputeBrightness | os/crt.py:24-32 | Each cell's grey level is the truncated mean of its three channels and stays within 0..255 |
| Crt.RenderSingleGlyph | os/crt.py:34-49 | The output is the grid scaled up by the glyph size |
| Crt.RenderBlock | os/crt.py:40-49 | Every pixel of a cell's block carries that cell's colour |
| Crt.BlocksTileOutput | os/crt.py:44-49 | Every output pixel belongs to exactly one cell's block, at exactly one offset inside it |
| Crt.RenderIgnoresBrightness | os/crt.py:34-49 | The rendered image does not depend on the brightness grid |
| Crt.Clip | os/crt.py:82 | Clipping gives a value in 0..255, keeps values already in range, and sends values below or above to 0 or 255 |
| Crt.ClipImage | os/crt.py:82 | Clipping an image keeps its shape and leaves only byte channels |
| Crt.ClipImageKeepsBytes | os/crt.py:82 | Clipping an image whose channels are already bytes changes nothing |
| Crt.GridDiffSelf | os/crt.py:62 | A grey grid differs from itself by zero |
| Crt.CheckCache | os/crt.py:60-65 | The cache scan reports a hit exactly when some cached grid is within the threshold of the new one |
| Crt.EmptyCacheMisses | os/crt.py:60-65 | An empty cache never hits |
| Crt.RepeatedGridHits | os/crt.py:60-65 | A grid already in the cache always hits |
| Crt.CacheUpdate | os/crt.py:67-71 | The cache grows until it holds its depth of grids, then the frame index modulo the depth picks the slot to replace; the other grids stay |
| Crt.Small | os/crt.py:55-58 | The per-frame cell grid has the stream's rows and columns and byte channels |
| Crt.GrayOf | os/crt.py:55-58 | The per-frame grey grid has the stream's rows and columns |
| Crt.Render | os/crt.py:78-82 | A frame's render has the glyph-scaled size and byte channels |
| Crt.FrameToAsciiSingle | os/crt.py:51-82 | A cache hit returns nothing and keeps the cache; a miss returns the render and records the grey grid |
| Crt.SwapRedBlue | os/crt.py:132 | The conversion before queueing exchanges channels 0 and 2 of every pixel |
| Crt.QueueOf | os/crt.py:126-138 | After the loop has seen the per-frame results, at most one frame per result is queued; nothing is queued before the first render; the last queued frame is the remembered render; every result adds one frame once the first frame was rendered |
| Crt.SteppedAt | os/crt.py:128-140 | The per-frame result recorded for frame i is the step's answer on the cache left by frames 0 to i - 1 |
| Crt.QueuePrefix | os/crt.py:126-138 | Later frames never change frames already queued, and each adds at most one |
| Crt.QueueAt | os/crt.py:131-137 | Once the first frame was rendered, queue entry i is frame i's render, or entry i - 1 again when frame i brought none |
| Crt.EmitLoop | os/crt.py:124-140 | The loop's queue is the converted queue of the per-frame results, with at most one frame per input frame and exactly one each when it starts on an empty cache; it returns the cache it leaves |
| Crt.VideoToAscii | os/crt.py:124-140 | Starts on the cache left by earlier conversions and queues every frame with red and blue exchanged; the frames and the cache it leaves are the loop's |
| Crt.ConvertVideo | os/crt.py:124-140 | The corrected loop: a fresh cache and no exchange, giving exactly one queued frame per input frame |
| Crt.FreshOutputAt | os/crt.py:126-140 | From an empty cache, output i is frame i's converted render on a miss and output i - 1 again on a hit; the first frame always misses |
| Crt.RenderedBlock | os/crt.py:78-82 | Each pixel of a frame's render has the colour of its cell in the downsampled frame |
| Crt.SwapRedBlueRecolours | os/crt.py:132 | As written, a pure blue frame is queued red; the corrected loop queues it blue |
| Crt.WrittenBlockKeepsCellColour | os/crt.py:126-133 | In the corrected loop, every pixel of a rendered frame's output has its cell's colour in the source's channel order |
| Crt.StaleCacheDropsFirstFrame | os/crt.py:51-71 | When the starting cache already holds the first frame's grey grid, nothing is queued for that frame and the output has fewer frames than the input |
| Crt.RepeatConversionWritesNothing | os/crt.py:51-71 | As written, converting the same one-frame video twice in a session queues one frame the first time and none the second |
| AsciiImage.RampIndex | os/ascii_image.py:44 | A pixel value selects an index inside the ramp; black selects the first character and white the last |
| AsciiImage.RampEnds | os/ascii_image.py:8 | Black maps to '@' and white to a space |
| AsciiImage.RampIndexMonotone | os/ascii_image.py:44 | A brighter pixel never selects an earlier ramp character |
| AsciiImage.RowText | os/ascii_image.py:42-45 | One text row has one character per pixel, each the ramp character of that pixel |
| AsciiImage.LayoutLength | os/ascii_image.py:41-47 | The text has one newline-terminated line per pixel row |
| AsciiImage.LayoutAt | os/ascii_image.py:41-47 | Character x of line y is the ramp character of pixel (y, x), and the line ends in a newline |
| AsciiImage.PixelsToAscii | os/ascii_image.py:39-47 | The loop builds exactly the row-by-row layout |
| StringLib.Memcpy | os-series-ep2/src/lib/string.c:7-12 | The first n bytes of the destination become the source's, and the rest is unchanged |
| StringLib.Strncmp | os-series-ep2/src/lib/string.c:14-20 | The result is zero iff the two strings agree up to n characters or a NUL; otherwise it is the difference at the first mismatch |
| StringLib.Memset | os-series-ep2/src/lib/string.c:22-26 | The first n bytes become the value modulo 256, and the rest is unchanged |
| StringLib.Strlen | os-series-ep2/src/lib/string.c:28-32 | The result is the index of the first NUL |
| StringLib.Strcmp | os-series-ep2/src/lib/string.c:34-39 | The result is zero iff the two strings are equal; otherwise it is the difference at the first mismatch |
| StringLib.DiffZeroIffEqual | os-series-ep2/src/lib/string.c:34-39 | The first-mismatch difference is zero exactly for equal strings |
| StringLib.Strcpy | os-series-ep2/src/lib/string.c:41-45 | The destination starts with the source text and its terminator; later bytes are unchanged |
| StringLib.Strncpy | os-series-ep2/src/lib/string.c:47-56 | The first n bytes are the source text cut to n and padded with NUL; the result is unterminated exactly when the source has n or more characters |
| StringLib.IntToStr | os-series-ep2/src/lib/string.c:58-79 | Writes the decimal text of the value, cut to size - 1 characters, then NUL, and returns the length written |
| StringLib.CopyReversed | os-series-ep2/src/lib/string.c:74-76 | The digit buffer is copied out in reverse order |
| StringLib.DecimalLength | os-series-ep2/src/lib/string.c:58-79 | The decimal text of any 32-bit value has at most 11 characters, so the 16-byte buffer never truncates it |
| StringLib.Snprintf | os-series-ep2/src/lib/string.c:81-108 | The output is the expanded format cut to size - 1 characters and NUL-terminated. "%d" prints its argument and any other '%x' prints itself. The result is the length written |
| StringLib.NextPiece | os-series-ep2/src/lib/string.c:85-104 | Each step consumes one literal character or one directive, and the expansion splits into its piece and the expansion of the rest |
| StringLib.Put | os-series-ep2/src/lib/string.c:85-104 | A piece is written only while room is left before the last byte, and earlier output is kept |
| StringLib.FormatPass | os-series-ep2/src/lib/string.c:85-104 | One loop pass keeps the output equal to a prefix of the expansion |
| StringLib.Sscanf | os-series-ep2/src/lib/string.c:110-137 | Only the "%d %c %d" format is read; it returns 3 with the values when the reader succeeds, otherwise 0 with the variables unchanged |
| StringLib.SscanfInternal | os-series-ep2/src/lib/string.c:139-154 | Without an integer after the leading spaces nothing is read. Otherwise the read succeeds exactly when an integer follows the spaces after the operator character, and then gives the first integer, that character and the second integer, and the characters taken |
| StringLib.ReadOperatorAndSecond | os-series-ep2/src/lib/string.c:145-152 | After the first integer, the operator is the first character past the spaces, and nothing is read exactly when no integer follows the next spaces |
| StringLib.ReadingAtPositions | os-series-ep2/src/lib/string.c:139-154 | Given where the spaces end, where the operator sits and what is scanned after it, the reader's result is the triple or nothing accordingly |
| StringLib.ScanInt | os-series-ep2/src/lib/string.c:156-173 | Nothing is read exactly when no digit follows the optional minus; otherwise the read covers at least one character |
| StringLib.ScanIntOfDecimal | os-series-ep2/src/lib/string.c:156-173 | Scanning the decimal text of a number gives that number and the text's length back |
| StringLib.SscanfReadsTriple | os-series-ep2/src/lib/string.c:110-154 | "a op b" in decimal, with any runs of spaces around the operator (none before a non-digit operator), reads back as (a, op, b) with result 3 |
| StringLib.SscanfMissingSecondOperand | os-series-ep2/src/lib/string.c:110-154 | When no integer follows the operator, the result is 0 and the variables are unchanged |
| StringLib.SscanfMissingFirstOperand | os-series-ep2/src/lib/string.c:110-154 | When no integer follows the leading spaces, the result is 0 and the variables are unchanged |
| StringLib.SscanfOfReader | os-series-ep2/src/lib/string.c:110-137 | With the "%d %c %d" format, a successful reader gives result 3 and its triple |
| StringLib.ScanIntOfNegative | os-series-ep2/src/lib/string.c:156-173 | A minus sign and a digit run read back as the negated number, counting the sign |
| Memcmp.Memcmp | os-series-ep2/src/lib/memcmp.c:3-9 | The result is zero iff the first n bytes agree |
| Memcmp.CompareZeroIffEqual | os-series-ep2/src/lib/memcmp.c:3-9 | The comparison is zero exactly when the n-byte prefixes are equal |
| Memcmp.CompareAntisymmetric | os-series-ep2/src/lib/memcmp.c:3-9 | Swapping the arguments negates the result |
| Memcmp.CompareIgnoresLaterBytes | os-series-ep2/src/lib/memcmp.c:3-9 | Bytes after the first mismatch do not affect the result |
| KernelCli.ReadNumber | os-series-ep2/src/impl/kernel/main.c:118 | The digit loop stops after the maximal digit run and accumulates its decimal value |
| KernelCli.EvalExpr | os-series-ep2/src/impl/kernel/main.c:114-131 | The result applies the operator to the two parsed operands; division by zero and unknown operators give 0 |
| KernelCli.EvalOfFormatted | os-series-ep2/src/impl/kernel/main.c:114-122 | "a op b" written in decimal parses as operands a and b with operator op |
| KernelCli.MissingOperandIsZero | os-series-ep2/src/impl/kernel/main.c:118-122 | When no digit follows the leading spaces, the first operand reads as 0 and the operator is the first character after those spaces |
| KernelCli.MissingSecondOperandIsZero | os-series-ep2/src/impl/kernel/main.c:118-122 | "a op" followed by any spaces and then a non-digit parses as operands a and 0 with operator op |
| KernelCli.ReverseInPlace | os-series-ep2/src/impl/kernel/main.c:204-208 | The in-place swap loop reverses the digit buffer |
| KernelCli.FormatCalc | os-series-ep2/src/impl/kernel/main.c:187-211 | The `/calc` output is the decimal text of the result |
| KernelCli.CalcOutputReadsBack | os-series-ep2/src/impl/kernel/main.c:187-211 | The printed result is never INT_MIN and reads back as the result |
| KernelCli.StrncmpTestsPrefix | os-series-ep2/src/impl/kernel/main.c:93-99 | A bounded comparison over the name's length is zero iff the name starts the line |
| KernelCli.Dispatch | os-series-ep2/src/impl/kernel/main.c:163-186 | The chain of prefix tests selects the first command whose name starts the line |
| KernelCli.EarlierPrefixWins | os-series-ep2/src/impl/kernel/main.c:163-166 | A line starting with "/art" runs the art command whatever follows |
| KernelCli.Run | os-series-ep2/src/impl/kernel/main.c:163-214 | Graphics mode stays on once `/gfxmode` runs, and the graphics screen is cleared exactly by `/gfxmode` or by `/gfxclear` in graphics mode |
| KernelCli.Step | os-series-ep2/src/impl/kernel/main.c:150-223 | A NUL key is ignored. Backspace erases a character when there is one. Enter runs the line's command, empties the line and turns graphics mode on exactly when it was on or the command is `/gfxmode`. Another key is echoed and appended while the buffer has room, and is ignored otherwise |
| KernelCli.VgaModeStays | os-series-ep2/src/impl/kernel/main.c:150-223 | Once graphics mode is on, no run of keys turns it off |
| KernelCli.VgaModeNeedsGfxMode | os-series-ep2/src/impl/kernel/main.c:136-177 | Starting with graphics mode off, it is on after a run of keys only if some Enter ran `/gfxmode` |
| KernelCli.PaletteValue | os-series-ep2/src/impl/kernel/main.c:29 | The palette level is within 0..63, from 0 for entry 0 to 63 for entry 255 |
| KernelCli.PaletteMonotone | os-series-ep2/src/impl/kernel/main.c:29 | A higher palette entry never gets a lower level |
| KernelCli.VgaSetPalette | os-series-ep2/src/impl/kernel/main.c:26-34 | The DAC receives 256 grey entries, three equal writes each |
| KernelCli.VgaClearScreen | os-series-ep2/src/impl/kernel/main.c:78-82 | Every byte of the 320x200 screen becomes the colour |
| Console.Boot | os-series-ep2/src/impl/x86_64/print.c:12-14 | The console starts at the top-left in white on black |
| Console.CursorPos | os-series-ep2/src/impl/x86_64/print.c:22-23 | The cursor's linear position lies on the screen and decodes back to its row and column |
| Console.IndexOnScreen | os-series-ep2/src/impl/x86_64/print.c:3-4 | Every row and column on the 80x25 screen indexes a cell of the buffer |
| Console.ClearRow | os-series-ep2/src/impl/x86_64/print.c:31-40 | One row becomes blanks in the current colour, and every other cell is unchanged |
| Console.PrintClear | os-series-ep2/src/impl/x86_64/print.c:42-49 | The whole screen becomes blanks and the cursor returns to the top-left |
| Console.Scrolled | os-series-ep2/src/impl/x86_64/print.c:58-63 | After a scroll, each cell holds the cell one row below it, and the last row is blank |
| Console.ScrollUp | os-series-ep2/src/impl/x86_64/print.c:58-63 | The copy loop and the row clear produce exactly the scrolled screen |
| Console.Newline | os-series-ep2/src/impl/x86_64/print.c:51-67 | The column returns to 0; the row advances, or on the last row the screen scrolls |
| Console.PrintNewline | os-series-ep2/src/impl/x86_64/print.c:51-67 | The loop version agrees with the reference newline |
| Console.PrintChar | os-series-ep2/src/impl/x86_64/print.c:69-86 | A newline starts a new line. Another character first wraps past column 79, then goes at the cursor in the current colour, and no other cell changes |
| Console.PrintStr | os-series-ep2/src/impl/x86_64/print.c:88-92 | Printing a string keeps the console valid and its colour unchanged |
| Console.PrintStrOnRow | os-series-ep2/src/impl/x86_64/print.c:88-92 | Text without newlines that fits the row lands in consecutive cells, and no other cell changes |
| Console.Attribute | os-series-ep2/src/impl/x86_64/print.c:94-96 | The attribute has the foreground in the low nibble and the background in the high nibble |
| Console.SetColor | os-series-ep2/src/impl/x86_64/print.c:94-96 | Only the colour changes |
| Console.Puts | os-series-ep2/src/impl/x86_64/print.c:102-107 | Prints the string followed by a newline |
| Console.Backspace | os-series-ep2/src/impl/x86_64/print.c:110-128 | Nothing happens at the top-left. Otherwise the cursor steps back, to the end of the previous row from column 0, and only that cell is blanked |
| Console.BackspaceUndoesPosition | os-series-ep2/src/impl/x86_64/print.c:110-128 | A backspace right after a printed character returns the cursor and blanks that character's cell |
| Keyboard.Padded | os-series-ep2/src/impl/kernel/keyboard.c:8-22 | Each table is padded with unmapped entries to 128, keeping its listed keys |
| Keyboard.GetChar | os-series-ep2/src/impl/kernel/keyboard.c:42-69 | A release gives no character and clears shift only for the shift keys. A shift press sets shift. Other keys read the shifted or unshifted table |
| Keyboard.ShiftKeysUnmapped | os-series-ep2/src/impl/kernel/keyboard.c:8-22 | Neither table maps the two shift scancodes |
| Keyboard.UnlistedKeysUnmapped | os-series-ep2/src/impl/kernel/keyboard.c:8-22 | Scancodes past the listed keys give no character |
| Keyboard.ShiftedLettersAreCapitals | os-series-ep2/src/impl/kernel/keyboard.c:8-22 | With shift, each letter key gives the capital of its unshifted letter |
| Keyboard.ShiftHeldThenReleased | os-series-ep2/src/impl/kernel/keyboard.c:50-68 | Shift, a letter, shift released and the letter again type the capital then the small letter, with shift off at the end |
| Heap.Kmalloc | os-series-ep2/src/impl/kernel/heap.c:9-19 | A request that does not fit returns NULL and changes nothing; otherwise it returns the old index and advances it by the size |
| Heap.ZeroSizeKeepsIndex | os-series-ep2/src/impl/kernel/heap.c:14-15 | A zero-byte request returns the current index and does not move it |
| Heap.Allocate | os-series-ep2/src/impl/kernel/heap.c:9-19 | A run of requests keeps the heap valid, never moves the index back, and answers every request |
| Heap.BlocksDisjoint | os-series-ep2/src/impl/kernel/heap.c:9-19 | Successful blocks lie inside the used heap, and earlier blocks end before later ones start |
| DiskIo.OsDiskRead | os-series-ep2/src/lib/fatfs/diskio.c:15-19 | A range past the disk or of no sectors fails with -1 and leaves the buffer; otherwise the buffer starts with the sectors' bytes |
| DiskIo.OsDiskWrite | os-series-ep2/src/lib/fatfs/diskio.c:21-25 | A bad range fails with -1 and leaves the disk; otherwise the sectors take the buffer's bytes |
| DiskIo.WriteThenRead | os-series-ep2/src/lib/fatfs/diskio.c:17-23 | Reading back sectors just written gives the written data |
| DiskIo.WriteKeepsOtherSectors | os-series-ep2/src/lib/fatfs/diskio.c:23 | A write does not change sectors outside its range |
| DiskIo.FromStatus | os-series-ep2/src/lib/fatfs/diskio.c:40 | A zero status maps to success and any other status to an error |
| DiskIo.DiskRead | os-series-ep2/src/lib/fatfs/diskio.c:39-41 | The FAT read succeeds exactly for valid ranges and then returns the sector data with the rest of the buffer unchanged |
| DiskIo.DiskWrite | os-series-ep2/src/lib/fatfs/diskio.c:43-45 | The FAT write succeeds exactly for valid ranges and then stores the data |
| DiskIo.DiskStatus | os-series-ep2/src/lib/fatfs/diskio.c:29-37 | The drive always reports ready |
| DiskIo.DiskIoctl | os-series-ep2/src/lib/fatfs/diskio.c:47-63 | Sync and the three geometry queries succeed; only the geometry queries return a value: 2048 sectors, 512-byte sectors and an erase block of 1; other commands are parameter errors |
| DiskIo.IoctlGeometryMatchesDisk | os-series-ep2/src/lib/fatfs/diskio.c:47-63 | The reported count times the reported size is the disk size, and a one-sector read is in range exactly below the count |
| DiskIo.MountAndFormat | os-series-ep2/src/lib/fatfs/diskio.c:69-96 | Success iff the first mount works or both the format and the second mount work; the format runs only after a failed mount |
| FatTime.GetFatTime | os-series-ep2/src/lib/fat_time.c:5-12 | The stamp packs 3 June 2024, 12:00:00 |
| FatTime.FatTimeDecodes | os-series-ep2/src/lib/fat_time.c:5-12 | Unpacking the stamp gives year 2024, month 6, day 3, hour 12 and minute and second 0 |
| FatTime.PackFields | os-series-ep2/src/lib/fat_time.c:5-12 | Fields that fit their widths unpack to themselves, and the OR of the shifted fields equals their sum |
| BootBanner.WriteMessage | my_python_os64/kernel/main.c:1-7 | Character i goes to byte 2i of video memory and the attribute 0x07 to byte 2i + 1; later bytes are untouched |
| BootBanner.MessageLength | my_python_os64/kernel/main.c:3 | The banner has 44 characters before its terminator |
| Launcher.LoadCommands | os/launcher.py:30-37 | Every command file's lower-cased stem is a key, and each key maps to the stem of the last file listed with that key |
| Launcher.CommandsHasEveryKey | os/launcher.py:30-37 | Every listed command file contributes its key |
| Launcher.CommandsLastWins | os/launcher.py:30-37 | Each key maps to the stem of the last command file with that key |
| Launcher.ProcessCommand | os/launcher.py:156-215 | Input without the prefix is rejected, and an empty command does nothing. Otherwise the lower-cased first word selects its builtin; "preset" with exactly one argument, and only that, applies the preset; any other word runs its script with the remaining words when it is known and is reported as an unknown command otherwise |
| Launcher.ChooseAction | os/launcher.py:173-214 | A script runs only for a known, non-builtin command word, with the remaining words as arguments. The preset action happens exactly when "preset" has one argument. An unknown command is neither a script nor a builtin |
| Launcher.BuiltinsShadowScripts | os/launcher.py:173-215 | A builtin name never runs a script, even when a script has that key |
| Launcher.TypedCommandRunsScript | os/launcher.py:156-215 | The prefix, a script's key and space-separated arguments run that script with those arguments |
| Launcher.SplitJoin | os/launcher.py:166-171 | Splitting words joined by single spaces gives the words back |
| Launcher.Sort | os/launcher.py:186-191 | The result is sorted and is a permutation of the input |
| Launcher.HelpList | os/launcher.py:186-191 | The listing is sorted and is a permutation of the script keys, "info", one "preset" line per preset, and "help", "exit", "clear" |
| Launcher.HelpListsEverything | os/launcher.py:186-191 | Every script key and every preset appears in the listing |
| Launcher.ApplyPresetTo | os/launcher.py:100-106 | An unknown preset is reported and keeps the current one; a known preset becomes current |
| Launcher.DispatchedScriptIsFound | os/launcher.py:210-225 | A line that dispatches to a script with a non-empty module name reaches that module in `run_script`, with the same arguments |
| Launcher.RunScriptOf | os/launcher.py:217-241 | A missing or empty module name gives "not found". Otherwise a failed import is reported, `runarg` is preferred over `run`, and a module with neither is reported |
| Calculator.CanPressNumber | os/calculator.py:52-62 | A repeat inside the key's window is refused and changes nothing; an accepted press records the time and raises the count, or starts it at 1 |
| Calculator.Press | os/calculator.py:52-79 | An operator is appended only to a non-empty expression not ending in one, and resets the counts; another key is appended exactly when the rate limit allows, and then its press time becomes now and its count grows by one or starts at 1 |
| Calculator.PressKeepsWellFormed | os/calculator.py:64-79 | A press never creates a leading or doubled operator, and the operator flag stays accurate |
| Calculator.PressesStayWellFormed | os/calculator.py:64-79 | Any run of presses from a well-formed state stays well formed |
| Calculator.RepeatAfterWindowAccepted | os/calculator.py:52-62 | Pressing the same key again once its grown window has passed is accepted, records the new time and raises the count by one |
| Calculator.RepeatWithinWindowRefused | os/calculator.py:52-62 | Pressing the same key again inside its grown window is ignored |
| Calculator.EqualPress | os/calculator.py:81-96 | The evaluated text replaces the expression, or the display shows "Error" and the expression empties; the operator flag and the press records are cleared |
| Calculator.Clear | os/calculator.py:98-103 | The calculator returns to its initial state, which is well formed |
| SiteScript.Next | site/script.js:42-45 | The next slide index wraps from the last slide to 0 |
| SiteScript.Prev | site/script.js:37-40 | The previous slide index wraps from 0 to the last slide |
| SiteScript.NextPrevInverse | site/script.js:36-45 | Previous undoes next, and next undoes previous |
| SiteScript.NextTimesIsMod | site/script.js:42-45 | After k next presses the carousel shows slide k mod n |
| SiteScript.ShowSlide | site/script.js:30-34 | Exactly the slide with the given index is active |
| SiteScript.ExactlyOneSlide | site/script.js:30-34 | For an index in range, the set of active slides is that index alone |
| SiteScript.ClickTab | site/script.js:55-62 | After a click only the clicked button and its target panel are active |
| SiteScript.TabClickIsExclusive | site/script.js:55-62 | Whatever was active before, exactly one button and one panel are active |
| SiteScript.ValidateEmail | site/script.js:95-97 | The scanner accepts exactly the texts the email pattern matches |
| SiteScript.Submit | site/script.js:70-92 | An empty trimmed field is reported first, then an invalid email; otherwise thanks are shown and the form is reset |
| SiteScript.TypeOnce | site/script.js:115-121 | Appends the next character of the text while any is left |
| SiteScript.TypeStepsShowsPrefix | site/script.js:115-121 | After k steps the element shows the first min(k, length) characters |
| SiteScript.ToggleMusic | site/script.js:132-141 | A click flips the playing flag and shows the matching speaker icon |
| SiteScript.ToggleParity | site/script.js:130-141 | Music plays exactly after an even number of clicks |

## Left out

- The GPU runtimes are not modelled: OpenCL in `ascii_film.py` and Taichi in `crt.py`. Their kernels are modelled as pure functions of one work item or one frame.
- Video decoding and encoding, ffmpeg, the writer thread and its queue, and window display are left out, because they are I/O.
- PIL glyph rasterisation is left out: the glyph atlas is an input.
- The Lanczos resize and contrast enhancement in `ascii_image.py` are left out, because they are floating-point image processing; the grey pixel grid is an input.
- The Tk widgets, the sounds, DOM scrolling, the fade-in, the smooth anchors and the theme toggle are left out, because they are presentation only.
- The calculator's `eval` is replaced by its printed result, given as an input (None when it raises). The clock is a `real` parameter.
- Port I/O and VGA register programming are left out: the palette is modelled as the sequence of DAC writes. Keyboard polling is left out: scancodes are inputs.
- The FatFs calls `f_mount` and `f_mkfs` are inputs, given as their success flags.
- `save_file_example`, the FatFs `main`, os-series-ep2's `kernel_main` (main.c:227-229), the CLI's welcome lines (main.c:138-148) and the boot stub's final halt loop (my_python_os64/kernel/main.c:9) are not modelled, because they only sequence calls into modelled code or I/O. The boot stub's banner loop is modelled by BootBanner.WriteMessage.
- `config.py` is not part of this model: the command prefix and the preset names are parameters.
- The launcher's `show_info`, `clear_output` and the calculator and task manager windows are reduced to the actions that select them.
- Launcher.Lower: folds only the ASCII letters A-Z, while Python's `str.lower` also folds letters of other scripts.
- StringLib.IntToStr: requires a 32-bit value other than INT_MIN, whose negation overflows in C.
- StringLib.Snprintf: requires a size of at least 1, a format with no trailing lone '%', and arguments other than INT_MIN, because the C code misbehaves in each of those cases.
- StringLib.ScanInt: accumulates in unbounded integers, so it does not model the C `int` overflow on long digit runs.
- KernelCli.EvalExpr: requires the operands and the result to fit an `int`, because the C arithmetic overflows otherwise.
- KernelCli.Step: requires the same of a `/calc` line when Enter is pressed.
- Heap.Kmalloc: requires the heap index plus the size not to wrap a 64-bit `size_t`.
- DiskIo.OsDiskRead: requires sector plus count not to wrap 32 bits, and a large enough buffer for a valid range, because the C code trusts its caller. DiskIo.OsDiskWrite, DiskIo.DiskRead and DiskIo.DiskWrite have the same requirements.
- DiskIo.DiskIoctl: returns the value the C code writes through its buffer pointer.
- Crt.Downsample: requires positive frame and grid sizes, because OpenCV rejects empty images. It picks source index floor(d * src / dst) exactly, while OpenCV's nearest-neighbour resize computes floor(d * (1.0 / (dst / src))) in double precision, which can be one lower: a 302-row frame at 100 rows gives 150 for row 50 in OpenCV and 151 here, and 56 to 18 differs at index 9.
- Crt.NearestSource: computes the source index floor(d * src / dst) exactly, not OpenCV's double-precision floor(d * (1.0 / (dst / src))), which can be one lower (the cases are on the Crt.Downsample line).
- Crt.Small: inherits the exact nearest-neighbour index of Crt.NearestSource, so for some frame and grid sizes a cell can come from the next source row or column compared with OpenCV.
- Crt.VideoToAscii: requires the cached grey grids to have the current grid size; a grid left by a video of another size makes the difference in the cache check fail or broadcast in numpy, which is not modelled.
- Launcher.RunScriptOf: an exception raised while the script itself runs (the "Error running command" report) is not modelled; the outcome records which entry point is called, and what the script then does is outside the model.
- SiteScript.Next: requires at least one slide, because with none the JavaScript index becomes NaN.
- SiteScript.Prev: requires at least one slide, for the same reason.
- The other programs in `os/` are left out, because they are not part of the modelled core: paint, the task manager, the physics engine, the compressors, the file tools and the video player.

## Findings

| source | as written | input that shows it | evidently intended | confidence | as-written member | corrected member |
|---|---|---|---|---|---|---|
| os/crt.py:132 | Frames are read from OpenCV in blue-green-red order, and the writer also expects blue-green-red. Every queued frame (lines 132 and 137) still goes through an RGB-to-BGR conversion, which exchanges the red and blue channels. | A pure blue frame (channels 255, 0, 0) is written with channels 0, 0, 255, which is red. | Each written block keeps its cell's colour in the order the frame source delivered it. | not executed | Crt.SwapRedBlueRecolours | Crt.WrittenBlockKeepsCellColour |
| os/crt.py:22 | The grey-grid cache is a module global that no conversion resets, and the launcher imports the script once per session, so a second conversion starts on the first one's grids. | Converting the same one-frame video twice in a session: the second run's only frame hits the cache, no frame has been rendered yet, and the second output has no frames. | Every conversion starts on an empty cache and queues one frame per input frame. | not executed | Crt.RepeatConversionWritesNothing | Crt.ConvertVideo |
