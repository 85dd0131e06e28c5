# Crash screen and libleo scrambler, modelled in Dafny

This project models two small pieces of a Nintendo 64 game port.

The first is the crash screen of `src/crash_screen.c`:
- the 128-entry character-to-glyph table and the packed 6 x 7 bitmap font;
- the two framebuffer primitives. `crash_screen_draw_rect` dims a rectangle; `crash_screen_draw_glyph` blits a glyph, doubled at width 640;
- the glyph walk of `crash_screen_printf` and `crash_screen_printf_with_bg`;
- the decoders of `crash_screen_draw`: the exception-cause index with its remap of 23 and 31, the FPCSR cause scan, and the float register's choice between a number and a placeholder;
- the ten-button unlock gate;
- the choice of the faulted thread and the watcher's re-wait;
- the draw-state setup of `crash_screen_init` and `crash_screen_set_draw_info`.

The second is the build tool `tools/encrypt_libleo.py`:
- the map-file lookup;
- the one-byte key;
- the virtual-address to ROM-offset translation;
- the in-place rewrite of the `__LeoBootGame2` and `__LeoBootGame3` code regions.

Modules:
- `Wrappers` (wrappers.dfy): `Option`.
- `CrashFont` (font.dfy): the two tables, the glyph lookup, the column masks and the picture of a glyph.
- `Framebuffer` (framebuffer.dfy): pure specifications of what each drawing primitive does to the framebuffer contents, shown as a `seq<bv16>`, with the lemmas about them.
- `Screen` (screen.dfy): the global `gCrashScreen` as class `CrashScreen`. Its framebuffer is an `array<bv16>`, and its width and height are fields. The drawing routines are loop methods over a moving pointer. Each is proved to leave `frameBuf[..]` equal to the matching `Framebuffer` function of the old contents.
- `FaultDecode` (faultdecode.dfy): the cause index, the FPCSR scan (a loop method), the float-register decision and the fragment labels.
- `UnlockGate` (unlock.dfy): the step function, its fold over a run of polls, and the polling loop.
- `FaultWatch` (faultwatch.dfy): the walk of the thread queue and the watcher loop.
- `Libleo` (libleo.dfy): the lookup loop, the key, the offset, and the region rewrite on an `array<Byte>`.

Inputs the source reads from hardware or the OS become parameters:
- the controller becomes a sequence of polled button words;
- the thread queue becomes a sequence of thread records in `tlnext` order;
- each break or fault message becomes one queue snapshot;
- the formatted text becomes a byte sequence with the count `_Printf` returned;
- the address `Memmap_GetLoadedFragmentVaddr` returns becomes a parameter;
- the ROM file becomes a byte array.

Three consequences of the code that are easy to misread:
- Dimming white (0xFFFF) with `((c & 0xE738) >> 2) | 1` gives 0x39CF (`Framebuffer.DimReachesFixedPoint`).
- Raw cause 23 is printed as "Watchpoint exception", entry 16 of the table (`FaultDecode.CauseRemapNames`).
- A non-zero word whose exponent field is 0 gets the placeholder, not a number (`FaultDecode.FprPlaceholders`).

## Model

| member | source | states |
|---|---|---|
| CrashFont.GlyphOf | src/crash_screen.c:12-18 | the entry a byte selects is 0xFF or a glyph index in 0 .. 44, so the seven font words `g / 5 * 7 .. + 6` that draw_glyph reads lie inside the 64-word font |
| CrashFont.HighBitIgnored | src/crash_screen.c:178 | a byte, its low 7 bits, and the byte with bit 7 flipped all select the same table entry |
| CrashFont.CaseInsensitive | src/crash_screen.c:12-18 | each lower-case letter has a glyph, and it is the glyph of the upper-case letter |
| CrashFont.DigitsAndLetters | src/crash_screen.c:12-18 | digits map to glyphs 0 .. 9 and upper-case letters to glyphs 10 .. 35, in order |
| CrashFont.Ink | src/crash_screen.c:129 | the pixel is 0xFFFF exactly when the column mask meets the row word, and 1 otherwise |
| CrashFont.ColumnBitNext | src/crash_screen.c:125-130 | `bit >>= 1` turns the mask of column j into the mask of column j + 1, starting from `0x80000000 >> ((glyph % 5) * 6)` |
| CrashFont.GlyphBitmap | src/crash_screen.c:116-131 | the picture of a glyph is 7 x 6 pixels, each 0xFFFF or 1 |
| CrashFont.GlyphRowPixels | src/crash_screen.c:125-131 | pixel j of glyph row i is 0xFFFF exactly when mask `0x80000000 >> ((glyph % 5) * 6 + j)` meets the row's font word |
| CrashFont.GlyphCodes | src/crash_screen.c:178 | a text's entries are the per-byte table lookups, one per byte, in order |
| CrashFont.CodesLow7 | src/crash_screen.c:178 | clearing every high bit of a text selects the same entries |
| CrashFont.CodesToUpper | src/crash_screen.c:12-18 | upper-casing a text selects the same entries |
| CrashFont.CodesAppend | src/crash_screen.c:176-188 | the entries of a concatenation are the entries of each part |
| Framebuffer.Dim | src/crash_screen.c:107 | the blend of one cell; `DimChannels` and `DimReachesFixedPoint` state what it does to a colour |
| Framebuffer.DimChannels | src/crash_screen.c:107 | read as RGBA-5551, the blend divides red, green and blue by four and sets alpha to 1 |
| Framebuffer.DimReachesFixedPoint | src/crash_screen.c:107 | three blends make any colour 0x0001, and 0x0001 is fixed |
| Framebuffer.DimBox | src/crash_screen.c:103-111 | the framebuffer, of unchanged length, after the sweep over a box of cells; `DimRectCell` pins it cell by cell |
| Framebuffer.DimRect | src/crash_screen.c:91-113 | draw_rect's result: the box after doubling at width 640, dimmed; of unchanged length |
| Framebuffer.RectScaled | src/crash_screen.c:96-103 | at width 640 all four coordinates are doubled; the scaled box fits whenever the rectangle does |
| Framebuffer.DimRectCell | src/crash_screen.c:91-113 | every cell (row, col) inside the scaled rectangle becomes Dim of its old colour, and every other cell keeps its colour |
| Framebuffer.DimBoxPartialStep | src/crash_screen.c:105-110 | dimming the cell `(top + i) * width + left + j` is the next step of the row-major sweep; that cell is still undimmed before it |
| Framebuffer.Blit320 | src/crash_screen.c:121-134 | the stores of the width-320 branch, row after row, six per row at stride 320 |
| Framebuffer.Blit640 | src/crash_screen.c:135-154 | the stores of the width-640 branch, row after row, one 2 x 2 block per pixel |
| Framebuffer.GlyphStores | src/crash_screen.c:121-155 | the stores draw_glyph makes: the 320 branch, the 640 branch, or none at any other width |
| Framebuffer.GlyphImage | src/crash_screen.c:115-156 | draw_glyph's result, of unchanged length; `GlyphImageCell320`, `GlyphImageCell640` and `GlyphImageOutside` pin it cell by cell |
| Framebuffer.GlyphImageCell320 | src/crash_screen.c:121-134 | at width 320, glyph pixel (i, j) lands on cell (x + j, y + i) |
| Framebuffer.GlyphImageCell640 | src/crash_screen.c:135-154 | at width 640, glyph pixel (i, j) lands on all four cells (2x + 2j + dj, 2y + 2i + di) |
| Framebuffer.GlyphImageOutside | src/crash_screen.c:115-156 | cells outside the 6 x 7 box (12 x 14 at width 640) keep their colour |
| Framebuffer.GlyphImageDone | src/crash_screen.c:115-156 | after all seven rows the stores made are the whole glyph image; at any width other than 320 and 640 nothing changes |
| Framebuffer.Walk | src/crash_screen.c:176-188 | the walk over a text's entries, entry k drawn at cursor x + 6k over what the earlier entries drew |
| Framebuffer.TextImage | src/crash_screen.c:176-188 | the walk with draw_glyph as the drawer, skipping 0xFF entries |
| Framebuffer.Print | src/crash_screen.c:176-188 | what the printf loop draws for the formatted bytes: the walk over their table entries |
| Framebuffer.WalkAppend | src/crash_screen.c:176-188 | walking a concatenation walks the second part from a cursor 6 cells further right per entry of the first |
| Framebuffer.TextImagePrefix | src/crash_screen.c:176-188 | entry n is drawn at x + 6n over what entries 0 .. n - 1 drew |
| Framebuffer.TextImageAppend | src/crash_screen.c:176-188 | the second part of a text starts 6 cells further right per entry of the first, whether or not those entries had glyphs |
| Framebuffer.TextImageUnmapped | src/crash_screen.c:180-182 | a text made only of 0xFF entries leaves the framebuffer unchanged |
| Framebuffer.TextImageRows | src/crash_screen.c:120-156 | a line of text that fits only touches the 7 rows (14 at width 640) starting at row y |
| Framebuffer.TextImageOtherWidth | src/crash_screen.c:121-155 | at any width other than 320 and 640 no text is drawn |
| Framebuffer.PrintLow7 | src/crash_screen.c:178 | only the low 7 bits of each byte affect what is drawn |
| Framebuffer.PrintCaseInsensitive | src/crash_screen.c:12-18 | upper- and lower-case text look the same on the screen |
| Framebuffer.PrintSkipsUnmapped | src/crash_screen.c:178-187 | a byte without a glyph draws nothing, and the text after it still starts 6 cells further right |
| Screen.Formatted | src/crash_screen.c:171-176 | the text drawn is the first `size` bytes of the buffer, or nothing when `size <= 0` |
| Screen.CrashScreen.Init | src/crash_screen.c:338-341 | the crash screen starts at width 320 and height 16 on the given framebuffer |
| Screen.CrashScreen.SetDrawInfo | src/crash_screen.c:332-335 | the framebuffer, width and height are replaced by the arguments |
| Screen.CrashScreen.DrawRect | src/crash_screen.c:91-113 | the framebuffer becomes DimRect of its old contents: the scaled rectangle is dimmed and nothing else changes |
| Screen.CrashScreen.DimRow | src/crash_screen.c:106-109 | the inner loop dims the rw cells of row i and moves the pointer past them |
| Screen.CrashScreen.DrawGlyph | src/crash_screen.c:115-156 | the framebuffer becomes GlyphImage of its old contents: the glyph at (x, y) on the 320 screen, 2 x 2 blocks on the 640 screen, nothing otherwise |
| Screen.CrashScreen.FontWord | src/crash_screen.c:117-126 | the i-th read `*data++` from `&gCrashScreenFont[glyph / 5 * 7]` is the word of row i of the glyph |
| Screen.CrashScreen.BlitGlyph320 | src/crash_screen.c:121-134 | the seven rows at stride 320 paint the glyph's picture |
| Screen.CrashScreen.BlitGlyph640 | src/crash_screen.c:135-154 | starting at `y * 0x500 + x * 2`, then advancing 12 + 0x9E8 / 2 cells per row, the loop paints two screen rows per glyph row |
| Screen.CrashScreen.BlitRow320 | src/crash_screen.c:125-133 | one glyph row: six cells, the pointer advancing 6 |
| Screen.CrashScreen.BlitRow640 | src/crash_screen.c:139-151 | one glyph row: six 2 x 2 blocks through `ptr[0]`, `ptr[1]`, `ptr[640]` and `ptr[641]`, the pointer advancing 12 |
| Screen.CrashScreen.StorePixel320 | src/crash_screen.c:129 | the store for pixel j of glyph row i goes to cell (x + j, y + i) and is the next step of the row |
| Screen.CrashScreen.StoreBlock640 | src/crash_screen.c:143-148 | the four stores for pixel j of glyph row i cover the 2 x 2 block at (2x + 2j, 2y + 2i) and are the next step of the row |
| Screen.CrashScreen.LookupGlyph | src/crash_screen.c:178 | the table read `gCrashScreenCharToGlyph[*ptr & 0x7F]` is the lookup GlyphOf |
| Screen.CrashScreen.DrawEntry | src/crash_screen.c:180-182 | a 0xFF entry draws nothing; any other entry draws its glyph at the cursor |
| Screen.CrashScreen.DrawText | src/crash_screen.c:174-188 | the loop over `size` bytes leaves the framebuffer equal to Print of the old contents, byte k drawn at x + 6k |
| Screen.CrashScreen.Printf | src/crash_screen.c:162-192 | the formatted text is drawn from (x, y); a count of 0 or less leaves the framebuffer unchanged |
| Screen.CrashScreen.PrintfWithBg | src/crash_screen.c:348-377 | for a positive count the box (x - 6, y - 6, (size + 2) * 6, 19) is dimmed first and the text drawn over it; otherwise nothing changes |
| FaultDecode.ExcCode | src/crash_screen.c:228 | `(cause >> 2) & 0x1F` lies in 0 .. 31 |
| FaultDecode.CauseIndex | src/crash_screen.c:228-236 | codes below 18 index themselves; 23 becomes 16 and 31 becomes 17; the index is inside the 18-entry table exactly for 0 .. 17, 23 and 31 |
| FaultDecode.CauseName | src/crash_screen.c:31-50 | a name exists exactly when the index is inside the table (the source does not check the other codes) |
| FaultDecode.CauseRemapNames | src/crash_screen.c:230-241 | code 23 is printed as "Watchpoint exception", 31 as "Virtual coherency on data", 14 as "Virtual coherency on inst." |
| FaultDecode.CauseIgnoresOtherBits | src/crash_screen.c:228 | only bits 2 .. 6 of the Cause register decide the index |
| FaultDecode.CauseBitNext | src/crash_screen.c:209-218 | `bit >>= 1` moves from the mask of step i to that of step i + 1 |
| FaultDecode.CauseBitIsShift | src/crash_screen.c:209-218 | the mask tested at step i is `1 << (17 - i)`, one of the cause bits 12 .. 17 |
| FaultDecode.FirstCause | src/crash_screen.c:211-218 | the first of steps i .. 5 whose cause bit is set, None exactly when none of them is |
| FaultDecode.FpcsrLabel | src/crash_screen.c:214-215 | the printed label is `gFPCSRFaultCauses[i]` for the first step i whose bit is set; no label exactly when none of the six bits is set |
| FaultDecode.FpcsrCause | src/crash_screen.c:207-220 | the scan returns the first i in 0 .. 5 whose bit 17 - i is set, so that `gFPCSRFaultCauses[i]` is printed; None (no label) exactly when none of the six bits is set; its result gives the label `FpcsrLabel` names |
| FaultDecode.FpcsrOnlyCauseBits | src/crash_screen.c:213-219 | bits of the FPCSR outside 12 .. 17 do not affect the scan |
| FaultDecode.ExponentField | src/crash_screen.c:199 | `(bits & 0x7f800000) >> 0x17` lies in 0 .. 255 |
| FaultDecode.Exponent | src/crash_screen.c:199 | the u32 subtraction stored in an s32 is the exponent field minus 0x7f, with no wrap |
| FaultDecode.WrapUndone | src/crash_screen.c:199 | a value in the s32 range comes back unchanged after reduction to u32 and storage in an s32 |
| FaultDecode.FprPrintable | src/crash_screen.c:199-204 | the value is printed exactly when its exponent field is in 1 .. 254 or the word is 0 |
| FaultDecode.FprPlaceholders | src/crash_screen.c:199-204 | 0x80000000, every non-zero pattern with exponent field 0, and every pattern with field 255 get the placeholder |
| FaultDecode.FprSignIgnored | src/crash_screen.c:199-200 | apart from the two zeros, flipping the sign bit does not change the decision |
| FaultDecode.FragmentLabel | src/crash_screen.c:282-290 | a label is printed exactly when the returned address is non-zero, and its value plus 0x20 is that address (u32) |
| FaultWatch.FirstCandidateUnique | src/crash_screen.c:299-311 | the thread the walk can return is unique, and it exists only when not every reached thread is a non-candidate |
| FaultWatch.IsFaultCandidate | src/crash_screen.c:303 | the thread test of the walk: priority in 1 .. 0x7E and flag bit 0 or 1 set |
| FaultWatch.GetFaultedThread | src/crash_screen.c:299-311 | returns the first thread before the priority -1 sentinel with priority in 1 .. 0x7E and `flags & 3` non-zero; None (NULL) exactly when there is none |
| FaultWatch.WatchForFault | src/crash_screen.c:320-323 | waits message after message and stops at the first whose queue holds a candidate; every earlier queue held none; None only when no queue did |
| UnlockGate.UnlockInputsButtons | src/crash_screen.c:60-61 | the unlock sequence has ten entries, each a single button (never the zero of an idle poll), none repeated |
| UnlockGate.Step | src/crash_screen.c:77-86 | a zero poll keeps the cursor; a poll equal to the expected entry advances it; every other non-zero poll resets it to 0 |
| UnlockGate.CursorAfter | src/crash_screen.c:74-88 | the cursor after any run of polls is in 0 .. 10 |
| UnlockGate.Pressed | src/crash_screen.c:77 | the buttons pressed: no more entries than polls, and none of them zero |
| UnlockGate.ZerosIgnored | src/crash_screen.c:77 | zero polls are invisible: the cursor depends only on the buttons pressed |
| UnlockGate.CursorMeansProgress | src/crash_screen.c:74-88 | until the screen unlocks, cursor c means the last c buttons pressed are the first c entries of the sequence |
| UnlockGate.SequenceAdvances | src/crash_screen.c:60-61 | buttons equal to the first k entries, in order and with any zeros between, take the cursor to k |
| UnlockGate.UnlockCondition | src/crash_screen.c:60-88 | the ten entries pressed in order with only zeros between unlock the screen; when the last poll unlocks it, the last ten buttons pressed are the ten entries |
| UnlockGate.NoRecheckAfterReset | src/crash_screen.c:78-85 | a wrong button is not compared again with entry 0: up, then the full sequence, leaves the cursor at 0 |
| UnlockGate.WaitForButtonCombo | src/crash_screen.c:70-89 | the loop stops at the first poll after which the cursor is 10; None means the polls run out with every prefix still locked |
| Libleo.FirstTokenIsFirstField | tools/encrypt_libleo.py:22 | `line.split()[0]` is None exactly for all-whitespace lines; otherwise it is the non-empty run of non-whitespace that follows the leading whitespace and ends at whitespace or at the end of the line |
| Libleo.GetAddressFromMap | tools/encrypt_libleo.py:19-23 | returns the first field of the first line containing the name; NotFound (-1) exactly when no line contains it |
| Libleo.VisibleNameHasToken | tools/encrypt_libleo.py:20-22 | a matching line for a name with a non-whitespace character always has a first field |
| Libleo.Key | tools/encrypt_libleo.py:61 | the key is a byte |
| Libleo.KeyOfBytes | tools/encrypt_libleo.py:58-61 | the key of a 32-bit address is the sum of its four bytes mod 256 |
| Libleo.KeyLow32 | tools/encrypt_libleo.py:61 | only the low 32 bits of the address affect the key |
| Libleo.KeyMasksWholeSum | tools/encrypt_libleo.py:61 | `& 0xFF` applies to the whole sum: at 0xFFFFFFFF the byte sum 0x3FC becomes the key 0xFC |
| Libleo.RomOffset | tools/encrypt_libleo.py:55-56 | the ROM offset plus 0x7FFFF400 is the virtual address |
| Libleo.AddSubInverse | tools/encrypt_libleo.py:32-33 | adding and subtracting the key mod 256 undo each other |
| Libleo.AddKey | tools/encrypt_libleo.py:32 | `(b + key) & 0xFF`, always a byte; `AddSubInverse` relates it to SubKey |
| Libleo.SubKey | tools/encrypt_libleo.py:33 | `(b - key) & 0xFF`, always a byte; `AddSubInverse` relates it to AddKey |
| Libleo.Scrambled | tools/encrypt_libleo.py:28-34 | the contents, of unchanged length, after the first `words` words from the start were rewritten; `ScrambleFrame`, `ScrambleStep` and `ScrambleInverse` state its properties |
| Libleo.ScrambleInverse | tools/encrypt_libleo.py:29-34 | applying the opposite adjustments (byte 2 minus key, byte 3 plus key) restores the original bytes, and the other way round |
| Libleo.ScrambleFrame | tools/encrypt_libleo.py:29-34 | bytes outside the rewritten words, and bytes 0 and 1 of every word, are unchanged |
| Libleo.ScrambleStep | tools/encrypt_libleo.py:30-34 | rewriting one more word changes exactly its bytes 2 and 3, which were original before |
| Libleo.WordCount | tools/encrypt_libleo.py:29 | `range(0, func_size, 4)` visits ceil(func_size / 4) words |
| Libleo.WordsWritten | tools/encrypt_libleo.py:29-30 | the words rewritten before a read runs past the end of the ROM: all of them when the region fits, otherwise the whole words that fit |
| Libleo.RewriteWord | tools/encrypt_libleo.py:30-34 | one iteration reads the word at `pos`, adjusts bytes 2 and 3, and writes it back over the same four bytes |
| Libleo.WriteWord | tools/encrypt_libleo.py:34 | the four bytes replace the word at `pos`, and every other byte is unchanged |
| Libleo.EncryptFunction | tools/encrypt_libleo.py:25-35 | a negative offset fails before any change; otherwise the ROM becomes the region scrambled for the words written; the rewrite completes exactly when all words fit, and a short read at `romAddr + 4n` fails after n words |
| Libleo.EncryptLeoBootGame2 | tools/encrypt_libleo.py:25-35 | 804 bytes (201 words) from the offset are scrambled exactly when they fit in the ROM; otherwise fewer words are |
| Libleo.EncryptLeoBootGame3 | tools/encrypt_libleo.py:37-47 | 0x60 bytes (24 words) from the offset are scrambled exactly when they fit in the ROM; otherwise fewer words are |

## Left out

- `crash_screen_sleep`, the OS message queue, thread start and stop, the display calls and the cache writeback: they are timing, scheduling and hardware calls.
- The infinite loops are modelled on finite inputs. `WaitForButtonCombo` takes a finite run of polls and `WatchForFault` a finite run of messages; each returns None where the source would go on waiting. The final park loop is not modelled.
- `_Printf` and every format string, including the float formatting: the printf methods take the formatted bytes and the count.
- `Memmap_GetLoadedFragmentVaddr` is a lookup into code outside this model; its result is a parameter of `FragmentLabel`. The instruction read at the PC (line 296) is left out.
- The KSEG1 pointer arithmetic of `crash_screen_init` and `crash_screen_set_draw_info`, and the framebuffer address computed from `osMemSize`: the framebuffer is an array given by the caller.
- `src/DDC0.c` is not part of this model: it is thread bootstrap built on calls outside the repository.
- The button masks of the unlock sequence are the libultra controller constants (`U_JPAD` = 0x0800 … `A_BUTTON` = 0x8000). They are defined in libultra, not in this repository.
- Screen.CrashScreen.DrawRect: requires the scaled rectangle to lie inside the screen's columns and the framebuffer's rows. The source does no clipping. Past the right edge its flat pointer wraps onto the start of the next row, and past the end it writes outside the buffer. The model captures neither; every call in `crash_screen_draw` stays inside the screen.
- Screen.CrashScreen.DrawGlyph: requires the glyph box (doubled at width 640) to lie inside the screen's columns and the framebuffer's rows, and the glyph to be one of the 45 in the font. Past the right edge the source's pointer wraps onto the next row; past the end it reads and writes out of bounds. The model captures neither.
- Screen.CrashScreen.Printf, Screen.CrashScreen.PrintfWithBg and Screen.CrashScreen.DrawText: require every glyph of the text to fit on the screen, as DrawGlyph does, so text that runs past the right edge and wraps onto the next rows is not modelled.
- Screen.CrashScreen.PrintfWithBg: `x` and `y` are `s16` in the source; the model takes them as unbounded integers, which agrees for every on-screen coordinate.
- FaultWatch.GetFaultedThread: requires the queue to contain its sentinel, as libultra's active queue always does. The linked list becomes a sequence, so pointers and aliasing are not modelled.
- FaultDecode.CauseName: for cause codes outside 0 .. 17, 23 and 31 the source reads beyond `gFaultCauses`; the model returns None there instead of modelling that read.
- In the Python tool, the file opening, the `argv` handling, the hex-string conversions (lines 52-58) and the seek/read/write calls are left out. The ROM is an array and the offset an integer. When `get_address_from_map` returns -1, line 52's `int(-1, 16)` raises a TypeError; that is not modelled beyond the `NotFound` result.
- Libleo.EncryptFunction: merges the two identical loops of the two encrypt functions, with the region size as a parameter; the two wrappers fix it at 804 and 0x60.
