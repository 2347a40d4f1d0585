# qdiff in Dafny

A model of the core of qdiff, a binary diff tool, and of the utility library it
is built on. Every operation is stated in Dafny, and its behaviour is proved
against a specification.

- **RotFile** (trotfile.h, trotfile.cc): the read-only file cache.
  - A direct-mapped cache of `numbuf` slots of `bufsize` bytes each.
  - The file is the byte sequence that reading it yields.
  - `Get` (`operator[]`) returns byte `i` of the file whatever the cache holds.
  - A miss reloads exactly one slot. A hit changes nothing.
  - The bit-mask arithmetic of the source is proved equal to block and slot division (module **Bits**).
- **Sync** (qdiff.cc): the synchronisation engine and the driver loop of `main`.
  - They work over the two files as byte sequences.
  - The driver issues a stream of renderer calls (`Event`s). The stream is proved sound: every call reports bytes that are inside both files, and every match is a maximal run of equal bytes.
  - Replaying the stream consumes both files.
- **Glyphs, Columns, Layouts, Screen, ScreenFacts, DiffOutput** (tdiffoutput.cc): the side-by-side and vertical renderer `TDiffOutput`.
  - **Glyphs**: the widths of `charLen` and the text of `putChar`.
  - **Columns**: `setStrLen`, which pads or cuts a line to a number of visible columns without counting colour sequences.
  - **Layouts**: the constructor's option decisions.
  - **Screen**: every renderer operation as a function on the renderer's state.
  - **ScreenFacts**: the invariants those operations keep.
  - **DiffOutput**: the class `Renderer`. It holds the fields of `TDiffOutput`, and its methods are proved to compute the Screen functions.
- **TStrings, Spaces, Escapes, Unquote, Words, Searching, Chars** (tstring.h, tstring.cc): `TString`.
  - A string is a value `seq<char>` whose bytes are the chars below 256.
  - Operations that rewrite a string in place are methods over a local copy, proved against a specification function.
- **Arrays** (tarray.h): `TArray`, a class over a Dafny `array`, with fixed and automatic growth.
- **AssocArray** (tassocarray.h): `TAssocArray`, a class with a bucket table of chained pairs and its prime-size rehash, and the iterator `TAssocArrayIter`.
- **AppItems, AppConfig** (tappconfig.cc): the option framework.
  - `AppItems` covers option items (`TAppConfigItem`): the validation of a description, `setValue` and `setValueFromApp`.
  - `AppConfig` covers the registration of items, `getName` and `doCommandLine`.
  - `userError` and `fatalError` become `Err` results.
- **MinMax** (tminmax.h), **Outcomes** (the result type), **Seqs** (a sequence fact).

Integers of the source are the platform's 32-bit `int`. They are unbounded here, except where the source depends on the width:
- the file size stored into `int _size`, which wraps for a file of 2 GiB or more;
- the unsigned compare of `operator[]`, which then serves every non-negative index;
- the overflow of the size probe;
- the `%08X` address label.

## Model

| member | source | states |
|---|---|---|
| MinMax.Min | tminmax.h:23 | the result is a when a <= b, otherwise b; it is at most both arguments and is one of them |
| MinMax.Max | tminmax.h:24 | the result is a when a >= b, otherwise b; it is at least both arguments and is one of them |
| MinMax.Abs | tminmax.h:25 | the result is non-negative and is a or -a |
| MinMax.OutOfRangeIsNotMember | tminmax.h:27-30 | tOutOfRange holds iff v is not in [l, u], and always when l > u |
| MinMax.MinMaxPair | tminmax.h:23-25 | Min and Max together give back both arguments; their distance is Abs of the difference |
| Bits.ToUint | trotfile.h:66 | `(uint)i` is i for a non-negative int and i + 2^32 for a negative one |
| Bits.ShiftLeft1 | trotfile.cc:62 | `s <<= 1` doubles s below 2^30 and wraps 2^30 to INT_MIN |
| Bits.ShrIsDiv | trotfile.h:68 | `i >> k` is i / 2^k |
| Bits.AndLowMask | trotfile.h:70 | for every int i, negative ones included, `i & (2^k - 1)` (bufmask) is i mod 2^k |
| Bits.AndHighMask | trotfile.h:67 | for every int i, negative ones included, `i & ~(2^k - 1)` (offmask) is i minus i mod 2^k |
| Bits.Wrap32 | trotfile.cc:50 | storing a wider integer into an int gives the int congruent to it mod 2^32; an int value is kept; a non-negative value that stays non-negative does not grow, and one that turns negative exceeded INT_MAX |
| RotFile.IsPowerOf2 | trotfile.cc:113-118 | the result holds iff n is a positive power of two |
| RotFile.IntLog2 | trotfile.cc:105-110 | n <= 0 is fatal; otherwise the result k has 2^k <= n < 2^(k+1), so intLog2(2^k) == k |
| RotFile.ProbeSize | trotfile.cc:57-84 | the doubling probe is a user error when s overflows (more than 2^30 readable bytes); otherwise the binary search yields the readable length, or 1 when nothing is readable |
| RotFile.SlotSelection | trotfile.h:67-70 | for every int i, negative ones included, `(i >> bufbits) & nummask` is (i / bufsize) mod numbuf, `i & offmask` is i - i mod bufsize, and `i & bufmask` is i mod bufsize |
| RotFile.Limit | trotfile.h:66 | for a non-negative int i, `(uint)i < (uint)_size` holds iff i is below Limit(_size): _size itself, or 2^31 when _size is negative |
| RotFile.BlockAligned | trotfile.h:67 | `i & offmask` is a multiple of bufsize, at most i, in i's block, and non-negative for non-negative i |
| RotFile.BlockEnd | trotfile.cc:124-125 | below n, a block ends by n's last aligned offset, or is the partial block starting there |
| RotFile.Pow2DividesLimit | trotfile.h:66 | every power of two that fits an int divides 2^31, so with a negative _size every block ends by 2^31 |
| RotFile.RotFile.LoadLen | trotfile.cc:124-125 | for any int size, the length loadBuf computes with the masks is bufsize, except for the block at `size & offmask`, where it is `size & bufmask` |
| RotFile.RotFile.constructor | trotfile.cc:36-90 | bufmask == bufsize - 1, offmask == ~bufmask, nummask == numbuf - 1, and every slot starts invalid (off == -1) |
| RotFile.RotFile.CachedByte | trotfile.h:69-70 | when a slot records the block of i, it holds the file's byte i |
| RotFile.RotFile.BlockCovers | trotfile.cc:124-126 | byte i below Limit(size) lies inside the bytes loadBuf reads for i's block, and that block ends by Limit(size) |
| RotFile.RotFile.LoadBuf | trotfile.cc:121-130 | the load succeeds iff the offset is non-negative (fseek to a negative offset fails) and the file holds the block's bytes; a failed seek or a short read is fatal and changes nothing; on success, only off[buffer] changes, to offset |
| RotFile.RotFile.Locate | trotfile.h:67-70 | for any int i, the masks give the block offset, the slot and the place within the block |
| RotFile.RotFile.Get | trotfile.h:65-74 | an index outside [0, Limit(size)) is fatal, including a negative i that passes the unsigned compare when i < size < 0; otherwise the result is the file's byte i, whatever the cache held; only slot (i / bufsize) mod numbuf changes, to i's block; a hit changes nothing |
| RotFile.Open | trotfile.cc:25-93 | numbuf or bufsize not a power of two is fatal; a missing file is a user error; a regular file's size is its length stored into an int (wrapped mod 2^32), and Limit of it never exceeds the length; a non-regular one gets the probed size; every slot starts invalid |
| Sync.Match | qdiff.cc:87-104 | the first n byte pairs agree, and pair n disagrees or lies past the end of a file |
| Sync.Compare | qdiff.cc:133-143 | true iff both files have at least minmatch bytes left and those bytes agree pairwise |
| Sync.SyncOnlySubst | qdiff.cc:107-129 | n is at most the shorter remainder; a run of minmatch equal bytes starts at n, or n is the shorter remainder; no such run starts before n |
| Sync.SyncedBack | qdiff.cc:170-175 | stepping a sync point back over an agreeing byte pair keeps it a sync point |
| Sync.SlideBack | qdiff.cc:170-175 | the heuristic's backward trim moves both offsets back by the same amount, keeps the sync, and stops at a disagreeing pair or at a start |
| Sync.Settle | qdiff.cc:168-189 | the reported gap reaches a sync point, at most one of ins and del is non-zero, and without heuristics sub and del or ins are the candidate found |
| Sync.Ring | qdiff.cc:167-190 | one pass of the inner loop finds the first agreeing candidate with larger skip i, trying the file-1 skip before the file-2 skip, or reports that none agrees |
| Sync.Synchronize | qdiff.cc:146-201 | at end of file 1 the rest of file 2 is inserted; at end of file 2 the rest of file 1 is deleted; otherwise outputs stay within the remainders, at most one of ins and del is non-zero, a sync is reached or the rest of both files is consumed, and without heuristics no earlier candidate agrees |
| Sync.NoEarlierSync | qdiff.cc:166-190 | the first agreeing candidate in the search order has no earlier agreeing candidate, and the bytes just before it differ |
| Sync.ReportGap | qdiff.cc:264-277 | one gap report keeps the event stream sound and moves the cursors forward or leaves them on a matching pair |
| Sync.ReportSubstGap | qdiff.cc:264-268 | the byte-by-byte gap is a substitution that moves both cursors by the same amount |
| Sync.ReportSyncGap | qdiff.cc:270-277 | the gap up to the next sync point is reported and the cursors move forward or stand on a matching pair |
| Sync.EmitGap | qdiff.cc:271-275 | a substitution when sub > 0, otherwise a deletion and an insertion, each only when not empty; the replay advances by (sub + del, sub + ins) |
| Sync.ReportMatch | qdiff.cc:279-282 | a match is reported exactly when the cursors stand on an equal pair, and both cursors advance by its length |
| Sync.ReportTail | qdiff.cc:284-300 | the rest of the unfinished file is deleted or inserted, or with stop-on-eof the output is only flushed; a flush ends the stream |
| Sync.Diff | qdiff.cc:236-300 | empty files are reported and not compared; otherwise the event stream is sound, ends with a flush and finishes one file, and without stop-on-eof it consumes both |
| Glyphs.Spaces | tdiffoutput.cc:361-364 | n blanks and nothing else |
| Glyphs.TabWidth | tdiffoutput.cc:412-414 | the width of an unshown tab is between 1 and tab_size and reaches the next tab stop |
| Glyphs.CharLen | tdiffoutput.cc:367-426 | every width is between 1 and max(5, tab_size); only an unshown tab is wider than 5 |
| Glyphs.CharLenPositionFree | tdiffoutput.cc:367-426 | only an unshown tab has a width that depends on the column |
| Glyphs.PrintChar | tdiffoutput.cc:208-256 | the name is three columns; a printable byte is quoted; a byte from 128 up is blank |
| Glyphs.ShortNamesAreFourWide | tdiffoutput.cc:350-356 | the control codes with two-letter names are exactly those charLen draws four columns wide, so putChar's `<XY>` and `<XYZ>` have the width charLen says |
| Glyphs.HexGlyph | tdiffoutput.cc:304-308 | the `<xHH>` form is five columns |
| Glyphs.AddressLabel | tdiffoutput.cc:514 | the `%08X:` label is nine columns and ends with ':' |
| Glyphs.LineLabel | tdiffoutput.cc:442 | the `% 8d:` label is the digits after a sign column, right-aligned in eight columns, then ':' |
| Glyphs.LineLabelWidth | tdiffoutput.cc:440-444 | line numbers below ten million fill exactly the nine-column prefix |
| Glyphs.PutChar | tdiffoutput.cc:296-358 | the text written is the byte's glyph; it is exactly charLen columns wide, except an unshown newline, which writes nothing although charLen counts one; it holds no escape and no NUL |
| Glyphs.PutSpace | tdiffoutput.cc:361-364 | num blanks |
| Glyphs.GlyphPlain | tdiffoutput.cc:296-358 | every glyph is plain text, one column per character |
| Columns.PastSgr | tdiffoutput.cc:265-268 | the walk over an escape sequence ends just past its first 'm', or at the end of the string |
| Columns.KeepVisible | tdiffoutput.cc:263-273 | the part setStrLen keeps has min(len, visible columns) columns and stays closed |
| Columns.KeepShort | tdiffoutput.cc:263-273 | a line narrower than len is kept whole |
| Columns.FitWidth | tdiffoutput.cc:259-280 | a closed half line comes out exactly len columns wide and closed, given a reset sequence of no column |
| Columns.SetStrLen | tdiffoutput.cc:259-280 | the result is the kept part, blanks up to len columns, and the reset sequence when the kept part switched colours |
| Columns.WalkLine | tdiffoutput.cc:263-273 | the first loop stops where the kept part ends, having counted its columns, and records whether it stepped over an escape sequence |
| Columns.FindM | tdiffoutput.cc:267 | the inner loop stops at the first 'm' at or after p, or at the end |
| Layouts.Sgr | tdiffoutput.cc:78-83 | an SGR colour sequence starts with ESC and ends with 'm' |
| Layouts.SgrInvisible | tdiffoutput.cc:265-268 | an SGR sequence takes no column |
| Layouts.PalettesOk | tdiffoutput.cc:77-84 | the default, the alternative and the empty palette all take no column |
| Layouts.Colours | tdiffoutput.cc:175-177 | the palette is usable, and it is the empty one exactly when --no-color is given |
| Layouts.Width | tdiffoutput.cc:101-109 | the width is at least 42 |
| Layouts.ConflictingSwitches | tdiffoutput.cc:94-131 | more than one mode switch, or an unprintable character parameter longer than one character, is a user error |
| Layouts.HideAllRefused | tdiffoutput.cc:184-185 | hiding all four kinds is a user error |
| Layouts.ConfigureErrors | tdiffoutput.cc:133-185 | with at most one mode switch, the constructor fails exactly when the hex dump meets a character option, a line option is given outside formatted mode, or all four kinds are hidden; stated for the constructor as written, with autoMode counting file 1's sample twice, and for the corrected one |
| Layouts.AsWrittenErrors | tdiffoutput.cc:133-185 | the refusals of the constructor as written, whose mode comes from autoMode as written and whose range switches are crossed |
| Layouts.ChosenMode | tdiffoutput.cc:120-132 | an explicit mode switch is obeyed; with none, the constructor as written takes autoMode's choice from file 1's sample counted twice, and the corrected one the choice from both samples |
| Layouts.Configure | tdiffoutput.cc:120-194 | the corrected constructor: with no mode switch its mode is the choice from both samples, and each range switch ranges its own kind |
| Layouts.LineNumbersAgainstBinary | tdiffoutput.cc:120-185 | file 1 = "a\n", file 2 = two NUL bytes and --line-numbers: the constructor as written accepts in formatted mode, and the corrected one refuses |
| Layouts.RangeSwitches | tdiffoutput.cc:187-194 | in the corrected constructor, --range-deletion ranges deletions and --range-insertion insertions, as their help texts say (qdiff.cc:74-75), and --range sets all four |
| Layouts.RangeSwitchesCrossed | tdiffoutput.cc:189-190 | as written, the constructor accepts the same options, and its layout differs from the corrected one only in that range_ins comes from --range-deletion and range_del from --range-insertion |
| Layouts.SwappedAccepted | tdiffoutput.cc:38-205 | whether the options are accepted does not depend on the deletion and insertion range switches |
| Layouts.SwappedLayout | tdiffoutput.cc:38-205 | exchanging the two range switches changes no field of the layout except range_ins and range_del |
| Layouts.UnformattedDefaults | tdiffoutput.cc:133-172 | outside formatted mode, lines are labelled and newlines and tabs are shown; the hex dump has no character options |
| Layouts.Geometry | tdiffoutput.cc:109-158 | a half line is (width-1)/2 >= 20 columns, every split mode holds at least one byte per line, and a default hex line fits in a half |
| Layouts.ConfigureOk | tdiffoutput.cc:38-205 | an accepted configuration gives a usable style and palette exactly when the unprintable character is not ESC |
| Layouts.MaxBytesPositive | tdiffoutput.cc:136-156 | max_bytes_per_line is at least 4 in every split mode |
| Layouts.Newlines | tdiffoutput.cc:823 | the newline count of a sample is at most its length |
| Layouts.NonAscii | tdiffoutput.cc:824 | the count of NUL and bytes above 126 is at most the sample's length |
| Layouts.Census | tdiffoutput.cc:822-825 | the counting loop counts the newlines and non-ASCII bytes of the first n bytes |
| Layouts.AutoModeAsWritten | tdiffoutput.cc:809-845 | autoMode as written computes the choice from file 1's sample counted twice |
| Layouts.AutoMode | tdiffoutput.cc:809-845 | autoMode with the second loop over file 2 computes the choice from both samples |
| Layouts.BinarySecondFile | tdiffoutput.cc:835-838 | a binary second file at least as long as the first gives a hex dump |
| Layouts.TextIsNotHex | tdiffoutput.cc:835-838 | two files without NUL or bytes above 126 are never shown as a hex dump |
| Layouts.AsWrittenMissesSecondFile | tdiffoutput.cc:826-829 | as written, a text file against a binary one is shown as formatted text; counting both files gives a hex dump |
| Screen.Reset | tdiffoutput.cc:286-292 | a reset half line is empty, has no colour, needs its label and keeps its line number |
| Screen.Flushed | tdiffoutput.cc:283-293 | flush does not move the cursors |
| Screen.AscElem | tdiffoutput.cc:429-503 | putAscElem does not move the cursors |
| Screen.HexElem | tdiffoutput.cc:506-569 | putHexElem does not move the cursors |
| Screen.Elem | tdiffoutput.cc:609-639 | one turn of a byte loop advances the cursor of each side taken by one |
| Screen.Run | tdiffoutput.cc:609-639 | n turns advance the cursor of each side taken by n |
| Screen.RunStep | tdiffoutput.cc:609-639 | n + 1 turns are n turns and one more |
| Screen.Skip | tdiffoutput.cc:619-623 | a hidden kind advances the cursors by the bytes it reports |
| Screen.Ranged | tdiffoutput.cc:625-634 | a range line advances the cursors by the bytes it reports |
| Screen.MatOut | tdiffoutput.cc:591-642 | mat advances both cursors by num in every mode, including the hidden and range branches |
| Screen.SubOut | tdiffoutput.cc:645-712 | sub advances the cursors by (num + del, num + ins) in every mode |
| Screen.SubRuns | tdiffoutput.cc:698-709 | the byte loops of sub advance the cursors by (num + del, num + ins) |
| Screen.DelOut | tdiffoutput.cc:715-759 | del advances the cursors by (num, 0) in every mode |
| Screen.InsOut | tdiffoutput.cc:762-806 | ins advances the cursors by (0, num) in every mode |
| ScreenFacts.StartOk | tdiffoutput.cc:199-204 | the constructor's state satisfies the invariant |
| ScreenFacts.FlushedOk | tdiffoutput.cc:283-293 | flush keeps the invariant; the line it prints is aligned |
| ScreenFacts.SplitRowAligned | tdiffoutput.cc:584-588 | printSplitLine of two closed halves is aligned: both are exactly half_line_len columns |
| ScreenFacts.AscBreakOk | tdiffoutput.cc:431-434 | the line break before an overfull pair keeps the invariant |
| ScreenFacts.AscDrawOk | tdiffoutput.cc:435-496 | drawing a pair keeps the invariant |
| ScreenFacts.AscLineEndOk | tdiffoutput.cc:496-502 | ending a line at a newline keeps the invariant |
| ScreenFacts.AscElemOk | tdiffoutput.cc:429-503 | putAscElem keeps the invariant |
| ScreenFacts.AscHalfOk | tdiffoutput.cc:439-494 | one side of putAscElem keeps its half line closed and counts at least one column |
| ScreenFacts.HexHalfOk | tdiffoutput.cc:512-567 | one side of putHexElem keeps its half line closed and counts exactly one more byte |
| ScreenFacts.HexHalfCounts | tdiffoutput.cc:512-567 | one side of putHexElem counts one byte and keeps its line number |
| ScreenFacts.HexBreakOk | tdiffoutput.cc:507 | breaking a full hex line keeps the invariant and leaves room for one more byte |
| ScreenFacts.HexDrawOk | tdiffoutput.cc:508-567 | drawing a hex pair keeps the invariant and counts one byte on each side |
| ScreenFacts.HexElemOk | tdiffoutput.cc:506-569 | putHexElem keeps the invariant |
| ScreenFacts.PairOk | tdiffoutput.cc:609-639 | putting out one pair keeps the invariant in every mode |
| ScreenFacts.ElemOk | tdiffoutput.cc:609-639 | one turn of a byte loop keeps the invariant |
| ScreenFacts.RunOk | tdiffoutput.cc:609-639 | a whole byte loop keeps the invariant |
| ScreenFacts.RangeTextClosed | tdiffoutput.cc:627-630 | the text of a range line is closed |
| ScreenFacts.SkipOk | tdiffoutput.cc:619-623 | a hidden stretch keeps the invariant |
| ScreenFacts.RangedOk | tdiffoutput.cc:625-634 | a range line keeps the invariant |
| ScreenFacts.MatOutOk | tdiffoutput.cc:591-642 | mat keeps the invariant |
| ScreenFacts.SubOutOk | tdiffoutput.cc:645-712 | sub keeps the invariant |
| ScreenFacts.SubRunsOk | tdiffoutput.cc:698-709 | the three byte loops of sub keep the invariant |
| ScreenFacts.DelOutOk | tdiffoutput.cc:715-759 | del keeps the invariant |
| ScreenFacts.InsOutOk | tdiffoutput.cc:762-806 | ins keeps the invariant |
| ScreenFacts.SeparatorColumn | tdiffoutput.cc:584-588 | in an aligned split line, the '\|' sits after exactly half_line_len visible columns, and the line is 2 * half_line_len + 2 columns |
| ScreenFacts.PrintedAligned | tdiffoutput.cc:584-588 | every split line printed so far has its separator in column half_line_len |
| ScreenFacts.FlushIdempotent | tdiffoutput.cc:283-293 | after flush nothing is pending, so a second flush prints nothing and changes nothing |
| ScreenFacts.HexCounts | tdiffoutput.cc:506-569 | a hex pair keeps both counters equal: each counts one more byte, or a full line is printed and the pair starts the next |
| ScreenFacts.AscHalfBytes | tdiffoutput.cc:439-494 | one side counts its byte's width, widened to the other side's byte when both are present; an absent byte counts the other's width |
| ScreenFacts.DrawBytes | tdiffoutput.cc:456-461 | drawing a byte counts its width, widened to the other side's |
| ScreenFacts.AscSameColumn | tdiffoutput.cc:435-496 | when both sides start at the same column and no tab depends on its column, both end at that column plus the wider glyph |
| ScreenFacts.PrefixedBytes | tdiffoutput.cc:440-455 | the label and the colour switch count no column |
| ScreenFacts.AscDrawLines | tdiffoutput.cc:431-496 | the break and the drawing keep both line counters |
| ScreenFacts.NewlineEndsLine | tdiffoutput.cc:496-502 | in formatted mode, a newline on either side ends the output line and bumps the line counter of its side; otherwise the counters stay |
| ScreenFacts.VerticalRun | tdiffoutput.cc:609-613 | vertical mode prints one line per turn, in order, with the offsets and bytes of the sides taken, and buffers nothing |
| DiffOutput.Prefix | tdiffoutput.cc:440-455 | computes the label and colour switch before a present byte, which count no column |
| DiffOutput.AscSide | tdiffoutput.cc:439-494 | computes one side of putAscElem |
| DiffOutput.DrawSide | tdiffoutput.cc:456-461 | computes a present byte's glyph and its padding |
| DiffOutput.HexSide | tdiffoutput.cc:512-538 | computes one side of putHexElem |
| DiffOutput.Renderer.constructor | tdiffoutput.cc:196-204 | cursors at 0, empty halves on line 1, nothing printed, invariant holds |
| DiffOutput.Renderer.PrintSplitLine | tdiffoutput.cc:584-588 | appends the row of both halves fitted to half_line_len |
| DiffOutput.Renderer.Flush | tdiffoutput.cc:283-293 | the new state is the flushed state |
| DiffOutput.Renderer.BreakAsc | tdiffoutput.cc:431-434 | flushes before an overfull pair unless no_line_break |
| DiffOutput.Renderer.DrawAsc | tdiffoutput.cc:435-496 | draws both sides, or only counts them once side 1 is past max_bytes_per_line |
| DiffOutput.Renderer.EndAscLine | tdiffoutput.cc:496-502 | in formatted mode, a newline counts a line on its side and ends the output line |
| DiffOutput.Renderer.PutAscElem | tdiffoutput.cc:429-503 | computes putAscElem and keeps the invariant |
| DiffOutput.Renderer.PutHexElem | tdiffoutput.cc:506-569 | computes putHexElem and keeps the invariant |
| DiffOutput.Renderer.PutPair | tdiffoutput.cc:609-639 | puts out the pair of one loop turn in the current mode |
| DiffOutput.Renderer.Put | tdiffoutput.cc:609-639 | one loop turn: the pair, then the cursors of the sides taken advance |
| DiffOutput.Renderer.PutRun | tdiffoutput.cc:609-639 | n loop turns, keeping the invariant |
| DiffOutput.Renderer.Hide | tdiffoutput.cc:619-623 | a hidden kind flushes in the split modes and advances the cursors |
| DiffOutput.Renderer.Range | tdiffoutput.cc:625-634 | a range line is printed, and the cursors advance |
| DiffOutput.Renderer.Mat | tdiffoutput.cc:591-642 | computes mat and keeps the invariant |
| DiffOutput.Renderer.Sub | tdiffoutput.cc:645-712 | computes sub and keeps the invariant |
| DiffOutput.Renderer.PutSubRuns | tdiffoutput.cc:698-709 | computes the three byte loops of sub |
| DiffOutput.Renderer.Del | tdiffoutput.cc:715-759 | computes del and keeps the invariant |
| DiffOutput.Renderer.Ins | tdiffoutput.cc:762-806 | computes ins and keeps the invariant |
| DiffOutput.Renderer.Call | qdiff.cc:263-300 | performs the renderer operation an event of the driver names |
| DiffOutput.Create | tdiffoutput.cc:38-205 | the renderer exists iff the corrected constructor accepts the options; every refusal is a user error |
| DiffOutput.Step | qdiff.cc:263-300 | each call advances the cursors by what the event reports |
| DiffOutput.Rendered | qdiff.cc:263-300 | after a stream of calls, the renderer's cursors are where the engine's replay puts them |
| DiffOutput.RenderedOk | qdiff.cc:263-300 | the invariant holds after every sound stream |
| DiffOutput.ClosingFlush | qdiff.cc:300 | after the closing flush, every counted byte has been printed |
| DiffOutput.Play | qdiff.cc:263-300 | giving the driver's stream to a fresh renderer yields the Rendered state |
| Chars.ToLower | tstring.cc:280-283 | tolower maps each upper-case letter to its lower-case letter and leaves every other byte alone |
| Chars.ToUpper | tstring.cc:286-289 | toupper maps each lower-case letter to its upper-case letter and leaves every other byte alone |
| Chars.CaseRoundTrip | tstring.cc:280-289 | the two conversions undo each other on letters, agree elsewhere, and keep letters letters |
| Chars.ByteOf | tstring.cc:790 | storing an int into a char keeps its value mod 256 |
| Chars.ByteOfCode | tstring.cc:814 | storing the code of a byte gives back that byte |
| Chars.Digits | tdiffoutput.cc:442 | the "%d" digits of n are non-empty decimal digits, one more for each factor of ten |
| Chars.DigitsRoundTrip | tdiffoutput.cc:442 | reading the printed digits of n back gives n |
| TStrings.Substring | tstring.h:208-216 | START means 0 and END the length; the result is an error exactly when a bound exceeds the length (compared unsigned) or end < start, and otherwise holds the bytes from start to end |
| TStrings.SubstringSplit | tstring.h:208-216 | (START, END) is the whole string, and cutting at any i and gluing the two halves gives it back |
| TStrings.At | tstring.h:198-201 | reading succeeds exactly for 0 <= i <= len; index len reads the terminating NUL |
| TStrings.Store | tstring.h:203-206 | writing succeeds exactly for 0 <= i < len and changes only byte i |
| TStrings.Append | tstring.h:185-193 | the old contents stay an unchanged prefix and the appended bytes follow |
| TStrings.LastChar | tstring.h:262 | NUL for the empty string, otherwise the last byte |
| TStrings.Memcmp | tstring.h:450 | 0 exactly when the first n bytes agree; otherwise the sign of the first differing byte |
| TStrings.Cmp | tstring.h:449-455 | the result is -1, 0 or 1 |
| TStrings.Equ | tstring.h:456-459 | true exactly for equal strings |
| TStrings.CmpIsLexicographic | tstring.h:449-455 | a negative result means lexicographically smaller (a proper prefix or a smaller byte at the first difference), and 0 means equal |
| TStrings.CmpAntisymmetric | tstring.h:449-455 | swapping the arguments flips the sign |
| TStrings.ScanUpTo | tstring.h:236-239 | from a valid scanner, stops at the first upto or the end and returns exactly the bytes passed; an out-of-range scanner is an error and stays put |
| TStrings.ScanUpToAny | tstring.h:241-245 | as ScanUpTo, stopping at the first byte that occurs in the set |
| TStrings.ScanRest | tstring.h:247-249 | a scanner inside the string moves to the end and returns the rest; otherwise nothing is returned and the scanner stays |
| TStrings.SkipSpace | tstring.h:251-252 | the scanner moves over whitespace to the first non-space byte or the end |
| TStrings.PerhapsSkipOneChar | tstring.h:254-255 | the scanner moves by one exactly when c is the next byte |
| TStrings.FirstOccurence | tstring.cc:924-930 | -1 exactly when c does not occur, otherwise the least index holding c |
| TStrings.LastOccurence | tstring.cc:327-330 | -1 exactly when c does not occur, otherwise the greatest index holding c |
| TStrings.CStr | tstring.cc:328 | the C string of a Rep is the NUL-free prefix ended by the first NUL |
| TStrings.HasPrefix | tstring.cc:441-444 | true exactly when the prefix starts the string |
| TStrings.HasSuffix | tstring.cc:447-451 | true exactly when the suffix ends the string |
| TStrings.PrefixSuffixOfConcat | tstring.cc:441-451 | p + t has prefix p and t + p has suffix p |
| TStrings.Truncate | tstring.cc:462-468 | the result is a prefix; max bytes when 0 <= max < len, and the unchanged string otherwise (a negative max is huge when unsigned) |
| TStrings.TruncateTwice | tstring.cc:462-468 | truncating never lengthens and truncating twice is truncating once |
| TStrings.CaseConversions | tstring.cc:249-295 | lower(), upper() and capitalize() make isLower, isUpper and isCapitalized hold for a non-empty string, and lower and upper forget each other |
| TStrings.Lower | tstring.cc:280-283 | the loop leaves the lower-cased string |
| TStrings.Upper | tstring.cc:286-289 | the loop leaves the upper-cased string |
| TStrings.Capitalize | tstring.cc:292-295 | lower(), then the first byte upper case |
| TStrings.PreserveCaseShape | tstring.cc:1016-1033 | the result has the replacement's length; with equal lengths each letter takes the case of the matched byte; a lower-case match makes a lower-case result |
| TStrings.ExtractFilename | tstring.cc:327-330 | the string itself without a '/'; otherwise a name without '/' or NUL |
| TStrings.ExtractPath | tstring.cc:333-337 | empty or ending in '/' |
| TStrings.PathAndFilename | tstring.cc:327-337 | for a NUL-free string, the path followed by the file name gives the string back |
| TStrings.AddDirSlash | tstring.cc:346-348 | the result ends in '/', extends the string and adds at most one byte |
| TStrings.RemoveDirSlash | tstring.cc:340-343 | a prefix that keeps a lone "/", ends in no other '/', and drops only '/' bytes |
| TStrings.DirSlashRoundTrip | tstring.cc:340-348 | after removeDirSlash, addDirSlash puts back exactly one '/' |
| TStrings.ExtractFilenameExtension | tstring.cc:351-361 | the result holds no '.' or NUL and, when non-empty, follows a '.' that does not start the file name |
| TStrings.IsAbsolutePath | tstring.h:344 | true exactly when the first byte is '/' |
| TStrings.WordEnd | tstring.cc:114-118 | the word toBool reads stops at NUL, whitespace or six bytes |
| TStrings.BoolValue | tstring.cc:121-140 | the words the switch lists for true and for false, with their values |
| TStrings.ToBool | tstring.cc:112-142 | the scan and the switch as written |
| TStrings.BoolAsWrittenMeaning | tstring.cc:119-141 | as written, toBool succeeds exactly for words of one to five bytes, and writes true for the true words |
| TStrings.BoolNoIsLost | tstring.cc:126-128 | "no" succeeds without writing false |
| TStrings.ToBoolFixed | tstring.cc:112-142 | succeeds exactly for the listed words, writes their value, and leaves the output alone otherwise |
| Spaces.TrimEnd | tstring.cc:502-509 | a prefix without trailing whitespace, and only whitespace was dropped |
| Spaces.Trim | tstring.cc:855-889 | empty exactly for an all-whitespace string; otherwise the bytes between the first and the last non-space |
| Spaces.TrimIsTrimEndOfRest | tstring.cc:855-889 | cropSpace is cropSpaceEnd after the leading whitespace |
| Spaces.TrimIdempotent | tstring.cc:855-889 | cropping twice crops nothing more, at both ends and at the end only |
| Spaces.CropSpace | tstring.cc:855-889 | the two loops and the cut leave Trim of the string |
| Spaces.CropSpaceEnd | tstring.cc:502-509 | stepping back over whitespace and truncating leaves TrimEnd of the string |
| Spaces.Squeeze | tstring.cc:899-907 | the written bytes have no whitespace but single blanks, no leading blank, and the same non-space bytes in order |
| Spaces.CollapseMeaning | tstring.cc:892-913 | collapseSpace leaves single blanks between words, none at either end, the same non-space bytes, and an empty result only for all-whitespace input |
| Spaces.SqueezeStep | tstring.cc:899-907 | reading one more byte writes a blank only after a non-blank and any other byte as it is |
| Spaces.CollapseStep | tstring.cc:899-907 | one iteration keeps the read and write indices in step with Squeeze |
| Spaces.CollapseSpace | tstring.cc:892-913 | the in-place loop with its read and write indices leaves Collapse of the string |
| Escapes.ExpandByte | tstring.cc:640-699 | each byte becomes one to four output bytes |
| Escapes.EscapeLetter | tstring.cc:657-680 | a letter escape uses a letter that is neither 'x' nor an octal digit and that compiles back to the byte |
| Escapes.NumericEscape | tstring.cc:681-698 | a numeric escape is a backslash and one to three more bytes |
| Escapes.Expand | tstring.cc:632-707 | the output is at least as long as the input and at most four times as long, so the buffer of len*4 suffices |
| Escapes.ExpandUnprintable | tstring.cc:632-707 | the loop leaves Expand of the string |
| Escapes.ExpandHead | tstring.cc:640-648 | the expansion starts with the byte itself when printable, with a backslash otherwise |
| Escapes.HexLong | tstring.cc:789 | the long `strtol` returns for a digit run: the run's value, negated after a minus, saturated at LONG_MAX and LONG_MIN |
| Escapes.Compile | tstring.cc:748-819 | compiling never lengthens, so the in-place rewrite never overtakes its reader |
| Escapes.CompileEscape | tstring.cc:760-812 | an escape never produces more bytes than it consumes; `\x` takes what `strtol(p, &q, 16)` reads (`Escapes.CompileStrtol`, `Escapes.CompileNoDigits`) |
| Escapes.ReadToken | tstring.cc:758-812 | one read consumes at least one byte and yields the next compiled byte, `\x` reading as far as `strtol` does |
| Escapes.CompileStep | tstring.cc:757-816 | one iteration advances the reader and keeps the written prefix equal to the compiled prefix |
| Escapes.CompileCString | tstring.cc:748-819 | the in-place loop leaves Compile of the string |
| Escapes.CompilePlain | tstring.cc:814 | an ordinary byte compiles to itself |
| Escapes.CompileLetter | tstring.cc:764-787 | a backslash and a letter compile to the letter's byte, any other byte to itself |
| Escapes.CompileOctal | tstring.cc:794-811 | an octal escape takes up to three digits and stores their value cut to a byte |
| Escapes.CompileX | tstring.cc:788-793 | after a backslash, x writes the byte of the long `strtol` returns and skips the bytes it read |
| Escapes.StrtolSpaces | tstring.cc:789 | `strtol` skips the leading isspace bytes and then reads a signed number |
| Escapes.SignedSign | tstring.cc:789 | `strtol` reads one '+' or '-', and a minus negates the number |
| Escapes.UnsignedDigits | tstring.cc:789 | after an optional "0x"/"0X" prefix `strtol` reads the whole hexadecimal run; a lone 0 before x and a digit counts as the prefix |
| Escapes.StrtolDigits | tstring.cc:789 | blanks, sign, prefix and digits are read, and the value is the digits' value with the sign applied, saturated |
| Escapes.CompileStrtol | tstring.cc:788-793 | `\x` followed by blanks, a sign, a 0x prefix and a digit run writes that number cut to a byte and goes on after the run |
| Escapes.CompileNoDigits | tstring.cc:788-793 | `\x` with no digit after strtol's blanks and sign writes NUL and reads nothing more |
| Escapes.CompileHex | tstring.cc:788-793 | a hexadecimal escape takes every following hexadecimal digit, except a lone 0 that strtol reads as the start of a 0x prefix |
| Escapes.Oct3Value | tstring.cc:686 | "%03o" reads back as its value |
| Escapes.Hex2Value | tstring.cc:696 | "%02x" reads back as its value |
| Escapes.LowEscapeCompiles | tstring.cc:684-691 | the octal escape of a control byte compiles back to the byte when a digit follows only where the short form was not used |
| Escapes.HighEscapeCompiles | tstring.cc:692-698 | the escape of a byte from 32 up compiles back to the byte |
| Escapes.HexEscapeCompiles | tstring.cc:696 | the \x escape compiles back to its byte before a non-hexadecimal byte |
| Escapes.ExpandByteCompiles | tstring.cc:639-701 | the escape of each byte compiles back to that byte in the context it was written for |
| Escapes.CompileExpand | tstring.cc:632-819 | compileCString undoes expandUnprintable on every byte string |
| Escapes.BackslashByte | tstring.cc:718-738 | each byte becomes one or two bytes |
| Escapes.Backslashed | tstring.cc:710-745 | the output is between one and two times the input length, so the buffer of len*2 suffices |
| Escapes.Backslashify | tstring.cc:710-745 | the loop leaves Backslashed of the string |
| Escapes.CompileBackslashed | tstring.cc:710-819 | compileCString undoes backslashify |
| Unquote.Scan | tstring.cc:560-581 | never more cells written than bytes read |
| Unquote.ScanCells | tstring.cc:578-580 | no written byte is NUL, and a byte that does not move nonspace is unquoted whitespace |
| Unquote.ScanBackslash | tstring.cc:561-566 | an allowed backslash is dropped before the current quote character (and ends reading at the end) and kept before anything else |
| Unquote.ScanInQuotes | tstring.cc:567-571 | inside quotes the quote character closes them and any other byte is written |
| Unquote.ScanOutside | tstring.cc:572-577 | outside quotes a quote character opens them and any other byte is written |
| Unquote.UnquoteAsWritten | tstring.cc:551-585 | the result is never longer than the string |
| Unquote.UnquoteFixed | tstring.cc:551-585 | the result is never longer than the string |
| Unquote.UnquoteStep | tstring.cc:560-581 | one pass keeps the read index, write index, quote state and nonspace pointer in step with Scan |
| Unquote.BackslashStep | tstring.cc:561-566 | the pass on an allowed backslash keeps that state |
| Unquote.QuotedStep | tstring.cc:567-571 | the pass inside quotes keeps that state |
| Unquote.OpenStep | tstring.cc:572-577 | the pass outside quotes keeps that state |
| Unquote.Cut | tstring.cc:582-584 | cutting after nonspace is the crop as written |
| Unquote.Unquote | tstring.cc:551-585 | the in-place loop and the cut leave UnquoteAsWritten of the string |
| Unquote.QuoteRoundTrip | tstring.cc:551-585 | unquoting a single-quoted string whose quotes are escaped gives back every NUL-free string, as written and as intended |
| Unquote.PlainQuoteRoundTrip | tstring.cc:551-585 | without backslash escapes, a single-quoted body free of single quotes comes back |
| Unquote.UnquoteUnquoted | tstring.cc:551-585 | a string without quotes, backslashes or NUL is left as it is when not cropping |
| Unquote.CropFixedMeaning | tstring.cc:583 | the intended crop keeps everything up to the last solid byte and drops only unquoted whitespace after it |
| Unquote.CropKeepsBlank | tstring.cc:583 | as written, "'' " keeps its blank when cropping, where the intended crop gives "" |
| Words.Quoted | tstring.cc:964-972 | the quote loop stops at the closing quote or the end |
| Words.Piece | tstring.cc:948-986 | collecting stops at a separator byte or the end |
| Words.CollectQuoted | tstring.cc:964-972 | the quote loop appends Quoted's bytes and stops where Quoted stops |
| Words.CollectPiece | tstring.cc:948-986 | the collecting loop produces Piece's bytes and stops where Piece stops |
| Words.NextPiece | tstring.cc:944-995 | one piece of split, and the pieces after its separator |
| Words.Split | tstring.cc:937-1000 | the do-while loop produces the pieces of SplitOf |
| Words.SplitNonEmpty | tstring.cc:941-995 | every split gives at least one piece |
| Words.Join | tstring.cc:1003-1013 | a list of one joins to its element |
| Words.PlainPiece | tstring.cc:948-953 | without quoting, a piece is the run of bytes up to the separator |
| Words.JoinPieces | tstring.cc:937-1013 | joining the plain pieces with the separator gives the string back |
| Words.CountPieces | tstring.cc:937-1000 | there is one piece more than separator bytes |
| Words.SplitJoin | tstring.cc:937-1013 | for a NUL-free string, split at one byte gives one piece more than separators, and join gives the string back |
| Words.JoinSplit | tstring.cc:937-1013 | for NUL-free pieces without the separator, splitting their join gives them back |
| Words.JoinNoNul | tstring.cc:1003-1013 | joining NUL-free pieces gives a NUL-free string |
| Words.PiecesFree | tstring.cc:937-1000 | the pieces of a NUL-free string hold neither the separator nor NUL |
| Words.QuoteOverrunsTerminator | tstring.cc:964-971 | as written, a quoted piece ending in a backslash steps past the terminator; Quoted stops on it |
| Words.QuotedPassAgrees | tstring.cc:964-971 | apart from that case, one pass of the quote loop as written agrees with Quoted |
| Words.CleanMeaning | tstring.cc:222-227 | every kept component is a component that is neither empty nor ".", and every such component is kept; with none to drop nothing changes |
| Words.CleanAppend | tstring.cc:222-227 | dropping works component by component: cleaning a + b is cleaning a followed by cleaning b, so the kept components keep their order |
| Words.RemoveDots | tstring.cc:222-227 | the slowRemove loop leaves Clean of the components |
| Words.ReduceMeaning | tstring.cc:233-238 | the second loop leaves no ".." after a component that is not "..", and invents no component |
| Words.ReduceReduced | tstring.cc:233-238 | a list already reduced is left as it is |
| Words.RemoveParents | tstring.cc:233-238 | the slowRemove loop leaves Reduce of the components |
| Words.NormalizePath | tstring.cc:220-245 | split, the two loops and the reassembly leave Normalized of the string |
| Words.ComponentsMeaning | tstring.cc:219-238 | the kept components contain no '/', NUL, "" or ".", and every ".." leads |
| Words.NormalizedMeaning | tstring.cc:229-244 | the result is non-empty, starts with '/' exactly for an absolute path and with '.' otherwise, and splits at '/' into its root and the components |
| Words.NormalizeIdempotent | tstring.cc:220-245 | normalizing a normalized path changes nothing |
| Words.ComponentsOfNormalized | tstring.cc:220-245 | the normalized path has the components of the path it came from |
| Words.RootsHaveNoComponents | tstring.cc:229-244 | the bare roots "/" and "." have no components |
| Words.LastSpace | tstring.cc:533-538 | the cut is at or before max |
| Words.LastBlank | tstring.cc:533-538 | the search loop finds LastSpace |
| Words.CutLongLine | tstring.cc:540-548 | the cut of a long line is LongFit |
| Words.GetFitWords | tstring.cc:512-549 | the method gives FitWords of the string |
| Words.FitWordsMeaning | tstring.cc:512-549 | an error exactly for max < 1; otherwise the line fits in max bytes, holds no newline or trailing whitespace, the string is line, whitespace and rest, and a non-empty string shrinks |
| Words.NewlineFit | tstring.cc:517-523 | the cut at an early newline is good |
| Words.WholeFit | tstring.cc:526-530 | a string that fits is a good cut of itself |
| Words.LongFitGood | tstring.cc:532-548 | the cut of a long line is good |
| Searching.MatchAtMeaning | tstring.cc:302-311 | a match is a folded byte-by-byte equality over the whole pattern inside the string |
| Searching.MatchExact | tstring.cc:308-311 | without case folding, a match is an equal slice |
| Searching.Find | tstring.cc:298-324 | bytesearch returns -1 or an accepted match inside the string |
| Searching.FindLeftmost | tstring.cc:298-324 | no accepted match lies before the one returned, and none at all when -1 |
| Searching.PositionsMeaning | tstring.cc:423-437 | the positions search visits are matches in increasing order that do not overlap, the first being the leftmost accepted one |
| Searching.PositionsMatch | tstring.cc:423-437 | every visited position is a match at or after the start |
| Searching.PositionsApart | tstring.cc:423-437 | consecutive positions are at least the pattern length apart |
| Searching.Search | tstring.cc:423-437 | an empty pattern is an error; otherwise the count of visited positions |
| Searching.Piece | tstring.cc:398-406 | the replacement text keeps the replacement's length, case-preserved or not |
| Searching.ReplacedLength | tstring.cc:382-383 | the written text has the precomputed new length |
| Searching.ReplaceMatch | tstring.cc:394-416 | one replacement copies the skipped bytes and the padded piece, and one match fewer remains |
| Searching.ReplaceAll | tstring.cc:391-418 | the copying pass writes Replaced of the string |
| Searching.SearchReplace | tstring.cc:373-422 | an empty pattern is an error; otherwise the count of matches, the replaced text, and its length len + count * (replace - pattern + pads) |
| Arrays.ArrayCopy | tarray.h:289-293 | the n cells from soff are spliced over the n cells from doff, also within one array when the copy moves towards its start |
| Arrays.Capacity | tarray.h:279-287 | a reallocation to size has room for size elements and at least one cell |
| Arrays.TArray.Automatic | tarray.h:172-174 | a new automatic array is empty |
| Arrays.TArray.Fixed | tarray.h:176-183 | a new fixed array holds size default elements and does not grow |
| Arrays.TArray.Copy | tarray.h:240-245 | the copy has the same elements and mode, in storage of its own |
| Arrays.TArray.Reallocate | tarray.h:279-287 | new storage of Capacity(size) cells keeps the first min(num, size) elements and fills the rest with defaults |
| Arrays.TArray.Resize | tarray.h:214-219 | a negative size throws IllegalSize and changes nothing; otherwise exactly size elements, the old ones kept and new ones default |
| Arrays.TArray.CreateIndex | tarray.h:185-197 | an index succeeds exactly when it is non-negative and inside the array or the array is automatic; the array then reaches index i and keeps its elements |
| Arrays.TArray.Get | tarray.h:199-203 | the element at i exactly when 0 <= i < num, IndexOutOfRange otherwise |
| Arrays.TArray.Set | tarray.h:87-91 | a write succeeds under the condition of CreateIndex; element i becomes x and the others stay |
| Arrays.TArray.Push | tarray.h:206-211 | x is appended and nothing else changes |
| Arrays.TArray.Extend | tarray.h:261-267 | a's elements are appended, also when a is this array |
| Arrays.TArray.Find | tarray.h:270-276 | the least index holding x, or -1 exactly when x is absent |
| Arrays.TArray.ShrinkRemove | tarray.h:221-225 | a valid index is filled by the last element and the array shrinks by one; any other index throws and changes nothing |
| Arrays.TArray.SlowRemove | tarray.h:232-237 | a valid index is removed and the rest keep their order; any other index throws and changes nothing |
| Arrays.TArray.Last | tarray.h:295-305 | the last element, or ArrayIsEmpty exactly when there is none |
| Arrays.TArray.KillLast | tarray.h:307-311 | the last element is dropped, or ArrayIsEmpty exactly when there is none |
| Arrays.TArray.Clear | tarray.h:81 | no elements remain and the storage stays |
| Arrays.TArray.SetAutomatic | tarray.h:106-109 | the mode changes and the elements stay |
| Arrays.TArray.Assign | tarray.h:248-258 | the elements and mode of a; a self-assignment changes nothing |
| Arrays.Equal | tarray.h:318-323 | true exactly when both arrays hold the same elements in the same order |
| Arrays.Concat | tarray.h:325-330 | a new array holding a's elements followed by b's |
| Arrays.ExtendSelfOverruns | tarray.h:261-267 | as written, the copy of += fits behind the old elements of a distinct array but writes past the new storage for a += a |
| AssocArray.Slot | tassocarray.h:253 | the bucket index a hash code selects is within the table |
| AssocArray.FindKey | tarray.h:270-276 | the least index of a pair with key k in a bucket, or -1 exactly when no pair has it |
| AssocArray.LookupStored | tassocarray.h:325-352 | in a well-formed table, looking into k's bucket finds v exactly when (k, v) is stored anywhere, and nothing exactly when k is absent |
| AssocArray.NoDuplicateKeys | tassocarray.h:251-265 | no key is stored twice in a well-formed table |
| AssocArray.InsertWellFormed | tassocarray.h:251-256 | appending an absent key to its bucket keeps the table well formed and adds one pair |
| AssocArray.InsertLookup | tassocarray.h:251-256 | after the append, k finds its value and every other key finds what it found before |
| AssocArray.FlattenLookup | tassocarray.h:202-230 | in iteration order the first pair with key k is the one the table's lookup finds |
| AssocArray.FlattenDistinct | tassocarray.h:202-230 | iteration meets no key twice |
| AssocArray.DistributeWellFormed | tassocarray.h:296-305 | distributing pairs with distinct keys over new buckets gives a well-formed table of as many pairs |
| AssocArray.DistributeLookup | tassocarray.h:296-305 | every key finds the first pair with that key among the distributed pairs |
| AssocArray.RehashWellFormed | tassocarray.h:290-308 | rehashing a well-formed table into a listed prime of buckets keeps it well formed and keeps every pair |
| AssocArray.RehashLookup | tassocarray.h:290-308 | after rehashing every key finds what it found before |
| AssocArray.DeleteWellFormed | tassocarray.h:355-359 | removing a present key keeps the table well formed and takes one pair away |
| AssocArray.DeleteForgets | tassocarray.h:355-359 | a removed key is no longer found |
| AssocArray.DeleteKeepsOthers | tassocarray.h:355-359 | removing k changes no other key's lookup |
| AssocArray.OverwriteKeeps | tassocarray.h:331 | writing through the returned reference changes only k's value and keeps the table well formed and its size |
| AssocArray.SizeIndex | tassocarray.h:293-295 | the new size is the first listed prime not below num, or the largest one |
| AssocArray.Scatter | tassocarray.h:299-304 | one old bucket's pairs are appended, in order, to the buckets their keys hash to |
| AssocArray.Rehashed | tassocarray.h:296-305 | the new table is the old pairs, in iteration order, distributed over n buckets |
| AssocArray.AssocTable.constructor | tassocarray.h:311-314 | a new table has 11 empty buckets |
| AssocArray.AssocTable.Copy | tassocarray.h:282-287 | the copy has the same buckets and count |
| AssocArray.AssocTable.Assign | tassocarray.h:270-279 | the buckets and count of a; a self-assignment keeps the table |
| AssocArray.AssocTable.Empty | tassocarray.h:317-323 | back to 11 empty buckets and a count of 0 |
| AssocArray.AssocTable.Contains | tassocarray.h:349-352 | true exactly when a pair with key k is stored |
| AssocArray.AssocTable.Read | tassocarray.h:334-346 | the stored value of k, or IndexOutOfRange exactly when k is absent |
| AssocArray.AssocTable.OptimizeSize | tassocarray.h:290-308 | the table gets the bucket count SizeIndex picks and keeps every pair and every lookup |
| AssocArray.AssocTable.Add | tassocarray.h:251-265 | an absent key is added with its value, after a rehash when num > 2 * size; other keys keep their values |
| AssocArray.AssocTable.Access | tassocarray.h:325-332 | a present key's value is returned and nothing changes; an absent key is added with the default value |
| AssocArray.AssocTable.Put | tassocarray.h:325-332 | k maps to x afterwards, one pair more when k was absent, other keys unchanged |
| AssocArray.AssocTable.Remove | tassocarray.h:355-359 | as written: k is forgotten and other keys kept, but num is not decremented; an absent key throws IndexOutOfRange and changes nothing |
| AssocArray.AssocTable.RemoveCounted | tassocarray.h:355-359 | k is forgotten, other keys kept, and num stays the exact number of pairs |
| AssocArray.Iter.constructor | tassocarray.h:172-177 | a new iterator is at the first or the last pair, and valid exactly when the table holds one |
| AssocArray.Iter.Current | tassocarray.h:188-200 | the pair at the iterator's position in iteration order, or InvalidPointer exactly when the position is not valid |
| AssocArray.Iter.ToFirst | tassocarray.h:226-230 | the iterator moves to the first pair in iteration order |
| AssocArray.Iter.ToLast | tassocarray.h:232-237 | the iterator moves to the last pair in iteration order |
| AssocArray.Iter.Next | tassocarray.h:202-211 | a valid iterator moves one pair on, and stays valid exactly when there was one more pair |
| AssocArray.Iter.Prev | tassocarray.h:213-224 | a valid iterator moves one pair back, and stays valid exactly when it was not at the first pair |
| AssocArray.Visit | tassocarray.h:202-230 | toFirst and next visit every stored pair exactly once, bucket by bucket |
| AppItems.Ordinal | tappconfig.h:31 | only NEVER is 0 and only COMMAND_LINE is 2 among the six sources |
| AppItems.SetComp | tappconfig.cc:417-451 | a component is accepted exactly when its name is known (configopt and onlyapp only for private lists); more than one '=' is fatal; name= sets the unquoted name |
| AppItems.ItemOf | tappconfig.cc:270-276 | an option built from a line passes the checks of validate |
| AppItems.KindOf | tappconfig.cc:332-337 | exactly the five type names are known, each to its own type |
| AppItems.Validate | tappconfig.cc:309-415 | a short name, an unknown type, an empty alias or a missing help of a visible option is fatal; an accepted option starts from its default |
| AppItems.Typed | tappconfig.cc:339-414 | the type-specific checks: a switch has no default, bounds or requirement, a bool no bounds; the initial value lies within the bounds |
| AppItems.IntDefault | tappconfig.cc:366-385 | an int default outside its bounds is fatal; an accepted one is the initial value |
| AppItems.OnlyClGuardNeverFires | tappconfig.cc:768-769 | the onlycl guard as written never rejects, also not a value from an rc file |
| AppItems.SetValue | tappconfig.cc:763-840 | onlyapp options and onlycl options from elsewhere than the command line are refused; a new value keeps an int within its bounds and records its source only when taken |
| AppItems.FirstSourceWins | tappconfig.cc:782-790 | once a non-default source set an option, a later value changes only the verbatim copy, except for strings in append or once mode |
| AppItems.CommandLineFirst | tappconfig.cc:782-790 | a command-line value survives a later value from any other source |
| AppItems.StringModes | tappconfig.cc:818-834 | override replaces a default, append joins with the separator, once refuses a second value |
| AppItems.IntValue | tappconfig.cc:804-809 | an int is taken exactly when it converts and lies within the bounds, and then it is the value |
| AppItems.SwitchValue | tappconfig.cc:793-797 | a switch is set exactly when no parameter is given, and then it is true |
| AppItems.SetValueFromApp | tappconfig.cc:858-878 | only non-onlyapp, non-onlycl int options accept it; the value is clamped to the bounds and the flag says whether it was within them |
| AppItems.FromAppKeepsRange | tappconfig.cc:858-878 | a value the application sets keeps the option well formed |
| AppItems.ParamStr | tappconfig.cc:510-526 | a parameter name, never empty for an option that takes a parameter |
| AppItems.OptLen | tappconfig.cc:546-551 | at least the length of the name |
| AppItems.OptLenIsColumn | tappconfig.cc:740-760 | getOptLen is the width of the option text printHelp writes, for every option but a switch with a parameter text |
| AppItems.Decimal | tstring.h:156 | the "%d" text of an int is non-empty and holds no '.' or ']' |
| AppItems.DecimalRoundTrip | tstring.h:156 | the "%d" text of i reads back as i |
| AppItems.Range2Str | tappconfig.cc:285-295 | the range text is empty exactly when both ends are unbounded |
| AppItems.ReadRangeOf | tappconfig.cc:285-295 | a bracketed range text splits at its first ".." |
| AppItems.RangeRoundTrip | tappconfig.cc:285-295 | the bounds a range text shows read back, an unbounded end as absent |
| AppConfig.FixedConsistent | tappconfig.cc:1614-1679 | changing only values and parameters keeps the registry invariant |
| AppConfig.MetaComp | tappconfig.cc:1583-1604 | a meta component changes no option; more than one '=' is fatal |
| AppConfig.MetaSet | tappconfig.cc:1596-1603 | usage, commonheadline and trailer take the parameter, the four flags are switched on, and nothing else |
| AppConfig.Metas | tappconfig.cc:1607-1612 | a meta line changes no option |
| AppConfig.Aliases | tappconfig.cc:1659-1670 | the alias loop only adds aliases and char names, each leading to the new option |
| AppConfig.Headline | tappconfig.cc:1672-1674 | only the help option gets the common headline |
| AppConfig.Claim | tappconfig.cc:1644-1656 | a taken name or char name is fatal; otherwise both lead to the new option |
| AppConfig.Register | tappconfig.cc:1644-1677 | a duplicate name is fatal; otherwise the option is appended under its name and the registry invariant holds |
| AppConfig.RegisterInRange | tappconfig.cc:1677 | an option in range keeps every int value in range |
| AppConfig.AddLine | tappconfig.cc:1628-1677 | a line shorter than 7 bytes is fatal; a meta line or an option keeps the registry invariant and every value in range |
| AppConfig.AddItems | tappconfig.cc:1614-1679 | the whole list keeps the registry invariant and every value in range |
| AppConfig.DuplicateName | tappconfig.cc:1645-1647 | a second option of a registered name makes the list fail |
| AppConfig.Found | tappconfig.cc:1181-1185 | the prefix search lists only names of non-private options that the string starts |
| AppConfig.FoundInNames | tappconfig.cc:1181-1185 | every name the prefix search lists is a registered option |
| AppConfig.NameOf | tappconfig.cc:1168-1192 | an empty name is fatal; every resolved name is registered |
| AppConfig.NoPrefix | tappconfig.cc:1186-1187 | a name that starts no option is a user error |
| AppConfig.UniquePrefix | tappconfig.cc:1188 | a name that starts exactly one option resolves to it |
| AppConfig.AmbiguousPrefix | tappconfig.cc:1189-1191 | a name that starts two options is a user error |
| AppConfig.Take | tappconfig.cc:1506 | setting a value from the command line keeps the registry, the parameters and every value in range |
| AppConfig.LongOption | tappconfig.cc:1484-1510 | a long option uses at most the next argument and keeps the registry and every value in range |
| AppConfig.Cluster | tappconfig.cc:1513-1535 | a cluster of short options uses at most the next argument and keeps the registry and every value in range |
| AppConfig.LongWithValue | tappconfig.cc:1484-1506 | for "--name=value" with a name free of '=', the option the name resolves to is set from the text after the first '=' ("t" for a switch, which its setValue refuses), no further argument is used, and an unresolved name fails as getName does |
| AppConfig.LongWithoutValue | tappconfig.cc:1484-1506 | for "--name", a switch is set from the empty parameter, an optional parameter takes its default, any other option takes the next argument and uses it, and a missing next argument is a user error |
| AppConfig.ClusterSkips | tappconfig.cc:1513-1529 | the switches named by bytes p..s-1 of a cluster are set in order, the first failure ending the cluster, after which it goes on at byte s |
| AppConfig.ClusterMeaning | tappconfig.cc:1513-1533 | after the switches before byte s, the cluster ends at its end with no further argument used, refuses an unknown byte, or gives the option of byte s the rest of the cluster when there is any and otherwise the next argument, whose absence is a user error |
| AppConfig.Arg | tappconfig.cc:1470-1539 | a non-option or "-" is appended to the parameters; "--" ends option scanning only with stopat--; at most one more argument is used |
| AppConfig.Scan | tappconfig.cc:1469-1540 | the argument loop keeps the registry and every value in range |
| AppConfig.ParseStart | tappconfig.cc:1457-1469 | the command line fails where setting the name and version fails, and scans from the second argument otherwise |
| AppConfig.ScanStep | tappconfig.cc:1469-1540 | the loop goes on after the arguments one pass used |
| AppConfig.ParseCommandLine | tappconfig.cc:1457-1541 | the command line keeps the registry |
| AppConfig.Named | tappconfig.cc:1463-1465 | succeeds exactly when both application options exist; the version becomes the value of application-version |
| AppConfig.RestStep | tappconfig.cc:1538 | parameters collected one at a time add up to the remaining arguments |
| AppConfig.ScanParam | tappconfig.cc:1537-1539 | an argument not scanned as an option is the next parameter |
| AppConfig.PlainArguments | tappconfig.cc:1469-1540 | arguments that do not start with '-' are the parameters, in order, and set nothing |
| AppConfig.NoMoreOptions | tappconfig.cc:1469-1472 | after "--" under stopat-- every argument is a parameter |
| AppConfig.DoubleDash | tappconfig.cc:1479-1483 | "--" ends option scanning under stopat--, kept as a parameter unless remove--; otherwise it is dropped |
| AppConfig.MakeItem | tappconfig.cc:270-276 | the item constructor's loop builds ItemOf of the line |
| AppConfig.FixedMetas | tappconfig.cc:1607-1612 | meta lines keep the registry invariant |
| AppConfig.App.constructor | tappconfig.cc:957-976 | no options, no char names, every flag off |
| AppConfig.App.SetComp | tappconfig.cc:1583-1604 | the fields become MetaComp of the old state, or the error |
| AppConfig.App.SetMeta | tappconfig.cc:1596-1603 | the fields become MetaSet of the old state, or the error |
| AppConfig.App.DoMetaChar | tappconfig.cc:1607-1612 | the fields become Metas of the ','-separated components |
| AppConfig.App.RegisterAliases | tappconfig.cc:1659-1670 | the fields become Aliases of the old state |
| AppConfig.App.ClaimNames | tappconfig.cc:1644-1656 | the fields become Claim of the old state |
| AppConfig.App.RegisterItem | tappconfig.cc:1644-1677 | the fields become Register of the old state |
| AppConfig.App.AddConfigLine | tappconfig.cc:1628-1677 | the fields become AddLine of the old state |
| AppConfig.App.NextLine | tappconfig.cc:1618-1677 | one pass of the loop is progress of AddItems and keeps the registry invariant |
| AppConfig.App.AddConfigItems | tappconfig.cc:1614-1679 | the fields become AddItems of the old state, so the registry invariant and the ranges hold |
| AppConfig.App.GetName | tappconfig.cc:1168-1192 | the result is NameOf the state |
| AppConfig.App.TakeValue | tappconfig.cc:1506 | the fields become Take of the old state |
| AppConfig.App.LongOpt | tappconfig.cc:1484-1510 | the fields and the index become LongOption of the old state |
| AppConfig.App.ShortOpts | tappconfig.cc:1513-1535 | the fields and the index become Cluster of the old state |
| AppConfig.App.Argument | tappconfig.cc:1470-1539 | the fields, the index and the flag become Arg of the old state |
| AppConfig.App.NextArgument | tappconfig.cc:1469-1540 | one pass of the loop is progress of Scan |
| AppConfig.App.SetNames | tappconfig.cc:1463-1465 | the fields become Named of the old state |
| AppConfig.App.DoCommandLine | tappconfig.cc:1457-1541 | the fields become ParseCommandLine of the old state |
| AppConfig.App.SetInt | tappconfig.cc:1218-1222 | an unknown name is fatal; a known one gets SetValueFromApp, and the registry and parameters stay |

## Left out

- File I/O of the cache (`stat`, `fopen`, `fseek`, `fread`): the file is the byte sequence reading it yields, and the size probe's one-byte reads are a readable length. A short read or a failed open is a failure result.
- Terminal output: `printf` of the printed rows, the 8-digit address prefixes and the `ioctl(TIOCGWINSZ)` width. The width is a parameter. A row of the two ASCII modes and of the hex dump is the text it would print; a byte line of the vertical mode (`ByteRow`) and every range line (`RangeRow`) is recorded as an abstract row holding its offsets and bytes, not as its `printf` text.
- The progress reports of qdiff.cc on stderr: they do not affect the diff.
- `autoMode`'s double-precision percentages are restated as integer comparisons with the same outcome. This includes two empty samples, where 0/0 is NaN and both tests fail.
- `toInt`/`toLong`/`toDouble` (`strtol`/`strtod`): the conversion of an option parameter is a parameter `toInt`. Double options, `setValueFromApp` for bool, string and double, and `Range2Str(double)` are not part of this model.
- `TString::sprintf`, the `double` constructors of TString and `TString(int, format)`. `TString(int)` is modelled as the "%d" text (`AppItems.Decimal`).
- The state a failed operation leaves behind: `userError` and `fatalError` end the program, so a failure result carries no state.
- TString's reference-counted `Rep` and its copy-on-write detach: strings are values, so writing through one never changes another.
- TAssocArray's `hashKeyToInt`: the hash is a function parameter of the table, because the library's string hash reads memory word by word. `reportHashStats` and the float hashes are not part of this model.
- The rest of `TAppConfig`'s constructor after the two lists:
  - the `%n` substitution in the texts;
  - the help and version exits;
  - `createRCFile`, `doEnvironVar`, `doRCFile` and `setFromStr`;
  - the musthave/shouldhave check.
  These read files and the environment. The first-source-wins order they rely on is `AppItems.FirstSourceWins` and `AppItems.CommandLineFirst`.
- Other output code of the option framework: `printHelp`, `printValues`, `save` and `getFlagsStr`. `getOptLen` is related to the option text of `printHelp` by `AppItems.OptLenIsColumn`.
- `char2index` is indexed by a plain `char`, so a byte of 128 or more indexes it with a negative number. The model indexes char names by their byte value.
- TString helpers outside the listed operations: `scanToken`, `getFitWordsBlock`, `translateChar`, `removeHTMLTags`, `shortFilename`, `binaryPercentage`, `modifyCase`, `readLine` and `loadTextFile`. `consistsOfSpace` appears only as `AppItems.AllSpace`.
- TStrings.Memcmp: only the sign of `memcmp` is modelled, not its magnitude. Callers test nothing else.
- Searching.SearchReplace: the new length is an unbounded integer, so the `int` overflow of a very long result is not modelled.
- The `match_pos` output array and the `progress` argument of `search` and `searchReplace` are not modelled. The match positions are stated by `Searching.PositionsMeaning` instead.
- Arrays.TArray.Fixed: the size is a `nat`. The source throws `IllegalSize` for a negative size (tarray.h:180), which this constructor cannot be asked for.
- ScreenFacts: the hex mode's alignment marks ('+', '-', ' ') are produced by `Screen` but not stated as a lemma. The flush of `putAscElem` on overflow is only stated as keeping the invariant.
- Columns.PastSgr: on an escape sequence without a final 'm', the model stops at the end of the string. The loop `while(*p!='m') p++;` of `setStrLen` (tdiffoutput.cc:267) does not test for NUL, so the source reads past the terminator. Only an ESC unprintable character can put such a sequence in a line buffer, and `DiffOutput.Create` excludes it.
- Columns.FindM: the same gap as PastSgr. The method stops at the end of the string, where the source's inner loop runs past the NUL.
- Columns.FitWidth: proved for closed lines only, in which every escape sequence has its 'm'. These are the only lines the renderer builds.
- DiffOutput.Create: `--unprintable-char` set to the ESC character is excluded, although the constructor accepts any single character (tdiffoutput.cc:94-98). Every unprintable byte would then be drawn as a raw ESC, which `setStrLen` reads as the start of a colour sequence, so the column invariant of the drawing code does not hold. `Layouts.ConfigureOk` states that this input is the only accepted configuration without it. Glyphs.PutChar and the renderer methods require the same.
- DiffOutput.Create: the renderer is built from the corrected constructor `Layouts.Configure` (see "## Findings"), in two ways. Without a mode switch, its mode is `Layouts.AutoChoice`, from the samples of both files, where the code as written counts file 1's sample twice. So with file 1 = "a\n", file 2 = two NUL bytes and --line-numbers, qdiff accepts in formatted mode and `Create` refuses (`Layouts.LineNumbersAgainstBinary`); without --line-numbers, the model draws a hex dump where qdiff prints formatted text. Second, --range-deletion ranges deletions and --range-insertion insertions, where the code as written crosses them (tdiffoutput.cc:189-190). The constructor as written is `Layouts.ConfigureAsWritten`, and `Layouts.ConfigureErrors` and `Layouts.ChosenMode` state it beside the corrected one.
- Sync.Diff: the empty checks and the loop bounds use the lengths of the byte sequences, where qdiff uses `TROTFile::size()` (qdiff.cc:231-232). `RotFile.Open` proves that the two agree for a regular file below 2^31 bytes and for a probed stream of at least one byte. A probed stream that reads nothing gets size 1; qdiff does not report it empty, and its first load is fatal. A regular file of 2^31 bytes or more gets the wrapped size. Neither case is modelled by `Diff`. `Layouts.AutoChoice` likewise takes the lengths of the samples.
- AppItems.SetValue: a bool parameter is parsed by the corrected `toBool` (`TStrings.ToBoolFixed`, see "## Findings"). With the code as written, "no" on a bool whose value is true keeps true, and a word such as "abc" is accepted and leaves the value unchanged. The model sets false and refuses "abc". The onlycl guard is also the corrected one (see "## Findings"): an onlycl option set from an rc file or the environment is refused, where the code as written accepts it (`AppItems.OnlyClGuardNeverFires`).
- AppItems.Typed: a bool default is parsed by the corrected `toBool`, so `default=maybe` is refused, where `toBool` as written validates it.
- AppItems.Validate: inherits Typed's corrected bool defaults, so a bool option with `default=maybe` is refused.
- AppItems.SetComp: the parameter of a component is unquoted by the corrected `unquote` (`Unquote.UnquoteFixed`, see "## Findings"). For `help='' ''` the code as written gets the help " ", and the model gets "".
- AppItems.ItemOf: inherits SetComp's corrected `unquote`. The line `name=xx, type=switch, help='' ''` is refused for its missing help, where the code as written accepts it with help " ".
- AppConfig.MetaComp: unquotes with the corrected `unquote`, like SetComp. A meta component with the value `'' ''` gets "" instead of " ".
- Lines and words are ASCII under the C locale: `isspace`, `isalpha`, `tolower` and `toupper` are the C-locale classes. Bytes of 128 or more belong to none of them.

## Findings

| source | as written | input that shows it | evidently intended | confidence | as-written member | corrected member |
|---|---|---|---|---|---|---|
| tdiffoutput.cc:826-829 | the second counting loop of `autoMode` reads the sample of file 1 again | file 1 = "a\n", file 2 = two NUL bytes: formatted text is chosen | the second loop counts the sample of file 2, which gives a hex dump here | not executed | Layouts.AsWrittenMissesSecondFile | Layouts.AutoMode |
| tarray.h:261-267 | `a += a` resizes first, then copies `a._num` elements, read after the resize | an array of one element extended by itself copies two elements to index 1 of a two-cell array | the count is taken before the resize, so `a += a` doubles the contents | not executed | Arrays.ExtendSelfOverruns | Arrays.TArray.Extend |
| tassocarray.h:355-359 | `remove` takes the pair out of its bucket but does not decrement `_num` | add one key, then remove it: `num()` is 1 and no pair is stored | `_num` goes down with every removed pair | not executed | AssocArray.AssocTable.Remove | AssocArray.AssocTable.RemoveCounted |
| tstring.cc:112-141 | each `return true` of `toBool` follows the first test unconditionally | "no" returns true and leaves the output unchanged | "0", "f", "no" and "off" set the output to false, and other words fail | not executed | TStrings.BoolNoIsLost | TStrings.ToBoolFixed |
| tstring.cc:583 | with `crop_space`, `unquote` cuts after `nonspace`, which points at the first byte written even when nothing solid was written | `'' ` (an empty quoted string and a blank) becomes " " | the trailing blank is cropped, giving "" | not executed | Unquote.CropKeepsBlank | Unquote.CropFixedMeaning |
| tstring.cc:964-971 | after a backslash inside quotes, `split` steps once in the body and once in the loop header, also when the backslash was the last byte | the two bytes `'` and `\` move the read pointer past the terminating NUL | the scan stops at the end of the string | not executed | Words.QuoteOverrunsTerminator | Words.Quoted |
| tdiffoutput.cc:189-190 | `range_ins` is read from the option range-deletion and `range_del` from range-insertion; `del` tests `range_del` (tdiffoutput.cc:724) and `ins` tests `range_ins` (tdiffoutput.cc:771) | `--range-deletion` alone: deletions are printed byte by byte and insertions as byte ranges | each switch ranges the kind of difference its help text names (qdiff.cc:74-75) | not executed | Layouts.RangeSwitchesCrossed | Layouts.RangeSwitches |
| tappconfig.cc:768-769 | the onlycl guard `!setin==COMMAND_LINE` compares a bool with 2 | an onlycl option set from an rc file is accepted | only the command line may set an onlycl option | not executed | AppItems.OnlyClGuardNeverFires | AppItems.SetValue |
