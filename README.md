# SAIT raw-EMA reader, modelled in Dafny

This project models the decoding core of `SAIT_RawEMA_Reader`. That is the reader for
the raw electromagnetic-articulography (EMA) recordings of the SAIT corpus. It covers
five pieces:

- **Channel maps.** A speaker's channel map comes from a static registry. Fourteen
  speakers share one default sensor-to-channel map. Four irregular speakers get
  hard-coded maps instead: L_M002 and L_M003 share one, and A_F001 and L_F003 have one
  each. An unknown speaker raises.
- **Header size.** The header size of a `.pos` file is the second line of the file,
  decoded as Latin-1, stripped of newlines and read by `int()`.
- **Frames.** The payload after the header is read as 32-bit cells (`np.fromfile`) and
  reshaped into frames of 112 cells: 16 channels of 7 values (x, y, z, phi, theta, rms,
  extra).
- **Tables.** Columns are selected from the frames. The standard table holds the
  interleaved (x, z) pairs of TT, TB, TD, LJ, UL and LL. The nose table holds NOSE x
  and NOSE z.
- **Index list.** The master index list of a speaker's recordings is built from the
  directory listing:
  - keep the `.pos` names, without the extension;
  - sort them;
  - keep the first 962.

Modules, one file each:

| file | module | what it holds |
|---|---|---|
| `errors.dfy` | `EmaErrors` | one `Error` constructor per exception the reader lets escape; `Result`, `Option` and `Outcome` |
| `pytext.dfy` | `PyText` | bytes; Latin-1 decoding; `str.strip(chars)`; CPython's base-10 `int(str)`; `str(int)` as the partner of `int()` |
| `header.dfy` | `HeaderLines` | how binary-mode iteration cuts a file into lines; `HeaderSize`, which specifies the header size; `GetHeaderSize`, the line-counting loop proved against it |
| `pypath.dfy` | `PyPath` | POSIX `os.path.splitext`, `basename` and two-argument `join` |
| `indexlist.dfy` | `IndexListing` | Python's `str` ordering, `sorted`, the filter/sort/truncate of the index list, and the index/path helpers |
| `frames.dfy` | `Frames` | `np.fromfile` at an offset, `reshape((-1, 112))`, numpy column indexing, `_read_raw_EMA` |
| `channels.dfy` | `ChannelMaps` | the literal maps, the two speaker lists, the registry and what it hands out |
| `reader.dfy` | `Reader` | class `SaitRawEmaReader`, whose fields are assigned by the two setup steps; the column lookup; `get_std_EMA`; `get_nose_EMA_by_path`; the constructor as `NewSaitReader` |

Inputs that the Python code obtains by I/O become parameters:

- The directory listing is `dirListing: seq<string>`.
- The file's contents are `file: seq<byte>`.
- The decoding of a 4-byte float32 cell is `cellOf: seq<byte> -> T`.

A cell is only ever selected, never computed on, so tables are `seq<seq<T>>` for an
opaque `T`.

## Model

| member | source | states |
|---|---|---|
| PyText.Latin1Decode | SAIT_EMA_Reader.py:301 | decoding keeps the length, and every character has the code of its byte |
| PyText.TrimStart | SAIT_EMA_Reader.py:301 | the result is a suffix of the input; it does not start with a stripped character; everything removed was a stripped character |
| PyText.TrimEnd | SAIT_EMA_Reader.py:301 | the result is a prefix of the input; it does not end with a stripped character; everything removed was a stripped character |
| PyText.Trim | SAIT_EMA_Reader.py:301 | `str.strip`: the result is no longer than the text and neither starts nor ends with a stripped character; `TrimSlice`, `TrimIgnoresPadding` and `TrimPadded` pin it down |
| PyText.TrimSlice | SAIT_EMA_Reader.py:301 | what `strip` keeps is one contiguous run of the text |
| PyText.TrimIgnoresPadding | SAIT_EMA_Reader.py:301 | stripped characters added at either end do not change what `strip` returns |
| PyText.TrimPadded | SAIT_EMA_Reader.py:301 | `strip` of a core padded with stripped characters is the core, when the core neither starts nor ends with one |
| PyText.TrimNoDigit | SAIT_EMA_Reader.py:301 | stripping text without a decimal digit leaves text without one |
| PyText.ParseInt | SAIT_EMA_Reader.py:302 | `int(str)`: an accepted text ends, once stripped, with a decimal digit, and a negative result comes from a leading `-`; `ParseIntText`, `ParseIntIgnoresSpaces` and `ParseIntNeedsDigit` state the rest |
| PyText.ParseIntText | SAIT_EMA_Reader.py:302 | round trip: `int(str(n)) == n` for every integer `n`, negative ones included |
| PyText.ParseIntIgnoresSpaces | SAIT_EMA_Reader.py:302 | whitespace around the text (ASCII whitespace, NEL, NBSP) does not change what `int()` returns |
| PyText.ParseIntNeedsDigit | SAIT_EMA_Reader.py:302 | text without a decimal digit (`"abc"`, an empty line) makes `int()` raise |
| HeaderLines.LineLengthStopsAtNewline | SAIT_EMA_Reader.py:298 | a line runs up to and including the first `\n`, or to the end of the file when there is none |
| HeaderLines.Lines | SAIT_EMA_Reader.py:298 | binary-mode `for line in file`: no more lines than bytes, and no lines exactly for an empty file; `LinesPartition` and `LinesAppend` state how the lines cut the file |
| HeaderLines.LinesPartition | SAIT_EMA_Reader.py:298 | the lines, concatenated, give back the whole file; each is non-empty with `\n` only at its end; every line but the last ends with `\n` |
| HeaderLines.LinesAppend | SAIT_EMA_Reader.py:298 | after a complete line, the lines of `a + b` are the lines of `a` followed by those of `b` |
| HeaderLines.SizeFromLine | SAIT_EMA_Reader.py:301-302 | a header line's size: only `int()` can fail (`NotAnInteger`), and a line it accepts holds a byte `0`..`9` |
| HeaderLines.HeaderSize | SAIT_EMA_Reader.py:297-304 | the declared header size: unbound exactly when the file has fewer than two lines; otherwise only `int()` of the second line can fail, and an accepted second line holds a digit |
| HeaderLines.GetHeaderSize | SAIT_EMA_Reader.py:291-304 | the counting loop returns `HeaderSize`: the `int()` of the stripped second line; `NotAnInteger` when `int()` rejects it; `HeaderSizeUnbound` when the file has fewer than two lines |
| HeaderLines.HeaderSizeIgnoresRest | SAIT_EMA_Reader.py:298-303 | bytes after the second line are never consulted: appending anything to a two-line prefix leaves the header size unchanged |
| HeaderLines.HeaderSizeRoundTrip | SAIT_EMA_Reader.py:298-303 | a file whose second line is `str(n)` declares header size `n`, whatever its first line and whatever follows |
| HeaderLines.HeaderSizeNonNumeric | SAIT_EMA_Reader.py:301-302 | a second line without a digit fails with `NotAnInteger` |
| HeaderLines.LineNonNumeric | SAIT_EMA_Reader.py:301-302 | a header line whose bytes hold no `0`..`9` is rejected by `int()` once decoded and stripped |
| PyPath.SplitExt | SAIT_EMA_Reader.py:38 | root + extension is the path; the extension is empty or is a dot followed by no further dot or slash |
| PyPath.Basename | SAIT_EMA_Reader.py:37 | the base name contains no slash |
| PyPath.Join | SAIT_EMA_Reader.py:45-48 | `os.path.join(a, b)`: `b` ends the result; an absolute `b` replaces `a`; otherwise `a` starts it and a single `/` is put between them exactly when `a` is non-empty and does not end with one |
| IndexListing.LexLeqTotal | SAIT_EMA_Reader.py:202 | any two strings are ordered one way or the other |
| IndexListing.LexLeqTrans | SAIT_EMA_Reader.py:202 | the string ordering is transitive |
| IndexListing.LexLeqAntisym | SAIT_EMA_Reader.py:202 | strings ordered both ways are equal |
| IndexListing.Insert | SAIT_EMA_Reader.py:202 | inserting into an ascending list keeps it ascending and adds exactly the one string |
| IndexListing.SortStrings | SAIT_EMA_Reader.py:202 | `sorted` returns an ascending permutation of its input |
| IndexListing.SortedUnique | SAIT_EMA_Reader.py:202 | two ascending permutations of the same strings are equal, so `sorted`'s output is determined |
| IndexListing.WithExt | SAIT_EMA_Reader.py:200-201 | the listed names carrying the extension: each is listed and carries it, and every listed name carrying it is kept |
| IndexListing.WithExtCount | SAIT_EMA_Reader.py:200-201 | the filter keeps each listed name carrying the extension exactly as many times as it is listed, and no other name; with `MatchingRoots`' length this makes the number of roots the number of matching listed names |
| IndexListing.MatchingRoots | SAIT_EMA_Reader.py:200-201 | one root per listed name carrying the extension, in listing order: entry i is the root of the i-th such name |
| IndexListing.MatchingRootsSound | SAIT_EMA_Reader.py:200-201 | every kept root comes from a listed name whose extension is `.pos`, split at that extension |
| IndexListing.MatchingRootsComplete | SAIT_EMA_Reader.py:200-201 | every listed name with the extension contributes its root |
| IndexListing.IndexList | SAIT_EMA_Reader.py:196-204 | the index list is sorted and has exactly min(matches, 962) entries |
| IndexListing.IndexListSpec | SAIT_EMA_Reader.py:196-204 | the index list has exactly min(matches, 962) entries; it is sorted and is a prefix of the sorted roots; every entry comes from a listed `.pos` name; when at most 962 names match, it holds all of them |
| IndexListing.IndexListKeepsAll | SAIT_EMA_Reader.py:196-204 | with at most 962 matches, the root of every listed `.pos` name is in the index list |
| IndexListing.IndexFromPath | SAIT_EMA_Reader.py:33-39 | the index read from a path is no longer than the path and holds no slash; `IndexPathRoundTrip` makes it the inverse of `PathFromIndex` |
| IndexListing.PathFromIndex | SAIT_EMA_Reader.py:41-49 | the path built for an index ends with the index followed by the extension |
| IndexListing.IndexPathRoundTrip | SAIT_EMA_Reader.py:33-49 | the index read back from the path built for an index is that index, when the index has no slash and is not all dots |
| IndexListing.IndexListRoundTrip | SAIT_EMA_Reader.py:33-49 | every entry of the index list reads back as itself through its path, when the listing holds plain file names |
| Frames.PayloadCells | SAIT_EMA_Reader.py:238-242 | a negative offset fails; an offset 4 or more bytes past the end fails; otherwise there are as many cells as whole 4-byte groups after the offset (at most 3 bytes are ignored); cell `i` is decoded from bytes `offset + 4i .. offset + 4i + 4` |
| Frames.DivTowardZero | SAIT_EMA_Reader.py:238-242 | the cell count `np.fromfile` computes: division rounding toward zero, so the remainder has the sign of the byte count and is smaller than the cell size |
| Frames.Reshape | SAIT_EMA_Reader.py:244 | succeeds exactly when the cell count is a multiple of 112 and fails with that count otherwise; on success there are count/112 frames of 112 cells, and cell `k` of frame `f` is cell `112f + k` |
| Frames.FlattenLength | SAIT_EMA_Reader.py:244 | flattening frames of 112 gives 112 cells per frame, cell `k` of frame `f` at `112f + k` |
| Frames.ReshapeFlatten | SAIT_EMA_Reader.py:244 | reshaping loses nothing: flattening the frames gives back the cells |
| Frames.FlattenReshape | SAIT_EMA_Reader.py:244 | every table of 112-wide frames is the reshape of its flattening |
| Frames.FrameCell | SAIT_EMA_Reader.py:244-252 | frame `f`, channel `c`, value `v` is flat cell `112f + 7c + v`, and `7c + v < 112` |
| Frames.ColumnPosition | SAIT_EMA_Reader.py:265 | numpy's `[:, idx]` accepts exactly `-112 <= idx < 112`; a negative index counts from the end; anything else raises `IndexError` |
| Frames.SelectColumns | SAIT_EMA_Reader.py:279-283 | the stacked and transposed columns have one row per frame and one entry per selected column |
| Frames.ReadRawEma | SAIT_EMA_Reader.py:236-253 | a successful read yields frames of exactly 112 cells |
| Frames.ReadRawEmaLayout | SAIT_EMA_Reader.py:236-253 | with a well-formed header, the read succeeds exactly when the whole cells after the header fill whole frames; the frames then cover the payload save for at most 3 trailing bytes; cell `k` of frame `f` is decoded from the 4 bytes at `hs + 4(112f + k)` |
| Frames.ReadRawEmaExactSize | SAIT_EMA_Reader.py:238-244 | when the payload is a whole number of cells, its length is frames × 112 × 4 bytes |
| Frames.ShortPayloadRejected | SAIT_EMA_Reader.py:244 | a payload of 112 × 4 − 1 bytes fails the reshape with 111 cells |
| ChannelMaps.ResolveChannels | SAIT_EMA_Reader.py:206-226 | a map is chosen exactly for the speakers of the normal and irregular lists; any other speaker fails with `UnknownSpeaker` |
| ChannelMaps.StdChannelsWellFormed | SAIT_EMA_Reader.py:152-156 | the default map has the nine sensors, on distinct channels in 1..16 |
| ChannelMaps.LM002ChannelsWellFormed | SAIT_EMA_Reader.py:169-174 | the L_M002/L_M003 map has the nine sensors, on distinct channels in 1..16 |
| ChannelMaps.AF001ChannelsWellFormed | SAIT_EMA_Reader.py:175-179 | the A_F001 map has the nine sensors, on distinct channels in 1..16 |
| ChannelMaps.LF003ChannelsWellFormed | SAIT_EMA_Reader.py:180-184 | the L_F003 map has the nine sensors, on distinct channels in 1..16 |
| ChannelMaps.ResolvedMapWellFormed | SAIT_EMA_Reader.py:152-184 | every map the registry hands out has exactly the nine sensors, each on a channel in 1..16, no two on the same channel |
| ChannelMaps.NormalSpeakersShareDefault | SAIT_EMA_Reader.py:217-218 | every speaker of the normal list gets exactly the default map |
| ChannelMaps.IrregularSpeakersMaps | SAIT_EMA_Reader.py:219-226 | L_M002 and L_M003 get the same map; A_F001 and L_F003 each get their own |
| ChannelMaps.IrregularSpeakerNotDefault | SAIT_EMA_Reader.py:219-226 | every irregular speaker is resolved, and to a map other than the default |
| ChannelMaps.IrregularNotNormal | SAIT_EMA_Reader.py:159-167 | no speaker is on both the normal and the irregular list |
| ChannelMaps.LM002Overrides | SAIT_EMA_Reader.py:169-173 | the L_M002 map replaces the default on exactly NOSE, LE, RE and TD |
| ChannelMaps.AF001Overrides | SAIT_EMA_Reader.py:175-179 | the A_F001 map replaces the default on exactly NOSE, LE, RE, TD, TB and TT |
| ChannelMaps.LF003Overrides | SAIT_EMA_Reader.py:180-184 | the L_F003 map replaces the default on exactly LE, TD, TB and TT |
| Reader.IndexOf | SAIT_EMA_Reader.py:308 | `list.index` returns the first position that holds the value |
| Reader.SaitRawEmaReader.constructor | SAIT_EMA_Reader.py:17-27 | the base constructor stores the directory and speaker; every other attribute starts empty |
| Reader.SaitRawEmaReader.SetupRawEmaList | SAIT_EMA_Reader.py:195-204 | sets the extension to `.pos`, the count to 962, and the index list to `IndexList` of the listing |
| Reader.SaitRawEmaReader.SetupChannelsAndValues | SAIT_EMA_Reader.py:206-226 | the value order is always set; the step passes exactly when the registry knows the speaker, and then the reader holds its speaker's map; otherwise it raises `UnknownSpeaker` and no map is chosen |
| Reader.SaitRawEmaReader.ChannelValueIndex | SAIT_EMA_Reader.py:306-311 | a sensor missing from the map raises `KeyError`; then a value missing from the list raises `ValueError`; otherwise, with the standard value list, the index divided by 7 is the sensor's channel − 1, and the remainder names the value |
| Reader.SaitRawEmaReader.ResolveColumns | SAIT_EMA_Reader.py:265-277 | the columns resolve exactly when each (sensor, value) lookup and numpy index succeeds; the positions follow the pairs in order; on failure the error is that of the first pair that does not resolve |
| Reader.SaitRawEmaReader.SelectTable | SAIT_EMA_Reader.py:263-285 | the read comes first, so a failed read is the result; then a failed column lookup is; otherwise row f holds frame f's cell at each resolved column, in the order of the pairs |
| Reader.SaitRawEmaReader.GetStdEma | SAIT_EMA_Reader.py:255-285 | a failed read is the result; otherwise one row of 12 columns per frame of the read |
| Reader.SaitRawEmaReader.GetNoseEma | SAIT_EMA_Reader.py:326-337 | a failed read is the result; otherwise one row of 2 columns per frame of the read |
| Reader.NewSaitReader | SAIT_EMA_Reader.py:145-189 | construction fails exactly for a speaker in neither list, with `UnknownSpeaker`; otherwise the new reader holds its speaker's map, the standard value order, `.pos`, 962 and the index list of the listing |
| Reader.ValidMapWellFormed | SAIT_EMA_Reader.py:206-226 | a constructed reader's map is well formed and its value order is the standard one |
| Reader.ColumnIndexInFrame | SAIT_EMA_Reader.py:306-311 | under a well-formed map, every sensor's every value has a column in 0..111 |
| Reader.ColumnsDistinct | SAIT_EMA_Reader.py:306-311 | under a well-formed map, distinct (sensor, value) pairs never share a column |
| Reader.ColumnsResolve | SAIT_EMA_Reader.py:265-277 | under a well-formed map, any list of known (sensor, value) pairs resolves |
| Reader.StdColumnsResolve | SAIT_EMA_Reader.py:265-277 | under a well-formed map the twelve standard columns resolve; column 2k is x and 2k + 1 is z of the k-th sensor of TT, TB, TD, LJ, UL, LL |
| Reader.StdTableLayout | SAIT_EMA_Reader.py:265-283 | under a well-formed map, the standard columns taken from any read fail exactly when the read failed, and otherwise hold each sensor's x and z in order |
| Reader.StdEmaLayout | SAIT_EMA_Reader.py:263-285 | under a well-formed map, `get_std_EMA` fails exactly when the read fails; row f holds frame f's x of sensor k at column 2k and its z at column 2k + 1 |
| Reader.DefaultColumnOrder | SAIT_EMA_Reader.py:265-277 | under the default map, the standard table takes frame columns 35, 37, 28, 30, 21, 23, 42, 44, 56, 58, 49, 51 (TT/z is 5·7 + 2 = 37) |
| Reader.NoseEmaLayout | SAIT_EMA_Reader.py:326-337 | under a well-formed map, `get_nose_EMA_by_path` fails exactly when the read fails; row f is frame f's NOSE x and NOSE z |
| Reader.NoseTableLayout | SAIT_EMA_Reader.py:329-335 | under a well-formed map, the nose columns taken from any read fail exactly when the read failed, and otherwise are NOSE x and NOSE z |
| Reader.NoseColumnsResolve | SAIT_EMA_Reader.py:329-330 | under a well-formed map the nose columns are NOSE's channel's x and z |

## Left out

- File and directory I/O (`open`, `os.listdir`, `np.fromfile`'s file access) are not modelled; contents and listings are parameters.
- Float32 decoding is the parameter `cellOf`; byte order and IEEE interpretation are not modelled.
- `np.fromfile` is modelled after numpy's C implementation of reading a file at an offset:
  - a seek before the start of the file fails;
  - the count is the remaining bytes divided by 4, rounded toward zero, so a trailing partial cell is dropped;
  - a negative count is a negative-dimension error.
- Frames.PayloadCells: does not model the C 64-bit file offset. A header size of 2^63 or more, or below −2^63, makes numpy raise `OverflowError` before any seek, and a seek past the file system's largest file size raises `OSError`. The model instead reports `NegativeDimensions` or `NegativeOffset` for such sizes, because its offsets are unbounded integers.
- File names are Dafny strings of Unicode scalar values. `os.listdir` can return names holding lone surrogates (undecodable bytes under `surrogateescape`), which a Dafny `char` cannot hold, so such names are not modelled.
- Random sampling (`_randn_index_generator`, `_randn_raw_EMA_path_generator`, `get_randn_std_EMA`) is non-deterministic and left out.
- `print_header` and the `print` in the batch builders are diagnostic output and left out.
- The batch wrappers (`get_std_EMA_list_by_index_list`, `get_nose_EMA_list_by_index_list`) and the by-index wrappers (`get_std_EMA_by_index`, `get_nose_EMA_by_index`) are left out. They only loop over, or chain, per-file reads with `PathFromIndex`.
- The base class's `NotImplementedError` stubs have no behaviour and are left out.
- `os.path` is the POSIX flavour only; Windows path rules are not modelled.
- PyText.ParseInt: does not model CPython's 4300-digit limit on `int()` of a string, because no header line comes near it.
- Reader.SaitRawEmaReader.constructor: the Python `None` initial values are modelled as empty string, list and map and zero, because Dafny fields have no `None`.
- The channel tables are module constants rather than instance attributes. They are never reassigned, and the L_M003 map is the same object as the L_M002 map, which constants express by equality.
- Reader.SaitRawEmaReader.GetStdEma: the function's own contract states only the shape; the column contents are stated by `StdEmaLayout` under a well-formed map.
- Reader.SaitRawEmaReader.GetNoseEma: the same; the contents are stated by `NoseEmaLayout`.
- Behaviours of the code that the model keeps as they are:
  - Only the cell count after the header must be a multiple of 112; up to 3 trailing bytes past the last whole cell are ignored (SAIT_EMA_Reader.py:238-244).
  - L_M003 uses the very map object of L_M002 (SAIT_EMA_Reader.py:174), so only three irregular maps exist.
  - The directory is listed before the speaker is checked (SAIT_EMA_Reader.py:23, then :27), so an unknown speaker fails only after the listing.
  - The header size can fail in three ways:
    - fewer than two lines leaves `header_size` unbound (`HeaderSizeUnbound`);
    - a bad line makes `int()` raise `ValueError` (`NotAnInteger`);
    - a negative header size fails in `np.fromfile` (`NegativeOffset`).
