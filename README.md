# GTA2 map compressor, modelled in Dafny

This project models `compress_gmp.py`, a compressor for GTA2 map files (`.gmp`).
Its `main` (lines 891-921) reads a `GBMP` file's chunks and stops when there is
no uncompressed `UMAP` chunk. Otherwise it reads the `UMAP` into the
8 x 256 x 256 grid of 12-byte block records and collects the distinct records
(`create_set_from_array`). It turns that set into a list and builds the
deduplicated column table (`create_columns`). It then lays out the `DMAP` chunk
(`create_dmap`) and writes a new `GBMP` file that holds the `DMAP` chunk and
the companion chunks copied from the input (`create_gmp`).

The file also holds the reverse direction, which `main` never calls:
`uncompress_gmp` with the column scans and decompressors for a PC `DMAP` chunk
and a PSX `CMAP` chunk, and `write_uncompressed_map`. They are modelled too,
as separate functions, and the lemmas relate them to the encoder.

The model stays close to the Python:

- Files are in-memory byte strings (`seq<Byte>`).
- `Read(file, off, n)` is Python's `seek` then `read`: short or empty past the
  end of the file.
- A `sys.exit`, and an exception the code can raise (IndexError,
  AssertionError, ValueError, UnicodeDecodeError), becomes an `Err` value or a
  `None`. The exceptions to this are the few preconditions listed under
  "Left out", each with the exception it stands for.
- Loops that work step by step are `method`s. Each one is proved equal to a
  specification function, and the properties are lemmas about those functions.

Modules, in dependency order:

- `Bytes`: integers to and from little-endian bytes, file reads, concatenation.
- `Blocks`: the PSX slope lid fix.
- `Container`: the `GBMP` chunk reader and `search_data`.
- `FileNames`: `get_filename`.
- `Umap`: the `UMAP` reader and writer.
- `Column`: the encoding of one (x, y) column.
- `Encoder`: `create_set_from_array` and `create_columns`.
- `Dmap`: `create_dmap`.
- `Gmp`: `create_gmp`, and what the reader finds in a file it wrote.
- `Decoder`: the column scans and decompressors for `DMAP` and `CMAP`, and
  `uncompress_gmp`.

Points where the model follows the code and differs from a prose description of
the format:

- **Column height.** `create_columns` stores as height the z of the topmost
  occupied level, not one more. The decoders then read only the levels below
  the height, so the topmost occupied level is lost (`Decoder.TopLevelLost`).
- **Empty columns.** The reset tests `offset == 7`, which catches only a column
  whose single occupied level is z = 7. An all-empty column gets offset 8 and
  encodes as `[0, 8, 0, 0]`. `DMAP_read_all_columns` rejects that offset
  byte (`Decoder.EncodedDmapScan`).
- **Base entries.** The base stores each column's ordinal in the column table.
  The decoders read the entry as a count of dwords (PC) or words (PSX) into the
  column data.
- **Repeated tags.** `chunk_info` keeps the last chunk with a given tag, but
  `search_data` returns the first (`Container.RepeatedTagDisagree`).
- **Offset counter.** The chunk reader's `current_offset` leaves out each
  chunk's size field, so it trails the file position by 4 bytes per chunk
  read. The model keeps both numbers.
- **Size-0 columns.** A column whose offset is one above its height has size 0.
  On it both scans loop forever. Here that case is the error
  `NoProgress(pos)`.
- **`write_uncompressed_map`.** It never advances `current_offset`, so when
  the `UMAP` size is non-zero it writes all 8 levels whatever the size.
- **Python failures.** `list.index` can raise ValueError; `IndexOf` answers -1
  instead. `search_data` raises when the tag is missing; `SearchData` answers
  `None`. `convert_int_to_word` fails outside 0..65535; `Word` answers `None`.
- **Tag recognition.** `TagOf` is the test at lines 205-215 that checks the
  four bytes against the eleven recognised names; on its own it answers `None`
  for any other four bytes. The reader decodes the bytes first: a tag that is
  not ASCII raises UnicodeDecodeError, and `NextRound` gives the error
  `NonAsciiTag(pos)`. A non-ASCII signature gives `NonAsciiTag(0)` from
  `ParseSpec`. An ASCII tag outside the eleven is skipped.
- **Format parameter.** `Format` (`Pc` or `Psx`) selects between the two copies
  of the scan and decompress code. The copies differ only in field width, the
  column-word count's unit and how a record is chosen.

## Model

| member | source | states |
|---|---|---|
| Bytes.DwordRoundTrip | compress_gmp.py:57-62 | reading back a written dword gives the integer modulo 2^32, so the writer keeps exactly the low 32 bits, for negative integers too |
| Bytes.DwordOfSmall | compress_gmp.py:57-62 | an integer in 0 .. 2^32 - 1 reads back unchanged from its dword |
| Bytes.Dword | compress_gmp.py:57-62 | the encoding is always exactly 4 bytes |
| Bytes.Word | compress_gmp.py:64-67 | the two bytes exist exactly when 0 <= n < 65536, and then they read back to n |
| Bytes.Read | compress_gmp.py:225 | a Python read returns at most n bytes, the file's bytes when they are all there, and nothing past the end |
| FileNames.GetFilename | compress_gmp.py:51-55 | the name runs from after the last backslash to the last dot. It is empty when the dot comes before the backslash. Without a dot it runs to the path's final character, which is dropped |
| FileNames.GetFilenameHasNoBackslash | compress_gmp.py:51-55 | the name never contains a backslash |
| FileNames.RFind | compress_gmp.py:53-54 | `rfind` gives the last index holding the character, or -1 when there is none |
| Blocks.FixPsxSlopeSpec | compress_gmp.py:148-162 | the fix keeps the length. It changes nothing unless the slope code is 49..52 and the lid's texture index is 384. Then only bytes 8-9 change: the texture index becomes 1023 and the lid's upper bits are kept |
| Blocks.FixPsxSlopeIdempotent | compress_gmp.py:148-162 | applying the fix twice gives the same record as applying it once |
| Blocks.FixPsxSlopeOnlySlopes | compress_gmp.py:117-124 | a record that `is_slope` rejects, or whose slope code is outside 49..52, is left unchanged (see also lines 148-162) |
| Blocks.FixNeedsFullLid | compress_gmp.py:151-157 | a record the fix changes is at least 10 bytes long, so its lid is read whole |
| Container.TagOfSpec | compress_gmp.py:203-216 | a recognised 4-byte header is exactly the name of its tag, and an unrecognised one is the name of no tag |
| Container.TagOfTag | compress_gmp.py:203-216 | every tag's name is recognised as that tag |
| Container.TagBytesInjective | compress_gmp.py:166-176 | different tags have different names |
| Container.NextRound | compress_gmp.py:201-228 | the loop stops exactly when the counter reaches the file size. The counter advances by 4 for an unrecognised ASCII header, and by 4 plus the chunk size for a recognised one. A non-ASCII tag is exactly the UnicodeDecodeError case, reported at its position |
| Container.ParseSpec | compress_gmp.py:182-186 | a file that does not start with `GBMP` is rejected: with the decode error at 0 when the signature is not ASCII, otherwise as not a `GBMP` file |
| Container.DetectHeadersAndGetChunks | compress_gmp.py:164-230 | the method returns the error of the specification parse, or `chunk_info` and `data_array` built from the chunks that parse finds |
| Container.ReadChunks | compress_gmp.py:199-228 | the loop from a given start gives the chunk table and payload list of the specification's chunk sequence |
| Container.ReadRound | compress_gmp.py:203-228 | one iteration of the loop is the specification's round |
| Container.InfoOf | compress_gmp.py:166-176 | `chunk_info` has an entry for every tag |
| Container.Payloads | compress_gmp.py:225-226 | `data_array` has one (tag, payload) pair per chunk, in file order |
| Container.InfoStep | compress_gmp.py:217-226 | one more chunk overwrites its tag's entry in `chunk_info` and appends one pair to `data_array` |
| Container.TakeAt | compress_gmp.py:217-225 | a recognised chunk's payload offset is the header position plus 8, and its payload lies in the file at that offset |
| Container.ChunksAreInFile | compress_gmp.py:201-228 | every chunk found lies in the file at its offset. Chunks follow one another without overlap, each beginning at least 8 bytes after the last one ends |
| Container.InfoOfIsLast | compress_gmp.py:218-221 | a tag's `chunk_info` entry is the offset and size of the last chunk with that tag, or absent if no chunk has it |
| Container.SearchData | compress_gmp.py:727-731 | no payload is found exactly when no pair has the tag. A found payload belongs to the first pair with that tag |
| Container.SearchDataIsFirst | compress_gmp.py:727-731 | on the reader's `data_array`, the search returns the payload of the first chunk with the tag |
| Container.RepeatedTagDisagree | compress_gmp.py:218-226 | for a tag that is present, `search_data` returns the first chunk's payload while `chunk_info` describes the last chunk (see also lines 727-731) |
| Umap.GetBlockInfoDataFromUmap | compress_gmp.py:555-597 | the reader's grid holds only whole levels. There are as many as fit in the payload's records, grouped x fastest, then y, then z |
| Umap.UmapGrid | compress_gmp.py:555-597 | the grid's level count is the whole levels among ceil(size / 12) records, and each level is 256 x 256 |
| Umap.WriteUncompressedMap | compress_gmp.py:232-260 | with size 0 the file is unchanged. Otherwise the 8 levels are written in x, y, z order over the file from the `UMAP` offset |
| Umap.Overwrite | compress_gmp.py:238-247 | after seek and write, the written bytes are at the offset and the bytes ahead of it are kept |
| Umap.UmapRoundTrip | compress_gmp.py:232-260 | reading back the `UMAP` that the writer wrote for an 8-level grid of 12-byte records gives the grid again (see also lines 555-597) |
| Umap.UmapCellRoundTrip | compress_gmp.py:247 | the record read at index x + 256 y + 65536 z of the written file is the grid's record at (z, y, x) (see also line 574) |
| Umap.FlatAt | compress_gmp.py:247-257 | the writer's k-th record is at z = k / 65536, y = k / 256 mod 256, x = k mod 256 |
| Encoder.CreateSetFromArray | compress_gmp.py:618-624 | the IndexError of the first read happens exactly when the grid has no cell (0, 0, 0). Otherwise the set built is the set of all records of the grid |
| Encoder.GridSetSpec | compress_gmp.py:618-624 | a record is in the grid's set exactly when it stands at some (z, y, x) |
| Encoder.LevelSetSpec | compress_gmp.py:621-623 | a record is in a level's set exactly when it stands at some (y, x) of that level |
| Column.IndexOf | compress_gmp.py:663 | `list.index` finds the first occurrence, and answers -1 exactly when the element is absent (see also line 682) |
| Column.LevelId | compress_gmp.py:654-663 | an empty level's id is 0. An occupied level's id is the index of its record in `block_list` |
| Column.LeadTopSpec | compress_gmp.py:652-661 | the offset counts the empty levels below the lowest occupied one. The height is the z of the topmost occupied level, with only empty levels above it |
| Column.ScanColumn | compress_gmp.py:644-663 | the z loop gives that offset and that height, and one id per level from the offset up |
| Column.IdDwords | compress_gmp.py:672-676 | the column stores one dword per level from the offset up to the height, exclusive |
| Column.ColumnEncoding | compress_gmp.py:665-676 | the encoding is 4 bytes plus 4 per stored id |
| Column.WriteIds | compress_gmp.py:675-676 | the id loop appends the dwords of the first `num_blocks` ids |
| Column.EncodeColumn | compress_gmp.py:644-676 | the encoding of one (x, y) is the column encoding of its 8 levels |
| Column.ColumnHeaderSpec | compress_gmp.py:665-672 | the encoding is whole dwords with zero padding. When the lowest occupied level is below 7, the header gives that level and the topmost one. A column occupied only at z = 7 encodes as `[0, 0, 0, 0]`, and an all-empty column as `[0, 8, 0, 0]` |
| Column.ColumnIdSpec | compress_gmp.py:672-676 | id i of the encoding is the dword of the id of level offset + i, and that level is below the height |
| Column.ColumnIdDecodes | compress_gmp.py:658-663 | a stored id reads back as 0 for an empty level, and as the index of the level's record otherwise (see also line 676) |
| Column.SingleLevelColumn | compress_gmp.py:652-672 | a column occupied only at z < 7 encodes as `[z, z, 0, 0]`, with no ids stored |
| Encoder.Encodings | compress_gmp.py:641-676 | entry 256 y + x is the encoding of column (x, y) |
| Encoder.DedupSpec | compress_gmp.py:680-693 | the column table keeps every distinct encoding once, and nothing else |
| Encoder.RegisterColumn | compress_gmp.py:680-693 | an encoding already in the table gets its old index. A new one is appended, with the running dword offset and the next ordinal |
| Encoder.CreateColumns | compress_gmp.py:626-725 | it raises IndexError exactly when some cell with z < 8 and x, y < 256 is missing. Otherwise the column table is the deduplicated encodings in scan order. Each offset is the dword count of the columns before it, and every (x, y) index selects that (x, y)'s encoding |
| Encoder.DwordsBeforeAppend | compress_gmp.py:688-689 | appending a column leaves the offsets of the earlier columns unchanged |
| Encoder.PrefixDwords | compress_gmp.py:688-689 | an offset counts the bytes of the columns before it, in dwords |
| Dmap.CreateDmap | compress_gmp.py:733-770 | it fails with the empty-list error when the table or offset list is empty. It fails on an assertion exactly when the column data or block info lengths disagree. Otherwise it gives the size, base, column-dword count, column data, record count and block info |
| Dmap.BuildBase | compress_gmp.py:738-743 | the base is the dwords of the 65536 indices in y-then-x order, 4 * 65536 bytes |
| Dmap.BaseLayout | compress_gmp.py:738-743 | the entry for (x, y) is the dword at byte 4 (256 y + x), and it reads back as the index modulo 2^32 |
| Dmap.JoinBytes | compress_gmp.py:750-751 | the loop's bytes are the concatenation of the parts (see also lines 760-761) |
| Dmap.ColumnsLocated | compress_gmp.py:688-689 | the column data is 4 bytes per counted dword, and column k lies at 4 times its offset (see also lines 748-753) |
| Dmap.ColumnsConsistent | compress_gmp.py:748-753 | for `create_columns`' table the assertion on the column data length holds |
| Dmap.BlockInfoConsistent | compress_gmp.py:757-763 | with 12-byte records the assertion on the block info length holds |
| Dmap.DedupConsistent | compress_gmp.py:748-753 | for a deduplicated list of dword-aligned encodings with running offsets, the column data length assertion holds and each column lies at its offset |
| Gmp.CreateGmp | compress_gmp.py:773-860 | the written file is the `GBMP` header, version 500, the `DMAP` chunk and then each present companion chunk in order `ZONE`, `PSXM`, `ANIM`, `LGHT`, `EDIT`, `RGEN`. It fails when a present companion has no payload |
| Gmp.FileHeader | compress_gmp.py:775-779 | the header is 6 bytes and starts with the signature |
| Gmp.CompanionsSerial | compress_gmp.py:807-859 | when `chunk_info`'s sizes match the payloads, the companions are laid out as consecutive tag, size and payload chunks |
| Gmp.GmpRoundTrip | compress_gmp.py:164-230 | reading back a written file finds exactly the `DMAP` chunk and then the present companions, each at its offset with its size and payload (see also lines 773-860) |
| Gmp.SerialFileParses | compress_gmp.py:164-230 | a header followed by consecutive chunks parses to exactly those chunks |
| Gmp.ParseSerial | compress_gmp.py:201-228 | the loop reads consecutive chunks back one by one, each at its header position plus 8 |
| Decoder.ColumnSize | compress_gmp.py:282-306 | a column the scan accepts occupies at least one word (see also lines 395-419) |
| Decoder.ScanColumns | compress_gmp.py:271-311 | the while loop stops where the specification walk does, or exits with that walk's error: height above 7, offset above 7, negative size, or no progress (see also lines 384-424) |
| Decoder.DmapReadAllColumns | compress_gmp.py:264-322 | the answer is the end of the column stream plus 4, where the block records start, or the scan's error |
| Decoder.CmapReadAllColumns | compress_gmp.py:377-445 | the record count sits 1024 bytes after the end of the column stream. The first record starts 2 bytes after the count, and the table ends 12 bytes per counted record after the count. On a scan error that error is the answer |
| Decoder.WalkOver | compress_gmp.py:279-311 | the scan steps over a run of well-formed columns while the counter stays within its bound |
| Decoder.EncodingScans | compress_gmp.py:286-306 | an encoding passes the scan's header checks exactly when it is not `[0, 8, 0, 0]`, which it is exactly when the column is all empty (see also lines 644-676) |
| Decoder.DmapScanFindsRecords | compress_gmp.py:264-322 | for a `DMAP` body whose column data is well-formed columns, the scan stops exactly where the block records start (see also lines 793-804) |
| Decoder.CmapScanFindsRecords | compress_gmp.py:377-445 | for a `CMAP` body whose column data is well-formed columns, counted correctly, the record count is read 1024 bytes after the column data and the table starts 2 bytes after it |
| Decoder.DmapScanStopsAtEmptyColumn | compress_gmp.py:291-294 | when the column data contains the all-empty column after well-formed ones, the scan exits at that column's offset byte |
| Decoder.EncodedDmapScan | compress_gmp.py:264-322 | for the `DMAP` the encoder builds, the scan reaches the block records exactly when every (x, y) has an occupied level (see also lines 626-770) |
| Decoder.DedupStreamScan | compress_gmp.py:279-311 | over deduplicated encodings the scan reaches the records when no encoding is all empty, and otherwise exits at the all-empty column's position (see also lines 680-693) |
| Decoder.ReadIds | compress_gmp.py:358-360 | the id loop reads n little-endian ids one after another, none when n is not positive (see also lines 488-503) |
| Decoder.ReadRecord | compress_gmp.py:366-369 | a record is found except for a `CMAP` id below 0x8000 whose record is past the end of the file, where `is_slope` raises. A found record is the `DMAP` record, the slope-fixed `CMAP` record or 8 zero bytes and a second-table entry (see also lines 506-519) |
| Decoder.LocateColumn | compress_gmp.py:336-341 | the column of (x, y) starts after the base and the column-word count, at its base entry counted in fields (see also lines 469-474) |
| Decoder.ReadColumn | compress_gmp.py:345-360 | the header's offset byte and the height - offset ids that follow the header are what the file holds there (see also lines 478-503) |
| Decoder.PlaceIds | compress_gmp.py:366-371 | the loop succeeds exactly when no id is at a level above 7 or has a missing record. Then every level of the column holds its decoded record and all other columns are unchanged (see also lines 506-522) |
| Decoder.DecodeColumn | compress_gmp.py:336-371 | one (x, y) decodes without error exactly when its column does, and then holds its decoded levels. Other columns are unchanged (see also lines 469-522) |
| Decoder.DecodeRow | compress_gmp.py:335-371 | a row succeeds exactly when each of its columns does, and then each holds its decoded levels. Other rows are unchanged (see also lines 468-522) |
| Decoder.Decompress | compress_gmp.py:324-373 | the grid is built exactly when no column raises IndexError, and then every (x, y, z) holds its decoded record (see also lines 447-529) |
| Decoder.UncompressGmp | compress_gmp.py:534-553 | without the map chunk it gives the not-compressed error. Otherwise it passes on the scan's error, or the grid when every column decodes, or the decoder's IndexError |
| Decoder.ColumnOkSpec | compress_gmp.py:366-371 | a column decodes exactly when none of its ids is at a level above 7 or has a missing record (see also lines 506-522) |
| Decoder.CmapRecordShape | compress_gmp.py:507-519 | an id below 0x8000 gives the slope-fixed stored record, which is a fixed point of the fix. An id from 0x8000 up gives 8 zero bytes and then its second-table entry |
| Decoder.DecodeEncodedColumn | compress_gmp.py:345-371 | decoding an encoded column gives back the original record at levels from the offset up to the height, exclusive. An empty level there comes back as `block_list[0]`, and every other level comes back empty (see also lines 644-676) |
| Decoder.TopLevelLost | compress_gmp.py:661 | for a column whose lowest occupied level is below 7, the topmost occupied level decodes as the empty record (see also lines 672 and 358) |
| Decoder.EncodedColumnOk | compress_gmp.py:358-371 | an encoded column never makes `DMAP_decompress` raise (see also lines 665-676) |
| Decoder.RecordsStored | compress_gmp.py:366-369 | every id below the record count reads back its record from the block info (see also lines 760-761) |

## Left out

- `main` and the code after its `return` are not modelled. They cover argument
  handling, file names, and the order of the steps on real paths.
- Real files and paths are not modelled. Every file is an in-memory byte
  string; a written file is the byte string returned.
- Messages, the progress percentage and the timing of `create_columns` are not
  modelled; they are output only.
- The counters and prints of `CMAP_decompress` are not modelled; they do not
  affect the result.
- The print-only functions `read_block_side_info`, `read_lid_info` and
  `print_all_info_block_data` are not modelled; they only print.
- `get_block_data_set_from_UMAP` is not modelled; nothing calls it.
- The `if False` branch of `create_columns` is dead code and is not modelled.
- `EMPTY_BLOCK_HASH` is not modelled; it is never used.
- The order of `list(block_set)` is not modelled because Python does not fix
  it. The encoder takes any `block_list` that holds every occupied record.
- The `size` locals of the decoders, the version read by the chunk reader and
  the `num_total_blocks` argument of `CMAP_decompress` are read but never
  used, and are not modelled.
- The base-length assertion of `create_dmap` always holds; `Dmap.BuildBase`
  proves the length instead of modelling a failure.
- Blocks.FixPsxSlope: requires a non-empty record. On an empty one the source
  raises IndexError, and its only caller already rules that out
  (`Decoder.ReadRecord` reports a missing record first).
- Umap.WriteUncompressedMap: requires a grid whose first 8 levels have at
  least 256 rows of at least 256 records, as the writer indexes them. A
  smaller grid raises IndexError in the source and is not modelled.
- Umap.UmapRoundTrip: requires exactly 8 levels of exactly 256 x 256 records of
  12 bytes, the only grids the reader can give back.
- Encoder.CreateColumns: requires every occupied record to be in `block_list`,
  where `list.index` would otherwise raise ValueError. Its IndexError on a
  missing cell is modelled.
- Decoder.ColumnSize, Decoder.ScanColumns: a size-0 column is the error
  `NoProgress(pos)`, where the Python loop never ends.
- Column.IndexOf: answers -1 where `list.index` raises ValueError.
- Container.SearchData: answers `None` where `search_data` raises on a missing
  tag.
- Bytes.Word: answers `None` where `bytes()` raises ValueError outside
  0..65535.
- A round trip of the whole `DMAP` encode and decode is not stated, and cannot
  be: the decoder loses the topmost level (`Decoder.TopLevelLost`), and the
  scan rejects all-empty columns (`Decoder.EncodedDmapScan`).
