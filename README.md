# Stored ZIP writer of the section exporter

The extension's background worker packs the files it extracts into a ZIP archive: `section.html`, `section.css` and `section.js`. It does this with `createMinimalZip` (background.js), a small writer that does not compress. For each file it writes a local file header followed by the raw content. It then writes one central directory header per file and a 22-byte end of central directory record. Finally it copies every chunk, in push order, into one `Uint8Array`. The record layouts are those of the PKWARE ZIP Application Note (APPNOTE.TXT): section 4.3.7 (local file header), section 4.3.12 (central directory file header), section 4.3.16 (end of central directory record) and section 4.4.5 (method 0, "stored").

This project models that writer in Dafny and proves properties of it:

- `Bytes` holds octets and the little-endian field writes. `DataView.setUint16` and `setUint32` keep only the low 2 or 4 bytes of the value, so wrap-around is explicit: `LE(v, n)` is `v` modulo `256^n`. `Uint8Array.prototype.set` is an in-place copy into an `array`.
- `ZipFormat` gives the bytes of each record as a pure function, plus the running cursor (`EntriesSize`, `DirectorySize`), the chunk list and `ZipBytes(files)`, which is the archive the writer returns.
- `ZipWriter` is the writer itself. It is imperative, like the source: fresh zero-filled buffers written field by field, the `files.map` and `fileEntries.forEach` passes as loops over a chunk list and a cursor, and the final two-pass copy. It is proved to return exactly `ZipBytes(files)`.
- `ZipProperties` proves where each record sits and what its fields hold. It also proves that the directory's back-references and the end record's totals agree with the cursor.
- `Sequences` holds the concatenation and slicing facts the layout proofs use.
- `ZipReader` is an independent reader that follows the APPNOTE extraction procedure. It is the writer's partner: reading the archive back gives the input files, in order.

The writer has no precondition, as in the source. The predicate `ZipFormat.Fits` states what the source silently relies on:

- fewer than 65536 files;
- every name shorter than 65536 bytes;
- the entry blocks and the directory shorter than 2^32 bytes.

Fits is the hypothesis of the field-level and round-trip lemmas. Outside it the archive is still written, but with wrapped fields (`CountFieldWraps`, `WrappedCountLosesFiles`).

Names and contents are taken as the UTF-8 bytes that `TextEncoder.encode` produces. `LogicalFile(name, content)` holds those bytes. The source's `{file, nameBytes, contentBytes, localHeaderOffset}` entry becomes `EncodedEntry(file, localHeaderOffset)`, whose file carries the same bytes.

## Model

| member | source | states |
|---|---|---|
| ZipWriter.CreateMinimalZip | background.js:10-104 | returns a fresh array whose contents are exactly `ZipBytes(files)`: every local block in input order, then every directory record in input order, then the end record holding the count, the directory size and the directory offset |
| ZipWriter.EncodeLocalEntries | background.js:12-45 | the `files.map` pass yields one entry per file, in order, each with the cursor value before its header; it pushes header then content per file and leaves the cursor at the total length of those blocks |
| ZipWriter.EncodeCentralDirectory | background.js:49-74 | the `forEach` pass appends one central header per entry, in entry order, to the chunks already pushed, and advances the cursor by exactly the directory's size |
| ZipWriter.EncodeLocalHeader | background.js:21-34 | the 30 + name-length buffer holds the local header fields and then the name |
| ZipWriter.EncodeCentralHeader | background.js:51-70 | the 46 + name-length buffer holds the central header fields, including the entry's local header offset, and then the name |
| ZipWriter.EncodeEndRecord | background.js:79-88 | the 22-byte buffer holds the end record for the given count, directory size and directory offset |
| ZipWriter.Concatenate | background.js:92-101 | the buffer has the chunks' total length and holds the chunks one after another, in order |
| ZipWriter.SameInputSameBytes | background.js:10-104 | two runs on the same files give byte-identical archives, because no field depends on the clock (time, date and CRC-32 are written as zero) |
| Bytes.LE16Decodes | background.js:24-28 | the two bytes `setUint16(pos, v, true)` stores read back as `v mod 2^16` |
| Bytes.LE32Decodes | background.js:29-31 | the four bytes `setUint32(pos, v, true)` stores read back as `v mod 2^32` |
| Bytes.SetBytes | background.js:34 | `set(src, pos)` replaces exactly `buf[pos..pos+|src|]` with `src`; every other byte is unchanged |
| Bytes.SetUint16 | background.js:24 | replaces exactly two bytes at pos with the low two bytes of v, least significant first |
| Bytes.SetUint32 | background.js:23 | replaces exactly four bytes at pos with the low four bytes of v, least significant first |
| ZipFormat.LocalHeader | background.js:21 | a local header is 30 bytes plus the name's length |
| ZipFormat.CentralHeader | background.js:51 | a central header is 46 bytes plus the name's length |
| ZipFormat.EndRecord | background.js:79 | the end record is always 22 bytes (there is no archive comment) |
| ZipFormat.EncodeEntries | background.js:15-45 | there is one entry per input file |
| ZipFormat.EntryChunks | background.js:36 | the entry pass pushes two chunks per file |
| ZipFormat.CentralChunks | background.js:72 | the directory pass pushes one chunk per entry |
| ZipFormat.FlattenAppend | background.js:96-101 | copying a chunk list equals copying its two halves one after the other |
| ZipProperties.LocalHeaderLayout | background.js:21-34 | read back little-endian, the local header has: the signature 0x04034b50, version 20, flags 0, method 0, time/date/CRC 0, both sizes = content length mod 2^32, name length mod 2^16, extra length 0, then the name |
| ZipProperties.CentralHeaderLayout | background.js:51-70 | read back little-endian, every central header field has its written value: the signature 0x02014b50, versions 20/20, method 0, sizes, name length, zero extra/comment/disk/attributes, local header offset mod 2^32, then the name |
| ZipProperties.EndRecordLayout | background.js:79-88 | the end record has: the signature 0x06054b50, single disk, both counts = count mod 2^16, size and offset mod 2^32, comment length 0 |
| ZipProperties.EntriesSizeAppend | background.js:37 | the cursor advance over two runs of files adds up |
| ZipProperties.DirectorySizeAppend | background.js:73 | the directory size over two runs of entries adds up |
| ZipProperties.EntryBlocksLength | background.js:36-37 | the pushed headers and contents together are as long as the cursor says |
| ZipProperties.DirectoryBlocksLength | background.js:72-73 | the pushed directory headers together are as long as the cursor advanced |
| ZipProperties.EncodeEntriesAt | background.js:15-18 | entry i carries file i, and its local header offset is the cursor after the blocks of files 0..i-1 |
| ZipProperties.RunningCursor | background.js:13-37 | for any non-empty list the first entry starts at 0; each next entry starts right after the previous entry's header and content |
| ZipProperties.RecordCursor | background.js:47-73 | the first directory record starts at the end of the entry blocks; each next record starts right after the previous one |
| ZipProperties.EntriesInOrder | background.js:15-37 | entry blocks appear in input order and do not overlap |
| ZipProperties.RecordsInOrder | background.js:50-73 | directory records appear in input order and do not overlap |
| ZipProperties.ZipLayout | background.js:90-101 | the archive is the entry blocks, then the directory, then the end record, with total length = entries + directory + 22 |
| ZipProperties.EntryAt | background.js:18-37 | the bytes at entry i's recorded offset are its local header followed by its content |
| ZipProperties.CentralAt | background.js:47-73 | the bytes at record i's offset are the central header built from file i and its recorded offset |
| ZipProperties.LocalHeaderAt | background.js:18-37 | under Fits, a reader finds at entry i's recorded offset: the local signature, method 0, exact sizes and name length, no extra field, then the name and the content |
| ZipProperties.CentralRecordAt | background.js:50-73 | under Fits, record i has the central signature, method 0, exact sizes and name length, no extra field or comment, the name, and entry i's local header offset |
| ZipProperties.OffsetConsistency | background.js:69 | under Fits, the local header offset stored in each directory record points at a position where the local file header signature actually occurs |
| ZipProperties.EndRecordAccuracy | background.js:76-88 | under Fits, the archive ends with an end record whose counts are the number of files, whose size is the directory's length, and whose offset is where the directory starts, immediately after the last entry block |
| ZipProperties.DirectoryStartsAtOffset | background.js:47 | under Fits, the first directory record sits at `centralDirectoryOffset` and refers to offset 0 |
| ZipProperties.FileFits | background.js:30-32 | under Fits, each name length and content size fits its field |
| ZipProperties.OffsetFits | background.js:69 | under Fits, each local header offset fits its 32-bit field |
| ZipProperties.CountFieldWraps | background.js:84-85 | with 65536 files both count fields read 0: the count silently wraps |
| ZipProperties.ExampleLength | background.js:93-96 | a.txt holding "hi" plus an empty b.txt gives a 196-byte archive |
| ZipReader.EntryReadsBack | background.js:18-73 | under Fits, directory record i reads back as file i, and is followed by record i+1 |
| ZipReader.DirectoryReadsBack | background.js:50-73 | chained records that each read back make the whole directory read back, in order |
| ZipReader.ArchiveDirectoryReadsBack | background.js:47-74 | under Fits, the directory found at `centralDirectoryOffset` reads back as the input files |
| ZipReader.RoundTrip | background.js:10-104 | under Fits, reading the archive the writer returns gives back exactly the input files (names and contents), in order |
| ZipReader.ExampleReadsBack | background.js:10-104 | the archive of a.txt holding "hi" and an empty b.txt reads back as exactly those two files, in order, and b.txt's zero-length block at offset 37 is a well-formed local block (sizes 0, name, empty content) |
| ZipReader.WrappedCountLosesFiles | background.js:84-85 | with 65536 files the round trip fails: a reader does not get the input files back |

## Left out

- `stringToUint8Array` and `TextEncoder.encode` (background.js:4-7, 11, 16-17): names and contents are inputs already encoded as UTF-8 bytes. There is no Unicode model.
- The `chrome.runtime.onMessage` handler (background.js:106-158) is not modelled. That covers the HTML/CSS/JS templating, the `Date.now()` file name, the Blob/data URL, the download call and reopening the popup. These are browser I/O around the writer.
- content.js, popup.js and visual-selector.js are not part of this model.
- CRC-32: the source writes zero in both headers, and so does the model. The reader does not validate CRC-32, as a strict unzip tool would.
- Modification date: the source writes 0 for the DOS time and date in both headers, and so does the model. Date 0 (month 0, day 0) is not a valid MS-DOS date; the reader ignores both fields, so what a tool shows for such a date is not captured.
- Name encoding flag: names are written as UTF-8, but general purpose bit 11 is left 0 in both headers, and so it is in the model. Under appendix D of APPNOTE.TXT a reader should then decode a non-ASCII name as IBM code page 437; the model's reader returns raw name bytes, so this mis-decoding is not captured.
- JavaScript numbers: lengths and offsets are exact integers below 2^53 in the source. The model uses unbounded naturals. Every place where a value meets a 16- or 32-bit field is reduced modulo 2^16 or 2^32, exactly as `DataView` does.
- Chunks by reference: the source pushes the header `Uint8Array`s themselves onto `chunks`. The model pushes their contents (`localHeader[..]`). This is equivalent because no buffer is written after it has been pushed; aliasing is therefore not modelled.
- The `nameBytes` and `contentBytes` fields of each entry: they are the encodings of the entry's file, so the model reads them from `EncodedEntry.file`.
- ZipReader.ReadZip: this reader is not part of the source; it is the partner used to state the round trip. It expects an archive without a trailing comment, finding the end record in the last 22 bytes, which is what the writer produces.
- ZipProperties.LocalHeaderAt, ZipProperties.CentralRecordAt, ZipProperties.EndRecordAccuracy, ZipReader.RoundTrip: each is proved under Fits only. Outside Fits the source writes wrapped fields, and the model shows that this can lose files (ZipReader.WrappedCountLosesFiles).
