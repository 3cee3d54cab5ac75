/**
 * The byte layout of a stored (uncompressed) ZIP archive as the extension's
 * background worker writes it, following the PKWARE ZIP Application Note
 * (APPNOTE.TXT): local file headers (section 4.3.7), central directory file
 * headers (section 4.3.12) and the end of central directory record
 * (section 4.3.16). These functions are the specification the imperative
 * writer in module ZipWriter is proved against.
 */
module ZipFormat {
  import opened Bytes

  const LOCAL_FILE_HEADER_SIG: nat := 0x04034b50
  const CENTRAL_FILE_HEADER_SIG: nat := 0x02014b50
  const END_OF_CENTRAL_DIR_SIG: nat := 0x06054b50
  /** "Version made by" and "version needed to extract": 2.0. */
  const VERSION_MADE_BY: nat := 20
  const VERSION_NEEDED: nat := 20
  /** Compression method 0, "stored" (APPNOTE section 4.4.5). */
  const METHOD_STORE: nat := 0
  /** Fixed parts of the three records, before the variable-length name. */
  const LOCAL_HEADER_SIZE: nat := 30
  const CENTRAL_HEADER_SIZE: nat := 46
  const END_RECORD_SIZE: nat := 22

  /** One file to archive; name and content are already UTF-8 encoded. */
  datatype LogicalFile = LogicalFile(name: seq<Byte>, content: seq<Byte>)

  /** A file together with the offset at which its local header starts. */
  datatype EncodedEntry = EncodedEntry(file: LogicalFile, localHeaderOffset: nat)

  /** Local file header: 30 fixed bytes followed by the name. */
  function LocalHeader(f: LogicalFile): (h: seq<Byte>)
    ensures |h| == LOCAL_HEADER_SIZE + |f.name|
  {
    LE32(LOCAL_FILE_HEADER_SIG)   // signature
    + LE16(VERSION_NEEDED)        // version needed to extract
    + LE16(0)                     // general purpose bit flag
    + LE16(METHOD_STORE)          // compression method
    + LE16(0) + LE16(0)           // last mod time, last mod date
    + LE32(0)                     // CRC-32, left zero
    + LE32(|f.content|)           // compressed size
    + LE32(|f.content|)           // uncompressed size
    + LE16(|f.name|)              // file name length
    + LE16(0)                     // extra field length
    + f.name
  }

  /** Central directory file header: 46 fixed bytes followed by the name. */
  function CentralHeader(e: EncodedEntry): (h: seq<Byte>)
    ensures |h| == CENTRAL_HEADER_SIZE + |e.file.name|
  {
    LE32(CENTRAL_FILE_HEADER_SIG)  // signature
    + LE16(VERSION_MADE_BY)        // version made by
    + LE16(VERSION_NEEDED)         // version needed to extract
    + LE16(0)                      // general purpose bit flag
    + LE16(METHOD_STORE)           // compression method
    + LE16(0) + LE16(0)            // last mod time, last mod date
    + LE32(0)                      // CRC-32, left zero
    + LE32(|e.file.content|)       // compressed size
    + LE32(|e.file.content|)       // uncompressed size
    + LE16(|e.file.name|)          // file name length
    + LE16(0) + LE16(0)            // extra field length, file comment length
    + LE16(0) + LE16(0)            // disk number start, internal attributes
    + LE32(0)                      // external attributes
    + LE32(e.localHeaderOffset)    // relative offset of local header
    + e.file.name
  }

  /** End of central directory record, always 22 bytes (no archive comment). */
  function EndRecord(count: nat, dirSize: nat, dirOffset: nat): (r: seq<Byte>)
    ensures |r| == END_RECORD_SIZE
  {
    LE32(END_OF_CENTRAL_DIR_SIG)  // signature
    + LE16(0) + LE16(0)           // this disk, disk where the directory starts
    + LE16(count)                 // directory records on this disk
    + LE16(count)                 // total directory records
    + LE32(dirSize)               // size of the central directory
    + LE32(dirOffset)             // offset of the central directory
    + LE16(0)                     // comment length
  }

  /** Length of one local header followed by the file's content. */
  function EntryBlockSize(f: LogicalFile): nat
  {
    LOCAL_HEADER_SIZE + |f.name| + |f.content|
  }

  /** The write cursor after the local header and content of every file. */
  function EntriesSize(files: seq<LogicalFile>): nat
  {
    if files == [] then 0
    else EntriesSize(files[..|files| - 1]) + EntryBlockSize(files[|files| - 1])
  }

  /** Each file paired with the cursor value at which its local header begins. */
  function EncodeEntries(files: seq<LogicalFile>): (entries: seq<EncodedEntry>)
    ensures |entries| == |files|
  {
    if files == [] then []
    else
      var init := files[..|files| - 1];
      EncodeEntries(init) + [EncodedEntry(files[|files| - 1], EntriesSize(init))]
  }

  /** Total length of the central directory records of the given entries. */
  function DirectorySize(entries: seq<EncodedEntry>): nat
  {
    if entries == [] then 0
    else DirectorySize(entries[..|entries| - 1]) + CENTRAL_HEADER_SIZE + |entries[|entries| - 1].file.name|
  }

  /** The chunks pushed while encoding entries: header, then content, per file. */
  function EntryChunks(files: seq<LogicalFile>): (cs: seq<seq<Byte>>)
    ensures |cs| == 2 * |files|
  {
    if files == [] then []
    else
      var f := files[|files| - 1];
      EntryChunks(files[..|files| - 1]) + [LocalHeader(f), f.content]
  }

  /** The chunks pushed while encoding the central directory: one per entry. */
  function CentralChunks(entries: seq<EncodedEntry>): (cs: seq<seq<Byte>>)
    ensures |cs| == |entries|
  {
    if entries == [] then []
    else CentralChunks(entries[..|entries| - 1]) + [CentralHeader(entries[|entries| - 1])]
  }

  /** Every chunk of the archive, in push order. */
  function Chunks(files: seq<LogicalFile>): seq<seq<Byte>>
  {
    var entries := EncodeEntries(files);
    EntryChunks(files) + CentralChunks(entries)
      + [EndRecord(|entries|, DirectorySize(entries), EntriesSize(files))]
  }

  /** The chunks copied one after another into a single buffer. */
  function Flatten(chunks: seq<seq<Byte>>): seq<Byte>
  {
    if chunks == [] then []
    else Flatten(chunks[..|chunks| - 1]) + chunks[|chunks| - 1]
  }

  /** The archive createMinimalZip returns for the given files. */
  function ZipBytes(files: seq<LogicalFile>): seq<Byte>
  {
    Flatten(Chunks(files))
  }

  /**
   * What the writer silently relies on: the entry counts and name lengths fit
   * the 16-bit fields and every size and offset fits the 32-bit fields.
   * Outside it the archive is still written, with wrapped fields.
   */
  predicate Fits(files: seq<LogicalFile>)
  {
    && |files| < TWO_16
    && (forall i :: 0 <= i < |files| ==> |files[i].name| < TWO_16)
    && EntriesSize(files) < TWO_32
    && DirectorySize(EncodeEntries(files)) < TWO_32
  }

  lemma {:induction false} FlattenAppend(a: seq<seq<Byte>>, b: seq<seq<Byte>>)
    ensures Flatten(a + b) == Flatten(a) + Flatten(b)
    decreases |b|
  {
    if b == [] {
      assert a + b == a;
    } else {
      var b' := b[..|b| - 1];
      assert (a + b)[..|a + b| - 1] == a + b';
      FlattenAppend(a, b');
    }
  }

  lemma FlattenSingle(c: seq<Byte>)
    ensures Flatten([c]) == c
  {
    assert [c][..0] == [];
  }

  lemma FlattenPair(a: seq<Byte>, b: seq<Byte>)
    ensures Flatten([a, b]) == a + b
  {
    assert [a, b][..1] == [a];
    FlattenSingle(a);
  }
}
