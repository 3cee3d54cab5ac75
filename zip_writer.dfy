/**
 * createMinimalZip (background.js): the in-memory stored-ZIP writer. Each
 * record is written field by field into a fresh zero-filled buffer, the
 * buffers are pushed onto a list of chunks while a cursor counts the bytes
 * emitted so far, and the chunks are finally copied into one array.
 */
module ZipWriter {
  import opened Bytes
  import opened ZipFormat

  /** Writes one local file header into a fresh 30 + |name| byte buffer. */
  method EncodeLocalHeader(file: LogicalFile) returns (localHeader: array<Byte>)
    ensures localHeader[..] == LocalHeader(file)
  {
    localHeader := new Byte[LOCAL_HEADER_SIZE + |file.name|](_ => 0);
    SetUint32(localHeader, 0, LOCAL_FILE_HEADER_SIG);
    assert localHeader[..4] == LE32(LOCAL_FILE_HEADER_SIG);
    SetUint16(localHeader, 4, VERSION_NEEDED);
    SetUint16(localHeader, 6, 0);
    SetUint16(localHeader, 8, METHOD_STORE);
    SetUint16(localHeader, 10, 0);
    SetUint16(localHeader, 12, 0);
    SetUint32(localHeader, 14, 0);
    SetUint32(localHeader, 18, |file.content|);
    SetUint32(localHeader, 22, |file.content|);
    SetUint16(localHeader, 26, |file.name|);
    SetUint16(localHeader, 28, 0);
    SetBytes(localHeader, 30, file.name);
    assert localHeader[..] == localHeader[..LOCAL_HEADER_SIZE + |file.name|];
  }

  /** Writes one central directory header into a fresh 46 + |name| byte buffer. */
  method EncodeCentralHeader(entry: EncodedEntry) returns (centralHeader: array<Byte>)
    ensures centralHeader[..] == CentralHeader(entry)
  {
    centralHeader := new Byte[CENTRAL_HEADER_SIZE + |entry.file.name|](_ => 0);
    SetUint32(centralHeader, 0, CENTRAL_FILE_HEADER_SIG);
    assert centralHeader[..4] == LE32(CENTRAL_FILE_HEADER_SIG);
    SetUint16(centralHeader, 4, VERSION_MADE_BY);
    SetUint16(centralHeader, 6, VERSION_NEEDED);
    SetUint16(centralHeader, 8, 0);
    SetUint16(centralHeader, 10, METHOD_STORE);
    SetUint16(centralHeader, 12, 0);
    SetUint16(centralHeader, 14, 0);
    SetUint32(centralHeader, 16, 0);
    SetUint32(centralHeader, 20, |entry.file.content|);
    SetUint32(centralHeader, 24, |entry.file.content|);
    SetUint16(centralHeader, 28, |entry.file.name|);
    SetUint16(centralHeader, 30, 0);
    SetUint16(centralHeader, 32, 0);
    SetUint16(centralHeader, 34, 0);
    SetUint16(centralHeader, 36, 0);
    SetUint32(centralHeader, 38, 0);
    SetUint32(centralHeader, 42, entry.localHeaderOffset);
    SetBytes(centralHeader, 46, entry.file.name);
    assert centralHeader[..] == centralHeader[..CENTRAL_HEADER_SIZE + |entry.file.name|];
  }

  /** Writes the 22-byte end of central directory record. */
  method EncodeEndRecord(count: nat, dirSize: nat, dirOffset: nat) returns (endRecord: array<Byte>)
    ensures endRecord[..] == EndRecord(count, dirSize, dirOffset)
  {
    endRecord := new Byte[END_RECORD_SIZE](_ => 0);
    SetUint32(endRecord, 0, END_OF_CENTRAL_DIR_SIG);
    assert endRecord[..4] == LE32(END_OF_CENTRAL_DIR_SIG);
    SetUint16(endRecord, 4, 0);
    SetUint16(endRecord, 6, 0);
    SetUint16(endRecord, 8, count);
    SetUint16(endRecord, 10, count);
    SetUint32(endRecord, 12, dirSize);
    SetUint32(endRecord, 16, dirOffset);
    SetUint16(endRecord, 20, 0);
    assert endRecord[..] == endRecord[..END_RECORD_SIZE];
  }

  /**
   * createMinimalZip: encodes every file's local header and content while a
   * cursor records where each header starts, then one central directory
   * header per entry, then the end record, and finally copies all chunks, in
   * push order, into one buffer.
   */
  method CreateMinimalZip(files: seq<LogicalFile>) returns (zip: array<Byte>)
    ensures fresh(zip)
    ensures zip[..] == ZipBytes(files)
  {
    var chunks, fileEntries, offset := EncodeLocalEntries(files);
    var centralDirectoryOffset := offset;
    chunks, offset := EncodeCentralDirectory(fileEntries, chunks, offset);
    var centralDirectorySize := offset - centralDirectoryOffset;

    var endRecord := EncodeEndRecord(|fileEntries|, centralDirectorySize, centralDirectoryOffset);
    chunks := chunks + [endRecord[..]];
    zip := Concatenate(chunks);
  }

  /**
   * The files.map pass of createMinimalZip: pushes each file's local header
   * and content, and pairs each file with the cursor value at which its
   * header starts.
   */
  method EncodeLocalEntries(files: seq<LogicalFile>)
      returns (chunks: seq<seq<Byte>>, fileEntries: seq<EncodedEntry>, offset: nat)
    ensures fileEntries == EncodeEntries(files)
    ensures chunks == EntryChunks(files)
    ensures offset == EntriesSize(files)
  {
    chunks, fileEntries, offset := [], [], 0;
    for i := 0 to |files|
      invariant fileEntries == EncodeEntries(files[..i])
      invariant chunks == EntryChunks(files[..i])
      invariant offset == EntriesSize(files[..i])
    {
      var file := files[i];
      var localHeaderOffset := offset;
      var localHeader := EncodeLocalHeader(file);
      chunks := chunks + [localHeader[..], file.content];
      offset := offset + localHeader.Length + |file.content|;
      fileEntries := fileEntries + [EncodedEntry(file, localHeaderOffset)];
      assert files[..i + 1][..i] == files[..i];
    }
    assert files[..|files|] == files;
  }

  /**
   * The fileEntries.forEach pass of createMinimalZip: pushes one central
   * directory header per entry, in entry order, advancing the cursor.
   */
  method EncodeCentralDirectory(fileEntries: seq<EncodedEntry>, chunks0: seq<seq<Byte>>, offset0: nat)
      returns (chunks: seq<seq<Byte>>, offset: nat)
    ensures chunks == chunks0 + CentralChunks(fileEntries)
    ensures offset == offset0 + DirectorySize(fileEntries)
  {
    chunks, offset := chunks0, offset0;
    for k := 0 to |fileEntries|
      invariant chunks == chunks0 + CentralChunks(fileEntries[..k])
      invariant offset == offset0 + DirectorySize(fileEntries[..k])
    {
      var centralHeader := EncodeCentralHeader(fileEntries[k]);
      chunks := chunks + [centralHeader[..]];
      offset := offset + centralHeader.Length;
      assert fileEntries[..k + 1][..k] == fileEntries[..k];
    }
    assert fileEntries[..|fileEntries|] == fileEntries;
  }

  /**
   * Every header field other than names, sizes, counts and offsets is a
   * constant zero or version, so two calls on the same files give
   * byte-identical archives.
   */
  method SameInputSameBytes(files: seq<LogicalFile>) returns (first: seq<Byte>, second: seq<Byte>)
    ensures first == second
  {
    var a := CreateMinimalZip(files);
    var b := CreateMinimalZip(files);
    first, second := a[..], b[..];
  }

  /** Copies the chunks one after another into a fresh buffer of their total length. */
  method Concatenate(chunks: seq<seq<Byte>>) returns (zip: array<Byte>)
    ensures fresh(zip)
    ensures zip[..] == Flatten(chunks)
  {
    var totalLength := 0;
    for k := 0 to |chunks|
      invariant totalLength == |Flatten(chunks[..k])|
    {
      totalLength := totalLength + |chunks[k]|;
      assert chunks[..k + 1][..k] == chunks[..k];
    }
    assert chunks[..|chunks|] == chunks;

    zip := new Byte[totalLength](_ => 0);
    var position := 0;
    for k := 0 to |chunks|
      invariant zip.Length == |Flatten(chunks)|
      invariant position == |Flatten(chunks[..k])| <= zip.Length
      invariant zip[..position] == Flatten(chunks[..k])
    {
      assert chunks[..k + 1][..k] == chunks[..k];
      FlattenAppend(chunks[..k + 1], chunks[k + 1..]);
      assert chunks[..k + 1] + chunks[k + 1..] == chunks;
      SetBytes(zip, position, chunks[k]);
      position := position + |chunks[k]|;
    }
    assert zip[..] == zip[..position];
  }
}
