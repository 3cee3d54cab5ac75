/**
 * Properties of the archive layout: what each record holds, where every
 * entry and directory record sits in the output, and how the directory's
 * back-references and the end record's totals agree with the running cursor.
 */
module ZipProperties {
  import opened Bytes
  import opened ZipFormat
  import opened Sequences

  /** The fields of a local file header, read back little-endian. */
  lemma LocalHeaderLayout(f: LogicalFile)
    ensures var h := LocalHeader(f);
      && |h| == LOCAL_HEADER_SIZE + |f.name|
      && U32(h, 0) == LOCAL_FILE_HEADER_SIG
      && U16(h, 4) == VERSION_NEEDED
      && U16(h, 6) == 0                      // flags
      && U16(h, 8) == METHOD_STORE
      && U16(h, 10) == 0 && U16(h, 12) == 0  // time, date
      && U32(h, 14) == 0                     // CRC-32
      && U32(h, 18) == |f.content| % TWO_32  // compressed size
      && U32(h, 22) == |f.content| % TWO_32  // uncompressed size
      && U16(h, 26) == |f.name| % TWO_16
      && U16(h, 28) == 0                     // extra field length
      && h[LOCAL_HEADER_SIZE..] == f.name
  {
    LE32Decodes(LOCAL_FILE_HEADER_SIG);
    LE16Decodes(VERSION_NEEDED);
    LE16Decodes(0);
    LE32Decodes(0);
    LE32Decodes(|f.content|);
    LE16Decodes(|f.name|);
  }

  /** The fields of a central directory header, read back little-endian. */
  lemma CentralHeaderLayout(e: EncodedEntry)
    ensures var h := CentralHeader(e);
      && |h| == CENTRAL_HEADER_SIZE + |e.file.name|
      && U32(h, 0) == CENTRAL_FILE_HEADER_SIG
      && U16(h, 4) == VERSION_MADE_BY && U16(h, 6) == VERSION_NEEDED
      && U16(h, 8) == 0                           // flags
      && U16(h, 10) == METHOD_STORE
      && U16(h, 12) == 0 && U16(h, 14) == 0       // time, date
      && U32(h, 16) == 0                          // CRC-32
      && U32(h, 20) == |e.file.content| % TWO_32  // compressed size
      && U32(h, 24) == |e.file.content| % TWO_32  // uncompressed size
      && U16(h, 28) == |e.file.name| % TWO_16
      && U16(h, 30) == 0 && U16(h, 32) == 0       // extra, comment length
      && U16(h, 34) == 0 && U16(h, 36) == 0       // disk start, internal attributes
      && U32(h, 38) == 0                          // external attributes
      && U32(h, 42) == e.localHeaderOffset % TWO_32
      && h[CENTRAL_HEADER_SIZE..] == e.file.name
  {
    LE32Decodes(CENTRAL_FILE_HEADER_SIG);
    LE16Decodes(VERSION_MADE_BY);
    LE16Decodes(0);
    LE32Decodes(0);
    LE32Decodes(|e.file.content|);
    LE16Decodes(|e.file.name|);
    LE32Decodes(e.localHeaderOffset);
  }

  /** The fields of the end of central directory record. */
  lemma EndRecordLayout(count: nat, dirSize: nat, dirOffset: nat)
    ensures var r := EndRecord(count, dirSize, dirOffset);
      && U32(r, 0) == END_OF_CENTRAL_DIR_SIG
      && U16(r, 4) == 0 && U16(r, 6) == 0  // single disk
      && U16(r, 8) == count % TWO_16
      && U16(r, 10) == count % TWO_16
      && U32(r, 12) == dirSize % TWO_32
      && U32(r, 16) == dirOffset % TWO_32
      && U16(r, 20) == 0                   // no archive comment
  {
    LE32Decodes(END_OF_CENTRAL_DIR_SIG);
    LE16Decodes(0);
    LE16Decodes(count);
    LE32Decodes(dirSize);
    LE32Decodes(dirOffset);
  }

  lemma {:induction false} EntriesSizeAppend(a: seq<LogicalFile>, b: seq<LogicalFile>)
    ensures EntriesSize(a + b) == EntriesSize(a) + EntriesSize(b)
    decreases |b|
  {
    if b == [] {
      assert a + b == a;
    } else {
      var b' := b[..|b| - 1];
      assert (a + b)[..|a + b| - 1] == a + b';
      EntriesSizeAppend(a, b');
    }
  }

  lemma {:induction false} DirectorySizeAppend(a: seq<EncodedEntry>, b: seq<EncodedEntry>)
    ensures DirectorySize(a + b) == DirectorySize(a) + DirectorySize(b)
    decreases |b|
  {
    if b == [] {
      assert a + b == a;
    } else {
      var b' := b[..|b| - 1];
      assert (a + b)[..|a + b| - 1] == a + b';
      DirectorySizeAppend(a, b');
    }
  }

  lemma {:induction false} EntryChunksAppend(a: seq<LogicalFile>, b: seq<LogicalFile>)
    ensures EntryChunks(a + b) == EntryChunks(a) + EntryChunks(b)
    decreases |b|
  {
    if b == [] {
      assert a + b == a;
    } else {
      var b' := b[..|b| - 1];
      assert (a + b)[..|a + b| - 1] == a + b';
      EntryChunksAppend(a, b');
    }
  }

  lemma {:induction false} CentralChunksAppend(a: seq<EncodedEntry>, b: seq<EncodedEntry>)
    ensures CentralChunks(a + b) == CentralChunks(a) + CentralChunks(b)
    decreases |b|
  {
    if b == [] {
      assert a + b == a;
    } else {
      var b' := b[..|b| - 1];
      assert (a + b)[..|a + b| - 1] == a + b';
      CentralChunksAppend(a, b');
    }
  }

  /** The local header and content blocks together are as long as the cursor says. */
  lemma {:induction false} EntryBlocksLength(files: seq<LogicalFile>)
    ensures |Flatten(EntryChunks(files))| == EntriesSize(files)
    decreases |files|
  {
    if files != [] {
      var init := files[..|files| - 1];
      var f := files[|files| - 1];
      EntryBlocksLength(init);
      FlattenAppend(EntryChunks(init), [LocalHeader(f), f.content]);
      FlattenPair(LocalHeader(f), f.content);
    }
  }

  /** The directory records together are as long as DirectorySize says. */
  lemma {:induction false} DirectoryBlocksLength(entries: seq<EncodedEntry>)
    ensures |Flatten(CentralChunks(entries))| == DirectorySize(entries)
    decreases |entries|
  {
    if entries != [] {
      var init := entries[..|entries| - 1];
      DirectoryBlocksLength(init);
      FlattenAppend(CentralChunks(init), [CentralHeader(entries[|entries| - 1])]);
      FlattenSingle(CentralHeader(entries[|entries| - 1]));
    }
  }

  /**
   * Entries keep the input order, and entry i's local header offset is the
   * cursor after the blocks of the files before it.
   */
  lemma {:induction false} EncodeEntriesAt(files: seq<LogicalFile>, i: nat)
    requires i < |files|
    ensures EncodeEntries(files)[i] == EncodedEntry(files[i], EntriesSize(files[..i]))
    decreases |files|
  {
    var init := files[..|files| - 1];
    if i < |files| - 1 {
      EncodeEntriesAt(init, i);
      assert init[..i] == files[..i];
    }
  }

  /**
   * The running cursor: the first entry starts at offset 0 and each next entry
   * starts right after the previous entry's header and content.
   */
  lemma RunningCursor(files: seq<LogicalFile>, i: nat)
    requires i < |files|
    ensures EncodeEntries(files)[0].localHeaderOffset == 0
    ensures i + 1 < |files| ==>
      EncodeEntries(files)[i + 1].localHeaderOffset
        == EncodeEntries(files)[i].localHeaderOffset + LOCAL_HEADER_SIZE + |files[i].name| + |files[i].content|
  {
    EncodeEntriesAt(files, 0);
    assert files[..0] == [];
    if i + 1 < |files| {
      EncodeEntriesAt(files, i);
      EncodeEntriesAt(files, i + 1);
      assert files[..i + 1][..i] == files[..i];
    }
  }

  /**
   * The directory cursor: the first record starts where the entry blocks end,
   * and each next record starts right after the previous record.
   */
  lemma RecordCursor(files: seq<LogicalFile>, i: nat)
    requires i < |files|
    ensures RecordOffset(files, 0) == EntriesSize(files)
    ensures RecordOffset(files, i + 1) == RecordOffset(files, i) + CENTRAL_HEADER_SIZE + |files[i].name|
  {
    var entries := EncodeEntries(files);
    EncodeEntriesAt(files, i);
    assert entries[..0] == [];
    assert entries[..i + 1][..i] == entries[..i];
  }

  /** Entry blocks follow the input order: entry i's block ends before entry j's begins. */
  lemma EntriesInOrder(files: seq<LogicalFile>, i: nat, j: nat)
    requires i < j <= |files|
    ensures EntryOffset(files, i) + EntryBlockSize(files[i]) <= EntryOffset(files, j)
  {
    assert files[..j] == files[..i + 1] + files[i + 1..j];
    EntriesSizeAppend(files[..i + 1], files[i + 1..j]);
    assert files[..i + 1][..i] == files[..i];
  }

  /** Directory records follow the input order as well. */
  lemma RecordsInOrder(files: seq<LogicalFile>, i: nat, j: nat)
    requires i < j <= |files|
    ensures RecordOffset(files, i) + CENTRAL_HEADER_SIZE + |files[i].name| <= RecordOffset(files, j)
  {
    var entries := EncodeEntries(files);
    RecordCursor(files, i);
    assert entries[..j] == entries[..i + 1] + entries[i + 1..j];
    DirectorySizeAppend(entries[..i + 1], entries[i + 1..j]);
  }

  /** The archive is the entry blocks, then the directory, then the end record. */
  lemma ZipLayout(files: seq<LogicalFile>)
    ensures var entries := EncodeEntries(files);
      && ZipBytes(files) == Flatten(EntryChunks(files)) + Flatten(CentralChunks(entries))
                            + EndRecord(|files|, DirectorySize(entries), EntriesSize(files))
      && |ZipBytes(files)| == EntriesSize(files) + DirectorySize(entries) + END_RECORD_SIZE
  {
    var entries := EncodeEntries(files);
    var endRecord := EndRecord(|files|, DirectorySize(entries), EntriesSize(files));
    FlattenAppend(EntryChunks(files) + CentralChunks(entries), [endRecord]);
    FlattenAppend(EntryChunks(files), CentralChunks(entries));
    FlattenSingle(endRecord);
    EntryBlocksLength(files);
    DirectoryBlocksLength(entries);
  }

  /** The start of entry i's local header, which the cursor recorded. */
  function EntryOffset(files: seq<LogicalFile>, i: nat): nat
    requires i <= |files|
  {
    EntriesSize(files[..i])
  }

  /** The start of entry i's central directory record. */
  function RecordOffset(files: seq<LogicalFile>, i: nat): nat
    requires i <= |files|
  {
    EntriesSize(files) + DirectorySize(EncodeEntries(files)[..i])
  }

  /** The chunks of the entries split around entry i. */
  lemma EntryChunksSplit(files: seq<LogicalFile>, i: nat)
    requires i < |files|
    ensures EntryChunks(files)
         == EntryChunks(files[..i]) + [LocalHeader(files[i]), files[i].content] + EntryChunks(files[i + 1..])
  {
    var f := files[i];
    var pre, mid, post := files[..i], files[i..], files[i + 1..];
    var pair := [LocalHeader(f), f.content];
    SplitAt(files, i);
    EntryChunksAppend(pre, mid);
    EntryChunksAppend([f], post);
    assert EntryChunks([f]) == pair by {
      assert [f][..0] == [];
    }
    Assoc(EntryChunks(pre), pair, EntryChunks(post));
  }

  /** The entry blocks split around entry i. */
  lemma EntryBlocksSplit(files: seq<LogicalFile>, i: nat)
    requires i < |files|
    ensures Flatten(EntryChunks(files))
         == Flatten(EntryChunks(files[..i])) + (LocalHeader(files[i]) + files[i].content)
            + Flatten(EntryChunks(files[i + 1..]))
  {
    var f := files[i];
    var front, pair, back := EntryChunks(files[..i]), [LocalHeader(f), f.content], EntryChunks(files[i + 1..]);
    EntryChunksSplit(files, i);
    FlattenAppend(front + pair, back);
    FlattenAppend(front, pair);
    FlattenPair(LocalHeader(f), f.content);
  }

  /** The directory chunks split around entry i's record. */
  lemma CentralChunksSplit(entries: seq<EncodedEntry>, i: nat)
    requires i < |entries|
    ensures CentralChunks(entries)
         == CentralChunks(entries[..i]) + [CentralHeader(entries[i])] + CentralChunks(entries[i + 1..])
  {
    var e := entries[i];
    var pre, mid, post := entries[..i], entries[i..], entries[i + 1..];
    var one := [CentralHeader(e)];
    SplitAt(entries, i);
    CentralChunksAppend(pre, mid);
    CentralChunksAppend([e], post);
    assert CentralChunks([e]) == one by {
      assert [e][..0] == [];
    }
    Assoc(CentralChunks(pre), one, CentralChunks(post));
  }

  /** The directory records split around entry i's record. */
  lemma DirectoryBlocksSplit(entries: seq<EncodedEntry>, i: nat)
    requires i < |entries|
    ensures Flatten(CentralChunks(entries))
         == Flatten(CentralChunks(entries[..i])) + CentralHeader(entries[i])
            + Flatten(CentralChunks(entries[i + 1..]))
  {
    var front, one, back := CentralChunks(entries[..i]), [CentralHeader(entries[i])], CentralChunks(entries[i + 1..]);
    CentralChunksSplit(entries, i);
    FlattenAppend(front + one, back);
    FlattenAppend(front, one);
    FlattenSingle(CentralHeader(entries[i]));
  }

  /** Entry i's local header and content sit at its recorded offset. */
  lemma EntryAt(files: seq<LogicalFile>, i: nat)
    requires i < |files|
    ensures EntryOffset(files, i) + EntryBlockSize(files[i]) <= EntriesSize(files) < |ZipBytes(files)|
    ensures var o := EntryOffset(files, i);
      ZipBytes(files)[o..o + EntryBlockSize(files[i])] == LocalHeader(files[i]) + files[i].content
  {
    var entries := EncodeEntries(files);
    var front := Flatten(EntryChunks(files[..i]));
    var block := LocalHeader(files[i]) + files[i].content;
    var rest := Flatten(EntryChunks(files[i + 1..]));
    var directory := Flatten(CentralChunks(entries));
    var endRecord := EndRecord(|files|, DirectorySize(entries), EntriesSize(files));
    var z := ZipBytes(files);
    ZipLayout(files);
    assert z == Flatten(EntryChunks(files)) + directory + endRecord;
    EntryBlocksSplit(files, i);
    assert z == front + block + rest + directory + endRecord;
    EntryBlocksLength(files[..i]);
    EntryBlocksLength(files);
    Regroup(front, block, rest, directory, endRecord);
    SliceMiddle(front, block, rest + directory + endRecord);
  }

  /** Entry i's central directory record sits at RecordOffset(files, i). */
  lemma CentralAt(files: seq<LogicalFile>, i: nat)
    requires i < |files|
    ensures RecordOffset(files, i) + CENTRAL_HEADER_SIZE + |files[i].name| + END_RECORD_SIZE <= |ZipBytes(files)|
    ensures var p := RecordOffset(files, i);
      ZipBytes(files)[p..p + CENTRAL_HEADER_SIZE + |files[i].name|]
        == CentralHeader(EncodedEntry(files[i], EntryOffset(files, i)))
  {
    var entries := EncodeEntries(files);
    EncodeEntriesAt(files, i);
    var blocks := Flatten(EntryChunks(files));
    var before := Flatten(CentralChunks(entries[..i]));
    var record := CentralHeader(entries[i]);
    var rest := Flatten(CentralChunks(entries[i + 1..]));
    var endRecord := EndRecord(|files|, DirectorySize(entries), EntriesSize(files));
    var z := ZipBytes(files);
    ZipLayout(files);
    assert z == blocks + Flatten(CentralChunks(entries)) + endRecord;
    DirectoryBlocksSplit(entries, i);
    assert z == blocks + (before + record + rest) + endRecord;
    DirectoryBlocksLength(entries[..i]);
    EntryBlocksLength(files);
    Regroup(blocks, before, record, rest, endRecord);
    SliceMiddle(blocks + before, record, rest + endRecord);
  }

  /**
   * What a reader finds at offset o of z for file f: a stored local header
   * giving the content length as both sizes and no extra field, then the
   * name, then the content.
   */
  predicate LocalBlockAt(z: seq<Byte>, o: nat, f: LogicalFile)
  {
    && o + EntryBlockSize(f) <= |z|
    && U32(z, o) == LOCAL_FILE_HEADER_SIG
    && U16(z, o + 8) == METHOD_STORE
    && U32(z, o + 18) == |f.content| && U32(z, o + 22) == |f.content|
    && U16(z, o + 26) == |f.name| && U16(z, o + 28) == 0
    && z[o + LOCAL_HEADER_SIZE..o + LOCAL_HEADER_SIZE + |f.name|] == f.name
    && z[o + LOCAL_HEADER_SIZE + |f.name|..o + EntryBlockSize(f)] == f.content
  }

  /**
   * What a reader finds at offset p of z for file f: a central directory
   * record giving the content length as both sizes, the name length with no
   * extra field and no comment, the local header offset lho, and the name.
   */
  predicate RecordAt(z: seq<Byte>, p: nat, f: LogicalFile, lho: nat)
  {
    && p + CENTRAL_HEADER_SIZE + |f.name| <= |z|
    && U32(z, p) == CENTRAL_FILE_HEADER_SIG
    && U16(z, p + 10) == METHOD_STORE
    && U32(z, p + 20) == |f.content| && U32(z, p + 24) == |f.content|
    && U16(z, p + 28) == |f.name| && U16(z, p + 30) == 0 && U16(z, p + 32) == 0
    && U32(z, p + 42) == lho
    && z[p + CENTRAL_HEADER_SIZE..p + CENTRAL_HEADER_SIZE + |f.name|] == f.name
  }

  /**
   * What a reader finds in the last 22 bytes of z: a single-disk end record
   * with the given count (twice), directory size and directory offset.
   */
  predicate EndRecordAt(z: seq<Byte>, count: nat, dirSize: nat, dirOffset: nat)
  {
    && END_RECORD_SIZE <= |z|
    && U32(z, |z| - END_RECORD_SIZE) == END_OF_CENTRAL_DIR_SIG
    && U16(z, |z| - END_RECORD_SIZE + 4) == 0 && U16(z, |z| - END_RECORD_SIZE + 6) == 0
    && U16(z, |z| - END_RECORD_SIZE + 8) == count && U16(z, |z| - END_RECORD_SIZE + 10) == count
    && U32(z, |z| - END_RECORD_SIZE + 12) == dirSize
    && U32(z, |z| - END_RECORD_SIZE + 16) == dirOffset
    && U16(z, |z| - END_RECORD_SIZE + 20) == 0
  }

  /** The fields of a local header and content block found at offset o of z. */
  lemma LocalBlockFields(z: seq<Byte>, o: nat, f: LogicalFile)
    requires |f.name| < TWO_16 && |f.content| < TWO_32
    requires o + EntryBlockSize(f) <= |z| && z[o..o + EntryBlockSize(f)] == LocalHeader(f) + f.content
    ensures LocalBlockAt(z, o, f)
  {
    LocalBlockData(z, o, f);
    var block := LocalHeader(f) + f.content;
    LocalHeaderLayout(f);
    FitsUnchanged(|f.content|, TWO_32);
    FitsUnchanged(|f.name|, TWO_16);
    U32InSlice(z, o, block, 0);
    U16InSlice(z, o, block, 8);
    U32InSlice(z, o, block, 18);
    U32InSlice(z, o, block, 22);
    U16InSlice(z, o, block, 26);
    U16InSlice(z, o, block, 28);
  }

  /** The name and the content of a local block found at offset o of z. */
  lemma LocalBlockData(z: seq<Byte>, o: nat, f: LogicalFile)
    requires o + EntryBlockSize(f) <= |z| && z[o..o + EntryBlockSize(f)] == LocalHeader(f) + f.content
    ensures z[o + LOCAL_HEADER_SIZE..o + LOCAL_HEADER_SIZE + |f.name|] == f.name
    ensures z[o + LOCAL_HEADER_SIZE + |f.name|..o + EntryBlockSize(f)] == f.content
  {
    var block := LocalHeader(f) + f.content;
    LocalHeaderLayout(f);
    Halves(LocalHeader(f), f.content);
    SubSlice(z, o, block, LOCAL_HEADER_SIZE, LOCAL_HEADER_SIZE + |f.name|);
    SubSlice(z, o, block, LOCAL_HEADER_SIZE + |f.name|, |block|);
    assert block[LOCAL_HEADER_SIZE..LOCAL_HEADER_SIZE + |f.name|] == LocalHeader(f)[LOCAL_HEADER_SIZE..];
  }

  /** The fields of a central directory record found at offset p of z. */
  lemma RecordFields(z: seq<Byte>, p: nat, e: EncodedEntry)
    requires |e.file.name| < TWO_16 && |e.file.content| < TWO_32 && e.localHeaderOffset < TWO_32
    requires p + CENTRAL_HEADER_SIZE + |e.file.name| <= |z|
    requires z[p..p + CENTRAL_HEADER_SIZE + |e.file.name|] == CentralHeader(e)
    ensures RecordAt(z, p, e.file, e.localHeaderOffset)
  {
    var h := CentralHeader(e);
    CentralHeaderLayout(e);
    FitsUnchanged(|e.file.content|, TWO_32);
    FitsUnchanged(|e.file.name|, TWO_16);
    FitsUnchanged(e.localHeaderOffset, TWO_32);
    U32InSlice(z, p, h, 0);
    U16InSlice(z, p, h, 10);
    U32InSlice(z, p, h, 20);
    U32InSlice(z, p, h, 24);
    U16InSlice(z, p, h, 28);
    U16InSlice(z, p, h, 30);
    U16InSlice(z, p, h, 32);
    U32InSlice(z, p, h, 42);
    assert z[p + CENTRAL_HEADER_SIZE..p + CENTRAL_HEADER_SIZE + |e.file.name|] == h[CENTRAL_HEADER_SIZE..];
  }

  /** The fields of the end record closing z. */
  lemma EndFields(z: seq<Byte>, count: nat, dirSize: nat, dirOffset: nat)
    requires count < TWO_16 && dirSize < TWO_32 && dirOffset < TWO_32
    requires END_RECORD_SIZE <= |z| && z[|z| - END_RECORD_SIZE..] == EndRecord(count, dirSize, dirOffset)
    ensures EndRecordAt(z, count, dirSize, dirOffset)
  {
    var r := EndRecord(count, dirSize, dirOffset);
    var e := |z| - END_RECORD_SIZE;
    EndRecordLayout(count, dirSize, dirOffset);
    FitsUnchanged(count, TWO_16);
    FitsUnchanged(dirSize, TWO_32);
    FitsUnchanged(dirOffset, TWO_32);
    assert z[e..e + |r|] == r;
    U32InSlice(z, e, r, 0);
    U16InSlice(z, e, r, 4);
    U16InSlice(z, e, r, 6);
    U16InSlice(z, e, r, 8);
    U16InSlice(z, e, r, 10);
    U32InSlice(z, e, r, 12);
    U32InSlice(z, e, r, 16);
    U16InSlice(z, e, r, 20);
  }

  /** Under Fits the name length and the size of file i fit their fields. */
  lemma FileFits(files: seq<LogicalFile>, i: nat)
    requires Fits(files) && i < |files|
    ensures |files[i].name| < TWO_16 && |files[i].content| < TWO_32
  {
    EntryAt(files, i);
  }

  /** Under Fits the local header offset of entry i fits its 32-bit field. */
  lemma OffsetFits(files: seq<LogicalFile>, i: nat)
    requires Fits(files) && i < |files|
    ensures EntryOffset(files, i) < TWO_32
  {
    EntryAt(files, i);
  }

  /**
   * Entry i's local header sits at the offset the cursor recorded for it,
   * starts with the local signature, gives the content length as both sizes,
   * and is followed by the name and the content verbatim.
   */
  lemma LocalHeaderAt(files: seq<LogicalFile>, i: nat, z: seq<Byte>)
    requires Fits(files) && i < |files| && z == ZipBytes(files)
    ensures LocalBlockAt(z, EntryOffset(files, i), files[i])
  {
    FileFits(files, i);
    EntryAt(files, i);
    LocalBlockFields(z, EntryOffset(files, i), files[i]);
  }

  /**
   * Entry i's central record sits at RecordOffset(files, i), starts with the
   * central signature, gives the content length as both sizes, carries the
   * name, and its offset field is entry i's recorded local header offset.
   */
  lemma CentralRecordAt(files: seq<LogicalFile>, i: nat, z: seq<Byte>)
    requires Fits(files) && i < |files| && z == ZipBytes(files)
    ensures RecordAt(z, RecordOffset(files, i), files[i], EntryOffset(files, i))
  {
    FileFits(files, i);
    OffsetFits(files, i);
    CentralAt(files, i);
    RecordFields(z, RecordOffset(files, i), EncodedEntry(files[i], EntryOffset(files, i)));
  }

  /** Entry i's record refers back to entry i's local header, which begins with its signature. */
  lemma OffsetConsistency(files: seq<LogicalFile>, i: nat, z: seq<Byte>)
    requires Fits(files) && i < |files| && z == ZipBytes(files)
    ensures RecordOffset(files, i) + CENTRAL_HEADER_SIZE <= |z|
    ensures U32(z, RecordOffset(files, i) + 42) + LOCAL_HEADER_SIZE <= |z|
    ensures U32(z, U32(z, RecordOffset(files, i) + 42)) == LOCAL_FILE_HEADER_SIG
  {
    CentralRecordAt(files, i, z);
    LocalHeaderAt(files, i, z);
  }

  /** The last 22 bytes are the end record of the given totals. */
  lemma EndRecordAtEnd(files: seq<LogicalFile>, z: seq<Byte>)
    requires z == ZipBytes(files)
    ensures |z| == EntriesSize(files) + DirectorySize(EncodeEntries(files)) + END_RECORD_SIZE
    ensures z[|z| - END_RECORD_SIZE..] == EndRecord(|files|, DirectorySize(EncodeEntries(files)), EntriesSize(files))
  {
    ZipLayout(files);
  }

  /**
   * The end record closes the archive; its counts are the number of files,
   * and its directory size and offset locate the directory exactly between
   * the entry blocks and the end record.
   */
  lemma EndRecordAccuracy(files: seq<LogicalFile>, z: seq<Byte>)
    requires Fits(files) && z == ZipBytes(files)
    ensures |z| == EntriesSize(files) + DirectorySize(EncodeEntries(files)) + END_RECORD_SIZE
    ensures EndRecordAt(z, |files|, DirectorySize(EncodeEntries(files)), EntriesSize(files))
  {
    EndRecordAtEnd(files, z);
    EndFields(z, |files|, DirectorySize(EncodeEntries(files)), EntriesSize(files));
  }

  /**
   * The directory starts right after the entry blocks, with the first file's
   * record, whose local header offset is 0.
   */
  lemma DirectoryStartsAtOffset(files: seq<LogicalFile>, z: seq<Byte>)
    requires Fits(files) && files != [] && z == ZipBytes(files)
    ensures RecordAt(z, EntriesSize(files), files[0], 0)
  {
    RecordCursor(files, 0);
    assert files[..0] == [];
    CentralRecordAt(files, 0, z);
  }

  /**
   * Without Fits the fields silently wrap: with 65536 files both count fields
   * of the end record read 0.
   */
  lemma CountFieldWraps(files: seq<LogicalFile>)
    requires |files| == TWO_16
    ensures var z := ZipBytes(files);
      U16(z, |z| - END_RECORD_SIZE + 8) == 0 && U16(z, |z| - END_RECORD_SIZE + 10) == 0
  {
    var z, entries := ZipBytes(files), EncodeEntries(files);
    var endRecord := EndRecord(|files|, DirectorySize(entries), EntriesSize(files));
    var e := |z| - END_RECORD_SIZE;
    EndRecordAtEnd(files, z);
    EndRecordLayout(|files|, DirectorySize(entries), EntriesSize(files));
    U16InSlice(z, e, endRecord, 8);
    U16InSlice(z, e, endRecord, 10);
  }

  /**
   * The two-file example: a.txt holding "hi" and an empty b.txt give
   * (30+5+2) + (30+5+0) + (46+5) + (46+5) + 22 = 196 bytes.
   */
  lemma ExampleLength()
    ensures var a := LogicalFile([0x61, 0x2e, 0x74, 0x78, 0x74], [0x68, 0x69]);
      var b := LogicalFile([0x62, 0x2e, 0x74, 0x78, 0x74], []);
      |ZipBytes([a, b])| == 196
  {
    var a := LogicalFile([0x61, 0x2e, 0x74, 0x78, 0x74], [0x68, 0x69]);
    var b := LogicalFile([0x62, 0x2e, 0x74, 0x78, 0x74], []);
    var files := [a, b];
    ZipLayout(files);
    assert files[..1] == [a] && files[..1][..0] == [];
    assert EntriesSize(files) == 37 + 35;
    var entries := EncodeEntries(files);
    EncodeEntriesAt(files, 0);
    EncodeEntriesAt(files, 1);
    assert entries[..1][..0] == [];
    assert DirectorySize(entries[..1]) == 51;
    assert DirectorySize(entries) == 51 + 51;
  }
}
