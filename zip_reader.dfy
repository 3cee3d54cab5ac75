/**
 * An independent reader for stored archives, following the extraction
 * procedure of the ZIP Application Note: find the end of central directory
 * record in the last 22 bytes, walk the central directory from the offset it
 * gives, and for each record follow the local header offset to the content.
 * It is the partner of createMinimalZip: reading back what the writer
 * produced gives the input files, in order, whenever every field fits.
 */
module ZipReader {
  import opened Bytes
  import opened ZipFormat
  import opened ZipProperties

  datatype Option<T> = None | Some(value: T)

  /** The content of a stored entry whose local header starts at lho, or None. */
  function ReadLocal(z: seq<Byte>, lho: nat, size: nat): (r: Option<seq<Byte>>)
    ensures r.Some? ==> |r.value| == size
  {
    if lho + LOCAL_HEADER_SIZE > |z| then None
    else if U32(z, lho) != LOCAL_FILE_HEADER_SIG || U16(z, lho + 8) != METHOD_STORE then None
    else
      var start := lho + LOCAL_HEADER_SIZE + U16(z, lho + 26) + U16(z, lho + 28);
      if start + size > |z| then None
      else Some(z[start..start + size])
  }

  /**
   * The file described by the central directory record at pos, and the
   * position of the record after it, or None.
   */
  function ReadEntry(z: seq<Byte>, pos: nat): (r: Option<(LogicalFile, nat)>)
    ensures r.Some? ==> r.value.1 >= pos + CENTRAL_HEADER_SIZE + |r.value.0.name|
  {
    if pos + CENTRAL_HEADER_SIZE > |z| || U32(z, pos) != CENTRAL_FILE_HEADER_SIG then None
    else
      var nameLength := U16(z, pos + 28);
      var next := pos + CENTRAL_HEADER_SIZE + nameLength + U16(z, pos + 30) + U16(z, pos + 32);
      if pos + CENTRAL_HEADER_SIZE + nameLength > |z| then None
      else
        var name := z[pos + CENTRAL_HEADER_SIZE..pos + CENTRAL_HEADER_SIZE + nameLength];
        match ReadLocal(z, U32(z, pos + 42), U32(z, pos + 20))
        case None => None
        case Some(content) => Some((LogicalFile(name, content), next))
  }

  /** The count files described by the central directory records starting at pos, or None. */
  function ReadDirectory(z: seq<Byte>, pos: nat, count: nat): (r: Option<seq<LogicalFile>>)
    ensures r.Some? ==> |r.value| == count
    decreases count
  {
    if count == 0 then Some([])
    else
      match ReadEntry(z, pos)
      case None => None
      case Some((file, next)) =>
        match ReadDirectory(z, next, count - 1)
        case None => None
        case Some(rest) => Some([file] + rest)
  }

  /** The files of an archive without a trailing comment, or None. */
  function ReadZip(z: seq<Byte>): (r: Option<seq<LogicalFile>>)
    ensures r.Some? ==> |z| >= END_RECORD_SIZE && |r.value| == U16(z, |z| - END_RECORD_SIZE + 10)
  {
    if |z| < END_RECORD_SIZE then None
    else
      var e := |z| - END_RECORD_SIZE;
      if U32(z, e) != END_OF_CENTRAL_DIR_SIG then None
      else ReadDirectory(z, U32(z, e + 16), U16(z, e + 10))
  }

  /** A local block written for f reads back as f's content. */
  lemma ReadLocalBlock(z: seq<Byte>, lho: nat, f: LogicalFile)
    requires LocalBlockAt(z, lho, f)
    ensures ReadLocal(z, lho, |f.content|) == Some(f.content)
  {
  }

  /** A directory record for f pointing at a local header from which f's content reads back, reads back as f. */
  lemma ReadEntryAt(z: seq<Byte>, p: nat, f: LogicalFile, lho: nat, next: nat)
    requires RecordAt(z, p, f, lho) && ReadLocal(z, lho, |f.content|) == Some(f.content)
    requires next == p + CENTRAL_HEADER_SIZE + |f.name|
    ensures ReadEntry(z, p) == Some((f, next))
  {
    var nameLength := U16(z, p + 28);
    assert nameLength == |f.name|;
    assert ReadLocal(z, U32(z, p + 42), U32(z, p + 20)) == Some(f.content);
    assert z[p + CENTRAL_HEADER_SIZE..p + CENTRAL_HEADER_SIZE + nameLength] == f.name;
  }

  /** A record that reads back as f, followed by count records that read back as rest. */
  lemma ReadRecord(z: seq<Byte>, p: nat, f: LogicalFile, next: nat, count: nat, rest: seq<LogicalFile>)
    requires ReadEntry(z, p) == Some((f, next))
    requires ReadDirectory(z, next, count) == Some(rest)
    ensures ReadDirectory(z, p, count + 1) == Some([f] + rest)
  {
  }

  /** An end record locating a directory that reads back as files makes the archive read back as files. */
  lemma ReadArchive(z: seq<Byte>, dirSize: nat, dirOffset: nat, files: seq<LogicalFile>)
    requires EndRecordAt(z, |files|, dirSize, dirOffset)
    requires ReadDirectory(z, dirOffset, |files|) == Some(files)
    ensures ReadZip(z) == Some(files)
  {
  }

  /** Entry i, written in place, reads back as files[i], and the next record follows it. */
  lemma EntryInPlaceReadsBack(files: seq<LogicalFile>, z: seq<Byte>, i: nat)
    requires i < |files|
    requires RecordAt(z, RecordOffset(files, i), files[i], EntryOffset(files, i))
    requires LocalBlockAt(z, EntryOffset(files, i), files[i])
    ensures ReadEntry(z, RecordOffset(files, i)) == Some((files[i], RecordOffset(files, i + 1)))
  {
    RecordCursor(files, i);
    ReadLocalBlock(z, EntryOffset(files, i), files[i]);
    ReadEntryAt(z, RecordOffset(files, i), files[i], EntryOffset(files, i), RecordOffset(files, i + 1));
  }

  /** Under Fits, entry i of the archive reads back as files[i], and the next record follows it. */
  lemma EntryReadsBack(files: seq<LogicalFile>, z: seq<Byte>, i: nat)
    requires Fits(files) && z == ZipBytes(files) && i < |files|
    ensures ReadEntry(z, RecordOffset(files, i)) == Some((files[i], RecordOffset(files, i + 1)))
  {
    CentralRecordAt(files, i, z);
    LocalHeaderAt(files, i, z);
    EntryInPlaceReadsBack(files, z, i);
  }

  /**
   * Records at positions[0], positions[1], ... that read back as files[0],
   * files[1], ..., each followed by the next, read back as files.
   */
  lemma {:induction false} DirectoryReadsBack(z: seq<Byte>, positions: seq<nat>, files: seq<LogicalFile>)
    requires |positions| == |files| + 1
    requires forall i :: 0 <= i < |files| ==> ReadEntry(z, positions[i]) == Some((files[i], positions[i + 1]))
    ensures ReadDirectory(z, positions[0], |files|) == Some(files)
    decreases |files|
  {
    if files != [] {
      var rest := files[1..];
      assert forall i :: 0 <= i < |rest| ==> ReadEntry(z, positions[1..][i]) == Some((rest[i], positions[1..][i + 1])) by {
        forall i | 0 <= i < |rest|
          ensures ReadEntry(z, positions[1..][i]) == Some((rest[i], positions[1..][i + 1]))
        {
          assert positions[1..][i] == positions[i + 1] && positions[1..][i + 1] == positions[i + 2];
          assert rest[i] == files[i + 1];
        }
      }
      DirectoryReadsBack(z, positions[1..], rest);
      ReadRecord(z, positions[0], files[0], positions[1], |rest|, rest);
      assert [files[0]] + rest == files;
    }
  }

  /** Under Fits every entry of the archive reads back, each followed by the next. */
  lemma AllEntriesReadBack(files: seq<LogicalFile>, z: seq<Byte>)
    requires Fits(files) && z == ZipBytes(files)
    ensures forall i {:trigger ReadEntry(z, RecordOffset(files, i))} :: 0 <= i < |files| ==>
      ReadEntry(z, RecordOffset(files, i)) == Some((files[i], RecordOffset(files, i + 1)))
  {
    forall i | 0 <= i < |files|
      ensures ReadEntry(z, RecordOffset(files, i)) == Some((files[i], RecordOffset(files, i + 1)))
    {
      EntryReadsBack(files, z, i);
    }
  }

  /** Records at the writer's offsets that each read back make the whole directory read back. */
  lemma RecordsReadBack(files: seq<LogicalFile>, z: seq<Byte>, start: nat)
    requires forall i {:trigger ReadEntry(z, RecordOffset(files, i))} :: 0 <= i < |files| ==>
      ReadEntry(z, RecordOffset(files, i)) == Some((files[i], RecordOffset(files, i + 1)))
    requires start == RecordOffset(files, 0)
    ensures ReadDirectory(z, start, |files|) == Some(files)
  {
    var positions: seq<nat> := seq(|files| + 1, i requires 0 <= i <= |files| => RecordOffset(files, i));
    forall i | 0 <= i < |files|
      ensures ReadEntry(z, positions[i]) == Some((files[i], positions[i + 1]))
    {
      assert positions[i] == RecordOffset(files, i) && positions[i + 1] == RecordOffset(files, i + 1);
    }
    DirectoryReadsBack(z, positions, files);
  }

  /** The directory of the archive, from the first record on, reads back as the input files. */
  lemma ArchiveDirectoryReadsBack(files: seq<LogicalFile>, z: seq<Byte>)
    requires Fits(files) && z == ZipBytes(files)
    ensures ReadDirectory(z, EntriesSize(files), |files|) == Some(files)
  {
    assert EncodeEntries(files)[..0] == [];
    AllEntriesReadBack(files, z);
    RecordsReadBack(files, z, EntriesSize(files));
  }

  /** Reading back the archive createMinimalZip writes gives the input files, in order. */
  lemma RoundTrip(files: seq<LogicalFile>)
    requires Fits(files)
    ensures ReadZip(ZipBytes(files)) == Some(files)
  {
    var z := ZipBytes(files);
    ArchiveDirectoryReadsBack(files, z);
    EndRecordAccuracy(files, z);
    ReadArchive(z, DirectorySize(EncodeEntries(files)), EntriesSize(files), files);
  }

  /**
   * The two-file example reads back as a.txt holding "hi" and then the empty
   * b.txt, whose local block at offset 37 is a well-formed zero-length entry.
   */
  lemma ExampleReadsBack()
    ensures var a := LogicalFile([0x61, 0x2e, 0x74, 0x78, 0x74], [0x68, 0x69]);
      var b := LogicalFile([0x62, 0x2e, 0x74, 0x78, 0x74], []);
      && ReadZip(ZipBytes([a, b])) == Some([a, b])
      && LocalBlockAt(ZipBytes([a, b]), 37, b)
  {
    var a := LogicalFile([0x61, 0x2e, 0x74, 0x78, 0x74], [0x68, 0x69]);
    var b := LogicalFile([0x62, 0x2e, 0x74, 0x78, 0x74], []);
    var files := [a, b];
    ExampleLength();
    ZipLayout(files);
    assert Fits(files);
    RoundTrip(files);
    LocalHeaderAt(files, 1, ZipBytes(files));
    assert files[..1] == [a] && files[..1][..0] == [];
    assert EntryOffset(files, 1) == 37;
  }

  /**
   * Without Fits the round trip fails: with 65536 files the wrapped count
   * fields make a reader see a different number of files.
   */
  lemma WrappedCountLosesFiles(files: seq<LogicalFile>)
    requires |files| == TWO_16
    ensures ReadZip(ZipBytes(files)) != Some(files)
  {
    CountFieldWraps(files);
  }
}
