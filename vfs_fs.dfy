/** The read-only file system over the packaged asset store (the VFS): a
    table from handle to an in-memory copy of the file and a read cursor. */
module VfsFs {
  import opened Text
  import opened GuestPath
  import opened DirListing

  /** FILEACCESS_READ: the only access mode this file system accepts. */
  const FileAccessRead: nat := 1

  /** Bounds of the signed 64- and 32-bit integers the interface passes. */
  const S64Limit: int := 0x8000_0000_0000_0000
  const S32Limit: int := 0x8000_0000

  predicate IsS64(x: int) { -S64Limit <= x < S64Limit }
  predicate IsS32(x: int) { -S32Limit <= x < S32Limit }

  /** Conversion to `size_t`: reduction modulo 2^64. */
  function Wrap(x: int): (r: nat)
    ensures r < U64 && (x - r) % U64 == 0
    ensures 0 <= x < U64 ==> r == x
  {
    x % U64
  }

  /** Reading a `size_t` back as an `s64` (two's complement). */
  function AsS64(u: nat): (r: int)
    requires u < U64
    ensures IsS64(r) && Wrap(r) == u
  {
    if u < S64Limit then u else u - U64
  }

  datatype FileMove = FileMoveBegin | FileMoveCurrent | FileMoveEnd

  datatype OpenResult = Opened(handle: nat) | OpenFailed(error: PspError)

  /** An open file: its bytes, their count and the cursor, both `size_t`. */
  datatype VfsEntry = VfsEntry(fileData: seq<byte>, size: nat, seekPos: nat)

  predicate EntryValid(e: VfsEntry)
  {
    e.size == |e.fileData| && e.size < U64 && e.seekPos < U64
  }

  /** The byte count ReadFile's clamp computes AS WRITTEN: the comparison and
      the subtraction are done in `size_t`, the result read back as `s64`,
      then a negative count becomes 0. */
  function ReadCountAsWritten(seekPos: nat, size: int, fileSize: nat): (n: nat)
    requires seekPos < U64 && fileSize < U64 && IsS64(size)
    ensures n < S64Limit
    ensures 0 <= size && seekPos + size <= fileSize ==> n == size
  {
    var clamped := if Wrap(seekPos + size) > fileSize then AsS64(Wrap(fileSize - seekPos)) else size;
    if clamped < 0 then 0 else clamped
  }

  /** The byte count the clamp evidently means: as many of the requested
      bytes as lie between the cursor and the end of the file. */
  function ReadCount(seekPos: nat, size: int, fileSize: nat): (n: nat)
    ensures n == 0 || (n <= size && seekPos + n <= fileSize)
    ensures size <= 0 || seekPos >= fileSize ==> n == 0
    ensures size > 0 && seekPos < fileSize ==> n == size || seekPos + n == fileSize
  {
    if size <= 0 || seekPos >= fileSize then 0
    else if seekPos + size > fileSize then fileSize - seekPos
    else size
  }

  /** SeekFile's new cursor: the position, the old cursor plus the position,
      or the size plus the position, reduced to `size_t`. */
  function SeekTarget(seekPos: nat, size: nat, position: int, moveType: FileMove): (p: nat)
    ensures p < U64
    ensures var origin := match moveType
                          case FileMoveBegin => 0
                          case FileMoveCurrent => seekPos
                          case FileMoveEnd => size;
      (origin + position - p) % U64 == 0 &&
      (0 <= origin + position < U64 ==> p == origin + position)
  {
    match moveType
    case FileMoveBegin => Wrap(position)
    case FileMoveCurrent => Wrap(seekPos + position)
    case FileMoveEnd => Wrap(size + position)
  }

  class VFSFileSystem {
    const basePath: string
    /** Open files by handle. */
    var entries: map<nat, VfsEntry>

    ghost predicate Valid()
      reads this
    {
      forall h :: h in entries ==> EntryValid(entries[h])
    }

    constructor (basePath: string)
      ensures this.basePath == basePath && entries == map[] && Valid()
    {
      this.basePath := basePath;
      entries := map[];
    }

    /** The asset-store name of a guest path: the base path, then the guest path. */
    function GetLocalPath(localPath: string): (r: string)
      reads this
      ensures |r| == |basePath| + |localPath|
      ensures r[..|basePath|] == basePath && r[|basePath|..] == localPath
    {
      basePath + localPath
    }

    /** Opens a file for reading. `vfs` is the asset store (name to bytes)
        and `newHandle` the handle the allocator hands out. */
    method OpenFile(filename: string, access: nat, vfs: map<string, seq<byte>>, newHandle: nat)
      returns (r: OpenResult)
      requires Valid()
      requires forall name :: name in vfs ==> |vfs[name]| < U64
      modifies this`entries
      ensures Valid()
      ensures access != FileAccessRead ==>
        r == OpenFailed(InvalidFlag) && entries == old(entries)
      ensures access == FileAccessRead && GetLocalPath(filename) !in vfs ==>
        r == OpenFailed(FileNotFound) && entries == old(entries)
      ensures access == FileAccessRead && GetLocalPath(filename) in vfs ==>
        var data := vfs[GetLocalPath(filename)];
        r == Opened(newHandle) && entries == old(entries)[newHandle := VfsEntry(data, |data|, 0)]
    {
      if access != FileAccessRead {
        return OpenFailed(InvalidFlag);
      }
      var fullName := GetLocalPath(filename);
      if fullName !in vfs {
        return OpenFailed(FileNotFound);
      }
      var data := vfs[fullName];
      entries := entries[newHandle := VfsEntry(data, |data|, 0)];
      return Opened(newHandle);
    }

    /** Closes a handle; an unknown handle changes nothing. */
    method CloseFile(handle: nat)
      requires Valid()
      modifies this`entries
      ensures Valid()
      ensures entries == old(entries) - {handle}
      ensures !OwnsHandle(handle)
    {
      if handle in entries {
        entries := entries - {handle};
      }
    }

    function OwnsHandle(handle: nat): (r: bool)
      reads this
      ensures r <==> handle in entries
    {
      handle in entries
    }

    /** Copies up to `size` bytes from the cursor and advances the cursor by
        the count returned; an unknown handle reads nothing. Uses the
        corrected clamp, ReadCount. */
    method ReadFile(handle: nat, size: int) returns (bytesRead: nat, copied: seq<byte>)
      requires Valid() && IsS64(size)
      modifies this`entries
      ensures Valid()
      ensures handle !in old(entries) ==> bytesRead == 0 && copied == [] && entries == old(entries)
      ensures handle in old(entries) ==>
        var e := old(entries)[handle];
        bytesRead == ReadCount(e.seekPos, size, e.size) &&
        |copied| == bytesRead &&
        (forall i :: 0 <= i < bytesRead ==> copied[i] == e.fileData[e.seekPos + i]) &&
        entries == old(entries)[handle := e.(seekPos := e.seekPos + bytesRead)]
    {
      if handle !in entries {
        return 0, [];
      }
      var e := entries[handle];
      bytesRead := ReadCount(e.seekPos, size, e.size);
      if bytesRead == 0 {
        copied := [];
      } else {
        copied := e.fileData[e.seekPos .. e.seekPos + bytesRead];
      }
      entries := entries[handle := e.(seekPos := e.seekPos + bytesRead)];
    }

    /** Moves the cursor and returns its new value; an unknown handle returns 0. */
    method SeekFile(handle: nat, position: int, moveType: FileMove) returns (newPos: nat)
      requires Valid() && IsS32(position)
      modifies this`entries
      ensures Valid()
      ensures handle !in old(entries) ==> newPos == 0 && entries == old(entries)
      ensures handle in old(entries) ==>
        var e := old(entries)[handle];
        newPos == SeekTarget(e.seekPos, e.size, position, moveType) &&
        entries == old(entries)[handle := e.(seekPos := newPos)]
    {
      if handle !in entries {
        return 0;
      }
      var e := entries[handle];
      newPos := SeekTarget(e.seekPos, e.size, position, moveType);
      entries := entries[handle := e.(seekPos := newPos)];
    }

    /** The file system is read-only: nothing is written. */
    method WriteFile(handle: nat, data: seq<byte>) returns (written: nat)
      ensures written == 0
    {
      written := 0;
    }

    /** Listing is not implemented: no entries, and the directory is reported missing. */
    method GetDirListing(path: string) returns (listing: seq<PspFileInfo>, found: bool)
      ensures listing == [] && !found
    {
      listing, found := [], false;
    }
  }

  /** As written, a negative request whose magnitude exceeds the cursor wraps
      in the comparison and reads the rest of the file. */
  lemma ReadNegativeRequestAsWritten()
    ensures ReadCountAsWritten(10, -20, 100) == 90
    ensures ReadCount(10, -20, 100) == 0
  {
    assert Wrap(10 - 20) == U64 - 10;
    assert Wrap(100 - 10) == 90;
  }

  /** As written, after seeking to -10 from the beginning a 4-byte request
      returns 110: the copy starts at the wrapped cursor, which as an address
      offset is 10 bytes before the buffer, so it reads those 10 bytes from
      outside it and then the whole 100-byte file, and the cursor ends at
      100. */
  lemma ReadWrappedCursorAsWritten()
    ensures var cursor := SeekTarget(0, 100, -10, FileMoveBegin);
      cursor == U64 - 10 &&
      ReadCountAsWritten(cursor, 4, 100) == 110 &&
      cursor - U64 == -10 && (cursor - U64) + 110 == 100 &&
      Wrap(cursor + ReadCountAsWritten(cursor, 4, 100)) == 100 &&
      ReadCount(cursor, 4, 100) == 0
  {
    var cursor := SeekTarget(0, 100, -10, FileMoveBegin);
    assert cursor == U64 - 10;
    assert Wrap(cursor + 4) == U64 - 6;
    assert Wrap(100 - cursor as int) == 110;
    assert Wrap(cursor + 110) == Wrap(U64 + 100) == 100;
  }

  /** For a non-negative request, a cursor and a size below 2^63 the clamp as
      written and the corrected one agree. */
  lemma ReadCountAgrees(seekPos: nat, size: int, fileSize: nat)
    requires 0 <= size < S64Limit && seekPos < S64Limit && fileSize < S64Limit
    ensures ReadCountAsWritten(seekPos, size, fileSize) == ReadCount(seekPos, size, fileSize)
  {
    assert Wrap(seekPos + size) == seekPos + size;
    if seekPos + size > fileSize && seekPos <= fileSize {
      assert Wrap(fileSize - seekPos) == fileSize - seekPos;
    }
    if seekPos > fileSize {
      assert Wrap(fileSize - seekPos) == U64 + fileSize - seekPos;
    }
  }

  /** Two consecutive reads return what one read of the combined size returns. */
  lemma ReadCountConsecutive(seekPos: nat, a: nat, b: nat, fileSize: nat)
    ensures var n := ReadCount(seekPos, a, fileSize);
      n + ReadCount(seekPos + n, b, fileSize) == ReadCount(seekPos, a + b, fileSize)
  {
  }

  /** Two relative seeks compose into one relative seek by the sum. */
  lemma SeekCurrentComposes(seekPos: nat, size: nat, a: int, b: int)
    ensures var p := SeekTarget(seekPos, size, a, FileMoveCurrent);
      SeekTarget(p, size, b, FileMoveCurrent) == SeekTarget(seekPos, size, a + b, FileMoveCurrent)
  {
    var p := SeekTarget(seekPos, size, a, FileMoveCurrent);
    var q := SeekTarget(p, size, b, FileMoveCurrent);
    var r := SeekTarget(seekPos, size, a + b, FileMoveCurrent);
    assert (seekPos + a - p) % U64 == 0;
    assert (p + b - q) % U64 == 0;
    assert (seekPos + a + b - r) % U64 == 0;
    ModSame(seekPos + a + b - q, seekPos + a + b - r, q, r);
  }

  lemma ModSame(x: int, y: int, q: nat, r: nat)
    requires x % U64 == 0 && y % U64 == 0 && q < U64 && r < U64
    requires x - y == r - q
    ensures q == r
  {
  }
}
