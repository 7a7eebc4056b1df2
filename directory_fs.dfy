/** The directory-backed file system: its two guest-to-host path mappings,
    its open-file table, the rename destination check and the directory
    listing. Host file operations are not part of this model. */
module DirectoryFs {
  import opened Text
  import opened GuestPath
  import opened DirListing

  /** An open file: its guest name and access mode (the host handle inside is left out). */
  datatype OpenFileEntry = OpenFileEntry(guestFilename: string, access: nat)

  /** A file opened on the host on behalf of the guest; the model keeps only
      the file-system flags it was opened with. */
  class DirectoryFileHandle {
    var fileSystemFlags: FsFlags

    constructor (flags: FsFlags)
      ensures fileSystemFlags == flags
    {
      fileSystemFlags := flags;
    }

    /** The handle's copy of the guest-to-host path mapping. */
    function GetLocalPath(basePath: string, localPath: string): (r: HostPath)
      reads this
      ensures r == LocalPath(fileSystemFlags, basePath, localPath)
    {
      if localPath == [] then Base(basePath)
      else
        var erased := if localPath[0] == '/' then localPath[1..] else localPath;
        var stripped :=
          if !fileSystemFlags.stripPsp then erased
          else if erased == "PSP" then "/"
          else if StartsWithNoCase(erased, "PSP/") then erased[4..]
          else erased;
        Join(basePath, stripped)
    }
  }

  /** The host's part in a rename, which a case-sensitive file system
      consults: FixPathCase's answer for the destination and, once the first
      rename has failed, for the source (None when no existing path matches
      it), and the host's answers to the first and to the retried rename. A
      case-insensitive file system only asks for the first rename. */
  datatype HostRename = HostRename(fixedTo: Option<string>, firstOk: bool, fixedFrom: Option<string>, retryOk: bool)

  /** One host rename call: move `src` to `dst`. */
  datatype Move = Move(src: HostPath, dst: HostPath)

  /** What RenameFile did: refused before touching any file because the
      destination is the source; gave up because a case fix failed, after
      the host calls in `moves`; or made the host calls in `moves`, the last
      of which succeeded or not. */
  datatype RenameResult =
    | AlreadyExistsUntouched
    | CaseFixFailed(moves: seq<Move>)
    | RenameAttempt(moves: seq<Move>, renamed: bool)

  /** The status codes of RenameFile: 0, -1, or a PSP kernel error. */
  datatype RenameCode = Success | Failure | Error(error: PspError)

  /** The status RenameFile returns for an outcome: 0 on success, -1 when a
      case fix failed, and FILE_ALREADY_EXISTS for every other failure. */
  function RenameStatus(r: RenameResult): (code: RenameCode)
    ensures code == Success <==> r.RenameAttempt? && r.renamed
    ensures code == Failure <==> r.CaseFixFailed?
    ensures code.Error? ==> code.error == FileAlreadyExists
  {
    match r
    case AlreadyExistsUntouched => Error(FileAlreadyExists)
    case CaseFixFailed(_) => Failure
    case RenameAttempt(_, ok) => if ok then Success else Error(FileAlreadyExists)
  }

  class DirectoryFileSystem {
    const basePath: string
    var flags: FsFlags
    /** Open files by handle. */
    var entries: map<nat, OpenFileEntry>
    /** Handles given back to the handle allocator, in order. */
    var freedHandles: seq<nat>

    constructor (basePath: string, flags: FsFlags)
      ensures this.basePath == basePath && this.flags == flags
      ensures entries == map[] && freedHandles == []
    {
      this.basePath := basePath;
      this.flags := flags;
      entries := map[];
      freedHandles := [];
    }

    /** The file system's copy of the guest-to-host path mapping. */
    function GetLocalPath(internalPath: string): (r: HostPath)
      reads this
      ensures r == LocalPath(flags, basePath, internalPath)
    {
      if internalPath == [] then Base(basePath)
      else
        var erased := if internalPath[0] == '/' then internalPath[1..] else internalPath;
        var stripped :=
          if !flags.stripPsp then erased
          else if erased == "PSP" then "/"
          else if StartsWithNoCase(erased, "PSP/") then erased[4..]
          else erased;
        Join(basePath, stripped)
    }

    /** The guest name the host rename moves to: the destination, with its
        case fixed on a case-sensitive file system. */
    function RenameTarget(from: string, to: string, host: HostRename): string
      reads this
    {
      if flags.caseSensitive && host.fixedTo.Some? then host.fixedTo.value else RenameDestination(from, to)
    }

    /** RenameFile: the destination is `from`'s directory followed by `to`'s
        last component, and a destination equal to `from` is refused before
        any host call. A case-sensitive file system first fixes the case of
        the destination and, when the rename fails, of the source, and then
        retries once. `host` stands for the host's answers. */
    function RenameFile(from: string, to: string, host: HostRename): (r: RenameResult)
      reads this
      ensures r.AlreadyExistsUntouched? <==> from == RenameDestination(from, to)
      ensures r.CaseFixFailed? <==> (from != RenameDestination(from, to) && flags.caseSensitive &&
        (host.fixedTo.None? || (!host.firstOk && host.fixedFrom.None?)))
      ensures !flags.caseSensitive && !r.AlreadyExistsUntouched? ==>
        r == RenameAttempt([Move(LocalPath(flags, basePath, from),
                                 LocalPath(flags, basePath, RenameDestination(from, to)))], host.firstOk)
      ensures r.RenameAttempt? ==>
        (r.renamed <==> host.firstOk || (flags.caseSensitive && host.retryOk))
      ensures !r.AlreadyExistsUntouched? ==> |r.moves| <= 2
      ensures !r.AlreadyExistsUntouched? && r.moves != [] ==>
        r.moves[0].src == LocalPath(flags, basePath, from)
      ensures !r.AlreadyExistsUntouched? && |r.moves| == 2 ==>
        (flags.caseSensitive && !host.firstOk && host.fixedFrom.Some? &&
         r.moves[1].src == LocalPath(flags, basePath, host.fixedFrom.value))
      ensures !r.AlreadyExistsUntouched? ==> forall k :: 0 <= k < |r.moves| ==>
        r.moves[k].dst == LocalPath(flags, basePath, RenameTarget(from, to, host))
    {
      var fullTo := RenameDestination(from, to);
      if from == fullTo then AlreadyExistsUntouched
      else
        var fullFrom := GetLocalPath(from);
        if flags.caseSensitive && host.fixedTo.None? then CaseFixFailed([])
        else
          var fullToPath := GetLocalPath(if flags.caseSensitive then host.fixedTo.value else fullTo);
          var first := Move(fullFrom, fullToPath);
          if host.firstOk || !flags.caseSensitive then RenameAttempt([first], host.firstOk)
          else if host.fixedFrom.None? then CaseFixFailed([first])
          else RenameAttempt([first, Move(GetLocalPath(host.fixedFrom.value), fullToPath)], host.retryOk)
    }

    /** Lists a guest directory. `hostFiles` is the host listing of
        GetLocalPath(path), None when the host could not list it; `ctx`
        carries the compatibility setting and disc ID the source reads from
        globals. Returns the entries and whether the directory exists. */
    method GetDirListing(path: string, hostFiles: Option<seq<FileInfo>>, ctx: ListingContext)
      returns (listing: seq<PspFileInfo>, found: bool)
      ensures hostFiles.None? ==> listing == [] && !found
      ensures hostFiles.Some? ==> found && listing == Listing(flags, ctx, path, hostFiles.value)
    {
      if hostFiles.None? {
        return [], false;
      }
      var files := hostFiles.value;
      var myVector: seq<PspFileInfo> := [];
      var i := 0;
      while i < |files|
        invariant 0 <= i <= |files|
        invariant myVector == Converted(flags, ctx, path, files[..i])
      {
        var file := files[i];
        assert files[..i + 1][..i] == files[..i];
        if !Hidden(flags, ctx, path, file) {
          myVector := myVector + [ToPspEntry(flags, file)];
        }
        i := i + 1;
      }
      assert files[..|files|] == files;
      if flags.stripPsp && path == "/" {
        myVector := myVector + [PspDirEntry];
      }
      return myVector, true;
    }

    /** Forgets every open file (without returning the handles). */
    method CloseAll()
      modifies this`entries
      ensures entries == map[]
    {
      entries := map[];
    }

    /** Closes one handle: it is returned to the allocator and leaves the
        table; an unknown handle changes nothing. */
    method CloseFile(handle: nat)
      modifies this`entries, this`freedHandles
      ensures handle in old(entries) ==>
        entries == old(entries) - {handle} && freedHandles == old(freedHandles) + [handle]
      ensures handle !in old(entries) ==>
        entries == old(entries) && freedHandles == old(freedHandles)
      ensures !OwnsHandle(handle)
    {
      if handle in entries {
        freedHandles := freedHandles + [handle];
        entries := entries - {handle};
      }
    }

    function OwnsHandle(handle: nat): (r: bool)
      reads this
      ensures r <==> handle in entries
    {
      handle in entries
    }
  }

  /** Both copies of the path mapping agree whenever the handle carries the
      file system's flags. */
  lemma GetLocalPathCopiesAgree(h: DirectoryFileHandle, fs: DirectoryFileSystem, guest: string)
    requires h.fileSystemFlags == fs.flags
    ensures h.GetLocalPath(fs.basePath, guest) == fs.GetLocalPath(guest)
  {
  }
}
