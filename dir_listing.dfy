/** How the directory-backed file system turns the host's directory entries
    into the entries a guest sees when it lists a directory. */
module DirListing {
  import opened Text
  import opened GuestPath

  /** A host directory entry as the host listing reports it (times left out). */
  datatype FileInfo = FileInfo(name: string, size: nat, isDirectory: bool, access: nat, fileExists: bool)

  datatype FileType = FileTypeNormal | FileTypeDirectory

  /** A guest directory entry (times left out). */
  datatype PspFileInfo = PspFileInfo(name: string, size: nat, fileType: FileType, access: nat, fileExists: bool)

  /** The artificial PSP directory added to the root listing under STRIP_PSP. */
  const PspDirEntry: PspFileInfo := PspFileInfo("PSP", 4096, FileTypeDirectory, 0x777, true)

  /** Size reported for a ".." entry. */
  const NavigationEntrySize: nat := 4096

  /** The game-compatibility setting HideISOFiles and the running game's disc ID. */
  datatype ListingContext = ListingContext(hideIsoFiles: bool, discId: string)

  /** The guest name of a host entry: VFAT-transformed under SIMULATE_FAT32. */
  function EntryName(flags: FsFlags, file: FileInfo): (r: string)
    ensures |r| == |file.name|
    ensures r == file.name || r == ToUpper(file.name)
    ensures !flags.simulateFat32 ==> r == file.name
  {
    if flags.simulateFat32 then SimulateVfatBug(file.name) else file.name
  }

  /** A disc image or compressed disc image, by its extension in any case. */
  predicate DiscImage(name: string)
  {
    EndsWithNoCase(name, ".cso") || EndsWithNoCase(name, ".iso") || EndsWithNoCase(name, ".chd")
  }

  /** The entries skipped when HideISOFiles is on: disc images, other games'
      save data under a SAVEDATA directory, and a fixed set of folders. */
  predicate Hidden(flags: FsFlags, ctx: ListingContext, path: string, file: FileInfo)
    ensures Hidden(flags, ctx, path, file) ==> ctx.hideIsoFiles
    ensures ctx.hideIsoFiles && !file.isDirectory ==>
      (Hidden(flags, ctx, path, file) <==> DiscImage(EntryName(flags, file)))
  {
    var name := EntryName(flags, file);
    ctx.hideIsoFiles &&
    ( DiscImage(name) ||
      ( file.isDirectory &&
        if EndsWithNoCase(path, "SAVEDATA") then
          |name| > 2 && !StartsWithNoCase(name, ctx.discId)
        else
          file.name == "GAME" || file.name == "TEXTURES" || file.name == "PPSSPP_STATE" ||
          file.name == "PLUGINS" || file.name == "SYSTEM" || EqualsNoCase(file.name, "Cheats")))
  }

  /** The guest entry of one host entry. */
  function ToPspEntry(flags: FsFlags, file: FileInfo): (e: PspFileInfo)
    ensures file.name == ".." ==> e.size == NavigationEntrySize
    ensures file.name != ".." ==> e.size == file.size
    ensures e.fileType == (if file.isDirectory then FileTypeDirectory else FileTypeNormal)
    ensures e.access == file.access && e.fileExists == file.fileExists
    ensures e.name == EntryName(flags, file)
  {
    PspFileInfo(EntryName(flags, file),
                if file.name == ".." then NavigationEntrySize else file.size,
                if file.isDirectory then FileTypeDirectory else FileTypeNormal,
                file.access, file.fileExists)
  }

  /** The converted host entries, in host order, hidden ones skipped. */
  function Converted(flags: FsFlags, ctx: ListingContext, path: string, files: seq<FileInfo>): seq<PspFileInfo>
  {
    if files == [] then []
    else
      var last := files[|files| - 1];
      Converted(flags, ctx, path, files[..|files| - 1]) +
      (if Hidden(flags, ctx, path, last) then [] else [ToPspEntry(flags, last)])
  }

  /** The whole guest listing: the converted entries, then the PSP directory
      when STRIP_PSP is set and the root is listed. */
  function Listing(flags: FsFlags, ctx: ListingContext, path: string, files: seq<FileInfo>): seq<PspFileInfo>
  {
    Converted(flags, ctx, path, files) + (if flags.stripPsp && path == "/" then [PspDirEntry] else [])
  }

  /** Without HideISOFiles every host entry appears, in order, converted. */
  lemma {:induction false} ConvertedAll(flags: FsFlags, ctx: ListingContext, path: string, files: seq<FileInfo>)
    requires !ctx.hideIsoFiles
    ensures |Converted(flags, ctx, path, files)| == |files|
    ensures forall i :: 0 <= i < |files| ==> Converted(flags, ctx, path, files)[i] == ToPspEntry(flags, files[i])
  {
    if files != [] {
      ConvertedAll(flags, ctx, path, files[..|files| - 1]);
    }
  }

  /** Every guest entry comes from a host entry that is not hidden, and every
      host entry that is not hidden appears. */
  lemma {:induction false} ConvertedMembers(flags: FsFlags, ctx: ListingContext, path: string, files: seq<FileInfo>)
    ensures forall e :: e in Converted(flags, ctx, path, files) ==>
      exists j :: 0 <= j < |files| && !Hidden(flags, ctx, path, files[j]) && e == ToPspEntry(flags, files[j])
    ensures forall j :: 0 <= j < |files| && !Hidden(flags, ctx, path, files[j]) ==>
      ToPspEntry(flags, files[j]) in Converted(flags, ctx, path, files)
  {
    if files != [] {
      var init := files[..|files| - 1];
      ConvertedMembers(flags, ctx, path, init);
      forall e | e in Converted(flags, ctx, path, files)
        ensures exists j :: 0 <= j < |files| && !Hidden(flags, ctx, path, files[j]) && e == ToPspEntry(flags, files[j])
      {
        if e in Converted(flags, ctx, path, init) {
          var j :| 0 <= j < |init| && !Hidden(flags, ctx, path, init[j]) && e == ToPspEntry(flags, init[j]);
          assert files[j] == init[j];
        } else {
          assert e == ToPspEntry(flags, files[|files| - 1]);
        }
      }
      forall j | 0 <= j < |files| && !Hidden(flags, ctx, path, files[j])
        ensures ToPspEntry(flags, files[j]) in Converted(flags, ctx, path, files)
      {
        if j < |init| {
          assert init[j] == files[j];
        }
      }
    }
  }

  /** Every ".." entry that reaches the guest reports size 4096. */
  lemma NavigationEntriesSized(flags: FsFlags, ctx: ListingContext, path: string, files: seq<FileInfo>)
    ensures forall e :: e in Converted(flags, ctx, path, files) && e.name == ".." ==>
      e.size == NavigationEntrySize
  {
    ConvertedMembers(flags, ctx, path, files);
    forall e | e in Converted(flags, ctx, path, files) && e.name == ".."
      ensures e.size == NavigationEntrySize
    {
      var j :| 0 <= j < |files| && !Hidden(flags, ctx, path, files[j]) && e == ToPspEntry(flags, files[j]);
      if flags.simulateFat32 {
        VfatDotDot(files[j].name);
      }
    }
  }

  /** Only ".." itself is shown as "..". */
  lemma VfatDotDot(x: string)
    requires SimulateVfatBug(x) == ".."
    ensures x == ".."
  {
    SimulateVfatBugShape(x);
    UpperOfDots(x);
  }

  /** Upper-casing gives ".." only from "..". */
  lemma UpperOfDots(x: string)
    ensures ToUpper(x) == ".." ==> x == ".."
  {
    if ToUpper(x) == ".." {
      assert ToUpperChar(x[0]) == '.' && ToUpperChar(x[1]) == '.';
    }
  }

  /** STRIP_PSP on the root adds exactly one entry, the PSP directory, after
      the host entries; any other listing is the host entries alone. */
  lemma ListingPspRoot(flags: FsFlags, ctx: ListingContext, path: string, files: seq<FileInfo>)
    ensures var l := Listing(flags, ctx, path, files);
      var c := Converted(flags, ctx, path, files);
      if flags.stripPsp && path == "/" then
        |l| == |c| + 1 && l[..|c|] == c && l[|c|] == PspDirEntry
      else l == c
  {
    var l := Listing(flags, ctx, path, files);
    var c := Converted(flags, ctx, path, files);
    if flags.stripPsp && path == "/" {
      assert l == c + [PspDirEntry];
      assert l[..|c|] == c;
    }
  }
}
