/** File-system helpers: printing a set of open flags, and the recursive
    size of a directory tree. */
module FileUtil {
  import opened Text

  /** The five OpenFlag bits in the order they are tested. */
  datatype OpenFlag = OpenFlag(read: bool, write: bool, append: bool, create: bool, truncate: bool)

  const FlagNames: seq<string> := ["READ", "WRITE", "APPEND", "CREATE", "TRUNCATE"]

  function Bits(f: OpenFlag): (b: seq<bool>)
    ensures |b| == |FlagNames|
  {
    [f.read, f.write, f.append, f.create, f.truncate]
  }

  /** `[name]` when the bit is set, nothing otherwise. */
  function Opt(isSet: bool, name: string): seq<string>
  {
    if isSet then [name] else []
  }

  /** The names of the set flags, in table order. */
  function SetNames(f: OpenFlag): seq<string>
  {
    Opt(f.read, "READ") + Opt(f.write, "WRITE") + Opt(f.append, "APPEND") +
    Opt(f.create, "CREATE") + Opt(f.truncate, "TRUNCATE")
  }

  /** `text` when the bit is set, nothing otherwise. */
  function Piece(isSet: bool, text: string): string
  {
    if isSet then text else ""
  }

  /** Each name followed by a separator. */
  function Terminated(names: seq<string>): string
  {
    if names == [] then "" else Terminated(names[..|names| - 1]) + names[|names| - 1] + "|"
  }

  /** Appends "NAME|" for every set flag, then drops the final separator. */
  method OpenFlagToString(flags: OpenFlag) returns (s: string)
    ensures s == Join(SetNames(flags), '|')
  {
    ghost var p1, p2, p3, p4 := Piece(flags.read, "READ|"), Piece(flags.write, "WRITE|"),
      Piece(flags.append, "APPEND|"), Piece(flags.create, "CREATE|");
    s := "";
    if flags.read {
      s := s + "READ|";
    }
    assert s == p1;
    if flags.write {
      s := s + "WRITE|";
    }
    assert s == p1 + p2;
    if flags.append {
      s := s + "APPEND|";
    }
    assert s == p1 + p2 + p3;
    if flags.create {
      s := s + "CREATE|";
    }
    assert s == p1 + p2 + p3 + p4;
    if flags.truncate {
      s := s + "TRUNCATE|";
    }
    TerminatedPieces(flags);
    DropLastSeparator(SetNames(flags), s);
    if s != [] {
      s := s[..|s| - 1];
    }
  }

  /** The text before the final pop_back is every set flag's name followed by '|'. */
  lemma TerminatedPieces(f: OpenFlag)
    ensures Terminated(SetNames(f)) == Piece(f.read, "READ|") + Piece(f.write, "WRITE|") +
      Piece(f.append, "APPEND|") + Piece(f.create, "CREATE|") + Piece(f.truncate, "TRUNCATE|")
  {
    var o1, o2, o3, o4, o5 := Opt(f.read, "READ"), Opt(f.write, "WRITE"), Opt(f.append, "APPEND"),
      Opt(f.create, "CREATE"), Opt(f.truncate, "TRUNCATE");
    assert "READ" + "|" == "READ|" && "WRITE" + "|" == "WRITE|" && "APPEND" + "|" == "APPEND|";
    assert "CREATE" + "|" == "CREATE|" && "TRUNCATE" + "|" == "TRUNCATE|";
    OptTerminated(f.read, "READ");
    OptTerminated(f.write, "WRITE");
    OptTerminated(f.append, "APPEND");
    OptTerminated(f.create, "CREATE");
    OptTerminated(f.truncate, "TRUNCATE");
    TerminatedConcat(o1, o2);
    TerminatedConcat(o1 + o2, o3);
    TerminatedConcat(o1 + o2 + o3, o4);
    TerminatedConcat(o1 + o2 + o3 + o4, o5);
  }

  lemma OptTerminated(b: bool, n: string)
    ensures Terminated(Opt(b, n)) == Piece(b, n + "|")
  {
    if b {
      assert [n][..0] == [];
    }
  }

  lemma {:induction false} TerminatedConcat(xs: seq<string>, ys: seq<string>)
    ensures Terminated(xs + ys) == Terminated(xs) + Terminated(ys)
    decreases |ys|
  {
    if ys == [] {
      assert xs + ys == xs;
    } else {
      var init := ys[..|ys| - 1];
      assert (xs + ys)[..|xs + ys| - 1] == xs + init;
      TerminatedConcat(xs, init);
    }
  }

  /** Terminating every name is joining them and adding one separator. */
  lemma {:induction false} TerminatedJoin(names: seq<string>)
    ensures names == [] ==> Terminated(names) == ""
    ensures names != [] ==> Terminated(names) == Join(names, '|') + "|"
  {
    if names != [] {
      var init := names[..|names| - 1];
      var last := names[|names| - 1];
      assert names == init + [last];
      if init == [] {
        assert Terminated(names) == last + "|";
      } else {
        TerminatedJoin(init);
        JoinSnoc(init, last, '|');
      }
    }
  }

  /** Removing the last character of the terminated names leaves them joined. */
  lemma DropLastSeparator(names: seq<string>, s: string)
    requires s == Terminated(names)
    ensures s == [] ==> Join(names, '|') == ""
    ensures s != [] ==> s[..|s| - 1] == Join(names, '|')
  {
    TerminatedJoin(names);
  }

  /** No flag is set. */
  predicate NoFlag(f: OpenFlag)
  {
    !f.read && !f.write && !f.append && !f.create && !f.truncate
  }

  /** Each flag's name is listed exactly when the flag is set. */
  lemma SetNamesMembers(f: OpenFlag)
    ensures forall i :: 0 <= i < |FlagNames| ==> (FlagNames[i] in SetNames(f) <==> Bits(f)[i])
  {
  }

  /** No name is listed twice. */
  lemma SetNamesDistinct(f: OpenFlag)
    ensures var s := SetNames(f); forall i, j :: 0 <= i < j < |s| ==> s[i] != s[j]
  {
  }

  lemma SetNamesShape(f: OpenFlag)
    ensures SetNames(f) == [] <==> NoFlag(f)
    ensures var s := SetNames(f); forall k :: 0 <= k < |s| ==> s[k] != "" && '|' !in s[k]
  {
  }

  /** The string is empty exactly when no flag is set; otherwise it does not
      end with a separator, and splitting it at '|' gives back the set
      flags' names. */
  lemma OpenFlagString(f: OpenFlag)
    ensures Join(SetNames(f), '|') == "" <==> NoFlag(f)
    ensures !NoFlag(f) ==> var s := Join(SetNames(f), '|');
      s[|s| - 1] != '|' && Split(s, '|') == SetNames(f)
  {
    var names := SetNames(f);
    SetNamesShape(f);
    if !NoFlag(f) {
      JoinEnds(names, '|');
      SplitJoin(names, '|');
    }
  }

  /** A join of non-empty pieces free of the delimiter is not empty and does not end with it. */
  lemma {:induction false} JoinEnds(parts: seq<string>, d: char)
    requires parts != [] && forall k :: 0 <= k < |parts| ==> parts[k] != "" && d !in parts[k]
    ensures var s := Join(parts, d); s != [] && s[|s| - 1] != d
  {
    if |parts| > 1 {
      JoinEnds(parts[1..], d);
      var t := Join(parts[1..], d);
      assert Join(parts, d) == parts[0] + [d] + t;
    } else {
      assert parts[0][|parts[0]| - 1] in parts[0];
    }
  }

  /** A directory entry: a file with its size, or a subdirectory, which
      either can be listed (with its contents) or cannot. */
  datatype Entry = FileEntry(size: nat) | DirEntry(listable: bool, contents: seq<Entry>)

  /** The reference size of the directory at `e`: -1 when it cannot be listed
      (a file cannot be listed as a directory either), otherwise the sum over
      its entries of a file's size or a subdirectory's own DirSize. */
  function DirSize(e: Entry): int
    decreases e
  {
    if e.DirEntry? && e.listable then SumSizes(e, e.contents) else -1
  }

  /** The sum over `es`, a prefix of `parent`'s contents. */
  function SumSizes(parent: Entry, es: seq<Entry>): int
    requires parent.DirEntry? && es <= parent.contents
    decreases parent, |es|
  {
    if es == [] then 0
    else
      var last := es[|es| - 1];
      assert last in parent.contents;
      SumSizes(parent, es[..|es| - 1]) + (if last.DirEntry? then DirSize(last) else last.size)
  }

  /** The size of the directory tree at `e`. */
  method RecursiveSize(e: Entry) returns (r: int)
    ensures r == DirSize(e)
    decreases e
  {
    if !(e.DirEntry? && e.listable) {
      return -1;
    }
    var fileInfo := e.contents;
    var sizeSum := 0;
    var i := 0;
    while i < |fileInfo|
      invariant 0 <= i <= |fileInfo|
      invariant sizeSum == SumSizes(e, fileInfo[..i])
    {
      var file := fileInfo[i];
      assert fileInfo[..i + 1][..i] == fileInfo[..i];
      if file.DirEntry? {
        var subSize := RecursiveSize(file);
        sizeSum := sizeSum + subSize;
      } else {
        sizeSum := sizeSum + file.size;
      }
      i := i + 1;
    }
    assert fileInfo[..|fileInfo|] == fileInfo;
    return sizeSum;
  }

  /** Total bytes of the files reachable through listable directories. */
  function FileBytes(e: Entry): nat
    decreases e
  {
    if e.DirEntry? && e.listable then FileBytesOf(e, e.contents) else 0
  }

  function FileBytesOf(parent: Entry, es: seq<Entry>): nat
    requires parent.DirEntry? && es <= parent.contents
    decreases parent, |es|
  {
    if es == [] then 0
    else
      var last := es[|es| - 1];
      assert last in parent.contents;
      FileBytesOf(parent, es[..|es| - 1]) + (if last.DirEntry? then FileBytes(last) else last.size)
  }

  /** Number of subdirectories that cannot be listed, reached through listable ones. */
  function Unlistable(e: Entry): nat
    decreases e
  {
    if e.DirEntry? && e.listable then UnlistableOf(e, e.contents) else 0
  }

  function UnlistableOf(parent: Entry, es: seq<Entry>): nat
    requires parent.DirEntry? && es <= parent.contents
    decreases parent, |es|
  {
    if es == [] then 0
    else
      var last := es[|es| - 1];
      assert last in parent.contents;
      UnlistableOf(parent, es[..|es| - 1]) +
      (if last.DirEntry? then (if last.listable then Unlistable(last) else 1) else 0)
  }

  /** A listable directory's size is its file bytes minus one for every
      unlistable subdirectory below it, whose -1 is added into the sum. So an
      empty directory has size 0, and a tree whose directories can all be
      listed has exactly its file bytes as size. */
  lemma {:induction false} DirSizeClosedForm(e: Entry)
    requires e.DirEntry? && e.listable
    ensures DirSize(e) == FileBytes(e) - Unlistable(e)
    decreases e
  {
    SumSizesClosedForm(e, e.contents);
  }

  lemma {:induction false} SumSizesClosedForm(parent: Entry, es: seq<Entry>)
    requires parent.DirEntry? && es <= parent.contents
    ensures SumSizes(parent, es) == FileBytesOf(parent, es) - UnlistableOf(parent, es)
    decreases parent, |es|
  {
    if es != [] {
      var last := es[|es| - 1];
      assert last in parent.contents;
      SumSizesClosedForm(parent, es[..|es| - 1]);
      if last.DirEntry? && last.listable {
        DirSizeClosedForm(last);
      }
    }
  }

  /** An unlistable path has size -1 and an empty directory size 0. */
  lemma DirSizeEdgeCases(e: Entry)
    ensures !(e.DirEntry? && e.listable) ==> DirSize(e) == -1
    ensures e.DirEntry? && e.listable && e.contents == [] ==> DirSize(e) == 0
  {
  }
}
