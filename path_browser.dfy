/** The navigation state of the file browser: the current path, the root it
    must stay under, and the request handed to the background lister. */
module PathBrowser {
  import opened Text
  import opened DirListing

  /** A path as its list of components; its text joins them with '/'. */
  datatype Path = Path(parts: seq<string>)

  function ToString(p: Path): string
  {
    Join(p.parts, '/')
  }

  const EmptyPath: Path := Path([])

  /** `p.StartsWith(root)`: the root's components come first. */
  predicate StartsWith(p: Path, root: Path)
  {
    root.parts <= p.parts
  }

  /** A root ("/", "C:/") is a single component. */
  predicate IsRoot(p: Path)
  {
    |p.parts| == 1
  }

  predicate PathCanNavigateUp(p: Path)
  {
    |p.parts| > 1
  }

  /** The parent: the last component dropped; a root is its own parent. */
  function Up(p: Path): (q: Path)
    ensures PathCanNavigateUp(p) ==> q.parts + [p.parts[|p.parts| - 1]] == p.parts
    ensures !PathCanNavigateUp(p) ==> q == p
  {
    if PathCanNavigateUp(p) then Path(p.parts[..|p.parts| - 1]) else p
  }

  /** `p / name`: one more component. */
  function Append(p: Path, name: string): (q: Path)
    ensures |q.parts| == |p.parts| + 1 && q.parts[..|p.parts|] == p.parts
    ensures q.parts[|p.parts|] == name
  {
    Path(p.parts + [name])
  }

  /** `Path(text)`: the components of a text. */
  function FromString(s: string): Path
  {
    Path(Split(s, '/'))
  }

  /** Paths whose text starts with '!' are special locations that are not listed. */
  predicate IsSpecial(p: Path)
  {
    ToString(p) != [] && ToString(p)[0] == '!'
  }

  /** Where the browser is allowed to be: under the root, or at a special location. */
  predicate Allowed(p: Path, root: Path)
  {
    StartsWith(p, root) || IsSpecial(p)
  }

  /** What ApplyRestriction leaves in the path. */
  function Restrict(p: Path, root: Path): (q: Path)
    ensures Allowed(q, root)
  {
    if Allowed(p, root) then p else root
  }

  /** A path already allowed is kept; any other path is replaced by the root;
      restricting twice is restricting once. */
  lemma RestrictSpec(p: Path, root: Path)
    ensures Allowed(p, root) <==> Restrict(p, root) == p
    ensures !Allowed(p, root) ==> Restrict(p, root) == root
    ensures Restrict(Restrict(p, root), root) == Restrict(p, root)
  {
    assert StartsWith(root, root);
  }

  /** Going up from a path strictly under the root stays under it, so the
      restriction after NavigateUp keeps the parent. */
  lemma UpStaysUnderRoot(p: Path, root: Path)
    requires StartsWith(p, root) && p != root
    ensures StartsWith(Up(p), root)
    ensures Restrict(Up(p), root) == Up(p)
  {
    if PathCanNavigateUp(p) {
      assert |root.parts| < |p.parts|;
      assert Up(p).parts == p.parts[..|p.parts| - 1];
    }
  }

  /** Appending a component keeps a path under the root and keeps a special
      path special. */
  lemma AppendStaysAllowed(p: Path, root: Path, name: string)
    requires Allowed(p, root)
    ensures Allowed(Append(p, name), root)
  {
    var q := Append(p, name);
    if StartsWith(p, root) {
      assert root.parts <= p.parts <= q.parts;
    } else {
      assert p.parts != [];
      JoinSnoc(p.parts, name, '/');
      assert ToString(q) == ToString(p) + ['/'] + name;
      assert ToString(q)[0] == ToString(p)[0];
    }
  }

  /** Where Navigate(name) leaves the path. */
  function NavigateTarget(p: Path, root: Path, name: string): (q: Path)
    ensures name == "." ==> q == p
    ensures name == ".." ==> Allowed(q, root)
    ensures name != "." && name != ".." && !(|name| >= 2 && name[1] == ':' && IsRoot(p)) ==>
      q == Append(p, name)
  {
    if name == "." then p
    else if name == ".." then Restrict(Up(p), root)
    else if |name| >= 2 && name[1] == ':' && IsRoot(p) then FromString(name)
    else Append(p, name)
  }

  /** Navigating by an ordinary name, or by "..", never leaves what is allowed;
      only a drive name typed at a root can. */
  lemma NavigateStaysAllowed(p: Path, root: Path, name: string)
    requires Allowed(p, root)
    requires !(|name| >= 2 && name[1] == ':' && IsRoot(p))
    ensures Allowed(NavigateTarget(p, root, name), root)
  {
    if name != "." && name != ".." {
      AppendStaysAllowed(p, root, name);
    }
  }

  /** A drive name typed at a root replaces the path without applying the
      restriction: with root ["C:"] at ["C:"], "D:" leads outside the root. */
  lemma DriveNameLeavesRoot()
    ensures var root := Path(["C:"]);
      !Allowed(NavigateTarget(root, root, "D:"), root)
  {
    var root := Path(["C:"]);
    var q := NavigateTarget(root, root, "D:");
    assert "D:"[1] == ':';
    assert '/' !in "D:";
    assert q == Path(["D:"]);
    assert ToString(q) == "D:";
    assert !(root.parts <= q.parts) by {
      assert q.parts[0] != root.parts[0];
    }
  }

  class PathBrowser {
    var path: Path
    var restrictedRoot: Path
    /** The listing of `path` is available. */
    var ready: bool
    /** A listing request has ever been handed to the lister. */
    var pendingActive: bool
    var pendingCancel: bool
    /** The path the lister is asked to list; empty once it is served. */
    var pendingPath: Path
    var pendingFiles: seq<FileInfo>

    /** Under the root or at a special location. */
    ghost predicate Restricted()
      reads this
    {
      Allowed(path, restrictedRoot)
    }

    constructor ()
      ensures path == EmptyPath && restrictedRoot == EmptyPath
      ensures !ready && !pendingActive && !pendingCancel
      ensures pendingPath == EmptyPath && pendingFiles == []
      ensures Restricted()
    {
      path := EmptyPath;
      restrictedRoot := EmptyPath;
      ready := false;
      pendingActive := false;
      pendingCancel := false;
      pendingPath := EmptyPath;
      pendingFiles := [];
    }

    /** What HandlePath does with the pending fields, given the path it found:
        a special path is ready at once (cancelling any request in flight);
        any other path becomes the new request, with the old files dropped. */
    twostate predicate Handled()
      reads this
    {
      if IsSpecial(path) then
        ready && pendingActive == old(pendingActive) && pendingFiles == old(pendingFiles) &&
        (if old(pendingActive) then pendingCancel && pendingPath == EmptyPath
         else pendingCancel == old(pendingCancel) && pendingPath == old(pendingPath))
      else
        !ready && pendingActive && !pendingCancel && pendingFiles == [] && pendingPath == path
    }

    method HandlePath()
      modifies this`ready, this`pendingActive, this`pendingCancel, this`pendingPath, this`pendingFiles
      ensures Handled()
    {
      if IsSpecial(path) {
        if pendingActive {
          ResetPending();
        }
        ready := true;
        return;
      }
      ready := false;
      pendingActive := true;
      pendingCancel := false;
      pendingFiles := [];
      pendingPath := path;
    }

    /** Cancels the request in flight. */
    method ResetPending()
      modifies this`pendingCancel, this`pendingPath
      ensures pendingCancel && pendingPath == EmptyPath
    {
      pendingCancel := true;
      pendingPath := EmptyPath;
    }

    method ApplyRestriction()
      modifies this`path
      ensures path == Restrict(old(path), restrictedRoot)
      ensures Restricted()
    {
      if !StartsWith(path, restrictedRoot) && !IsSpecial(path) {
        path := restrictedRoot;
      }
    }

    method SetPath(p: Path)
      modifies this
      ensures path == Restrict(p, restrictedRoot) && restrictedRoot == old(restrictedRoot)
      ensures Restricted()
      ensures Handled()
    {
      path := p;
      ApplyRestriction();
      HandlePath();
    }

    /** Sets the root without moving the path. */
    method RestrictToRoot(root: Path)
      modifies this`restrictedRoot
      ensures restrictedRoot == root
    {
      restrictedRoot := root;
    }

    function CanNavigateUp(): (r: bool)
      reads this
      ensures r <==> path != restrictedRoot && PathCanNavigateUp(path)
      ensures path == restrictedRoot ==> !r
      ensures r ==> Up(path) != path
    {
      path != restrictedRoot && PathCanNavigateUp(path)
    }

    method NavigateUp()
      modifies this`path
      ensures path == Restrict(Up(old(path)), restrictedRoot)
      ensures Restricted()
      ensures StartsWith(old(path), restrictedRoot) && old(path) != restrictedRoot ==> path == Up(old(path))
    {
      ghost var before := path;
      path := Up(path);
      ApplyRestriction();
      if StartsWith(before, restrictedRoot) && before != restrictedRoot {
        UpStaysUnderRoot(before, restrictedRoot);
      }
    }

    method Navigate(name: string)
      modifies this
      ensures restrictedRoot == old(restrictedRoot)
      ensures path == NavigateTarget(old(path), restrictedRoot, name)
      ensures name == "." ==> unchanged(this)
      ensures name != "." ==> Handled()
    {
      if name == "." {
        return;
      }
      if name == ".." {
        NavigateUp();
      } else {
        if |name| >= 2 && name[1] == ':' && IsRoot(path) {
          path := FromString(name);
        } else {
          path := Append(path, name);
        }
      }
      HandlePath();
    }
  }
}
