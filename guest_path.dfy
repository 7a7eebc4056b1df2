/** The string work of the directory-backed file system: mapping a guest
    (PSP-side) path to a host path, the Windows-98 style 8.3 upper-casing of
    directory entries, and the destination of a rename. */
module GuestPath {
  import opened Text

  /** The FileSystemFlags bits the model reads. */
  datatype FsFlags = FsFlags(stripPsp: bool, simulateFat32: bool, caseSensitive: bool)

  /** The PSP kernel error codes the file systems return (SCE_KERNEL_ERROR_ERRNO_*). */
  datatype PspError = FileAlreadyExists | FileNotFound | InvalidFlag

  /** A host path: the base directory itself, or the base directory joined
      (with Path's `/`) to a relative part. */
  datatype HostPath = Base(base: string) | Join(base: string, rel: string)

  /** Reference mapping of a guest path to a host path, by cases. An empty
      guest path is the base itself. Otherwise at most one leading '/' goes,
      and with STRIP_PSP the name "PSP" becomes "/" and a "PSP/" prefix, in
      any case, is dropped. */
  function LocalPath(flags: FsFlags, basePath: string, guest: string): (r: HostPath)
    ensures r.base == basePath
    ensures r.Base? <==> guest == []
    ensures r.Join? ==> r.rel == "/" || exists k :: 0 <= k <= |guest| && r.rel == guest[k..]
  {
    if guest == [] then Base(basePath)
    else
      var q := if guest[0] == '/' then guest[1..] else guest;
      var skip := |guest| - |q|;
      assert q == guest[skip..];
      if !flags.stripPsp then Join(basePath, q)
      else if q == "PSP" then Join(basePath, "/")
      else if StartsWithNoCase(q, "PSP/") then
        assert q[4..] == guest[skip + 4..];
        Join(basePath, q[4..])
      else Join(basePath, q)
  }

  /** Without STRIP_PSP, a non-empty guest path loses exactly its first
      character when that is '/', and nothing else. */
  lemma LocalPathDropsOneSlash(flags: FsFlags, basePath: string, rest: string)
    requires !flags.stripPsp
    ensures LocalPath(flags, basePath, "/" + rest) == Join(basePath, rest)
    ensures rest != [] && rest[0] != '/' ==> LocalPath(flags, basePath, rest) == Join(basePath, rest)
  {
    assert ("/" + rest)[1..] == rest;
  }

  /** A leading '/' makes no difference, once: "/x" and "x" name the same host path. */
  lemma LocalPathSlashInsensitive(flags: FsFlags, basePath: string, rest: string)
    requires rest != [] && rest[0] != '/'
    ensures LocalPath(flags, basePath, "/" + rest) == LocalPath(flags, basePath, rest)
  {
    assert ("/" + rest)[1..] == rest;
  }

  /** With STRIP_PSP the PSP directory is the host base directory, and
      "PSP/x" in any letter case lands on "x" under it. */
  lemma LocalPathStripPsp(flags: FsFlags, basePath: string, prefix: string, rest: string)
    requires flags.stripPsp
    requires |prefix| == 4 && EqualsNoCase(prefix, "PSP/")
    ensures LocalPath(flags, basePath, "/PSP") == Join(basePath, "/")
    ensures LocalPath(flags, basePath, "/" + prefix + rest) == Join(basePath, rest)
  {
    assert "/PSP"[1..] == "PSP";
    var g := "/" + prefix + rest;
    var q := g[1..];
    assert q == prefix + rest;
    assert q[..4] == prefix;
    assert q[4..] == rest;
    assert q != "PSP";
  }

  // ---------------------------------------------------------------------
  // SimulateVFATBug

  const FatUpperChars: string := "ABCDEFGHIJKLMNOPQRSTUVWXYZ0123456789!@#$%^&'(){}-_`~"
  const FatLowerChars: string := "abcdefghijklmnopqrstuvwxyz0123456789!@#$%^&'(){}-_`~"
  const LowerChars: string := "abcdefghijklmnopqrstuvwxyz"

  /** std::string::find_first_of: the first index holding one of `chars`, None for npos. */
  function FindFirstOf(s: string, chars: string): (r: Option<nat>)
    ensures r.None? <==> forall i :: 0 <= i < |s| ==> s[i] !in chars
    ensures r.Some? ==> r.value < |s| && s[r.value] in chars
  {
    if s == [] then None
    else if s[0] in chars then Some(0)
    else match FindFirstOf(s[1..], chars)
      case None => None
      case Some(i) => Some(i + 1)
  }

  /** std::string::find_first_not_of: the first index holding none of `chars`. */
  function FindFirstNotOf(s: string, chars: string): (r: Option<nat>)
    ensures r.None? <==> forall i :: 0 <= i < |s| ==> s[i] in chars
  {
    if s == [] then None
    else if s[0] !in chars then Some(0)
    else match FindFirstNotOf(s[1..], chars)
      case None => None
      case Some(i) => Some(i + 1)
  }

  /** std::string::find for one character. */
  function Find(s: string, c: char): (r: Option<nat>)
    ensures r.None? <==> c !in s
    ensures r.Some? ==> c in s && r.value == IndexOf(s, c)
  {
    if c in s then Some(IndexOf(s, c)) else None
  }

  /** The PSP's VFAT driver shows short lower-case names in upper case, as
      Windows 98 did. Written as the source computes it. */
  function SimulateVfatBug(filename: string): (r: string)
    ensures |r| == |filename|
    ensures r == filename || r == ToUpper(filename)
  {
    if FindFirstOf(filename, LowerChars).None? then filename
    else if VfatHackApplies(filename) then ToUpper(filename)
    else filename
  }

  /** The source's `apply_hack` decision, with find, substr and
      find_first_not_of; `substr(npos + 1)` wraps to 0 and so yields the
      whole name. */
  function VfatHackApplies(filename: string): bool
  {
    HackAppliesWith(filename, FatLowerChars, FatUpperChars)
  }

  /** The decision for given lower- and upper-case character sets. */
  function HackAppliesWith(filename: string, lower: string, upper: string): bool
  {
    var dotPos := Find(filename, '.');
    if dotPos.None? && |filename| <= 8 then
      FindFirstNotOf(filename, lower).None?
    else
      var base := if dotPos.Some? then filename[..dotPos.value] else filename;
      var ext := if dotPos.Some? then filename[dotPos.value + 1..] else filename;
      if |base| <= 8 && |ext| <= 3 then
        var baseApply := FindFirstNotOf(base, lower).None? || FindFirstNotOf(base, upper).None?;
        var extApply := FindFirstNotOf(ext, lower).None? || FindFirstNotOf(ext, upper).None?;
        baseApply && extApply
      else false
  }

  predicate AllIn(s: string, chars: string) { forall i :: 0 <= i < |s| ==> s[i] in chars }

  /** A part of an 8.3 name that is not of mixed case. */
  predicate SingleCase(s: string, lower: string, upper: string) { AllIn(s, lower) || AllIn(s, upper) }

  /** The names the driver upper-cases, stated directly: either no dot, at
      most 8 characters, all FAT lower-case characters; or a base (before the
      first dot) of at most 8 and an extension (after it) of at most 3
      characters, each of a single case. */
  predicate ShortDosName(s: string)
  {
    ShortNameWith(s, FatLowerChars, FatUpperChars)
  }

  predicate ShortNameWith(s: string, lower: string, upper: string)
  {
    if '.' !in s then |s| <= 8 && AllIn(s, lower)
    else
      var d := IndexOf(s, '.');
      |s[..d]| <= 8 && |s[d + 1..]| <= 3 && SingleCase(s[..d], lower, upper) && SingleCase(s[d + 1..], lower, upper)
  }

  lemma HasLowerFind(s: string)
    ensures FindFirstOf(s, LowerChars).Some? <==> HasLower(s)
  {
    if HasLower(s) {
      var i :| 0 <= i < |s| && IsLowerAscii(s[i]);
      LowerCharsExactly(s[i]);
    }
    if FindFirstOf(s, LowerChars).Some? {
      var i := FindFirstOf(s, LowerChars).value;
      LowerCharsExactly(s[i]);
    }
  }

  lemma LowerCharsExactly(c: char)
    ensures c in LowerChars <==> IsLowerAscii(c)
  {
    if IsLowerAscii(c) {
      LowerInLowerChars(c);
    }
  }

  lemma LowerInLowerChars(c: char)
    requires IsLowerAscii(c)
    ensures c in LowerChars
  {
    var k := c as int - 'a' as int;
    assert 0 <= k < 26;
    assert LowerChars[k] == c;
  }

  /** The code's decision is exactly the direct characterisation: a name is
      changed iff it has a lower-case letter and is a short DOS name, and
      then it is upper-cased. */
  lemma SimulateVfatBugSpec(s: string)
    ensures SimulateVfatBug(s) == if HasLower(s) && ShortDosName(s) then ToUpper(s) else s
  {
    HasLowerFind(s);
    VfatHackAppliesSpec(s);
  }

  lemma VfatHackAppliesSpec(s: string)
    ensures VfatHackApplies(s) == ShortDosName(s)
  {
    HackAppliesWithSpec(s, FatLowerChars, FatUpperChars);
  }

  lemma HackAppliesWithSpec(s: string, lower: string, upper: string)
    ensures HackAppliesWith(s, lower, upper) == ShortNameWith(s, lower, upper)
  {
    if '.' in s {
      var d := IndexOf(s, '.');
      assert Find(s, '.') == Some(d);
    } else {
      assert Find(s, '.') == None;
    }
  }

  lemma ToUpperNoLower(s: string)
    ensures !HasLower(ToUpper(s))
  {
  }

  lemma ToUpperChangesLower(s: string)
    ensures ToUpper(s) != s <==> HasLower(s)
  {
    if HasLower(s) {
      var i :| 0 <= i < |s| && IsLowerAscii(s[i]);
      assert ToUpper(s)[i] != s[i];
    }
  }

  /** The result is the name or its upper-case form, of the same length, and
      it differs from the name exactly in the two upper-casing cases. */
  lemma SimulateVfatBugShape(s: string)
    ensures var r := SimulateVfatBug(s);
      |r| == |s| && (r == s || r == ToUpper(s)) &&
      (r != s <==> HasLower(s) && ShortDosName(s))
  {
    SimulateVfatBugSpec(s);
    ToUpperChangesLower(s);
  }

  /** Applying the transform twice is the same as applying it once: an
      upper-cased name has no lower-case letter left and passes through. */
  lemma SimulateVfatBugIdempotent(s: string)
    ensures SimulateVfatBug(SimulateVfatBug(s)) == SimulateVfatBug(s)
  {
    var r := SimulateVfatBug(s);
    SimulateVfatBugSpec(s);
    SimulateVfatBugSpec(r);
    ToUpperNoLower(s);
  }

  // ---------------------------------------------------------------------
  // RenameFile's destination

  /** std::string::find_last_of for one character. */
  function FindLastOf(s: string, c: char): (r: Option<nat>)
    ensures r.None? <==> c !in s
    ensures r.Some? ==> r.value < |s| && s[r.value] == c && c !in s[r.value + 1..]
  {
    if s == [] then None
    else if s[|s| - 1] == c then Some(|s| - 1)
    else
      var r := FindLastOf(s[..|s| - 1], c);
      assert r.Some? ==> s[r.value + 1..] == s[..|s| - 1][r.value + 1..] + [s[|s| - 1]];
      assert s == s[..|s| - 1] + [s[|s| - 1]];
      r
  }

  /** The directory part of a guest path, including its final '/' (empty when there is none). */
  function DirPart(s: string): string
  {
    match FindLastOf(s, '/')
    case None => ""
    case Some(i) => s[..i + 1]
  }

  /** The last '/'-separated component of a guest path. */
  function LastComponent(s: string): (r: string)
    ensures '/' !in r
  {
    match FindLastOf(s, '/')
    case None => s
    case Some(i) => s[i + 1..]
  }

  /** Rename ignores any directory on `to` and keeps the file in `from`'s directory. */
  function RenameDestination(from: string, to: string): (r: string)
    ensures |r| == |DirPart(from)| + |LastComponent(to)|
    ensures r[..|DirPart(from)|] == DirPart(from)
    ensures r[|DirPart(from)|..] == LastComponent(to)
  {
    var fullTo := match FindLastOf(to, '/') case None => to case Some(chop) => to[chop + 1..];
    match FindLastOf(from, '/')
    case None => fullTo
    case Some(dirnameEnd) => from[..dirnameEnd + 1] + fullTo
  }

  lemma FindLastOfAppend(a: string, b: string, c: char)
    requires c !in b
    ensures FindLastOf(a + b, c) == FindLastOf(a, c)
  {
    var ab := a + b;
    match FindLastOf(a, c)
    case None =>
      assert c !in ab by {
        forall k | 0 <= k < |ab| ensures ab[k] != c {
          if k < |a| {
            assert ab[k] == a[k];
          } else {
            assert ab[k] == b[k - |a|];
          }
        }
      }
    case Some(i) =>
      assert ab[i] == c;
      assert ab[i + 1..] == a[i + 1..] + b;
      LastOfUnique(ab, c, i);
  }

  /** The last occurrence is the one after which the character does not
      occur again. */
  lemma LastOfUnique(s: string, c: char, i: nat)
    requires i < |s| && s[i] == c && c !in s[i + 1..]
    ensures FindLastOf(s, c) == Some(i)
  {
    var r := FindLastOf(s, c);
    assert s[i] in s[r.value + 1..] || r.value >= i;
    assert s[r.value] in s[i + 1..] || r.value <= i;
  }

  /** The destination lies in the directory of `from` and carries the last
      component of `to`: its directory part is `from`'s and its last
      component is `to`'s. */
  lemma RenameDestinationParts(from: string, to: string)
    ensures DirPart(RenameDestination(from, to)) == DirPart(from)
    ensures LastComponent(RenameDestination(from, to)) == LastComponent(to)
  {
    var name := LastComponent(to);
    var dir := DirPart(from);
    var r := RenameDestination(from, to);
    assert r == dir + name;
    FindLastOfAppend(dir, name, '/');
    match FindLastOf(from, '/')
    case None =>
      assert r == name;
    case Some(i) =>
      assert dir[i] == '/';
      assert dir[i + 1..] == [];
      assert FindLastOf(dir, '/') == Some(i);
      assert r[..i + 1] == dir;
      assert r[i + 1..] == name;
  }
}
