/**
 * The file-system helpers of pkg/utils/utils.go (and their older copy in
 * fenfa/pkg/utils/utils.go, whose traversal code is the same): the depth-bounded walk behind
 * EstimateZipSize and addFilesToZip, ZipDirectory's output path, and the PATH search of
 * ResolveToAbsolutePath. The file system is an oracle: a path maps to the Node os.Stat would
 * find there, and a directory Node carries the entries os.ReadDir would list.
 */
module Utils {
  import opened Base
  import opened Paths

  datatype Node =
    | File(name: string, size: nat, readable: bool)   // readable: os.Open and io.Copy succeed on it
    | Dir(name: string, children: seq<Node>)
    | Unlistable(name: string)     // a directory that os.Stat accepts and os.ReadDir refuses
    | Missing(name: string)        // os.Stat fails with a does-not-exist error
    | Inaccessible(name: string)   // os.Stat fails with any other error

  /** os.Stat succeeds. */
  predicate Exists(n: Node) { !n.Missing? && !n.Inaccessible? }

  predicate IsDirectory(n: Node) { n.Dir? || n.Unlistable? }

  datatype FsError = StatFailed | ReadDirFailed | OpenFailed | CreateFailed | NotFoundOnPath | GetwdFailed

  /** The two walks: estimateSizeHelper only stats a file, addFilesToZip also opens and copies it. */
  datatype Walk = Estimating | Zipping

  /** The cut-off both walks apply before touching a node; a negative bound disables it. */
  predicate Beyond(depth: int, maxDepth: int) { maxDepth >= 0 && depth > maxDepth }

  /** A file the walk reaches: its path relative to the walked root, and its size. */
  datatype FileRef = FileRef(path: string, size: nat)

  // ----- What one walk meets, independently of what it is used for -----
  // A directory's listing is visited in order; the `...In(cs, k, ...)` functions describe the
  // visit of its first k members.

  /** The first failure the walk runs into, in visiting order, if any. */
  function FirstFault(n: Node, depth: int, maxDepth: int, walk: Walk): Option<FsError>
    decreases n
  {
    if Beyond(depth, maxDepth) then None
    else match n
      case File(_, _, readable) => if walk == Zipping && !readable then Some(OpenFailed) else None
      case Dir(_, cs) => FirstFaultIn(cs, |cs|, depth + 1, maxDepth, walk)
      case Unlistable(_) => Some(ReadDirFailed)
      case Missing(_) => Some(StatFailed)
      case Inaccessible(_) => Some(StatFailed)
  }

  function FirstFaultIn(cs: seq<Node>, k: nat, depth: int, maxDepth: int, walk: Walk): Option<FsError>
    requires k <= |cs|
    decreases cs, k
  {
    if k == 0 then None
    else
      var f := FirstFaultIn(cs, k - 1, depth, maxDepth, walk);
      if f.Some? then f else FirstFault(cs[k - 1], depth, maxDepth, walk)
  }

  /** The files within the depth bound, named by their relative paths, in visiting order. */
  function Visible(n: Node, rel: string, depth: int, maxDepth: int): seq<FileRef>
    decreases n
  {
    if Beyond(depth, maxDepth) then []
    else match n
      case File(_, size, _) => [FileRef(rel, size)]
      case Dir(_, cs) => VisibleIn(cs, |cs|, rel, depth + 1, maxDepth)
      case _ => []
  }

  function VisibleIn(cs: seq<Node>, k: nat, rel: string, depth: int, maxDepth: int): seq<FileRef>
    requires k <= |cs|
    decreases cs, k
  {
    if k == 0 then []
    else VisibleIn(cs, k - 1, rel, depth, maxDepth) + Visible(cs[k - 1], Join(rel, cs[k - 1].name), depth, maxDepth)
  }

  function TotalSize(files: seq<FileRef>): nat
  {
    if files == [] then 0 else TotalSize(files[..|files| - 1]) + files[|files| - 1].size
  }

  /** What EstimateZipSize reports: the first failure, or the total size of the visible files. */
  function SizeEstimate(n: Node, rel: string, depth: int, maxDepth: int): Result<nat, FsError>
  {
    match FirstFault(n, depth, maxDepth, Estimating)
    case Some(e) => Err(e)
    case None => Ok(TotalSize(Visible(n, rel, depth, maxDepth)))
  }

  datatype ZipEntry = DirEntry(name: string) | FileEntry(file: FileRef)

  /**
   * The archive after addFilesToZip has walked n into an archive already holding acc: the
   * entries it creates are appended in visiting order, up to the first failure. A file's entry
   * is created before the file is opened, so a file that cannot be read leaves an empty entry.
   */
  function Archived(acc: seq<ZipEntry>, n: Node, rel: string, depth: int, maxDepth: int): seq<ZipEntry>
    decreases n
  {
    if Beyond(depth, maxDepth) then acc
    else match n
      case File(_, size, readable) => acc + [FileEntry(FileRef(rel, if readable then size else 0))]
      case Dir(_, cs) => ArchivedIn(acc + DirEntryFor(rel), cs, |cs|, rel, depth + 1, maxDepth)
      case Unlistable(_) => acc + DirEntryFor(rel)
      case _ => acc
  }

  /** The walked root gets no directory entry; any other directory gets "<relative path>/". */
  function DirEntryFor(rel: string): seq<ZipEntry>
  {
    if rel != "" then [DirEntry(rel + [Separator])] else []
  }

  function ArchivedIn(acc: seq<ZipEntry>, cs: seq<Node>, k: nat, rel: string, depth: int, maxDepth: int): seq<ZipEntry>
    requires k <= |cs|
    decreases cs, k
  {
    if k == 0 then acc
    else if FirstFaultIn(cs, k - 1, depth, maxDepth, Zipping).Some? then ArchivedIn(acc, cs, k - 1, rel, depth, maxDepth)
    else Archived(ArchivedIn(acc, cs, k - 1, rel, depth, maxDepth), cs[k - 1], Join(rel, cs[k - 1].name), depth, maxDepth)
  }

  function FilesOf(es: seq<ZipEntry>): seq<FileRef>
  {
    if es == [] then []
    else FilesOf(es[..|es| - 1]) + (if es[|es| - 1].FileEntry? then [es[|es| - 1].file] else [])
  }

  // ----- Facts about the walk -----

  lemma {:induction false} TotalSizeAppend(a: seq<FileRef>, b: seq<FileRef>)
    ensures TotalSize(a + b) == TotalSize(a) + TotalSize(b)
    decreases |b|
  {
    if b != [] {
      assert (a + b)[..|a + b| - 1] == a + b[..|b| - 1];
      TotalSizeAppend(a, b[..|b| - 1]);
    } else {
      assert a + b == a;
    }
  }

  lemma {:induction false} FilesOfAppend(a: seq<ZipEntry>, b: seq<ZipEntry>)
    ensures FilesOf(a + b) == FilesOf(a) + FilesOf(b)
    decreases |b|
  {
    if b != [] {
      assert (a + b)[..|a + b| - 1] == a + b[..|b| - 1];
      FilesOfAppend(a, b[..|b| - 1]);
    } else {
      assert a + b == a;
    }
  }

  /** One turn of the estimating loop: the i-th member's size is added, and its failure ends the walk. */
  lemma EstimateStep(cs: seq<Node>, i: nat, rel: string, depth: int, maxDepth: int)
    requires i < |cs| && FirstFaultIn(cs, i, depth, maxDepth, Estimating).None?
    ensures TotalSize(VisibleIn(cs, i + 1, rel, depth, maxDepth))
         == TotalSize(VisibleIn(cs, i, rel, depth, maxDepth)) + TotalSize(Visible(cs[i], Join(rel, cs[i].name), depth, maxDepth))
    ensures FirstFaultIn(cs, i + 1, depth, maxDepth, Estimating) == FirstFault(cs[i], depth, maxDepth, Estimating)
    ensures FirstFault(cs[i], depth, maxDepth, Estimating).Some? ==>
      FirstFaultIn(cs, |cs|, depth, maxDepth, Estimating) == FirstFault(cs[i], depth, maxDepth, Estimating)
  {
    TotalSizeAppend(VisibleIn(cs, i, rel, depth, maxDepth), Visible(cs[i], Join(rel, cs[i].name), depth, maxDepth));
    if FirstFault(cs[i], depth, maxDepth, Estimating).Some? {
      FaultStopsListing(cs, i + 1, rel, depth, maxDepth, Estimating);
    }
  }

  /** Once the first k members of a listing have met a failure, the rest is never visited. */
  lemma {:induction false} FaultStopsListing(cs: seq<Node>, k: nat, rel: string, depth: int, maxDepth: int, walk: Walk)
    requires k <= |cs|
    requires FirstFaultIn(cs, k, depth, maxDepth, walk).Some?
    ensures FirstFaultIn(cs, |cs|, depth, maxDepth, walk) == FirstFaultIn(cs, k, depth, maxDepth, walk)
    ensures walk == Zipping ==>
      forall acc :: ArchivedIn(acc, cs, |cs|, rel, depth, maxDepth) == ArchivedIn(acc, cs, k, rel, depth, maxDepth)
    decreases |cs| - k
  {
    if k < |cs| {
      FaultStopsListing(cs, k + 1, rel, depth, maxDepth, walk);
    }
  }

  /**
   * The zip walk meets every failure the estimate meets, and one more kind: a file within the
   * bound that cannot be opened or copied. So it fails with the estimate's failure, or earlier
   * with OpenFailed; when every file within the bound can be read, the two walks agree.
   */
  lemma {:induction false} ZipFaults(n: Node, depth: int, maxDepth: int)
    ensures FirstFault(n, depth, maxDepth, Zipping) == FirstFault(n, depth, maxDepth, Estimating)
         || FirstFault(n, depth, maxDepth, Zipping) == Some(OpenFailed)
    ensures AllReadable(n, depth, maxDepth) ==>
      FirstFault(n, depth, maxDepth, Zipping) == FirstFault(n, depth, maxDepth, Estimating)
    decreases n
  {
    if !Beyond(depth, maxDepth) && n.Dir? {
      ZipFaultsIn(n.children, |n.children|, depth + 1, maxDepth);
    }
  }

  lemma {:induction false} ZipFaultsIn(cs: seq<Node>, k: nat, depth: int, maxDepth: int)
    requires k <= |cs|
    ensures FirstFaultIn(cs, k, depth, maxDepth, Zipping) == FirstFaultIn(cs, k, depth, maxDepth, Estimating)
         || FirstFaultIn(cs, k, depth, maxDepth, Zipping) == Some(OpenFailed)
    ensures AllReadableIn(cs, k, depth, maxDepth) ==>
      FirstFaultIn(cs, k, depth, maxDepth, Zipping) == FirstFaultIn(cs, k, depth, maxDepth, Estimating)
    decreases cs, k
  {
    if k > 0 {
      ZipFaultsIn(cs, k - 1, depth, maxDepth);
      ZipFaults(cs[k - 1], depth, maxDepth);
    }
  }

  /** Every file the walks reach (within the depth bound) can be opened and copied. */
  predicate AllReadable(n: Node, depth: int, maxDepth: int)
    decreases n
  {
    Beyond(depth, maxDepth) ||
    match n
    case File(_, _, readable) => readable
    case Dir(_, cs) => AllReadableIn(cs, |cs|, depth + 1, maxDepth)
    case _ => true
  }

  predicate AllReadableIn(cs: seq<Node>, k: nat, depth: int, maxDepth: int)
    requires k <= |cs|
    decreases cs, k
  {
    k == 0 || (AllReadableIn(cs, k - 1, depth, maxDepth) && AllReadable(cs[k - 1], depth, maxDepth))
  }

  /** A node beyond a non-negative depth bound is neither visited nor written: it adds size 0. */
  lemma BeyondContributesNothing(n: Node, rel: string, depth: int, maxDepth: int, walk: Walk)
    requires maxDepth >= 0 && depth > maxDepth
    ensures FirstFault(n, depth, maxDepth, walk).None?
    ensures Visible(n, rel, depth, maxDepth) == [] && Archived([], n, rel, depth, maxDepth) == []
    ensures SizeEstimate(n, rel, depth, maxDepth) == Ok(0)
  {
  }

  lemma {:induction false} BeyondContributesNothingIn(cs: seq<Node>, k: nat, rel: string, depth: int, maxDepth: int, walk: Walk)
    requires k <= |cs|
    requires maxDepth >= 0 && depth > maxDepth
    ensures FirstFaultIn(cs, k, depth, maxDepth, walk).None?
    ensures VisibleIn(cs, k, rel, depth, maxDepth) == []
    ensures walk == Zipping ==> forall acc :: ArchivedIn(acc, cs, k, rel, depth, maxDepth) == acc
    decreases k
  {
    if k > 0 {
      BeyondContributesNothingIn(cs, k - 1, rel, depth, maxDepth, walk);
    }
  }

  /** A directory exactly at the depth bound still gets its entry, but none of its children do. */
  lemma DirectoryAtDepthBound(name: string, cs: seq<Node>, rel: string, maxDepth: int)
    requires maxDepth >= 0 && rel != ""
    ensures Archived([], Dir(name, cs), rel, maxDepth, maxDepth) == [DirEntry(rel + "/")]
    ensures Visible(Dir(name, cs), rel, maxDepth, maxDepth) == []
    ensures SizeEstimate(Dir(name, cs), rel, maxDepth, maxDepth) == Ok(0)
  {
    BeyondContributesNothingIn(cs, |cs|, rel, maxDepth + 1, maxDepth, Zipping);
    BeyondContributesNothingIn(cs, |cs|, rel, maxDepth + 1, maxDepth, Estimating);
  }

  /** With a negative bound the depth a walk starts at is irrelevant: nothing is cut off. */
  lemma {:induction false} UnboundedWalk(n: Node, rel: string, d1: int, d2: int, maxDepth: int, walk: Walk)
    requires maxDepth < 0
    ensures FirstFault(n, d1, maxDepth, walk) == FirstFault(n, d2, maxDepth, walk)
    ensures Visible(n, rel, d1, maxDepth) == Visible(n, rel, d2, maxDepth)
    ensures walk == Zipping ==> forall acc :: Archived(acc, n, rel, d1, maxDepth) == Archived(acc, n, rel, d2, maxDepth)
    decreases n
  {
    if n.Dir? {
      UnboundedWalkIn(n.children, |n.children|, rel, d1 + 1, d2 + 1, maxDepth, walk);
    }
  }

  lemma {:induction false} UnboundedWalkIn(cs: seq<Node>, k: nat, rel: string, d1: int, d2: int, maxDepth: int, walk: Walk)
    requires k <= |cs|
    requires maxDepth < 0
    ensures FirstFaultIn(cs, k, d1, maxDepth, walk) == FirstFaultIn(cs, k, d2, maxDepth, walk)
    ensures VisibleIn(cs, k, rel, d1, maxDepth) == VisibleIn(cs, k, rel, d2, maxDepth)
    ensures walk == Zipping ==> forall acc :: ArchivedIn(acc, cs, k, rel, d1, maxDepth) == ArchivedIn(acc, cs, k, rel, d2, maxDepth)
    decreases cs, k
  {
    if k > 0 {
      UnboundedWalkIn(cs, k - 1, rel, d1, d2, maxDepth, walk);
      UnboundedWalk(cs[k - 1], Join(rel, cs[k - 1].name), d1, d2, maxDepth, walk);
    }
  }

  lemma DirEntryAddsNoFile(acc: seq<ZipEntry>, rel: string)
    ensures FilesOf(acc + DirEntryFor(rel)) == FilesOf(acc)
  {
    if rel != "" {
      var es := acc + DirEntryFor(rel);
      assert es[..|es| - 1] == acc;
    } else {
      assert acc + DirEntryFor(rel) == acc;
    }
  }

  lemma FileEntryAddsFile(acc: seq<ZipEntry>, f: FileRef)
    ensures FilesOf(acc + [FileEntry(f)]) == FilesOf(acc) + [f]
  {
    var es := acc + [FileEntry(f)];
    assert es[..|es| - 1] == acc;
  }

  /** A successful zip walk adds exactly the files the size estimate counts, in the same order. */
  lemma {:induction false} ZipHoldsVisibleFiles(acc: seq<ZipEntry>, n: Node, rel: string, depth: int, maxDepth: int)
    requires FirstFault(n, depth, maxDepth, Zipping).None?
    ensures FilesOf(Archived(acc, n, rel, depth, maxDepth)) == FilesOf(acc) + Visible(n, rel, depth, maxDepth)
    decreases n
  {
    if Beyond(depth, maxDepth) {
      assert FilesOf(acc) + [] == FilesOf(acc);
    } else {
      match n
      case Dir(_, cs) =>
        DirEntryAddsNoFile(acc, rel);
        ZipHoldsVisibleFilesIn(acc + DirEntryFor(rel), cs, |cs|, rel, depth + 1, maxDepth);
      case File(_, size, _) =>
        FileEntryAddsFile(acc, FileRef(rel, size));
    }
  }

  lemma {:induction false} ZipHoldsVisibleFilesIn(acc: seq<ZipEntry>, cs: seq<Node>, k: nat, rel: string, depth: int, maxDepth: int)
    requires k <= |cs|
    requires FirstFaultIn(cs, k, depth, maxDepth, Zipping).None?
    ensures FilesOf(ArchivedIn(acc, cs, k, rel, depth, maxDepth)) == FilesOf(acc) + VisibleIn(cs, k, rel, depth, maxDepth)
    decreases cs, k
  {
    if k > 0 {
      var last := cs[k - 1];
      var before := ArchivedIn(acc, cs, k - 1, rel, depth, maxDepth);
      ZipHoldsVisibleFilesIn(acc, cs, k - 1, rel, depth, maxDepth);
      ZipHoldsVisibleFiles(before, last, Join(rel, last.name), depth, maxDepth);
    }
  }

  /** Every directory entry is a non-empty relative path followed by '/': in particular never "/". */
  ghost predicate DirEntriesNamed(es: seq<ZipEntry>)
  {
    forall i :: 0 <= i < |es| && es[i].DirEntry? ==>
      |es[i].name| >= 2 && es[i].name[|es[i].name| - 1] == Separator
  }

  lemma NamedAppend(a: seq<ZipEntry>, b: seq<ZipEntry>)
    requires DirEntriesNamed(a) && DirEntriesNamed(b)
    ensures DirEntriesNamed(a + b)
  {
    forall i | 0 <= i < |a + b| && (a + b)[i].DirEntry?
      ensures |(a + b)[i].name| >= 2 && (a + b)[i].name[|(a + b)[i].name| - 1] == Separator
    {
      if i >= |a| {
        assert (a + b)[i] == b[i - |a|];
      }
    }
  }

  lemma {:induction false} ZipDirectoryNames(acc: seq<ZipEntry>, n: Node, rel: string, depth: int, maxDepth: int)
    requires DirEntriesNamed(acc)
    ensures DirEntriesNamed(Archived(acc, n, rel, depth, maxDepth))
    decreases n
  {
    if !Beyond(depth, maxDepth) {
      match n
      case Dir(_, cs) =>
        NamedAppend(acc, DirEntryFor(rel));
        ZipDirectoryNamesIn(acc + DirEntryFor(rel), cs, |cs|, rel, depth + 1, maxDepth);
      case Unlistable(_) =>
        NamedAppend(acc, DirEntryFor(rel));
      case File(_, size, readable) =>
        NamedAppend(acc, [FileEntry(FileRef(rel, if readable then size else 0))]);
      case _ =>
    }
  }

  lemma {:induction false} ZipDirectoryNamesIn(acc: seq<ZipEntry>, cs: seq<Node>, k: nat, rel: string, depth: int, maxDepth: int)
    requires k <= |cs|
    requires DirEntriesNamed(acc)
    ensures DirEntriesNamed(ArchivedIn(acc, cs, k, rel, depth, maxDepth))
    decreases cs, k
  {
    if k > 0 {
      ZipDirectoryNamesIn(acc, cs, k - 1, rel, depth, maxDepth);
      ZipDirectoryNames(ArchivedIn(acc, cs, k - 1, rel, depth, maxDepth), cs[k - 1], Join(rel, cs[k - 1].name), depth, maxDepth);
    }
  }

  // ----- The operations -----

  /** estimateSizeHelper: the total size of the files within the bound, or the first failure. */
  method EstimateSizeHelper(n: Node, relativePath: string, currentDepth: int, maxDepth: int)
    returns (r: Result<nat, FsError>)
    ensures r.Err? <==> FirstFault(n, currentDepth, maxDepth, Estimating).Some?
    ensures r.Err? ==> r.error == FirstFault(n, currentDepth, maxDepth, Estimating).value
    ensures r.Ok? ==> r.value == TotalSize(Visible(n, relativePath, currentDepth, maxDepth))
    decreases n
  {
    if maxDepth >= 0 && currentDepth > maxDepth {
      return Ok(0);
    }
    match n
    case Missing(_) =>
      return Err(StatFailed);
    case Inaccessible(_) =>
      return Err(StatFailed);
    case Unlistable(_) =>
      return Err(ReadDirFailed);
    case File(_, size, _) =>
      return Ok(size);
    case Dir(_, files) =>
      r := EstimateListing(files, relativePath, currentDepth + 1, maxDepth);
  }

  /** The loop of estimateSizeHelper over a directory listing, stopping at the first failure. */
  method EstimateListing(files: seq<Node>, relativePath: string, depth: int, maxDepth: int)
    returns (r: Result<nat, FsError>)
    ensures r.Err? <==> FirstFaultIn(files, |files|, depth, maxDepth, Estimating).Some?
    ensures r.Err? ==> r.error == FirstFaultIn(files, |files|, depth, maxDepth, Estimating).value
    ensures r.Ok? ==> r.value == TotalSize(VisibleIn(files, |files|, relativePath, depth, maxDepth))
    decreases files
  {
    var totalSize: nat := 0;
    var i := 0;
    while i < |files|
      invariant 0 <= i <= |files|
      invariant FirstFaultIn(files, i, depth, maxDepth, Estimating).None?
      invariant totalSize == TotalSize(VisibleIn(files, i, relativePath, depth, maxDepth))
    {
      var child := files[i];
      var size := EstimateSizeHelper(child, Join(relativePath, child.name), depth, maxDepth);
      EstimateStep(files, i, relativePath, depth, maxDepth);
      if size.Err? {
        return Err(size.error);
      }
      totalSize := totalSize + size.value;
      i := i + 1;
    }
    return Ok(totalSize);
  }

  /** EstimateZipSize: the walk from the root at depth 0, named relative to the root. */
  method EstimateZipSize(root: Node, maxDepth: int) returns (r: Result<nat, FsError>)
    ensures r == SizeEstimate(root, "", 0, maxDepth)
  {
    r := EstimateSizeHelper(root, "", 0, maxDepth);
  }

  /** The archive being written: the sequence of entries created so far. */
  class ZipWriter {
    var entries: seq<ZipEntry>

    constructor ()
      ensures entries == []
    {
      entries := [];
    }

    method Create(e: ZipEntry)
      modifies this
      ensures entries == old(entries) + [e]
    {
      entries := entries + [e];
    }
  }

  /** addFilesToZip: writes the walk's entries and reports the first failure. */
  method AddFilesToZip(w: ZipWriter, n: Node, relativePath: string, currentDepth: int, maxDepth: int)
    returns (err: Option<FsError>)
    modifies w
    ensures err == FirstFault(n, currentDepth, maxDepth, Zipping)
    ensures w.entries == Archived(old(w.entries), n, relativePath, currentDepth, maxDepth)
    decreases n
  {
    if maxDepth >= 0 && currentDepth > maxDepth {
      return None;
    }
    match n
    case Missing(_) =>
      return Some(StatFailed);
    case Inaccessible(_) =>
      return Some(StatFailed);
    case Unlistable(_) =>
      if relativePath != "" {
        w.Create(DirEntry(relativePath + [Separator]));
      }
      assert w.entries == old(w.entries) + DirEntryFor(relativePath);
      return Some(ReadDirFailed);
    case File(_, size, readable) =>
      if !readable {
        w.Create(FileEntry(FileRef(relativePath, 0)));
        return Some(OpenFailed);
      }
      w.Create(FileEntry(FileRef(relativePath, size)));
      return None;
    case Dir(_, files) =>
      if relativePath != "" {
        w.Create(DirEntry(relativePath + [Separator]));
      }
      assert w.entries == old(w.entries) + DirEntryFor(relativePath);
      err := AddListingToZip(w, files, relativePath, currentDepth + 1, maxDepth);
  }

  /** The loop of addFilesToZip over a directory listing, stopping at the first failure. */
  method AddListingToZip(w: ZipWriter, files: seq<Node>, relativePath: string, depth: int, maxDepth: int)
    returns (err: Option<FsError>)
    modifies w
    ensures err == FirstFaultIn(files, |files|, depth, maxDepth, Zipping)
    ensures w.entries == ArchivedIn(old(w.entries), files, |files|, relativePath, depth, maxDepth)
    decreases files
  {
    err := None;
    var i := 0;
    while i < |files| && err.None?
      invariant 0 <= i <= |files|
      invariant err == FirstFaultIn(files, i, depth, maxDepth, Zipping)
      invariant w.entries == ArchivedIn(old(w.entries), files, i, relativePath, depth, maxDepth)
    {
      var child := files[i];
      err := AddFilesToZip(w, child, Join(relativePath, child.name), depth, maxDepth);
      i := i + 1;
    }
    if err.Some? {
      FaultStopsListing(files, i, relativePath, depth, maxDepth, Zipping);
    }
  }

  /** What ZipDirectory returns: the archive's path, or why it could not be made. */
  function ZipOutcome(root: Node, dirPath: string, maxDepth: int, createOk: bool): Result<string, FsError>
  {
    if !createOk then Err(CreateFailed)
    else match FirstFault(root, 0, maxDepth, Zipping)
      case Some(e) => Err(e)
      case None => Ok(dirPath + ".zip")
  }

  /**
   * ZipDirectory: archives the walk from the root into dirPath + ".zip". When the archive
   * file cannot be created nothing is written.
   */
  method ZipDirectory(root: Node, dirPath: string, maxDepth: int, createOk: bool)
    returns (r: Result<string, FsError>, archive: seq<ZipEntry>)
    ensures r == ZipOutcome(root, dirPath, maxDepth, createOk)
    ensures archive == if createOk then Archived([], root, "", 0, maxDepth) else []
    ensures r.Ok? ==> FilesOf(archive) == Visible(root, "", 0, maxDepth)
  {
    var zipPath := dirPath + ".zip";
    if !createOk {
      return Err(CreateFailed), [];
    }
    var w := new ZipWriter();
    var err := AddFilesToZip(w, root, "", 0, maxDepth);
    archive := w.entries;
    if err.Some? {
      return Err(err.value), archive;
    }
    ZipHoldsVisibleFiles([], root, "", 0, maxDepth);
    return Ok(zipPath), archive;
  }

  // ----- PATH search -----

  predicate FileExists(fs: string -> Node, p: string) { Exists(fs(p)) }

  /** The first PATH directory, in order, under which the path exists, joined with it. */
  function FirstOnPath(fs: string -> Node, dirs: seq<string>, path: string): Option<string>
  {
    if dirs == [] then None
    else if FileExists(fs, Join(dirs[0], path)) then Some(Join(dirs[0], path))
    else FirstOnPath(fs, dirs[1..], path)
  }

  /** filepath.Abs as ResolveToAbsolutePath returns it: a failing os.Getwd is its error. */
  function Absolute(cwd: Option<string>, p: string): Result<string, FsError>
  {
    match Abs(cwd, p)
    case Some(a) => Ok(a)
    case None => Err(GetwdFailed)
  }

  function Resolve(fs: string -> Node, cwd: Option<string>, dirs: seq<string>, path: string): Result<string, FsError>
  {
    if IsAbs(path) || FileExists(fs, path) then Absolute(cwd, path)
    else match FirstOnPath(fs, dirs, path)
      case Some(p) => Absolute(cwd, p)
      case None => Err(NotFoundOnPath)
  }

  /**
   * The PATH search finds nothing exactly when no entry has the file; otherwise it finds the
   * first entry, in order, that has it.
   */
  lemma {:induction false} FirstOnPathFinds(fs: string -> Node, dirs: seq<string>, path: string)
    ensures FirstOnPath(fs, dirs, path).None? <==> forall i :: 0 <= i < |dirs| ==> !FileExists(fs, Join(dirs[i], path))
    ensures FirstOnPath(fs, dirs, path).Some? ==>
      exists i :: 0 <= i < |dirs| && FileExists(fs, Join(dirs[i], path))
        && FirstOnPath(fs, dirs, path).value == Join(dirs[i], path)
        && forall j :: 0 <= j < i ==> !FileExists(fs, Join(dirs[j], path))
    decreases |dirs|
  {
    if dirs != [] && !FileExists(fs, Join(dirs[0], path)) {
      FirstOnPathFinds(fs, dirs[1..], path);
      var rest := dirs[1..];
      forall i | 1 <= i < |dirs|
        ensures Join(dirs[i], path) == Join(rest[i - 1], path)
      {
      }
      if FirstOnPath(fs, rest, path).Some? {
        var k :| 0 <= k < |rest| && FileExists(fs, Join(rest[k], path))
          && FirstOnPath(fs, rest, path).value == Join(rest[k], path)
          && forall j :: 0 <= j < k ==> !FileExists(fs, Join(rest[j], path));
        assert forall j :: 0 <= j < k + 1 ==> !FileExists(fs, Join(dirs[j], path));
      }
    }
  }

  /** ResolveToAbsolutePath: direct use, else the first PATH entry that has the file. */
  method ResolveToAbsolutePath(fs: string -> Node, cwd: Option<string>, dirs: seq<string>, path: string)
    returns (r: Result<string, FsError>)
    ensures r == Resolve(fs, cwd, dirs, path)
    ensures IsAbs(path) ==> r == Ok(path)
    ensures IsAbs(path) || FileExists(fs, path) ==> r == Absolute(cwd, path)
    ensures !IsAbs(path) && !FileExists(fs, path) ==>
      (r == Err(NotFoundOnPath) <==> forall i :: 0 <= i < |dirs| ==> !FileExists(fs, Join(dirs[i], path)))
    ensures !IsAbs(path) && !FileExists(fs, path) && r != Err(NotFoundOnPath) ==>
      exists i :: 0 <= i < |dirs| && FileExists(fs, Join(dirs[i], path))
        && r == Absolute(cwd, Join(dirs[i], path))
        && forall j :: 0 <= j < i ==> !FileExists(fs, Join(dirs[j], path))
    ensures r == Err(GetwdFailed) ==> cwd.None?
  {
    if IsAbs(path) || FileExists(fs, path) {
      return Absolute(cwd, path);
    }
    FirstOnPathFinds(fs, dirs, path);
    var i := 0;
    while i < |dirs|
      invariant 0 <= i <= |dirs|
      invariant FirstOnPath(fs, dirs, path) == FirstOnPath(fs, dirs[i..], path)
    {
      var fullPath := Join(dirs[i], path);
      if FileExists(fs, fullPath) {
        return Absolute(cwd, fullPath);
      }
      assert dirs[i..][1..] == dirs[i + 1..];
      i := i + 1;
    }
    return Err(NotFoundOnPath);
  }
}
