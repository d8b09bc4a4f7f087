/**
 * `walk` and `checkFilesChange`: list the files under the app directory, depth
 * first in `readdirSync` order, and keep those whose runtime mirror is missing
 * or strictly older.
 */
module Tree {
  import opened Paths
  import opened Fs

  /** What `walk(dir)` yields: `undefined`, the list of files, or the exception a stat or listing raises. */
  datatype Listing = Undefined | Listed(paths: seq<Path>) | Failed(error: FsError)

  /** The nodes strictly below `dir`. Each recursive step of a walk visits fewer of them. */
  ghost function Below(nodes: Nodes, dir: Path): set<Path>
  {
    set p | p in nodes && Under(dir, p)
  }

  lemma BelowShrinks(nodes: Nodes, dir: Path, name: Name)
    requires Join(dir, name) in nodes
    ensures Below(nodes, Join(dir, name)) < Below(nodes, dir)
  {
    var child := Join(dir, name);
    JoinBelow(dir, name);
    forall p | p in Below(nodes, child)
      ensures p in Below(nodes, dir)
    {
      UnderTransitive(dir, child, p);
    }
    assert child in Below(nodes, dir);
  }

  /** `list.concat(...)` of two partial listings; the first exception wins. */
  function Then(a: Result<seq<Path>>, b: Result<seq<Path>>): Result<seq<Path>>
  {
    if a.Err? then a
    else if b.Err? then b
    else Ok(a.value + b.value)
  }

  lemma ThenAssociative(a: Result<seq<Path>>, b: Result<seq<Path>>, c: Result<seq<Path>>)
    ensures Then(Then(a, b), c) == Then(a, Then(b, c))
  {
    if a.Ok? && b.Ok? && c.Ok? {
      assert (a.value + b.value) + c.value == a.value + (b.value + c.value);
    }
  }

  /** `walk(dir)` for a path that exists. */
  function WalkExisting(nodes: Nodes, dir: Path): Result<seq<Path>>
    requires dir in nodes
    decreases Below(nodes, dir), 2
  {
    if nodes[dir].File? then Err(NotDirectory(dir))
    else WalkEntries(nodes, dir, nodes[dir].entries)
  }

  /** The loop of `walk` over the first `|names|` entries of `dir`. */
  function WalkEntries(nodes: Nodes, dir: Path, names: seq<Name>): Result<seq<Path>>
    decreases Below(nodes, dir), 1, |names|
  {
    if names == [] then Ok([])
    else Then(WalkEntries(nodes, dir, names[..|names| - 1]), WalkEntry(nodes, dir, names[|names| - 1]))
  }

  /** One entry: a subdirectory's whole listing, a file itself, or the failing `statSync`. */
  function WalkEntry(nodes: Nodes, dir: Path, name: Name): Result<seq<Path>>
    decreases Below(nodes, dir), 0
  {
    var child := Join(dir, name);
    if child !in nodes then Err(NoEntry(child))
    else if nodes[child].Dir? then
      BelowShrinks(nodes, dir, name);
      WalkExisting(nodes, child)
    else Ok([child])
  }

  /** `walk(dir)`: `undefined` when `dir` does not exist. */
  function WalkSpec(nodes: Nodes, dir: Path): Listing
  {
    if dir !in nodes then Undefined
    else match WalkExisting(nodes, dir)
      case Ok(ps) => Listed(ps)
      case Err(e) => Failed(e)
  }

  /** Each subdirectory's listing is spliced in at its position: the walk of a concatenation concatenates. */
  lemma {:induction false} WalkEntriesAppend(nodes: Nodes, dir: Path, a: seq<Name>, b: seq<Name>)
    ensures WalkEntries(nodes, dir, a + b) == Then(WalkEntries(nodes, dir, a), WalkEntries(nodes, dir, b))
    decreases |b|
  {
    if b == [] {
      assert a + b == a;
      var w := WalkEntries(nodes, dir, a);
      if w.Ok? { assert w.value + [] == w.value; }
    } else {
      var b' := b[..|b| - 1];
      var last := b[|b| - 1];
      assert (a + b)[..|a + b| - 1] == a + b';
      assert (a + b)[|a + b| - 1] == last;
      WalkEntriesAppend(nodes, dir, a, b');
      ThenAssociative(WalkEntries(nodes, dir, a), WalkEntries(nodes, dir, b'), WalkEntry(nodes, dir, last));
    }
  }

  /** Every listed path is an existing file strictly below `dir`. */
  ghost predicate FilesUnder(nodes: Nodes, dir: Path, ps: seq<Path>)
  {
    forall p :: p in ps ==> p in nodes && nodes[p].File? && Under(dir, p)
  }

  lemma {:induction false} WalkExistingFiles(nodes: Nodes, dir: Path)
    requires dir in nodes
    ensures WalkExisting(nodes, dir).Ok? ==> FilesUnder(nodes, dir, WalkExisting(nodes, dir).value)
    decreases Below(nodes, dir), 2
  {
    if nodes[dir].Dir? {
      WalkEntriesFiles(nodes, dir, nodes[dir].entries);
    }
  }

  lemma {:induction false} WalkEntriesFiles(nodes: Nodes, dir: Path, names: seq<Name>)
    ensures WalkEntries(nodes, dir, names).Ok? ==> FilesUnder(nodes, dir, WalkEntries(nodes, dir, names).value)
    decreases Below(nodes, dir), 1, |names|
  {
    if names != [] {
      WalkEntriesFiles(nodes, dir, names[..|names| - 1]);
      var child := Join(dir, names[|names| - 1]);
      JoinBelow(dir, names[|names| - 1]);
      if child in nodes && nodes[child].Dir? {
        BelowShrinks(nodes, dir, names[|names| - 1]);
        WalkExistingFiles(nodes, child);
        var sub := WalkExisting(nodes, child);
        if sub.Ok? {
          forall p | p in sub.value
            ensures Under(dir, p)
          {
            UnderTransitive(dir, child, p);
          }
        }
      }
    }
  }

  /** A walk lists only files, all strictly below the walked directory. */
  lemma WalkListsFiles(nodes: Nodes, dir: Path)
    ensures WalkSpec(nodes, dir).Listed? ==> FilesUnder(nodes, dir, WalkSpec(nodes, dir).paths)
  {
    if dir in nodes {
      WalkExistingFiles(nodes, dir);
    }
  }

  /**
   * In a consistent tree, the walk of a directory succeeds and lists only files,
   * each strictly within the directory.
   */
  lemma {:induction false} WalkExistingSound(nodes: Nodes, dir: Path)
    requires Wf(nodes) && dir in nodes && nodes[dir].Dir?
    ensures WalkExisting(nodes, dir).Ok?
    ensures forall p :: p in WalkExisting(nodes, dir).value ==> p in nodes && nodes[p].File? && Within(dir, p)
    decreases Below(nodes, dir), 2
  {
    WalkEntriesSound(nodes, dir, nodes[dir].entries);
  }

  lemma {:induction false} WalkEntriesSound(nodes: Nodes, dir: Path, names: seq<Name>)
    requires Wf(nodes) && dir in nodes && nodes[dir].Dir?
    requires forall n :: n in names ==> n in nodes[dir].entries
    ensures WalkEntries(nodes, dir, names).Ok?
    ensures forall p :: p in WalkEntries(nodes, dir, names).value ==> p in nodes && nodes[p].File? && Within(dir, p)
    decreases Below(nodes, dir), 1, |names|
  {
    if names != [] {
      var last := names[|names| - 1];
      WalkEntriesSound(nodes, dir, names[..|names| - 1]);
      var child := Join(dir, last);
      assert EntriesExist(nodes) && last in nodes[dir].entries;
      assert child in nodes;
      WfTidy(nodes, dir);
      JoinSplit(dir, last);
      assert Within(dir, child);
      if nodes[child].Dir? {
        BelowShrinks(nodes, dir, last);
        WalkExistingSound(nodes, child);
        forall p | p in WalkExisting(nodes, child).value
          ensures Within(dir, p)
        {
          WithinTransitive(dir, child, p);
        }
      }
    }
  }

  /** Whatever one entry contributes is part of the walk of any entry list holding it. */
  lemma {:induction false} EntryInWalk(nodes: Nodes, dir: Path, names: seq<Name>, n: Name)
    requires n in names && WalkEntries(nodes, dir, names).Ok?
    ensures WalkEntry(nodes, dir, n).Ok?
    ensures forall p :: p in WalkEntry(nodes, dir, n).value ==> p in WalkEntries(nodes, dir, names).value
  {
    var init := names[..|names| - 1];
    if n != names[|names| - 1] {
      assert names == init + [names[|names| - 1]];
      EntryInWalk(nodes, dir, init, n);
    }
  }

  /** The walk of a directory within `dir` is part of the walk of `dir`. */
  lemma {:induction false} SubwalkContained(nodes: Nodes, dir: Path, q: Path)
    requires Wf(nodes) && dir in nodes && nodes[dir].Dir? && q in nodes && nodes[q].Dir?
    requires q == dir || Within(dir, q)
    ensures WalkExisting(nodes, q).Ok? && WalkExisting(nodes, dir).Ok?
    ensures forall p :: p in WalkExisting(nodes, q).value ==> p in WalkExisting(nodes, dir).value
    decreases Height(q)
  {
    WalkExistingSound(nodes, q);
    WalkExistingSound(nodes, dir);
    if q != dir {
      var up := Dirname(q);
      assert ParentsListed(nodes);
      assert up in nodes && nodes[up].Dir? && Basename(q) in nodes[up].entries;
      DirnameDescends(q);
      SubwalkContained(nodes, dir, up);
      EntryInWalk(nodes, up, nodes[up].entries, Basename(q));
    }
  }

  /** Every file within `dir` is listed by the walk of `dir`. */
  lemma WalkComplete(nodes: Nodes, dir: Path, p: Path)
    requires Wf(nodes) && dir in nodes && nodes[dir].Dir?
    requires p in nodes && nodes[p].File? && Within(dir, p)
    ensures WalkExisting(nodes, dir).Ok? && p in WalkExisting(nodes, dir).value
  {
    var up := Dirname(p);
    assert ParentsListed(nodes);
    assert up in nodes && nodes[up].Dir? && Basename(p) in nodes[up].entries;
    SubwalkContained(nodes, dir, up);
    EntryInWalk(nodes, up, nodes[up].entries, Basename(p));
  }

  /**
   * In a consistent tree the walk of a directory succeeds and lists exactly the
   * files within it.
   */
  lemma WalkListsExactly(nodes: Nodes, dir: Path)
    requires Wf(nodes) && dir in nodes && nodes[dir].Dir?
    ensures WalkSpec(nodes, dir).Listed?
    ensures forall p :: p in WalkSpec(nodes, dir).paths <==> p in nodes && nodes[p].File? && Within(dir, p)
  {
    WalkExistingSound(nodes, dir);
    forall p | p in nodes && nodes[p].File? && Within(dir, p)
      ensures p in WalkSpec(nodes, dir).paths
    {
      WalkComplete(nodes, dir, p);
    }
  }

  /** One loop step of `walk`; an exception at entry `i` is the result of the whole loop. */
  lemma WalkEntriesStep(nodes: Nodes, dir: Path, names: seq<Name>, i: nat)
    requires i < |names|
    ensures WalkEntries(nodes, dir, names[..i + 1]) ==
      Then(WalkEntries(nodes, dir, names[..i]), WalkEntry(nodes, dir, names[i]))
    ensures WalkEntries(nodes, dir, names[..i]).Ok? && WalkEntry(nodes, dir, names[i]).Err? ==>
      WalkEntries(nodes, dir, names) == WalkEntry(nodes, dir, names[i])
  {
    assert names[..i + 1][..i] == names[..i];
    assert names[..i + 1] + names[i + 1..] == names;
    WalkEntriesAppend(nodes, dir, names[..i + 1], names[i + 1..]);
  }

  /** `walk`: the recursive listing, built with `push` and `concat`. */
  method Walk(fs: FileSystem, dir: Path) returns (r: Listing)
    ensures r == WalkSpec(fs.nodes, dir)
    decreases Below(fs.nodes, dir)
  {
    var nodes := fs.nodes;
    if dir !in nodes {
      return Undefined;
    }
    if nodes[dir].File? {
      return Failed(NotDirectory(dir));  // readdirSync on a file
    }
    var names := nodes[dir].entries;
    var list: seq<Path> := [];
    var i := 0;
    while i < |names|
      invariant 0 <= i <= |names|
      invariant WalkEntries(nodes, dir, names[..i]) == Ok(list)
    {
      var child := Join(dir, names[i]);
      WalkEntriesStep(nodes, dir, names, i);
      if child !in nodes {
        return Failed(NoEntry(child));  // statSync throws
      }
      if nodes[child].Dir? {
        BelowShrinks(nodes, dir, names[i]);
        var sub := Walk(fs, child);
        if sub.Failed? {
          return sub;
        }
        list := list + sub.paths;
      } else {
        list := list + [child];
      }
      i := i + 1;
    }
    assert names[..i] == names;
    return Listed(list);
  }

  /** A file needs compiling: its mirror is missing, or strictly older. Equal times do not count. */
  predicate Stale(nodes: Nodes, appName: string, runtimeName: string, file: Path)
    requires file in nodes
  {
    var mirror := RuntimeFile(file, appName, runtimeName);
    mirror !in nodes || nodes[mirror].mtime < nodes[file].mtime
  }

  /** The stale files of `files`, in their order. */
  function FilterStale(nodes: Nodes, appName: string, runtimeName: string, files: seq<Path>): seq<Path>
    requires forall f :: f in files ==> f in nodes
  {
    if files == [] then []
    else
      var last := files[|files| - 1];
      FilterStale(nodes, appName, runtimeName, files[..|files| - 1]) +
      (if Stale(nodes, appName, runtimeName, last) then [last] else [])
  }

  /** `checkFilesChange`: a missing app directory gives no files; a failing walk throws. */
  function ChangedSpec(nodes: Nodes, appName: string, runtimeName: string): Result<seq<Path>>
  {
    match WalkSpec(nodes, appName)
    case Undefined => Ok([])
    case Failed(e) => Err(e)
    case Listed(ps) =>
      WalkListsFiles(nodes, appName);
      Ok(FilterStale(nodes, appName, runtimeName, ps))
  }

  /** A file is kept exactly when it was listed and is stale. */
  lemma {:induction false} FilterStaleMembers(nodes: Nodes, appName: string, runtimeName: string, files: seq<Path>, f: Path)
    requires forall g :: g in files ==> g in nodes
    ensures f in FilterStale(nodes, appName, runtimeName, files) <==>
      f in files && Stale(nodes, appName, runtimeName, f)
  {
    if files != [] {
      var init := files[..|files| - 1];
      assert files == init + [files[|files| - 1]];
      FilterStaleMembers(nodes, appName, runtimeName, init, f);
    }
  }

  /** One more file: the filter of a longer prefix adds that file when it is stale. */
  lemma FilterStaleStep(nodes: Nodes, appName: string, runtimeName: string, files: seq<Path>, key: nat)
    requires forall g :: g in files ==> g in nodes
    requires key < |files|
    ensures FilterStale(nodes, appName, runtimeName, files[..key + 1]) ==
      FilterStale(nodes, appName, runtimeName, files[..key]) +
      (if Stale(nodes, appName, runtimeName, files[key]) then [files[key]] else [])
  {
    assert files[..key + 1][..key] == files[..key];
  }

  /** Filtering keeps the order: it distributes over concatenation. */
  lemma {:induction false} FilterStaleAppend(nodes: Nodes, appName: string, runtimeName: string, a: seq<Path>, b: seq<Path>)
    requires forall g :: g in a + b ==> g in nodes
    ensures FilterStale(nodes, appName, runtimeName, a + b) ==
      FilterStale(nodes, appName, runtimeName, a) + FilterStale(nodes, appName, runtimeName, b)
    decreases |b|
  {
    if b == [] {
      assert a + b == a;
    } else {
      var b' := b[..|b| - 1];
      assert (a + b)[..|a + b| - 1] == a + b';
      assert (a + b)[|a + b| - 1] == b[|b| - 1];
      FilterStaleAppend(nodes, appName, runtimeName, a, b');
    }
  }

  /**
   * What `checkFilesChange` returns, in words: the walked files whose mirror is
   * absent or has an earlier time; a mirror with the same time keeps a file out.
   */
  lemma ChangedFiles(nodes: Nodes, appName: string, runtimeName: string, f: Path)
    requires WalkSpec(nodes, appName).Listed?
    ensures ChangedSpec(nodes, appName, runtimeName).Ok?
    ensures f in ChangedSpec(nodes, appName, runtimeName).value <==>
      f in WalkSpec(nodes, appName).paths && f in nodes &&
      var mirror := RuntimeFile(f, appName, runtimeName);
      (mirror !in nodes || nodes[mirror].mtime < nodes[f].mtime)
  {
    WalkListsFiles(nodes, appName);
    FilterStaleMembers(nodes, appName, runtimeName, WalkSpec(nodes, appName).paths, f);
  }

  /** A missing app directory yields no changed files. */
  lemma ChangedWithoutApp(nodes: Nodes, appName: string, runtimeName: string)
    requires appName !in nodes
    ensures ChangedSpec(nodes, appName, runtimeName) == Ok([])
  {
  }

  /** `checkFilesChange`: walk the app directory, then keep the stale files in order. */
  method CheckFilesChange(fs: FileSystem, appName: string, runtimeName: string) returns (r: Result<seq<Path>>)
    ensures r == ChangedSpec(fs.nodes, appName, runtimeName)
  {
    var walked := Walk(fs, appName);
    if walked.Failed? {
      return Err(walked.error);
    }
    // `for (let key in files)` runs no iteration when `walk` returned undefined
    var files := if walked.Listed? then walked.paths else [];
    WalkListsFiles(fs.nodes, appName);
    var changedFiles: seq<Path> := [];
    var key := 0;
    while key < |files|
      invariant 0 <= key <= |files|
      invariant changedFiles == FilterStale(fs.nodes, appName, runtimeName, files[..key])
    {
      FilterStaleStep(fs.nodes, appName, runtimeName, files, key);
      var mTimeApp := fs.nodes[files[key]].mtime;
      var runtimeFile := RuntimeFile(files[key], appName, runtimeName);
      if runtimeFile in fs.nodes {
        var mTimeRuntime := fs.nodes[runtimeFile].mtime;
        if mTimeRuntime < mTimeApp {
          changedFiles := changedFiles + [files[key]];
        }
      } else {
        changedFiles := changedFiles + [files[key]];
      }
      key := key + 1;
    }
    assert files[..key] == files;
    return Ok(changedFiles);
  }
}
