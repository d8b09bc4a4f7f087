/**
 * `mkdirsSync`, `fileCopySync`, `compileByBabel` and the loops that compile a
 * list of files. Each operation is a method on the filesystem whose new state is
 * given by a function of the old one; the lemmas state what those functions do.
 */
module Build {
  import opened Common
  import opened Paths
  import opened Extensions
  import opened Fs
  import opened Tree

  /** The compiler (`babel.transform`): the file name and its bytes to code, or `None` when it throws. */
  type Compiler = (Path, seq<bv8>) -> Option<seq<bv8>>

  /** Base name the copy step skips. */
  const MetadataFile := ".DS_Store"

  /** `mkdirsSync(d)`: make the missing ancestors of `d`, parents first, then `d`. */
  function MkdirsSpec(nodes: Nodes, now: int, d: Path): (Outcome, Nodes)
    decreases Height(d)
  {
    if d in nodes then (Done, nodes)
    else if Dirname(d) == d then (Thrown(TooMuchRecursion(d)), nodes)
    else
      DirnameDescends(d);
      var (o, parents) := MkdirsSpec(nodes, now, Dirname(d));
      if o.Thrown? then (o, parents) else MkDirStep(parents, now, d)
  }

  /** The directories `mkdirsSync(d)` has to create, parents first: `d` and its missing ancestors. */
  function MissingChain(nodes: Nodes, d: Path): seq<Path>
    decreases Height(d)
  {
    if d in nodes || Dirname(d) == d then []
    else
      DirnameDescends(d);
      MissingChain(nodes, Dirname(d)) + [d]
  }

  /** Each directory of the chain comes right after its parent, the first one's parent exists, and the last is `d`. */
  lemma {:induction false} MissingChainOrdered(nodes: Nodes, d: Path)
    ensures var chain := MissingChain(nodes, d);
      (forall i :: 0 < i < |chain| ==> Dirname(chain[i]) == chain[i - 1]) &&
      (chain != [] ==>
         chain[|chain| - 1] == d &&
         (Dirname(chain[0]) in nodes || Dirname(Dirname(chain[0])) == Dirname(chain[0]))) &&
      (forall p :: p in chain ==> p !in nodes && Height(p) <= Height(d))
  {
    MissingChainLinked(nodes, d);
    MissingChainEnds(nodes, d);
    MissingChainFresh(nodes, d);
  }

  lemma {:induction false} MissingChainLinked(nodes: Nodes, d: Path)
    ensures var chain := MissingChain(nodes, d);
      forall i :: 0 < i < |chain| ==> Dirname(chain[i]) == chain[i - 1]
    decreases Height(d)
  {
    if d !in nodes && Dirname(d) != d {
      DirnameDescends(d);
      MissingChainLinked(nodes, Dirname(d));
      MissingChainEnds(nodes, Dirname(d));
      var chain := MissingChain(nodes, d);
      var up := MissingChain(nodes, Dirname(d));
      assert chain == up + [d];
      forall i | 0 < i < |chain|
        ensures Dirname(chain[i]) == chain[i - 1]
      {
        if i < |up| {
          assert chain[i] == up[i] && chain[i - 1] == up[i - 1];
        }
      }
    }
  }

  lemma {:induction false} MissingChainEnds(nodes: Nodes, d: Path)
    ensures var chain := MissingChain(nodes, d);
      chain != [] ==>
        chain[|chain| - 1] == d &&
        (Dirname(chain[0]) in nodes || Dirname(Dirname(chain[0])) == Dirname(chain[0]))
    decreases Height(d)
  {
    if d !in nodes && Dirname(d) != d {
      DirnameDescends(d);
      MissingChainEnds(nodes, Dirname(d));
      var chain := MissingChain(nodes, d);
      var up := MissingChain(nodes, Dirname(d));
      assert chain == up + [d];
      if up != [] {
        assert chain[0] == up[0];
      }
    }
  }

  lemma {:induction false} MissingChainFresh(nodes: Nodes, d: Path)
    ensures forall p :: p in MissingChain(nodes, d) ==> p !in nodes && Height(p) <= Height(d)
    decreases Height(d)
  {
    if d !in nodes && Dirname(d) != d {
      DirnameDescends(d);
      MissingChainFresh(nodes, Dirname(d));
      assert MissingChain(nodes, d) == MissingChain(nodes, Dirname(d)) + [d];
    }
  }

  /** `mkdirsSync(d)` keeps every existing node and the tree consistent; what it adds are directories stamped `now`. */
  lemma MkdirsKeeps(nodes: Nodes, now: int, d: Path)
    requires Wf(nodes)
    ensures var after := MkdirsSpec(nodes, now, d).1;
      Wf(after) && Extends(nodes, after) &&
      forall p :: p in after && p !in nodes ==> after[p].Dir? && after[p].mtime == now
  {
    MkdirsWf(nodes, now, d);
    MkdirsExtends(nodes, now, d);
  }

  lemma {:induction false} MkdirsWf(nodes: Nodes, now: int, d: Path)
    requires Wf(nodes)
    ensures Wf(MkdirsSpec(nodes, now, d).1)
    decreases Height(d)
  {
    if d !in nodes && Dirname(d) != d {
      DirnameDescends(d);
      MkdirsWf(nodes, now, Dirname(d));
      var (o, parents) := MkdirsSpec(nodes, now, Dirname(d));
      if o.Done? && d !in parents {
        CreateStepWf(parents, d, Dir([], now));
      }
    }
  }

  lemma {:induction false} MkdirsExtends(nodes: Nodes, now: int, d: Path)
    ensures var after := MkdirsSpec(nodes, now, d).1;
      Extends(nodes, after) &&
      forall p :: p in after && p !in nodes ==> after[p].Dir? && after[p].mtime == now
    decreases Height(d)
  {
    if d !in nodes && Dirname(d) != d {
      DirnameDescends(d);
      var up := Dirname(d);
      MkdirsExtends(nodes, now, up);
      var (o, parents) := MkdirsSpec(nodes, now, up);
      if o.Done? {
        var after := MkDirStep(parents, now, d).1;
        assert MkdirsSpec(nodes, now, d).1 == after;
        MkDirStepExtends(parents, now, d);
        ExtendsTransitive(nodes, parents, after);
        forall p | p in after && p !in nodes
          ensures after[p].Dir? && after[p].mtime == now
        {
          if p in parents {
            assert parents[p].Dir? && parents[p].mtime == now;
            assert Kept(parents[p], after[p]);
          }
        }
      }
    }
  }

  /** One `mkdirSync(d)` keeps every node; whatever it adds is an empty directory stamped `now`. */
  lemma MkDirStepExtends(nodes: Nodes, now: int, d: Path)
    ensures var after := MkDirStep(nodes, now, d).1;
      Extends(nodes, after) &&
      forall p :: p in after && p !in nodes ==> after[p] == Dir([], now)
  {
    if d !in nodes {
      CreateStepKeeps(nodes, d, Dir([], now));
    } else {
      var after := MkDirStep(nodes, now, d).1;
      assert after == nodes;
      assert forall p :: p in nodes ==> Kept(nodes[p], after[p]);
    }
  }

  /** `mkdirsSync(d)` creates only directories of the missing chain, and on success all of them. */
  lemma {:induction false} MkdirsCreatesChain(nodes: Nodes, now: int, d: Path)
    ensures var (o, after) := MkdirsSpec(nodes, now, d);
      var chain := MissingChain(nodes, d);
      (forall p :: p in after ==> p in nodes || p in chain) &&
      (o.Done? ==> d in after && forall p :: p in chain ==> p in after)
  {
    MkdirsOnlyChain(nodes, now, d);
    MkdirsMakesChain(nodes, now, d);
  }

  lemma {:induction false} MkdirsOnlyChain(nodes: Nodes, now: int, d: Path)
    ensures forall p :: p in MkdirsSpec(nodes, now, d).1 ==> p in nodes || p in MissingChain(nodes, d)
    decreases Height(d)
  {
    if d !in nodes && Dirname(d) != d {
      DirnameDescends(d);
      var up := Dirname(d);
      MkdirsOnlyChain(nodes, now, up);
      var (o, parents) := MkdirsSpec(nodes, now, up);
      var chain := MissingChain(nodes, d);
      assert chain == MissingChain(nodes, up) + [d];
      var after := MkdirsSpec(nodes, now, d).1;
      if o.Done? {
        MissingChainFresh(nodes, up);
        assert d !in parents;
        assert MkdirsSpec(nodes, now, d) == CreateStep(parents, d, Dir([], now));
        CreateStepKeeps(parents, d, Dir([], now));
        assert after.Keys <= parents.Keys + {d};
      } else {
        assert after == parents;
      }
    }
  }

  lemma {:induction false} MkdirsMakesChain(nodes: Nodes, now: int, d: Path)
    ensures var (o, after) := MkdirsSpec(nodes, now, d);
      o.Done? ==> d in after && forall p :: p in MissingChain(nodes, d) ==> p in after
    decreases Height(d)
  {
    if d !in nodes && Dirname(d) != d {
      DirnameDescends(d);
      var up := Dirname(d);
      MkdirsMakesChain(nodes, now, up);
      var (o, parents) := MkdirsSpec(nodes, now, up);
      var chain := MissingChain(nodes, d);
      assert chain == MissingChain(nodes, up) + [d];
      var (o', after) := MkdirsSpec(nodes, now, d);
      if o'.Done? {
        assert o.Done? && d !in parents;
        assert (o', after) == CreateStep(parents, d, Dir([], now));
        CreateStepKeeps(parents, d, Dir([], now));
        assert after.Keys == parents.Keys + {d};
      }
    }
  }

  /**
   * When `mkdirsSync(d)` can succeed: `d` exists already, or it is not a root, is
   * spelled as its directory joined with its name, its directory can be made, and
   * that directory, if it exists, is a directory.
   */
  ghost predicate CanMkdirs(nodes: Nodes, d: Path)
    decreases Height(d)
  {
    d in nodes ||
    (Dirname(d) != d && IsName(Basename(d)) && Join(Dirname(d), Basename(d)) == d &&
     (Dirname(d) in nodes ==> nodes[Dirname(d)].Dir?) &&
     (DirnameDescends(d); CanMkdirs(nodes, Dirname(d))))
  }

  /** `mkdirsSync(d)` returns rather than throws exactly when `CanMkdirs(nodes, d)`. */
  lemma {:induction false} MkdirsDoneIff(nodes: Nodes, now: int, d: Path)
    ensures MkdirsSpec(nodes, now, d).0.Done? <==> CanMkdirs(nodes, d)
    decreases Height(d)
  {
    if d !in nodes && Dirname(d) != d {
      DirnameDescends(d);
      var up := Dirname(d);
      MkdirsDoneIff(nodes, now, up);
      var (o, parents) := MkdirsSpec(nodes, now, up);
      if o.Done? {
        MkdirsCreatesChain(nodes, now, up);
        MkdirsExtends(nodes, now, up);
        MissingChainFresh(nodes, up);
        assert d !in parents;
        assert MkdirsSpec(nodes, now, d) == CreateStep(parents, d, Dir([], now));
        CreateStepKeeps(parents, d, Dir([], now));
        assert up in parents;
        if up in nodes {
          assert Kept(nodes[up], parents[up]);
        }
      }
    }
  }

  /** Every ancestor of `p` is an existing directory, up to a root. */
  ghost predicate AncestorsAreDirs(nodes: Nodes, p: Path)
    decreases Height(p)
  {
    Dirname(p) in nodes && nodes[Dirname(p)].Dir? &&
    (Dirname(p) == p || (DirnameDescends(p); AncestorsAreDirs(nodes, Dirname(p))))
  }

  lemma {:induction false} WfAncestors(nodes: Nodes, p: Path)
    requires Wf(nodes) && p in nodes
    ensures AncestorsAreDirs(nodes, p)
    decreases Height(p)
  {
    if Dirname(p) != p {
      DirnameDescends(p);
      WfAncestors(nodes, Dirname(p));
    }
  }

  /**
   * After `mkdirsSync(d)` succeeds, `d` exists (a directory unless it was already
   * there) with all its ancestors as directories, and a second call changes nothing.
   */
  lemma MkdirsEstablishes(nodes: Nodes, now: int, d: Path)
    requires Wf(nodes)
    ensures var (o, after) := MkdirsSpec(nodes, now, d);
      o.Done? ==>
        d in after && (d !in nodes ==> after[d].Dir?) && AncestorsAreDirs(after, d) &&
        MkdirsSpec(after, now, d) == (Done, after)
  {
    MkdirsKeeps(nodes, now, d);
    MkdirsCreatesChain(nodes, now, d);
    var (o, after) := MkdirsSpec(nodes, now, d);
    if o.Done? {
      WfAncestors(after, d);
    }
  }

  /** `mkdirsSync`: recursive, returns true (`Done`) or throws. */
  method MkdirsSync(fs: FileSystem, dirname: Path) returns (o: Outcome)
    modifies fs
    ensures (o, fs.nodes) == MkdirsSpec(old(fs.nodes), fs.now, dirname)
    decreases Height(dirname)
  {
    if dirname in fs.nodes {
      return Done;
    }
    if Dirname(dirname) == dirname {
      return Thrown(TooMuchRecursion(dirname));
    }
    DirnameDescends(dirname);
    o := MkdirsSync(fs, Dirname(dirname));
    if o.Thrown? {
      return;
    }
    o := fs.MkDir(dirname);
  }

  /** `fileCopySync(src, dest)`: nothing unless `dest` exists; otherwise its bytes become those of `src`. */
  function CopySpec(nodes: Nodes, now: int, src: Path, dest: Path): (Outcome, Nodes)
  {
    if dest !in nodes then (Done, nodes)
    else
      var (o, parents) := MkdirsSpec(nodes, now, Dirname(dest));
      if o.Thrown? then (o, parents)
      else match ReadStep(parents, src)
        case Err(e) => (Thrown(e), parents)
        case Ok(data) => WriteStep(parents, now, dest, data)
  }

  method FileCopySync(fs: FileSystem, src: Path, dest: Path) returns (o: Outcome)
    modifies fs
    ensures (o, fs.nodes) == CopySpec(old(fs.nodes), fs.now, src, dest)
  {
    if dest !in fs.nodes {
      return Done;
    }
    o := MkdirsSync(fs, Dirname(dest));
    if o.Thrown? {
      return;
    }
    var data := fs.ReadFile(src);
    if data.Err? {
      return Thrown(data.error);
    }
    o := fs.WriteFile(dest, data.value);
  }

  /** `compileByBabel(file, appName, runtimeName)`. */
  function CompileSpec(nodes: Nodes, now: int, file: Path, appName: string, runtimeName: string, babel: Compiler): (Outcome, Nodes)
  {
    var runtimeFile := RuntimeFile(file, appName, runtimeName);
    if !IsTransformable(file) then
      if Basename(file) != MetadataFile then CopySpec(nodes, now, file, runtimeFile) else (Done, nodes)
    else
      var (o, parents) := MkdirsSpec(nodes, now, Dirname(runtimeFile));
      if o.Thrown? then (o, parents)
      else match ReadStep(parents, file)
        case Err(e) => (Thrown(e), parents)
        case Ok(content) =>
          match babel(file, content)
          case None => (Thrown(TransformFailed(file)), parents)
          case Some(code) => WriteStep(parents, now, runtimeFile, code)
  }

  method CompileByBabel(fs: FileSystem, file: Path, appName: string, runtimeName: string, babel: Compiler) returns (o: Outcome)
    modifies fs
    ensures (o, fs.nodes) == CompileSpec(old(fs.nodes), fs.now, file, appName, runtimeName, babel)
  {
    var runtimeFile := RuntimeFile(file, appName, runtimeName);
    var transformable := CheckFileExtensions(file);
    if !transformable {
      if Basename(file) != MetadataFile {
        o := FileCopySync(fs, file, runtimeFile);
      } else {
        o := Done;
      }
      return;
    }
    o := MkdirsSync(fs, Dirname(runtimeFile));
    if o.Thrown? {
      return;
    }
    var content := fs.ReadFile(file);
    if content.Err? {
      return Thrown(content.error);
    }
    match babel(file, content.value)
    case None =>
      o := Thrown(TransformFailed(file));
    case Some(code) =>
      o := fs.WriteFile(runtimeFile, code);
  }

  /** A non-transformable `.DS_Store`, or one whose mirror does not exist, leaves the filesystem as it is. */
  lemma CompileSkips(nodes: Nodes, now: int, file: Path, appName: string, runtimeName: string, babel: Compiler)
    requires !IsTransformable(file)
    requires Basename(file) == MetadataFile || RuntimeFile(file, appName, runtimeName) !in nodes
    ensures CompileSpec(nodes, now, file, appName, runtimeName, babel) == (Done, nodes)
  {
  }

  /** A non-transformable file whose mirror is an existing file overwrites that mirror with its bytes, and nothing else. */
  lemma CompileCopies(nodes: Nodes, now: int, file: Path, appName: string, runtimeName: string, babel: Compiler)
    requires Wf(nodes)
    requires !IsTransformable(file) && Basename(file) != MetadataFile
    requires file in nodes && nodes[file].File?
    requires var mirror := RuntimeFile(file, appName, runtimeName); mirror in nodes && nodes[mirror].File?
    ensures var mirror := RuntimeFile(file, appName, runtimeName);
      CompileSpec(nodes, now, file, appName, runtimeName, babel) == (Done, nodes[mirror := File(nodes[file].bytes, now)])
  {
    var mirror := RuntimeFile(file, appName, runtimeName);
    assert ParentsListed(nodes) && Dirname(mirror) in nodes;
    CopyOverFile(nodes, now, file, mirror);
    assert CompileSpec(nodes, now, file, appName, runtimeName, babel) == CopySpec(nodes, now, file, mirror);
  }

  /** `fileCopySync` onto an existing file overwrites it with the source's bytes, and nothing else. */
  lemma CopyOverFile(nodes: Nodes, now: int, src: Path, dest: Path)
    requires Dirname(dest) in nodes
    requires src in nodes && nodes[src].File? && dest in nodes && nodes[dest].File?
    ensures CopySpec(nodes, now, src, dest) == (Done, nodes[dest := File(nodes[src].bytes, now)])
  {
    var d := Dirname(dest);
    assert MkdirsSpec(nodes, now, d) == (Done, nodes);
    var data := nodes[src].bytes;
    assert ReadStep(nodes, src) == Ok(data);
    assert WriteStep(nodes, now, dest, data) == (Done, nodes[dest := File(data, now)]);
  }

  /**
   * Writing into a directory that exists: a file already at `p` is replaced, an
   * absent one is created; the tree stays consistent and nothing else changes.
   */
  lemma WriteIntoDir(nodes: Nodes, now: int, p: Path, data: seq<bv8>)
    requires Wf(nodes)
    requires Dirname(p) in nodes && nodes[Dirname(p)].Dir?
    requires p in nodes ==> nodes[p].File?
    requires p !in nodes ==> IsName(Basename(p)) && Join(Dirname(p), Basename(p)) == p
    ensures var (o, after) := WriteStep(nodes, now, p, data);
      o.Done? && after.Keys == nodes.Keys + {p} && after[p] == File(data, now) && Wf(after) &&
      forall q :: q in nodes && q != p ==> Kept(nodes[q], after[q])
  {
    WriteStepWf(nodes, now, p, data);
    if p !in nodes {
      CreateStepKeeps(nodes, p, File(data, now));
    }
  }

  /**
   * Making the mirror's directories: afterwards the tree is consistent, the mirror's
   * directory exists as a directory, the mirror is there exactly when it was (and
   * unchanged), and every new node belongs to the missing chain.
   */
  lemma MkdirsForMirror(nodes: Nodes, now: int, mirror: Path)
    requires Wf(nodes)
    requires mirror in nodes ==> nodes[mirror].File?
    requires Dirname(mirror) in nodes ==> nodes[Dirname(mirror)].Dir?
    requires CanMkdirs(nodes, Dirname(mirror))
    ensures MkdirsSpec(nodes, now, Dirname(mirror)).0.Done?
    ensures var parents := MkdirsSpec(nodes, now, Dirname(mirror)).1;
      Wf(parents) && Extends(nodes, parents) &&
      Dirname(mirror) in parents && parents[Dirname(mirror)].Dir? &&
      (mirror in parents <==> mirror in nodes) &&
      (forall p :: p in parents ==> p in nodes || p in MissingChain(nodes, Dirname(mirror)))
  {
    var d := Dirname(mirror);
    MkdirsDoneIff(nodes, now, d);
    MkdirsKeeps(nodes, now, d);
    MkdirsCreatesChain(nodes, now, d);
    var parents := MkdirsSpec(nodes, now, d).1;
    if d in nodes {
      assert Kept(nodes[d], parents[d]);
    }
    if mirror !in nodes {
      if Dirname(mirror) == mirror {
        assert false;
      }
      DirnameDescends(mirror);
      MissingChainFresh(nodes, d);
      assert mirror !in MissingChain(nodes, d);
    }
  }

  /**
   * A transformable file, once its mirror's directories can be made, has the
   * compiler's output written to the mirror, which is a file stamped `now`
   * afterwards whether or not it existed. The tree stays consistent with every
   * ancestor of the mirror a directory, nodes other than the mirror are kept, and
   * the only new nodes are the mirror and the directories `mkdirsSync` creates.
   */
  lemma CompileWritesCode(nodes: Nodes, now: int, file: Path, appName: string, runtimeName: string, babel: Compiler, code: seq<bv8>)
    requires Wf(nodes)
    requires IsTransformable(file)
    requires file in nodes && nodes[file].File? && babel(file, nodes[file].bytes) == Some(code)
    requires var mirror := RuntimeFile(file, appName, runtimeName);
      (mirror in nodes ==> nodes[mirror].File?) &&
      (mirror !in nodes ==> IsName(Basename(mirror)) && Join(Dirname(mirror), Basename(mirror)) == mirror) &&
      (Dirname(mirror) in nodes ==> nodes[Dirname(mirror)].Dir?) &&
      CanMkdirs(nodes, Dirname(mirror))
    ensures var mirror := RuntimeFile(file, appName, runtimeName);
      var (o, after) := CompileSpec(nodes, now, file, appName, runtimeName, babel);
      o.Done? && mirror in after && after[mirror] == File(code, now) &&
      Wf(after) && AncestorsAreDirs(after, mirror) &&
      (forall p :: p in nodes && p != mirror ==> p in after && Kept(nodes[p], after[p])) &&
      (forall p :: p in after ==> p in nodes || p == mirror || p in MissingChain(nodes, Dirname(mirror)))
  {
    var mirror := RuntimeFile(file, appName, runtimeName);
    var d := Dirname(mirror);
    MkdirsForMirror(nodes, now, mirror);
    var parents := MkdirsSpec(nodes, now, d).1;
    assert Kept(nodes[file], parents[file]);
    assert CompileSpec(nodes, now, file, appName, runtimeName, babel) == WriteStep(parents, now, mirror, code);
    WriteAfterMkdirs(nodes, parents, now, mirror, code, MissingChain(nodes, d));
  }

  /** The write that ends `compileByBabel`, into the tree `mkdirsSync` left behind. */
  lemma WriteAfterMkdirs(nodes: Nodes, parents: Nodes, now: int, mirror: Path, code: seq<bv8>, chain: seq<Path>)
    requires Wf(nodes) && Wf(parents) && Extends(nodes, parents)
    requires mirror in nodes ==> nodes[mirror].File?
    requires mirror !in nodes ==> IsName(Basename(mirror)) && Join(Dirname(mirror), Basename(mirror)) == mirror
    requires Dirname(mirror) in parents && parents[Dirname(mirror)].Dir?
    requires mirror in parents <==> mirror in nodes
    requires forall p :: p in parents ==> p in nodes || p in chain
    ensures var (o, after) := WriteStep(parents, now, mirror, code);
      o.Done? && mirror in after && after[mirror] == File(code, now) &&
      Wf(after) && AncestorsAreDirs(after, mirror) &&
      (forall p :: p in nodes && p != mirror ==> p in after && Kept(nodes[p], after[p])) &&
      (forall p :: p in after ==> p in nodes || p == mirror || p in chain)
  {
    if mirror in nodes {
      assert Kept(nodes[mirror], parents[mirror]);
    }
    WriteIntoDir(parents, now, mirror, code);
    var after := WriteStep(parents, now, mirror, code).1;
    WfAncestors(after, mirror);
    forall p | p in nodes && p != mirror
      ensures p in after && Kept(nodes[p], after[p])
    {
      assert Kept(nodes[p], parents[p]) && Kept(parents[p], after[p]);
    }
  }

  /** The loop `for (key in files) compileByBabel(files[key], ...)`: in order, stopping at the first exception. */
  function CompileAllSpec(nodes: Nodes, now: int, files: seq<Path>, appName: string, runtimeName: string, babel: Compiler): (Outcome, Nodes)
    decreases |files|
  {
    if files == [] then (Done, nodes)
    else
      var (o, next) := CompileSpec(nodes, now, files[0], appName, runtimeName, babel);
      if o.Thrown? then (o, next) else CompileAllSpec(next, now, files[1..], appName, runtimeName, babel)
  }

  /** Compiling `a + b` is compiling `a` and then, if nothing was thrown, `b` from there. */
  lemma {:induction false} CompileAllAppend(nodes: Nodes, now: int, a: seq<Path>, b: seq<Path>, appName: string, runtimeName: string, babel: Compiler)
    ensures var (o, mid) := CompileAllSpec(nodes, now, a, appName, runtimeName, babel);
      CompileAllSpec(nodes, now, a + b, appName, runtimeName, babel) ==
        if o.Thrown? then (o, mid) else CompileAllSpec(mid, now, b, appName, runtimeName, babel)
    decreases |a|
  {
    if a == [] {
      assert a + b == b;
    } else {
      assert (a + b)[0] == a[0] && (a + b)[1..] == a[1..] + b;
      var (o, next) := CompileSpec(nodes, now, a[0], appName, runtimeName, babel);
      if o.Done? {
        CompileAllAppend(next, now, a[1..], b, appName, runtimeName, babel);
      }
    }
  }

  /** Compiles `files` in order; an exception stops the loop and is passed on. */
  method CompileEach(fs: FileSystem, files: seq<Path>, appName: string, runtimeName: string, babel: Compiler) returns (o: Outcome)
    modifies fs
    ensures (o, fs.nodes) == CompileAllSpec(old(fs.nodes), fs.now, files, appName, runtimeName, babel)
  {
    var key := 0;
    while key < |files|
      invariant 0 <= key <= |files|
      invariant CompileAllSpec(old(fs.nodes), fs.now, files, appName, runtimeName, babel) ==
        CompileAllSpec(fs.nodes, fs.now, files[key..], appName, runtimeName, babel)
    {
      assert files[key..][0] == files[key] && files[key..][1..] == files[key + 1..];
      o := CompileByBabel(fs, files[key], appName, runtimeName, babel);
      if o.Thrown? {
        return;
      }
      key := key + 1;
    }
    return Done;
  }

  /** The whole-tree pass of `start --compile`: check what changed, then compile it. */
  function BuildSpec(nodes: Nodes, now: int, appName: string, runtimeName: string, babel: Compiler): (Outcome, Nodes)
  {
    match ChangedSpec(nodes, appName, runtimeName)
    case Err(e) => (Thrown(e), nodes)
    case Ok(changed) => CompileAllSpec(nodes, now, changed, appName, runtimeName, babel)
  }

  method CompileChanged(fs: FileSystem, appName: string, runtimeName: string, babel: Compiler) returns (o: Outcome)
    modifies fs
    ensures (o, fs.nodes) == BuildSpec(old(fs.nodes), fs.now, appName, runtimeName, babel)
  {
    var changedFiles := CheckFilesChange(fs, appName, runtimeName);
    if changedFiles.Err? {
      return Thrown(changedFiles.error);
    }
    o := CompileEach(fs, changedFiles.value, appName, runtimeName, babel);
  }
}
