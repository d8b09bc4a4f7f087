/**
 * The abstract filesystem the core runs against: a map from path to node. A
 * directory keeps its entry names in the order `readdirSync` lists them. The
 * `fs` calls of the source become the step functions below; a call that would
 * throw returns `Thrown` (or `Err`) with the error it raises.
 */
module Fs {
  import opened Paths

  datatype Node =
    | Dir(entries: seq<Name>, mtime: int)
    | File(bytes: seq<bv8>, mtime: int)

  type Nodes = map<Path, Node>

  datatype FsError =
    | NoEntry(path: Path)          // ENOENT
    | IsDirectory(path: Path)      // EISDIR
    | NotDirectory(path: Path)     // ENOTDIR
    | AlreadyExists(path: Path)    // EEXIST
    | TooMuchRecursion(path: Path) // mkdirsSync never reaching an existing directory
    | TransformFailed(path: Path)  // the compiler rejected the file

  datatype Outcome = Done | Thrown(error: FsError)

  datatype Result<T> = Ok(value: T) | Err(error: FsError)

  /**
   * A consistent tree. Every path's dirname is an existing directory. Every other
   * path than a root is the join of its dirname and its name, and that name is
   * listed in the directory. Every listed name joined to its directory exists, and
   * no directory lists a name twice.
   */
  ghost predicate Wf(nodes: Nodes)
  {
    ParentsListed(nodes) && EntriesExist(nodes) && EntriesDistinct(nodes)
  }

  ghost predicate ParentsListed(nodes: Nodes)
  {
    forall p {:trigger Dirname(p)} :: p in nodes ==>
      Dirname(p) in nodes && nodes[Dirname(p)].Dir? &&
      (Dirname(p) != p ==>
        IsName(Basename(p)) && Join(Dirname(p), Basename(p)) == p && Basename(p) in nodes[Dirname(p)].entries)
  }

  ghost predicate EntriesExist(nodes: Nodes)
  {
    forall d, n :: d in nodes && nodes[d].Dir? && n in nodes[d].entries ==> Join(d, n) in nodes
  }

  /** A listing as `readdirSync` returns it: no name twice. */
  predicate Distinct(names: seq<Name>)
  {
    forall i, j :: 0 <= i < j < |names| ==> names[i] != names[j]
  }

  ghost predicate EntriesDistinct(nodes: Nodes)
  {
    forall d :: d in nodes && nodes[d].Dir? ==> Distinct(nodes[d].entries)
  }

  /** The paths of a consistent tree are tidy. */
  lemma WfTidy(nodes: Nodes, p: Path)
    requires Wf(nodes) && p in nodes
    ensures Tidy(p)
  {
    if Dirname(p) == p {
      DirnameRoots();
      var i := LastSlash(p);
      assert i < 0 ==> p == ".";
      assert i == 0 ==> p == "/";
    } else {
      JoinBelow(Dirname(p), Basename(p));
    }
  }

  /** What a later state keeps of an earlier node: its kind and time, a file its bytes, a directory its listing as a prefix. */
  ghost predicate Kept(before: Node, after: Node)
  {
    after.mtime == before.mtime &&
    (before.File? ==> after == before) &&
    (before.Dir? ==> after.Dir? && before.entries <= after.entries)
  }

  /** Every node of `before` is still in `after`, kept. */
  ghost predicate Extends(before: Nodes, after: Nodes)
  {
    forall p :: p in before ==> p in after && Kept(before[p], after[p])
  }

  lemma ExtendsTransitive(a: Nodes, b: Nodes, c: Nodes)
    requires Extends(a, b) && Extends(b, c)
    ensures Extends(a, c)
  {
    forall p | p in a
      ensures p in c && Kept(a[p], c[p])
    {
      assert p in b && Kept(a[p], b[p]) && Kept(b[p], c[p]);
    }
  }

  /** `readFileSync(p)`. */
  function ReadStep(nodes: Nodes, p: Path): (r: Result<seq<bv8>>)
    ensures r.Ok? <==> p in nodes && nodes[p].File?
    ensures r.Ok? ==> r.value == nodes[p].bytes
  {
    if p !in nodes then Err(NoEntry(p))
    else if nodes[p].Dir? then Err(IsDirectory(p))
    else Ok(nodes[p].bytes)
  }

  /**
   * Adds a new node at the absent path `p`, listing it last in its parent directory.
   * A path not spelled as the join of its dirname and its name is refused.
   */
  function CreateStep(nodes: Nodes, p: Path, node: Node): (Outcome, Nodes)
    requires p !in nodes
  {
    var parent := Dirname(p);
    if parent !in nodes || !IsName(Basename(p)) || Join(parent, Basename(p)) != p then (Thrown(NoEntry(p)), nodes)
    else if nodes[parent].File? then (Thrown(NotDirectory(p)), nodes)
    else
      var listing := Dir(nodes[parent].entries + [Basename(p)], nodes[parent].mtime);
      (Done, nodes[parent := listing][p := node])
  }

  /** `mkdirSync(p)`: a fresh empty directory stamped `now`. */
  function MkDirStep(nodes: Nodes, now: int, p: Path): (Outcome, Nodes)
  {
    if p in nodes then (Thrown(AlreadyExists(p)), nodes)
    else CreateStep(nodes, p, Dir([], now))
  }

  /** `writeFileSync(p, data)`: replaces or creates a file stamped `now`. */
  function WriteStep(nodes: Nodes, now: int, p: Path, data: seq<bv8>): (Outcome, Nodes)
  {
    if p in nodes then
      if nodes[p].Dir? then (Thrown(IsDirectory(p)), nodes)
      else (Done, nodes[p := File(data, now)])
    else CreateStep(nodes, p, File(data, now))
  }

  /** A creation keeps every node, adds exactly `p` when it succeeds, and changes nothing when it fails. */
  lemma CreateStepKeeps(nodes: Nodes, p: Path, node: Node)
    requires p !in nodes
    ensures var (o, after) := CreateStep(nodes, p, node);
      Extends(nodes, after) &&
      (o.Done? <==>
         (Dirname(p) in nodes && nodes[Dirname(p)].Dir? && IsName(Basename(p)) &&
          Join(Dirname(p), Basename(p)) == p)) &&
      (o.Done? ==> after.Keys == nodes.Keys + {p} && after[p] == node) &&
      (o.Thrown? ==> after == nodes)
  {
    var (o, after) := CreateStep(nodes, p, node);
    if o.Done? {
      var parent := Dirname(p);
      var e := nodes[parent].entries;
      assert e <= e + [Basename(p)];
      assert Kept(nodes[parent], after[parent]);
    }
  }

  /** A creation of a file or an empty directory keeps the tree consistent. */
  lemma CreateStepWf(nodes: Nodes, p: Path, node: Node)
    requires p !in nodes && Wf(nodes)
    requires node.Dir? ==> node.entries == []
    ensures Wf(CreateStep(nodes, p, node).1)
  {
    CreateStepParents(nodes, p, node);
    CreateStepEntries(nodes, p, node);
    CreateStepDistinct(nodes, p, node);
  }

  /** The new name is not listed yet: listed names exist, and `p` does not. */
  lemma CreateStepDistinct(nodes: Nodes, p: Path, node: Node)
    requires p !in nodes && EntriesExist(nodes) && EntriesDistinct(nodes)
    requires node.Dir? ==> node.entries == []
    ensures EntriesDistinct(CreateStep(nodes, p, node).1)
  {
    var (o, after) := CreateStep(nodes, p, node);
    if o.Done? {
      var parent := Dirname(p);
      var e := nodes[parent].entries;
      assert Basename(p) !in e;
      assert after[parent].entries == e + [Basename(p)];
      forall d | d in after && after[d].Dir?
        ensures Distinct(after[d].entries)
      {
        if d != parent && d != p {
          assert after[d] == nodes[d];
        }
      }
    }
  }

  lemma CreateStepParents(nodes: Nodes, p: Path, node: Node)
    requires p !in nodes && ParentsListed(nodes)
    ensures ParentsListed(CreateStep(nodes, p, node).1)
  {
    var (o, after) := CreateStep(nodes, p, node);
    if o.Done? {
      var parent := Dirname(p);
      assert after[parent].entries == nodes[parent].entries + [Basename(p)];
      forall q | q in after
        ensures Dirname(q) in after && after[Dirname(q)].Dir?
        ensures Dirname(q) != q ==>
          IsName(Basename(q)) && Join(Dirname(q), Basename(q)) == q && Basename(q) in after[Dirname(q)].entries
      {
        var d := Dirname(q);
        if q != p {
          assert q in nodes && d in nodes && nodes[d].Dir?;
          assert d != p;
          if d == parent && d != q {
            assert Basename(q) in nodes[parent].entries;
          }
        }
      }
    }
  }

  lemma CreateStepEntries(nodes: Nodes, p: Path, node: Node)
    requires p !in nodes && EntriesExist(nodes)
    requires node.Dir? ==> node.entries == []
    ensures EntriesExist(CreateStep(nodes, p, node).1)
  {
    var (o, after) := CreateStep(nodes, p, node);
    if o.Done? {
      var parent := Dirname(p);
      var name := Basename(p);
      assert after[parent].entries == nodes[parent].entries + [name];
      forall d, n | d in after && after[d].Dir? && n in after[d].entries
        ensures Join(d, n) in after
      {
        if d == parent {
          if n != name {
            assert n in nodes[parent].entries;
          }
        } else if d != p {
          assert d in nodes && n in nodes[d].entries;
        }
      }
    }
  }

  /** A write keeps the tree consistent. */
  lemma WriteStepWf(nodes: Nodes, now: int, p: Path, data: seq<bv8>)
    requires Wf(nodes)
    ensures Wf(WriteStep(nodes, now, p, data).1)
  {
    if p !in nodes {
      CreateStepWf(nodes, p, File(data, now));
    } else if nodes[p].File? {
      ReplaceFileParents(nodes, p, File(data, now));
      ReplaceFileEntries(nodes, p, File(data, now));
      assert EntriesDistinct(nodes[p := File(data, now)]) by {
        var after := nodes[p := File(data, now)];
        forall d | d in after && after[d].Dir?
          ensures Distinct(after[d].entries)
        {
          assert d != p && after[d] == nodes[d];
        }
      }
    }
  }

  lemma ReplaceFileParents(nodes: Nodes, p: Path, file: Node)
    requires ParentsListed(nodes) && p in nodes && nodes[p].File? && file.File?
    ensures ParentsListed(nodes[p := file])
  {
    var after := nodes[p := file];
    forall q | q in after
      ensures Dirname(q) in after && after[Dirname(q)].Dir?
      ensures Dirname(q) != q ==>
        IsName(Basename(q)) && Join(Dirname(q), Basename(q)) == q && Basename(q) in after[Dirname(q)].entries
    {
      assert q in nodes && Dirname(q) != p;
    }
  }

  lemma ReplaceFileEntries(nodes: Nodes, p: Path, file: Node)
    requires EntriesExist(nodes) && p in nodes && file.File?
    ensures EntriesExist(nodes[p := file])
  {
    var after := nodes[p := file];
    forall d, n | d in after && after[d].Dir? && n in after[d].entries
      ensures Join(d, n) in after
    {
      assert d != p && d in nodes && n in nodes[d].entries;
    }
  }

  /** The filesystem seen by the core: its nodes, and the time stamp writes receive. */
  class FileSystem {
    var nodes: Nodes
    const now: int

    constructor (nodes: Nodes, now: int)
      ensures this.nodes == nodes && this.now == now
    {
      this.nodes := nodes;
      this.now := now;
    }

    method ReadFile(p: Path) returns (r: Result<seq<bv8>>)
      ensures r == ReadStep(nodes, p)
    {
      if p !in nodes {
        r := Err(NoEntry(p));
      } else if nodes[p].Dir? {
        r := Err(IsDirectory(p));
      } else {
        r := Ok(nodes[p].bytes);
      }
    }

    method MkDir(p: Path) returns (o: Outcome)
      modifies this
      ensures (o, nodes) == MkDirStep(old(nodes), now, p)
    {
      o, nodes := MkDirStep(nodes, now, p).0, MkDirStep(nodes, now, p).1;
    }

    method WriteFile(p: Path, data: seq<bv8>) returns (o: Outcome)
      modifies this
      ensures (o, nodes) == WriteStep(old(nodes), now, p, data)
    {
      o, nodes := WriteStep(nodes, now, p, data).0, WriteStep(nodes, now, p, data).1;
    }
  }
}
