/** The file system as the installer (scripts/postinstall.js) uses it, kept in
    memory: a map from absolute paths to what is stored there, the three
    `fs` calls that change it (`mkdirSync` with `recursive: true`,
    `copyFileSync`, and the copy that `copyRecursive` performs with them),
    and the read-only theme folder the copy reads from, as a tree. */
module FileTree {
  import opened Wrappers

  /** An absolute, normalised path: its segments below "/". */
  type Path = seq<string>

  /** What a path holds. */
  datatype Kind = Directory | File(content: string)

  /** Every existing path other than the root, with what it holds. */
  type Fs = map<Path, Kind>

  /** The theme folder as `statSync` and `readdirSync` see it; entries are in
      the order `readdirSync` lists them. */
  datatype Node = FileNode(content: string) | DirNode(entries: seq<Entry>)
  datatype Entry = Entry(name: string, node: Node)

  /** What is at `p`; the root always exists and is a directory. */
  function At(fs: Fs, p: Path): Option<Kind> {
    if p == [] then Some(Directory) else if p in fs then Some(fs[p]) else None
  }

  predicate IsPrefix(p: Path, q: Path) {
    |p| <= |q| && q[..|p|] == p
  }

  /** A directory listing names each entry once, and no name is empty, ".",
      ".." or contains "/"; so `path.join(dest, name)` is `dest + [name]`. */
  predicate WellFormed(n: Node) {
    match n
    case FileNode(_) => true
    case DirNode(es) => WellFormedEntries(es)
  }

  predicate WellFormedEntries(es: seq<Entry>) {
    && (forall i, j :: 0 <= i < j < |es| ==> es[i].name != es[j].name)
    && (forall i :: 0 <= i < |es| ==> ValidName(es[i].name))
    && (forall i :: 0 <= i < |es| ==> WellFormed(es[i].node))
  }

  predicate ValidName(name: string) {
    name != "" && name != "." && name != ".." && '/' !in name
  }

  /** The index of the entry called `name`, or -1. */
  function IndexOf(es: seq<Entry>, name: string): (i: int)
    ensures -1 <= i < |es|
    ensures 0 <= i ==> es[i].name == name
    ensures i == -1 ==> forall j :: 0 <= j < |es| ==> es[j].name != name
  {
    if es == [] then -1
    else if es[0].name == name then 0
    else var k := IndexOf(es[1..], name); if k == -1 then -1 else k + 1
  }

  function KindOf(n: Node): Kind {
    match n
    case FileNode(c) => File(c)
    case DirNode(_) => Directory
  }

  /** What the theme tree holds at the relative path `p`. */
  function Lookup(n: Node, p: Path): Option<Kind> {
    if p == [] then Some(KindOf(n))
    else match n
      case FileNode(_) => None
      case DirNode(es) =>
        var i := IndexOf(es, p[0]);
        if i == -1 then None else Lookup(es[i].node, p[1..])
  }

  // ------------------------------------------------------------ mkdirSync

  /** Some segment of `p`, `p` included, is a file. */
  predicate Blocked(fs: Fs, p: Path) {
    p != [] && (Blocked(fs, p[..|p| - 1]) || (p in fs && fs[p].File?))
  }

  /** Creates every missing directory on the way to `p`. */
  function CreateDirs(fs: Fs, p: Path): Fs {
    if p == [] then fs
    else
      var f := CreateDirs(fs, p[..|p| - 1]);
      if p in f then f else f[p := Directory]
  }

  /** `fs.mkdirSync(p, { recursive: true })`: `None` when it throws, which it
      does exactly when a segment of `p` is a file; nothing is created then. */
  function MkdirP(fs: Fs, p: Path): Option<Fs> {
    if Blocked(fs, p) then None else Some(CreateDirs(fs, p))
  }

  lemma {:induction false} CreateDirsSpec(fs: Fs, p: Path)
    requires !Blocked(fs, p)
    ensures forall k :: 0 <= k <= |p| ==> At(CreateDirs(fs, p), p[..k]) == Some(Directory)
    ensures forall q :: At(fs, q).Some? ==> At(CreateDirs(fs, p), q) == At(fs, q)
    ensures forall q :: At(CreateDirs(fs, p), q).Some? && At(fs, q).None? ==> IsPrefix(q, p)
  {
    if p != [] {
      var parent := p[..|p| - 1];
      CreateDirsSpec(fs, parent);
      var f := CreateDirs(fs, parent);
      assert At(f, p) == At(fs, p) || At(fs, p).None?;
      forall k | 0 <= k <= |p|
        ensures At(CreateDirs(fs, p), p[..k]) == Some(Directory)
      {
        if k < |p| {
          assert p[..k] == parent[..k];
        } else {
          assert p[..k] == p;
        }
      }
      forall q | At(CreateDirs(fs, p), q).Some? && At(fs, q).None?
        ensures IsPrefix(q, p)
      {
        if q != p {
          assert IsPrefix(q, parent);
        }
      }
    }
  }

  /** `mkdirSync` with `recursive: true` succeeds exactly when no segment of
      the path is a file; then every segment is a directory, nothing that
      existed changes, and what is new lies on the way to the path. */
  lemma MkdirPSpec(fs: Fs, p: Path)
    ensures MkdirP(fs, p).None? <==> exists k :: 0 < k <= |p| && p[..k] in fs && fs[p[..k]].File?
    ensures MkdirP(fs, p).Some? ==>
      && (forall k :: 0 <= k <= |p| ==> At(MkdirP(fs, p).value, p[..k]) == Some(Directory))
      && (forall q :: At(fs, q).Some? ==> At(MkdirP(fs, p).value, q) == At(fs, q))
      && (forall q :: At(MkdirP(fs, p).value, q).Some? && At(fs, q).None? ==> IsPrefix(q, p))
  {
    BlockedSpec(fs, p);
    if !Blocked(fs, p) {
      CreateDirsSpec(fs, p);
    }
  }

  lemma {:induction false} BlockedSpec(fs: Fs, p: Path)
    ensures Blocked(fs, p) <==> exists k :: 0 < k <= |p| && p[..k] in fs && fs[p[..k]].File?
  {
    if p != [] {
      var parent := p[..|p| - 1];
      BlockedSpec(fs, parent);
      if Blocked(fs, parent) {
        var k :| 0 < k <= |parent| && parent[..k] in fs && fs[parent[..k]].File?;
        assert p[..k] == parent[..k];
      } else if p in fs && fs[p].File? {
        assert p[..|p|] == p;
      } else {
        forall k | 0 < k <= |p|
          ensures !(p[..k] in fs && fs[p[..k]].File?)
        {
          if k < |p| {
            assert p[..k] == parent[..k];
          } else {
            assert p[..k] == p;
          }
        }
      }
    }
  }

  // --------------------------------------------------------- copyFileSync

  /** `fs.copyFileSync(src, dest)` for a source file with `content`: throws
      when `dest` is the root or a directory, or its parent is not a
      directory; otherwise creates or overwrites the file. */
  function CopyFile(fs: Fs, content: string, dest: Path): Option<Fs> {
    if dest == [] || At(fs, dest[..|dest| - 1]) != Some(Directory) || At(fs, dest) == Some(Directory) then None
    else Some(fs[dest := File(content)])
  }

  /** `copyFileSync` throws exactly when `dest` is the root, its parent is
      missing or a file, or `dest` is a directory; otherwise `dest` holds a
      file with `content` and every other path is as before. */
  lemma CopyFileSpec(fs: Fs, content: string, dest: Path)
    ensures CopyFile(fs, content, dest).None? <==>
      dest == [] || At(fs, dest[..|dest| - 1]).None? || At(fs, dest[..|dest| - 1]).value.File?
      || At(fs, dest) == Some(Directory)
    ensures CopyFile(fs, content, dest).Some? ==>
      && At(CopyFile(fs, content, dest).value, dest) == Some(File(content))
      && forall q :: q != dest ==> At(CopyFile(fs, content, dest).value, q) == At(fs, q)
  {
  }

  // ---------------------------------------------------------- copyRecursive

  /** The state the copy leaves behind, and whether it finished without
      throwing. On a throw, what was copied before stays. */
  datatype Outcome = Outcome(ok: bool, fs: Fs)

  /** `copyRecursive(src, dest)`: a file is copied; a directory is created
      (with `recursive: true`) and each entry is copied, in listing order,
      to the same name under `dest`; the first throw ends the copy. */
  function CopyTree(fs: Fs, src: Node, dest: Path): Outcome
    decreases src
  {
    match src
    case FileNode(c) =>
      (match CopyFile(fs, c, dest)
       case None => Outcome(false, fs)
       case Some(f) => Outcome(true, f))
    case DirNode(es) =>
      (match MkdirP(fs, dest)
       case None => Outcome(false, fs)
       case Some(f) => CopyEntries(f, es, dest))
  }

  /** The `for (const entry of entries)` loop of `copyRecursive`. */
  function CopyEntries(fs: Fs, es: seq<Entry>, dest: Path): Outcome
    decreases es
  {
    if es == [] then Outcome(true, fs)
    else
      var o := CopyTree(fs, es[0].node, dest + [es[0].name]);
      if !o.ok then o else CopyEntries(o.fs, es[1..], dest)
  }

  /** The path `p` is one the copy of `src` to `dest` writes. */
  predicate Written(src: Node, dest: Path, p: Path) {
    IsPrefix(dest, p) && Lookup(src, p[|dest|..]).Some?
  }

  /** A directory stays a directory: `mkdirSync` leaves existing ones alone
      and `copyFileSync` refuses to overwrite one. */
  lemma {:induction false} CopyTreeKeepsDirectories(fs: Fs, src: Node, dest: Path)
    ensures forall p :: At(fs, p) == Some(Directory) ==> At(CopyTree(fs, src, dest).fs, p) == Some(Directory)
    decreases src
  {
    match src
    case FileNode(c) =>
    case DirNode(es) =>
      MkdirPSpec(fs, dest);
      if MkdirP(fs, dest).Some? {
        CopyEntriesKeepsDirectories(MkdirP(fs, dest).value, es, dest);
      }
  }

  lemma {:induction false} CopyEntriesKeepsDirectories(fs: Fs, es: seq<Entry>, dest: Path)
    ensures forall p :: At(fs, p) == Some(Directory) ==> At(CopyEntries(fs, es, dest).fs, p) == Some(Directory)
    decreases es
  {
    if es != [] {
      var o := CopyTree(fs, es[0].node, dest + [es[0].name]);
      CopyTreeKeepsDirectories(fs, es[0].node, dest + [es[0].name]);
      if o.ok {
        CopyEntriesKeepsDirectories(o.fs, es[1..], dest);
      }
    }
  }

  /** The copy only creates or overwrites: an existing path keeps what it
      held unless the source tree has the same relative path, and a new path
      is either on the way to `dest` or a path of the source tree. This holds
      whether the copy finished or threw. */
  lemma {:induction false} CopyTreeOnlyWritesSource(fs: Fs, src: Node, dest: Path)
    requires WellFormed(src)
    ensures var out := CopyTree(fs, src, dest).fs;
      && (forall p :: At(fs, p).Some? ==> At(out, p).Some? && (At(out, p) == At(fs, p) || Written(src, dest, p)))
      && (forall p :: At(out, p).Some? && At(fs, p).None? ==> IsPrefix(p, dest) || Written(src, dest, p))
    decreases src
  {
    var out := CopyTree(fs, src, dest).fs;
    match src
    case FileNode(c) =>
      if CopyFile(fs, c, dest).Some? {
        forall p | At(out, p) != At(fs, p)
          ensures Written(src, dest, p)
        {
          assert p == dest;
          assert p[|dest|..] == [];
        }
      }
    case DirNode(es) =>
      MkdirPSpec(fs, dest);
      if MkdirP(fs, dest).Some? {
        var f := MkdirP(fs, dest).value;
        CopyEntriesOnlyWritesSource(f, es, dest);
      }
  }

  lemma {:induction false} CopyEntriesOnlyWritesSource(fs: Fs, es: seq<Entry>, dest: Path)
    requires WellFormedEntries(es)
    ensures var out := CopyEntries(fs, es, dest).fs;
      && (forall p :: At(fs, p).Some? ==> At(out, p).Some? && (At(out, p) == At(fs, p) || Written(DirNode(es), dest, p)))
      && (forall p :: At(out, p).Some? && At(fs, p).None? ==> IsPrefix(p, dest) || Written(DirNode(es), dest, p))
    decreases es
  {
    if es != [] {
      var e := es[0];
      var sub := dest + [e.name];
      var o := CopyTree(fs, e.node, sub);
      CopyTreeOnlyWritesSource(fs, e.node, sub);
      // what the first entry writes, the directory writes
      forall p | Written(e.node, sub, p)
        ensures Written(DirNode(es), dest, p)
      {
        assert p[|dest|..] == [e.name] + p[|sub|..];
        assert p[..|dest|] == sub[..|dest|];
      }
      forall p | IsPrefix(p, sub) && !IsPrefix(p, dest)
        ensures Written(DirNode(es), dest, p)
      {
        assert p == sub;
        assert p[|dest|..] == [e.name];
      }
      if o.ok {
        var rest := es[1..];
        assert WellFormedEntries(rest);
        CopyEntriesOnlyWritesSource(o.fs, rest, dest);
        // what the remaining entries write, the directory writes
        forall p | Written(DirNode(rest), dest, p)
          ensures Written(DirNode(es), dest, p)
        {
          var q := p[|dest|..];
          if q != [] {
          var j := IndexOf(rest, q[0]);
          assert rest[j] == es[j + 1];
          assert IndexOf(es, q[0]) == j + 1 by {
            assert es[0].name != es[j + 1].name;
          }
          }
        }
      }
    }
  }

  /** After a copy that did not throw, every path of the source tree exists
      under `dest` and holds what the source holds there. */
  lemma {:induction false} CopyTreeComplete(fs: Fs, src: Node, dest: Path)
    requires WellFormed(src)
    requires CopyTree(fs, src, dest).ok
    ensures forall q :: Lookup(src, q).Some? ==> At(CopyTree(fs, src, dest).fs, dest + q) == Lookup(src, q)
    decreases src
  {
    var out := CopyTree(fs, src, dest).fs;
    match src
    case FileNode(c) =>
      forall q | Lookup(src, q).Some?
        ensures At(out, dest + q) == Lookup(src, q)
      {
        assert q == [] && dest + q == dest;
      }
    case DirNode(es) =>
      MkdirPSpec(fs, dest);
      var f := MkdirP(fs, dest).value;
      assert At(f, dest) == Some(Directory) by { assert dest[..|dest|] == dest; }
      CopyEntriesKeepsDirectories(f, es, dest);
      CopyEntriesComplete(f, es, dest);
      DirectoryComplete(es, dest, out);
  }

  /** A directory is in place when it exists and each entry is in place. */
  lemma DirectoryComplete(es: seq<Entry>, dest: Path, out: Fs)
    requires At(out, dest) == Some(Directory)
    requires forall i, q :: 0 <= i < |es| && Lookup(es[i].node, q).Some? ==>
      At(out, dest + [es[i].name] + q) == Lookup(es[i].node, q)
    ensures forall q :: Lookup(DirNode(es), q).Some? ==> At(out, dest + q) == Lookup(DirNode(es), q)
  {
    forall q | Lookup(DirNode(es), q).Some?
      ensures At(out, dest + q) == Lookup(DirNode(es), q)
    {
      if q == [] {
        assert dest + q == dest;
      } else {
        var i := IndexOf(es, q[0]);
        assert dest + q == dest + [es[i].name] + q[1..];
      }
    }
  }

  lemma {:induction false} CopyEntriesComplete(fs: Fs, es: seq<Entry>, dest: Path)
    requires WellFormedEntries(es)
    requires CopyEntries(fs, es, dest).ok
    ensures forall i, q :: 0 <= i < |es| && Lookup(es[i].node, q).Some? ==>
      At(CopyEntries(fs, es, dest).fs, dest + [es[i].name] + q) == Lookup(es[i].node, q)
    decreases es
  {
    if es != [] {
      var e := es[0];
      var sub := dest + [e.name];
      var o := CopyTree(fs, e.node, sub);
      var rest := es[1..];
      var out := CopyEntries(o.fs, rest, dest).fs;
      CopyTreeComplete(fs, e.node, sub);
      assert WellFormedEntries(rest);
      CopyEntriesComplete(o.fs, rest, dest);
      CopyEntriesOnlyWritesSource(o.fs, rest, dest);
      forall i, q | 0 <= i < |es| && Lookup(es[i].node, q).Some?
        ensures At(out, dest + [es[i].name] + q) == Lookup(es[i].node, q)
      {
        if i == 0 {
          var p := sub + q;
          assert At(o.fs, p) == Lookup(e.node, q);
          assert p[|dest|..][0] == e.name;
          assert !Written(DirNode(rest), dest, p);
        } else {
          assert es[i] == rest[i - 1];
        }
      }
    }
  }
}
