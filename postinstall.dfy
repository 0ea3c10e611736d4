/** The installer run after `npm install` (scripts/postinstall.js): the CI
    skip, the "already configured" exit, the menu on the trimmed answer, and
    `copyTheme`, which creates the target, copies the theme folder into it
    with `copyRecursive` and only then records the target in `.nukerc`.
    Environment variables and the answers typed at the prompts are inputs;
    the disk is the `Disk` object below. */
module Postinstall {
  import opened Wrappers
  import opened JsText
  import opened FileTree

  /** The variables whose value "true" switches the interactive setup off. */
  const SkipVariables: set<string> := {"CI", "CONTINUOUS_INTEGRATION", "NUKE_SKIP_SETUP"}

  function IsTrue(env: map<string, string>, name: string): bool {
    name in env && env[name] == "true"
  }

  /** `isCI`: some skip variable is set to exactly "true" ("TRUE" or "1" do
      not count, nor does any other variable). */
  function IsCI(env: map<string, string>): (r: bool)
    ensures r <==> exists v :: v in SkipVariables && v in env && env[v] == "true"
  {
    IsTrue(env, "CI") || IsTrue(env, "CONTINUOUS_INTEGRATION") || IsTrue(env, "NUKE_SKIP_SETUP")
  }

  // ------------------------------------------------------------------ menu

  /** The menu entries: copy to a fixed path, ask for a path, or skip
      (`invalid` when the answer was not one of the four choices). */
  datatype Choice = CopyTo(target: string) | AskPath | Skip(invalid: bool)

  const RootTarget := "./nuke-theme"
  const StylesTarget := "./src/styles/nuke-theme"

  /** The `switch` on the trimmed first answer. */
  function Choose(answer: string): Choice {
    var choice := Trim(answer);
    if choice == "1" || choice == "" then CopyTo(RootTarget)
    else if choice == "2" then CopyTo(StylesTarget)
    else if choice == "3" then AskPath
    else Skip(choice != "4")
  }

  /** Where the theme goes, given both answers; `None` means skip. The
      second answer is read only for choice 3. */
  function Target(answer: string, customAnswer: string): Option<string> {
    match Choose(answer)
    case CopyTo(t) => Some(t)
    case AskPath => Some(Trim(customAnswer))
    case Skip(_) => None
  }

  /** The menu is total and each trimmed answer leads where the prompt says. */
  lemma TargetTable(answer: string, customAnswer: string)
    ensures Target(answer, customAnswer) == Some(RootTarget) <==>
      Trim(answer) in {"1", ""} || (Trim(answer) == "3" && Trim(customAnswer) == RootTarget)
    ensures Trim(answer) == "2" ==> Target(answer, customAnswer) == Some(StylesTarget)
    ensures Trim(answer) == "3" ==> Target(answer, customAnswer) == Some(Trim(customAnswer))
    ensures Target(answer, customAnswer).None? <==> Trim(answer) !in {"1", "", "2", "3"}
    ensures Choose(answer) == Skip(true) <==> Trim(answer) !in {"1", "", "2", "3", "4"}
  {
  }

  /** Whitespace typed around a choice makes no difference. */
  lemma ChooseIgnoresSurroundingWhiteSpace(w1: string, choice: string, w2: string)
    requires AllWhiteSpace(w1) && AllWhiteSpace(w2)
    requires choice == [] || (!IsWhiteSpace(choice[0]) && !IsWhiteSpace(choice[|choice| - 1]))
    ensures Choose(w1 + choice + w2) == Choose(choice)
  {
    TrimIgnoresSurroundingWhiteSpace(w1, choice, w2);
    TrimIgnoresSurroundingWhiteSpace([], choice, []);
    assert [] + choice + [] == choice;
  }

  // -------------------------------------------------------------- path.join

  /** `s.split('/')`. */
  function Split(s: string): (r: seq<string>)
    ensures |r| >= 1
  {
    if s == [] then [""]
    else
      var rest := Split(s[1..]);
      if s[0] == '/' then [""] + rest else [[s[0]] + rest[0]] + rest[1..]
  }

  /** One segment of `path.join`'s normalisation: "" and "." stay put, ".."
      goes up (never above the root), a name goes down. */
  function Step(p: Path, segment: string): Path {
    if segment == "" || segment == "." then p
    else if segment == ".." then (if p == [] then [] else p[..|p| - 1])
    else p + [segment]
  }

  function Walk(p: Path, segments: seq<string>): Path
    decreases |segments|
  {
    if segments == [] then p else Walk(Step(p, segments[0]), segments[1..])
  }

  /** `path.join(base, rel)` for an absolute, normalised `base`. */
  function Join(base: Path, rel: string): Path {
    Walk(base, Split(rel))
  }

  /** Choice 1 lands in "nuke-theme" directly under the project root. */
  lemma JoinRootTarget(root: Path, target: string)
    requires target == RootTarget
    ensures Join(root, target) == root + ["nuke-theme"]
  {
    JoinDotName(root, "nuke-theme");
    assert target == "." + "/" + "nuke-theme";
  }

  /** "./name" joined to the root is the root followed by the name. */
  lemma JoinDotName(root: Path, name: string)
    requires ValidName(name)
    ensures Join(root, "." + "/" + name) == root + [name]
  {
    SplitDotName(name);
    var segments := [".", name];
    assert segments[1..] == [name] && [name][1..] == [];
    assert Walk(root, segments) == Walk(root, [name]);
  }

  lemma SplitDotName(name: string)
    requires ValidName(name)
    ensures Split("." + "/" + name) == [".", name]
  {
    SplitName(name);
    SplitAt(".", name);
  }

  /** An empty custom path means the project root itself. */
  lemma JoinEmpty(root: Path)
    ensures Join(root, "") == root
  {
    assert Split("") == [""];
    assert [""][1..] == [];
  }

  /** A string without "/" splits into itself. */
  lemma {:induction false} SplitName(a: string)
    requires '/' !in a
    ensures Split(a) == [a]
  {
    if a != [] {
      SplitName(a[1..]);
      assert [a[0]] + a[1..] == a;
    }
  }

  /** Splitting cuts at the first "/". */
  lemma {:induction false} SplitAt(a: string, b: string)
    requires '/' !in a
    ensures Split(a + "/" + b) == [a] + Split(b)
  {
    if a == [] {
      assert a + "/" + b == "/" + b;
      assert ("/" + b)[1..] == b;
    } else {
      SplitAt(a[1..], b);
      assert (a + "/" + b)[1..] == a[1..] + "/" + b;
      assert [a[0]] + a[1..] == a;
    }
  }

  // ------------------------------------------------------------------ disk

  /** The project's disk: its file tree, and the `themePath` that `.nukerc`
      records (`None` while there is no `.nukerc`). */
  class Disk {
    var entries: Fs
    var config: Option<string>

    constructor(entries: Fs, config: Option<string>)
      ensures this.entries == entries && this.config == config
    {
      this.entries := entries;
      this.config := config;
    }

    /** `fs.existsSync(p)`. */
    method ExistsSync(p: Path) returns (b: bool)
      ensures b <==> At(entries, p).Some?
    {
      b := At(entries, p).Some?;
    }

    /** `fs.mkdirSync(p, { recursive: true })`; `ok` is false when it throws. */
    method MkdirSync(p: Path) returns (ok: bool)
      modifies this`entries
      ensures ok <==> MkdirP(old(entries), p).Some?
      ensures entries == MkdirP(old(entries), p).GetOr(old(entries))
    {
      match MkdirP(entries, p)
      case None => ok := false;
      case Some(f) => ok := true; entries := f;
    }

    /** `fs.copyFileSync` from a source file holding `content`. */
    method CopyFileSync(content: string, dest: Path) returns (ok: bool)
      modifies this`entries
      ensures ok <==> CopyFile(old(entries), content, dest).Some?
      ensures entries == CopyFile(old(entries), content, dest).GetOr(old(entries))
    {
      match CopyFile(entries, content, dest)
      case None => ok := false;
      case Some(f) => ok := true; entries := f;
    }

    /** `fs.writeFileSync(nukeRcPath, …)` of `{ themePath }`. */
    method WriteConfig(themePath: string)
      modifies this`config
      ensures config == Some(themePath)
    {
      config := Some(themePath);
    }
  }

  /** `copyRecursive(src, dest)`, with a throw reported as `ok == false`; the
      disk ends as `CopyTree` says, whose properties are proved in FileTree. */
  method CopyRecursive(disk: Disk, src: Node, dest: Path) returns (ok: bool)
    modifies disk`entries
    ensures ok == CopyTree(old(disk.entries), src, dest).ok
    ensures disk.entries == CopyTree(old(disk.entries), src, dest).fs
    decreases src
  {
    match src
    case FileNode(c) =>
      ok := disk.CopyFileSync(c, dest);
    case DirNode(es) =>
      ok := disk.MkdirSync(dest);
      if !ok {
        return;
      }
      ghost var created := disk.entries;
      var i := 0;
      while i < |es|
        invariant 0 <= i <= |es|
        invariant ok
        invariant CopyEntries(created, es, dest) == CopyEntries(disk.entries, es[i..], dest)
      {
        assert es[i..][1..] == es[i + 1..];
        ok := CopyRecursive(disk, es[i].node, dest + [es[i].name]);
        if !ok {
          return;
        }
        i := i + 1;
      }
  }

  /** What `copyTheme(target)` does to the file tree: create the target with
      `recursive: true`, then copy the theme into it. */
  function CopyThemeOutcome(fs: Fs, root: Path, theme: Node, target: string): Outcome {
    var full := Join(root, target);
    match MkdirP(fs, full)
    case None => Outcome(false, fs)
    case Some(f) => CopyTree(f, theme, full)
  }

  /** `copyTheme(targetPath)`: `.nukerc` is written only when creating the
      target and copying the whole theme both succeeded; a throw in either
      leaves the earlier record, and whatever was copied so far, in place. */
  method CopyTheme(disk: Disk, root: Path, theme: Node, target: string) returns (ok: bool)
    modifies disk
    ensures ok == CopyThemeOutcome(old(disk.entries), root, theme, target).ok
    ensures disk.entries == CopyThemeOutcome(old(disk.entries), root, theme, target).fs
    ensures disk.config == if ok then Some(target) else old(disk.config)
  {
    var full := Join(root, target);
    ok := disk.MkdirSync(full);
    if !ok {
      return;
    }
    ok := CopyRecursive(disk, theme, full);
    if !ok {
      return;
    }
    disk.WriteConfig(target);
  }

  /** After a successful copy the target is a directory and holds every path
      of the theme with the theme's content. */
  lemma CopyThemeComplete(fs: Fs, root: Path, theme: Node, target: string)
    requires WellFormed(theme)
    requires CopyThemeOutcome(fs, root, theme, target).ok
    ensures At(CopyThemeOutcome(fs, root, theme, target).fs, Join(root, target)) == Some(Directory)
    ensures forall q :: Lookup(theme, q).Some? ==>
      At(CopyThemeOutcome(fs, root, theme, target).fs, Join(root, target) + q) == Lookup(theme, q)
  {
    var full := Join(root, target);
    MkdirPSpec(fs, full);
    var f := MkdirP(fs, full).value;
    assert full[..|full|] == full;
    CopyTreeKeepsDirectories(f, theme, full);
    CopyTreeComplete(f, theme, full);
  }

  /** The copy into the target only creates or overwrites: what the project
      held keeps its content unless the theme has a file at the same place
      under the target, and a directory stays a directory. */
  lemma CopyThemeKeepsProject(fs: Fs, root: Path, theme: Node, target: string)
    requires WellFormed(theme)
    ensures var out := CopyThemeOutcome(fs, root, theme, target).fs;
      forall p :: At(fs, p).Some? ==>
        && At(out, p).Some?
        && (At(out, p) == At(fs, p) || Written(theme, Join(root, target), p))
        && (At(fs, p) == Some(Directory) ==> At(out, p) == Some(Directory))
  {
    var full := Join(root, target);
    MkdirPSpec(fs, full);
    if MkdirP(fs, full).Some? {
      var f := MkdirP(fs, full).value;
      CopyTreeKeepsDirectories(f, theme, full);
      CopyTreeOnlyWritesSource(f, theme, full);
    }
  }

  // ----------------------------------------------------------------- setup

  /** How a run of the installer ends. */
  datatype Exit =
    | SkippedInCI
    | AlreadyConfigured(themePath: string)
    | Copied(targetPath: string)
    | CopyFailed(targetPath: string)
    | SkippedByUser

  /** `.nukerc` exists and the path it records exists under the project root. */
  predicate Configured(fs: Fs, config: Option<string>, root: Path) {
    config.Some? && At(fs, Join(root, config.value)).Some?
  }

  /** The whole script. `prompts` counts the questions asked: the menu, and
      the custom path after choice 3. */
  method Setup(disk: Disk, env: map<string, string>, root: Path, theme: Node, answer: string, customAnswer: string)
    returns (exit: Exit, prompts: nat)
    modifies disk
    ensures exit == SkippedInCI <==> IsCI(env)
    ensures IsCI(env) ==> prompts == 0 && unchanged(disk)
    ensures !IsCI(env) && Configured(old(disk.entries), old(disk.config), root) ==>
      exit == AlreadyConfigured(old(disk.config).value) && prompts == 0 && unchanged(disk)
    ensures !IsCI(env) && !Configured(old(disk.entries), old(disk.config), root) ==>
      && prompts == (if Choose(answer) == AskPath then 2 else 1)
      && match Target(answer, customAnswer)
         case None => exit == SkippedByUser && unchanged(disk)
         case Some(t) =>
           var o := CopyThemeOutcome(old(disk.entries), root, theme, t);
           && exit == (if o.ok then Copied(t) else CopyFailed(t))
           && disk.entries == o.fs
           && disk.config == (if o.ok then Some(t) else old(disk.config))
  {
    if IsCI(env) {
      return SkippedInCI, 0;
    }
    if disk.config.Some? {
      var present := disk.ExistsSync(Join(root, disk.config.value));
      if present {
        return AlreadyConfigured(disk.config.value), 0;
      }
    }
    prompts := if Choose(answer) == AskPath then 2 else 1;
    match Target(answer, customAnswer)
    case None =>
      exit := SkippedByUser;
    case Some(target) =>
      var ok := CopyTheme(disk, root, theme, target);
      exit := if ok then Copied(target) else CopyFailed(target);
  }

  /** A second run after a successful one exits as already configured,
      without asking anything and without touching the disk. */
  method SetupTwice(disk: Disk, env: map<string, string>, root: Path, theme: Node, answer: string, customAnswer: string)
    returns (first: Exit, second: Exit, prompts: nat)
    modifies disk
    ensures first.Copied? ==> second == AlreadyConfigured(first.targetPath) && prompts == 0
  {
    var firstPrompts;
    first, firstPrompts := Setup(disk, env, root, theme, answer, customAnswer);
    if first.Copied? {
      CopiedIsConfigured(old(disk.entries), root, theme, first.targetPath);
    }
    second, prompts := Setup(disk, env, root, theme, answer, customAnswer);
  }

  /** A completed copy leaves the recorded target in place. */
  lemma CopiedIsConfigured(fs: Fs, root: Path, theme: Node, target: string)
    requires CopyThemeOutcome(fs, root, theme, target).ok
    ensures Configured(CopyThemeOutcome(fs, root, theme, target).fs, Some(target), root)
  {
    var full := Join(root, target);
    MkdirPSpec(fs, full);
    var f := MkdirP(fs, full).value;
    assert full[..|full|] == full;
    CopyTreeKeepsDirectories(f, theme, full);
  }
}
