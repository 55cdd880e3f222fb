/**
 The import closure that becomes part of a module's identity: probing dotted names on disk, resolving statements, and
 the worklist that collects every file reached, each proved against its declarative reading. One root; files of the
 package itself are dropped.
 */
module ImportClosure {
  import opened Imports
  import opened Wrappers

  /** An absolute path, from the top of the file system. */
  type Path = seq<string>

  /**
   What is on disk: the files with their parsed content (None when a file does not parse), a digest for each, and
   the language's rule for identifiers.
   */
  datatype Disk = Disk(files: map<Path, Option<Ast>>, digest: Path -> string, isIdentifier: string -> bool)

  const INIT: string := "__init__.py"

  function InitOf(root: Path, parts: seq<string>): Path {
    root + parts + [INIT]
  }

  function ModuleFile(root: Path, parts: seq<string>): Path
    requires parts != []
  {
    root + parts[..|parts| - 1] + [parts[|parts| - 1] + ".py"]
  }

  /** The path leads down from the root. */
  ghost predicate Under(root: Path, t: Path) {
    exists rest: Path {:trigger root + rest} :: t == root + rest
  }

  // ---------------------------------------------------------------- probing

  /** All enclosing packages of a dotted name exist. */
  predicate PackagesExist(disk: Disk, root: Path, parts: seq<string>, n: nat)
    requires n <= |parts|
  {
    forall k {:trigger parts[..k]} :: 1 <= k <= n ==> InitOf(root, parts[..k]) in disk.files
  }

  /**
   Where a dotted name is found: inside existing packages only; as a package when it has an initialiser, otherwise
   as a module file.
   */
  function ProbeSpec(disk: Disk, root: Path, parts: seq<string>): Option<Path> {
    if parts == [] || (exists k :: 0 <= k < |parts| && !disk.isIdentifier(parts[k])) then None
    else if !PackagesExist(disk, root, parts, |parts| - 1) then None
    else if InitOf(root, parts) in disk.files then Some(InitOf(root, parts))
    else if ModuleFile(root, parts) in disk.files then Some(ModuleFile(root, parts))
    else None
  }

  method Probe(disk: Disk, root: Path, parts: seq<string>) returns (found: Option<Path>)
    ensures found == ProbeSpec(disk, root, parts)
  {
    if parts == [] || exists k :: 0 <= k < |parts| && !disk.isIdentifier(parts[k]) {
      return None;
    }
    var current := root;
    for index := 0 to |parts|
      invariant current == root + parts[..index] && PackagesExist(disk, root, parts, index)
    {
      TakeOneMore(parts, index);
      Reassociate(root, parts[..index], [parts[index]]);
      if current + [parts[index]] + [INIT] in disk.files {
        current := current + [parts[index]];
      } else {
        assert parts[..index + 1] == parts ==> index == |parts| - 1;
        TakeAll(parts);
        if index == |parts| - 1 && current + [parts[index] + ".py"] in disk.files {
          return Some(current + [parts[index] + ".py"]);
        }
        return None;
      }
    }
    TakeAll(parts);
    assert InitOf(root, parts[..|parts|]) in disk.files;
    return Some(current + [INIT]);
  }

  // ---------------------------------------------------------------- resolving one statement

  function Parent(p: Path): Path {
    if p == [] then [] else p[..|p| - 1]
  }

  function Ancestor(p: Path, n: nat): Path {
    if n == 0 then p else Parent(Ancestor(p, n - 1))
  }

  /**
   The dotted name a statement asks for, from the root: absolute as written, relative ones anchored in the importing
   module's own package; None above the root.
   */
  function BaseOf(ref: ImportRef, file: Path, root: Path): Option<seq<string>> {
    if ref.level == 0 then Some(ref.modulePath)
    else
      var package := Ancestor(Parent(file), ref.level - 1);
      if root <= package then Some(package[|root|..] + ref.modulePath) else None
  }

  /** A name bound from a package: its submodule where one exists, otherwise the package itself. */
  function NamedTarget(disk: Disk, root: Path, base: seq<string>, found: Path, name: string): Path {
    var child := if name != "*" then ProbeSpec(disk, root, base + [name]) else None;
    if child.Some? then child.value else found
  }

  function Initialisers(disk: Disk, root: Path, base: seq<string>): set<Path> {
    set k | 1 <= k <= |base| && InitOf(root, base[..k]) in disk.files :: InitOf(root, base[..k])
  }

  /** The files one statement declares. */
  function TargetsOfRef(disk: Disk, root: Path, file: Path, ref: ImportRef, includeParents: bool): set<Path> {
    var base := BaseOf(ref, file, root);
    if base == None then {}
    else
      var found := ProbeSpec(disk, root, base.value);
      if found == None then {}
      else
        (if ref.names != [] && found.value[|found.value| - 1] == INIT
         then set i | 0 <= i < |ref.names| :: NamedTarget(disk, root, base.value, found.value, ref.names[i])
         else {found.value})
        + (if includeParents then Initialisers(disk, root, base.value) else {})
  }

  method ResolveRef(disk: Disk, root: Path, file: Path, ref: ImportRef, includeParents: bool) returns (out: seq<Path>)
    ensures (set t | t in out) == TargetsOfRef(disk, root, file, ref, includeParents)
  {
    out := [];
    var base := BaseOf(ref, file, root);
    if base == None {
      return;
    }
    var found := Probe(disk, root, base.value);
    if found == None {
      return;
    }
    if ref.names != [] && found.value[|found.value| - 1] == INIT {
      out := ResolveNames(disk, root, base.value, found.value, ref.names);
    } else {
      out := [found.value];
    }
    if includeParents {
      var parents := FindInitialisers(disk, root, base.value);
      out := out + parents;
    }
  }

  method ResolveNames(disk: Disk, root: Path, base: seq<string>, found: Path, names: seq<string>)
    returns (out: seq<Path>)
    ensures (set t | t in out) == set i | 0 <= i < |names| :: NamedTarget(disk, root, base, found, names[i])
  {
    out := [];
    for i := 0 to |names|
      invariant (set t | t in out) == set k | 0 <= k < i :: NamedTarget(disk, root, base, found, names[k])
    {
      var child := None;
      if names[i] != "*" {
        child := Probe(disk, root, base + [names[i]]);
      }
      var target := if child.Some? then child.value else found;
      assert target == NamedTarget(disk, root, base, found, names[i]);
      OneMoreElement(out, target);
      out := out + [target];
    }
  }

  method FindInitialisers(disk: Disk, root: Path, base: seq<string>) returns (out: seq<Path>)
    ensures (set t | t in out) == Initialisers(disk, root, base)
  {
    out := [];
    for depth := 1 to |base| + 1
      invariant (set t | t in out)
             == set k | 1 <= k < depth && InitOf(root, base[..k]) in disk.files :: InitOf(root, base[..k])
    {
      var init := InitOf(root, base[..depth]);
      if init in disk.files {
        OneMoreElement(out, init);
        out := out + [init];
      }
    }
  }

  lemma OneMoreElement<T>(s: seq<T>, x: T)
    ensures (set t | t in s + [x]) == (set t | t in s) + {x}
  {
  }

  /** What probing finds exists, under the root. */
  lemma ProbedExists(disk: Disk, root: Path, parts: seq<string>)
    ensures ProbeSpec(disk, root, parts).Some? ==>
              ProbeSpec(disk, root, parts).value in disk.files && Under(root, ProbeSpec(disk, root, parts).value)
  {
    if ProbeSpec(disk, root, parts).Some? {
      Reassociate(root, parts, [INIT]);
      Reassociate(root, parts[..|parts| - 1], [parts[|parts| - 1] + ".py"]);
    }
  }

  lemma InitialisersExist(disk: Disk, root: Path, base: seq<string>, t: Path)
    requires t in Initialisers(disk, root, base)
    ensures t in disk.files && Under(root, t)
  {
    var k :| 1 <= k <= |base| && InitOf(root, base[..k]) in disk.files && t == InitOf(root, base[..k]);
    Reassociate(root, base[..k], [INIT]);
  }

  /** Every file a statement declares exists, under the root. */
  lemma TargetsExist(disk: Disk, root: Path, file: Path, ref: ImportRef, includeParents: bool, t: Path)
    requires t in TargetsOfRef(disk, root, file, ref, includeParents)
    ensures t in disk.files && Under(root, t)
  {
    var base := BaseOf(ref, file, root).value;
    var found := ProbeSpec(disk, root, base).value;
    ProbedExists(disk, root, base);
    if t in Initialisers(disk, root, base) {
      InitialisersExist(disk, root, base, t);
    } else if t != found {
      var i :| 0 <= i < |ref.names| && t == NamedTarget(disk, root, base, found, ref.names[i]);
      ProbedExists(disk, root, base + [ref.names[i]]);
    }
  }

  // ---------------------------------------------------------------- where names lead

  /** A name is looked up in the root's own directory. */
  lemma ProbeOne(disk: Disk, root: Path, name: string)
    ensures ProbeSpec(disk, root, [name])
         == if !disk.isIdentifier(name) then None
            else if root + [name, "__init__.py"] in disk.files then Some(root + [name, "__init__.py"])
            else if root + [name + ".py"] in disk.files then Some(root + [name + ".py"])
            else None
  {
    assert root + [name] + [INIT] == root + [name, "__init__.py"];
    assert [name][..0] == [] && root + [] + [name + ".py"] == root + [name + ".py"];
  }

  lemma InitBelow(root: Path, first: string, rest: seq<string>, parts: seq<string>, k: nat)
    requires parts == [first] + rest && k <= |rest|
    ensures InitOf(root, parts[..k + 1]) == InitOf(root + [first], rest[..k])
  {
    assert parts[..k + 1] == [first] + rest[..k];
    assert root + ([first] + rest[..k]) == root + [first] + rest[..k];
  }

  lemma PackagesBelow(disk: Disk, root: Path, first: string, rest: seq<string>, parts: seq<string>, n: nat)
    requires parts == [first] + rest && n <= |rest|
    ensures PackagesExist(disk, root, parts, n + 1) <==>
              root + [first, "__init__.py"] in disk.files && PackagesExist(disk, root + [first], rest, n)
  {
    assert root + [first] + [INIT] == root + [first, "__init__.py"] && parts[..1] == [first];
    forall k | 0 <= k <= n ensures InitOf(root, parts[..k + 1]) == InitOf(root + [first], rest[..k]) {
      InitBelow(root, first, rest, parts, k);
    }
    if PackagesExist(disk, root, parts, n + 1) {
      assert InitOf(root, parts[..1]) in disk.files;
      forall k | 1 <= k <= n ensures InitOf(root + [first], rest[..k]) in disk.files {
        assert InitOf(root, parts[..k + 1]) in disk.files;
      }
    }
    if root + [first, "__init__.py"] in disk.files && PackagesExist(disk, root + [first], rest, n) {
      forall k | 1 <= k <= n + 1 ensures InitOf(root, parts[..k]) in disk.files {
        if k > 1 {
          assert InitOf(root + [first], rest[..k - 1]) in disk.files;
        }
      }
    }
  }

  lemma FilesBelow(root: Path, first: string, rest: seq<string>, parts: seq<string>)
    requires parts == [first] + rest && rest != []
    ensures InitOf(root, parts) == InitOf(root + [first], rest)
    ensures ModuleFile(root, parts) == ModuleFile(root + [first], rest)
  {
    InitBelow(root, first, rest, parts, |rest|);
    TakeAll(parts);
    TakeAll(rest);
    assert parts[..|parts| - 1] == [first] + rest[..|rest| - 1];
    assert root + ([first] + rest[..|rest| - 1]) == root + [first] + rest[..|rest| - 1];
  }

  /** A dotted name is looked up below its first part, which must be a package. */
  lemma ProbeBelow(disk: Disk, root: Path, first: string, rest: seq<string>)
    requires rest != []
    ensures ProbeSpec(disk, root, [first] + rest)
         == if disk.isIdentifier(first) && root + [first, "__init__.py"] in disk.files
            then ProbeSpec(disk, root + [first], rest) else None
  {
    var parts := [first] + rest;
    PackagesBelow(disk, root, first, rest, parts, |rest| - 1);
    FilesBelow(root, first, rest, parts);
    IdentifiersBelow(disk, first, rest, parts);
  }

  lemma IdentifiersBelow(disk: Disk, first: string, rest: seq<string>, parts: seq<string>)
    requires parts == [first] + rest
    ensures (exists k :: 0 <= k < |parts| && !disk.isIdentifier(parts[k])) <==>
              !disk.isIdentifier(first) || exists k :: 0 <= k < |rest| && !disk.isIdentifier(rest[k])
  {
    forall k | 0 <= k < |rest| ensures parts[k + 1] == rest[k] {
    }
    assert parts[0] == first;
  }

  lemma {:induction false} AncestorIs(p: Path, n: nat)
    ensures Ancestor(p, n) == if n <= |p| then p[..|p| - n] else []
  {
    if n > 0 {
      AncestorIs(p, n - 1);
    }
  }

  /** How many of a file's directories below the root a relative statement of this level keeps. */
  function Kept(dirs: seq<string>, level: nat): nat {
    if level <= |dirs| then |dirs| - level else 0
  }

  lemma BaseIs(root: Path, dirs: seq<string>, file: Path, name: string, ref: ImportRef, up: nat)
    requires file == root + dirs + [name] && ref.level == up + 1
    ensures BaseOf(ref, file, root)
         == if up <= |dirs| || root == [] then Some(dirs[..Kept(dirs, up)] + ref.modulePath) else None
  {
    assert Parent(file) == root + dirs;
    AncestorIs(root + dirs, up);
    var package := Ancestor(root + dirs, up);
    if up <= |dirs| {
      assert package == root + dirs[..|dirs| - up];
      assert package[|root|..] == dirs[..|dirs| - up];
    } else if root == [] {
      assert package == [] && package[|root|..] == [];
    }
  }

  /**
   A relative statement declares what the absolute one for its own package does: level 1 is the file's directory, each
   further level one directory up. Above the root it declares nothing, unless the root is the top of the file system,
   above which there is only itself.
   */
  lemma RelativeIsAbsolute(disk: Disk, root: Path, dirs: seq<string>, name: string, ref: ImportRef, up: nat,
                           includeParents: bool)
    requires ref.level == up + 1
    ensures var file, base := root + dirs + [name], dirs[..Kept(dirs, up)] + ref.modulePath;
            TargetsOfRef(disk, root, file, ref, includeParents)
              == if up <= |dirs| || root == []
                 then TargetsOfRef(disk, root, file, ImportRef(base, 0, ref.names), includeParents) else {}
  {
    BaseIs(root, dirs, root + dirs + [name], name, ref, up);
  }

  /** A dotted name that leads to a package. */
  predicate IsPackage(disk: Disk, root: Path, parts: seq<string>) {
    && parts != [] && (forall k {:trigger parts[k]} :: 0 <= k < |parts| ==> disk.isIdentifier(parts[k]))
    && forall k {:trigger parts[..k]} :: 1 <= k <= |parts| ==> root + parts[..k] + ["__init__.py"] in disk.files
  }

  lemma PackageIsFound(disk: Disk, root: Path, parts: seq<string>)
    requires IsPackage(disk, root, parts)
    ensures ProbeSpec(disk, root, parts) == Some(root + parts + ["__init__.py"])
  {
    TakeAll(parts);
    assert root + parts[..|parts|] + ["__init__.py"] in disk.files;
  }

  /** Looked up inside a package, a name is its submodule: a package of its own first, otherwise a module file. */
  lemma SubmoduleIs(disk: Disk, root: Path, package: seq<string>, name: string)
    requires IsPackage(disk, root, package)
    ensures ProbeSpec(disk, root, package + [name])
         == if !disk.isIdentifier(name) then None
            else if root + package + [name, "__init__.py"] in disk.files then
              Some(root + package + [name, "__init__.py"])
            else if root + package + [name + ".py"] in disk.files then Some(root + package + [name + ".py"])
            else None
  {
    var parts := package + [name];
    assert parts[..|parts| - 1] == package && parts[|parts| - 1] == name;
    assert root + parts + [INIT] == root + package + [name, "__init__.py"];
    forall k | 1 <= k <= |package| ensures InitOf(root, parts[..k]) in disk.files {
      assert parts[..k] == package[..k];
    }
    forall k | 0 <= k < |package| ensures disk.isIdentifier(parts[k]) {
      assert parts[k] == package[k];
    }
  }

  /**
   A name bound from a package declares its submodule where there is one on disk, the package's initialiser
   otherwise.
   */
  lemma ImportedName(disk: Disk, root: Path, file: Path, package: seq<string>, name: string)
    requires IsPackage(disk, root, package)
    ensures TargetsOfRef(disk, root, file, ImportRef(package, 0, [name]), false)
         == if name == "*" || !disk.isIdentifier(name) then {root + package + ["__init__.py"]}
            else if root + package + [name, "__init__.py"] in disk.files then {root + package + [name, "__init__.py"]}
            else if root + package + [name + ".py"] in disk.files then {root + package + [name + ".py"]}
            else {root + package + ["__init__.py"]}
  {
    PackageIsFound(disk, root, package);
    SubmoduleIs(disk, root, package, name);
    var found := root + package + ["__init__.py"];
    assert found[|found| - 1] == INIT;
    assert (set i | 0 <= i < 1 :: NamedTarget(disk, root, package, found, [name][i]))
        == {NamedTarget(disk, root, package, found, name)};
  }

  /** Names bound from a module that is no package, and a module imported by itself, declare the module's file. */
  lemma ImportedModule(disk: Disk, root: Path, file: Path, parts: seq<string>, names: seq<string>)
    requires var found := ProbeSpec(disk, root, parts);
             names == [] || found == None || found.value[|found.value| - 1] != "__init__.py"
    ensures TargetsOfRef(disk, root, file, ImportRef(parts, 0, names), false)
         == if ProbeSpec(disk, root, parts) == None then {} else {ProbeSpec(disk, root, parts).value}
  {
  }

  /** Several names declare what each of them does. */
  lemma ImportedNames(disk: Disk, root: Path, file: Path, parts: seq<string>, a: seq<string>, b: seq<string>)
    requires a != [] && b != []
    ensures TargetsOfRef(disk, root, file, ImportRef(parts, 0, a + b), false)
         == TargetsOfRef(disk, root, file, ImportRef(parts, 0, a), false)
            + TargetsOfRef(disk, root, file, ImportRef(parts, 0, b), false)
  {
    var found := ProbeSpec(disk, root, parts);
    if found.Some? && found.value[|found.value| - 1] == INIT {
      NamesApart(disk, root, parts, found.value, a, b);
    }
  }

  lemma NamesApart(disk: Disk, root: Path, base: seq<string>, found: Path, a: seq<string>, b: seq<string>)
    ensures (set i | 0 <= i < |a + b| :: NamedTarget(disk, root, base, found, (a + b)[i]))
         == (set i | 0 <= i < |a| :: NamedTarget(disk, root, base, found, a[i]))
            + (set i | 0 <= i < |b| :: NamedTarget(disk, root, base, found, b[i]))
  {
    var both := a + b;
    forall i | 0 <= i < |a| ensures both[i] == a[i] {
    }
    forall i | 0 <= i < |b| ensures both[|a| + i] == b[i] {
    }
  }

  /** With parents, every initialiser on the way to the module is declared as well, if anything is. */
  lemma WithParents(disk: Disk, root: Path, file: Path, parts: seq<string>, names: seq<string>, t: Path)
    ensures var alone := TargetsOfRef(disk, root, file, ImportRef(parts, 0, names), false);
            t in TargetsOfRef(disk, root, file, ImportRef(parts, 0, names), true) <==>
              || t in alone
              || (ProbeSpec(disk, root, parts).Some? && t in disk.files
                  && exists k {:trigger parts[..k]} :: 1 <= k <= |parts| && t == root + parts[..k] + ["__init__.py"])
  {
    assert forall k :: 1 <= k <= |parts| ==> InitOf(root, parts[..k]) == root + parts[..k] + ["__init__.py"];
  }

  // ---------------------------------------------------------------- the closure

  /** The statements of a file, in any order; a file that does not parse has none. */
  function RefsOf(disk: Disk, file: Path): multiset<ImportRef>
    requires file in disk.files
  {
    var tree := disk.files[file];
    if tree == None then multiset{} else Declared(tree.value)
  }

  /** One walk: where it looks, what it leaves out, and what it starts from. */
  datatype Walk = Walk(disk: Disk, root: Path, package: Path, includeParents: bool, start: Path)

  /** The files a file's statements declare, those of the package left out. */
  ghost predicate Edge(w: Walk, from: Path, to: Path) {
    && from in w.disk.files && !(w.package <= to)
    && exists ref :: ref in RefsOf(w.disk, from) && to in TargetsOfRef(w.disk, w.root, from, ref, w.includeParents)
  }

  /** An edge leads from a file that parses to a target of one of its statements; one that does not parse has none. */
  lemma EdgeMeans(w: Walk, from: Path, to: Path)
    requires from in w.disk.files
    ensures w.disk.files[from] == None ==> !Edge(w, from, to)
    ensures w.disk.files[from].Some? ==>
              (Edge(w, from, to) <==>
                 !(w.package <= to)
                 && exists ref ::
                      ref in Declared(w.disk.files[from].value)
                      && to in TargetsOfRef(w.disk, w.root, from, ref, w.includeParents))
  {
  }

  /** Reached from the start in at most n steps. */
  ghost predicate ReachedIn(w: Walk, f: Path, n: nat)
    decreases n
  {
    f == w.start || (n > 0 && exists g :: ReachedIn(w, g, n - 1) && Edge(w, g, f))
  }

  ghost predicate Reached(w: Walk, f: Path) {
    exists n: nat :: ReachedIn(w, f, n)
  }

  /** Every edge from a file already read leads to a file already seen. */
  ghost predicate ReadAreClosed(w: Walk, seen: set<Path>, pending: seq<Path>) {
    forall f, g {:trigger Edge(w, f, g)} :: f in seen && f !in pending && Edge(w, f, g) ==> g in seen
  }

  /** What was seen exists and is reached, what is pending was seen. */
  ghost predicate SeenAreReached(w: Walk, seen: set<Path>, pending: seq<Path>) {
    && w.start in seen && (forall f :: f in pending ==> f in seen)
    && (forall f :: f in seen ==> f in w.disk.files && Reached(w, f))
  }

  /** Files read are recorded, the start left out, and nothing that was not seen is. */
  ghost predicate ReadAreRecorded(w: Walk, seen: set<Path>, pending: seq<Path>, manifest: map<Path, string>) {
    && (forall f :: f in seen && f !in pending && f != w.start ==> f in manifest)
    && (forall f :: f in manifest ==> f in seen && f != w.start && manifest[f] == w.disk.digest(f))
  }

  /** The worklist: what was seen, what is still to be read, and what was recorded. */
  ghost predicate Progress(w: Walk, seen: set<Path>, pending: seq<Path>, manifest: map<Path, string>) {
    SeenAreReached(w, seen, pending) && ReadAreClosed(w, seen, pending) && ReadAreRecorded(w, seen, pending, manifest)
  }

  function Recorded(w: Walk, manifest: map<Path, string>, file: Path): map<Path, string> {
    if file != w.start then manifest[file := w.disk.digest(file)] else manifest
  }

  /** Reading one pending file and queueing its new targets. */
  lemma ProgressStep(w: Walk, seen: set<Path>, pending: seq<Path>, manifest: map<Path, string>, at: nat,
                     targets: seq<Path>, seen': set<Path>, pending': seq<Path>)
    requires Progress(w, seen, pending, manifest) && at < |pending|
    requires forall t :: t in targets <==> Edge(w, pending[at], t)
    requires seen' == seen + (set t | t in targets)
    requires forall t :: t in pending' <==> t in pending[..at] + pending[at + 1..] || (t in targets && t !in seen)
    ensures Progress(w, seen', pending', Recorded(w, manifest, pending[at]))
  {
    var file := pending[at];
    forall f | f in pending && f != file ensures f in pending' {
      OthersStay(pending, at, f);
    }
    forall f | f in pending' ensures f in seen' {
      if f !in targets {
        assert f in pending;
      }
    }
    forall f | f in seen' ensures f in w.disk.files && Reached(w, f) {
      if f in targets {
        EdgeReaches(w, file, f);
        EdgeExists(w, file, f);
      }
    }
  }

  lemma OthersStay<T>(s: seq<T>, at: nat, x: T)
    requires at < |s| && x in s && x != s[at]
    ensures x in s[..at] + s[at + 1..]
  {
    assert s == s[..at] + [s[at]] + s[at + 1..];
  }

  lemma EdgeExists(w: Walk, f: Path, g: Path)
    requires Edge(w, f, g)
    ensures g in w.disk.files
  {
    var ref :| ref in RefsOf(w.disk, f) && g in TargetsOfRef(w.disk, w.root, f, ref, w.includeParents);
    TargetsExist(w.disk, w.root, f, ref, w.includeParents, g);
  }

  lemma EdgeReaches(w: Walk, f: Path, g: Path)
    requires Reached(w, f) && Edge(w, f, g)
    ensures Reached(w, g)
  {
    var n: nat :| ReachedIn(w, f, n);
    assert ReachedIn(w, g, n + 1);
  }

  /** What is closed under edges and holds the start holds everything reached. */
  lemma {:induction false} ClosedHoldsAll(w: Walk, seen: set<Path>, f: Path, n: nat)
    requires w.start in seen && ReachedIn(w, f, n)
    requires forall g, h {:trigger Edge(w, g, h)} :: g in seen && Edge(w, g, h) ==> h in seen
    ensures f in seen
    decreases n
  {
    if f != w.start {
      var g :| ReachedIn(w, g, n - 1) && Edge(w, g, f);
      ClosedHoldsAll(w, seen, g, n - 1);
    }
  }

  method OutsidePackage(targets: seq<Path>, package: Path) returns (out: seq<Path>)
    ensures forall t :: t in out <==> t in targets && !(package <= t)
  {
    out := [];
    for i := 0 to |targets|
      invariant forall t :: t in out <==> t in targets[..i] && !(package <= t)
    {
      TakeOneMore(targets, i);
      if !(package <= targets[i]) {
        out := out + [targets[i]];
      }
    }
    TakeAll(targets);
  }

  predicate DeclaresKept(w: Walk, file: Path, ref: ImportRef, t: Path) {
    !(w.package <= t) && t in TargetsOfRef(w.disk, w.root, file, ref, w.includeParents)
  }

  predicate KeptAmong(w: Walk, file: Path, refs: seq<ImportRef>, n: nat, t: Path)
    requires n <= |refs|
  {
    exists k :: 0 <= k < n && DeclaresKept(w, file, refs[k], t)
  }

  /** The targets of one statement that count. */
  method KeptTargets(w: Walk, file: Path, ref: ImportRef) returns (kept: seq<Path>)
    ensures forall t :: t in kept <==> DeclaresKept(w, file, ref, t)
  {
    var targets := ResolveRef(w.disk, w.root, file, ref, w.includeParents);
    assert forall t :: t in targets <==> t in (set x | x in targets);
    kept := OutsidePackage(targets, w.package);
  }

  ghost predicate ListsKept(w: Walk, file: Path, refs: seq<ImportRef>, n: nat, out: seq<Path>)
    requires n <= |refs|
  {
    forall t :: t in out <==> KeptAmong(w, file, refs, n, t)
  }

  lemma KeptOneMore(w: Walk, file: Path, refs: seq<ImportRef>, n: nat, out: seq<Path>, kept: seq<Path>)
    requires n < |refs| && ListsKept(w, file, refs, n, out)
    requires forall t :: t in kept <==> DeclaresKept(w, file, refs[n], t)
    ensures ListsKept(w, file, refs, n + 1, out + kept)
  {
    forall t ensures t in out + kept <==> KeptAmong(w, file, refs, n + 1, t) {
      assert KeptAmong(w, file, refs, n + 1, t) <==>
               KeptAmong(w, file, refs, n, t) || DeclaresKept(w, file, refs[n], t);
    }
  }

  lemma EdgesAreDeclared(w: Walk, file: Path, refs: seq<ImportRef>, t: Path)
    requires file in w.disk.files && multiset(refs) == RefsOf(w.disk, file)
    ensures Edge(w, file, t) <==> KeptAmong(w, file, refs, |refs|, t)
  {
    if k :| 0 <= k < |refs| && DeclaresKept(w, file, refs[k], t) {
      assert refs[k] in multiset(refs);
    }
    if Edge(w, file, t) {
      var ref :| ref in RefsOf(w.disk, file) && t in TargetsOfRef(w.disk, w.root, file, ref, w.includeParents);
      assert ref in multiset(refs) && ref in refs && DeclaresKept(w, file, ref, t);
    }
  }

  /** The targets of one file's statements that count. */
  method DeclaredTargets(w: Walk, file: Path) returns (out: seq<Path>)
    requires file in w.disk.files
    ensures forall t :: t in out <==> Edge(w, file, t)
  {
    var refs := ImportRefs(w.disk.files[file]);
    assert multiset(refs) == RefsOf(w.disk, file);
    out := [];
    for i := 0 to |refs|
      invariant ListsKept(w, file, refs, i, out)
    {
      var kept := KeptTargets(w, file, refs[i]);
      KeptOneMore(w, file, refs, i, out, kept);
      out := out + kept;
    }
    forall t ensures t in out <==> Edge(w, file, t) {
      EdgesAreDeclared(w, file, refs, t);
    }
  }

  /** Any policy for choosing the next pending file. */
  ghost predicate Policy(pick: seq<Path> -> nat) {
    forall pending {:trigger pick(pending)} :: pending != [] ==> pick(pending) < |pending|
  }

  /** Queue the targets not seen before. */
  method Enqueue(targets: seq<Path>, seen: set<Path>, pending: seq<Path>)
    returns (seen': set<Path>, pending': seq<Path>)
    ensures seen' == seen + (set t | t in targets)
    ensures forall t :: t in pending' <==> t in pending || (t in targets && t !in seen)
    ensures seen' == seen ==> pending' == pending
  {
    seen', pending' := seen, pending;
    for i := 0 to |targets|
      invariant seen' == seen + (set t | t in targets[..i])
      invariant forall t :: t in pending' <==> t in pending || (t in targets[..i] && t !in seen)
      invariant seen' == seen ==> pending' == pending
    {
      TakeOneMore(targets, i);
      if targets[i] !in seen' {
        seen', pending' := seen' + {targets[i]}, pending' + [targets[i]];
      }
    }
    TakeAll(targets);
  }

  /** Either nothing new was seen, or fewer files are left to see. */
  lemma Shrinks(w: Walk, seen: set<Path>, seen': set<Path>)
    requires seen <= seen' <= w.disk.files.Keys
    ensures seen' == seen || |w.disk.files.Keys - seen'| < |w.disk.files.Keys - seen|
  {
    var all := w.disk.files.Keys;
    if f :| f in seen' && f !in seen {
      assert all - seen' < all - seen;
      SmallerSet(all - seen', all - seen);
    }
  }

  lemma {:induction false} SmallerSet<T>(a: set<T>, b: set<T>)
    requires a < b
    ensures |a| < |b|
  {
    if x :| x in a {
      SmallerSet(a - {x}, b - {x});
    }
  }

  /**
   The closure: whatever the order in which pending files are taken, it ends, and it records exactly the files
   reached from the start through declared imports without passing through the package, the start itself left out,
   each with its digest.
   */
  method Closure(w: Walk, pick: seq<Path> -> nat) returns (manifest: map<Path, string>)
    requires w.start in w.disk.files && Policy(pick)
    ensures forall f :: f in manifest <==> f != w.start && Reached(w, f)
    ensures forall f :: f in manifest ==> manifest[f] == w.disk.digest(f) && Under(w.root, f)
  {
    manifest := map[];
    var seen, pending := {w.start}, [w.start];
    assert ReachedIn(w, w.start, 0);
    while pending != []
      invariant Progress(w, seen, pending, manifest)
      decreases |w.disk.files.Keys - seen|, |pending|
    {
      var at := pick(pending);
      var file := pending[at];
      var targets := DeclaredTargets(w, file);
      var seen', pending' := Enqueue(targets, seen, pending[..at] + pending[at + 1..]);
      ProgressStep(w, seen, pending, manifest, at, targets, seen', pending');
      Shrinks(w, seen, seen');
      seen, pending, manifest := seen', pending', Recorded(w, manifest, file);
    }
    Finished(w, seen, manifest);
  }

  /** Once nothing is pending, what was recorded is what is reached. */
  lemma Finished(w: Walk, seen: set<Path>, manifest: map<Path, string>)
    requires Progress(w, seen, [], manifest)
    ensures forall f :: f in manifest <==> f != w.start && Reached(w, f)
    ensures forall f :: f in manifest ==> manifest[f] == w.disk.digest(f) && Under(w.root, f)
  {
    forall f | Reached(w, f) ensures f in seen && (f != w.start ==> Under(w.root, f)) {
      var n: nat :| ReachedIn(w, f, n);
      ClosedHoldsAll(w, seen, f, n);
      if f != w.start {
        ReachedUnderRoot(w, f, n);
      }
    }
  }

  /** Everything reached but the start lies under the root, so relative keys are as good as these. */
  lemma ReachedUnderRoot(w: Walk, f: Path, n: nat)
    requires ReachedIn(w, f, n) && f != w.start
    ensures Under(w.root, f)
  {
    var g :| ReachedIn(w, g, n - 1) && Edge(w, g, f);
    var ref :| ref in RefsOf(w.disk, g) && f in TargetsOfRef(w.disk, w.root, g, ref, w.includeParents);
    TargetsExist(w.disk, w.root, g, ref, w.includeParents, f);
  }
}
