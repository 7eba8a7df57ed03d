/** Which objects the dynamic loader loads, in which order, and when loading succeeds. */
module LoaderModel {
  import opened Options

  const MAX_OBJECTS: nat := 8
  const MAX_NEEDED: nat := 8

  /** A symbol table entry; undefined entries have no name or no section. */
  datatype Symbol = Symbol(name: string, named: bool, section: nat, value: nat)

  /** What a loadable file says: the names it needs, if it has a string table, and its symbols. */
  datatype Elf = Elf(needed: seq<string>, hasStrings: bool, symbols: seq<Symbol>, bias: nat)

  /** The file system: the readable paths, and the paths that hold a loadable object. */
  datatype Env = Env(readable: set<string>, files: map<string, Elf>)

  /** The recorded names: at most eight, and unknown without a string table. */
  function Needed(e: Elf): (r: seq<Option<string>>)
    ensures |r| <= MAX_NEEDED
  {
    var n := if |e.needed| < MAX_NEEDED then |e.needed| else MAX_NEEDED;
    seq(n, i requires 0 <= i < n => if e.hasStrings then Some(e.needed[i]) else None)
  }

  const COMPAT_NAMES: seq<string> := [
    "libXmu.so.6", "libXt.so.6", "libXext.so.6", "libXrender.so.1", "libX11-xcb.so.1", "libxcb.so.1",
    "libxcb-present.so.0", "libxcb-damage.so.0", "libxcb-xfixes.so.0"]

  const COMPAT_PATH: string := "/lib/libx11compat.so.6"

  /** The path a needed name stands for: itself when it has a slash, else the first readable place. */
  function Resolve(env: Env, needed: Option<string>): (r: Option<string>)
    ensures r.Some? ==> r.value != ""
  {
    if needed.None? || needed.value == "" then None
    else
      var name := needed.value;
      if '/' in name then Some(name)
      else if "/binaries/" + name in env.readable then Some("/binaries/" + name)
      else if "/lib/" + name in env.readable then Some("/lib/" + name)
      else if name in env.readable then Some(name)
      else if name in COMPAT_NAMES && COMPAT_PATH in env.readable then Some(COMPAT_PATH)
      else None
  }

  /** The places where a name without a slash is looked for, in order. */
  function Places(name: string): seq<string> {
    ["/binaries/" + name, "/lib/" + name, name] + if name in COMPAT_NAMES then [COMPAT_PATH] else []
  }

  /** A name stands for the first readable place, and for nothing exactly if none is readable. */
  lemma ResolvesToFirst(env: Env, name: string, path: string)
    requires name != "" && '/' !in name
    ensures Resolve(env, Some(name)) == Some(path) <==>
      exists i :: 0 <= i < |Places(name)| && Places(name)[i] == path && path in env.readable
                  && forall j :: 0 <= j < i ==> Places(name)[j] !in env.readable
    ensures Resolve(env, Some(name)) == None <==> forall j :: 0 <= j < |Places(name)| ==>
        Places(name)[j] !in env.readable
  {
    hide COMPAT_NAMES, COMPAT_PATH;
    var ps := Places(name);
    assert ps[0] == "/binaries/" + name && ps[1] == "/lib/" + name && ps[2] == name;
    assert name in COMPAT_NAMES ==> |ps| == 4 && ps[3] == COMPAT_PATH;
    assert name !in COMPAT_NAMES ==> |ps| == 3;
  }

  // ---------------------------------------------------------------- the walk

  /** Loads a path after the paths already loaded. */
  function Visit(env: Env, loaded: seq<string>, path: string): (r: (bool, seq<string>))
    ensures loaded <= r.1
    ensures |r.1| <= MAX_OBJECTS || r.1 == loaded
    decreases MAX_OBJECTS - |loaded|, 1, 0
  {
    if path == "" then (false, loaded)
    else if path in loaded then (true, loaded)
    else if |loaded| >= MAX_OBJECTS || path !in env.files then (false, loaded)
    else VisitAll(env, loaded + [path], Needed(env.files[path]))
  }

  /** Loads what the names stand for, one after another, up to the first failure. */
  function VisitAll(env: Env, loaded: seq<string>, names: seq<Option<string>>): (r: (bool, seq<string>))
    ensures loaded <= r.1
    ensures |r.1| <= MAX_OBJECTS || r.1 == loaded
    decreases MAX_OBJECTS - |loaded|, 2, |names|
  {
    if names == [] then (true, loaded)
    else
      match Resolve(env, names[0])
      case None => (false, loaded)
      case Some(path) =>
        var (ok, more) := Visit(env, loaded, path);
        if ok then VisitAll(env, more, names[1..]) else (false, more)
  }

  // ---------------------------------------------------------------- what a load achieves

  predicate NoDuplicates(paths: seq<string>) {
    forall i, j :: 0 <= i < j < |paths| ==> paths[i] != paths[j]
  }

  /** The path holds an object all of whose needed names stand for some of the given paths. */
  ghost predicate Satisfied(env: Env, path: string, among: set<string>) {
    && path != "" && path in env.files
    && AllAmong(env, Needed(env.files[path]), among)
  }

  ghost predicate AllAmong(env: Env, names: seq<Option<string>>, among: set<string>) {
    forall i :: 0 <= i < |names| ==> Resolve(env, names[i]).Some? && Resolve(env, names[i]).value in among
  }

  /** Paths that need nothing outside themselves. */
  ghost predicate Closed(env: Env, paths: set<string>) {
    forall p :: p in paths ==> Satisfied(env, p, paths)
  }

  ghost function AsSet(paths: seq<string>): set<string> {
    set p | p in paths
  }

  ghost predicate NewSatisfied(env: Env, before: nat, paths: seq<string>) {
    forall i :: before <= i < |paths| ==> Satisfied(env, paths[i], AsSet(paths))
  }

  lemma SatisfiedMore(env: Env, before: nat, paths: seq<string>, more: seq<string>)
    requires paths <= more && before <= |paths| && NewSatisfied(env, before, paths) && NewSatisfied(env, |paths|, more)
    ensures NewSatisfied(env, before, more)
  {
    assert forall p :: p in paths ==> p in more;
    forall i | before <= i < |more| ensures Satisfied(env, more[i], AsSet(more)) {
      if i < |paths| {
        assert more[i] == paths[i];
      }
    }
  }

  lemma {:induction false} VisitLoads(env: Env, loaded: seq<string>, path: string)
    requires NoDuplicates(loaded)
    ensures NoDuplicates(Visit(env, loaded, path).1)
    ensures Visit(env, loaded, path).0 ==>
      path in Visit(env, loaded, path).1 && NewSatisfied(env, |loaded|, Visit(env, loaded, path).1)
    decreases MAX_OBJECTS - |loaded|, 1, 0
  {
    if path != "" && path !in loaded && |loaded| < MAX_OBJECTS && path in env.files {
      var next := loaded + [path];
      VisitAllLoads(env, next, Needed(env.files[path]));
      var r := VisitAll(env, next, Needed(env.files[path])).1;
      assert r[|loaded|] == next[|loaded|] == path;
    }
  }

  lemma {:induction false} VisitAllLoads(env: Env, loaded: seq<string>, names: seq<Option<string>>)
    requires NoDuplicates(loaded)
    ensures NoDuplicates(VisitAll(env, loaded, names).1)
    ensures VisitAll(env, loaded, names).0 ==>
      AllAmong(env, names, AsSet(VisitAll(env, loaded, names).1)) &&
          NewSatisfied(env, |loaded|, VisitAll(env, loaded, names).1)
    decreases MAX_OBJECTS - |loaded|, 2, |names|
  {
    if names != [] && Resolve(env, names[0]).Some? {
      var path := Resolve(env, names[0]).value;
      VisitLoads(env, loaded, path);
      var (ok, more) := Visit(env, loaded, path);
      if ok {
        VisitAllLoads(env, more, names[1..]);
        var (all, r) := VisitAll(env, more, names[1..]);
        if all {
          SatisfiedMore(env, |loaded|, more, r);
          assert forall p :: p in more ==> p in r;
          assert forall i :: 0 < i < |names| ==> names[i] == names[1..][i - 1];
        }
      }
    }
  }

  // ---------------------------------------------------------------- nothing more, and nothing less

  /** Loading stays inside any closed set, and succeeds when it has at most eight members. */
  lemma {:induction false} VisitInside(env: Env, loaded: seq<string>, path: string, s: set<string>)
    requires Closed(env, s) && path in s && AsSet(loaded) <= s && NoDuplicates(loaded)
    ensures AsSet(Visit(env, loaded, path).1) <= s
    ensures |s| <= MAX_OBJECTS ==> Visit(env, loaded, path).0
    decreases MAX_OBJECTS - |loaded|, 1, 0
  {
    assert Satisfied(env, path, s);
    if path !in loaded {
      RoomLeft(loaded, path, s);
      if |loaded| < MAX_OBJECTS {
        var next := loaded + [path];
        VisitAllInside(env, next, Needed(env.files[path]), s);
      }
    }
  }

  lemma {:induction false} VisitAllInside(env: Env, loaded: seq<string>, names: seq<Option<string>>, s: set<string>)
    requires Closed(env, s) && AllAmong(env, names, s) && AsSet(loaded) <= s && NoDuplicates(loaded)
    ensures AsSet(VisitAll(env, loaded, names).1) <= s
    ensures |s| <= MAX_OBJECTS ==> VisitAll(env, loaded, names).0
    decreases MAX_OBJECTS - |loaded|, 2, |names|
  {
    if names != [] {
      var path := Resolve(env, names[0]).value;
      VisitInside(env, loaded, path, s);
      VisitLoads(env, loaded, path);
      var (ok, more) := Visit(env, loaded, path);
      if ok {
        assert forall i :: 0 <= i < |names[1..]| ==> names[1..][i] == names[i + 1];
        VisitAllInside(env, more, names[1..], s);
      }
    }
  }

  lemma RoomLeft(loaded: seq<string>, path: string, s: set<string>)
    requires AsSet(loaded) <= s && path in s && path !in loaded && NoDuplicates(loaded)
    ensures |loaded| < |s|
  {
    Distinct(loaded);
    assert AsSet(loaded) + {path} <= s;
    SubsetSize(AsSet(loaded) + {path}, s);
  }

  lemma {:induction false} Distinct(paths: seq<string>)
    requires NoDuplicates(paths)
    ensures |AsSet(paths)| == |paths|
    decreases |paths|
  {
    if paths == [] {
      assert AsSet(paths) == {};
    } else {
      var front, last := paths[..|paths| - 1], paths[|paths| - 1];
      Distinct(front);
      assert AsSet(paths) == AsSet(front) + {last};
      assert last !in front;
    }
  }

  lemma {:induction false} SubsetSize(a: set<string>, b: set<string>)
    requires a <= b
    ensures |a| <= |b|
  {
    assert b == a + (b - a);
  }

  /** Loading a program succeeds exactly when it lies in a closed set of at most eight objects. The
      objects are then the smallest such set, each loaded once, the program first. */
  lemma LoadExactly(env: Env, path: string)
    ensures var (ok, loaded) := Visit(env, [], path);
            && (ok <==> exists s :: path in s && |s| <= MAX_OBJECTS && Closed(env, s))
            && (ok ==>
              && NoDuplicates(loaded) && loaded != [] && loaded[0] == path && |loaded| <= MAX_OBJECTS
              && Closed(env, AsSet(loaded))
              && forall s :: path in s && Closed(env, s) ==> AsSet(loaded) <= s)
  {
    var (ok, loaded) := Visit(env, [], path);
    VisitLoads(env, [], path);
    if ok {
      Distinct(loaded);
      assert forall p :: p in AsSet(loaded) ==> exists i :: 0 <= i < |loaded| && loaded[i] == p;
      assert path in AsSet(loaded) && |AsSet(loaded)| <= MAX_OBJECTS && Closed(env, AsSet(loaded));
      assert [path] <= loaded;
    }
    forall s | path in s && Closed(env, s)
      ensures AsSet(loaded) <= s && (|s| <= MAX_OBJECTS ==> ok)
    {
      VisitInside(env, [], path, s);
    }
  }
}
