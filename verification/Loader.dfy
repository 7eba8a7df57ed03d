/** The dynamic loader's table of objects, filled in place by the walk over needed libraries. */
module Loader {
  import opened Numbers
  import opened Options
  import opened LoaderModel
  import opened LoadOrder

  datatype Object = Unused | Object(path: string, needed: seq<Option<string>>, symbols: seq<Symbol>, bias: nat)

  /** The entry defines the name. */
  predicate Defines(sym: Symbol, name: string) {
    sym.named && sym.section != 0 && sym.name == name
  }

  predicate DefinedIn(symbols: seq<Symbol>, name: string) {
    exists k :: 0 <= k < |symbols| && Defines(symbols[k], name)
  }

  /** The address of a name: from its first definition in the first object that has one, or zero. */
  ghost predicate AddressOf(env: Env, loaded: seq<string>, name: string, addr: nat)
    requires forall i :: 0 <= i < |loaded| ==> loaded[i] in env.files
  {
    (addr == 0 && (name == "" || forall i :: 0 <= i < |loaded| ==> !DefinedIn(env.files[loaded[i]].symbols, name)))
    || (name != "" && exists i, k :: FirstDefinition(env, loaded, name, i, k) && addr == AddressAt(env, loaded[i], k))
  }

  function AddressAt(env: Env, path: string, k: nat): nat
    requires path in env.files && k < |env.files[path].symbols|
  {
    (env.files[path].bias + env.files[path].symbols[k].value) % TWO_TO_32
  }

  ghost predicate FirstDefinition(env: Env, loaded: seq<string>, name: string, i: int, k: int)
    requires forall i :: 0 <= i < |loaded| ==> loaded[i] in env.files
  {
    && 0 <= i < |loaded| && 0 <= k < |env.files[loaded[i]].symbols|
    && Defines(env.files[loaded[i]].symbols[k], name)
    && (forall j :: 0 <= j < i ==> !DefinedIn(env.files[loaded[j]].symbols, name))
    && (forall j :: 0 <= j < k ==> !Defines(env.files[loaded[i]].symbols[j], name))
  }

  class Loader {
    const env: Env
    const objects: array<Object>
    var count: nat

    /** The paths of the loaded objects, in load order. */
    ghost function Loaded(): (r: seq<string>)
      requires Valid()
      reads this, objects
      ensures |r| == count
    {
      seq(count, i requires 0 <= i < count && Valid() reads this, objects => objects[i].path)
    }

    /** Every entry in use holds what its file says. */
    ghost predicate Valid()
      reads this, objects
    {
      && objects.Length == MAX_OBJECTS && count <= MAX_OBJECTS
      && forall i :: 0 <= i < count ==> Recorded(objects[i])
    }

    ghost predicate Recorded(o: Object) {
      && o.Object? && o.path in env.files
      && o.needed == Needed(env.files[o.path]) && o.symbols == env.files[o.path].symbols
      && o.bias == env.files[o.path].bias
    }

    constructor (env: Env)
      ensures Valid() && Loaded() == [] && this.env == env && fresh(objects)
    {
      this.env := env;
      objects := new Object[MAX_OBJECTS](_ => Unused);
      count := 0;
    }

    method FindLoadedObject(path: string) returns (found: bool, at: nat)
      requires Valid()
      ensures found <==> path in Loaded()
      ensures found ==> at < count && objects[at].path == path
    {
      for i := 0 to count
        invariant forall j :: 0 <= j < i ==> Loaded()[j] != path
      {
        if objects[i].path == path {
          assert Loaded()[i] == path;
          return true, i;
        }
        assert Loaded()[i] != path;
      }
      return false, 0;
    }

    /** The index of the object with this path, loading it and what it needs first if necessary. */
    method LoadObject(path: string) returns (ok: bool, at: nat)
      requires Valid()
      modifies this, objects
      ensures Valid() && (ok, Loaded()) == Visit(env, old(Loaded()), path)
      ensures ok ==> at < count && objects[at].path == path
      decreases MAX_OBJECTS - count, 1, 0
    {
      hide Needed;
      if path == "" {
        return false, 0;
      }
      var existing;
      existing, at := FindLoadedObject(path);
      if existing {
        return true, at;
      }
      if count >= MAX_OBJECTS {
        return false, 0;
      }
      if path !in env.files {
        return false, 0;
      }
      ghost var before := Loaded();
      var file := env.files[path];
      at := count;
      objects[count] := Object(path, Needed(file), file.symbols, file.bias);
      count := count + 1;
      assert Loaded() == before + [path];
      ghost var registered := Loaded();
      ok := LoadNeededLibraries(at);
      assert Loaded()[at] == registered[at];
    }

    /** Loads what an object needs. */
    method LoadNeededLibraries(at: nat) returns (ok: bool)
      requires Valid() && at < count
      modifies this, objects
      ensures Valid() && (ok, Loaded()) == VisitAll(env, old(Loaded()), old(objects[at].needed))
      decreases MAX_OBJECTS - count, 2, 0
    {
      var needed := objects[at].needed;
      var i := 0;
      ghost var start := Loaded();
      assert needed[0..] == needed;
      while i < |needed|
        invariant 0 <= i <= |needed| && Valid() && start <= Loaded()
        invariant VisitAll(env, Loaded(), needed[i..]) == VisitAll(env, start, needed)
      {
        assert needed[i..][0] == needed[i] && needed[i..][1..] == needed[i + 1..];
        var resolved := Resolve(env, needed[i]);
        if resolved.None? {
          return false;
        }
        var loaded, _ := LoadObject(resolved.value);
        if !loaded {
          return false;
        }
        i := i + 1;
      }
      assert needed[i..] == [];
      return true;
    }

    /** Looks a symbol up through the objects in load order. */
    method ResolveSymbolAddr(name: string) returns (addr: nat)
      requires Valid()
      ensures AddressOf(env, Loaded(), name, addr)
    {
      hide Needed;
      if name == "" {
        return 0;
      }
      ghost var loaded := Loaded();
      for oi := 0 to count
        invariant forall j :: 0 <= j < oi ==> !DefinedIn(env.files[loaded[j]].symbols, name)
      {
        var obj := objects[oi];
        assert obj.symbols == env.files[loaded[oi]].symbols;
        for si := 0 to |obj.symbols|
          invariant forall k :: 0 <= k < si ==> !Defines(obj.symbols[k], name)
        {
          var sym := obj.symbols[si];
          if sym.named && sym.section != 0 && sym.name == name {
            assert FirstDefinition(env, loaded, name, oi, si);
            return (obj.bias + sym.value) % TWO_TO_32;
          }
        }
      }
      return 0;
    }
  }

  /** Loads a program with everything it needs, depth first and in the order of the needed names. */
  method LoadProgram(env: Env, path: string) returns (ok: bool, loader: Loader)
    ensures fresh(loader) && loader.env == env && loader.Valid()
    ensures ok <==> exists s :: path in s && |s| <= MAX_OBJECTS && Closed(env, s)
    ensures ok ==> NoDuplicates(loader.Loaded()) && Closed(env, AsSet(loader.Loaded())) && [path] <= loader.Loaded()
    ensures ok ==> InOrder(env, loader.Loaded())
  {
    hide Closed, NoDuplicates, Visit, InOrder;
    loader := new Loader(env);
    LoadExactly(env, path);
    var at;
    ok, at := loader.LoadObject(path);
    if ok {
      LoadInOrder(env, path);
    }
  }

  /** The addresses of some names once a program is loaded, by the only order in which its objects can be taken up. */
  method LoadAndResolve(env: Env, path: string, names: seq<string>) returns (ok: bool, addrs: seq<nat>)
    ensures ok <==> exists s :: path in s && |s| <= MAX_OBJECTS && Closed(env, s)
    ensures ok ==> |addrs| == |names|
    ensures ok ==> exists order :: WholeOrder(env, path, order)
    ensures ok ==> forall order, i :: WholeOrder(env, path, order) && 0 <= i < |names| ==>
                                        AddressOf(env, order, names[i], addrs[i])
  {
    hide Closed, NoDuplicates, InOrder, AddressOf, WholeOrder;
    var loader;
    ok, loader := LoadProgram(env, path);
    addrs := [];
    if !ok {
      return;
    }
    ghost var loaded := loader.Loaded();
    IsWholeOrder(env, path, loaded);
    for i := 0 to |names|
      invariant loader.Valid() && loader.Loaded() == loaded && |addrs| == i
      invariant forall k :: 0 <= k < i ==> AddressOf(env, loaded, names[k], addrs[k])
    {
      var addr := loader.ResolveSymbolAddr(names[i]);
      addrs := addrs + [addr];
    }
    forall order | WholeOrder(env, path, order)
      ensures order == loaded
    {
      WholeOrderIsUnique(env, path, order, loaded);
    }
  }

  /** A program first, then everything it needs, in order. */
  ghost predicate WholeOrder(env: Env, path: string, order: seq<string>)
    ensures WholeOrder(env, path, order) ==> forall i :: 0 <= i < |order| ==> order[i] in env.files
  {
    InOrder(env, order) && order[0] == path && Closed(env, AsSet(order))
  }

  lemma IsWholeOrder(env: Env, path: string, order: seq<string>)
    requires InOrder(env, order) && [path] <= order && Closed(env, AsSet(order))
    ensures WholeOrder(env, path, order)
  {
    hide Closed;
  }

  lemma WholeOrderIsUnique(env: Env, path: string, a: seq<string>, b: seq<string>)
    requires WholeOrder(env, path, a) && WholeOrder(env, path, b)
    ensures a == b
  {
    hide Closed, Ordered;
    OrderIsUnique(env, a, b);
  }
}
