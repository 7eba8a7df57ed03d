/** The order in which objects are loaded, by the names they need. */
module LoadOrder {
  import opened Options
  import opened LoaderModel

  /** The k-th recorded name of a loaded object stands for one of the given paths. */
  ghost predicate Met(env: Env, name: Option<string>, among: seq<string>) {
    Resolve(env, name).Some? && Resolve(env, name).value in among
  }

  ghost predicate AllMet(env: Env, path: string, among: seq<string>)
    requires path in env.files
  {
    forall k :: 0 <= k < |Needed(env.files[path])| ==> Met(env, Needed(env.files[path])[k], among)
  }

  predicate Known(env: Env, loaded: seq<string>) {
    forall i :: 0 <= i < |loaded| ==> loaded[i] in env.files
  }

  /** Object i is what the k-th name of object j stands for: the first of its names that stands for nothing before i,
      and no object between j and i has such a name. */
  ghost predicate Next(env: Env, loaded: seq<string>, i: nat, j: int, k: int)
    requires Known(env, loaded) && i < |loaded|
  {
    && 0 <= j < i && 0 <= k < |Needed(env.files[loaded[j]])|
    && var names := Needed(env.files[loaded[j]]);
       && Resolve(env, names[k]) == Some(loaded[i]) && loaded[i] !in loaded[..i]
       && (forall h :: 0 <= h < k ==> Met(env, names[h], loaded[..i]))
       && (forall h :: j < h < i ==> AllMet(env, loaded[h], loaded[..i]))
  }

  ghost predicate HasNext(env: Env, loaded: seq<string>, i: nat)
    requires Known(env, loaded) && i < |loaded|
  {
    exists j, k :: Next(env, loaded, i, j, k)
  }

  ghost predicate Ordered(env: Env, loaded: seq<string>, start: nat)
    requires Known(env, loaded)
  {
    forall i :: start <= i < |loaded| ==> HasNext(env, loaded, i)
  }

  /** Objects are taken up depth first, each object's names in order. */
  ghost predicate InOrder(env: Env, loaded: seq<string>) {
    loaded != [] && Known(env, loaded) && Ordered(env, loaded, 1)
  }

  lemma NextInLonger(env: Env, loaded: seq<string>, more: seq<string>, i: nat)
    requires Known(env, more) && loaded <= more && i < |loaded| && Known(env, loaded) && HasNext(env, loaded, i)
    ensures HasNext(env, more, i)
  {
    hide Needed, Resolve;
    var j, k :| Next(env, loaded, i, j, k);
    assert loaded[..i] == more[..i];
    assert forall h :: 0 <= h <= i ==> more[h] == loaded[h];
    assert Next(env, more, i, j, k);
  }

  lemma {:induction false} VisitKnown(env: Env, loaded: seq<string>, path: string)
    requires Known(env, loaded)
    ensures Known(env, Visit(env, loaded, path).1)
    decreases MAX_OBJECTS - |loaded|, 1, 0
  {
    if path != "" && path !in loaded && |loaded| < MAX_OBJECTS && path in env.files {
      VisitAllKnown(env, loaded + [path], Needed(env.files[path]));
    }
  }

  lemma {:induction false} VisitAllKnown(env: Env, loaded: seq<string>, names: seq<Option<string>>)
    requires Known(env, loaded)
    ensures Known(env, VisitAll(env, loaded, names).1)
    decreases MAX_OBJECTS - |loaded|, 2, |names|
  {
    if names != [] && Resolve(env, names[0]).Some? {
      var path := Resolve(env, names[0]).value;
      VisitKnown(env, loaded, path);
      var (ok, more) := Visit(env, loaded, path);
      if ok {
        VisitAllKnown(env, more, names[1..]);
      }
    }
  }

  lemma SatisfiedIsMet(env: Env, start: nat, loaded: seq<string>)
    requires Known(env, loaded) && NewSatisfied(env, start, loaded)
    ensures forall h :: start <= h < |loaded| ==> AllMet(env, loaded[h], loaded)
  {
    hide Needed, Resolve;
    forall h, k | start <= h < |loaded| && 0 <= k < |Needed(env.files[loaded[h]])|
      ensures Met(env, Needed(env.files[loaded[h]])[k], loaded)
    {
      assert Satisfied(env, loaded[h], AsSet(loaded));
    }
  }

  /** What a newly loaded path brings with it is in order. */
  lemma {:induction false} VisitOrder(env: Env, loaded: seq<string>, path: string)
    requires Known(env, loaded) && NoDuplicates(loaded) && path !in loaded && Visit(env, loaded, path).0
    ensures Known(env, Visit(env, loaded, path).1)
    ensures loaded + [path] <= Visit(env, loaded, path).1
    ensures Ordered(env, Visit(env, loaded, path).1, |loaded| + 1)
    decreases MAX_OBJECTS - |loaded|, 1, 0
  {
    hide Needed, Resolve, HasNext;
    VisitKnown(env, loaded, path);
    var start, names := loaded + [path], Needed(env.files[path]);
    assert names[0..] == names && start[|loaded|] == path;
    VisitAllOrder(env, start, |loaded|, 0);
  }

  /** From the k-th name of an object on, when all its earlier names and all later objects are met. */
  lemma {:induction false} VisitAllOrder(env: Env, loaded: seq<string>, at: nat, k: nat)
    requires Known(env, loaded) && NoDuplicates(loaded) && at < |loaded|
    requires k <= |Needed(env.files[loaded[at]])|
    requires forall h :: 0 <= h < k ==> Met(env, Needed(env.files[loaded[at]])[h], loaded)
    requires NewSatisfied(env, at + 1, loaded) && Ordered(env, loaded, at + 1)
    requires VisitAll(env, loaded, Needed(env.files[loaded[at]])[k..]).0
    ensures var r := VisitAll(env, loaded, Needed(env.files[loaded[at]])[k..]).1;
            Known(env, r) && Ordered(env, r, at + 1)
    decreases MAX_OBJECTS - |loaded|, 2, |Needed(env.files[loaded[at]])| - k
  {
    hide Needed, Resolve, HasNext, NewSatisfied, NoDuplicates;
    var names := Needed(env.files[loaded[at]]);
    VisitAllKnown(env, loaded, names[k..]);
    if k < |names| {
      assert names[k..][0] == names[k] && names[k..][1..] == names[k + 1..];
      var path := Resolve(env, names[k]).value;
      var more := Visit(env, loaded, path).1;
      VisitLoads(env, loaded, path);
      SatisfiedMore(env, at + 1, loaded, more);
      VisitKnown(env, loaded, path);
      if path !in loaded {
        VisitOrder(env, loaded, path);
        NewNext(env, loaded, more, at, k);
      }
      OrderGrows(env, loaded, more, at + 1);
      assert more[at] == loaded[at];
      assert forall h :: 0 <= h < k + 1 ==> Met(env, names[h], more);
      VisitAllOrder(env, more, at, k + 1);
    }
  }

  /** The first name not met yet is the next object. */
  lemma NewNext(env: Env, loaded: seq<string>, more: seq<string>, at: nat, k: nat)
    requires Known(env, loaded) && Known(env, more) && at < |loaded| < |more| && loaded <= more
    requires k < |Needed(env.files[loaded[at]])|
    requires Resolve(env, Needed(env.files[loaded[at]])[k]) == Some(more[|loaded|]) && more[|loaded|] !in loaded
    requires forall h :: 0 <= h < k ==> Met(env, Needed(env.files[loaded[at]])[h], loaded)
    requires NewSatisfied(env, at + 1, loaded)
    ensures HasNext(env, more, |loaded|)
  {
    hide Needed, Resolve;
    SatisfiedIsMet(env, at + 1, loaded);
    assert more[..|loaded|] == loaded;
    assert forall h :: 0 <= h < |loaded| ==> more[h] == loaded[h];
    assert Next(env, more, |loaded|, at, k);
  }

  lemma OrderGrows(env: Env, loaded: seq<string>, more: seq<string>, start: nat)
    requires Known(env, loaded) && Known(env, more) && loaded <= more && start <= |loaded|
    requires Ordered(env, loaded, start) && Ordered(env, more, |loaded| + 1)
    requires |loaded| < |more| ==> HasNext(env, more, |loaded|)
    ensures Ordered(env, more, start)
  {
    hide HasNext;
    forall i | start <= i < |more| ensures HasNext(env, more, i) {
      if i < |loaded| {
        NextInLonger(env, loaded, more, i);
      }
    }
  }

  /** Loading takes the objects up in order. */
  lemma LoadInOrder(env: Env, path: string)
    requires Visit(env, [], path).0
    ensures InOrder(env, Visit(env, [], path).1) && Visit(env, [], path).1[0] == path
  {
    hide Ordered, Visit;
    VisitOrder(env, [], path);
    assert [] + [path] == [path];
  }

  // ---------------------------------------------------------------- there is only one order

  /** The next object is determined by those before it. */
  lemma NextIsUnique(env: Env, a: seq<string>, b: seq<string>, i: nat)
    requires Known(env, a) && Known(env, b) && i < |a| && i < |b| && a[..i] == b[..i]
    requires HasNext(env, a, i) && HasNext(env, b, i)
    ensures a[i] == b[i]
  {
    hide Needed, Resolve;
    var j, k :| Next(env, a, i, j, k);
    var g, h :| Next(env, b, i, g, h);
    assert forall n :: 0 <= n < i ==> a[n] == a[..i][n] == b[n];
    assert !Met(env, Needed(env.files[a[j]])[k], a[..i]) && !Met(env, Needed(env.files[b[g]])[h], a[..i]);
    assert j == g;
    assert k == h;
  }

  lemma {:induction false} SameUpTo(env: Env, a: seq<string>, b: seq<string>, n: nat)
    requires InOrder(env, a) && InOrder(env, b) && a[0] == b[0] && n <= |a| && n <= |b|
    ensures a[..n] == b[..n]
  {
    hide HasNext;
    if n > 1 {
      SameUpTo(env, a, b, n - 1);
      NextIsUnique(env, a, b, n - 1);
      assert a[..n] == a[..n - 1] + [a[n - 1]] && b[..n] == b[..n - 1] + [b[n - 1]];
    }
  }

  /** An order that is complete cannot be continued. */
  lemma CompleteIsLongest(env: Env, a: seq<string>, b: seq<string>)
    requires InOrder(env, a) && InOrder(env, b) && a[0] == b[0] && Closed(env, AsSet(a))
    ensures |b| <= |a|
  {
    hide Closed, Next;
    assert a[..|a|] == a;
    if |a| < |b| {
      SameUpTo(env, a, b, |a|);
      var j, k := NextIsNew(env, b, |a|);
      assert b[j] == b[..|a|][j] == a[j];
      NeedIsInside(env, a, j, k, b[|a|]);
    }
  }

  /** What comes next is new, and needed by an object before it. */
  lemma NextIsNew(env: Env, b: seq<string>, n: nat) returns (j: nat, k: nat)
    requires Known(env, b) && n < |b| && HasNext(env, b, n)
    ensures j < n && k < |Needed(env.files[b[j]])| && Resolve(env, Needed(env.files[b[j]])[k]) == Some(b[n])
    ensures b[n] !in b[..n]
  {
    hide Needed, Resolve;
    j, k :| Next(env, b, n, j, k);
  }

  lemma NeedIsInside(env: Env, a: seq<string>, j: nat, k: nat, path: string)
    requires j < |a| && a[j] in env.files && k < |Needed(env.files[a[j]])| && Closed(env, AsSet(a))
    requires Resolve(env, Needed(env.files[a[j]])[k]) == Some(path)
    ensures path in a
  {
    hide Needed, Resolve;
    assert Satisfied(env, a[j], AsSet(a));
  }

  /** Two complete orders from the same program are the same. */
  lemma OrderIsUnique(env: Env, a: seq<string>, b: seq<string>)
    requires InOrder(env, a) && InOrder(env, b) && a[0] == b[0]
    requires Closed(env, AsSet(a)) && Closed(env, AsSet(b))
    ensures a == b
  {
    hide InOrder, Closed;
    CompleteIsLongest(env, a, b);
    CompleteIsLongest(env, b, a);
    SameUpTo(env, a, b, |a|);
    assert a[..|a|] == a && b[..|b|] == b;
  }
}
