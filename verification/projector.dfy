/** The in-memory core of the projector: a store mapping each directory to a
    flat key/value scope, read through the ancestor chain of the working
    directory (nearest scope wins) and written at exactly that directory. */
module Projector {
  import opened Optional
  import opened Paths

  /** The key/value pairs attached to one directory. */
  type Scope = map<string, string>

  /** Directory → scope; the `projector` field of the persisted data. */
  type Store = map<Path, Scope>

  /** A loaded projector: where it persists, the directory it resolves
      against, and the store. */
  datatype Projector = Projector(config: Path, pwd: Path, data: Store)

  /** The value a scope binds `key` to, or None when it has no entry for it. */
  function Binding(m: Scope, key: string): Option<string> {
    if key in m then Some(m[key]) else None
  }

  /** The scope of directory `d`, an absent scope read as the empty one. */
  function ScopeAt(store: Store, d: Path): Scope {
    if d in store then store[d] else map[]
  }

  /** Directory `d` has a scope and that scope holds `key`. */
  predicate Defines(store: Store, d: Path, key: string) {
    d in store && key in store[d]
  }

  // ---------------------------------------------------------------------------
  // What resolution means, independent of how either lookup computes it.
  // The ancestors of `p` are `p[..0]` (the root) … `p[..|p|]` (`p` itself);
  // "within n" restricts attention to the n shallowest of them.
  // ---------------------------------------------------------------------------

  /** Among the n shallowest ancestors of `p`, `p[..i]` is the deepest one
      whose scope holds `key`. */
  ghost predicate NearestWithin(store: Store, p: Path, key: string, i: int, n: nat)
    requires n <= |p| + 1
  {
    && 0 <= i < n
    && Defines(store, p[..i], key)
    && forall j :: i < j < n ==> !Defines(store, p[..j], key)
  }

  /** `r` is what the n shallowest ancestors of `p` resolve `key` to: the value
      in the deepest scope holding it, or None when no scope holds it. */
  ghost predicate ResolvesWithin(store: Store, p: Path, key: string, n: nat, r: Option<string>)
    requires n <= |p| + 1
  {
    match r
    case None => forall j :: 0 <= j < n ==> !Defines(store, p[..j], key)
    case Some(v) => exists i :: NearestWithin(store, p, key, i, n) && store[p[..i]][key] == v
  }

  /** `r` is what `key` resolves to from `p`: the value in the nearest
      ancestor of `p` (inclusive) whose scope holds it, or None. */
  ghost predicate Resolves(store: Store, p: Path, key: string, r: Option<string>) {
    ResolvesWithin(store, p, key, |p| + 1, r)
  }

  /** Two stores hold the same binding for `key` at every ancestor of `p`. */
  ghost predicate AgreeOn(s1: Store, s2: Store, p: Path, key: string) {
    forall j :: 0 <= j <= |p| ==> Binding(ScopeAt(s1, p[..j]), key) == Binding(ScopeAt(s2, p[..j]), key)
  }

  /** A resolution is unique: each key resolves to one outcome. */
  lemma {:induction false} ResolvesWithinUnique(store: Store, p: Path, key: string, n: nat, r1: Option<string>, r2: Option<string>)
    requires n <= |p| + 1
    requires ResolvesWithin(store, p, key, n, r1) && ResolvesWithin(store, p, key, n, r2)
    ensures r1 == r2
  {
    if r1.Some? && r2.Some? {
      var i1 :| NearestWithin(store, p, key, i1, n) && store[p[..i1]][key] == r1.value;
      var i2 :| NearestWithin(store, p, key, i2, n) && store[p[..i2]][key] == r2.value;
      assert i1 == i2;
    }
  }

  /** Adding the next deeper ancestor `p[..n]`: its binding wins if it has one,
      otherwise the shallower resolution stands. */
  lemma ResolvesWithinStep(store: Store, p: Path, key: string, n: nat, r: Option<string>)
    requires n <= |p|
    requires ResolvesWithin(store, p, key, n, r)
    ensures ResolvesWithin(store, p, key, n + 1,
                           if Defines(store, p[..n], key) then Some(store[p[..n]][key]) else r)
  {
    if Defines(store, p[..n], key) {
      assert NearestWithin(store, p, key, n, n + 1);
    } else if r.Some? {
      var i :| NearestWithin(store, p, key, i, n) && store[p[..i]][key] == r.value;
      assert NearestWithin(store, p, key, i, n + 1);
    }
  }

  /** Resolving within the first n ancestors of `p` is the same as doing so
      for any longer path that shares those ancestors. */
  lemma ResolvesWithinPrefix(store: Store, p: Path, q: Path, key: string, n: nat, r: Option<string>)
    requires IsAncestor(q, p) && n <= |q| + 1
    ensures ResolvesWithin(store, q, key, n, r) <==> ResolvesWithin(store, p, key, n, r)
  {
    assert forall j :: 0 <= j < n ==> q[..j] == p[..j];
    if r.Some? {
      if ResolvesWithin(store, q, key, n, r) {
        var i :| NearestWithin(store, q, key, i, n) && store[q[..i]][key] == r.value;
        assert NearestWithin(store, p, key, i, n);
      }
      if ResolvesWithin(store, p, key, n, r) {
        var i :| NearestWithin(store, p, key, i, n) && store[p[..i]][key] == r.value;
        assert NearestWithin(store, q, key, i, n);
      }
    }
  }

  /** Resolution only looks at the ancestors' bindings for the key. */
  lemma ResolvesAgree(s1: Store, s2: Store, p: Path, key: string, r: Option<string>)
    requires AgreeOn(s1, s2, p, key)
    ensures Resolves(s1, p, key, r) <==> Resolves(s2, p, key, r)
  {
    assert forall j :: 0 <= j <= |p| ==>
      (Defines(s1, p[..j], key) <==> Defines(s2, p[..j], key)) by {
      forall j | 0 <= j <= |p|
        ensures Defines(s1, p[..j], key) <==> Defines(s2, p[..j], key)
      {
        assert Binding(ScopeAt(s1, p[..j]), key) == Binding(ScopeAt(s2, p[..j]), key);
      }
    }
    if r.Some? {
      if Resolves(s1, p, key, r) {
        var i :| NearestWithin(s1, p, key, i, |p| + 1) && s1[p[..i]][key] == r.value;
        assert Binding(ScopeAt(s1, p[..i]), key) == Binding(ScopeAt(s2, p[..i]), key);
        assert NearestWithin(s2, p, key, i, |p| + 1);
      }
      if Resolves(s2, p, key, r) {
        var i :| NearestWithin(s2, p, key, i, |p| + 1) && s2[p[..i]][key] == r.value;
        assert Binding(ScopeAt(s1, p[..i]), key) == Binding(ScopeAt(s2, p[..i]), key);
        assert NearestWithin(s1, p, key, i, |p| + 1);
      }
    }
  }

  // ---------------------------------------------------------------------------
  // The two lookups as pure functions.
  // ---------------------------------------------------------------------------

  /** `get_value`: walk from `p` toward the root and stop at the first scope
      holding `key`. */
  function Lookup(store: Store, p: Path, key: string): (r: Option<string>)
    ensures Resolves(store, p, key, r)
    decreases |p|
  {
    if Defines(store, p, key) then
      assert p[..|p|] == p;
      assert NearestWithin(store, p, key, |p|, |p| + 1);
      Some(store[p][key])
    else
      match Parent(p)
      case None =>
        assert forall j :: 0 <= j <= |p| ==> p[..j] == p;
        None
      case Some(q) =>
        var r := Lookup(store, q, key);
        ResolvesWithinPrefix(store, p, q, key, |q| + 1, r);
        assert p[..|p|] == p;
        ResolvesWithinStep(store, p, key, |p|, r);
        r
  }

  /** The scopes of the n shallowest ancestors of `p` overlaid root first, so
      a deeper scope overwrites the entries a shallower one contributed. */
  function Overlay(store: Store, p: Path, n: nat): (r: Scope)
    requires n <= |p| + 1
    ensures forall key :: ResolvesWithin(store, p, key, n, Binding(r, key))
    decreases n
  {
    if n == 0 then map[]
    else
      var below := Overlay(store, p, n - 1);
      var r := below + ScopeAt(store, p[..n - 1]);
      assert forall key :: ResolvesWithin(store, p, key, n, Binding(r, key)) by {
        forall key
          ensures ResolvesWithin(store, p, key, n, Binding(r, key))
        {
          ResolvesWithinStep(store, p, key, n - 1, Binding(below, key));
        }
      }
      r
  }

  /** `get_value_all`: the overlay of every ancestor scope of `p`. */
  function Merged(store: Store, p: Path): (r: Scope)
    ensures forall key :: Resolves(store, p, key, Binding(r, key))
  {
    Overlay(store, p, |p| + 1)
  }

  // ---------------------------------------------------------------------------
  // The source's loops.
  // ---------------------------------------------------------------------------

  /** `get_value_all`: collect the ancestor chain, then extend the output with
      each scope from the root down. */
  method GetValueAll(proj: Projector) returns (out: Scope)
    ensures forall key :: Resolves(proj.data, proj.pwd, key, Binding(out, key))
    ensures out == Merged(proj.data, proj.pwd)
  {
    var paths := AncestorChain(proj.pwd);
    out := map[];
    var n := 0;
    while n < |paths|
      invariant 0 <= n <= |paths|
      invariant out == Overlay(proj.data, proj.pwd, n)
    {
      var path := paths[|paths| - 1 - n];
      if path in proj.data {
        out := out + proj.data[path];
      }
      n := n + 1;
    }
  }

  /** `get_value`: walk up from `pwd`, breaking at the first scope that holds
      `key`. */
  method GetValue(proj: Projector, key: string) returns (out: Option<string>)
    ensures Resolves(proj.data, proj.pwd, key, out)
    ensures out == Lookup(proj.data, proj.pwd, key)
  {
    var pwd := proj.pwd;
    var curr: Option<Path> := Some(pwd);
    out := None;
    while curr.Some?
      invariant curr.Some? ==> IsAncestor(curr.value, pwd)
      invariant curr.Some? ==> forall j :: |curr.value| < j <= |pwd| ==> !Defines(proj.data, pwd[..j], key)
      invariant curr.None? ==> out.None? ==> forall j :: 0 <= j <= |pwd| ==> !Defines(proj.data, pwd[..j], key)
      invariant curr.None? ==> out.Some? ==> Resolves(proj.data, pwd, key, out)
      decreases if curr.Some? then |curr.value| + 1 else 0
    {
      var p := curr.value;
      if p in proj.data && key in proj.data[p] {
        out := Some(proj.data[p][key]);
        assert NearestWithin(proj.data, pwd, key, |p|, |pwd| + 1);
        break;
      }
      curr := Parent(p);
      if curr.Some? {
        assert IsAncestor(curr.value, pwd) && |curr.value| == |p| - 1;
      }
    }
    ResolvesWithinUnique(proj.data, pwd, key, |pwd| + 1, out, Lookup(proj.data, pwd, key));
  }

  // ---------------------------------------------------------------------------
  // Writes: always to the scope of exactly `pwd`.
  // ---------------------------------------------------------------------------

  /** `set_value`: make sure `pwd` has a scope (an empty one if it had none)
      and bind `key` to `value` in it, replacing any earlier value. */
  function SetValue(proj: Projector, key: string, value: string): (r: Projector)
    ensures r.config == proj.config && r.pwd == proj.pwd
    ensures r.data.Keys == proj.data.Keys + {proj.pwd}
    ensures forall d :: d in proj.data && d != proj.pwd ==> r.data[d] == proj.data[d]
    ensures Binding(r.data[proj.pwd], key) == Some(value)
    ensures forall k :: k != key ==> Binding(r.data[proj.pwd], k) == Binding(ScopeAt(proj.data, proj.pwd), k)
  {
    proj.(data := proj.data[proj.pwd := ScopeAt(proj.data, proj.pwd)[key := value]])
  }

  /** `remove_value`: drop `key` from the scope of `pwd` if that scope
      exists; a directory without a scope is left without one. */
  function RemoveValue(proj: Projector, key: string): (r: Projector)
    ensures r.config == proj.config && r.pwd == proj.pwd
    ensures r.data.Keys == proj.data.Keys
    ensures forall d :: d in proj.data && d != proj.pwd ==> r.data[d] == proj.data[d]
    ensures proj.pwd in proj.data ==>
      && Binding(r.data[proj.pwd], key) == None
      && forall k :: k != key ==> Binding(r.data[proj.pwd], k) == Binding(proj.data[proj.pwd], k)
  {
    if proj.pwd in proj.data then
      proj.(data := proj.data[proj.pwd := proj.data[proj.pwd] - {key}])
    else
      proj
  }

  // ---------------------------------------------------------------------------
  // Loading: best effort, every failure falls back to an empty store.
  // ---------------------------------------------------------------------------

  /** What the filesystem and the JSON decoder report about the config file:
      no metadata, unreadable, or read with the decoder's outcome. */
  datatype ConfigFile = Missing | Unreadable | Read(decoded: Option<Store>)

  /** `from_config`: the decoded store when the file exists, reads and decodes;
      an empty store otherwise. An unreadable file is replaced by the text
      `{"projector": {}}`, which decodes to the empty store. */
  function FromConfig(config: Path, pwd: Path, file: ConfigFile): (r: Projector)
    ensures r.config == config && r.pwd == pwd
    ensures file.Read? && file.decoded.Some? ==> r.data == file.decoded.value
    ensures !(file.Read? && file.decoded.Some?) ==> r.data == map[]
    ensures !(file.Read? && file.decoded.Some?) ==> forall key :: Lookup(r.data, pwd, key) == None
  {
    var data := match file
      case Read(Some(store)) => store
      case _ => map[];
    Projector(config, pwd, data)
  }
}
