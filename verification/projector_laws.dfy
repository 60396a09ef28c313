/** Laws of the projector: the two lookups agree, writes are read back and
    stay local to their directory, removal falls through to the parent. */
module ProjectorLaws {
  import opened Optional
  import opened Paths
  import opened Projector

  /** Two scopes with the same lookups are the same scope. */
  lemma ScopeExtensional(m1: Scope, m2: Scope)
    requires forall k :: Binding(m1, k) == Binding(m2, k)
    ensures m1 == m2
  {
    assert m1.Keys == m2.Keys by {
      forall k ensures k in m1 <==> k in m2 {
        assert Binding(m1, k) == Binding(m2, k);
      }
    }
    forall k | k in m1 ensures m1[k] == m2[k] {
      assert Binding(m1, k) == Binding(m2, k);
    }
  }

  /** `get_value` only depends on the ancestors' bindings for the key. */
  lemma LookupAgree(s1: Store, s2: Store, p: Path, key: string)
    requires AgreeOn(s1, s2, p, key)
    ensures Lookup(s1, p, key) == Lookup(s2, p, key)
  {
    var r := Lookup(s2, p, key);
    ResolvesAgree(s1, s2, p, key, r);
    ResolvesWithinUnique(s1, p, key, |p| + 1, Lookup(s1, p, key), r);
  }

  /** A lookup that finds the key deeper than depth m only depends on the
      bindings of the key at the ancestors deeper than m. */
  lemma LookupAgreeBelow(s1: Store, s2: Store, p: Path, key: string, m: nat)
    requires forall j :: m < j <= |p| ==> Binding(ScopeAt(s1, p[..j]), key) == Binding(ScopeAt(s2, p[..j]), key)
    requires exists j :: m < j <= |p| && Defines(s1, p[..j], key)
    ensures Lookup(s1, p, key) == Lookup(s2, p, key)
  {
    var r := Lookup(s1, p, key);
    var j0 :| m < j0 <= |p| && Defines(s1, p[..j0], key);
    if r.Some? {
      var i :| NearestWithin(s1, p, key, i, |p| + 1) && s1[p[..i]][key] == r.value;
      assert m < j0 <= i;
      forall j | i <= j <= |p| ensures Defines(s1, p[..j], key) <==> Defines(s2, p[..j], key) {
        assert Binding(ScopeAt(s1, p[..j]), key) == Binding(ScopeAt(s2, p[..j]), key);
      }
      assert Binding(ScopeAt(s1, p[..i]), key) == Binding(ScopeAt(s2, p[..i]), key);
      assert NearestWithin(s2, p, key, i, |p| + 1);
      ResolvesWithinUnique(s2, p, key, |p| + 1, r, Lookup(s2, p, key));
    }
  }

  /** Consistency: `get_value(key)` is `get_value_all().get(key)`. */
  lemma Consistency(store: Store, p: Path, key: string)
    ensures Lookup(store, p, key) == Binding(Merged(store, p), key)
  {
    ResolvesWithinUnique(store, p, key, |p| + 1, Lookup(store, p, key), Binding(Merged(store, p), key));
  }

  /** The keys `get_value_all` reports are exactly those of the ancestor
      scopes (the union of their key sets). */
  lemma MergedDomain(store: Store, p: Path)
    ensures Merged(store, p).Keys == set j, k | 0 <= j <= |p| && k in ScopeAt(store, p[..j]) :: k
  {
    var m := Merged(store, p);
    var u := set j, k | 0 <= j <= |p| && k in ScopeAt(store, p[..j]) :: k;
    forall k ensures k in m <==> k in u {
      assert Resolves(store, p, k, Binding(m, k));
      if k in m {
        var i :| NearestWithin(store, p, k, i, |p| + 1) && store[p[..i]][k] == m[k];
        assert k in ScopeAt(store, p[..i]);
      }
      if k in u {
        var j :| 0 <= j <= |p| && k in ScopeAt(store, p[..j]);
        assert Defines(store, p[..j], k);
      }
    }
  }

  /** Write-then-read: after `set_value(key, value)`, `get_value(key)` from
      `pwd` is `value`. */
  lemma SetThenGet(proj: Projector, key: string, value: string)
    ensures Lookup(SetValue(proj, key, value).data, proj.pwd, key) == Some(value)
  {
  }

  /** A descendant of `pwd` that has no nearer binding of `key` inherits the
      written value. */
  lemma SetValueInherited(proj: Projector, key: string, value: string, d: Path)
    requires IsAncestor(proj.pwd, d)
    requires forall j :: |proj.pwd| < j <= |d| ==> !Defines(proj.data, d[..j], key)
    ensures Lookup(SetValue(proj, key, value).data, d, key) == Some(value)
  {
    var s := SetValue(proj, key, value).data;
    var n := |proj.pwd|;
    assert d[..n] == proj.pwd;
    forall j | n < j <= |d| ensures !Defines(s, d[..j], key) {
      assert d[..j] != proj.pwd;
    }
    assert NearestWithin(s, d, key, n, |d| + 1);
    ResolvesWithinUnique(s, d, key, |d| + 1, Lookup(s, d, key), Some(value));
  }

  /** Non-interference of writes: `set_value(key, …)` at `pwd` leaves every
      lookup of another key unchanged, every lookup of `key` from a
      directory that does not lie at or below `pwd`, and every lookup of
      `key` from below `pwd` that a binding deeper than `pwd` shadows. */
  lemma SetValueNonInterference(proj: Projector, key: string, value: string, d: Path, k: string)
    requires || k != key
             || !IsAncestor(proj.pwd, d)
             || exists j :: |proj.pwd| < j <= |d| && Defines(proj.data, d[..j], key)
    ensures Lookup(SetValue(proj, key, value).data, d, k) == Lookup(proj.data, d, k)
  {
    var s := SetValue(proj, key, value).data;
    if k == key && IsAncestor(proj.pwd, d) {
      forall j | |proj.pwd| < j <= |d|
        ensures Binding(ScopeAt(proj.data, d[..j]), key) == Binding(ScopeAt(s, d[..j]), key)
      {
        assert |d[..j]| != |proj.pwd|;
      }
      LookupAgreeBelow(proj.data, s, d, key, |proj.pwd|);
      return;
    }
    forall j | 0 <= j <= |d|
      ensures Binding(ScopeAt(s, d[..j]), k) == Binding(ScopeAt(proj.data, d[..j]), k)
    {
      if d[..j] == proj.pwd {
        assert IsAncestor(proj.pwd, d);
      }
    }
    LookupAgree(s, proj.data, d, k);
  }

  /** `get_value_all` after `set_value(key, value)` is the old overlay with
      `key` bound to `value`. */
  lemma SetValueMerged(proj: Projector, key: string, value: string)
    ensures Merged(SetValue(proj, key, value).data, proj.pwd) == Merged(proj.data, proj.pwd)[key := value]
  {
    var s := SetValue(proj, key, value).data;
    var before := Merged(proj.data, proj.pwd);
    forall k ensures Binding(Merged(s, proj.pwd), k) == Binding(before[key := value], k) {
      Consistency(s, proj.pwd, k);
      Consistency(proj.data, proj.pwd, k);
      if k != key {
        SetValueNonInterference(proj, key, value, proj.pwd, k);
      }
    }
    ScopeExtensional(Merged(s, proj.pwd), before[key := value]);
  }

  /** After `remove_value(key)`, `get_value(key)` falls through to the parent
      of `pwd` (and finds nothing at the root). */
  lemma RemoveFallsThrough(proj: Projector, key: string)
    ensures Lookup(RemoveValue(proj, key).data, proj.pwd, key)
         == match Parent(proj.pwd)
            case None => None
            case Some(q) => Lookup(proj.data, q, key)
  {
    var s := RemoveValue(proj, key).data;
    assert !Defines(s, proj.pwd, key);
    match Parent(proj.pwd)
    case None =>
    case Some(q) =>
      forall j | 0 <= j <= |q|
        ensures Binding(ScopeAt(s, q[..j]), key) == Binding(ScopeAt(proj.data, q[..j]), key)
      {
        assert |q[..j]| < |proj.pwd|;
      }
      LookupAgree(s, proj.data, q, key);
  }

  /** `remove_value(key)` at `pwd` leaves every lookup of another key
      unchanged, every lookup from a directory not at or below `pwd`, and
      every lookup of `key` from below `pwd` that a binding deeper than
      `pwd` shadows. */
  lemma RemoveNonInterference(proj: Projector, key: string, d: Path, k: string)
    requires || k != key
             || !IsAncestor(proj.pwd, d)
             || exists j :: |proj.pwd| < j <= |d| && Defines(proj.data, d[..j], key)
    ensures Lookup(RemoveValue(proj, key).data, d, k) == Lookup(proj.data, d, k)
  {
    var s := RemoveValue(proj, key).data;
    if k == key && IsAncestor(proj.pwd, d) {
      forall j | |proj.pwd| < j <= |d|
        ensures Binding(ScopeAt(proj.data, d[..j]), key) == Binding(ScopeAt(s, d[..j]), key)
      {
        assert |d[..j]| != |proj.pwd|;
      }
      LookupAgreeBelow(proj.data, s, d, key, |proj.pwd|);
      return;
    }
    forall j | 0 <= j <= |d|
      ensures Binding(ScopeAt(s, d[..j]), k) == Binding(ScopeAt(proj.data, d[..j]), k)
    {
      if d[..j] == proj.pwd {
        assert IsAncestor(proj.pwd, d);
      }
    }
    LookupAgree(s, proj.data, d, k);
  }

  /** Without a scope at `pwd`, `remove_value` changes nothing and creates no
      scope. */
  lemma RemoveWithoutScope(proj: Projector, key: string)
    requires proj.pwd !in proj.data
    ensures RemoveValue(proj, key) == proj
    ensures proj.pwd !in RemoveValue(proj, key).data
  {
  }

  /** Removing twice is removing once. */
  lemma RemoveIdempotent(proj: Projector, key: string)
    ensures RemoveValue(RemoveValue(proj, key), key) == RemoveValue(proj, key)
  {
    if proj.pwd in proj.data {
      var once := proj.data[proj.pwd] - {key};
      assert once - {key} == once;
    }
  }

  /** An empty scope reads exactly like an absent one. */
  lemma EmptyScopeIsAbsent(store: Store, d: Path, p: Path, key: string)
    ensures Lookup(store[d := map[]], p, key) == Lookup(store - {d}, p, key)
  {
    forall j | 0 <= j <= |p|
      ensures Binding(ScopeAt(store[d := map[]], p[..j]), key) == Binding(ScopeAt(store - {d}, p[..j]), key)
    {
    }
    LookupAgree(store[d := map[]], store - {d}, p, key);
  }

  /** The store of the unit tests: `/`, `/foo`, `/foo/bar`, `/foo/bar/baz`. */
  function TestStore(): Store {
    map[
      [] := map["foo" := "bar1", "bar" := "bazz"],
      ["foo"] := map["foo" := "bar2"],
      ["foo", "bar"] := map["foo" := "bar3"],
      ["foo", "bar", "baz"] := map["foo" := "bar3"]
    ]
  }

  /** The test projector, working in `/foo/bar`. */
  function TestProjector(): Projector {
    Projector(["foo", "bar"], ["foo", "bar"], TestStore())
  }

  /** Lookups from `/foo/bar`: the nearest `foo`, the root's `bar`, nothing
      for an unknown key. */
  lemma GetValueExamples()
    ensures Lookup(TestStore(), ["foo", "bar"], "foo") == Some("bar3")
    ensures Lookup(TestStore(), ["foo", "bar"], "bar") == Some("bazz")
    ensures Lookup(TestStore(), ["foo", "bar"], "notehu") == None
  {
    var p: Path := ["foo", "bar"];
    assert p[..1] == ["foo"] && p[..0] == [];
    assert Parent(p) == Some(["foo"]) && Parent(["foo"]) == Some([]);
    assert !Defines(TestStore(), p, "bar") && !Defines(TestStore(), ["foo"], "bar");
    assert !Defines(TestStore(), p, "notehu") && !Defines(TestStore(), ["foo"], "notehu");
    assert !Defines(TestStore(), [], "notehu");
  }

  /** Writing `foo` in `/foo/bar` is read back there. */
  lemma SetValueExample()
    ensures Lookup(SetValue(TestProjector(), "foo", "hello, fem").data, ["foo", "bar"], "foo") == Some("hello, fem")
  {
    SetThenGet(TestProjector(), "foo", "hello, fem");
  }

  /** Removing `foo` in `/foo/bar` exposes the value of `/foo`. */
  lemma RemoveValueExample()
    ensures Lookup(RemoveValue(TestProjector(), "foo").data, ["foo", "bar"], "foo") == Some("bar2")
  {
    RemoveFallsThrough(TestProjector(), "foo");
    var p: Path := ["foo", "bar"];
    var q: Path := ["foo"];
    assert p[..1] == q;
    assert Parent(p) == Some(q);
    assert Defines(TestStore(), q, "foo");
  }
}
