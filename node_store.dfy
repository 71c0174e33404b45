/**
 * The node store `m_nodes` seen as the map from a node hash to the node's path,
 * and the pure specification of lazy node creation (`AddNodeInternal`): which
 * paths a call inserts, root first, or that it fails.
 */
module NodeStore {
  import opened Wrappers
  import opened PathIndex

  /** The store's invariant: every node sits under its own hash, no stored path
      starts with the separator, and the parent of every stored path is stored. */
  ghost predicate StoreOk(paths: map<int, string>)
  {
    forall h {:trigger paths[h]} :: h in paths ==>
      && PathKey(paths[h]) == h
      && !HasLeadingSlash(paths[h])
      && (LastSlash(paths[h]) > 0 ==> PathKey(ParentPath(paths[h])) in paths)
  }

  /** Every path in `ps` has its key in `keys`. */
  predicate AllIn(ps: seq<string>, keys: set<int>)
  {
    forall i :: 0 <= i < |ps| ==> PathKey(ps[i]) in keys
  }

  /** The paths that creating `s` inserts into a store with keys `keys`, root
      first, or None when creation fails: nothing when `s` is present, a failure
      when the last separator is at index 0, else the parent's paths and then `s`. */
  function Build(keys: set<int>, s: string): (r: Option<seq<string>>)
    ensures PathKey(s) in keys ==> r == Some([])
    ensures r.Some? && PathKey(s) !in keys ==> r.value != [] && r.value[|r.value| - 1] == s
    ensures r.Some? ==> forall i :: 0 <= i < |r.value| ==> |r.value[i]| <= |s| && PathKey(r.value[i]) !in keys
    decreases |s|
  {
    if PathKey(s) in keys then Some([])
    else
      var pos := LastSlash(s);
      if pos == 0 then None
      else if pos < 0 then Some([s])
      else match Build(keys, ParentPath(s))
        case None => None
        case Some(ps) => Some(ps + [s])
  }

  /** The store after inserting `ps` in order, each under its hash. */
  function Insert(paths: map<int, string>, ps: seq<string>): map<int, string>
    decreases |ps|
  {
    if ps == [] then paths
    else Insert(paths, ps[..|ps| - 1])[PathKey(ps[|ps| - 1]) := ps[|ps| - 1]]
  }

  /** Creation fails exactly on a path that starts with the separator: every
      stored path is well formed, and a path and its ancestors share their
      first character, so no ancestor can be the one that fails first. */
  lemma {:induction false} BuildFailsIffLeadingSlash(paths: map<int, string>, s: string)
    requires StoreOk(paths)
    ensures Build(paths.Keys, s).None? <==> HasLeadingSlash(s)
    decreases |s|
  {
    if PathKey(s) in paths {
      PathKeyInjective(paths[PathKey(s)], s);
    } else if LastSlash(s) > 0 {
      BuildFailsIffLeadingSlash(paths, ParentPath(s));
      ParentKeepsLeadingSlash(s);
    }
  }

  /** A successful creation keeps the store's invariant, adds the path,
      changes no entry that was there before, and every entry it adds is no
      longer than the path created. */
  lemma {:induction false} BuildKeepsStore(paths: map<int, string>, s: string)
    requires StoreOk(paths)
    requires Build(paths.Keys, s).Some?
    ensures var after := Insert(paths, Build(paths.Keys, s).value);
      && StoreOk(after)
      && PathKey(s) in after && after[PathKey(s)] == s
      && (forall h :: h in paths ==> h in after && after[h] == paths[h])
      && (forall h :: h in after && h !in paths ==> |after[h]| <= |s|)
    decreases |s|
  {
    var ps := Build(paths.Keys, s).value;
    if PathKey(s) in paths {
      PathKeyInjective(paths[PathKey(s)], s);
    } else if LastSlash(s) < 0 {
      assert ps == [s];
    } else {
      var p := ParentPath(s);
      var pps := Build(paths.Keys, p).value;
      BuildKeepsStore(paths, p);
      BuildFailsIffLeadingSlash(paths, p);
      ParentKeepsLeadingSlash(s);
      assert ps[..|ps| - 1] == pps;
    }
  }

  /** A key is stored after inserting `ps` exactly when it was stored before
      or is the key of one of the inserted paths. */
  lemma {:induction false} InsertKeys(paths: map<int, string>, ps: seq<string>, k: int)
    ensures k in Insert(paths, ps) <==> k in paths || exists i :: 0 <= i < |ps| && PathKey(ps[i]) == k
    decreases |ps|
  {
    if ps != [] {
      var init := ps[..|ps| - 1];
      InsertKeys(paths, init, k);
      assert forall i :: 0 <= i < |init| ==> init[i] == ps[i];
    }
  }

  /** Creating `s` never stores a path longer than `s`. */
  lemma NoLongerStored(paths: map<int, string>, s: string, t: string)
    requires Build(paths.Keys, s).Some? && PathKey(t) !in paths && |t| > |s|
    ensures PathKey(t) !in Insert(paths, Build(paths.Keys, s).value)
  {
    var ps := Build(paths.Keys, s).value;
    InsertKeys(paths, ps, PathKey(t));
    forall i | 0 <= i < |ps|
      ensures PathKey(ps[i]) != PathKey(t)
    {
      PathKeyInjective(ps[i], t);
    }
  }

  /** One step of creation: an absent path whose parent (if any) has been
      created, giving store `mid`, inserts itself under a key still free in
      `mid`, and the result is the whole creation and a well-formed store. */
  lemma BuildStep(paths: map<int, string>, mid: map<int, string>, s: string)
    requires StoreOk(paths) && PathKey(s) !in paths && LastSlash(s) != 0
    requires LastSlash(s) < 0 ==> mid == paths
    requires LastSlash(s) > 0 ==>
      Build(paths.Keys, ParentPath(s)).Some? && mid == Insert(paths, Build(paths.Keys, ParentPath(s)).value)
    ensures Build(paths.Keys, s).Some? && PathKey(s) !in mid
    ensures Insert(paths, Build(paths.Keys, s).value) == mid[PathKey(s) := s]
    ensures StoreOk(mid[PathKey(s) := s])
  {
    var ps := Build(paths.Keys, s).value;
    if LastSlash(s) > 0 {
      BuildKeepsStore(paths, ParentPath(s));
      assert ps[..|ps| - 1] == Build(paths.Keys, ParentPath(s)).value;
      if PathKey(s) in mid {
        PathKeyInjective(mid[PathKey(s)], s);
      }
    } else {
      assert ps == [s];
    }
    BuildKeepsStore(paths, s);
  }

  /** In a well-formed store, a stored path has its whole ancestry stored. */
  lemma {:induction false} AncestorsStored(paths: map<int, string>, s: string)
    requires StoreOk(paths)
    requires PathKey(s) in paths
    ensures AllIn(Ancestry(s), paths.Keys)
    decreases |s|
  {
    PathKeyInjective(paths[PathKey(s)], s);
    if LastSlash(s) > 0 {
      AncestorsStored(paths, ParentPath(s));
    }
  }

  /** Creating "a/b/c" in an empty store inserts "a", "a/b", "a/b/c" in that order. */
  lemma BuildThreeLevels()
    ensures Build({}, "a/b/c") == Some(["a", "a/b", "a/b/c"])
  {
    assert LastSlash("a") == -1;
    assert Build({}, "a") == Some(["a"]);
    assert LastSlash("a/b") == 1;
    assert ParentPath("a/b") == "a";
    assert ["a"] + ["a/b"] == ["a", "a/b"];
    assert Build({}, "a/b") == Some(["a", "a/b"]);
    assert LastSlash("a/b/c") == 3;
    assert ParentPath("a/b/c") == "a/b";
    assert ["a", "a/b"] + ["a/b/c"] == ["a", "a/b", "a/b/c"];
  }

  /** Creating "/a/b" in an empty store fails at "/a", and inserts nothing. */
  lemma BuildRejectsRootedPath()
    ensures Build({}, "/a/b") == None
  {
    assert LastSlash("/a") == 0;
    assert LastSlash("/a/b") == 2;
    assert ParentPath("/a/b") == "/a";
  }
}
