/**
 * The observer chains of the badge manager, on values. An intrusive list of
 * observer records is modelled as the sequence of its records, head first;
 * `ListLinker.AddNext` appends and `ListLinker.Remove` unlinks a record and
 * hands back its successor. A `Table` pairs the manager's one dictionary
 * (`heads`: key to record) with the chain that each node-hash key heads.
 */
module OpChains {
  import opened Wrappers

  predicate NoDup<T(==)>(s: seq<T>)
  {
    forall i, j :: 0 <= i < j < |s| ==> s[i] != s[j]
  }

  /** What unlinking leaves: the chain without the record, and its successor. */
  datatype Unlinked<T> = Unlinked(rest: seq<T>, next: Option<T>)

  /** Unlink the first occurrence of `x` from the chain `s`. */
  function Unlink<T(==)>(s: seq<T>, x: T): (r: Unlinked<T>)
    ensures x !in s ==> r == Unlinked(s, None)
    ensures s != [] && s[0] == x ==> r.rest == s[1..] && r.next == (if |s| > 1 then Some(s[1]) else None)
    ensures s != [] && s[0] != x ==> r.rest != [] && r.rest[0] == s[0]
    decreases |s|
  {
    if s == [] then Unlinked([], None)
    else if s[0] == x then Unlinked(s[1..], if |s| > 1 then Some(s[1]) else None)
    else
      var u := Unlink(s[1..], x);
      Unlinked([s[0]] + u.rest, u.next)
  }

  /** Unlinking a record that is linked takes out exactly that one record. */
  lemma {:induction false} UnlinkTakesOne<T>(s: seq<T>, x: T)
    requires x in s
    ensures var r := Unlink(s, x); |r.rest| == |s| - 1 && multiset(r.rest) + multiset{x} == multiset(s)
    decreases |s|
  {
    assert s == [s[0]] + s[1..];
    if s[0] != x {
      UnlinkTakesOne(s[1..], x);
    }
  }

  /** On a chain without repeats the record is gone afterwards and the rest
      has no repeats either. */
  lemma {:induction false} UnlinkNoDup<T>(s: seq<T>, x: T)
    requires NoDup(s)
    ensures NoDup(Unlink(s, x).rest) && x !in Unlink(s, x).rest
    ensures forall i :: 0 <= i < |Unlink(s, x).rest| ==> Unlink(s, x).rest[i] in s
    decreases |s|
  {
    if s != [] {
      assert NoDup(s[1..]) && s[0] !in s[1..];
      if s[0] != x {
        UnlinkNoDup(s[1..], x);
        var u := Unlink(s[1..], x);
        assert Unlink(s, x).rest == [s[0]] + u.rest;
      }
    }
  }

  /** Unlinking `x` keeps every other record of the chain. */
  lemma {:induction false} UnlinkKeeps<T>(s: seq<T>, x: T, y: T)
    requires y in s && y != x
    ensures y in Unlink(s, x).rest
    decreases |s|
  {
    if s[0] != x && s[0] != y {
      UnlinkKeeps(s[1..], x, y);
    }
  }

  /** A linked record has no successor exactly when it is the last one of a
      chain without repeats. */
  lemma {:induction false} UnlinkSuccessorOfTail<T>(s: seq<T>, x: T)
    requires NoDup(s) && x in s
    ensures Unlink(s, x).next.None? <==> s[|s| - 1] == x
    decreases |s|
  {
    assert NoDup(s[1..]) && s[0] !in s[1..];
    if s[0] != x {
      UnlinkSuccessorOfTail(s[1..], x);
    } else if |s| > 1 {
      assert s[|s| - 1] in s[1..];
    }
  }

  /** The chain `s` with every record of `gone` left out, in order. */
  function Without<T(==)>(s: seq<T>, gone: set<T>): (r: seq<T>)
    ensures forall i :: 0 <= i < |r| ==> r[i] in s && r[i] !in gone
    decreases |s|
  {
    if s == [] then []
    else
      var tail := Without(s[1..], gone);
      if s[0] in gone then tail else [s[0]] + tail
  }

  /** Leaving out nothing keeps the whole chain. */
  lemma {:induction false} WithoutNothing<T>(s: seq<T>)
    ensures Without(s, {}) == s
    decreases |s|
  {
    if s != [] {
      var t := s[1..];
      WithoutNothing(t);
      assert s == [s[0]] + t;
    }
  }

  /** Leaving out a record that is not there changes nothing. */
  lemma {:induction false} WithoutAbsent<T>(s: seq<T>, gone: set<T>, x: T)
    requires x !in s
    ensures Without(s, gone + {x}) == Without(s, gone)
    decreases |s|
  {
    if s != [] {
      WithoutAbsent(s[1..], gone, x);
    }
  }

  /** Unlinking one more record from a chain that already lost `gone` is
      the same as leaving out `gone` and that record at once. */
  lemma {:induction false} UnlinkWithout<T>(s: seq<T>, gone: set<T>, x: T)
    requires NoDup(s)
    ensures Unlink(Without(s, gone), x).rest == Without(s, gone + {x})
    decreases |s|
  {
    if s != [] {
      assert NoDup(s[1..]) && s[0] !in s[1..];
      UnlinkWithout(s[1..], gone, x);
      if s[0] !in gone && s[0] == x {
        WithoutAbsent(s[1..], gone, x);
      }
    }
  }

  /** The manager's dictionary and the chain behind each node-hash key. */
  datatype Table<K, T> = Table(heads: map<K, T>, chains: map<K, seq<T>>)

  /** Every chain is non-empty and its key maps to its first record. */
  predicate HeadsMatch<K, T(==)>(t: Table<K, T>)
  {
    forall k :: k in t.chains ==> k in t.heads && t.chains[k] != [] && t.heads[k] == t.chains[k][0]
  }

  /** The chain under `k`, empty when the key has no entry. */
  function ChainAt<K, T>(t: Table<K, T>, k: K): seq<T>
  {
    if k in t.chains then t.chains[k] else []
  }

  /** AddNotificationOPByNodeHash on the table: a key with no entry gets `x`
      as its head, otherwise `x` is linked after the chain's last record. */
  function AddEntry<K, T(==)>(t: Table<K, T>, k: K, x: T): (r: Table<K, T>)
    requires k in t.heads <==> k in t.chains
    ensures HeadsMatch(t) ==> HeadsMatch(r)
    ensures ChainAt(r, k) == ChainAt(t, k) + [x]
    ensures k in r.heads && r.heads[k] == (if k in t.heads then t.heads[k] else x)
    ensures r.heads - {k} == t.heads - {k} && r.chains - {k} == t.chains - {k}
  {
    if k in t.heads then Table(t.heads, t.chains[k := t.chains[k] + [x]])
    else Table(t.heads[k := x], t.chains[k := [x]])
  }

  /** Whether the key had an entry, and the table afterwards. */
  datatype Removal<K, T> = Removal(found: bool, table: Table<K, T>)

  /** RemoveNotificationOPByNodeHash on the table, with the key dropped when
      its chain becomes empty: a missing key reports false and changes
      nothing; otherwise `x` is unlinked and the first remaining record, if
      any, is the key's entry. */
  function RemoveEntry<K, T(==)>(t: Table<K, T>, k: K, x: T): (r: Removal<K, T>)
    requires HeadsMatch(t) && (k in t.heads <==> k in t.chains)
    ensures r.found <==> k in t.heads
    ensures !r.found ==> r.table == t
    ensures HeadsMatch(r.table) && (k in r.table.heads <==> k in r.table.chains)
    ensures ChainAt(r.table, k) == Unlink(ChainAt(t, k), x).rest
    ensures k in t.chains && t.chains[k][0] == x && |t.chains[k]| > 1 ==>
      k in r.table.heads && r.table.heads[k] == t.chains[k][1]
    ensures r.table.heads - {k} == t.heads - {k} && r.table.chains - {k} == t.chains - {k}
  {
    if k !in t.heads then Removal(false, t)
    else
      var u := Unlink(t.chains[k], x);
      if u.rest == [] then Removal(true, Table(t.heads - {k}, t.chains - {k}))
      else Removal(true, Table(t.heads[k := u.rest[0]], t.chains[k := u.rest]))
  }

  /** RemoveNotificationOPByNodeHash as the source writes it: the key is
      dropped whenever the unlinked record has no successor, even when that
      record was not the head, so the records still linked before it lose
      their entry. */
  function RemoveEntryAsWritten<K, T(==)>(t: Table<K, T>, k: K, x: T): (r: Removal<K, T>)
    requires HeadsMatch(t) && (k in t.heads <==> k in t.chains)
    ensures r.found <==> k in t.heads
    ensures !r.found ==> r.table == t
    ensures r.table.heads - {k} == t.heads - {k}
  {
    if k !in t.heads then Removal(false, t)
    else
      var u := Unlink(t.chains[k], x);
      if u.next.None? then Removal(true, Table(t.heads - {k}, t.chains - {k}))
      else if t.heads[k] == x then Removal(true, Table(t.heads[k := u.next.value], t.chains[k := u.rest]))
      else Removal(true, Table(t.heads, t.chains[k := u.rest]))
  }

  /** The two removals agree except when the record unlinked is the last of a
      chain of two or more (or is not in the chain at all). */
  lemma AsWrittenAgreesOffTheTail<K, T>(t: Table<K, T>, k: K, x: T)
    requires HeadsMatch(t) && (k in t.heads <==> k in t.chains)
    requires k in t.chains ==> NoDup(t.chains[k]) && x in t.chains[k]
    requires k in t.chains && |t.chains[k]| > 1 ==> t.chains[k][|t.chains[k]| - 1] != x
    ensures RemoveEntryAsWritten(t, k, x) == RemoveEntry(t, k, x)
  {
    if k in t.heads {
      var s := t.chains[k];
      var u := Unlink(s, x);
      if s[0] == x {
        assert u.next.None? <==> u.rest == [];
        if u.next.Some? {
          assert u.next.value == u.rest[0];
        }
      } else {
        assert |s| > 1;
        UnlinkSuccessorOfTail(s, x);
        assert u.rest[0] == s[0];
      }
    }
  }

  /** Removing the last record of a two-record chain: as written the key is
      gone although record 1 is still linked; corrected, record 1 stays the
      entry. */
  lemma AsWrittenLosesSurvivor()
    ensures var t := Table(map[7 := 1], map[7 := [1, 2]]);
      && RemoveEntryAsWritten(t, 7, 2) == Removal(true, Table(map[], map[]))
      && RemoveEntry(t, 7, 2) == Removal(true, Table(map[7 := 1], map[7 := [1]]))
  {
    var t := Table(map[7 := 1], map[7 := [1, 2]]);
    assert [1, 2][1..] == [2];
    assert Unlink([1, 2], 2) == Unlinked([1], None);
    assert t.heads - {7} == map[];
  }

  /** The loss in general: whenever the tail of a longer duplicate-free chain
      is unlinked, the source drops the key while the corrected removal keeps
      the former head as the entry. */
  lemma {:induction false} AsWrittenDropsTailRemoval<K, T>(t: Table<K, T>, k: K)
    requires HeadsMatch(t) && (k in t.heads <==> k in t.chains)
    requires k in t.chains && |t.chains[k]| > 1 && NoDup(t.chains[k])
    ensures var s := t.chains[k]; var x := s[|s| - 1];
      && k !in RemoveEntryAsWritten(t, k, x).table.heads
      && k in RemoveEntry(t, k, x).table.heads
      && RemoveEntry(t, k, x).table.heads[k] == s[0] != x
  {
    var s := t.chains[k];
    var x := s[|s| - 1];
    assert s[0] != x;
    assert x in s;
    UnlinkSuccessorOfTail(s, x);
  }
}
