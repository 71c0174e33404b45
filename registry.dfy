/**
 * The observer registry of the badge manager, on values: the one dictionary
 * `m_opMap` with its chains (a `Table`), which of its keys are instance IDs,
 * and what each observer record holds. Registering, unregistering and
 * dropping a whole node's observers are functions here, and each is proved to
 * keep the registry's invariant.
 */
module Registry {
  import opened PathIndex
  import opened OpChains

  /** The fields of an observer record: the instance ID of its object, the
      node hash it is bound to, and the path it was registered with. */
  datatype Binding = Binding(id: int, hash: int, path: string)

  /** The dictionary and chains, the keys that are instance IDs, and the
      binding of each record. */
  datatype Reg<T> = Reg(table: Table<int, T>, ids: set<int>, bind: map<T, Binding>)

  /** Instance ID `i` has a record that carries `i`, is bound to a node hash
      that heads a chain holding the record, and that hash is the one of the
      record's path. */
  predicate Registered<T(==)>(r: Reg<T>, i: int)
  {
    && i in r.table.heads
    && var x := r.table.heads[i];
    && x in r.bind
    && r.bind[x].id == i
    && r.bind[x].hash in r.table.chains
    && x in r.table.chains[r.bind[x].hash]
    && PathKey(r.bind[x].path) == r.bind[x].hash
  }

  /** Record `x`, linked in the chain of `h`, is bound to `h` and is the
      registered record of its own instance ID. */
  predicate Linked<T(==)>(r: Reg<T>, h: int, x: T)
  {
    && x in r.bind
    && r.bind[x].hash == h
    && r.bind[x].id in r.ids
    && r.bind[x].id in r.table.heads
    && r.table.heads[r.bind[x].id] == x
  }

  /** Every chain is headed by its key's entry, and the keys are the instance
      IDs and the chain keys, never both. */
  predicate KeysOk<T(==)>(r: Reg<T>)
  {
    && HeadsMatch(r.table)
    && r.table.heads.Keys == r.ids + r.table.chains.Keys
    && r.ids !! r.table.chains.Keys
  }

  predicate AllRegistered<T(==)>(r: Reg<T>)
  {
    forall i :: i in r.ids ==> Registered(r, i)
  }

  predicate AllLinked<T(==)>(r: Reg<T>)
  {
    forall h, x :: h in r.table.chains && x in r.table.chains[h] ==> Linked(r, h, x)
  }

  predicate ChainsNoDup<T(==)>(r: Reg<T>)
  {
    forall h :: h in r.table.chains ==> NoDup(r.table.chains[h])
  }

  /**
   * The registry's invariant: the keys are consistent, every instance ID's
   * record is linked in the chain of its node, every linked record is
   * registered under its own ID, and no chain holds a record twice.
   */
  predicate Ok<T(==)>(r: Reg<T>)
  {
    KeysOk(r) && AllRegistered(r) && AllLinked(r) && ChainsNoDup(r)
  }

  /** Record `x` is linked in no chain. */
  predicate Free<T(==)>(r: Reg<T>, x: T)
  {
    forall h :: h in r.table.chains ==> x !in r.table.chains[h]
  }

  /** The instance IDs whose records are bound to node hash `h`. */
  function BoundTo<T(==)>(r: Reg<T>, h: int): set<int>
  {
    set i | i in r.ids && i in r.table.heads && r.table.heads[i] in r.bind && r.bind[r.table.heads[i]].hash == h
  }

  /** Unregistering instance ID `id` (RemoveObject): its key leaves the
      dictionary and its record leaves the chain of its node. */
  function Detach<T(==)>(r: Reg<T>, id: int): (d: Reg<T>)
    requires KeysOk(r) && id in r.ids && Registered(r, id)
    ensures d.ids == r.ids - {id} && d.bind == r.bind
    ensures id !in d.table.heads
  {
    var x := r.table.heads[id];
    var t := Table(r.table.heads - {id}, r.table.chains);
    Reg(RemoveEntry(t, r.bind[x].hash, x).table, r.ids - {id}, r.bind)
  }

  /** Registering instance ID `id` with record `x` bound to `h`: the key maps
      to the record, the record is linked at the end of the chain of `h`, and
      it carries its new binding. */
  function Attach<T(==)>(r: Reg<T>, id: int, x: T, h: int, path: string): (a: Reg<T>)
    requires KeysOk(r) && id !in r.table.heads && h !in r.ids && id != h
    ensures a.ids == r.ids + {id} && id in a.table.heads && a.table.heads[id] == x
    ensures a.bind == r.bind[x := Binding(id, h, path)]
    ensures ChainAt(a.table, h) == ChainAt(r.table, h) + [x]
  {
    var t := Table(r.table.heads[id := x], r.table.chains);
    Reg(AddEntry(t, h, x), r.ids + {id}, r.bind[x := Binding(id, h, path)])
  }

  /**
   * RegisterObject on the registry: an object already bound to `h` changes
   * nothing; an object bound elsewhere keeps its record, which is unlinked
   * and linked again under `h`; an object without a record gets `spare`.
   */
  function Register<T(==)>(r: Reg<T>, id: int, h: int, path: string, spare: T): (g: Reg<T>)
    requires Ok(r) && id !in r.table.chains && h !in r.ids && id != h
    ensures id in g.ids && id in g.table.heads && g.table.heads[id] == (if id in r.ids then r.table.heads[id] else spare)
    ensures g.ids == r.ids + {id}
  {
    if id in r.ids then
      var x := r.table.heads[id];
      if r.bind[x].hash == h then r
      else DetachOk(r, id); Attach(Detach(r, id), id, x, h, path)
    else Attach(r, id, spare, h, path)
  }

  /** RemoveObjects on the registry: every record bound to `h` is unlinked
      and unregistered, and the key `h` is gone. */
  function DropHash<T(==)>(r: Reg<T>, h: int): (d: Reg<T>)
  {
    var gone := BoundTo(r, h);
    Reg(Table(r.table.heads - gone - {h}, r.table.chains - {h}), r.ids - gone, r.bind)
  }

  /** Unregistering keeps the invariant and leaves the record linked nowhere. */
  lemma DetachOk<T>(r: Reg<T>, id: int)
    requires Ok(r) && id in r.ids
    ensures Ok(Detach(r, id)) && Free(Detach(r, id), r.table.heads[id])
  {
    var x := r.table.heads[id];
    UnlinkNoDup(r.table.chains[r.bind[x].hash], x);
    DetachRegistered(r, id);
    DetachLinked(r, id);
  }

  lemma DetachRegistered<T>(r: Reg<T>, id: int)
    requires KeysOk(r) && AllRegistered(r) && id in r.ids
    ensures AllRegistered(Detach(r, id))
  {
    var x := r.table.heads[id];
    var h0 := r.bind[x].hash;
    var d := Detach(r, id);
    forall i | i in d.ids
      ensures Registered(d, i)
    {
      var y := r.table.heads[i];
      if r.bind[y].hash == h0 {
        UnlinkKeeps(r.table.chains[h0], x, y);
      }
    }
  }

  lemma DetachLinked<T>(r: Reg<T>, id: int)
    requires KeysOk(r) && AllLinked(r) && id in r.ids && Registered(r, id)
    requires NoDup(r.table.chains[r.bind[r.table.heads[id]].hash])
    ensures AllLinked(Detach(r, id))
  {
    var x := r.table.heads[id];
    var h0 := r.bind[x].hash;
    UnlinkNoDup(r.table.chains[h0], x);
  }

  /** Registering a record linked nowhere under a spare instance ID, bound to
      the hash of its path, keeps the invariant. */
  lemma AttachOk<T>(r: Reg<T>, id: int, x: T, h: int, path: string)
    requires Ok(r) && id !in r.table.heads && h !in r.ids && id != h
    requires Free(r, x) && PathKey(path) == h
    ensures Ok(Attach(r, id, x, h, path))
  {
    AttachRegistered(r, id, x, h, path);
    AttachLinked(r, id, x, h, path);
    AttachNoDup(r, id, x, h, path);
  }

  lemma AttachNoDup<T>(r: Reg<T>, id: int, x: T, h: int, path: string)
    requires KeysOk(r) && ChainsNoDup(r) && id !in r.table.heads && h !in r.ids && id != h
    requires Free(r, x)
    ensures ChainsNoDup(Attach(r, id, x, h, path))
  {
    assert x !in ChainAt(r.table, h);
  }

  lemma AttachRegistered<T>(r: Reg<T>, id: int, x: T, h: int, path: string)
    requires KeysOk(r) && AllRegistered(r) && id !in r.table.heads && h !in r.ids && id != h
    requires Free(r, x) && PathKey(path) == h
    ensures AllRegistered(Attach(r, id, x, h, path))
  {
    var a := Attach(r, id, x, h, path);
    forall i | i in a.ids
      ensures Registered(a, i)
    {
      if i != id {
        var y := r.table.heads[i];
        assert y in ChainAt(r.table, r.bind[y].hash);
      }
    }
  }

  lemma AttachLinked<T>(r: Reg<T>, id: int, x: T, h: int, path: string)
    requires KeysOk(r) && AllLinked(r) && id !in r.table.heads && h !in r.ids && id != h
    requires Free(r, x)
    ensures AllLinked(Attach(r, id, x, h, path))
  {
    var a := Attach(r, id, x, h, path);
    forall k, y | k in a.table.chains && y in a.table.chains[k]
      ensures Linked(a, k, y)
    {
      if k != h || y != x {
        assert y in ChainAt(r.table, k);
      }
    }
  }

  /** RegisterObject keeps the invariant. */
  lemma RegisterOk<T>(r: Reg<T>, id: int, h: int, path: string, spare: T)
    requires Ok(r) && id !in r.table.chains && h !in r.ids && id != h
    requires id !in r.ids ==> spare !in r.bind
    requires PathKey(path) == h
    ensures Ok(Register(r, id, h, path, spare))
  {
    if id in r.ids {
      var x := r.table.heads[id];
      if r.bind[x].hash != h {
        DetachOk(r, id);
        AttachOk(Detach(r, id), id, x, h, path);
      }
    } else {
      AttachOk(r, id, spare, h, path);
    }
  }

  /** RemoveObjects keeps the invariant, and afterwards nothing is bound to
      `h` and `h` has no entry. */
  lemma DropHashOk<T>(r: Reg<T>, h: int)
    requires Ok(r) && h !in r.ids
    ensures Ok(DropHash(r, h))
    ensures BoundTo(DropHash(r, h), h) == {} && h !in DropHash(r, h).table.heads
  {
    var d := DropHash(r, h);
    var gone := BoundTo(r, h);
    forall i | i in d.ids
      ensures Registered(d, i)
    {
      assert Registered(r, i);
    }
    forall k, x | k in d.table.chains && x in d.table.chains[k]
      ensures Linked(d, k, x)
    {
      assert Linked(r, k, x);
    }
  }

  /** Every entry of the dictionary, under an instance ID or a node hash, is
      the registered record of an instance ID bound to the record's hash. */
  lemma EntryBound<T>(r: Reg<T>, k: int)
    requires Ok(r) && k in r.table.heads
    ensures var x := r.table.heads[k];
      && x in r.bind && r.bind[x].id in BoundTo(r, r.bind[x].hash)
      && r.table.heads[r.bind[x].id] == x
      && r.bind[x].hash in r.table.chains && x in r.table.chains[r.bind[x].hash]
      && (k in r.ids ==> r.bind[x].id == k)
  {
    var x := r.table.heads[k];
    if k in r.ids {
      assert Registered(r, k);
    } else {
      assert x in r.table.chains[k];
      assert Linked(r, k, x);
    }
  }

  /** The head of a chain is the value of two keys: the node hash and the
      instance ID of its object, so a walk over the dictionary meets it twice. */
  lemma HeadTwice<T>(r: Reg<T>, h: int)
    requires Ok(r) && h in r.table.chains
    ensures var x := r.table.heads[h];
      && x in r.bind && r.bind[x].id in r.ids && r.bind[x].id != h
      && r.table.heads[r.bind[x].id] == x
  {
    assert r.table.chains[h][0] in r.table.chains[h];
  }
}
