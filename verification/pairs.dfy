/** The instrument ("pair") registry: a cache of the stored pairs, kept as two
    views of one set (by name and by numeric id), that allocates the numeric id
    of a pair the first time its name is registered. */
module Pairs {
  import opened Wrappers

  /** A name as a caller passes it: Ruby distinguishes the String "USDJPY"
      from the Symbol :USDJPY, and a hash keyed by one misses the other. */
  datatype Name = Str(text: string) | Sym(text: string)

  /** Ruby's `to_sym`: the Symbol with the same text. */
  function ToSym(n: Name): (r: Name)
    ensures r.Sym? && r.text == n.text
    ensures n.Sym? ==> r == n
  {
    Sym(n.text)
  }

  /** A stored pair document. `docId` stands for the document id `id` that the
      store assigns (an ordered object id); `name` is the stored Symbol's text. */
  datatype Pair = Pair(docId: nat, pairId: int, name: string)

  /** The hash `Pair#to_h` builds: the document without its store id. */
  datatype PairHash = PairHash(pairId: int, name: string)

  function ToH(p: Pair): (h: PairHash)
    ensures h.pairId == p.pairId && h.name == p.name
  {
    PairHash(p.pairId, p.name)
  }

  /** The key of a failed lookup, as the not-found error reports it. */
  datatype Query = ById(id: int) | ByName(name: Name)

  datatype RegistryError =
    | NotFound(kind: string, key: Query)
    | PersistenceError(rejected: Pair)

  /** The in-memory state of the registry: `@by_name` and `@by_id`. */
  datatype Registry = Registry(byName: map<Name, Pair>, byId: map<int, Pair>)

  /** The registry invariant: both views hold the same pairs, each under its
      own name (as a Symbol) and its own id. */
  ghost predicate Valid(reg: Registry) {
    && (forall n :: n in reg.byName ==>
          && n == Sym(reg.byName[n].name)
          && reg.byName[n].pairId in reg.byId
          && reg.byId[reg.byName[n].pairId] == reg.byName[n])
    && (forall i :: i in reg.byId ==>
          && i == reg.byId[i].pairId
          && Sym(reg.byId[i].name) in reg.byName
          && reg.byName[Sym(reg.byId[i].name)] == reg.byId[i])
  }

  /** Every pair either view publishes has been written to the store. */
  ghost predicate Published(reg: Registry, store: seq<Pair>) {
    && (forall n :: n in reg.byName ==> reg.byName[n] in store)
    && (forall i :: i in reg.byId ==> reg.byId[i] in store)
  }

  /** The store's unique indexes: no two documents share an id, a `pair_id`
      or a name. */
  ghost predicate StoreUnique(store: seq<Pair>) {
    forall i, j :: 0 <= i < j < |store| ==>
      && store[i].docId != store[j].docId
      && store[i].pairId != store[j].pairId
      && store[i].name != store[j].name
  }

  /** True when `p` shares a uniquely indexed field with a stored document. */
  predicate Clashes(store: seq<Pair>, p: Pair) {
    exists i :: 0 <= i < |store| &&
      (store[i].docId == p.docId || store[i].pairId == p.pairId || store[i].name == p.name)
  }

  /** `pair.save`: the store inserts the document unless a unique index
      rejects it, in which case the save raises. */
  function Save(store: seq<Pair>, p: Pair): (r: Result<seq<Pair>, RegistryError>)
    ensures r.Success? <==> !Clashes(store, p)
    ensures r.Success? ==> r.value == store + [p]
    ensures r.Failure? ==> r.error == PersistenceError(p)
    ensures StoreUnique(store) && r.Success? ==> StoreUnique(r.value)
  {
    if Clashes(store, p) then Failure(PersistenceError(p)) else Success(store + [p])
  }

  /** An element of a non-empty set. */
  lemma SomeMember<T>(s: set<T>) returns (x: T)
    requires s != {}
    ensures x in s
  {
    if forall y :: y !in s {
      assert false;
    }
    x :| x in s;
  }

  /** Some key of `s` holds a largest `pair_id` among the keys of `s`. */
  lemma {:induction false} MaxIdExists(m: map<Name, Pair>, s: set<Name>)
    requires s <= m.Keys && s != {}
    ensures exists k :: k in s && forall n :: n in s ==> m[n].pairId <= m[k].pairId
    decreases s
  {
    var y := SomeMember(s);
    if s - {y} != {} {
      MaxIdExists(m, s - {y});
      var k :| k in s - {y} && forall n :: n in s - {y} ==> m[n].pairId <= m[k].pairId;
      if m[y].pairId <= m[k].pairId {
        forall n | n in s ensures m[n].pairId <= m[k].pairId {
          assert n == y || n in s - {y};
        }
      } else {
        forall n | n in s ensures m[n].pairId <= m[y].pairId {
          assert n == y || n in s - {y};
        }
      }
    } else {
      forall n | n in s ensures m[n].pairId <= m[y].pairId {
        assert n == y || n in s - {y};
      }
    }
  }

  /** True when `mx` is the largest `pair_id` among the values of `m`. */
  predicate IsMaxId(m: map<Name, Pair>, mx: int) {
    && (exists k :: k in m && m[k].pairId == mx)
    && (forall n :: n in m ==> m[n].pairId <= mx)
  }

  /** `new_id`: one more than the largest `pair_id` among the values of
      `@by_name`, or 0 when there are none. */
  function NewId(reg: Registry): (r: int)
    ensures forall n :: n in reg.byName ==> reg.byName[n].pairId < r
    ensures reg.byName == map[] ==> r == 0
    ensures reg.byName != map[] ==> IsMaxId(reg.byName, r - 1)
  {
    if reg.byName != map[] then
      assert reg.byName.Keys != {};
      assert exists mx :: IsMaxId(reg.byName, mx) by {
        MaxIdExists(reg.byName, reg.byName.Keys);
        var k :| k in reg.byName.Keys &&
          forall n :: n in reg.byName.Keys ==> reg.byName[n].pairId <= reg.byName[k].pairId;
        assert IsMaxId(reg.byName, reg.byName[k].pairId);
      }
      var mx :| IsMaxId(reg.byName, mx);
      mx + 1
    else
      0
  }

  /** The result of `register`, with the registry and store after the call. */
  datatype Registered = Registered(result: Result<Pair, RegistryError>, reg: Registry, store: seq<Pair>)

  /** `register` (and its alias `create_or_get`): normalise the name to a
      Symbol; return the cached pair when the name is known; otherwise build
      the pair with a fresh id and the store-assigned document id `oid`, save
      it, and only once saved publish it in both views. A failed save raises
      out of the call, leaving both views as they were. */
  function Register(reg: Registry, store: seq<Pair>, name: Name, oid: nat): (o: Registered)
    ensures ToSym(name) in reg.byName ==>
      o == Registered(Success(reg.byName[ToSym(name)]), reg, store)
    ensures ToSym(name) !in reg.byName && o.result.Success? ==>
      var p := o.result.value;
      && p == Pair(oid, NewId(reg), name.text)
      && o.store == store + [p]
      && o.reg == Registry(reg.byName[ToSym(name) := p], reg.byId[p.pairId := p])
    ensures ToSym(name) !in reg.byName ==>
      (o.result.Success? <==> !Clashes(store, Pair(oid, NewId(reg), name.text)))
    ensures o.result.Failure? ==>
      && ToSym(name) !in reg.byName
      && o.result.error.PersistenceError?
      && o.reg == reg && o.store == store
  {
    var key := ToSym(name);
    if key in reg.byName then
      Registered(Success(reg.byName[key]), reg, store)
    else
      var p := Pair(oid, NewId(reg), key.text);
      match Save(store, p)
      case Failure(e) => Registered(Failure(e), reg, store)
      case Success(stored) =>
        Registered(Success(p), Registry(reg.byName[key := p], reg.byId[p.pairId := p]), stored)
  }

  /** `get_by_id`: the pair with that id, or not-found carrying the id. */
  function GetById(reg: Registry, id: int): (r: Result<Pair, RegistryError>)
    ensures r.Success? <==> id in reg.byId
    ensures r.Success? ==> r.value == reg.byId[id]
    ensures r.Failure? ==> r.error == NotFound("pair", ById(id))
  {
    if id in reg.byId then Success(reg.byId[id]) else Failure(NotFound("pair", ById(id)))
  }

  /** `get_by_name`: the pair under exactly that key (no `to_sym`), or
      not-found carrying the name. */
  function GetByName(reg: Registry, name: Name): (r: Result<Pair, RegistryError>)
    ensures r.Success? <==> name in reg.byName
    ensures r.Success? ==> r.value == reg.byName[name]
    ensures r.Failure? ==> r.error == NotFound("pair", ByName(name))
  {
    if name in reg.byName then Success(reg.byName[name]) else Failure(NotFound("pair", ByName(name)))
  }

  /** Some key of `s` holds a smallest document id among the keys of `s`. */
  lemma {:induction false} MinDocExists(m: map<int, Pair>, s: set<int>)
    requires s <= m.Keys && s != {}
    ensures exists k :: k in s && forall k' :: k' in s ==> m[k].docId <= m[k'].docId
    decreases s
  {
    var y := SomeMember(s);
    if s - {y} != {} {
      MinDocExists(m, s - {y});
      var k :| k in s - {y} && forall k' :: k' in s - {y} ==> m[k].docId <= m[k'].docId;
      if m[k].docId <= m[y].docId {
        forall k' | k' in s ensures m[k].docId <= m[k'].docId {
          assert k' == y || k' in s - {y};
        }
      } else {
        forall k' | k' in s ensures m[y].docId <= m[k'].docId {
          assert k' == y || k' in s - {y};
        }
      }
    } else {
      forall k' | k' in s ensures m[y].docId <= m[k'].docId {
        assert k' == y || k' in s - {y};
      }
    }
  }

  /** `all`: the values of `@by_id` sorted by document id. `ks` lists the ids
      the values were taken from, so the result is the values of `@by_id`,
      each exactly once, in document-id order. */
  method All(reg: Registry) returns (r: seq<Pair>, ks: seq<int>)
    ensures |r| == |ks| == |reg.byId|
    ensures forall i :: 0 <= i < |ks| ==> ks[i] in reg.byId && r[i] == reg.byId[ks[i]]
    ensures forall i, j :: 0 <= i < j < |ks| ==> ks[i] != ks[j]
    ensures forall k :: k in reg.byId ==> k in ks
    ensures forall i, j :: 0 <= i < j < |r| ==> r[i].docId <= r[j].docId
  {
    var m := reg.byId;
    var rest := m.Keys;
    ks := [];
    while rest != {}
      invariant SortedPrefix(m, ks, rest)
      decreases rest
    {
      MinDocExists(m, rest);
      var k :| k in rest && forall k' :: k' in rest ==> m[k].docId <= m[k'].docId;
      SortedPrefixStep(m, ks, rest, k);
      ks := ks + [k];
      rest := rest - {k};
    }
    r := Lookup(m, ks);
  }

  /** The loop state of `All`: `ks` lists, without repetition and in
      document-id order, the keys of `m` not in `rest`, none of them later
      than a key still in `rest`. */
  ghost predicate SortedPrefix(m: map<int, Pair>, ks: seq<int>, rest: set<int>) {
    && rest <= m.Keys
    && |ks| + |rest| == |m|
    && (forall i :: 0 <= i < |ks| ==> ks[i] in m && ks[i] !in rest)
    && (forall i, j :: 0 <= i < j < |ks| ==> ks[i] != ks[j])
    && (forall k :: k in m && k !in rest ==> k in ks)
    && (forall i, j :: 0 <= i < j < |ks| ==> m[ks[i]].docId <= m[ks[j]].docId)
    && (forall i, k :: 0 <= i < |ks| && k in rest ==> m[ks[i]].docId <= m[k].docId)
  }

  /** Moving a key with the least document id from `rest` to the end of
      `ks` keeps the loop state. */
  lemma SortedPrefixStep(m: map<int, Pair>, ks: seq<int>, rest: set<int>, k: int)
    requires SortedPrefix(m, ks, rest)
    requires k in rest && forall k' :: k' in rest ==> m[k].docId <= m[k'].docId
    ensures SortedPrefix(m, ks + [k], rest - {k})
  {
    var ks' := ks + [k];
    var rest' := rest - {k};
    assert |rest'| == |rest| - 1;
    forall i | 0 <= i < |ks'| ensures ks'[i] in m && ks'[i] !in rest' {
      if i < |ks| { assert ks'[i] == ks[i]; }
    }
    forall i, j | 0 <= i < j < |ks'| ensures ks'[i] != ks'[j] {
      assert ks'[i] == ks[i];
      if j < |ks| { assert ks'[j] == ks[j]; }
    }
    forall k0 | k0 in m && k0 !in rest' ensures k0 in ks' {
      if k0 != k { assert k0 in ks; }
    }
    forall i, j | 0 <= i < j < |ks'| ensures m[ks'[i]].docId <= m[ks'[j]].docId {
      assert ks'[i] == ks[i];
      if j < |ks| { assert ks'[j] == ks[j]; }
    }
    forall i, k0 | 0 <= i < |ks'| && k0 in rest' ensures m[ks'[i]].docId <= m[k0].docId {
      if i < |ks| { assert ks'[i] == ks[i]; }
    }
  }

  /** The values stored under `ks`, in order. */
  function Lookup(m: map<int, Pair>, ks: seq<int>): (r: seq<Pair>)
    requires forall i :: 0 <= i < |ks| ==> ks[i] in m
    ensures |r| == |ks| && forall i :: 0 <= i < |ks| ==> r[i] == m[ks[i]]
  {
    if |ks| == 0 then [] else [m[ks[0]]] + Lookup(m, ks[1..])
  }

  /** One step of `load`: the pair under its name and under its id. */
  function Put(reg: Registry, p: Pair): Registry {
    Registry(reg.byName[Sym(p.name) := p], reg.byId[p.pairId := p])
  }

  /** `load`: fresh views filled from the stored documents in store order, a
      later document overwriting an earlier one under the same key. */
  function Load(store: seq<Pair>): Registry {
    if |store| == 0 then Registry(map[], map[])
    else Put(Load(store[..|store| - 1]), store[|store| - 1])
  }

  /** Every key of `reg` maps to a pair of `store` that carries that key. */
  ghost predicate FromStore(reg: Registry, store: seq<Pair>) {
    && (forall n :: n in reg.byName ==> reg.byName[n] in store && n == Sym(reg.byName[n].name))
    && (forall i :: i in reg.byId ==> reg.byId[i] in store && reg.byId[i].pairId == i)
  }

  /** `p` is reachable in `reg` both by its name and by its id. */
  ghost predicate Reaches(reg: Registry, p: Pair) {
    && Sym(p.name) in reg.byName && reg.byName[Sym(p.name)] == p
    && p.pairId in reg.byId && reg.byId[p.pairId] == p
  }

  /** Loading publishes under each name only a stored pair of that name. */
  lemma {:induction false} LoadNamesFromStore(store: seq<Pair>)
    ensures forall n :: n in Load(store).byName ==>
      Load(store).byName[n] in store && n == Sym(Load(store).byName[n].name)
  {
    if |store| > 0 {
      var init := store[..|store| - 1];
      var last := store[|store| - 1];
      LoadNamesFromStore(init);
      var r0 := Load(init);
      var r := Load(store);
      assert r == Put(r0, last);
      forall n | n in r.byName
        ensures r.byName[n] in store && n == Sym(r.byName[n].name)
      {
        if n != Sym(last.name) {
          var k :| 0 <= k < |init| && init[k] == r0.byName[n];
          assert store[k] == init[k];
        }
      }
    }
  }

  /** Loading publishes under each id only a stored pair with that id. */
  lemma {:induction false} LoadIdsFromStore(store: seq<Pair>)
    ensures forall i :: i in Load(store).byId ==>
      Load(store).byId[i] in store && Load(store).byId[i].pairId == i
  {
    if |store| > 0 {
      var init := store[..|store| - 1];
      var last := store[|store| - 1];
      LoadIdsFromStore(init);
      var r0 := Load(init);
      var r := Load(store);
      assert r == Put(r0, last);
      forall i | i in r.byId
        ensures r.byId[i] in store && r.byId[i].pairId == i
      {
        if i != last.pairId {
          var k :| 0 <= k < |init| && init[k] == r0.byId[i];
          assert store[k] == init[k];
        }
      }
    }
  }

  /** Loading gives every stored pair's name and id an entry. */
  lemma {:induction false} LoadKeysStored(store: seq<Pair>)
    ensures forall j :: 0 <= j < |store| ==>
      Sym(store[j].name) in Load(store).byName && store[j].pairId in Load(store).byId
  {
    if |store| > 0 {
      var init := store[..|store| - 1];
      LoadKeysStored(init);
      var r := Load(store);
      assert r == Put(Load(init), store[|store| - 1]);
      forall j | 0 <= j < |store| - 1
        ensures Sym(store[j].name) in r.byName && store[j].pairId in r.byId
      {
        assert store[j] == init[j];
      }
    }
  }

  /** Loading publishes only stored pairs, each under its own keys, and
      gives every stored pair's name and id an entry. */
  lemma LoadFromStore(store: seq<Pair>)
    ensures FromStore(Load(store), store)
    ensures forall j :: 0 <= j < |store| ==>
      Sym(store[j].name) in Load(store).byName && store[j].pairId in Load(store).byId
  {
    LoadNamesFromStore(store);
    LoadIdsFromStore(store);
    LoadKeysStored(store);
  }

  /** With unique stored keys, loading makes every stored pair reachable by
      its name and by its id. */
  lemma {:induction false} LoadReachable(store: seq<Pair>)
    requires StoreUnique(store)
    ensures forall i :: 0 <= i < |store| ==> Reaches(Load(store), store[i])
  {
    if |store| > 0 {
      var init := store[..|store| - 1];
      var last := store[|store| - 1];
      assert StoreUnique(init);
      LoadReachable(init);
      var r0 := Load(init);
      var r := Load(store);
      assert r == Put(r0, last);
      forall i | 0 <= i < |store|
        ensures Reaches(r, store[i])
      {
        if i < |store| - 1 {
          assert store[i] == init[i];
          assert Reaches(r0, init[i]);
          assert store[i].name != last.name && store[i].pairId != last.pairId;
        }
      }
    }
  }

  /** With unique stored keys, loading yields a consistent registry. */
  lemma LoadValid(store: seq<Pair>)
    requires StoreUnique(store)
    ensures Valid(Load(store))
  {
    LoadFromStore(store);
    LoadReachable(store);
    var r := Load(store);
    forall n | n in r.byName
      ensures r.byName[n].pairId in r.byId && r.byId[r.byName[n].pairId] == r.byName[n]
    {
      var j :| 0 <= j < |store| && store[j] == r.byName[n];
      assert Reaches(r, store[j]);
    }
    forall i | i in r.byId
      ensures Sym(r.byId[i].name) in r.byName && r.byName[Sym(r.byId[i].name)] == r.byId[i]
    {
      var j :| 0 <= j < |store| && store[j] == r.byId[i];
      assert Reaches(r, store[j]);
    }
  }

  /** `reload` (and the constructor's `load`): both views are discarded and
      rebuilt from the store, so the result does not depend on the old views;
      with the store's unique indexes the result satisfies the invariant,
      publishes only stored pairs and reaches every stored pair both ways. */
  function Reload(reg: Registry, store: seq<Pair>): (r: Registry)
    ensures FromStore(r, store) && Published(r, store)
    ensures forall j :: 0 <= j < |store| ==> Sym(store[j].name) in r.byName && store[j].pairId in r.byId
    ensures StoreUnique(store) ==> Valid(r)
    ensures StoreUnique(store) ==> forall i :: 0 <= i < |store| ==>
      && GetByName(r, Sym(store[i].name)) == Success(store[i])
      && GetById(r, store[i].pairId) == Success(store[i])
  {
    LoadFromStore(store);
    LoadUnique(store);
    Load(store)
  }

  /** With unique stored keys, loading yields a consistent registry that
      reaches every stored pair both ways. */
  lemma LoadUnique(store: seq<Pair>)
    ensures StoreUnique(store) ==> Valid(Load(store))
    ensures StoreUnique(store) ==> forall i :: 0 <= i < |store| ==> Reaches(Load(store), store[i])
  {
    if StoreUnique(store) {
      LoadReachable(store);
      LoadValid(store);
    }
  }

  // ---------------------------------------------------------------------
  // Properties of the registry operations

  /** The invariant makes both views hold the same pairs, and `pair_id`
      injective over registered names. */
  lemma ValidViews(reg: Registry)
    requires Valid(reg)
    ensures forall n :: n in reg.byName ==> reg.byName[n] in reg.byId.Values
    ensures forall i :: i in reg.byId ==> reg.byId[i] in reg.byName.Values
    ensures forall n1, n2 :: (n1 in reg.byName && n2 in reg.byName &&
      reg.byName[n1].pairId == reg.byName[n2].pairId) ==> n1 == n2
  {
    forall n | n in reg.byName ensures reg.byName[n] in reg.byId.Values {
      assert reg.byId[reg.byName[n].pairId] == reg.byName[n];
    }
    forall i | i in reg.byId ensures reg.byId[i] in reg.byName.Values {
      assert reg.byName[Sym(reg.byId[i].name)] == reg.byId[i];
    }
  }

  /** A fresh id is larger than every id either view holds, so it is not
      yet taken. */
  lemma NewIdFresh(reg: Registry)
    requires Valid(reg)
    ensures forall i :: i in reg.byId ==> i < NewId(reg)
    ensures NewId(reg) !in reg.byId
  {
    forall i | i in reg.byId ensures i < NewId(reg) {
      var p := reg.byId[i];
      assert reg.byName[Sym(p.name)] == p;
    }
  }

  /** Over a registry loaded from a store with unique indexes, registering a
      new name under an unused document id always succeeds: the name is not
      stored and the new id lies above every stored `pair_id`. */
  lemma RegisterAfterLoadSucceeds(store: seq<Pair>, name: Name, oid: nat)
    requires StoreUnique(store)
    requires forall i :: 0 <= i < |store| ==> store[i].docId != oid
    requires ToSym(name) !in Load(store).byName
    ensures Register(Load(store), store, name, oid).result.Success?
  {
    var reg := Load(store);
    LoadReachable(store);
    LoadValid(store);
    NewIdFresh(reg);
    var p := Pair(oid, NewId(reg), name.text);
    forall i | 0 <= i < |store|
      ensures store[i].docId != p.docId && store[i].pairId != p.pairId && store[i].name != p.name
    {
      assert Reaches(reg, store[i]);
    }
    assert !Clashes(store, p);
  }

  /** Registering keeps both views consistent, the store's indexes unique and
      every published pair stored. */
  lemma RegisterPreservesInvariants(reg: Registry, store: seq<Pair>, name: Name, oid: nat)
    requires Valid(reg) && Published(reg, store) && StoreUnique(store)
    ensures var o := Register(reg, store, name, oid);
      Valid(o.reg) && Published(o.reg, o.store) && StoreUnique(o.store)
  {
    var o := Register(reg, store, name, oid);
    var key := ToSym(name);
    if key !in reg.byName && o.result.Success? {
      var p := o.result.value;
      NewIdFresh(reg);
      assert p.pairId !in reg.byId;
      assert key == Sym(p.name);
      forall n | n in o.reg.byName
        ensures n == Sym(o.reg.byName[n].name)
        ensures o.reg.byName[n].pairId in o.reg.byId
        ensures o.reg.byId[o.reg.byName[n].pairId] == o.reg.byName[n]
      {
        if n != key {
          assert reg.byName[n].pairId in reg.byId;
          assert reg.byName[n].pairId != p.pairId;
        }
      }
      forall i | i in o.reg.byId
        ensures i == o.reg.byId[i].pairId
        ensures Sym(o.reg.byId[i].name) in o.reg.byName
        ensures o.reg.byName[Sym(o.reg.byId[i].name)] == o.reg.byId[i]
      {
        if i != p.pairId {
          assert Sym(reg.byId[i].name) in reg.byName;
          assert Sym(reg.byId[i].name) != key;
        }
      }
    }
  }

  /** A new registration allocates an id strictly above every existing one
      and grows each view by exactly one entry. */
  lemma RegisterNewGrows(reg: Registry, store: seq<Pair>, name: Name, oid: nat)
    requires Valid(reg)
    requires ToSym(name) !in reg.byName
    requires Register(reg, store, name, oid).result.Success?
    ensures var o := Register(reg, store, name, oid);
      && (forall i :: i in reg.byId ==> i < o.result.value.pairId)
      && |o.reg.byName| == |reg.byName| + 1
      && |o.reg.byId| == |reg.byId| + 1
  {
    NewIdFresh(reg);
  }

  /** Registering a name already known changes nothing, whether the caller
      passes it as a String or as a Symbol: a second registration of the same
      name returns the first result. */
  lemma RegisterIdempotent(reg: Registry, store: seq<Pair>, name: Name, oid1: nat, oid2: nat)
    requires Register(reg, store, name, oid1).result.Success?
    ensures var o1 := Register(reg, store, name, oid1);
      var o2 := Register(o1.reg, o1.store, Str(name.text), oid2);
      o2 == o1.(result := o2.result) && o2.result == o1.result
  {
  }

  /** After a successful registration the pair is reachable through both
      lookups under its Symbol name and its id. */
  lemma RegisterThenLookup(reg: Registry, store: seq<Pair>, name: Name, oid: nat)
    requires Valid(reg)
    requires Register(reg, store, name, oid).result.Success?
    ensures var o := Register(reg, store, name, oid);
      && GetByName(o.reg, ToSym(name)) == o.result
      && GetById(o.reg, o.result.value.pairId) == o.result
  {
  }

  /** `get_by_name` does not normalise: in a consistent registry every key is
      a Symbol, so a String name always misses. */
  lemma GetByNameStringMisses(reg: Registry, text: string)
    requires Valid(reg)
    ensures GetByName(reg, Str(text)) == Failure(NotFound("pair", ByName(Str(text))))
  {
  }

  /** Within a consistent registry `to_h` tells registered pairs apart. */
  lemma ToHInjective(reg: Registry, i: int, j: int)
    requires Valid(reg)
    requires i in reg.byId && j in reg.byId
    requires ToH(reg.byId[i]) == ToH(reg.byId[j])
    ensures i == j
  {
  }

  /** From an empty registry: the first name gets id 0, the second id 1, and
      the first is then found by name with id 0. */
  lemma ExampleAllocation()
    ensures var o1 := Register(Registry(map[], map[]), [], Str("USDJPY"), 10);
      && o1.result == Success(Pair(10, 0, "USDJPY"))
      && var o2 := Register(o1.reg, o1.store, Str("EURUSD"), 11);
      && o2.result == Success(Pair(11, 1, "EURUSD"))
      && GetByName(o2.reg, Sym("USDJPY")) == Success(Pair(10, 0, "USDJPY"))
  {
    var o1 := Register(Registry(map[], map[]), [], Str("USDJPY"), 10);
    assert o1.reg.byName.Values == {Pair(10, 0, "USDJPY")};
  }
}
