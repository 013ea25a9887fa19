/**
 * The asset store behind the chain: records by id, and a symbol index from
 * each record's symbol back to its id. `store` and `remove` keep the two
 * maps in step; the maps themselves are updated in place.
 */
module AssetStore {
  import opened Wrappers
  import opened AssetRecords

  /**
   * The index is exact: every stored record's symbol leads back to its id,
   * and every indexed symbol leads to a record that carries it.
   */
  ghost predicate Indexed(ids: map<int, AssetRecord>, symbols: map<string, int>)
  {
    && (forall id :: id in ids ==> ids[id].symbol in symbols && symbols[ids[id].symbol] == id)
    && (forall s :: s in symbols ==> symbols[s] in ids && ids[symbols[s]].symbol == s)
  }

  /** The record stored under `id`, if any. */
  function FindById(ids: map<int, AssetRecord>, id: int): (r: Option<AssetRecord>)
    ensures r.Some? <==> id in ids
    ensures r.Some? ==> r.value == ids[id]
  {
    if id in ids then Some(ids[id]) else None
  }

  /** The record the symbol index leads to, if the symbol is indexed and its id is stored. */
  function FindBySymbol(ids: map<int, AssetRecord>, symbols: map<string, int>, symbol: string): (r: Option<AssetRecord>)
    ensures Indexed(ids, symbols) ==> (r.Some? <==> symbol in symbols)
    ensures Indexed(ids, symbols) && r.Some? ==> r.value.symbol == symbol && r == FindById(ids, symbols[symbol])
  {
    if symbol in symbols && symbols[symbol] in ids then Some(ids[symbols[symbol]]) else None
  }

  /**
   * The symbol index after `store(id, record)`: the previous record's symbol
   * is dropped when the symbol changes, then the new symbol points at `id`.
   */
  function StoredSymbols(ids: map<int, AssetRecord>, symbols: map<string, int>, id: int, record: AssetRecord): (s: map<string, int>)
    ensures record.symbol in s && s[record.symbol] == id
    ensures id in ids && ids[id].symbol != record.symbol ==> ids[id].symbol !in s
    ensures forall t :: t != record.symbol && !(id in ids && t == ids[id].symbol) ==>
              (t in s <==> t in symbols) && (t in s ==> s[t] == symbols[t])
  {
    var kept := if id in ids && ids[id].symbol != record.symbol then symbols - {ids[id].symbol} else symbols;
    kept[record.symbol := id]
  }

  /** The symbol index after `remove(id)`: the stored record's symbol is dropped, if there is a record. */
  function RemovedSymbols(ids: map<int, AssetRecord>, symbols: map<string, int>, id: int): (s: map<string, int>)
    ensures id in ids ==> ids[id].symbol !in s
    ensures forall t :: !(id in ids && t == ids[id].symbol) ==>
              (t in s <==> t in symbols) && (t in s ==> s[t] == symbols[t])
  {
    if id in ids then symbols - {ids[id].symbol} else symbols
  }

  /** Whether `record` may be stored under `id` without stealing another asset's symbol. */
  predicate SymbolAvailable(symbols: map<string, int>, id: int, record: AssetRecord)
  {
    record.symbol !in symbols || symbols[record.symbol] == id
  }

  /** Storing a record whose symbol is free, or already its own, keeps the index exact. */
  lemma StorePreservesIndex(ids: map<int, AssetRecord>, symbols: map<string, int>, id: int, record: AssetRecord)
    requires Indexed(ids, symbols) && SymbolAvailable(symbols, id, record)
    ensures Indexed(ids[id := record], StoredSymbols(ids, symbols, id, record))
  {
    var ids', symbols' := ids[id := record], StoredSymbols(ids, symbols, id, record);
    forall j | j in ids'
      ensures ids'[j].symbol in symbols' && symbols'[ids'[j].symbol] == j
    {
      if j != id {
        assert symbols[ids[j].symbol] == j;
      }
    }
    forall s | s in symbols'
      ensures symbols'[s] in ids' && ids'[symbols'[s]].symbol == s
    {
      if s != record.symbol {
        assert s in symbols && symbols'[s] == symbols[s];
      }
    }
  }

  /**
   * Storing a record under a symbol another id already owns breaks the index:
   * the other record's symbol now leads to `id`. Nothing in `store` rejects
   * this; callers must check the symbol first.
   */
  lemma StoreClashBreaksIndex(ids: map<int, AssetRecord>, symbols: map<string, int>, id: int, record: AssetRecord)
    requires Indexed(ids, symbols) && !SymbolAvailable(symbols, id, record)
    ensures !Indexed(ids[id := record], StoredSymbols(ids, symbols, id, record))
    ensures FindBySymbol(ids[id := record], StoredSymbols(ids, symbols, id, record), record.symbol) == Some(record)
  {
    var other := symbols[record.symbol];
    var ids', symbols' := ids[id := record], StoredSymbols(ids, symbols, id, record);
    assert other in ids' && ids'[other].symbol == record.symbol;
    assert symbols'[ids'[other].symbol] == id != other;
  }

  /**
   * After a store that keeps the index exact, both lookups find the new record,
   * a replaced symbol no longer resolves, and other ids are untouched.
   */
  lemma StoreThenLookup(ids: map<int, AssetRecord>, symbols: map<string, int>, id: int, record: AssetRecord)
    requires Indexed(ids, symbols) && SymbolAvailable(symbols, id, record)
    ensures var ids', symbols' := ids[id := record], StoredSymbols(ids, symbols, id, record);
            && FindById(ids', id) == Some(record)
            && FindBySymbol(ids', symbols', record.symbol) == Some(record)
            && (id in ids && ids[id].symbol != record.symbol ==> FindBySymbol(ids', symbols', ids[id].symbol) == None)
            && (forall j :: j != id ==> FindById(ids', j) == FindById(ids, j))
  {
    StorePreservesIndex(ids, symbols, id, record);
  }

  /** Removing a record keeps the index exact. */
  lemma RemovePreservesIndex(ids: map<int, AssetRecord>, symbols: map<string, int>, id: int)
    requires Indexed(ids, symbols)
    ensures Indexed(ids - {id}, RemovedSymbols(ids, symbols, id))
  {
    var ids', symbols' := ids - {id}, RemovedSymbols(ids, symbols, id);
    forall j | j in ids'
      ensures ids'[j].symbol in symbols' && symbols'[ids'[j].symbol] == j
    {
      assert symbols[ids[j].symbol] == j;
    }
    forall s | s in symbols'
      ensures symbols'[s] in ids' && ids'[symbols'[s]].symbol == s
    {
      assert s in symbols && symbols[s] in ids;
    }
  }

  /** After a remove neither lookup finds the record, and other ids are untouched. */
  lemma RemoveThenLookup(ids: map<int, AssetRecord>, symbols: map<string, int>, id: int)
    requires Indexed(ids, symbols) && id in ids
    ensures var ids', symbols' := ids - {id}, RemovedSymbols(ids, symbols, id);
            && FindById(ids', id) == None
            && FindBySymbol(ids', symbols', ids[id].symbol) == None
            && (forall j :: j != id ==> FindById(ids', j) == FindById(ids, j))
  {
    RemovePreservesIndex(ids, symbols, id);
  }

  /** Storing a new asset under a fresh id and symbol and then removing it gives back the store as it was. */
  lemma StoreThenRemoveRestores(ids: map<int, AssetRecord>, symbols: map<string, int>, id: int, record: AssetRecord)
    requires Indexed(ids, symbols) && id !in ids && record.symbol !in symbols
    ensures var ids' := ids[id := record];
            ids' - {id} == ids && RemovedSymbols(ids', StoredSymbols(ids, symbols, id, record), id) == symbols
  {
    var ids' := ids[id := record];
    assert ids' - {id} == ids;
    assert StoredSymbols(ids, symbols, id, record) - {record.symbol} == symbols;
  }

  /** The asset store: records by id, and the symbol index. */
  class AssetDb {
    var byId: map<int, AssetRecord>
    var bySymbol: map<string, int>

    ghost predicate Valid()
      reads this
    {
      Indexed(byId, bySymbol)
    }

    /** An empty store. */
    constructor()
      ensures byId == map[] && bySymbol == map[]
      ensures Valid()
    {
      byId := map[];
      bySymbol := map[];
    }

    /** `lookup(id)`: the record stored under `id`, if any. */
    function LookupById(id: int): (r: Option<AssetRecord>)
      reads this
      ensures r.Some? <==> id in byId
      ensures r.Some? ==> r.value == byId[id]
    {
      FindById(byId, id)
    }

    /** `lookup(symbol)`: the record the symbol index leads to, if any. */
    function LookupBySymbol(symbol: string): (r: Option<AssetRecord>)
      reads this
      ensures Valid() ==> (r.Some? <==> symbol in bySymbol)
      ensures Valid() && r.Some? ==> r.value.symbol == symbol && r == LookupById(bySymbol[symbol])
    {
      FindBySymbol(byId, bySymbol, symbol)
    }

    /**
     * `store(id, record)`: a previous record's symbol is erased from the index
     * when the symbol changes, then the record is stored under `id` and its
     * symbol indexed to `id`.
     */
    method Store(id: int, record: AssetRecord)
      modifies this
      ensures byId == old(byId)[id := record]
      ensures bySymbol == StoredSymbols(old(byId), old(bySymbol), id, record)
      ensures old(Valid()) && SymbolAvailable(old(bySymbol), id, record) ==> Valid()
      ensures old(Valid()) && SymbolAvailable(old(bySymbol), id, record) ==>
                LookupById(id) == Some(record) && LookupBySymbol(record.symbol) == Some(record)
    {
      ghost var ids, symbols := byId, bySymbol;
      var prev := LookupById(id);
      if prev.Some? {
        if prev.value.symbol != record.symbol {
          bySymbol := bySymbol - {prev.value.symbol};
        }
      }
      byId := byId[id := record];
      bySymbol := bySymbol[record.symbol := id];
      if Indexed(ids, symbols) && SymbolAvailable(symbols, id, record) {
        StoreThenLookup(ids, symbols, id, record);
      }
    }

    /** `remove(id)`: if a record is stored under `id`, it and its symbol are erased. */
    method Remove(id: int)
      modifies this
      ensures byId == old(byId) - {id}
      ensures bySymbol == RemovedSymbols(old(byId), old(bySymbol), id)
      ensures old(Valid()) ==> Valid() && LookupById(id) == None
      ensures old(Valid()) && id in old(byId) ==> LookupBySymbol(old(byId)[id].symbol) == None
    {
      ghost var ids, symbols := byId, bySymbol;
      var prev := LookupById(id);
      if prev.Some? {
        byId := byId - {id};
        bySymbol := bySymbol - {prev.value.symbol};
      } else {
        assert byId - {id} == byId;
      }
      if Indexed(ids, symbols) {
        RemovePreservesIndex(ids, symbols, id);
        if id in ids {
          RemoveThenLookup(ids, symbols, id);
        }
      }
    }
  }
}
