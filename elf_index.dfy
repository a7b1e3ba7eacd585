/**
 * The handle ESym_LoadObject builds: the loaded symbol array and two indices
 * over it, name -> symbol and destination -> symbol. The gchashmap maps are
 * modelled as Dafny maps from the key to the symbol's position in the array
 * (the C maps hold pointers into that array). A name key is the string's
 * bytes before its NUL, so map-key equality is `strcmp` equality; a
 * destination key is the pointer, with None for NULL, so two NULL
 * destinations are the same key.
 */
module ElfIndex {
  import opened ElfRegion
  import opened ElfHash
  import opened ElfSymbols

  /** The contents of the two maps. */
  datatype Index = Index(byName: map<seq<byte>, nat>, byAddr: map<Option<Addr>, nat>)

  /** No key occurs twice. */
  predicate Distinct<K(==)>(keys: seq<K>)
  {
    forall i, j :: 0 <= i < j < |keys| ==> keys[i] != keys[j]
  }

  /** `m` indexes `keys`: every key of `m` designates a position holding it,
      and every position's key designates that very position. */
  predicate KeyIndex<K(==)>(keys: seq<K>, m: map<K, nat>)
  {
    && (forall k :: k in m ==> m[k] < |keys| && keys[m[k]] == k)
    && (forall i :: 0 <= i < |keys| ==> keys[i] in m && m[keys[i]] == i)
  }

  /** A key index exists only over distinct keys. */
  lemma KeyIndexDistinct<K>(keys: seq<K>, m: map<K, nat>)
    requires KeyIndex(keys, m)
    ensures Distinct(keys)
  {
    forall i, j | 0 <= i < j < |keys| ensures keys[i] != keys[j] {
      assert m[keys[i]] == i && m[keys[j]] == j;
    }
  }

  /** Inserting the next key at its position extends the index. */
  lemma KeyIndexSnoc<K>(keys: seq<K>, m: map<K, nat>)
    requires |keys| > 0 && KeyIndex(keys[..|keys| - 1], m) && keys[|keys| - 1] !in m
    ensures KeyIndex(keys, m[keys[|keys| - 1] := |keys| - 1])
  {
    var n := |keys| - 1;
    assert forall i :: 0 <= i < n ==> keys[..n][i] == keys[i];
  }

  /** The next key is already indexed exactly when it repeats an earlier one. */
  lemma KeyIndexPresent<K>(keys: seq<K>, m: map<K, nat>)
    requires |keys| > 0 && KeyIndex(keys[..|keys| - 1], m) && Distinct(keys[..|keys| - 1])
    ensures keys[|keys| - 1] in m <==> !Distinct(keys)
  {
    var n := |keys| - 1;
    assert forall i :: 0 <= i < n ==> keys[..n][i] == keys[i];
    if keys[n] in m {
      assert keys[m[keys[n]]] == keys[n];
    } else {
      forall i, j | 0 <= i < j < |keys| ensures keys[i] != keys[j] {
        if j < n {
          assert keys[..n][i] != keys[..n][j];
        } else {
          assert keys[i] in m;
        }
      }
    }
  }

  lemma DistinctPrefix<K>(keys: seq<K>, n: nat)
    requires n <= |keys| && Distinct(keys)
    ensures Distinct(keys[..n])
  {
  }

  function Names(syms: seq<Symbol>): (ns: seq<seq<byte>>)
    ensures |ns| == |syms| && forall i :: 0 <= i < |syms| ==> ns[i] == syms[i].name
  {
    seq(|syms|, i requires 0 <= i < |syms| => syms[i].name)
  }

  function Destinations(syms: seq<Symbol>): (ds: seq<Option<Addr>>)
    ensures |ds| == |syms| && forall i :: 0 <= i < |syms| ==> ds[i] == syms[i].destination
  {
    seq(|syms|, i requires 0 <= i < |syms| => syms[i].destination)
  }

  lemma KeysOfPrefix(syms: seq<Symbol>, n: nat)
    requires n <= |syms|
    ensures Names(syms[..n]) == Names(syms)[..n]
    ensures Destinations(syms[..n]) == Destinations(syms)[..n]
  {
  }

  /** No two symbols share a name, and no two share a destination. */
  predicate UniqueKeys(syms: seq<Symbol>)
  {
    Distinct(Names(syms)) && Distinct(Destinations(syms))
  }

  /** `ix` indexes `syms` by name and by destination. */
  predicate Indexes(syms: seq<Symbol>, ix: Index)
  {
    KeyIndex(Names(syms), ix.byName) && KeyIndex(Destinations(syms), ix.byAddr)
  }

  /** The insertion loop of ESym_LoadObject over the symbols in array order:
      each symbol is put by name, then by destination, with find-or-insert
      semantics; a key already present aborts the whole build. */
  function BuildIndex(syms: seq<Symbol>): (r: Result<Index>)
    ensures r.Err? ==> r.error == Collision
    ensures r.Ok? ==> Indexes(syms, r.value)
  {
    if syms == [] then Ok(Index(map[], map[]))
    else
      var n := |syms| - 1;
      var prev :- BuildIndex(syms[..n]);
      var s := syms[n];
      if s.name in prev.byName then Err(Collision)
      else if s.destination in prev.byAddr then Err(Collision)
      else
        KeysOfPrefix(syms, n);
        KeyIndexSnoc(Names(syms), prev.byName);
        KeyIndexSnoc(Destinations(syms), prev.byAddr);
        Ok(Index(prev.byName[s.name := n], prev.byAddr[s.destination := n]))
  }

  /** The build succeeds exactly when all names and all destinations are
      distinct. */
  lemma {:induction false} BuildIndexIffUnique(syms: seq<Symbol>)
    ensures BuildIndex(syms).Ok? <==> UniqueKeys(syms)
  {
    if syms == [] {
    } else {
      var n := |syms| - 1;
      BuildIndexIffUnique(syms[..n]);
      KeysOfPrefix(syms, n);
      if BuildIndex(syms).Ok? {
        KeyIndexDistinct(Names(syms), BuildIndex(syms).value.byName);
        KeyIndexDistinct(Destinations(syms), BuildIndex(syms).value.byAddr);
      } else if UniqueKeys(syms) {
        DistinctPrefix(Names(syms), n);
        DistinctPrefix(Destinations(syms), n);
        var prev := BuildIndex(syms[..n]).value;
        KeyIndexPresent(Names(syms), prev.byName);
        KeyIndexPresent(Destinations(syms), prev.byAddr);
      }
    }
  }

  /** One step of the build: the result for one more symbol. */
  lemma BuildIndexStep(syms: seq<Symbol>, i: nat)
    requires i < |syms|
    ensures BuildIndex(syms[..i + 1]) ==
      match BuildIndex(syms[..i])
      case Err(e) => Err(e)
      case Ok(prev) =>
        if syms[i].name in prev.byName || syms[i].destination in prev.byAddr then Err(Collision)
        else Ok(Index(prev.byName[syms[i].name := i], prev.byAddr[syms[i].destination := i]))
  {
    assert syms[..i + 1][..i] == syms[..i];
  }

  /** A collision among the first i symbols aborts the build of all of them. */
  lemma {:induction false} BuildIndexPrefixErr(syms: seq<Symbol>, i: nat)
    requires i <= |syms| && BuildIndex(syms[..i]).Err?
    ensures BuildIndex(syms).Err?
    decreases |syms| - i
  {
    if i < |syms| {
      BuildIndexStep(syms, i);
      BuildIndexPrefixErr(syms, i + 1);
    } else {
      assert syms[..i] == syms;
    }
  }

  /** Two undefined symbols (both destinations NULL) make the load fail. */
  lemma NullDestinationsCollide(syms: seq<Symbol>, i: nat, j: nat)
    requires i < j < |syms|
    requires syms[i].destination.None? && syms[j].destination.None?
    ensures BuildIndex(syms) == Err(Collision)
  {
    BuildIndexIffUnique(syms);
  }

  /** ESym_Handle. `live` is false once ESym_Handle_Destroy has released it. */
  class Handle {
    var symbols: seq<Symbol>
    var byName: map<seq<byte>, nat>
    var byAddr: map<Option<Addr>, nat>
    var live: bool

    /** A live handle over symbols with distinct keys whose maps index them. */
    predicate Valid()
      reads this
    {
      live && UniqueKeys(symbols) && BuildIndex(symbols) == Ok(Index(byName, byAddr))
    }

    /** The handle with the symbol array and two freshly created, empty maps. */
    constructor (syms: seq<Symbol>)
      ensures symbols == syms && byName == map[] && byAddr == map[] && live
    {
      symbols := syms;
      byName := map[];
      byAddr := map[];
      live := true;
    }

    /** ESym_Map_NameToSymbolPut with HMDR_FIND: reports an occupant, or
        inserts when there is none. */
    method PutByName(name: seq<byte>, slot: nat) returns (found: bool)
      modifies this
      ensures found <==> name in old(byName)
      ensures byName == if found then old(byName) else old(byName)[name := slot]
      ensures symbols == old(symbols) && byAddr == old(byAddr) && live == old(live)
    {
      found := name in byName;
      if !found {
        byName := byName[name := slot];
      }
    }

    /** ESym_Map_AddrToSymbolPut with HMDR_FIND. */
    method PutByAddr(dest: Option<Addr>, slot: nat) returns (found: bool)
      modifies this
      ensures found <==> dest in old(byAddr)
      ensures byAddr == if found then old(byAddr) else old(byAddr)[dest := slot]
      ensures symbols == old(symbols) && byName == old(byName) && live == old(live)
    {
      found := dest in byAddr;
      if !found {
        byAddr := byAddr[dest := slot];
      }
    }

    /** ESym_Handle_Destroy: the symbol array and both maps are released. */
    method Destroy()
      modifies this
      ensures !live && symbols == [] && byName == map[] && byAddr == map[]
    {
      symbols := [];
      byName := map[];
      byAddr := map[];
      live := false;
    }

    /** ESym_GetSymbolByName: the symbol whose name is the C string `name`
        (its bytes before the first NUL, as strcmp compares it), or nothing. */
    method GetSymbolByName(name: seq<byte>) returns (s: Option<Symbol>)
      requires Valid()
      ensures s.Some? <==> exists i :: 0 <= i < |symbols| && symbols[i].name == CStr(name)
      ensures forall i :: 0 <= i < |symbols| && symbols[i].name == CStr(name) ==> s == Some(symbols[i])
    {
      var key := CStr(name);
      if key in byName {
        s := Some(symbols[byName[key]]);
      } else {
        s := None;
      }
    }

    /** ESym_GetSymbolByAddr: the symbol whose destination is `dest` (None
        for a NULL query), or nothing. */
    method GetSymbolByAddr(dest: Option<Addr>) returns (s: Option<Symbol>)
      requires Valid()
      ensures s.Some? <==> exists i :: 0 <= i < |symbols| && symbols[i].destination == dest
      ensures forall i :: 0 <= i < |symbols| && symbols[i].destination == dest ==> s == Some(symbols[i])
    {
      if dest in byAddr {
        s := Some(symbols[byAddr[dest]]);
      } else {
        s := None;
      }
    }
  }

  /** ESym_LoadObject: load the symbols for the image's class, then put every
      symbol by name and then by destination; the first key already present
      destroys the handle and yields NULL (`Err(Collision)`). A class the
      loader does not handle, or an image without usable symbols, yields the
      loader's error instead of the NULL walk the C code then performs. */
  method LoadObject(region: Region) returns (r: Result<Handle>)
    ensures LoadSymbolsSpec(region).Err? ==> r == Err(LoadSymbolsSpec(region).error)
    ensures LoadSymbolsSpec(region).Ok? && !UniqueKeys(LoadSymbolsSpec(region).value) ==> r == Err(Collision)
    ensures LoadSymbolsSpec(region).Ok? && UniqueKeys(LoadSymbolsSpec(region).value) ==>
      && r.Ok? && fresh(r.value) && r.value.Valid()
      && r.value.symbols == LoadSymbolsSpec(region).value
  {
    var loaded := LoadSymbols(region);
    if loaded.Err? {
      return Err(loaded.error);
    }
    var syms := loaded.value;
    var handle := new Handle(syms);
    var i := 0;
    while i < |syms|
      invariant 0 <= i <= |syms|
      invariant handle.symbols == syms && handle.live
      invariant BuildIndex(syms[..i]) == Ok(Index(handle.byName, handle.byAddr))
    {
      BuildIndexStep(syms, i);
      var sym := syms[i];
      var found := handle.PutByName(sym.name, i);
      if !found {
        found := handle.PutByAddr(sym.destination, i);
      }
      if found {
        handle.Destroy();
        BuildIndexPrefixErr(syms, i + 1);
        BuildIndexIffUnique(syms);
        return Err(Collision);
      }
      i := i + 1;
    }
    assert syms[..i] == syms;
    BuildIndexIffUnique(syms);
    r := Ok(handle);
  }
}
