/** The in-memory key-value store and its batches. */
module Database {
  import opened Text

  type Store = map<string, string>

  datatype Put = Put(key: string, value: string)

  /** A batch applies all its puts and then all its deletions. */
  datatype DBBatch = DBBatch(puts: seq<Put>, dels: seq<string>)

  ghost function AfterPuts(db: Store, puts: seq<Put>): Store {
    if puts == [] then db
    else AfterPuts(db, puts[..|puts| - 1])[puts[|puts| - 1].key := puts[|puts| - 1].value]
  }

  ghost function AfterDels(db: Store, dels: seq<string>): Store {
    if dels == [] then db else AfterDels(db, dels[..|dels| - 1]) - {dels[|dels| - 1]}
  }

  ghost function AfterBatch(db: Store, batch: DBBatch): Store {
    AfterDels(AfterPuts(db, batch.puts), batch.dels)
  }

  datatype Lookup = Absent | Present(value: string)

  function Get(db: Store, k: string): Lookup {
    if k in db then Present(db[k]) else Absent
  }

  /** The value the last matching put writes. */
  ghost function LastPut(puts: seq<Put>, k: string): Lookup {
    if puts == [] then Absent
    else if puts[|puts| - 1].key == k then Present(puts[|puts| - 1].value)
    else LastPut(puts[..|puts| - 1], k)
  }

  /** A batch read key by key: deletions win over puts, later puts over earlier ones. */
  lemma {:induction false} BatchAt(db: Store, batch: DBBatch, k: string)
    ensures Get(AfterBatch(db, batch), k) ==
            if k in batch.dels then Absent
            else if LastPut(batch.puts, k).Present? then LastPut(batch.puts, k)
            else Get(db, k)
  {
    PutsAt(db, batch.puts, k);
    DelsAt(AfterPuts(db, batch.puts), batch.dels, k);
  }

  lemma {:induction false} PutsAt(db: Store, puts: seq<Put>, k: string)
    ensures Get(AfterPuts(db, puts), k) == if LastPut(puts, k).Present? then LastPut(puts, k) else Get(db, k)
  {
    if puts != [] {
      PutsAt(db, puts[..|puts| - 1], k);
    }
  }

  lemma {:induction false} DelsAt(db: Store, dels: seq<string>, k: string)
    ensures Get(AfterDels(db, dels), k) == if k in dels then Absent else Get(db, k)
  {
    if dels != [] {
      var before := dels[..|dels| - 1];
      assert dels == before + [dels[|dels| - 1]];
      DelsAt(db, before, k);
    }
  }

  lemma {:induction false} LastPutConcat(a: seq<Put>, b: seq<Put>, k: string)
    ensures LastPut(a + b, k) == if LastPut(b, k).Present? then LastPut(b, k) else LastPut(a, k)
  {
    if b == [] {
      assert a + b == a;
    } else {
      assert (a + b)[..|a + b| - 1] == a + b[..|b| - 1];
      LastPutConcat(a, b[..|b| - 1], k);
    }
  }

  function MetaKey(k: string): string {
    "meta:" + k
  }

  /** `std::setw(10)` with fill character '0'. */
  function Padded(s: string): string {
    if |s| >= 10 then s else seq(10 - |s|, i => '0') + s
  }

  /** The key under which a height is read; blocks are written under the plain number. */
  function PaddedHeightKey(h: u32): string {
    "h:" + Padded(Dec(h))
  }

  class BlockchainDB {
    var isOpen: bool
    var memdb: Store

    constructor ()
      ensures !isOpen && memdb == map[]
    {
      isOpen, memdb := false, map[];
    }

    method Open() returns (ok: bool)
      modifies this`isOpen
      ensures ok && isOpen
    {
      isOpen := true;
      ok := true;
    }

    method PutKey(k: string, v: string) returns (ok: bool)
      modifies this`memdb
      ensures ok == isOpen
      ensures memdb == if isOpen then old(memdb)[k := v] else old(memdb)
    {
      if !isOpen {
        return false;
      }
      memdb := memdb[k := v];
      ok := true;
    }

    /** The output parameter keeps its old value unless the key is found. */
    method GetKey(k: string, v0: string) returns (found: bool, v: string)
      ensures found <==> isOpen && k in memdb
      ensures v == if found then memdb[k] else v0
    {
      if !isOpen || k !in memdb {
        return false, v0;
      }
      found, v := true, memdb[k];
    }

    method Del(k: string) returns (ok: bool)
      modifies this`memdb
      ensures ok == (isOpen && k in old(memdb))
      ensures memdb == if isOpen then old(memdb) - {k} else old(memdb)
    {
      if !isOpen {
        return false;
      }
      ok := k in memdb;
      memdb := memdb - {k};
    }

    method WriteBatch(batch: DBBatch) returns (ok: bool)
      modifies this`memdb
      ensures ok == isOpen
      ensures memdb == if isOpen then AfterBatch(old(memdb), batch) else old(memdb)
    {
      if !isOpen {
        return false;
      }
      for i := 0 to |batch.puts|
        invariant memdb == AfterPuts(old(memdb), batch.puts[..i])
      {
        assert batch.puts[..i + 1][..i] == batch.puts[..i];
        memdb := memdb[batch.puts[i].key := batch.puts[i].value];
      }
      assert batch.puts[..|batch.puts|] == batch.puts;
      ghost var put := memdb;
      for i := 0 to |batch.dels|
        invariant memdb == AfterDels(put, batch.dels[..i])
      {
        assert batch.dels[..i + 1][..i] == batch.dels[..i];
        memdb := memdb - {batch.dels[i]};
      }
      assert batch.dels[..|batch.dels|] == batch.dels;
      ok := true;
    }

    method GetBlock(hash: string, data0: string) returns (found: bool, data: string)
      ensures found <==> isOpen && "b:" + hash in memdb
      ensures data == if found then memdb["b:" + hash] else data0
    {
      found, data := GetKey("b:" + hash, data0);
    }

    method GetHashAtHeight(h: u32, hash0: string) returns (found: bool, hash: string)
      ensures found <==> isOpen && Get(memdb, PaddedHeightKey(h)).Present?
      ensures hash == if found then memdb[PaddedHeightKey(h)] else hash0
    {
      found, hash := GetKey(PaddedHeightKey(h), hash0);
    }

    method SetMeta(k: string, v: string) returns (ok: bool)
      modifies this`memdb
      ensures ok == isOpen
      ensures memdb == if isOpen then old(memdb)[MetaKey(k) := v] else old(memdb)
    {
      ok := PutKey(MetaKey(k), v);
    }
  }
}
