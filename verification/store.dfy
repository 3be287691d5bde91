/**
 * The memory store of the journal page: the collection of records, the
 * one-time load from the browser's key-value storage, the write-back of the
 * whole collection after every change, and the add and delete handlers.
 * JSON encoding is injected as a `Codec`; the browser storage is a map from
 * keys to strings of which the store uses one slot.
 */
module Store {
  import opened Types
  import opened Collections
  import opened MemoryQuery

  /** The single storage slot the collection lives in. */
  const VAULT_KEY: string := "memora_vault"

  /** The two sample records used whenever nothing usable is saved. */
  const INITIAL_MEMORIES: seq<Memory> := [
    Memory(
      "1",
      "Matahari Terbenam di Uluwatu",
      "Menikmati langit berwarna ungu dan oranye yang memukau sambil mendengarkan deburan ombak di tebing Uluwatu. Momen ketenangan yang sempurna bersama orang-orang tersayang.",
      "https://picsum.photos/seed/uluwatu/800/600",
      1715796000000, // 2024-05-15T18:00:00Z
      "Travel"),
    Memory(
      "2",
      "Sarapan Keluarga Hari Minggu",
      "Aroma kopi dan pancake yang memenuhi rumah. Gelak tawa anak-anak saat menceritakan mimpi mereka semalam. Sederhana, tapi tak ternilai harganya.",
      "https://picsum.photos/seed/breakfast/800/600",
      1717317000000, // 2024-06-02T08:30:00Z
      "Family")
  ]

  /** JSON text for a collection, and back; `parse` fails on text that is not JSON. */
  datatype Codec = Codec(stringify: seq<Memory> -> string, parse: string -> Option<seq<Memory>>)

  /**
   * What JSON provides for arrays of records of strings and numbers: the
   * text of an array is never empty, and it parses back to the same array.
   */
  ghost predicate ValidCodec(codec: Codec)
  {
    forall ms :: codec.stringify(ms) != [] && codec.parse(codec.stringify(ms)) == Some(ms)
  }

  /** Reading a storage slot: absent keys read as nothing. */
  function GetItem(storage: map<string, string>, key: string): (r: Option<string>)
    ensures r.Some? <==> key in storage
    ensures r.Some? ==> r.value == storage[key]
  {
    if key in storage then Some(storage[key]) else None
  }

  /**
   * The collection the page starts with, given what the slot held: the seed
   * when the slot is absent or empty or its text does not parse, and
   * otherwise whatever the text parses to, unchecked.
   */
  function Restore(saved: Option<string>, parse: string -> Option<seq<Memory>>): (r: seq<Memory>)
    ensures saved == None || saved == Some("") ==> r == INITIAL_MEMORIES
    ensures saved.Some? && saved.value != "" && parse(saved.value) == None ==> r == INITIAL_MEMORIES
    ensures saved.Some? && saved.value != "" && parse(saved.value).Some? ==> r == parse(saved.value).value
  {
    match saved
    case None => INITIAL_MEMORIES
    case Some(text) =>
      if text == "" then INITIAL_MEMORIES
      else
        match parse(text)
        case None => INITIAL_MEMORIES
        case Some(ms) => ms
  }

  /** The fallback collection is exactly the two sample records, "1" then "2". */
  lemma SeedRecords()
    ensures |INITIAL_MEMORIES| == 2
    ensures INITIAL_MEMORIES[0].id == "1" && INITIAL_MEMORIES[1].id == "2"
    ensures forall m | m in INITIAL_MEMORIES :: m.title != [] && m.imageUrl != []
    ensures INITIAL_MEMORIES[0].category == CategoryName(Travel)
    ensures INITIAL_MEMORIES[1].category == CategoryName(Family)
  {
  }

  /** Resilience: whatever the slot holds, the start collection is the seed or a complete parse, never a part. */
  lemma RestoreIsSeedOrParse(saved: Option<string>, parse: string -> Option<seq<Memory>>)
    ensures var r := Restore(saved, parse);
      r == INITIAL_MEMORIES || (saved.Some? && parse(saved.value) == Some(r))
  {
  }

  /** Round trip: what the store writes is what a later load restores. */
  lemma ReloadRestores(codec: Codec, ms: seq<Memory>)
    requires ValidCodec(codec)
    ensures Restore(Some(codec.stringify(ms)), codec.parse) == ms
  {
  }

  /** The collection with every record carrying `id` removed, the others in order. */
  function Without(memories: seq<Memory>, id: string): (r: seq<Memory>)
    ensures forall m | m in r :: m in memories && m.id != id
    ensures forall m | m in memories && m.id != id :: m in r
  {
    Filter(memories, (m: Memory) => m.id != id)
  }

  /** Deleting works part by part: the survivors keep their relative order. */
  lemma WithoutConcat(a: seq<Memory>, b: seq<Memory>, id: string)
    ensures Without(a + b, id) == Without(a, id) + Without(b, id)
  {
    FilterConcat(a, b, (m: Memory) => m.id != id);
  }

  /** Deleting an id no record carries leaves the collection as it was. */
  lemma WithoutAbsent(memories: seq<Memory>, id: string)
    requires forall m | m in memories :: m.id != id
    ensures Without(memories, id) == memories
  {
    FilterKeepsAll(memories, (m: Memory) => m.id != id);
  }

  /** Each record not carrying `id` survives as often as it was there; the others are gone. */
  lemma WithoutCount(memories: seq<Memory>, id: string, m: Memory)
    ensures multiset(Without(memories, id))[m] == if m.id == id then 0 else multiset(memories)[m]
  {
    FilterCount(memories, (m: Memory) => m.id != id, m);
  }

  /** No two records share an id. */
  predicate UniqueIds(memories: seq<Memory>)
  {
    forall i, j :: 0 <= i < j < |memories| ==> memories[i].id != memories[j].id
  }

  /** With unique ids, deleting the id of record `k` removes that record and nothing else. */
  lemma WithoutUnique(memories: seq<Memory>, k: nat)
    requires UniqueIds(memories)
    requires k < |memories|
    ensures Without(memories, memories[k].id) == memories[..k] + memories[k + 1..]
  {
    var id := memories[k].id;
    FilterDropsOne(memories, (m: Memory) => m.id != id, k);
  }

  /** Deleting keeps ids unique. */
  lemma {:induction false} WithoutKeepsUnique(memories: seq<Memory>, id: string)
    requires UniqueIds(memories)
    ensures UniqueIds(Without(memories, id))
  {
    if memories != [] {
      var tail := memories[1..];
      assert UniqueIds(tail) by {
        forall i, j | 0 <= i < j < |tail| ensures tail[i].id != tail[j].id {
          assert tail[i] == memories[i + 1] && tail[j] == memories[j + 1];
        }
      }
      WithoutKeepsUnique(tail, id);
      var rest := Without(tail, id);
      var r := Without(memories, id);
      if memories[0].id != id {
        assert r == [memories[0]] + rest;
        forall j | 0 <= j < |rest| ensures rest[j].id != memories[0].id {
          assert rest[j] in rest;
          var k :| 0 <= k < |tail| && tail[k] == rest[j];
          assert memories[k + 1] == rest[j];
        }
        forall i, j | 0 <= i < j < |r| ensures r[i].id != r[j].id {
          if i != 0 {
            assert r[i] == rest[i - 1] && r[j] == rest[j - 1];
          }
        }
      } else {
        assert r == rest;
      }
    }
  }

  /** Adding a record whose id is new keeps ids unique. */
  lemma AddKeepsUnique(memories: seq<Memory>, m: Memory)
    requires UniqueIds(memories)
    requires forall n | n in memories :: n.id != m.id
    ensures UniqueIds([m] + memories)
  {
  }

  /** After an add, the empty search under `All` shows the new record, exactly once when its id was new. */
  lemma AddThenQuery(memories: seq<Memory>, m: Memory)
    requires forall n | n in memories :: n.id != m.id
    ensures multiset(Query([m] + memories, "", All))[m] == 1
  {
  }

  /** After a delete, no view shows a record with the deleted id. */
  lemma DeleteThenQuery(memories: seq<Memory>, id: string, searchQuery: string, selected: Selection)
    ensures forall m | m in Query(Without(memories, id), searchQuery, selected) :: m.id != id
  {
  }

  /** The seed, unfiltered, is shown most recent first: record "2" before record "1". */
  lemma SeedViewAll()
    ensures Query(INITIAL_MEMORIES, "", All) == [INITIAL_MEMORIES[1], INITIAL_MEMORIES[0]]
  {
  }

  /** Selecting Travel on the seed shows only record "1"; selecting Love shows nothing. */
  lemma SeedViewByCategory()
    ensures Query(INITIAL_MEMORIES, "", Only(Travel)) == [INITIAL_MEMORIES[0]]
    ensures Query(INITIAL_MEMORIES, "", Only(Love)) == []
  {
    var s := INITIAL_MEMORIES;
    EmptySearchMatches(s[0]);
    FilterPair(s[0], s[1], (m: Memory) => Matches(m, "", Only(Travel)));
    assert [s[0]][1..] == [];
    QueryEmptyCategory(s, "", Love);
  }

  /** Deleting record "1" from the seed leaves a view of record "2" alone. */
  lemma SeedDeleteFirst()
    ensures Query(Without(INITIAL_MEMORIES, "1"), "", All) == [INITIAL_MEMORIES[1]]
  {
  }

  /**
   * The page's store. `storage` is the browser's key-value storage, of
   * which the store reads and writes only VAULT_KEY; `isLoading` is true
   * until the saved collection has been consulted.
   */
  class Vault {
    var memories: seq<Memory>
    var isLoading: bool
    var storage: map<string, string>
    const codec: Codec

    /** The storage slot holds the collection's text once loading is over. */
    ghost predicate Mirrored()
      reads this
    {
      !isLoading ==> VAULT_KEY in storage && storage[VAULT_KEY] == codec.stringify(memories)
    }

    /** A page before its first effect: no records yet, still loading, storage as the browser has it. */
    constructor (storage: map<string, string>, codec: Codec)
      ensures this.memories == [] && this.isLoading
      ensures this.storage == storage && this.codec == codec
      ensures Mirrored()
    {
      this.memories := [];
      this.isLoading := true;
      this.storage := storage;
      this.codec := codec;
    }

    /** The load effect: read the slot once, install what it restores, and end loading. */
    method Load()
      modifies this`memories, this`isLoading
      ensures memories == Restore(GetItem(storage, VAULT_KEY), codec.parse)
      ensures !isLoading
    {
      var saved := GetItem(storage, VAULT_KEY);
      if saved.Some? && saved.value != "" {
        var parsed := codec.parse(saved.value);
        if parsed.Some? {
          memories := parsed.value;
        } else {
          memories := INITIAL_MEMORIES;
        }
      } else {
        memories := INITIAL_MEMORIES;
      }
      isLoading := false;
    }

    /**
     * The persist effect: once loading is over, the slot is overwritten with
     * the whole collection. The last ensures is a corollary of the first,
     * spelled out: no other key changes.
     */
    method Persist()
      modifies this`storage
      ensures storage == if isLoading then old(storage) else old(storage)[VAULT_KEY := codec.stringify(memories)]
      ensures Mirrored()
      ensures forall k | k in old(storage) && k != VAULT_KEY :: k in storage && storage[k] == old(storage)[k]
    {
      if !isLoading {
        storage := storage[VAULT_KEY := codec.stringify(memories)];
      }
    }

    /** Page start: the load effect, then the persist effect its change triggers. */
    method Mount()
      requires isLoading
      modifies this`memories, this`isLoading, this`storage
      ensures memories == Restore(GetItem(old(storage), VAULT_KEY), codec.parse)
      ensures !isLoading && Mirrored()
      ensures storage == old(storage)[VAULT_KEY := codec.stringify(memories)]
    {
      Load();
      Persist();
    }

    /**
     * Adding a record puts it first; the other records stay as they were, and
     * the slot follows. The second ensures is a corollary of the first,
     * spelled out: one more record, the old ones unchanged behind it.
     */
    method Add(newMemory: Memory)
      modifies this`memories, this`storage
      ensures memories == [newMemory] + old(memories)
      ensures |memories| == |old(memories)| + 1 && memories[1..] == old(memories)
      ensures storage == if isLoading then old(storage) else old(storage)[VAULT_KEY := codec.stringify(memories)]
      ensures Mirrored()
    {
      memories := [newMemory] + memories;
      Persist();
    }

    /**
     * Deleting, once the user confirms: every record carrying `id` goes, and
     * the slot follows. Declined, nothing changes.
     */
    method Delete(id: string, confirmed: bool)
      modifies this`memories, this`storage
      ensures confirmed ==> memories == Without(old(memories), id)
      ensures confirmed ==> storage == if isLoading then old(storage) else old(storage)[VAULT_KEY := codec.stringify(memories)]
      ensures confirmed ==> Mirrored()
      ensures !confirmed ==> memories == old(memories) && storage == old(storage)
    {
      if confirmed {
        memories := Without(memories, id);
        Persist();
      }
    }

    /** The page's view of the store for the current search text and category. */
    function View(searchQuery: string, selected: Selection): (r: seq<Memory>)
      reads this
      ensures forall m | m in r :: m in memories && Matches(m, searchQuery, selected)
      ensures forall m | m in memories && Matches(m, searchQuery, selected) :: m in r
      ensures multiset(r) == multiset(Matching(memories, searchQuery, selected))
      ensures Sorted(r)
    {
      Query(memories, searchQuery, selected)
    }
  }

  /**
   * A page visit that adds one record, followed by a reload of the page on
   * the storage it left behind: the reloaded page shows the same collection.
   */
  method ReloadAfterAdd(browser: map<string, string>, codec: Codec, newMemory: Memory)
    returns (before: seq<Memory>, after: seq<Memory>)
    requires ValidCodec(codec)
    ensures after == before
    ensures before == [newMemory] + Restore(GetItem(browser, VAULT_KEY), codec.parse)
  {
    var page := new Vault(browser, codec);
    page.Mount();
    page.Add(newMemory);
    before := page.memories;
    var reloaded := new Vault(page.storage, codec);
    reloaded.Mount();
    ReloadRestores(codec, before);
    after := reloaded.memories;
  }
}
