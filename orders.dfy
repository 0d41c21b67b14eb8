/**
 * The tile-order table: pre-tile responses record, per book and page, which
 * encrypted tile key (`encode_zn`) belongs to which tile position (`zn`); tile
 * responses look their key up and consume the entry.
 */
module Orders {
  import opened Wrappers

  /** One `zn: encode_zn` pair of a page table. */
  datatype Entry = Entry(zn: int, encodeZn: string)

  /** A page table: a Python dict, kept as its entries in insertion order. */
  type PageTable = seq<Entry>

  /** `zn_table`: bid -> page_num -> page table. */
  type ZnTable = map<int, map<int, PageTable>>

  /** What a lookup returns: the order found (-1 for none) and the table afterwards. */
  datatype Resolution = Resolution(order: int, table: ZnTable)

  /** Claims read from a pre-tile token: `b`, `p`, `zn` and the `i` field the AES key is cut from. */
  datatype PreTileClaims = PreTileClaims(bid: int, pageNum: int, zn: int, keySeed: string)

  /** Claims read from a tile token: `b`, `p` and the `zn` field of its `k` claim. */
  datatype TileClaims = TileClaims(bid: int, pageNum: int, pageZn: string)

  /**
   * The decoders the table depends on, as given functions: token decoding
   * without signature check followed by reading the claims, and AES-ECB
   * decryption of a pre-tile body followed by reading its `zn`. None stands for
   * every failure (an empty claim set, an empty plaintext, or a raised error).
   */
  datatype Codec = Codec(
    readPreTileToken: string -> Option<PreTileClaims>,
    readTileToken: string -> Option<TileClaims>,
    decryptZn: (string, string) -> Option<string>)

  /** Keys are unique in a dict. */
  predicate UniqueZn(t: PageTable)
  {
    forall i, j :: 0 <= i < j < |t| ==> t[i].zn != t[j].zn
  }

  predicate WellFormed(z: ZnTable)
  {
    forall b, p :: b in z && p in z[b] ==> UniqueZn(z[b][p])
  }

  /** `t.get(zn)`. */
  function Lookup(t: PageTable, zn: int): Option<string>
  {
    if t == [] then None else if t[0].zn == zn then Some(t[0].encodeZn) else Lookup(t[1..], zn)
  }

  /** `t[zn] = encode_zn`: an existing key keeps its place, a new one goes last. */
  function Put(t: PageTable, zn: int, encodeZn: string): PageTable
  {
    if t == [] then [Entry(zn, encodeZn)]
    else if t[0].zn == zn then [Entry(zn, encodeZn)] + t[1..]
    else [t[0]] + Put(t[1..], zn, encodeZn)
  }

  /** `t.pop(zn)`. */
  function Pop(t: PageTable, zn: int): PageTable
  {
    if t == [] then [] else if t[0].zn == zn then t[1..] else [t[0]] + Pop(t[1..], zn)
  }

  /** The `zn` of the first entry, in insertion order, whose value is `v`. */
  function FirstMatch(t: PageTable, v: string): Option<int>
  {
    if t == [] then None else if t[0].encodeZn == v then Some(t[0].zn) else FirstMatch(t[1..], v)
  }

  /** How many entries carry the value `v`. */
  function Occurrences(t: PageTable, v: string): nat
  {
    if t == [] then 0 else (if t[0].encodeZn == v then 1 else 0) + Occurrences(t[1..], v)
  }

  /** The page table of (bid, pageNum), empty when absent. */
  function PageOf(z: ZnTable, bid: int, pageNum: int): PageTable
  {
    if bid in z && pageNum in z[bid] then z[bid][pageNum] else []
  }

  /** `_add(bid, page_num, zn, encode_zn)`: creates the levels it needs and sets the entry. */
  function Record(z: ZnTable, bid: int, pageNum: int, zn: int, encodeZn: string): (r: ZnTable)
    ensures r.Keys == z.Keys + {bid} && pageNum in r[bid]
    ensures r[bid].Keys == (if bid in z then z[bid].Keys else {}) + {pageNum}
    ensures forall b :: b in z && b != bid ==> r[b] == z[b]
  {
    var book := if bid in z then z[bid] else map[];
    z[bid := book[pageNum := Put(PageOf(z, bid, pageNum), zn, encodeZn)]]
  }

  /**
   * The lookup of `get` once the claims are known: the first entry whose value
   * is `pageZn` gives the order; a found order other than -1 is popped, and an
   * emptied page table is dropped (the book level never is).
   */
  function Resolve(z: ZnTable, bid: int, pageNum: int, pageZn: string): (r: Resolution)
    ensures r.table.Keys == z.Keys
    ensures forall b :: b in z && b != bid ==> r.table[b] == z[b]
    ensures r.order == -1 ==> r.table == z
    ensures r.order != -1 ==> bid in z && pageNum in z[bid] && FirstMatch(z[bid][pageNum], pageZn) == Some(r.order)
  {
    if bid !in z || pageNum !in z[bid] then Resolution(-1, z)
    else
      var page := z[bid][pageNum];
      var order := FirstMatch(page, pageZn).GetOr(-1);
      if order == -1 then Resolution(-1, z)
      else
        var rest := Pop(page, order);
        Resolution(order, z[bid := if |rest| == 0 then z[bid] - {pageNum} else z[bid][pageNum := rest]])
  }

  /** `k["i"][:16]`: the AES key is the first 16 characters of the seed. */
  function AesKey(seed: string): string
  {
    if |seed| <= 16 then seed else seed[..16]
  }

  /** `add(k, body)` as a function of the table. */
  function AddToken(z: ZnTable, codec: Codec, k: string, body: string): (r: ZnTable)
    ensures body == [] ==> r == z
    ensures codec.readPreTileToken(k).None? ==> r == z
    ensures forall c :: codec.readPreTileToken(k) == Some(c) && codec.decryptZn(body, AesKey(c.keySeed)).None? ==> r == z
    ensures z.Keys <= r.Keys && forall b :: b in z ==> z[b].Keys <= r[b].Keys
  {
    if body == [] then z
    else
      match codec.readPreTileToken(k)
      case None => z
      case Some(c) =>
        match codec.decryptZn(body, AesKey(c.keySeed))
        case None => z
        case Some(encodeZn) => Record(z, c.bid, c.pageNum, c.zn, encodeZn)
  }

  /** `get(k)` as a function of the table. */
  function GetToken(z: ZnTable, codec: Codec, k: string): (r: Resolution)
    ensures r.table.Keys == z.Keys
    ensures r.order == -1 ==> r.table == z
    ensures codec.readTileToken(k).None? ==> r == Resolution(-1, z)
  {
    match codec.readTileToken(k)
    case None => Resolution(-1, z)
    case Some(c) => Resolve(z, c.bid, c.pageNum, c.pageZn)
  }

  // ---------------------------------------------------------------------------
  // Properties of the page-table operations
  // ---------------------------------------------------------------------------

  lemma {:induction false} LookupIn(t: PageTable, zn: int)
    ensures Lookup(t, zn).Some? <==> exists i :: 0 <= i < |t| && t[i].zn == zn
  {
    if t != [] {
      LookupIn(t[1..], zn);
      if t[0].zn != zn {
        if exists i :: 0 <= i < |t| && t[i].zn == zn {
          var i :| 0 <= i < |t| && t[i].zn == zn;
          assert t[1..][i - 1].zn == zn;
        }
      }
    }
  }

  /**
   * Assignment into a page table: the key now maps to the new value, every
   * other key keeps its value, keys stay unique, an existing key keeps its
   * position and a new key is appended.
   */
  lemma {:induction false} PutSemantics(t: PageTable, zn: int, encodeZn: string)
    requires UniqueZn(t)
    ensures UniqueZn(Put(t, zn, encodeZn))
    ensures forall x :: Lookup(Put(t, zn, encodeZn), x) == if x == zn then Some(encodeZn) else Lookup(t, x)
    ensures Lookup(t, zn).Some? ==> |Put(t, zn, encodeZn)| == |t| && forall i :: 0 <= i < |t| ==> Put(t, zn, encodeZn)[i].zn == t[i].zn
    ensures Lookup(t, zn).None? ==> Put(t, zn, encodeZn) == t + [Entry(zn, encodeZn)]
  {
    if t != [] {
      PutSemantics(t[1..], zn, encodeZn);
      var r := Put(t, zn, encodeZn);
      if t[0].zn == zn {
        LookupIn(t[1..], zn);
        forall x ensures Lookup(r, x) == if x == zn then Some(encodeZn) else Lookup(t, x) {
          if x != zn {
            assert r[1..] == t[1..];
          }
        }
        forall i, j | 0 <= i < j < |r| ensures r[i].zn != r[j].zn {
          if i == 0 {
            assert r[j] == t[j];
            assert t[1..][j - 1].zn == t[j].zn;
          } else {
            assert r[i] == t[i] && r[j] == t[j];
          }
        }
      } else {
        assert r[1..] == Put(t[1..], zn, encodeZn);
        var rest := Put(t[1..], zn, encodeZn);
        LookupIn(rest, t[0].zn);
        LookupIn(t[1..], t[0].zn);
        assert Lookup(t[1..], t[0].zn).None? by {
          forall i | 0 <= i < |t[1..]| ensures t[1..][i].zn != t[0].zn {
            assert t[1..][i] == t[i + 1];
          }
        }
        forall i, j | 0 <= i < j < |r| ensures r[i].zn != r[j].zn {
          if i == 0 {
            assert r[j] == rest[j - 1];
          } else {
            assert r[i] == rest[i - 1] && r[j] == rest[j - 1];
          }
        }
        if Lookup(t, zn).Some? {
          forall i | 0 <= i < |t| ensures r[i].zn == t[i].zn {
            if i > 0 { assert r[i] == rest[i - 1]; assert t[i] == t[1..][i - 1]; }
          }
        }
      }
    }
  }

  /** Popping a key removes it and nothing else, and keeps keys unique. */
  lemma {:induction false} PopSemantics(t: PageTable, zn: int)
    requires UniqueZn(t)
    ensures UniqueZn(Pop(t, zn))
    ensures forall x :: Lookup(Pop(t, zn), x) == if x == zn then None else Lookup(t, x)
    ensures Lookup(t, zn).Some? ==> |Pop(t, zn)| == |t| - 1
    ensures forall v :: Lookup(t, zn).Some? ==>
      Occurrences(Pop(t, zn), v) == Occurrences(t, v) - (if Lookup(t, zn) == Some(v) then 1 else 0)
  {
    if t != [] {
      PopSemantics(t[1..], zn);
      var r := Pop(t, zn);
      if t[0].zn == zn {
        LookupIn(t[1..], zn);
        assert Lookup(t[1..], zn).None? by {
          forall i | 0 <= i < |t[1..]| ensures t[1..][i].zn != zn {
            assert t[1..][i] == t[i + 1];
          }
        }
        forall i, j | 0 <= i < j < |r| ensures r[i].zn != r[j].zn {
          assert r[i] == t[i + 1] && r[j] == t[j + 1];
        }
      } else {
        var rest := Pop(t[1..], zn);
        assert r[1..] == rest;
        LookupIn(rest, t[0].zn);
        LookupIn(t[1..], t[0].zn);
        assert Lookup(t[1..], t[0].zn).None? by {
          forall i | 0 <= i < |t[1..]| ensures t[1..][i].zn != t[0].zn {
            assert t[1..][i] == t[i + 1];
          }
        }
        forall i, j | 0 <= i < j < |r| ensures r[i].zn != r[j].zn {
          if i == 0 {
            assert r[j] == rest[j - 1];
          } else {
            assert r[i] == rest[i - 1] && r[j] == rest[j - 1];
          }
        }
      }
    }
  }

  /** `Pop(t, zn)` removed the entry at `i`, the first one holding `zn`. */
  ghost predicate PoppedAt(t: PageTable, zn: int, i: int)
  {
    && 0 <= i < |t| && t[i].zn == zn
    && (forall j :: 0 <= j < i ==> t[j].zn != zn)
    && Pop(t, zn) == t[..i] + t[i + 1..]
  }

  /**
   * Popping keeps the order of what remains: a missing key leaves the table
   * as it was, and a present key loses exactly its first entry, everything
   * before and after it staying in place.
   */
  lemma {:induction false} PopKeepsOrder(t: PageTable, zn: int)
    ensures Lookup(t, zn).None? ==> Pop(t, zn) == t
    ensures Lookup(t, zn).Some? ==> exists i :: PoppedAt(t, zn, i)
  {
    if t == [] {
    } else if t[0].zn == zn {
      assert t[..0] + t[1..] == t[1..];
      assert PoppedAt(t, zn, 0);
    } else {
      PopKeepsOrder(t[1..], zn);
      assert Pop(t, zn) == [t[0]] + Pop(t[1..], zn);
      if Lookup(t, zn).Some? {
        var k :| PoppedAt(t[1..], zn, k);
        PopShift(t, zn, k);
      }
    }
  }

  /** The inductive step of `PopKeepsOrder`: a miss at the head shifts the index by one. */
  lemma PopShift(t: PageTable, zn: int, k: int)
    requires t != [] && t[0].zn != zn && PoppedAt(t[1..], zn, k)
    ensures PoppedAt(t, zn, k + 1)
  {
  }

  /** The scan finds nothing exactly when no entry holds the value. */
  lemma {:induction false} FirstMatchMisses(t: PageTable, v: string)
    ensures FirstMatch(t, v).None? <==> Occurrences(t, v) == 0
  {
    if t != [] {
      FirstMatchMisses(t[1..], v);
    }
  }

  /** With unique keys, the first match is a key that maps to the value looked for. */
  lemma {:induction false} FirstMatchFound(t: PageTable, v: string)
    requires UniqueZn(t)
    ensures FirstMatch(t, v).Some? ==> Lookup(t, FirstMatch(t, v).value) == Some(v)
  {
    if t != [] && t[0].encodeZn != v {
      assert UniqueZn(t[1..]) by {
        forall i, j | 0 <= i < j < |t[1..]| ensures t[1..][i].zn != t[1..][j].zn {
          assert t[1..][i] == t[i + 1] && t[1..][j] == t[j + 1];
        }
      }
      FirstMatchFound(t[1..], v);
      var m := FirstMatch(t[1..], v);
      if m.Some? {
        LookupIn(t[1..], m.value);
        var i :| 0 <= i < |t[1..]| && t[1..][i].zn == m.value;
        assert t[i + 1].zn == m.value;
      }
    }
  }

  // ---------------------------------------------------------------------------
  // Properties of the whole table
  // ---------------------------------------------------------------------------

  /**
   * `_add` is last-write-wins: afterwards (bid, pageNum, zn) maps to the new
   * value, every other entry of that page and every other page keeps its
   * content, no key disappears, and the table stays well formed.
   */
  lemma RecordLastWriteWins(z: ZnTable, bid: int, pageNum: int, zn: int, encodeZn: string)
    requires WellFormed(z)
    ensures WellFormed(Record(z, bid, pageNum, zn, encodeZn))
    ensures Lookup(PageOf(Record(z, bid, pageNum, zn, encodeZn), bid, pageNum), zn) == Some(encodeZn)
    ensures forall x :: x != zn ==>
      Lookup(PageOf(Record(z, bid, pageNum, zn, encodeZn), bid, pageNum), x) == Lookup(PageOf(z, bid, pageNum), x)
    ensures forall b, p :: (b != bid || p != pageNum) ==>
      PageOf(Record(z, bid, pageNum, zn, encodeZn), b, p) == PageOf(z, b, p)
    ensures Record(z, bid, pageNum, zn, encodeZn).Keys == z.Keys + {bid}
    ensures bid in z ==> Record(z, bid, pageNum, zn, encodeZn)[bid].Keys == z[bid].Keys + {pageNum}
  {
    PutSemantics(PageOf(z, bid, pageNum), zn, encodeZn);
  }

  /** A lookup that finds nothing (or finds the order -1) leaves the table as it was. */
  lemma ResolveMissUnchanged(z: ZnTable, bid: int, pageNum: int, pageZn: string)
    ensures Resolve(z, bid, pageNum, pageZn).order == -1 ==> Resolve(z, bid, pageNum, pageZn).table == z
    ensures (bid !in z || pageNum !in z[bid] || Occurrences(z[bid][pageNum], pageZn) == 0) ==>
      Resolve(z, bid, pageNum, pageZn) == Resolution(-1, z)
  {
    if bid in z && pageNum in z[bid] {
      FirstMatchMisses(z[bid][pageNum], pageZn);
    }
  }

  /**
   * A hit returns the zn of the first entry holding the value, removes exactly
   * that entry, drops the page when it empties, and never drops the book.
   */
  lemma ResolveHit(z: ZnTable, bid: int, pageNum: int, pageZn: string)
    requires WellFormed(z)
    requires Resolve(z, bid, pageNum, pageZn).order != -1
    ensures bid in z && pageNum in z[bid]
    ensures Some(Resolve(z, bid, pageNum, pageZn).order) == FirstMatch(z[bid][pageNum], pageZn)
    ensures Lookup(z[bid][pageNum], Resolve(z, bid, pageNum, pageZn).order) == Some(pageZn)
    ensures WellFormed(Resolve(z, bid, pageNum, pageZn).table)
    ensures Resolve(z, bid, pageNum, pageZn).table.Keys == z.Keys
    ensures var r := Resolve(z, bid, pageNum, pageZn);
      forall x :: Lookup(PageOf(r.table, bid, pageNum), x) == (if x == r.order then None else Lookup(z[bid][pageNum], x))
    ensures pageNum !in Resolve(z, bid, pageNum, pageZn).table[bid] <==> |z[bid][pageNum]| == 1
    ensures forall b, p :: (b != bid || p != pageNum) ==>
      PageOf(Resolve(z, bid, pageNum, pageZn).table, b, p) == PageOf(z, b, p)
  {
    var page := z[bid][pageNum];
    var order := FirstMatch(page, pageZn).value;
    FirstMatchFound(page, pageZn);
    PopSemantics(page, order);
    var r := Resolve(z, bid, pageNum, pageZn);
    forall b, p | b in r.table && p in r.table[b] ensures UniqueZn(r.table[b][p]) {
      if b == bid && p == pageNum {
        assert r.table[b][p] == Pop(page, order);
      }
    }
  }

  /**
   * Exactly-once consumption: when the value occurs once in its page, the
   * first lookup hits and a repeated lookup misses.
   */
  lemma ResolveConsumesOnce(z: ZnTable, bid: int, pageNum: int, pageZn: string)
    requires WellFormed(z)
    requires bid in z && pageNum in z[bid] && Occurrences(z[bid][pageNum], pageZn) == 1
    requires FirstMatch(z[bid][pageNum], pageZn) != Some(-1)
    ensures Resolve(z, bid, pageNum, pageZn).order != -1
    ensures var after := Resolve(z, bid, pageNum, pageZn).table;
      Resolve(after, bid, pageNum, pageZn) == Resolution(-1, after)
  {
    var page := z[bid][pageNum];
    FirstMatchMisses(page, pageZn);
    FirstMatchFound(page, pageZn);
    var order := FirstMatch(page, pageZn).value;
    PopSemantics(page, order);
    var after := Resolve(z, bid, pageNum, pageZn).table;
    if pageNum in after[bid] {
      assert after[bid][pageNum] == Pop(page, order);
      ResolveMissUnchanged(after, bid, pageNum, pageZn);
    }
  }

  /**
   * A tile position recorded on a page with no pending entries is resolved by
   * its key: the lookup returns it, the page entry is pruned again, the book
   * entry stays, and a second lookup misses.
   */
  lemma RecordThenResolve(z: ZnTable, bid: int, pageNum: int, zn: int, encodeZn: string)
    requires zn != -1
    requires bid !in z || pageNum !in z[bid]
    ensures var after := Resolve(Record(z, bid, pageNum, zn, encodeZn), bid, pageNum, encodeZn);
      && after.order == zn
      && after.table == z[bid := if bid in z then z[bid] else map[]]
      && Resolve(after.table, bid, pageNum, encodeZn) == Resolution(-1, after.table)
  {
    var book := if bid in z then z[bid] else map[];
    var recorded := Record(z, bid, pageNum, zn, encodeZn);
    assert recorded[bid][pageNum] == [Entry(zn, encodeZn)];
    assert recorded[bid] - {pageNum} == book;
  }

  // ---------------------------------------------------------------------------
  // SplitPageOrder
  // ---------------------------------------------------------------------------

  /** `SplitPageOrder`: owns the table. */
  class SplitPageOrder {
    var znTable: ZnTable

    ghost predicate Valid()
      reads this
    {
      WellFormed(znTable)
    }

    constructor ()
      ensures Valid() && znTable == map[]
    {
      znTable := map[];
    }

    /**
     * `add(k, body)`: nothing happens for an empty body or when a decoder
     * fails; otherwise the decrypted tile key is recorded under the claims.
     */
    method Add(codec: Codec, k: string, body: string)
      requires Valid()
      modifies this
      ensures Valid()
      ensures znTable == AddToken(old(znTable), codec, k, body)
    {
      if body == [] {
        return;
      }
      var data := codec.readPreTileToken(k);
      if data.None? {
        return;
      }
      var key := AesKey(data.value.keySeed);
      var encodeZn := codec.decryptZn(body, key);
      if encodeZn.None? {
        return;
      }
      AddEntry(data.value.bid, data.value.pageNum, data.value.zn, encodeZn.value);
    }

    /** `_add(bid, page_num, zn, encode_zn)`. */
    method AddEntry(bid: int, pageNum: int, zn: int, encodeZn: string)
      requires Valid()
      modifies this
      ensures Valid()
      ensures znTable == Record(old(znTable), bid, pageNum, zn, encodeZn)
    {
      RecordLastWriteWins(znTable, bid, pageNum, zn, encodeZn);
      ghost var book := if bid in znTable then znTable[bid] else map[];
      ghost var entry := Put(PageOf(znTable, bid, pageNum), zn, encodeZn);
      if bid !in znTable {
        znTable := znTable[bid := map[]];
      }
      if pageNum !in znTable[bid] {
        znTable := znTable[bid := znTable[bid][pageNum := []]];
      }
      assert Put(znTable[bid][pageNum], zn, encodeZn) == entry;
      assert znTable[bid][pageNum := entry] == book[pageNum := entry];
      znTable := znTable[bid := znTable[bid][pageNum := Put(znTable[bid][pageNum], zn, encodeZn)]];
    }

    /**
     * `get(k)`: scans the page table in insertion order for the tile key; a
     * hit other than -1 pops the entry and drops an emptied page table.
     */
    method Get(codec: Codec, k: string) returns (order: int)
      requires Valid()
      modifies this
      ensures Valid()
      ensures Resolution(order, znTable) == GetToken(old(znTable), codec, k)
      ensures order == -1 ==> unchanged(this)
    {
      var data := codec.readTileToken(k);
      order := -1;
      if data.None? {
        return;
      }
      var bid, pageNum, pageZn := data.value.bid, data.value.pageNum, data.value.pageZn;
      if bid !in znTable {
        return;
      }
      var bookZnTable := znTable[bid];
      if pageNum !in bookZnTable {
        return;
      }
      var pageZnTable := bookZnTable[pageNum];
      var i := 0;
      while i < |pageZnTable|
        invariant 0 <= i <= |pageZnTable|
        invariant FirstMatch(pageZnTable[i..], pageZn) == FirstMatch(pageZnTable, pageZn)
        invariant order == -1
      {
        assert pageZnTable[i..][1..] == pageZnTable[i + 1..];
        if pageZnTable[i].encodeZn == pageZn {
          order := pageZnTable[i].zn;
          break;
        }
        i := i + 1;
      }
      assert order == FirstMatch(pageZnTable, pageZn).GetOr(-1);
      if order == -1 {
        return;
      }
      ResolveHit(znTable, bid, pageNum, pageZn);
      pageZnTable := Pop(pageZnTable, order);
      if |pageZnTable| == 0 {
        bookZnTable := bookZnTable - {pageNum};
      } else {
        bookZnTable := bookZnTable[pageNum := pageZnTable];
      }
      znTable := znTable[bid := bookZnTable];
    }
  }
}
