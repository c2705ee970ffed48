// Where things are in a replay table, byte for byte.
module TableLayouts {
  import opened Bytes
  import opened ReplayTables

  /** The offset of entry i, behind the entry record and the entries before it. */
  function EntryStart(calls: seq<SysCall>, i: nat, verbose: bool): nat
    requires i <= |calls|
  {
    16 + |EntriesBytes(calls[..i], verbose, [])|
  }

  lemma SumAligned(a: nat, b: nat)
    requires a % 8 == 0 && b % 8 == 0
    ensures (a + b) % 8 == 0
  {
  }

  lemma {:induction false} EntriesAligned(calls: seq<SysCall>, verbose: bool)
    ensures |EntriesBytes(calls, verbose, [])| % 8 == 0
  {
    if calls != [] {
      EntryLayout(calls[0], verbose);
      EntriesAligned(calls[1..], verbose);
      SumAligned(|EntryBytes(calls[0], verbose)|, |EntriesBytes(calls[1..], verbose, [])|);
    }
  }

  lemma {:induction false} EntriesCut(calls: seq<SysCall>, i: nat, verbose: bool, end: seq<byte>)
    requires i <= |calls|
    ensures EntriesBytes(calls, verbose, end)
      == EntriesBytes(calls[..i], verbose, []) + EntriesBytes(calls[i..], verbose, end)
  {
    if i > 0 {
      EntriesCut(calls[1..], i - 1, verbose, end);
      assert calls[..i][1..] == calls[1..][..i - 1] && calls[1..][i - 1..] == calls[i..];
    }
  }

  lemma SameCount(stores: seq<Store>)
    ensures |SortStores(stores)| == |stores|
  {
    assert |multiset(SortStores(stores))| == |multiset(stores)|;
  }

  /**
   * The table: code 2 and a0, then the entries, then 24 bytes for each assertion in tuple order, then 16 zero
   * bytes.
   */
  lemma TableLayout(a0: seq<byte>, calls: seq<SysCall>, stores: seq<Store>, verbose: bool)
    requires |a0| == 8
    ensures var table, k := TableBytes(a0, calls, stores, verbose), EntryStart(calls, |calls|, verbose);
      && |table| == k + 24 * |stores| + 16
      && Has(table, 0, Le(2, 8)) && Has(table, 8, a0)
      && Has(table, k, StoresBytes(SortStores(stores)))
  {
    var ends, entries := StoresBytes(SortStores(stores)), EntriesBytes(calls, verbose, []);
    SameCount(stores);
    StoresLength(SortStores(stores));
    EntriesThenEnd(calls, verbose, ends);
    assert calls[..|calls|] == calls;
    HeadAndEnd(Le(2, 8), a0, entries, ends);
  }

  lemma HeadAndEnd(a: seq<byte>, b: seq<byte>, c: seq<byte>, d: seq<byte>)
    ensures var all := a + b + (c + d);
      Has(all, 0, a) && Has(all, |a|, b) && Has(all, |a| + |b| + |c|, d)
  {
    HasAll(a);
    HasBefore(a, b, 0, a);
    HasBefore(a + b, c + d, 0, a);
    HasAll(b);
    HasAfter(a, b, 0, b);
    HasBefore(a + b, c + d, |a|, b);
    HasAll(d);
    HasAfter(c, d, 0, d);
    HasAfter(a + b, c + d, |c|, d);
  }

  /** Entry i of the table lies between the starts of entry i and entry i + 1, both multiples of 8. */
  lemma EntryInTable(a0: seq<byte>, calls: seq<SysCall>, stores: seq<Store>, verbose: bool, i: nat)
    requires |a0| == 8 && i < |calls|
    ensures var table, k := TableBytes(a0, calls, stores, verbose), EntryStart(calls, i, verbose);
      && k % 8 == 0 && EntryStart(calls, 0, verbose) == 16
      && EntryStart(calls, i + 1, verbose) == k + |EntryBytes(calls[i], verbose)|
      && Has(table, k, EntryBytes(calls[i], verbose))
  {
    var ends := StoresBytes(SortStores(stores));
    EntriesAligned(calls[..i], verbose);
    SumAligned(16, |EntriesBytes(calls[..i], verbose, [])|);
    EntriesStep(calls, i, verbose);
    EntriesCut(calls, i, verbose, ends);
    assert calls[i..][0] == calls[i];
    Between(Le(ENTRY, 8) + a0, EntriesBytes(calls[..i], verbose, []), EntryBytes(calls[i], verbose),
            EntriesBytes(calls[i..][1..], verbose, ends));
  }

  lemma Between(a: seq<byte>, b: seq<byte>, c: seq<byte>, d: seq<byte>)
    ensures Has(a + (b + (c + d)), |a| + |b|, c)
  {
    HasAll(c);
    HasBefore(c, d, 0, c);
    HasAfter(b, c + d, 0, c);
    HasAfter(a, b + (c + d), |b|, c);
  }

  /** The assertions end in 16 zero bytes. */
  lemma {:induction false} StoresLength(stores: seq<Store>)
    ensures |StoresBytes(stores)| == 24 * |stores| + 16
    ensures Has(StoresBytes(stores), 24 * |stores|, Zeros(16))
  {
    if stores == [] {
      assert Le(0, 8) == Zeros(8);
    } else {
      StoresLength(stores[1..]);
      HasAfter(StoreBytes(stores[0]), StoresBytes(stores[1..]), 24 * |stores| - 24, Zeros(16));
    }
  }

  lemma FirstStore(store: Store, rest: seq<byte>)
    ensures var bytes := StoreBytes(store) + rest;
      && Has(bytes, 0, Le(store.addr, 8)) && Has(bytes, 8, Le(store.size, 8)) && Has(bytes, 16, Le(store.data, 8))
  {
    FourParts(Le(store.addr, 8), Le(store.size, 8), Le(store.data, 8), rest);
  }

  /** Assertion k is its address, size and data, 24 bytes from the next. */
  lemma {:induction false} StoreAtOffset(stores: seq<Store>, k: nat)
    requires k < |stores|
    ensures var bytes := StoresBytes(stores);
      && Has(bytes, 24 * k, Le(stores[k].addr, 8)) && Has(bytes, 24 * k + 8, Le(stores[k].size, 8))
      && Has(bytes, 24 * k + 16, Le(stores[k].data, 8))
  {
    var first, rest := StoreBytes(stores[0]), StoresBytes(stores[1..]);
    if k == 0 {
      FirstStore(stores[0], rest);
    } else {
      StoreAtOffset(stores[1..], k - 1);
      var s := stores[k];
      LaterStore(first, rest, 24 * k - 24, s);
    }
  }

  lemma LaterStore(first: seq<byte>, rest: seq<byte>, i: nat, s: Store)
    requires |first| == 24
    requires Has(rest, i, Le(s.addr, 8)) && Has(rest, i + 8, Le(s.size, 8)) && Has(rest, i + 16, Le(s.data, 8))
    ensures var bytes := first + rest;
      && Has(bytes, i + 24, Le(s.addr, 8)) && Has(bytes, i + 32, Le(s.size, 8)) && Has(bytes, i + 40, Le(s.data, 8))
  {
    HasAfter(first, rest, i, Le(s.addr, 8));
    HasAfter(first, rest, i + 8, Le(s.size, 8));
    HasAfter(first, rest, i + 16, Le(s.data, 8));
  }
}
