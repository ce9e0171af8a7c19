/** Index files: the sorted (value, address) pairs of a scan, each stored as two differences mod 2^64. */
module PointerIndexFile {
  import opened Machine
  import opened Ordering
  import opened Varint

  datatype Entry = Entry(value: u64, address: u64)

  predicate EntryLe(a: Entry, b: Entry) {
    a.value < b.value || (a.value == b.value && a.address <= b.address)
  }

  /** A sorted index without repetitions ascends by value, and where values are equal by address. */
  lemma IndexAscends(entries: seq<Entry>, i: nat, j: nat)
    requires SortedBy(entries, EntryLe) && NoDuplicates(entries) && i < j < |entries|
    ensures entries[i].value <= entries[j].value
    ensures entries[i].value == entries[j].value ==> entries[i].address < entries[j].address
  {
    assert EntryLe(entries[i], entries[j]) && entries[i] != entries[j];
  }

  lemma EntryOrder()
    ensures TotalOrder(EntryLe)
  {
  }

  function EncodeEntry(e: Entry, prev: Entry): seq<byte> {
    Encode(Sub64(e.value, prev.value)) + Encode(Sub64(e.address, prev.address))
  }

  function EncodeEntries(entries: seq<Entry>, prev: Entry): seq<byte> {
    if entries == [] then [] else EncodeEntry(entries[0], prev) + EncodeEntries(entries[1..], entries[0])
  }

  function ReadEntry(s: seq<byte>, prev: Entry): Option<(Entry, seq<byte>)> {
    match ReadUint(s)
    case None => None
    case Some((value, rest)) =>
      match ReadUint(rest)
      case None => None
      case Some((address, after)) => Some((Entry(Add64(prev.value, value), Add64(prev.address, address)), after))
  }

  function ReadEntries(s: seq<byte>, prev: Entry, count: nat): Option<seq<Entry>> {
    if count == 0 then Some([])
    else match ReadEntry(s, prev)
      case None => None
      case Some((e, rest)) =>
        match ReadEntries(rest, e, count - 1)
        case None => None
        case Some(more) => Some([e] + more)
  }

  /** Deltas wrap mod 2^64, so an address below its predecessor costs space but loses nothing. */
  lemma EntryRoundTrip(e: Entry, prev: Entry, rest: seq<byte>)
    ensures ReadEntry(EncodeEntry(e, prev) + rest, prev) == Some((e, rest))
  {
    hide Encode, ReadUint;
    var tail := Encode(Sub64(e.address, prev.address)) + rest;
    assert EncodeEntry(e, prev) + rest == Encode(Sub64(e.value, prev.value)) + tail;
    UintRoundTrip(Sub64(e.value, prev.value), tail);
    UintRoundTrip(Sub64(e.address, prev.address), rest);
  }

  lemma {:induction false} EntriesRoundTrip(entries: seq<Entry>, prev: Entry, rest: seq<byte>)
    ensures ReadEntries(EncodeEntries(entries, prev) + rest, prev, |entries|) == Some(entries)
  {
    hide ReadEntry, EncodeEntry;
    if entries != [] {
      var tail := EncodeEntries(entries[1..], entries[0]) + rest;
      assert EncodeEntries(entries, prev) + rest == EncodeEntry(entries[0], prev) + tail;
      EntryRoundTrip(entries[0], prev, tail);
      EntriesRoundTrip(entries[1..], entries[0], rest);
      assert entries == [entries[0]] + entries[1..];
    }
  }

  lemma {:induction false} EncodeEntriesAppend(entries: seq<Entry>, e: Entry, prev: Entry)
    ensures EncodeEntries(entries + [e], prev)
         == EncodeEntries(entries, prev) + EncodeEntry(e, if entries == [] then prev else entries[|entries| - 1])
  {
    hide EncodeEntry;
    if entries == [] {
      assert (entries + [e])[1..] == [];
    } else {
      assert (entries + [e])[1..] == entries[1..] + [e];
      EncodeEntriesAppend(entries[1..], e, entries[0]);
    }
  }

  lemma NoEntries()
    ensures EncodeEntries([], Entry(0, 0)) == []
  {
  }

  /** The file holds the entries in sorted order, whatever order they were collected in. */
  method SaveIndex(entries: seq<Entry>) returns (data: seq<byte>, count: nat, ghost sorted: seq<Entry>)
    ensures SortedBy(sorted, EntryLe) && multiset(sorted) == multiset(entries)
    ensures data == EncodeEntries(sorted, Entry(0, 0)) && count == |entries|
  {
    hide Encode, EntryLe, EncodeEntries;
    EntryOrder();
    NoEntries();
    var list := Sort(entries, EntryLe);
    sorted, count := list, |list|;
    assert count == |multiset(list)| == |multiset(entries)|;
    var prev, buffer := Entry(0, 0), [];
    data := [];
    for i := 0 to |list|
      invariant data + buffer == EncodeEntries(list[..i], Entry(0, 0))
      invariant prev == if i == 0 then Entry(0, 0) else list[i - 1]
    {
      EncodeEntriesAppend(list[..i], list[i], Entry(0, 0));
      assert list[..i + 1] == list[..i] + [list[i]];
      ghost var before := buffer;
      buffer := WriteVarUint(buffer, Sub64(list[i].value, prev.value));
      buffer := WriteVarUint(buffer, Sub64(list[i].address, prev.address));
      assert data + buffer == (data + before) + EncodeEntry(list[i], prev);
      prev := list[i];
      if |buffer| > FLUSH_SIZE {
        data, buffer := data + buffer, [];
      }
    }
    data := data + buffer;
    assert list[..|list|] == list;
  }

  method LoadIndex(data: seq<byte>, count: nat) returns (ok: bool, entries: seq<Entry>)
    ensures ok == ReadEntries(data, Entry(0, 0), count).Some?
    ensures ok ==> entries == ReadEntries(data, Entry(0, 0), count).value
  {
    hide ReadUint;
    var prev, pos: nat := Entry(0, 0), 0;
    ghost var whole := ReadEntries(data, Entry(0, 0), count);
    entries := [];
    assert data[0..] == data && (whole.Some? ==> [] + whole.value == whole.value);
    for i := 0 to count
      invariant pos <= |data|
      invariant match ReadEntries(data[pos..], prev, count - i)
        case None => whole == None
        case Some(more) => whole == Some(entries + more)
    {
      var value: u64, address: u64;
      ok, value, pos := ReadVarUint(data, pos);
      if !ok {
        return;
      }
      ok, address, pos := ReadVarUint(data, pos);
      if !ok {
        return;
      }
      prev := Entry(Add64(prev.value, value), Add64(prev.address, address));
      assert forall more: seq<Entry> :: entries + ([prev] + more) == (entries + [prev]) + more;
      entries := entries + [prev];
    }
    ok := true;
    assert entries + [] == entries;
  }

  /** Loading what was saved returns exactly the collected pairs, sorted. */
  method SaveThenLoad(entries: seq<Entry>) returns (loaded: seq<Entry>)
    ensures SortedBy(loaded, EntryLe) && multiset(loaded) == multiset(entries)
  {
    var data, count, sorted := SaveIndex(entries);
    EntriesRoundTrip(sorted, Entry(0, 0), []);
    assert data + [] == data && |sorted| == |multiset(sorted)| == |multiset(entries)|;
    var ok;
    ok, loaded := LoadIndex(data, count);
  }
}
