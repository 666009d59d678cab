/**
 * Saving the history to, and restoring it from, the application's preference
 * store. The store is a map from keys (all below one prefix) to integer or text
 * values; a hash of the document saved beside the history decides whether the
 * saved offsets still apply to the document found at restore time.
 */
module Persistence {
  import opened Wrappers
  import opened HistoryItems
  import opened History

  /** The keys written below the prefix: `.hash`, `.maxSize`, `.position`, `.size`, `.<i>.start`, `.<i>.before`, `.<i>.after`. */
  datatype Key = HashKey | MaxSizeKey | PositionKey | SizeKey | StartKey(i: int) | BeforeKey(i: int) | AfterKey(i: int)

  datatype Pref = IntPref(n: int) | TextPref(s: string)

  type Store = map<Key, Pref>

  /** `getInt(key, default)`. */
  function GetInt(store: Store, k: Key, default: int): int
  {
    if k in store && store[k].IntPref? then store[k].n else default
  }

  /** `getString(key, null)`. */
  function GetString(store: Store, k: Key): Option<string>
  {
    if k in store && store[k].TextPref? then Some(store[k].s) else None
  }

  /** The saved document hash, if there is one. */
  function GetHash(store: Store): Option<int>
  {
    if HashKey in store && store[HashKey].IntPref? then Some(store[HashKey].n) else None
  }

  const TwoTo32 := 0x1_0000_0000
  const TwoTo31 := 0x8000_0000

  /** Java's 32-bit two's-complement wrap-around of an integer result. */
  function Wrap32(x: int): (r: int)
    ensures -TwoTo31 <= r < TwoTo31
    ensures (x - r) % TwoTo32 == 0
  {
    var m := x % TwoTo32;
    if m >= TwoTo31 then m - TwoTo32 else m
  }

  /** Java's `String.hashCode`: h = 31 * h + c over the characters, in 32-bit arithmetic. */
  function StringHash(s: string): (h: int)
    ensures -TwoTo31 <= h < TwoTo31
  {
    if s == [] then 0 else Wrap32(31 * StringHash(s[..|s| - 1]) + s[|s| - 1] as int)
  }

  /** Two different documents with the same hash. */
  lemma HashCollides()
    ensures "Aa" != "BB" && StringHash("Aa") == StringHash("BB")
  {
    assert "Aa"[..1] == "A" && "BB"[..1] == "B";
    assert "A"[..0] == [] && "B"[..0] == [];
    assert StringHash("A") == 65 && StringHash("B") == 66;
    assert "Aa"[0] != "BB"[0];
  }

  /** What `saveEditorHistoryState` writes before the records. */
  function HeaderPrefs(hash: int, l: Log<Entry>): Store
  {
    map[HashKey := IntPref(hash), MaxSizeKey := IntPref(l.maxSize), PositionKey := IntPref(l.position), SizeKey := IntPref(|l.items|)]
  }

  /** What `saveEditorHistoryState` writes for the records: start, before and after of each, by index. */
  function EntryPrefs(es: seq<Entry>): Store
  {
    if es == [] then map[]
    else
      var n := |es| - 1;
      EntryPrefs(es[..n])[StartKey(n) := IntPref(es[n].start)][BeforeKey(n) := TextPref(es[n].before)][AfterKey(n) := TextPref(es[n].after)]
  }

  /** Record `i` is written under its three keys. */
  lemma {:induction false} EntryPrefsAt(es: seq<Entry>, i: int)
    requires 0 <= i < |es|
    ensures var m := EntryPrefs(es);
      && StartKey(i) in m && m[StartKey(i)] == IntPref(es[i].start)
      && BeforeKey(i) in m && m[BeforeKey(i)] == TextPref(es[i].before)
      && AfterKey(i) in m && m[AfterKey(i)] == TextPref(es[i].after)
  {
    var n := |es| - 1;
    if i < n {
      EntryPrefsAt(es[..n], i);
    }
  }

  /** Nothing but record keys below the number of records is written. */
  lemma {:induction false} EntryPrefsKeys(es: seq<Entry>, k: Key)
    requires k in EntryPrefs(es)
    ensures (k.StartKey? || k.BeforeKey? || k.AfterKey?) && 0 <= k.i < |es|
  {
    var n := |es| - 1;
    if es != [] && k !in {StartKey(n), BeforeKey(n), AfterKey(n)} {
      EntryPrefsKeys(es[..n], k);
    }
  }

  /** The records never overwrite the header. */
  lemma {:induction false} HeaderKeysAreFree(es: seq<Entry>)
    ensures HashKey !in EntryPrefs(es) && MaxSizeKey !in EntryPrefs(es)
    ensures PositionKey !in EntryPrefs(es) && SizeKey !in EntryPrefs(es)
  {
    if es != [] {
      HeaderKeysAreFree(es[..|es| - 1]);
    }
  }

  /** Writing record `i` over a store holding the records before it gives the store holding records up to `i`. */
  lemma WriteNextEntry(head: Store, es: seq<Entry>, i: int)
    requires 0 <= i < |es|
    ensures (head + EntryPrefs(es[..i]))[StartKey(i) := IntPref(es[i].start)][BeforeKey(i) := TextPref(es[i].before)][AfterKey(i) := TextPref(es[i].after)]
         == head + EntryPrefs(es[..i + 1])
  {
    assert es[..i + 1][..i] == es[..i];
  }

  /** Everything a save writes, for a document with hash `hash` and a log `l`. */
  function Encode(hash: int, l: Log<Entry>): (r: Store)
    ensures GetHash(r) == Some(hash) && GetInt(r, SizeKey, -1) == |l.items|
    ensures GetInt(r, MaxSizeKey, -1) == l.maxSize && GetInt(r, PositionKey, -1) == l.position
  {
    HeaderKeysAreFree(l.items);
    HeaderPrefs(hash, l) + EntryPrefs(l.items)
  }

  /** A save writes the four header keys and the three keys of each record, and no other key. */
  lemma EncodeKeys(hash: int, l: Log<Entry>, k: Key)
    ensures k in Encode(hash, l) <==>
      || k.HashKey? || k.MaxSizeKey? || k.PositionKey? || k.SizeKey?
      || ((k.StartKey? || k.BeforeKey? || k.AfterKey?) && 0 <= k.i < |l.items|)
  {
    if k in EntryPrefs(l.items) {
      EntryPrefsKeys(l.items, k);
    }
    if (k.StartKey? || k.BeforeKey? || k.AfterKey?) && 0 <= k.i < |l.items| {
      EntryPrefsAt(l.items, k.i);
    }
  }

  /** Writing the header and then the records over a store writes what `Encode` says. */
  lemma WriteAll(store: Store, hash: int, l: Log<Entry>)
    ensures store + HeaderPrefs(hash, l) + EntryPrefs(l.items) == store + Encode(hash, l)
  {
  }

  /** Reads record `i`; a start of -1 (the default) or a missing text makes it unreadable. */
  function ReadEntry(store: Store, i: int): (r: Option<Entry>)
    ensures r.Some? <==> GetInt(store, StartKey(i), -1) != -1 && GetString(store, BeforeKey(i)).Some? && GetString(store, AfterKey(i)).Some?
  {
    var start := GetInt(store, StartKey(i), -1);
    var before := GetString(store, BeforeKey(i));
    var after := GetString(store, AfterKey(i));
    if start == -1 || before.None? || after.None? then None
    else Some(Entry(start, before.value, after.value))
  }

  /** Reads records 0 .. count-1 in order, failing at the first unreadable one. */
  function ReadEntries(store: Store, count: int): (r: Option<seq<Entry>>)
    ensures r.Some? ==> |r.value| == Max(count, 0)
    decreases count
  {
    if count <= 0 then Some([])
    else match ReadEntries(store, count - 1)
      case None => None
      case Some(es) =>
        match ReadEntry(store, count - 1)
        case None => None
        case Some(e) => Some(es + [e])
  }

  /**
   * The records below `count` that read back before the first one that does
   * not: all of them when the read succeeds.
   */
  function ReadablePrefix(store: Store, count: int): (r: seq<Entry>)
    ensures ReadEntries(store, count).Some? ==> r == ReadEntries(store, count).value
    decreases count
  {
    if count <= 0 then []
    else match ReadEntries(store, count - 1)
      case None => ReadablePrefix(store, count - 1)
      case Some(es) =>
        match ReadEntry(store, count - 1)
        case None => es
        case Some(e) => es + [e]
  }

  /** The readable prefix stops at the first unreadable record below `count`. */
  lemma {:induction false} StopsAtUnreadable(store: Store, count: int, i: nat, es: seq<Entry>)
    requires i < count && ReadEntries(store, i) == Some(es) && ReadEntry(store, i).None?
    ensures ReadablePrefix(store, count) == es
    decreases count
  {
    if i < count - 1 {
      UnreadableEntryFails(store, count - 1, i);
      StopsAtUnreadable(store, count - 1, i, es);
    }
  }

  /** The log built by adding the records one by one, as restoring does. */
  function AddAll(l: Log<Entry>, es: seq<Entry>): (r: Log<Entry>)
    requires 0 <= l.position
    ensures 0 <= r.position && r.maxSize == l.maxSize
  {
    if es == [] then l else Added(AddAll(l, es[..|es| - 1]), es[|es| - 1])
  }

  /** Reading one more record extends the records read so far. */
  lemma ReadOneMore(store: Store, i: nat, es: seq<Entry>)
    requires ReadEntries(store, i) == Some(es) && ReadEntry(store, i).Some?
    ensures ReadEntries(store, i + 1) == Some(es + [ReadEntry(store, i).value])
  {
  }

  /** Adding one more record to the ones added so far. */
  lemma AddOneMore(l: Log<Entry>, es: seq<Entry>, e: Entry)
    requires 0 <= l.position
    ensures AddAll(l, es + [e]) == Added(AddAll(l, es), e)
  {
    assert (es + [e])[..|es|] == es;
  }

  /** The four outcomes of restoring. */
  datatype Restoration =
    | NoSavedState          // no hash saved: returns true, the log is left as it was
    | HashMismatch          // the document changed since the save: returns false
    | Corrupt(log: Log<Entry>) // a size, record or position is missing: returns false, leaving this log
    | Restored(log: Log<Entry>)

  /**
   * `restoreEditorHistoryStateInternal` as a function of the store and the hash
   * of the current document: the checks, in the order the code makes them.
   */
  function Decode(store: Store, docHash: int): (r: Restoration)
    ensures r == NoSavedState <==> GetHash(store).None?
    ensures r == HashMismatch <==> GetHash(store).Some? && GetHash(store).value != docHash
    ensures r.Corrupt? || r.Restored? ==> r.log.maxSize == GetInt(store, MaxSizeKey, -1)
    ensures r.Restored? ==>
      && GetInt(store, SizeKey, -1) != -1 && ReadEntries(store, GetInt(store, SizeKey, -1)).Some?
      && r.log.position == GetInt(store, PositionKey, -1) != -1
  {
    match GetHash(store)
    case None => NoSavedState
    case Some(h) =>
      if h != docHash then HashMismatch
      else
        var maxSize := GetInt(store, MaxSizeKey, -1);
        var count := GetInt(store, SizeKey, -1);
        if count == -1 then Corrupt(Log([], 0, maxSize))
        else match ReadEntries(store, count)
          case None => Corrupt(AddAll(Log([], 0, maxSize), ReadablePrefix(store, count)))
          case Some(es) =>
            var position := GetInt(store, PositionKey, -1);
            if position == -1 then Corrupt(Log(AddAll(Log([], 0, maxSize), es).items, -1, maxSize))
            else Restored(Log(AddAll(Log([], 0, maxSize), es).items, position, maxSize))
  }

  /** Adding records one by one to an empty log that can hold them all gives exactly those records, all applied. */
  lemma {:induction false} AddAllFromEmpty(es: seq<Entry>, maxSize: int)
    requires maxSize < 0 || |es| <= maxSize
    ensures AddAll(Log([], 0, maxSize), es) == Log(es, |es|, maxSize)
  {
    if es != [] {
      var n := |es| - 1;
      AddAllFromEmpty(es[..n], maxSize);
      assert es[..n] + [es[n]] == es;
    }
  }

  /** The store holds the records of `es` under their indexes, each readable. */
  predicate HoldsEntries(store: Store, es: seq<Entry>)
  {
    forall i :: 0 <= i < |es| ==>
      && es[i].start != -1
      && GetInt(store, StartKey(i), -1) == es[i].start
      && GetString(store, BeforeKey(i)) == Some(es[i].before)
      && GetString(store, AfterKey(i)) == Some(es[i].after)
  }

  lemma {:induction false} ReadsBack(store: Store, es: seq<Entry>, n: nat)
    requires HoldsEntries(store, es) && n <= |es|
    ensures ReadEntries(store, n) == Some(es[..n])
  {
    if n > 0 {
      ReadsBack(store, es, n - 1);
      assert ReadEntry(store, n - 1) == Some(es[n - 1]);
      assert es[..n - 1] + [es[n - 1]] == es[..n];
    }
  }

  /** An unreadable record anywhere below `count` makes the whole read fail. */
  lemma {:induction false} UnreadableEntryFails(store: Store, count: int, i: int)
    requires 0 <= i < count && ReadEntry(store, i).None?
    ensures ReadEntries(store, count).None?
    decreases count
  {
    if i < count - 1 {
      UnreadableEntryFails(store, count - 1, i);
    }
  }

  /** A saved header reads back as written, whatever else the store held. */
  lemma HeaderReadsBack(other: Store, hash: int, l: Log<Entry>)
    ensures var store := other + Encode(hash, l);
      && GetHash(store) == Some(hash)
      && GetInt(store, MaxSizeKey, -1) == l.maxSize
      && GetInt(store, SizeKey, -1) == |l.items|
      && GetInt(store, PositionKey, -1) == l.position
  {
    HeaderKeysAreFree(l.items);
  }

  /** Saved records read back as written, whatever else the store held. */
  lemma EntriesReadBack(other: Store, hash: int, l: Log<Entry>)
    requires forall i :: 0 <= i < |l.items| ==> l.items[i].start != -1
    ensures HoldsEntries(other + Encode(hash, l), l.items)
  {
    var store := other + Encode(hash, l);
    forall i | 0 <= i < |l.items|
      ensures GetInt(store, StartKey(i), -1) == l.items[i].start
      ensures GetString(store, BeforeKey(i)) == Some(l.items[i].before)
      ensures GetString(store, AfterKey(i)) == Some(l.items[i].after)
    {
      EntryPrefsAt(l.items, i);
    }
  }

  /** A store whose checks all pass restores the log built from its records. */
  lemma DecodeAccepts(store: Store, docHash: int, es: seq<Entry>)
    requires GetHash(store) == Some(docHash)
    requires GetInt(store, SizeKey, -1) != -1 && GetInt(store, PositionKey, -1) != -1
    requires ReadEntries(store, GetInt(store, SizeKey, -1)) == Some(es)
    ensures var maxSize := GetInt(store, MaxSizeKey, -1);
      Decode(store, docHash) == Restored(Log(AddAll(Log([], 0, maxSize), es).items, GetInt(store, PositionKey, -1), maxSize))
  {
  }

  /**
   * Saving a valid log and restoring it against a document with the same hash
   * gives back the same records, position and bound, whatever else the store
   * held. Records whose start is -1 cannot be told from missing ones.
   */
  lemma SaveThenRestore(other: Store, hash: int, l: Log<Entry>)
    requires l.Valid()
    requires forall i :: 0 <= i < |l.items| ==> l.items[i].start != -1
    ensures Decode(other + Encode(hash, l), hash) == Restored(l)
  {
    var store := other + Encode(hash, l);
    HeaderReadsBack(other, hash, l);
    EntriesReadBack(other, hash, l);
    ReadsBack(store, l.items, |l.items|);
    assert l.items[..|l.items|] == l.items;
    DecodeAccepts(store, hash, l.items);
    AddAllFromEmpty(l.items, l.maxSize);
  }

  /** Restoring with no saved hash finds nothing to restore. */
  lemma NoHashMeansNothingSaved(store: Store, docHash: int)
    requires HashKey !in store
    ensures Decode(store, docHash) == NoSavedState
  {
  }

  /** Restoring against a document whose hash differs from the saved one fails. */
  lemma ChangedDocumentIsRejected(store: Store, docHash: int)
    requires GetHash(store).Some? && GetHash(store).value != docHash
    ensures Decode(store, docHash) == HashMismatch
  {
  }

  /**
   * Once the hash matches, a missing size, an unreadable record below the size,
   * or a missing position each make the restore fail.
   */
  lemma MissingFieldsAreRejected(store: Store, docHash: int, i: int)
    requires GetHash(store) == Some(docHash)
    requires || SizeKey !in store
             || (0 <= i < GetInt(store, SizeKey, -1) && ReadEntry(store, i).None?)
             || PositionKey !in store
    ensures Decode(store, docHash).Corrupt?
    ensures Decode(store, docHash).log.maxSize == GetInt(store, MaxSizeKey, -1)
  {
    if 0 <= i < GetInt(store, SizeKey, -1) && ReadEntry(store, i).None? {
      UnreadableEntryFails(store, GetInt(store, SizeKey, -1), i);
    }
  }

  /**
   * A restore that meets an unreadable record leaves the records before it,
   * added one by one under the saved bound.
   */
  lemma UnreadableEntryKeepsEarlier(store: Store, docHash: int, i: nat, es: seq<Entry>)
    requires GetHash(store) == Some(docHash)
    requires i < GetInt(store, SizeKey, -1)
    requires ReadEntries(store, i) == Some(es) && ReadEntry(store, i).None?
    ensures Decode(store, docHash) == Corrupt(AddAll(Log([], 0, GetInt(store, MaxSizeKey, -1)), es))
  {
    UnreadableEntryFails(store, GetInt(store, SizeKey, -1), i);
    StopsAtUnreadable(store, GetInt(store, SizeKey, -1), i, es);
  }

  /**
   * A restore whose records all read back, within the saved bound, but whose
   * position is missing leaves every record in the log, with the position at -1.
   */
  lemma MissingPositionKeepsRecords(store: Store, docHash: int, es: seq<Entry>)
    requires GetHash(store) == Some(docHash) && PositionKey !in store
    requires GetInt(store, SizeKey, -1) != -1 && ReadEntries(store, GetInt(store, SizeKey, -1)) == Some(es)
    requires GetInt(store, MaxSizeKey, -1) < 0 || |es| <= GetInt(store, MaxSizeKey, -1)
    ensures Decode(store, docHash) == Corrupt(Log(es, -1, GetInt(store, MaxSizeKey, -1)))
  {
    AddAllFromEmpty(es, GetInt(store, MaxSizeKey, -1));
  }

  /**
   * The hash is only a fence: a history saved against "Aa" is restored onto the
   * different document "BB", whose hash is the same.
   */
  lemma CollisionIsAccepted(other: Store, l: Log<Entry>)
    requires l.Valid()
    requires forall i :: 0 <= i < |l.items| ==> l.items[i].start != -1
    ensures Decode(other + Encode(StringHash("Aa"), l), StringHash("BB")) == Restored(l)
  {
    HashCollides();
    SaveThenRestore(other, StringHash("Aa"), l);
  }

  /**
   * The restored position is not checked against the number of records: a store
   * claiming position 5 over one record restores into a log that is not valid.
   */
  lemma PositionIsNotChecked(e: Entry)
    requires e.start != -1
    ensures var store := map[HashKey := IntPref(0), SizeKey := IntPref(1), PositionKey := IntPref(5),
                             StartKey(0) := IntPref(e.start), BeforeKey(0) := TextPref(e.before), AfterKey(0) := TextPref(e.after)];
      var d := Decode(store, 0);
      d.Restored? && d.log == Log([e], 5, -1) && !d.log.Valid()
  {
    var store := map[HashKey := IntPref(0), SizeKey := IntPref(1), PositionKey := IntPref(5),
                     StartKey(0) := IntPref(e.start), BeforeKey(0) := TextPref(e.before), AfterKey(0) := TextPref(e.after)];
    assert ReadEntries(store, 0) == Some([]);
    assert ReadEntry(store, 0) == Some(e);
    assert [] + [e] == [e];
    assert ReadEntries(store, 1) == Some([e]);
    AddAllFromEmpty([e], -1);
  }
}
