/**
 * The hash value: a dynamic value whose payload maps text keys to references
 * the hash owns.  The hash primitive underneath is taken as the insertion
 * ordered sequence of entries with distinct keys it stands for: a new key goes
 * to the end, an existing key keeps its place, and teardown releases every
 * value in order.
 */
module Hashes {
  import opened DynamicValues
  import opened Scalars
  import Arrays

  /** A fresh hash: count 1, kind HASH, no entries. */
  function NewHashCell(): Cell {
    Cell(1, DV_HASH, HashBody([]))
  }

  /** dtl_hv_new */
  function NewHash(m: Mem): (res: (Mem, Ref))
  {
    Allocate(m, NewHashCell())
  }

  lemma NewHashIsEmpty(m: Mem)
    requires WF(m)
    ensures var (m', hv) := NewHash(m);
      && hv != NULL && hv !in m.cells && WF(m') && HashAt(m', hv)
      && m'.cells[hv].refCnt == 1 && DvType(m', hv) == DV_HASH && Entries(m', hv) == []
      && forall x | x in m.cells :: x in m'.cells && m'.cells[x] == m.cells[x]
  {
    AllocateFresh(m, NewHashCell());
  }

  /** A live hash (never at the NULL address). */
  predicate HashAt(m: Mem, hv: Ref) {
    hv != NULL && hv in m.cells && m.cells[hv].body.HashBody?
  }

  predicate HashOrNull(m: Mem, hv: Ref) {
    hv == NULL || HashAt(m, hv)
  }

  function Entries(m: Mem, hv: Ref): seq<Entry>
    requires HashAt(m, hv)
  {
    m.cells[hv].body.entries
  }

  function WithEntries(m: Mem, hv: Ref, es: seq<Entry>): (m': Mem)
    requires HashAt(m, hv)
    ensures HashAt(m', hv) && Entries(m', hv) == es && m'.cells.Keys == m.cells.Keys
    ensures m'.cells[hv].refCnt == m.cells[hv].refCnt && m'.cells[hv].flags == m.cells[hv].flags
  {
    m.(cells := m.cells[hv := m.cells[hv].(body := HashBody(es))])
  }

  // ---------------------------------------------------------------------------
  // The entry sequence
  // ---------------------------------------------------------------------------

  /** The position of key `k`, if present. */
  function IndexOf(es: seq<Entry>, k: string): (r: Option<nat>)
    ensures r.Some? ==> r.value < |es| && es[r.value].key == k
    ensures r.None? ==> forall i | 0 <= i < |es| :: es[i].key != k
  {
    if es == [] then None
    else if es[0].key == k then Some(0)
    else match IndexOf(es[1..], k)
      case None => None
      case Some(i) => Some(i + 1)
  }

  /** The value stored under `k`, if present. */
  function Lookup(es: seq<Entry>, k: string): (r: Option<Ref>)
    ensures r.Some? <==> exists i | 0 <= i < |es| :: es[i].key == k
  {
    match IndexOf(es, k)
    case None => None
    case Some(i) => Some(es[i].value)
  }

  function KeysOf(es: seq<Entry>): (ks: seq<string>)
    ensures |ks| == |es| && forall i | 0 <= i < |es| :: ks[i] == es[i].key
  {
    if es == [] then [] else [es[0].key] + KeysOf(es[1..])
  }

  /** adt_hash_set: overwrite in place, or append a new entry. */
  function Store(es: seq<Entry>, k: string, v: Ref): seq<Entry>
  {
    match IndexOf(es, k)
    case Some(i) => es[i := Entry(k, v)]
    case None => es + [Entry(k, v)]
  }

  /** adt_hash_remove: the entry under `k` taken out, the others kept in order. */
  function Removed(es: seq<Entry>, k: string): seq<Entry>
  {
    match IndexOf(es, k)
    case Some(i) => es[..i] + es[i + 1..]
    case None => es
  }

  /** After a store, `k` holds `v`, every other key is as before, and keys stay distinct. */
  lemma StoreThenLookup(es: seq<Entry>, k: string, v: Ref, k': string)
    requires UniqueKeys(es)
    ensures UniqueKeys(Store(es, k, v))
    ensures Lookup(Store(es, k, v), k) == Some(v)
    ensures k' != k ==> Lookup(Store(es, k, v), k') == Lookup(es, k')
    ensures KeysOf(Store(es, k, v)) == if IndexOf(es, k).Some? then KeysOf(es) else KeysOf(es) + [k]
  {
    match IndexOf(es, k)
    case Some(i) => StoreOverwrites(es, k, v, i, k');
    case None => StoreAppends(es, k, v, k');
  }

  lemma StoreOverwrites(es: seq<Entry>, k: string, v: Ref, i: nat, k': string)
    requires UniqueKeys(es) && IndexOf(es, k) == Some(i)
    ensures var t := es[i := Entry(k, v)];
      && UniqueKeys(t) && Lookup(t, k) == Some(v)
      && (k' != k ==> Lookup(t, k') == Lookup(es, k'))
      && KeysOf(t) == KeysOf(es)
  {
    var t := es[i := Entry(k, v)];
    SameKeysUnique(es, i, Entry(k, v));
    UniqueIndex(t, k);
    if k' != k {
      OverwriteOther(es, i, Entry(k, v), k');
    }
  }

  /** Replacing an entry by one with the same key keeps the keys, so they stay distinct. */
  lemma SameKeysUnique(es: seq<Entry>, i: nat, e: Entry)
    requires UniqueKeys(es) && i < |es| && e.key == es[i].key
    ensures UniqueKeys(es[i := e]) && KeysOf(es[i := e]) == KeysOf(es)
  {
    var t := es[i := e];
    assert forall p | 0 <= p < |t| :: t[p].key == es[p].key;
  }

  /** Replacing the entry at `i` leaves the lookup of every other key alone. */
  lemma OverwriteOther(es: seq<Entry>, i: nat, e: Entry, k': string)
    requires UniqueKeys(es) && i < |es| && e.key == es[i].key && e.key != k'
    ensures Lookup(es[i := e], k') == Lookup(es, k')
  {
    var t := es[i := e];
    match IndexOf(es, k')
    case None =>
      assert forall p | 0 <= p < |t| :: t[p].key == es[p].key;
    case Some(j) =>
      assert t[j] == es[j];
      SameKeysUnique(es, i, e);
      UniqueIndex(t, k');
  }

  lemma StoreAppends(es: seq<Entry>, k: string, v: Ref, k': string)
    requires UniqueKeys(es) && IndexOf(es, k) == None
    ensures var t := es + [Entry(k, v)];
      && UniqueKeys(t) && Lookup(t, k) == Some(v)
      && (k' != k ==> Lookup(t, k') == Lookup(es, k'))
      && KeysOf(t) == KeysOf(es) + [k]
  {
    var t := es + [Entry(k, v)];
    assert t[|es|].key == k;
    AppendUnique(es, Entry(k, v));
    UniqueIndex(t, k);
    if k' != k {
      AppendOther(es, Entry(k, v), k');
    }
  }

  /** Appending an entry under a new key keeps the keys distinct. */
  lemma AppendUnique(es: seq<Entry>, e: Entry)
    requires UniqueKeys(es) && IndexOf(es, e.key) == None
    ensures UniqueKeys(es + [e]) && KeysOf(es + [e]) == KeysOf(es) + [e.key]
  {
    var t := es + [e];
    assert forall p | 0 <= p < |es| :: t[p] == es[p];
  }

  /** Appending an entry leaves the lookup of every other key alone. */
  lemma AppendOther(es: seq<Entry>, e: Entry, k': string)
    requires UniqueKeys(es) && IndexOf(es, e.key) == None && e.key != k'
    ensures Lookup(es + [e], k') == Lookup(es, k')
  {
    var t := es + [e];
    match IndexOf(es, k')
    case None =>
      assert forall p | 0 <= p < |es| :: t[p] == es[p];
    case Some(j) =>
      assert t[j] == es[j];
      AppendUnique(es, e);
      UniqueIndex(t, k');
  }

  /** After a removal `k` is absent, every other key is as before, and keys stay distinct. */
  lemma RemoveThenLookup(es: seq<Entry>, k: string, k': string)
    requires UniqueKeys(es)
    ensures UniqueKeys(Removed(es, k))
    ensures Lookup(Removed(es, k), k) == None
    ensures k' != k ==> Lookup(Removed(es, k), k') == Lookup(es, k')
    ensures |Removed(es, k)| == if IndexOf(es, k).Some? then |es| - 1 else |es|
  {
    match IndexOf(es, k)
    case None =>
    case Some(i) => RemoveAt(es, k, i, k');
  }

  lemma RemoveAt(es: seq<Entry>, k: string, i: nat, k': string)
    requires UniqueKeys(es) && IndexOf(es, k) == Some(i)
    ensures var t := es[..i] + es[i + 1..];
      && UniqueKeys(t) && Lookup(t, k) == None
      && (k' != k ==> Lookup(t, k') == Lookup(es, k'))
  {
    var t := es[..i] + es[i + 1..];
    DropAt(es, i);
    DropKeepsUnique(es, i);
    forall p | 0 <= p < |t|
      ensures t[p].key != k
    {
      if p >= i {
        assert es[p + 1].key != es[i].key;
      }
    }
    if k' != k {
      LookupAfterRemove(es, i, k');
    }
  }

  /** Dropping index `i` shifts every later entry down by one. */
  lemma DropAt(es: seq<Entry>, i: nat)
    requires i < |es|
    ensures var t := es[..i] + es[i + 1..];
      |t| == |es| - 1 && forall p | 0 <= p < |t| :: t[p] == if p < i then es[p] else es[p + 1]
  {
  }

  lemma DropKeepsUnique(es: seq<Entry>, i: nat)
    requires UniqueKeys(es) && i < |es|
    ensures UniqueKeys(es[..i] + es[i + 1..])
  {
    var t := es[..i] + es[i + 1..];
    DropAt(es, i);
    forall a, b | 0 <= a < b < |t|
      ensures t[a].key != t[b].key
    {
      assert t[a] == if a < i then es[a] else es[a + 1];
      assert t[b] == if b < i then es[b] else es[b + 1];
    }
  }

  lemma LookupAfterRemove(es: seq<Entry>, i: nat, k': string)
    requires UniqueKeys(es) && i < |es| && es[i].key != k'
    ensures Lookup(es[..i] + es[i + 1..], k') == Lookup(es, k')
  {
    var t := es[..i] + es[i + 1..];
    DropAt(es, i);
    match IndexOf(es, k')
    case None =>
    case Some(j) =>
      var p := if j < i then j else j - 1;
      assert t[p] == es[j];
      UniqueIndex(es, k');
      DropKeepsUnique(es, i);
      UniqueIndex(t, k');
  }

  /** With distinct keys, the position of a key is the one index holding it. */
  lemma UniqueIndex(es: seq<Entry>, k: string)
    requires UniqueKeys(es)
    ensures forall i | 0 <= i < |es| && es[i].key == k :: IndexOf(es, k) == Some(i)
  {
  }

  /** A key not yet present goes to the end, so its value is the last one released. */
  lemma StoreNewValues(es: seq<Entry>, k: string, v: Ref)
    requires IndexOf(es, k).None?
    ensures Values(Store(es, k, v)) == Values(es) + [v]
  {
  }

  // ---------------------------------------------------------------------------
  // Operations
  // ---------------------------------------------------------------------------

  /** The value currently stored under `k`, NULL when absent. */
  function Occupant(m: Mem, hv: Ref, k: string): Ref
    requires HashAt(m, hv)
  {
    match Lookup(Entries(m, hv), k)
    case None => NULL
    case Some(v) => v
  }

  /**
   * dtl_hv_set_cstr: a different occupant is released first; then `v` is
   * stored under `k`, and retained when `retain` is set.
   */
  function AfterSetCstr(m: Mem, hv: Ref, k: string, v: Ref, retain: bool): Mem
    requires HashOrNull(m, hv)
  {
    if hv == NULL then m
    else
      var cur := Occupant(m, hv, k);
      var m1 := if cur != NULL && cur != v then AfterDecRef(m, cur) else m;
      var m2 := if HashAt(m1, hv) then WithEntries(m1, hv, Store(Entries(m1, hv), k, v)) else m1;
      if retain then AfterIncRef(m2, v) else m2
  }

  /**
   * dtl_hv_set_cstr as written: the pointer handed to the release is the slot
   * inside the hash table, not the value stored in it, so no value is released;
   * the count it lowers lies in the table's own memory, outside this model.
   */
  function AfterSetCstrSlot(m: Mem, hv: Ref, k: string, v: Ref, retain: bool): Mem
    requires HashOrNull(m, hv)
  {
    if hv == NULL then m
    else
      var m2 := WithEntries(m, hv, Store(Entries(m, hv), k, v));
      if retain then AfterIncRef(m2, v) else m2
  }

  /**
   * Overwriting a key whose value has the hash as its only owner: as written,
   * the old value keeps its count and leaks; releasing the stored value frees it.
   * The kind NULL only keeps the teardown short.
   */
  lemma SetSlotLeaksOccupant(m: Mem, hv: Ref, k: string, v: Ref, retain: bool)
    requires HashAt(m, hv)
    requires var o := Occupant(m, hv, k);
      o != NULL && o != v && o != hv && o != UNDEF && o in m.cells
      && m.cells[o].refCnt == 1 && Kind(m.cells[o]) == DV_NULL
    ensures var o := Occupant(m, hv, k);
      var m' := AfterSetCstrSlot(m, hv, k, v, retain);
      && HashAt(m', hv) && Entries(m', hv) == Store(Entries(m, hv), k, v)
      && o in m'.cells && m'.cells[o].refCnt == 1
    ensures Occupant(m, hv, k) !in AfterSetCstr(m, hv, k, v, retain).cells
  {
    DecRefFreesNullKind(m, Occupant(m, hv, k));
  }

  /** Replacing the entries of a hash by entries with distinct keys keeps memory well formed. */
  lemma WithEntriesKeepsWF(m: Mem, hv: Ref, es: seq<Entry>)
    requires WF(m) && HashAt(m, hv) && UniqueKeys(es)
    ensures WF(WithEntries(m, hv, es))
  {
    assert CellOk(m.cells[hv]);
  }

  /** Storing under a key keeps memory well formed. */
  lemma StoreKeepsWF(m: Mem, hv: Ref, k: string, v: Ref)
    requires WF(m) && HashAt(m, hv)
    ensures WF(WithEntries(m, hv, Store(Entries(m, hv), k, v)))
  {
    assert CellOk(m.cells[hv]);
    StoreThenLookup(Entries(m, hv), k, v, k);
    WithEntriesKeepsWF(m, hv, Store(Entries(m, hv), k, v));
  }

  /** set_cstr keeps memory well formed. */
  lemma SetCstrKeepsWF(m: Mem, hv: Ref, k: string, v: Ref, retain: bool)
    requires WF(m) && HashOrNull(m, hv)
    ensures WF(AfterSetCstr(m, hv, k, v, retain))
  {
    if hv != NULL {
      var cur := Occupant(m, hv, k);
      var m1 := if cur != NULL && cur != v then AfterDecRef(m, cur) else m;
      ShrinksKeepsWF(m, m1);
      if HashAt(m1, hv) {
        StoreKeepsWF(m1, hv, k, v);
        IncRefKeepsWF(WithEntries(m1, hv, Store(Entries(m1, hv), k, v)), v);
      } else {
        IncRefKeepsWF(m1, v);
      }
    }
  }

  /** remove_cstr keeps memory well formed. */
  lemma RemoveKeepsWF(m: Mem, hv: Ref, k: string)
    requires WF(m) && HashOrNull(m, hv)
    ensures WF(RemoveCstr(m, hv, k).0)
  {
    if hv != NULL {
      assert CellOk(m.cells[hv]);
      RemoveThenLookup(Entries(m, hv), k, k);
      WithEntriesKeepsWF(m, hv, Removed(Entries(m, hv), k));
    }
  }

  /** dtl_hv_get_cstr: the stored value or NULL. */
  function GetCstr(m: Mem, hv: Ref, k: string): (v: Ref)
    requires HashOrNull(m, hv)
    ensures hv == NULL || Lookup(Entries(m, hv), k).None? ==> v == NULL
    ensures hv != NULL && Lookup(Entries(m, hv), k).Some? ==> v == Lookup(Entries(m, hv), k).value
  {
    if hv == NULL then NULL else Occupant(m, hv, k)
  }

  /** dtl_hv_remove_cstr: the entry goes, its value comes back unreleased. */
  function RemoveCstr(m: Mem, hv: Ref, k: string): (res: (Mem, Ref))
    requires HashOrNull(m, hv)
  {
    if hv == NULL then (m, NULL)
    else (WithEntries(m, hv, Removed(Entries(m, hv), k)), Occupant(m, hv, k))
  }

  /** dtl_hv_length: 0 for a NULL hash. */
  function Length(m: Mem, hv: Ref): (n: nat)
    requires HashOrNull(m, hv)
    ensures n == if hv == NULL then 0 else |KeysOf(Entries(m, hv))|
  {
    if hv == NULL then 0 else |Entries(m, hv)|
  }

  /** dtl_hv_exists_cstr */
  function ExistsCstr(m: Mem, hv: Ref, k: string): (b: bool)
    requires HashOrNull(m, hv)
    ensures b <==> hv != NULL && k in KeysOf(Entries(m, hv))
  {
    hv != NULL && IndexOf(Entries(m, hv), k).Some?
  }

  /** Pushing one new string scalar per key onto the array at `av`. */
  function PushKeys(m: Mem, av: Ref, ks: seq<string>): Mem
    requires Arrays.ArrayAt(m, av)
    decreases |ks|
  {
    if ks == [] then m
    else
      var (m1, r) := MakeText(m, ks[0]);
      if Arrays.ArrayAt(m1, av) then PushKeys(Arrays.AfterPush(m1, av, r, false), av, ks[1..]) else m1
  }

  /**
   * dtl_hv_keys: a new array, cleared when there are keys, then one new
   * string scalar per key pushed without retain; NULL for a NULL hash.
   */
  function Keys(m: Mem, hv: Ref): (res: (Mem, Ref))
    requires WF(m) && HashOrNull(m, hv)
  {
    if hv == NULL then (m, NULL)
    else
      var ks := KeysOf(Entries(m, hv));
      var (m1, av) := Arrays.NewArray(m);
      Arrays.NewArrayIsEmpty(m);
      if |ks| > 0 then
        var m2 := Arrays.AfterClear(m1, av);
        (if Arrays.ArrayAt(m2, av) then PushKeys(m2, av, ks) else m2, av)
      else (m1, av)
  }

  // ---------------------------------------------------------------------------
  // Laws
  // ---------------------------------------------------------------------------

  /**
   * Storing under a new key releases nothing; the value gains one reference
   * exactly when `retain` is set.
   */
  lemma SetNewKey(m: Mem, hv: Ref, k: string, v: Ref, retain: bool)
    requires HashAt(m, hv) && Lookup(Entries(m, hv), k).None? && v != hv
    ensures var m' := AfterSetCstr(m, hv, k, v, retain);
      && HashAt(m', hv) && Entries(m', hv) == Entries(m, hv) + [Entry(k, v)]
      && (v in m.cells && v != NULL ==>
            v in m'.cells && m'.cells[v].refCnt == m.cells[v].refCnt + (if retain then 1 else 0))
      && forall x | x in m.cells && x != hv && x != v :: x in m'.cells && m'.cells[x] == m.cells[x]
  {
  }

  /**
   * Storing over a different occupant that other owners still hold lowers its
   * count by exactly one and leaves the key in its place.
   */
  lemma SetReleasesOldOccupant(m: Mem, hv: Ref, k: string, v: Ref, retain: bool)
    requires HashAt(m, hv)
    requires var o := Occupant(m, hv, k);
      o != NULL && o != v && o != hv && o != UNDEF && o in m.cells && m.cells[o].refCnt >= 2
    ensures var o := Occupant(m, hv, k);
      var m' := AfterSetCstr(m, hv, k, v, retain);
      && HashAt(m', hv) && Entries(m', hv) == Store(Entries(m, hv), k, v)
      && o in m'.cells && m'.cells[o].refCnt == m.cells[o].refCnt - 1
      && KeysOf(Entries(m', hv)) == KeysOf(Entries(m, hv))
  {
    var o := Occupant(m, hv, k);
    DecRefShared(m, o);
    var i := IndexOf(Entries(m, hv), k).value;
    assert Store(Entries(m, hv), k, v) == Entries(m, hv)[i := Entry(k, v)];
  }

  /**
   * Storing the value a key already holds releases nothing; with `retain` it
   * still gains a reference.
   */
  lemma SetSameValue(m: Mem, hv: Ref, k: string, v: Ref, retain: bool)
    requires HashAt(m, hv) && Lookup(Entries(m, hv), k) == Some(v) && v != hv && v != NULL && v in m.cells
    ensures var m' := AfterSetCstr(m, hv, k, v, retain);
      && HashAt(m', hv) && Entries(m', hv) == Entries(m, hv)
      && m'.cells[v].refCnt == m.cells[v].refCnt + (if retain then 1 else 0)
  {
    var es := Entries(m, hv);
    var i := IndexOf(es, k).value;
    assert es[i := Entry(k, v)] == es;
  }

  /** remove hands back the stored value with its count untouched and drops the key. */
  lemma RemoveTransfers(m: Mem, hv: Ref, k: string)
    requires HashAt(m, hv) && UniqueKeys(Entries(m, hv))
    ensures var (m', v) := RemoveCstr(m, hv, k);
      && v == GetCstr(m, hv, k)
      && HashAt(m', hv) && GetCstr(m', hv, k) == NULL && !ExistsCstr(m', hv, k)
      && (forall k' | k' != k :: GetCstr(m', hv, k') == GetCstr(m, hv, k'))
      && forall x | x in m.cells :: x in m'.cells && m'.cells[x].refCnt == m.cells[x].refCnt
  {
    var es := Entries(m, hv);
    RemoveThenLookup(es, k, k);
    forall k' | k' != k
      ensures GetCstr(RemoveCstr(m, hv, k).0, hv, k') == GetCstr(m, hv, k')
    {
      RemoveThenLookup(es, k, k');
    }
  }

  /** get after set returns the value stored; other keys are unaffected. */
  lemma SetThenGet(m: Mem, hv: Ref, k: string, v: Ref, retain: bool, k': string)
    requires HashAt(m, hv) && UniqueKeys(Entries(m, hv))
    requires var o := Occupant(m, hv, k); o == NULL || o == v || o == UNDEF || o !in m.cells || m.cells[o].refCnt >= 2
    ensures var m' := AfterSetCstr(m, hv, k, v, retain);
      && HashAt(m', hv) && GetCstr(m', hv, k) == v && ExistsCstr(m', hv, k)
      && (k' != k ==> GetCstr(m', hv, k') == GetCstr(m, hv, k'))
  {
    SetStores(m, hv, k, v, retain);
    StoreThenLookup(Entries(m, hv), k, v, k');
    StoreThenLookup(Entries(m, hv), k, v, k);
  }

  /** A store whose old occupant survives its release writes exactly the entry. */
  lemma SetStores(m: Mem, hv: Ref, k: string, v: Ref, retain: bool)
    requires HashAt(m, hv)
    requires var o := Occupant(m, hv, k); o == NULL || o == v || o == UNDEF || o !in m.cells || m.cells[o].refCnt >= 2
    ensures var m' := AfterSetCstr(m, hv, k, v, retain);
      HashAt(m', hv) && Entries(m', hv) == Store(Entries(m, hv), k, v)
  {
    var o := Occupant(m, hv, k);
    if o != NULL && o != v && o != UNDEF && o in m.cells {
      DecRefShared(m, o);
    }
  }

  /** The NULL hash: length 0, no keys, every accessor NULL, nothing changes. */
  lemma NullHash(m: Mem, k: string, v: Ref, retain: bool)
    requires WF(m)
    ensures Length(m, NULL) == 0 && !ExistsCstr(m, NULL, k) && GetCstr(m, NULL, k) == NULL
    ensures RemoveCstr(m, NULL, k) == (m, NULL) && AfterSetCstr(m, NULL, k, v, retain) == m
    ensures Keys(m, NULL) == (m, NULL)
  {
  }

  /**
   * Releasing the last reference to a hash after storing `v` under a new key
   * gives back the reference the hash held: `v` ends one below where the store
   * left it.
   */
  lemma ReleaseHashAfterSet(m: Mem, hv: Ref, k: string, v: Ref, retain: bool)
    requires WF(m) && HashAt(m, hv) && hv != UNDEF && m.cells[hv].refCnt == 1
    requires IndexOf(Entries(m, hv), k).None? && v in m.cells && v != hv && v != UNDEF
    requires m.cells[v].refCnt + (if retain then 1 else 0) >= 2
    requires hv !in Values(Entries(m, hv)) && v !in Values(Entries(m, hv))
    requires NoCascade(m, Values(Entries(m, hv)))
    ensures var m' := AfterDecRef(AfterSetCstr(m, hv, k, v, retain), hv);
      v in m'.cells && m'.cells[v].refCnt == m.cells[v].refCnt + (if retain then 1 else 0) - 1
  {
    StoredNew(m, hv, k, v, retain);
    ReleaseStored(AfterSetCstr(m, hv, k, v, retain), hv, v);
  }

  lemma ReleaseStored(m1: Mem, hv: Ref, v: Ref)
    requires NULL !in m1.cells && HashAt(m1, hv) && hv != UNDEF && m1.cells[hv].refCnt == 1 && CellOk(m1.cells[hv])
    requires var kids := Values(Entries(m1, hv));
      hv !in kids && NoCascade(m1, kids) && v in kids && v in m1.cells && v != hv && v != UNDEF
    ensures var m' := AfterDecRef(m1, hv);
      v in m'.cells && m'.cells[v].refCnt == m1.cells[v].refCnt - Occurrences(Values(Entries(m1, hv)), v)
  {
    ReleaseContainer(m1, hv);
  }

  /** The memory a store under a new key leaves, in the shape ReleaseContainer asks for. */
  lemma StoredNew(m: Mem, hv: Ref, k: string, v: Ref, retain: bool)
    requires WF(m) && HashAt(m, hv) && hv != UNDEF && m.cells[hv].refCnt == 1
    requires IndexOf(Entries(m, hv), k).None? && v in m.cells && v != hv && v != UNDEF
    requires m.cells[v].refCnt + (if retain then 1 else 0) >= 2
    requires hv !in Values(Entries(m, hv)) && v !in Values(Entries(m, hv))
    requires NoCascade(m, Values(Entries(m, hv)))
    ensures var m1 := AfterSetCstr(m, hv, k, v, retain);
      var kids := Values(Entries(m1, hv));
      && NULL !in m1.cells && HashAt(m1, hv) && m1.cells[hv].refCnt == 1 && CellOk(m1.cells[hv])
      && kids == Values(Entries(m, hv)) + [v] && hv !in kids && NoCascade(m1, kids)
      && v in m1.cells && m1.cells[v].refCnt - Occurrences(kids, v) == m.cells[v].refCnt + (if retain then 1 else 0) - 1
  {
    var es := Entries(m, hv);
    StoreNewValues(es, k, v);
    StoreAppends(es, k, v, k);
    assert CellOk(m.cells[hv]);
    var m1 := StoredNewShape(m, hv, k, v, retain);
    AppendKid(m, m1, Values(es), v, hv);
  }

  /** The cells after a store under a new key: the hash grows by one entry, `v` gains the retain. */
  lemma StoredNewShape(m: Mem, hv: Ref, k: string, v: Ref, retain: bool) returns (m1: Mem)
    requires HashAt(m, hv) && IndexOf(Entries(m, hv), k).None? && v in m.cells && v != hv && v != NULL
    ensures m1 == AfterSetCstr(m, hv, k, v, retain) && m1.cells.Keys == m.cells.Keys
    ensures m1.cells[hv] == m.cells[hv].(body := HashBody(Entries(m, hv) + [Entry(k, v)]))
    ensures m1.cells[v] == m.cells[v].(refCnt := m.cells[v].refCnt + if retain then 1 else 0)
    ensures forall x | x in m.cells && x != hv && x != v :: m1.cells[x] == m.cells[x]
  {
    var es := Entries(m, hv);
    assert Occupant(m, hv, k) == NULL;
    var m2 := WithEntries(m, hv, es + [Entry(k, v)]);
    assert m2.cells == m.cells[hv := m.cells[hv].(body := HashBody(es + [Entry(k, v)]))];
    m1 := if retain then AfterIncRef(m2, v) else m2;
  }

  /** Appending a reference that one more count than needed keeps the release cascade-free. */
  lemma AppendKid(m: Mem, m1: Mem, rs: seq<Ref>, v: Ref, hv: Ref)
    requires NoCascade(m, rs) && v !in rs && v in m.cells && v in m1.cells && m1.cells[v].refCnt >= 2
    requires forall x | x in m.cells && x != hv && x != v :: x in m1.cells && m1.cells[x] == m.cells[x]
    requires m1.cells.Keys == m.cells.Keys && hv !in rs
    ensures NoCascade(m1, rs + [v]) && Occurrences(rs + [v], v) == 1
  {
    var kids := rs + [v];
    assert multiset(kids) == multiset(rs) + multiset{v};
    forall x | x in kids && x in m1.cells && x != UNDEF
      ensures m1.cells[x].refCnt > Occurrences(kids, x)
    {
      if x != v {
        assert x in rs;
      }
    }
  }

  /** A string scalar holding `key`, owned once. */
  predicate KeyScalar(c: Cell, key: string) {
    && c.refCnt == 1 && Kind(c) == DV_SCALAR && SvTypeOf(c) == SV_STR
    && c.body.ScalarBody? && c.body.str == Some(key)
  }

  /**
   * `m'` is `m` with one new string scalar per key appended to the array at
   * `av`, in key order, each distinct; nothing that existed before changes but
   * the array's slots.
   */
  ghost predicate KeysAppended(m: Mem, m': Mem, av: Ref, ks: seq<string>)
    requires Arrays.ArrayAt(m, av)
  {
    && WF(m') && Arrays.ArrayAt(m', av) && m'.cells[av].refCnt == m.cells[av].refCnt
    && var s := Arrays.Slots(m, av);
    var s' := Arrays.Slots(m', av);
    && |s'| == |s| + |ks| && s'[..|s|] == s
    && var t := s'[|s|..];
    && (forall j | 0 <= j < |ks| :: t[j] !in m.cells && t[j] in m'.cells && KeyScalar(m'.cells[t[j]], ks[j]))
    && (forall j, j' | 0 <= j < j' < |ks| :: t[j] != t[j'])
    && (forall x | x in m.cells && x != av :: x in m'.cells && m'.cells[x] == m.cells[x])
  }

  lemma {:induction false} PushKeysAppends(m: Mem, av: Ref, ks: seq<string>)
    requires WF(m) && Arrays.ArrayAt(m, av)
    ensures KeysAppended(m, PushKeys(m, av, ks), av, ks)
    decreases |ks|
  {
    if ks == [] {
      assert Arrays.Slots(m, av)[..|Arrays.Slots(m, av)|] == Arrays.Slots(m, av);
    } else {
      var m2 := PushedOnce(m, av, ks[0]);
      PushedOnceOk(m, av, ks);
      PushKeysAppends(m2, av, ks[1..]);
      ConsStep(m, av, ks, m2, PushKeys(m2, av, ks[1..]));
    }
  }

  /** The memory after the first step of PushKeys. */
  function PushedOnce(m: Mem, av: Ref, k: string): Mem
  {
    var (m1, r) := MakeText(m, k);
    if Arrays.ArrayAt(m1, av) then Arrays.AfterPush(m1, av, r, false) else m1
  }

  lemma PushedOnceOk(m: Mem, av: Ref, ks: seq<string>)
    requires WF(m) && Arrays.ArrayAt(m, av) && ks != []
    ensures var m2 := PushedOnce(m, av, ks[0]);
      && WF(m2) && Arrays.ArrayAt(m2, av) && PushKeys(m, av, ks) == PushKeys(m2, av, ks[1..])
  {
    var _ := PushKeyStep(m, av, ks);
  }

  lemma ConsStep(m: Mem, av: Ref, ks: seq<string>, m2: Mem, m': Mem)
    requires WF(m) && Arrays.ArrayAt(m, av) && ks != [] && m2 == PushedOnce(m, av, ks[0])
    requires Arrays.ArrayAt(m2, av) && KeysAppended(m2, m', av, ks[1..])
    ensures KeysAppended(m, m', av, ks)
  {
    var r := PushKeyStep(m, av, ks);
    AppendedCons(m, m2, m', av, r, ks);
  }

  /** One step of PushKeys: a fresh key scalar `r` for `ks[0]` lands at the end of the array. */
  lemma PushKeyStep(m: Mem, av: Ref, ks: seq<string>) returns (r: Ref)
    requires WF(m) && Arrays.ArrayAt(m, av) && ks != []
    ensures var m2 := PushedOnce(m, av, ks[0]);
      && WF(m2) && Arrays.ArrayAt(m2, av) && PushKeys(m, av, ks) == PushKeys(m2, av, ks[1..])
      && PushedKey(m, m2, av, r, ks[0])
  {
    var m1;
    m1, r := MakeText(m, ks[0]).0, MakeText(m, ks[0]).1;
    MakeTextYields(m, ks[0]);
    MadeKeyScalar(m, ks[0]);
    KeyPushed(m, m1, r, av);
  }

  /** `m2` is `m` with the fresh key scalar `r` for `k` pushed onto the array at `av`. */
  ghost predicate PushedKey(m: Mem, m2: Mem, av: Ref, r: Ref, k: string)
    requires Arrays.ArrayAt(m, av)
  {
    && Arrays.ArrayAt(m2, av)
    && Arrays.Slots(m2, av) == Arrays.Slots(m, av) + [r] && m2.cells[av].refCnt == m.cells[av].refCnt
    && r !in m.cells && r in m2.cells && KeyScalar(m2.cells[r], k) && r != av
    && forall x | x in m.cells && x != av :: x in m2.cells && m2.cells[x] == m.cells[x]
  }

  lemma AppendedCons(m: Mem, m2: Mem, m': Mem, av: Ref, r: Ref, ks: seq<string>)
    requires Arrays.ArrayAt(m, av) && Arrays.ArrayAt(m2, av) && ks != []
    requires PushedKey(m, m2, av, r, ks[0]) && KeysAppended(m2, m', av, ks[1..])
    ensures KeysAppended(m, m', av, ks)
  {
    var s := Arrays.Slots(m, av);
    var s2 := Arrays.Slots(m2, av);
    var s' := Arrays.Slots(m', av);
    var t2 := s'[|s2|..];
    var t := s'[|s|..];
    SlotsCons(s, r, s');
    forall j | 0 <= j < |ks|
      ensures t[j] !in m.cells && t[j] in m'.cells && KeyScalar(m'.cells[t[j]], ks[j])
    {
      if j > 0 {
        assert t[j] == t2[j - 1] && ks[j] == ks[1..][j - 1];
      }
    }
    assert forall j | 0 <= j < |ks| - 1 :: t2[j] != r by {
      forall j | 0 <= j < |ks| - 1 ensures t2[j] != r {
        assert t2[j] in m'.cells && t2[j] !in m2.cells;
      }
    }
    ConsDistinct(r, t2, |ks| - 1);
  }

  /** Putting `r` in front of `n` distinct references other than `r` keeps them distinct. */
  lemma ConsDistinct(r: Ref, t2: seq<Ref>, n: nat)
    requires n <= |t2|
    requires forall j, j' | 0 <= j < j' < n :: t2[j] != t2[j']
    requires forall j | 0 <= j < n :: t2[j] != r
    ensures var t := [r] + t2; forall j, j' | 0 <= j < j' < n + 1 :: t[j] != t[j']
  {
    var t := [r] + t2;
    forall j, j' | 0 <= j < j' < n + 1
      ensures t[j] != t[j']
    {
      assert t[j'] == t2[j' - 1];
      if j > 0 {
        assert t[j] == t2[j - 1];
      }
    }
  }

  /** A sequence that extends `s + [r]` extends `s`, with `r` first in the tail. */
  lemma SlotsCons(s: seq<Ref>, r: Ref, s': seq<Ref>)
    requires |s'| >= |s| + 1 && s'[..|s| + 1] == s + [r]
    ensures s'[..|s|] == s && s'[|s|..] == [r] + s'[|s| + 1..]
  {
    assert s'[..|s|] == (s'[..|s| + 1])[..|s|];
  }

  lemma MadeKeyScalar(m: Mem, key: string)
    requires WF(m)
    ensures var (m1, r) := MakeText(m, key);
      r in m1.cells && KeyScalar(m1.cells[r], key) && m1.next == m.next + 1
  {
    var (m1, r) := NewScalar(m);
    NewScalarIsFresh(m);
    RetagSetsType(m1.cells[r], SV_STR);
    RetagStringBuffer(m1.cells[r], SV_STR);
  }

  lemma KeyPushed(m: Mem, m1: Mem, r: Ref, av: Ref)
    requires WF(m) && Arrays.ArrayAt(m, av) && WF(m1) && r !in m.cells && r in m1.cells
    requires m1.cells == m.cells[r := m1.cells[r]]
    ensures Arrays.ArrayAt(m1, av) && m1.cells[av] == m.cells[av]
    ensures var m2 := Arrays.AfterPush(m1, av, r, false);
      && WF(m2) && Arrays.ArrayAt(m2, av) && Arrays.Slots(m2, av) == Arrays.Slots(m, av) + [r]
      && m2.cells[av].refCnt == m.cells[av].refCnt
      && m2.cells == m1.cells[av := m.cells[av].(body := ArrayBody(Arrays.Slots(m, av) + [r]))]
  {
    var m2 := Arrays.AfterPush(m1, av, r, false);
    forall x | x in m2.cells
      ensures CellOk(m2.cells[x])
    {
      if x != av {
        assert CellOk(m1.cells[x]);
      } else {
        assert CellOk(m.cells[av]);
      }
    }
  }

  /**
   * keys gives a new array with one new string scalar per key, in entry order,
   * each owned once by the array; everything that existed before is unchanged.
   */
  lemma KeysYields(m: Mem, hv: Ref)
    requires WF(m) && HashAt(m, hv)
    ensures var (m', av) := Keys(m, hv);
      var ks := KeysOf(Entries(m, hv));
      && av != NULL && av !in m.cells && WF(m') && Arrays.ArrayAt(m', av)
      && m'.cells[av].refCnt == 1 && DvType(m', av) == DV_ARRAY
      && |Arrays.Slots(m', av)| == |ks| == Length(m, hv)
      && (forall j | 0 <= j < |ks| :: var r := Arrays.Slots(m', av)[j];
            r !in m.cells && r in m'.cells && KeyScalar(m'.cells[r], ks[j]))
      && (forall j, j' | 0 <= j < j' < |ks| :: Arrays.Slots(m', av)[j] != Arrays.Slots(m', av)[j'])
      && forall x | x in m.cells :: x in m'.cells && m'.cells[x] == m.cells[x]
  {
    var ks := KeysOf(Entries(m, hv));
    var (m1, av) := Arrays.NewArray(m);
    Arrays.NewArrayIsEmpty(m);
    if |ks| > 0 {
      ClearEmpty(m1, av);
      PushKeysAppends(m1, av, ks);
      var m' := PushKeys(m1, av, ks);
      FromEmpty(m, m1, m', av, ks);
    }
  }

  lemma FromEmpty(m: Mem, m1: Mem, m': Mem, av: Ref, ks: seq<string>)
    requires Arrays.ArrayAt(m1, av) && Arrays.Slots(m1, av) == [] && av !in m.cells
    requires forall x | x in m.cells :: x in m1.cells && m1.cells[x] == m.cells[x]
    requires KeysAppended(m1, m', av, ks)
    ensures var s := Arrays.Slots(m', av);
      && |s| == |ks|
      && (forall j | 0 <= j < |ks| :: s[j] !in m.cells && s[j] in m'.cells && KeyScalar(m'.cells[s[j]], ks[j]))
      && (forall j, j' | 0 <= j < j' < |ks| :: s[j] != s[j'])
      && forall x | x in m.cells :: x in m'.cells && m'.cells[x] == m.cells[x]
  {
    var s := Arrays.Slots(m', av);
    assert s[0..] == s;
  }

  /** Clearing an empty array changes nothing. */
  lemma ClearEmpty(m: Mem, av: Ref)
    requires Arrays.ArrayAt(m, av) && Arrays.Slots(m, av) == []
    ensures Arrays.AfterClear(m, av) == m
  {
    Arrays.WithSlotsOwn(m, av);
  }

  // ---------------------------------------------------------------------------
  // The operations on the mutable memory
  // ---------------------------------------------------------------------------

  /** dtl_hv_new */
  method New(h: Heap) returns (hv: Ref)
    requires h.Valid()
    modifies h
    ensures h.Valid() && (h.State(), hv) == NewHash(old(h.State()))
  {
    hv := h.Alloc(NewHashCell());
  }

  /** dtl_hv_set_cstr */
  method SetCstr(h: Heap, hv: Ref, k: string, v: Ref, retain: bool)
    requires h.Valid() && HashOrNull(h.State(), hv)
    modifies h
    ensures h.Valid()
    ensures h.State() == AfterSetCstr(old(h.State()), hv, k, v, retain)
  {
    if hv != NULL {
      var cur := Occupant(h.State(), hv, k);
      if cur != NULL && cur != v {
        h.DecRef(cur);
      }
      if hv in h.cells && h.cells[hv].body.HashBody? {
        StoreKeepsWF(h.State(), hv, k, v);
        h.cells := h.cells[hv := h.cells[hv].(body := HashBody(Store(h.cells[hv].body.entries, k, v)))];
      }
      if retain {
        h.IncRef(v);
      }
    }
  }

  /** dtl_hv_remove_cstr */
  method Remove(h: Heap, hv: Ref, k: string) returns (v: Ref)
    requires h.Valid() && HashOrNull(h.State(), hv)
    modifies h
    ensures h.Valid()
    ensures (h.State(), v) == RemoveCstr(old(h.State()), hv, k)
  {
    RemoveKeepsWF(h.State(), hv, k);
    if hv == NULL {
      return NULL;
    }
    v := Occupant(h.State(), hv, k);
    h.cells := h.cells[hv := h.cells[hv].(body := HashBody(Removed(h.cells[hv].body.entries, k)))];
  }

  /** dtl_hv_keys */
  method KeysArray(h: Heap, hv: Ref) returns (av: Ref)
    requires h.Valid() && HashOrNull(h.State(), hv)
    modifies h
    ensures h.Valid()
    ensures (h.State(), av) == Keys(old(h.State()), hv)
  {
    if hv == NULL {
      return NULL;
    }
    var ks := KeysOf(h.cells[hv].body.entries);
    Arrays.NewArrayIsEmpty(h.State());
    av := Arrays.New(h);
    var n := |ks|;
    if n > 0 {
      ClearEmpty(h.State(), av);
      Arrays.Clear(h, av);
      ghost var start := h.State();
      var i := 0;
      while i < n
        invariant 0 <= i <= n
        invariant h.Valid() && Arrays.ArrayAt(h.State(), av)
        invariant PushKeys(h.State(), av, ks[i..]) == PushKeys(start, av, ks)
      {
        ghost var before := h.State();
        var r := MakeCstr(h, Some(ks[i]));
        MakeTextYields(before, ks[i]);
        KeyPushed(before, h.State(), r, av);
        assert ks[i..][0] == ks[i] && ks[i..][1..] == ks[i + 1..];
        Arrays.Push(h, av, r, false);
        i := i + 1;
      }
    }
  }
}
