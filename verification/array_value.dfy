/**
 * The array value: a dynamic value whose payload is a growable sequence of
 * slots, each holding one reference the array owns.  Unassigned slots hold the
 * singleton scalar.  The sequence primitive underneath is taken as the plain
 * `seq` it stands for: slots are addressed from 0, a read past the end finds
 * nothing, a write past the end grows the sequence with singleton slots, and
 * clear and teardown release every slot in order.
 */
module Arrays {
  import opened DynamicValues
  import opened InsertionSorting

  /** A fresh array: count 1, kind ARRAY, no slots. */
  function NewArrayCell(): Cell {
    Cell(1, DV_ARRAY, ArrayBody([]))
  }

  /** dtl_av_new */
  function NewArray(m: Mem): (res: (Mem, Ref))
  {
    Allocate(m, NewArrayCell())
  }

  lemma NewArrayIsEmpty(m: Mem)
    requires WF(m)
    ensures var (m', a) := NewArray(m);
      && a != NULL && a !in m.cells && WF(m') && ArrayAt(m', a)
      && m'.cells[a].refCnt == 1 && DvType(m', a) == DV_ARRAY && Slots(m', a) == []
      && forall x | x in m.cells :: x in m'.cells && m'.cells[x] == m.cells[x]
  {
    AllocateFresh(m, NewArrayCell());
  }

  /** A live array (never at the NULL address). */
  predicate ArrayAt(m: Mem, a: Ref) {
    a != NULL && a in m.cells && m.cells[a].body.ArrayBody?
  }

  /** `self` is either NULL or a live array. */
  predicate ArrayOrNull(m: Mem, a: Ref) {
    a == NULL || ArrayAt(m, a)
  }

  function Slots(m: Mem, a: Ref): seq<Ref>
    requires ArrayAt(m, a)
  {
    m.cells[a].body.slots
  }

  /** The array at `a` with its slots replaced; count, flags and every other cell kept. */
  function WithSlots(m: Mem, a: Ref, t: seq<Ref>): (m': Mem)
    requires ArrayAt(m, a)
    ensures ArrayAt(m', a) && Slots(m', a) == t && m'.cells.Keys == m.cells.Keys
    ensures m'.cells[a].refCnt == m.cells[a].refCnt && m'.cells[a].flags == m.cells[a].flags
  {
    m.(cells := m.cells[a := m.cells[a].(body := ArrayBody(t))])
  }

  /** `n` slots holding the singleton. */
  function Fill(n: nat): (s: seq<Ref>)
    ensures |s| == n && forall k | 0 <= k < n :: s[k] == UNDEF
  {
    seq(n, k => UNDEF)
  }

  /** The slots grown to length `n` with singleton slots (no change when already that long). */
  function Extended(s: seq<Ref>, n: int): (t: seq<Ref>)
    ensures n <= |s| ==> t == s
    ensures n > |s| ==> |t| == n && t[..|s|] == s && forall k | |s| <= k < n :: t[k] == UNDEF
  {
    if n > |s| then s + Fill(n - |s|) else s
  }

  /** The slots after a write of `v` at index `i`. */
  function Placed(s: seq<Ref>, i: nat, v: Ref): (t: seq<Ref>)
    ensures |t| == if i < |s| then |s| else i + 1
    ensures t[i] == v
    ensures forall k | 0 <= k < |s| && k != i :: t[k] == s[k]
    ensures forall k | |s| <= k < |t| && k != i :: t[k] == UNDEF
  {
    Extended(s, i + 1)[i := v]
  }

  // ---------------------------------------------------------------------------
  // Accessors
  // ---------------------------------------------------------------------------

  /**
   * dtl_av_set: the occupant of slot `i` is released first when it is not `v`;
   * then `v` is written, growing the array when `i` is past the end.  A negative
   * index and a NULL array change nothing.
   */
  function AfterSet(m: Mem, a: Ref, i: int, v: Ref): Mem
    requires ArrayOrNull(m, a)
  {
    if a == NULL || i < 0 then m
    else
      var s := Slots(m, a);
      var m1 := if i < |s| && s[i] != v then AfterDecRef(m, s[i]) else m;
      if ArrayAt(m1, a) then WithSlots(m1, a, Placed(Slots(m1, a), i, v)) else m1
  }

  /** dtl_av_get: the slot at `i` (as its index), or none. */
  function Get(m: Mem, a: Ref, i: int): (slot: Option<nat>)
    requires ArrayOrNull(m, a)
    ensures slot.Some? <==> a != NULL && 0 <= i < |Slots(m, a)|
    ensures slot.Some? ==> slot.value == i
  {
    if a != NULL && 0 <= i < |Slots(m, a)| then Some(i) else None
  }

  /** dtl_av_value: the element at `i`, or NULL. */
  function Value(m: Mem, a: Ref, i: int): (v: Ref)
    requires ArrayOrNull(m, a)
    ensures Get(m, a, i).Some? ==> v == Slots(m, a)[Get(m, a, i).value]
    ensures Get(m, a, i).None? ==> v == NULL
  {
    if a != NULL && 0 <= i < |Slots(m, a)| then Slots(m, a)[i] else NULL
  }

  /** dtl_av_push: `v` appended; one more reference on it when `retain` is set. */
  function AfterPush(m: Mem, a: Ref, v: Ref, retain: bool): Mem
    requires ArrayOrNull(m, a)
  {
    if a == NULL then m
    else
      var m1 := WithSlots(m, a, Slots(m, a) + [v]);
      if retain then AfterIncRef(m1, v) else m1
  }

  /** dtl_av_pop: the last element, removed without touching its count; NULL when empty. */
  function Pop(m: Mem, a: Ref): (res: (Mem, Ref))
    requires ArrayOrNull(m, a)
  {
    if a == NULL || Slots(m, a) == [] then (m, NULL)
    else
      var s := Slots(m, a);
      (WithSlots(m, a, s[..|s| - 1]), s[|s| - 1])
  }

  /** dtl_av_shift: the first element, removed without touching its count; NULL when empty. */
  function Shift(m: Mem, a: Ref): (res: (Mem, Ref))
    requires ArrayOrNull(m, a)
  {
    if a == NULL || Slots(m, a) == [] then (m, NULL)
    else
      var s := Slots(m, a);
      (WithSlots(m, a, s[1..]), s[0])
  }

  /** dtl_av_unshift: `v` inserted in front, its count untouched. */
  function AfterUnshift(m: Mem, a: Ref, v: Ref): Mem
    requires ArrayOrNull(m, a)
  {
    if a == NULL then m else WithSlots(m, a, [v] + Slots(m, a))
  }

  /** dtl_av_extend and dtl_av_fill: grown to `n` slots with the singleton. */
  function AfterExtend(m: Mem, a: Ref, n: int): Mem
    requires ArrayOrNull(m, a)
  {
    if a == NULL then m else WithSlots(m, a, Extended(Slots(m, a), n))
  }

  /** dtl_av_clear: every slot released in order, then no slots. */
  function AfterClear(m: Mem, a: Ref): Mem
    requires ArrayOrNull(m, a)
  {
    if a == NULL then m
    else
      var m1 := AfterReleaseAll(m, Slots(m, a));
      if ArrayAt(m1, a) then WithSlots(m1, a, []) else m1
  }

  /** dtl_av_length: -1 for a NULL array. */
  function Length(m: Mem, a: Ref): (n: int)
    requires ArrayOrNull(m, a)
    ensures a == NULL <==> n == -1
    ensures a != NULL ==> n == |Slots(m, a)|
  {
    if a == NULL then -1 else |Slots(m, a)|
  }

  /** dtl_av_exists */
  function Exists(m: Mem, a: Ref, i: int): (b: bool)
    requires ArrayOrNull(m, a)
    ensures b <==> Get(m, a, i).Some?
  {
    a != NULL && 0 <= i < |Slots(m, a)|
  }

  /** dtl_av_make: NULL for a negative length, otherwise an array owning vs[..len]. */
  function Make(m: Mem, vs: seq<Ref>, len: int): (res: (Mem, Ref))
    requires len <= |vs|
  {
    if len < 0 then (m, NULL) else Allocate(m, Cell(1, DV_ARRAY, ArrayBody(vs[..len])))
  }

  /** The kind of each element as the sort sees it; a dangling reference has none. */
  function KindIn(m: Mem): Ref -> bv32 {
    (r: Ref) => if r in m.cells then Kind(m.cells[r]) else DV_INVALID
  }

  // ---------------------------------------------------------------------------
  // Laws
  // ---------------------------------------------------------------------------

  /** A write over the slot's own occupant releases nothing and changes nothing. */
  lemma SetSameValue(m: Mem, a: Ref, i: nat, v: Ref)
    requires ArrayAt(m, a) && i < |Slots(m, a)| && Slots(m, a)[i] == v
    ensures AfterSet(m, a, i, v) == m
  {
    assert Slots(m, a)[i := v] == Slots(m, a);
    assert m.cells[a := m.cells[a].(body := ArrayBody(Slots(m, a)))] == m.cells;
  }

  /**
   * A write over a different occupant that other owners still hold lowers its
   * count by exactly one; the slot then holds `v`, and nothing else changes.
   */
  lemma SetReleasesOldOccupant(m: Mem, a: Ref, i: nat, v: Ref)
    requires ArrayAt(m, a) && i < |Slots(m, a)|
    requires var old_ := Slots(m, a)[i];
      old_ != v && old_ != a && old_ in m.cells && old_ != NULL && old_ != UNDEF && m.cells[old_].refCnt >= 2
    ensures var old_ := Slots(m, a)[i];
      var m' := AfterSet(m, a, i, v);
      && ArrayAt(m', a) && Slots(m', a) == Slots(m, a)[i := v]
      && m'.cells[old_].refCnt == m.cells[old_].refCnt - 1
      && m'.cells == m.cells[old_ := m.cells[old_].(refCnt := m.cells[old_].refCnt - 1)]
                            [a := m.cells[a].(body := ArrayBody(Slots(m, a)[i := v]))]
  {
    DecRefShared(m, Slots(m, a)[i]);
  }

  /** A write past the end fills the gap with the singleton and releases nothing. */
  lemma SetPastEnd(m: Mem, a: Ref, i: nat, v: Ref)
    requires ArrayAt(m, a) && i >= |Slots(m, a)|
    ensures var s := Slots(m, a);
      AfterSet(m, a, i, v) == WithSlots(m, a, s + Fill(i - |s|) + [v])
  {
    var s := Slots(m, a);
    assert Placed(s, i, v) == s + Fill(i - |s|) + [v];
  }

  /** Writing into a singleton slot releases nothing (the singleton ignores releases). */
  lemma SetOverSingleton(m: Mem, a: Ref, i: nat, v: Ref)
    requires ArrayAt(m, a) && i < |Slots(m, a)| && Slots(m, a)[i] == UNDEF
    ensures AfterSet(m, a, i, v) == WithSlots(m, a, Slots(m, a)[i := v])
  {
    DecRefIgnored(m, UNDEF);
  }

  /** push appends; with `retain` the value gains exactly one reference, otherwise none. */
  lemma PushAppends(m: Mem, a: Ref, v: Ref, retain: bool)
    requires ArrayAt(m, a) && v != a && v in m.cells
    ensures var m' := AfterPush(m, a, v, retain);
      && ArrayAt(m', a) && Slots(m', a) == Slots(m, a) + [v]
      && m'.cells[v].refCnt == m.cells[v].refCnt + (if retain && v != NULL then 1 else 0)
      && forall x | x in m.cells && x != a && x != v :: x in m'.cells && m'.cells[x] == m.cells[x]
  {
  }

  /** pop undoes a push without retain. */
  lemma PushThenPop(m: Mem, a: Ref, v: Ref)
    requires ArrayAt(m, a)
    ensures Pop(AfterPush(m, a, v, false), a) == (m, v)
  {
    var s := Slots(m, a);
    assert (s + [v])[..|s|] == s;
    WithSlotsBack(m, a, s + [v]);
  }

  /** shift undoes an unshift. */
  lemma UnshiftThenShift(m: Mem, a: Ref, v: Ref)
    requires ArrayAt(m, a)
    ensures Shift(AfterUnshift(m, a, v), a) == (m, v)
  {
    var s := Slots(m, a);
    assert ([v] + s)[1..] == s;
    WithSlotsBack(m, a, [v] + s);
  }

  /** Putting the original slots back restores memory exactly. */
  lemma WithSlotsBack(m: Mem, a: Ref, t: seq<Ref>)
    requires ArrayAt(m, a)
    ensures WithSlots(WithSlots(m, a, t), a, Slots(m, a)) == m
  {
    assert m.cells[a := m.cells[a].(body := ArrayBody(Slots(m, a)))] == m.cells;
  }

  /** pop and shift on an array: the element comes out, the rest stays in order, no count changes. */
  lemma PopShiftTransfer(m: Mem, a: Ref)
    requires ArrayAt(m, a) && Slots(m, a) != []
    ensures var s := Slots(m, a);
      && Pop(m, a).1 == s[|s| - 1] && Slots(Pop(m, a).0, a) + [Pop(m, a).1] == s
      && Shift(m, a).1 == s[0] && [Shift(m, a).1] + Slots(Shift(m, a).0, a) == s
      && forall x | x in m.cells :: Pop(m, a).0.cells[x].refCnt == m.cells[x].refCnt
                                  && Shift(m, a).0.cells[x].refCnt == m.cells[x].refCnt
  {
  }

  /**
   * get, value and length after a set: an array that survives the release of
   * the old occupant has `v` at slot `i`, is at least `i + 1` long, and keeps
   * every other slot it had; a write that releases nothing always leaves it.
   */
  lemma SetThenGet(m: Mem, a: Ref, i: nat, v: Ref)
    requires ArrayAt(m, a)
    ensures i >= |Slots(m, a)| || Slots(m, a)[i] == v ==> ArrayAt(AfterSet(m, a, i, v), a)
    ensures var m' := AfterSet(m, a, i, v);
      ArrayAt(m', a) ==>
        && Get(m', a, i) == Some(i) && Value(m', a, i) == v
        && Length(m', a) == (if i < Length(m, a) then Length(m, a) else i + 1)
        && (forall j | 0 <= j < Length(m, a) && j != i :: Value(m', a, j) == Value(m, a, j))
        && (forall j | Length(m, a) <= j < i :: Value(m', a, j) == UNDEF)
  {
    var s := Slots(m, a);
    var m1 := if i < |s| && s[i] != v then AfterDecRef(m, s[i]) else m;
    if ArrayAt(m1, a) {
      assert Slots(m1, a) == s;
    }
  }

  /**
   * length after the operations that change it: push and unshift add one slot,
   * pop and shift remove one from a non-empty array, extend grows to at least
   * `n`, and clear, when the array survives its releases, leaves none.
   */
  lemma LengthTracksUpdates(m: Mem, a: Ref, v: Ref, retain: bool, n: int)
    requires ArrayAt(m, a)
    ensures var m' := AfterPush(m, a, v, retain);
      ArrayAt(m', a) && Length(m', a) == Length(m, a) + 1 && Value(m', a, Length(m, a)) == v
    ensures var m' := AfterUnshift(m, a, v);
      ArrayAt(m', a) && Length(m', a) == Length(m, a) + 1 && Value(m', a, 0) == v
    ensures Length(m, a) > 0 ==> Length(Pop(m, a).0, a) == Length(m, a) - 1
    ensures Length(m, a) > 0 ==> Length(Shift(m, a).0, a) == Length(m, a) - 1
    ensures Length(m, a) == 0 ==> Pop(m, a) == (m, NULL) && Shift(m, a) == (m, NULL)
    ensures var m' := AfterExtend(m, a, n);
      ArrayAt(m', a) && Length(m', a) == (if n > Length(m, a) then n else Length(m, a))
    ensures var m' := AfterClear(m, a);
      ArrayAt(m', a) ==> Length(m', a) == 0 && Get(m', a, 0) == None
  {
  }

  /** The NULL array: every accessor returns its null answer and nothing changes. */
  lemma NullArray(m: Mem, i: int, v: Ref, retain: bool, n: int)
    ensures Length(m, NULL) == -1 && !Exists(m, NULL, i)
    ensures Get(m, NULL, i) == None && Value(m, NULL, i) == NULL
    ensures AfterSet(m, NULL, i, v) == m && AfterPush(m, NULL, v, retain) == m
    ensures Pop(m, NULL) == (m, NULL) && Shift(m, NULL) == (m, NULL)
    ensures AfterUnshift(m, NULL, v) == m && AfterExtend(m, NULL, n) == m && AfterClear(m, NULL) == m
  {
  }

  /** make owns exactly the given values, without retaining them; a negative length gives NULL. */
  lemma MakeOwns(m: Mem, vs: seq<Ref>, len: int)
    requires WF(m) && len <= |vs|
    ensures len < 0 ==> Make(m, vs, len) == (m, NULL)
    ensures len >= 0 ==> var (m', a) := Make(m, vs, len);
      && a != NULL && a !in m.cells && WF(m') && ArrayAt(m', a) && Slots(m', a) == vs[..len]
      && m'.cells[a].refCnt == 1 && DvType(m', a) == DV_ARRAY
      && forall x | x in m.cells :: x in m'.cells && m'.cells[x] == m.cells[x]
  {
    if len >= 0 {
      AllocateFresh(m, Cell(1, DV_ARRAY, ArrayBody(vs[..len])));
    }
  }

  /**
   * Releasing the last reference to an array whose elements all have other
   * owners frees it and lowers each element's count by its number of slots.
   */
  lemma ReleaseArray(m: Mem, a: Ref)
    requires WF(m) && ArrayAt(m, a) && a != UNDEF && m.cells[a].refCnt == 1
    requires a !in Slots(m, a) && NoCascade(m, Slots(m, a))
    ensures AfterDecRef(m, a).cells == Decremented(m, Slots(m, a)) - {a}
  {
    ReleaseContainer(m, a);
  }

  /**
   * A value pushed with `retain` into an array that then goes away is back at
   * its count from before the push.
   */
  lemma PushRetainedThenRelease(m: Mem, a: Ref, v: Ref)
    requires WF(m) && ArrayAt(m, a) && a != UNDEF && m.cells[a].refCnt == 1
    requires v in m.cells && v != a && v != UNDEF && m.cells[v].refCnt >= 1
    requires a !in Slots(m, a) && v !in Slots(m, a) && NoCascade(m, Slots(m, a))
    ensures var m' := AfterDecRef(AfterPush(m, a, v, true), a);
      v in m'.cells && m'.cells[v].refCnt == m.cells[v].refCnt
  {
    var m1 := AfterPush(m, a, v, true);
    PushedRetained(m, a, v);
    ReleaseArray(m1, a);
  }

  /** The memory a retained push leaves, in the shape ReleaseArray asks for. */
  lemma PushedRetained(m: Mem, a: Ref, v: Ref)
    requires WF(m) && ArrayAt(m, a) && a != UNDEF && m.cells[a].refCnt == 1
    requires v in m.cells && v != a && v != UNDEF && m.cells[v].refCnt >= 1
    requires a !in Slots(m, a) && v !in Slots(m, a) && NoCascade(m, Slots(m, a))
    ensures var m1 := AfterPush(m, a, v, true);
      && WF(m1) && ArrayAt(m1, a) && m1.cells[a].refCnt == 1
      && Slots(m1, a) == Slots(m, a) + [v] && a !in Slots(m1, a)
      && NoCascade(m1, Slots(m1, a))
      && v in m1.cells && m1.cells[v].refCnt - Occurrences(Slots(m1, a), v) == m.cells[v].refCnt
  {
    var m1 := AfterPush(m, a, v, true);
    var s := Slots(m, a);
    var kids := s + [v];
    assert multiset(kids) == multiset(s) + multiset{v};
    forall x | x in kids && x in m1.cells && x != UNDEF
      ensures m1.cells[x].refCnt > Occurrences(kids, x)
    {
      if x != v {
        assert x in s;
      }
    }
    ShrinksKeepsWFFrame(m, m1, a);
  }

  lemma ShrinksKeepsWFFrame(m: Mem, m1: Mem, a: Ref)
    requires WF(m) && ArrayAt(m, a)
    requires m1.cells.Keys == m.cells.Keys && m1.next == m.next
    requires ArrayAt(m1, a) && m1.cells[a].flags == m.cells[a].flags
    requires forall x | x in m.cells && x != a :: m1.cells[x].flags == m.cells[x].flags && m1.cells[x].body == m.cells[x].body
    requires UNDEF in m1.cells
    ensures WF(m1)
  {
    forall x | x in m1.cells
      ensures CellOk(m1.cells[x])
    {
      if x != a {
        assert CellOk(m.cells[x]);
      }
    }
  }

  /** Replacing an array's slots keeps memory well formed. */
  lemma WithSlotsKeepsWF(m: Mem, a: Ref, t: seq<Ref>)
    requires WF(m) && ArrayAt(m, a)
    ensures WF(WithSlots(m, a, t))
  {
    assert CellOk(m.cells[a]);
  }

  /** set keeps memory well formed. */
  lemma SetKeepsWF(m: Mem, a: Ref, i: int, v: Ref)
    requires WF(m) && ArrayOrNull(m, a)
    ensures WF(AfterSet(m, a, i, v))
  {
    if a != NULL && i >= 0 {
      var s := Slots(m, a);
      var m1 := if i < |s| && s[i] != v then AfterDecRef(m, s[i]) else m;
      ShrinksKeepsWF(m, m1);
      if ArrayAt(m1, a) {
        WithSlotsKeepsWF(m1, a, Placed(Slots(m1, a), i, v));
      }
    }
  }

  /** push, pop, shift, unshift and extend keep memory well formed. */
  lemma ReshapesKeepWF(m: Mem, a: Ref, v: Ref, retain: bool, n: int)
    requires WF(m) && ArrayOrNull(m, a)
    ensures WF(AfterPush(m, a, v, retain)) && WF(Pop(m, a).0) && WF(Shift(m, a).0)
    ensures WF(AfterUnshift(m, a, v)) && WF(AfterExtend(m, a, n))
  {
    if a != NULL {
      var s := Slots(m, a);
      WithSlotsKeepsWF(m, a, s + [v]);
      IncRefKeepsWF(WithSlots(m, a, s + [v]), v);
      if s != [] {
        WithSlotsKeepsWF(m, a, s[..|s| - 1]);
        WithSlotsKeepsWF(m, a, s[1..]);
      }
      WithSlotsKeepsWF(m, a, [v] + s);
      WithSlotsKeepsWF(m, a, Extended(s, n));
    }
  }

  /** clear keeps memory well formed. */
  lemma ClearKeepsWF(m: Mem, a: Ref)
    requires WF(m) && ArrayOrNull(m, a)
    ensures WF(AfterClear(m, a))
  {
    if a != NULL {
      var m2 := AfterReleaseAll(m, Slots(m, a));
      ShrinksKeepsWF(m, m2);
      if ArrayAt(m2, a) {
        WithSlotsKeepsWF(m2, a, []);
      }
    }
  }

  // ---------------------------------------------------------------------------
  // The operations on the mutable memory
  // ---------------------------------------------------------------------------

  /** dtl_av_new */
  method New(h: Heap) returns (a: Ref)
    requires h.Valid()
    modifies h
    ensures h.Valid() && (h.State(), a) == NewArray(old(h.State()))
  {
    a := h.Alloc(NewArrayCell());
  }

  /** dtl_av_set; the result is the slot written, none for a NULL array or a negative index. */
  method Set(h: Heap, a: Ref, i: int, v: Ref) returns (slot: Option<nat>)
    requires h.Valid() && ArrayOrNull(h.State(), a)
    modifies h
    ensures h.Valid()
    ensures h.State() == AfterSet(old(h.State()), a, i, v)
    ensures slot.Some? ==> slot.value == i && ArrayAt(h.State(), a) && Slots(h.State(), a)[i] == v
  {
    SetKeepsWF(h.State(), a, i, v);
    if a == NULL || i < 0 {
      return None;
    }
    var s := h.cells[a].body.slots;
    if i < |s| && s[i] != v {
      h.DecRef(s[i]);
    }
    if a in h.cells && h.cells[a].body.ArrayBody? {
      h.cells := h.cells[a := h.cells[a].(body := ArrayBody(Placed(h.cells[a].body.slots, i, v)))];
      slot := Some(i);
    } else {
      slot := None;
    }
  }

  /** dtl_av_push */
  method Push(h: Heap, a: Ref, v: Ref, retain: bool)
    requires h.Valid() && ArrayOrNull(h.State(), a)
    modifies h
    ensures h.Valid()
    ensures h.State() == AfterPush(old(h.State()), a, v, retain)
  {
    if a != NULL {
      WithSlotsKeepsWF(h.State(), a, h.cells[a].body.slots + [v]);
      h.cells := h.cells[a := h.cells[a].(body := ArrayBody(h.cells[a].body.slots + [v]))];
      if retain {
        h.IncRef(v);
      }
    }
  }

  /** dtl_av_pop */
  method PopLast(h: Heap, a: Ref) returns (v: Ref)
    requires h.Valid() && ArrayOrNull(h.State(), a)
    modifies h
    ensures h.Valid()
    ensures (h.State(), v) == Pop(old(h.State()), a)
  {
    if a == NULL || h.cells[a].body.slots == [] {
      return NULL;
    }
    var s := h.cells[a].body.slots;
    v := s[|s| - 1];
    WithSlotsKeepsWF(h.State(), a, s[..|s| - 1]);
    h.cells := h.cells[a := h.cells[a].(body := ArrayBody(s[..|s| - 1]))];
  }

  /** dtl_av_shift */
  method ShiftFirst(h: Heap, a: Ref) returns (v: Ref)
    requires h.Valid() && ArrayOrNull(h.State(), a)
    modifies h
    ensures h.Valid()
    ensures (h.State(), v) == Shift(old(h.State()), a)
  {
    if a == NULL || h.cells[a].body.slots == [] {
      return NULL;
    }
    var s := h.cells[a].body.slots;
    v := s[0];
    WithSlotsKeepsWF(h.State(), a, s[1..]);
    h.cells := h.cells[a := h.cells[a].(body := ArrayBody(s[1..]))];
  }

  /** dtl_av_unshift */
  method Unshift(h: Heap, a: Ref, v: Ref)
    requires h.Valid() && ArrayOrNull(h.State(), a)
    modifies h
    ensures h.Valid()
    ensures h.State() == AfterUnshift(old(h.State()), a, v)
  {
    if a != NULL {
      WithSlotsKeepsWF(h.State(), a, [v] + h.cells[a].body.slots);
      h.cells := h.cells[a := h.cells[a].(body := ArrayBody([v] + h.cells[a].body.slots))];
    }
  }

  /** dtl_av_extend and dtl_av_fill */
  method Extend(h: Heap, a: Ref, n: int)
    requires h.Valid() && ArrayOrNull(h.State(), a)
    modifies h
    ensures h.Valid()
    ensures h.State() == AfterExtend(old(h.State()), a, n)
  {
    if a != NULL {
      WithSlotsKeepsWF(h.State(), a, Extended(h.cells[a].body.slots, n));
      h.cells := h.cells[a := h.cells[a].(body := ArrayBody(Extended(h.cells[a].body.slots, n)))];
    }
  }

  /** dtl_av_clear */
  method Clear(h: Heap, a: Ref)
    requires h.Valid() && ArrayOrNull(h.State(), a)
    modifies h
    ensures h.Valid()
    ensures h.State() == AfterClear(old(h.State()), a)
  {
    ClearKeepsWF(h.State(), a);
    if a != NULL {
      h.ReleaseEach(h.cells[a].body.slots);
      if a in h.cells && h.cells[a].body.ArrayBody? {
        h.cells := h.cells[a := h.cells[a].(body := ArrayBody([]))];
      }
    }
  }

  /** dtl_av_make: a new array, grown to `len` singleton slots, then each slot written in turn. */
  method MakeArray(h: Heap, vs: seq<Ref>, len: int) returns (a: Ref)
    requires h.Valid() && len <= |vs|
    modifies h
    ensures h.Valid()
    ensures (h.State(), a) == Make(old(h.State()), vs, len)
  {
    if len < 0 {
      return NULL;
    }
    ghost var m0 := h.State();
    a := New(h);
    Extend(h, a, len);
    MakeStart(m0, vs, len);
    WriteSlots(h, Make(m0, vs, len).0, a, vs, len);
    assert vs[..len] + Fill(0) == vs[..len];
    WithSlotsOwn(Make(m0, vs, len).0, a);
  }

  /** The loop of dtl_av_make: slot i of the extended array receives vs[i], in order. */
  method WriteSlots(h: Heap, ghost made: Mem, a: Ref, vs: seq<Ref>, len: nat)
    requires h.Valid() && ArrayAt(made, a) && len <= |vs|
    requires h.State() == WithSlots(made, a, vs[..0] + Fill(len - 0))
    modifies h
    ensures h.Valid()
    ensures h.State() == WithSlots(made, a, vs[..len] + Fill(0))
  {
    var i := 0;
    while i < len
      invariant 0 <= i <= len
      invariant h.Valid()
      invariant h.State() == WithSlots(made, a, vs[..i] + Fill(len - i))
    {
      MakeStep(made, a, vs, len, i);
      var _ := Set(h, a, i, vs[i]);
      i := i + 1;
    }
  }


  lemma MadeShape(m: Mem, vs: seq<Ref>, len: int)
    requires WF(m) && 0 <= len <= |vs|
    ensures var (made, a) := Make(m, vs, len);
      && a == NewArray(m).1
      && ArrayAt(made, a) && Slots(made, a) == vs[..len]
      && NewArray(m).0 == WithSlots(made, a, [])
  {
    var (made, a) := Make(m, vs, len);
    assert made.cells == m.cells[a := Cell(1, DV_ARRAY, ArrayBody(vs[..len]))];
  }

  /** Growing the new empty array to `len` singleton slots: the made array before any write. */
  lemma MakeStart(m: Mem, vs: seq<Ref>, len: int)
    requires WF(m) && 0 <= len <= |vs|
    ensures var (made, a) := Make(m, vs, len);
      && a == NewArray(m).1 && ArrayAt(made, a) && Slots(made, a) == vs[..len]
      && ArrayAt(NewArray(m).0, a)
      && AfterExtend(NewArray(m).0, a, len) == WithSlots(made, a, vs[..0] + Fill(len - 0))
  {
    var (made, a) := Make(m, vs, len);
    MadeShape(m, vs, len);
    WithSlotsTwice(made, a, [], Fill(len));
    assert vs[..0] + Fill(len - 0) == Fill(len);
  }

  lemma WithSlotsTwice(m: Mem, a: Ref, t: seq<Ref>, t': seq<Ref>)
    requires ArrayAt(m, a)
    ensures WithSlots(WithSlots(m, a, t), a, t') == WithSlots(m, a, t')
  {
  }

  /** Writing vs[i] into the next singleton slot of a partly made array. */
  lemma MakeStep(made: Mem, a: Ref, vs: seq<Ref>, len: nat, i: nat)
    requires ArrayAt(made, a) && i < len <= |vs|
    ensures var m := WithSlots(made, a, vs[..i] + Fill(len - i));
      AfterSet(m, a, i, vs[i]) == WithSlots(made, a, vs[..i + 1] + Fill(len - (i + 1)))
  {
    var m := WithSlots(made, a, vs[..i] + Fill(len - i));
    SetOverSingleton(m, a, i, vs[i]);
    assert (vs[..i] + Fill(len - i))[i := vs[i]] == vs[..i + 1] + Fill(len - (i + 1));
    WithSlotsTwice(made, a, vs[..i] + Fill(len - i), vs[..i + 1] + Fill(len - (i + 1)));
  }

  lemma WithSlotsOwn(m: Mem, a: Ref)
    requires ArrayAt(m, a)
    ensures WithSlots(m, a, Slots(m, a)) == m
  {
    assert m.cells[a := m.cells[a].(body := ArrayBody(Slots(m, a)))] == m.cells;
  }

  /**
   * dtl_av_sort: NULL is INVALID_ARGUMENT and a key function NOT_IMPLEMENTED,
   * both leaving memory alone; otherwise the slots are sorted in place with
   * the element put back when a comparison fails.
   */
  method Sort(h: Heap, a: Ref, hasKey: bool, lt: (Ref, Ref) -> LtResult, reverse: bool) returns (err: int)
    requires h.Valid() && ArrayOrNull(h.State(), a)
    modifies h
    ensures h.Valid()
    ensures a == NULL ==> err == INVALID_ARGUMENT_ERROR && h.State() == old(h.State())
    ensures a != NULL && hasKey ==> err == NOT_IMPLEMENTED_ERROR && h.State() == old(h.State())
    ensures a != NULL && !hasKey ==>
      var r := SortFrom(Slots(old(h.State()), a), 1, KindIn(old(h.State())), lt, reverse, true);
      err == r.0 && h.State() == WithSlots(old(h.State()), a, r.1)
  {
    if a == NULL {
      return INVALID_ARGUMENT_ERROR;
    }
    if hasKey {
      return NOT_IMPLEMENTED_ERROR;
    }
    var s := h.cells[a].body.slots;
    var buf := new Ref[|s|](k requires 0 <= k < |s| => s[k]);
    assert buf[..] == s;
    err := InsertionSort(buf, KindIn(h.State()), lt, reverse, true);
    h.cells := h.cells[a := h.cells[a].(body := ArrayBody(buf[..]))];
  }
}
