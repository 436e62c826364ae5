/**
 * The dynamic value header shared by every value of the runtime: a kind tag in
 * the low nibble of the flags word, a reference count, and a payload whose
 * shape depends on the kind.  Memory is modelled as a heap of cells indexed by
 * address; `Heap` is the mutable memory and `Mem` a snapshot of it.
 *
 * This module also holds the release cascade (dec_ref, delete and the per-kind
 * teardown of scalars, arrays and hashes), because the cascade is one mutually
 * recursive process across all kinds.
 */
module DynamicValues {

  datatype Option<T> = None | Some(value: T)

  /** An address.  NULL is the null pointer; UNDEF is the static singleton scalar. */
  type Ref = nat
  const NULL: Ref := 0
  const UNDEF: Ref := 1

  // dtl_dv_type_id: the kind tag in the low nibble of the flags word
  const DV_INVALID: bv32 := 0
  const DV_NULL: bv32 := 1
  const DV_SCALAR: bv32 := 2
  const DV_ARRAY: bv32 := 3
  const DV_HASH: bv32 := 4

  // dtl_sv_type_id: the scalar type tag in bits 4-7 of the flags word
  const SV_NONE: bv32 := 0
  const SV_I32: bv32 := 1
  const SV_U32: bv32 := 2
  const SV_I64: bv32 := 3
  const SV_U64: bv32 := 4
  const SV_FLT: bv32 := 5
  const SV_DBL: bv32 := 6
  const SV_BOOL: bv32 := 7
  const SV_STR: bv32 := 8
  const SV_PTR: bv32 := 9
  const SV_DV: bv32 := 10

  // dtl_error_t
  const NO_ERROR: int := 0
  const INVALID_ARGUMENT_ERROR: int := 1
  const MEM_ERROR: int := 2
  const NOT_IMPLEMENTED_ERROR: int := 3
  const TYPE_ERROR: int := 4
  const CONVERSION_ERROR: int := 5

  newtype i32 = x: int | -0x8000_0000 <= x < 0x8000_0000
  newtype u32 = x: int | 0 <= x < 0x1_0000_0000
  newtype i64 = x: int | -0x8000_0000_0000_0000 <= x < 0x8000_0000_0000_0000
  newtype u64 = x: int | 0 <= x < 0x1_0000_0000_0000_0000

  /** A float or double payload, kept opaque: its bits are never interpreted. */
  datatype Float = Float(bits: nat)

  /** The scalar payload union (every member except the string buffer). */
  datatype Val =
    | NoVal                                  // the zeroed payload of a fresh scalar
    | I32(i32: i32)
    | U32(u32: u32)
    | I64(i64: i64)
    | U64(u64: u64)
    | Flt(flt: Float)
    | Dbl(dbl: Float)
    | Bool(bl: bool)
    | Ptr(p: nat, dtor: Option<nat>)         // pointer and optional destructor callback
    | Dv(dv: Ref)                            // a nested dynamic value

  /** A key/value slot of a hash. */
  datatype Entry = Entry(key: string, value: Ref)

  /** What `pAny` points to, per kind. */
  datatype Body =
    | NoBody                                       // DV_NULL values carry no payload
    | ScalarBody(val: Val, str: Option<string>)    // payload union and string buffer
    | ArrayBody(slots: seq<Ref>)
    | HashBody(entries: seq<Entry>)

  datatype Cell = Cell(refCnt: nat, flags: bv32, body: Body)

  /** One invocation of a pointer scalar's destructor callback. */
  datatype DtorCall = DtorCall(dtor: nat, arg: nat)

  /** A snapshot of memory: live cells, the next fresh address, destructor calls made so far. */
  datatype Mem = Mem(cells: map<Ref, Cell>, next: Ref, calls: seq<DtorCall>)

  function Kind(c: Cell): (k: bv32)
    ensures k < 16
  {
    c.flags & 0xF
  }

  function SvTypeOf(c: Cell): (t: bv32)
    ensures t < 16
  {
    (c.flags & 0xF0) >> 4
  }

  predicate ValidKind(c: Cell) {
    DV_NULL <= Kind(c) <= DV_HASH
  }

  /** The payload member read for scalar type `t` is the one last written. */
  predicate ValMatches(t: bv32, v: Val) {
    && (t == SV_I32 ==> v.I32?)
    && (t == SV_U32 ==> v.U32?)
    && (t == SV_I64 ==> v.I64?)
    && (t == SV_U64 ==> v.U64?)
    && (t == SV_FLT ==> v.Flt?)
    && (t == SV_DBL ==> v.Dbl?)
    && (t == SV_BOOL ==> v.Bool?)
    && (t == SV_PTR ==> v.Ptr?)
    && (t == SV_DV ==> v.Dv?)
  }

  predicate UniqueKeys(es: seq<Entry>) {
    forall i, j | 0 <= i < j < |es| :: es[i].key != es[j].key
  }

  /** A cell as the constructors and setters leave it. */
  predicate CellOk(c: Cell) {
    match c.body
    case NoBody => c.flags == DV_NULL
    case ScalarBody(val, str) =>
      && c.flags & !0xF0 == DV_SCALAR
      && SvTypeOf(c) <= SV_DV
      && (str.Some? <==> SvTypeOf(c) == SV_STR)
      && ValMatches(SvTypeOf(c), val)
    case ArrayBody(_) => c.flags == DV_ARRAY
    case HashBody(es) => c.flags == DV_HASH && UniqueKeys(es)
  }

  ghost predicate WF(m: Mem) {
    && NULL !in m.cells
    && UNDEF in m.cells
    && Kind(m.cells[UNDEF]) == DV_SCALAR
    && UNDEF < m.next
    && forall r | r in m.cells :: r < m.next && CellOk(m.cells[r])
  }

  /** The memory at start-up: only the singleton scalar, of type NONE, with count 1. */
  function Boot(): (m: Mem)
    ensures WF(m) && m.cells.Keys == {UNDEF}
  {
    Mem(map[UNDEF := Cell(1, DV_SCALAR, ScalarBody(NoVal, None))], UNDEF + 1, [])
  }

  /** `r` is NULL or a live address. */
  predicate Addressable(m: Mem, r: Ref) {
    r == NULL || r in m.cells
  }

  /** malloc + create: the cell goes to a fresh address. */
  function Allocate(m: Mem, c: Cell): (res: (Mem, Ref))
    ensures res.1 !in m.cells ==> res.0.cells == m.cells[res.1 := c]
  {
    (m.(cells := m.cells[m.next := c], next := m.next + 1), m.next)
  }

  lemma AllocateFresh(m: Mem, c: Cell)
    requires WF(m) && CellOk(c)
    ensures var (m', r) := Allocate(m, c);
      && r !in m.cells && r != NULL && r != UNDEF
      && WF(m') && m'.cells == m.cells[r := c] && m'.calls == m.calls
  {
  }

  /** dtl_dv_null: a value of kind NULL with count 1. */
  function NewNull(m: Mem): (res: (Mem, Ref))
  {
    Allocate(m, Cell(1, DV_NULL, NoBody))
  }

  lemma {:induction false} NewNullIsNullWithCountOne(m: Mem)
    requires WF(m)
    ensures var (m', r) := NewNull(m);
      && r != NULL && r !in m.cells && WF(m')
      && m'.cells[r].refCnt == 1 && DvType(m', r) == DV_NULL
      && forall x | x in m.cells :: x in m'.cells && m'.cells[x] == m.cells[x]
  {
    AllocateFresh(m, Cell(1, DV_NULL, NoBody));
  }

  /** dtl_dv_type: INVALID for NULL, otherwise the low nibble of the flags. */
  function DvType(m: Mem, r: Ref): (k: bv32)
    requires Addressable(m, r)
    ensures k < 16
    ensures r == NULL ==> k == DV_INVALID
  {
    if r == NULL then DV_INVALID else Kind(m.cells[r])
  }

  /** dtl_dv_inc_ref: no effect on NULL, otherwise one more reference (the singleton included). */
  function AfterIncRef(m: Mem, r: Ref): (m': Mem)
    ensures m'.next == m.next && m'.calls == m.calls && m'.cells.Keys == m.cells.Keys
    ensures forall x | x in m.cells && x != r :: m'.cells[x] == m.cells[x]
    ensures r != NULL && r in m.cells ==>
      m'.cells[r] == m.cells[r].(refCnt := m.cells[r].refCnt + 1)
    ensures r == NULL ==> m' == m
  {
    if r == NULL || r !in m.cells then m
    else m.(cells := m.cells[r := m.cells[r].(refCnt := m.cells[r].refCnt + 1)])
  }

  // ---------------------------------------------------------------------------
  // The release cascade
  // ---------------------------------------------------------------------------

  /** The cells that still hold at least one reference. */
  ghost function Live(m: Mem): set<Ref> {
    set r | r in m.cells && m.cells[r].refCnt > 0
  }

  predicate Lowered(c: Cell, c': Cell) {
    c'.refCnt <= c.refCnt && c'.flags == c.flags && c'.body == c.body
  }

  /** What releasing may do: free cells other than the singleton, lower counts, call destructors. */
  ghost predicate Shrinks(m: Mem, m': Mem) {
    && m'.next == m.next
    && m'.cells.Keys <= m.cells.Keys
    && (UNDEF in m.cells ==> UNDEF in m'.cells)
    && (forall r | r in m'.cells :: Lowered(m.cells[r], m'.cells[r]))
    && m.calls <= m'.calls
  }

  /** No cell that held references is left at zero without having been freed. */
  ghost predicate NoStranded(m: Mem, m': Mem) {
    forall r | r in m'.cells && r in m.cells && m.cells[r].refCnt > 0 :: m'.cells[r].refCnt > 0
  }

  /** Nothing is freed twice: every freed cell still held references. */
  ghost predicate FreesOnlyLive(m: Mem, m': Mem) {
    forall r | r in m.cells && r !in m'.cells :: m.cells[r].refCnt > 0
  }

  ghost predicate KindsValid(m: Mem) {
    forall r | r in m.cells :: ValidKind(m.cells[r])
  }

  lemma ShrinksLive(m: Mem, m': Mem)
    requires Shrinks(m, m')
    ensures Live(m') <= Live(m)
  {
  }

  lemma ZeroingDropsLive(m: Mem, r: Ref)
    requires r in m.cells && m.cells[r].refCnt > 0
    ensures Live(m.(cells := m.cells[r := m.cells[r].(refCnt := 0)])) < Live(m)
  {
    var m' := m.(cells := m.cells[r := m.cells[r].(refCnt := 0)]);
    assert r in Live(m) && r !in Live(m');
    assert Live(m') <= Live(m);
  }

  function Free(m: Mem, r: Ref): Mem {
    m.(cells := m.cells - {r})
  }

  /**
   * dtl_dv_dec_ref: no effect on NULL, on the singleton or on a count already at
   * zero; otherwise one reference fewer, and at zero the value is deleted.
   */
  function AfterDecRef(m: Mem, r: Ref): (m': Mem)
    ensures Shrinks(m, m')
    decreases Live(m), 1, 0
  {
    if r == NULL || r == UNDEF || r !in m.cells || m.cells[r].refCnt == 0 then m
    else if m.cells[r].refCnt > 1 then
      m.(cells := m.cells[r := m.cells[r].(refCnt := m.cells[r].refCnt - 1)])
    else
      var m1 := m.(cells := m.cells[r := m.cells[r].(refCnt := 0)]);
      ZeroingDropsLive(m, r);
      AfterDelete(m1, r)
  }

  /**
   * dtl_dv_delete: dispatch on the kind.  INVALID (and the unused nibble values)
   * do nothing; NULL frees; scalar, array and hash tear down their payload first.
   */
  function AfterDelete(m: Mem, r: Ref): (m': Mem)
    requires r != UNDEF
    ensures Shrinks(m, m')
    decreases Live(m), 2, 0
  {
    if r !in m.cells then m
    else
      var c := m.cells[r];
      var k := Kind(c);
      if k == DV_NULL then Free(m, r)
      else if k == DV_SCALAR then Free(AfterScalarDestroy(m, c), r)
      else if k == DV_ARRAY then
        Free(if c.body.ArrayBody? then AfterReleaseAll(m, c.body.slots) else m, r)
      else if k == DV_HASH then
        Free(if c.body.HashBody? then AfterReleaseAll(m, Values(c.body.entries)) else m, r)
      else m
  }

  /**
   * dtl_sv_destroy: a string buffer is freed (no effect on other values); a
   * pointer's destructor is called once; a nested value is released.
   */
  function AfterScalarDestroy(m: Mem, c: Cell): (m': Mem)
    ensures Shrinks(m, m')
    decreases Live(m), 1, 1
  {
    if !c.body.ScalarBody? then m
    else
      var t := SvTypeOf(c);
      match c.body.val
      case Ptr(p, dtor) =>
        if t == SV_PTR && dtor.Some? then m.(calls := m.calls + [DtorCall(dtor.value, p)]) else m
      case Dv(dv) =>
        if t == SV_DV && dv != NULL then AfterDecRef(m, dv) else m
      case _ => m
  }

  /** The destructor callback of the sequence and hash primitives, applied to each slot in order. */
  function AfterReleaseAll(m: Mem, rs: seq<Ref>): (m': Mem)
    ensures Shrinks(m, m')
    decreases Live(m), 1, |rs| + 1
  {
    if rs == [] then m
    else
      var m1 := AfterDecRef(m, rs[0]);
      ShrinksLive(m, m1);
      AfterReleaseAll(m1, rs[1..])
  }

  // ---------------------------------------------------------------------------
  // Safety of the cascade
  // ---------------------------------------------------------------------------

  /**
   * What a release preserves: nothing is freed twice, and (when every cell has
   * a valid kind) no value that held references is left at zero unfreed.
   */
  ghost predicate CascadeOk(m: Mem, m': Mem) {
    && FreesOnlyLive(m, m')
    && (KindsValid(m) ==> NoStranded(m, m') && KindsValid(m'))
  }

  lemma CascadeOkTrans(m0: Mem, m1: Mem, m2: Mem)
    requires Shrinks(m0, m1) && CascadeOk(m0, m1) && CascadeOk(m1, m2) && Shrinks(m1, m2)
    ensures CascadeOk(m0, m2)
  {
  }

  /** A release frees only values that still held references, and strands none. */
  lemma {:induction false} DecRefSafe(m: Mem, r: Ref)
    ensures CascadeOk(m, AfterDecRef(m, r))
    decreases Live(m), 1, 0
  {
    if r == NULL || r == UNDEF || r !in m.cells || m.cells[r].refCnt == 0 {
    } else if m.cells[r].refCnt > 1 {
    } else {
      LastRefSafe(m, r);
    }
  }

  /** Releasing the last reference: the value is zeroed, then deleted. */
  lemma {:induction false} LastRefSafe(m: Mem, r: Ref)
    requires r in m.cells && r != NULL && r != UNDEF && m.cells[r].refCnt == 1
    ensures CascadeOk(m, AfterDecRef(m, r))
    decreases Live(m), 0, 0
  {
    var m1 := m.(cells := m.cells[r := m.cells[r].(refCnt := 0)]);
    ZeroingDropsLive(m, r);
    DeleteSafe(m1, r);
    DeleteFrees(m1, r);
    assert AfterDecRef(m, r) == AfterDelete(m1, r);
  }

  /** Deleting a value of a valid kind frees it. */
  lemma DeleteFrees(m: Mem, r: Ref)
    requires r != UNDEF
    ensures r in m.cells && ValidKind(m.cells[r]) ==> r !in AfterDelete(m, r).cells
  {
  }

  /** Releasing the last reference to a value of a valid kind frees it. */
  lemma DecRefLastFrees(m: Mem, r: Ref)
    requires r in m.cells && r != NULL && r != UNDEF && m.cells[r].refCnt == 1 && ValidKind(m.cells[r])
    ensures r !in AfterDecRef(m, r).cells
  {
    DeleteFrees(m.(cells := m.cells[r := m.cells[r].(refCnt := 0)]), r);
  }

  lemma {:induction false} DeleteSafe(m: Mem, r: Ref)
    requires r != UNDEF
    ensures var m' := AfterDelete(m, r);
      && (forall x | x in m.cells && x !in m'.cells && x != r :: m.cells[x].refCnt > 0)
      && (KindsValid(m) ==> NoStranded(m, m') && KindsValid(m'))
    decreases Live(m), 2, 0
  {
    if r in m.cells {
      var c := m.cells[r];
      var k := Kind(c);
      if k == DV_SCALAR {
        ScalarDestroySafe(m, c);
      } else if k == DV_ARRAY && c.body.ArrayBody? {
        ReleaseAllSafe(m, c.body.slots);
      } else if k == DV_HASH && c.body.HashBody? {
        ReleaseAllSafe(m, Values(c.body.entries));
      }
    }
  }

  lemma {:induction false} ScalarDestroySafe(m: Mem, c: Cell)
    ensures CascadeOk(m, AfterScalarDestroy(m, c))
    decreases Live(m), 1, 1
  {
    if c.body.ScalarBody? && c.body.val.Dv? && SvTypeOf(c) == SV_DV && c.body.val.dv != NULL {
      DecRefSafe(m, c.body.val.dv);
    }
  }

  lemma {:induction false} ReleaseAllSafe(m: Mem, rs: seq<Ref>)
    ensures CascadeOk(m, AfterReleaseAll(m, rs))
    decreases Live(m), 1, |rs| + 1
  {
    if rs != [] {
      var m1 := AfterDecRef(m, rs[0]);
      DecRefSafe(m, rs[0]);
      ShrinksLive(m, m1);
      ReleaseAllSafe(m1, rs[1..]);
      CascadeOkTrans(m, m1, AfterReleaseAll(m1, rs[1..]));
    }
  }

  function Values(es: seq<Entry>): (vs: seq<Ref>)
    ensures |vs| == |es| && forall i | 0 <= i < |es| :: vs[i] == es[i].value
  {
    if es == [] then [] else [es[0].value] + Values(es[1..])
  }

  lemma ShrinksKeepsWF(m: Mem, m': Mem)
    requires WF(m) && Shrinks(m, m')
    ensures WF(m')
  {
  }

  /** Replacing one cell by a well-formed cell (a scalar, for the singleton) keeps memory well formed. */
  lemma ReplaceKeepsWF(m: Mem, x: Ref, c: Cell)
    requires WF(m) && x in m.cells && CellOk(c) && (x == UNDEF ==> Kind(c) == DV_SCALAR)
    ensures WF(m.(cells := m.cells[x := c]))
  {
    var m' := m.(cells := m.cells[x := c]);
    forall y | y in m'.cells
      ensures y < m'.next && CellOk(m'.cells[y])
    {
      if y != x {
        assert CellOk(m.cells[y]);
      }
    }
  }

  /** A retain changes a count only, so memory stays well formed. */
  lemma IncRefKeepsWF(m: Mem, r: Ref)
    requires WF(m)
    ensures WF(AfterIncRef(m, r))
  {
    var m' := AfterIncRef(m, r);
    forall x | x in m'.cells
      ensures x < m'.next && CellOk(m'.cells[x])
    {
      assert CellOk(m.cells[x]);
    }
  }

  // ---------------------------------------------------------------------------
  // Laws of the reference count
  // ---------------------------------------------------------------------------

  /** On a live, non-singleton value, inc_ref then dec_ref restores memory exactly. */
  lemma IncThenDecRestores(m: Mem, r: Ref)
    requires r in m.cells && r != UNDEF && r != NULL && m.cells[r].refCnt >= 1
    ensures AfterDecRef(AfterIncRef(m, r), r) == m
  {
    var m1 := AfterIncRef(m, r);
    assert m1.cells[r].refCnt > 1;
    assert m1.cells[r := m1.cells[r].(refCnt := m1.cells[r].refCnt - 1)] == m.cells;
  }

  function Retained(m: Mem, r: Ref, n: nat): Mem
    decreases n
  {
    if n == 0 then m else Retained(AfterIncRef(m, r), r, n - 1)
  }

  function Released(m: Mem, r: Ref, n: nat): Mem
    decreases n
  {
    if n == 0 then m else Released(AfterDecRef(m, r), r, n - 1)
  }

  lemma {:induction false} RetainedCount(m: Mem, r: Ref, n: nat)
    requires r in m.cells && r != NULL
    ensures var m' := Retained(m, r, n);
      m'.cells == m.cells[r := m.cells[r].(refCnt := m.cells[r].refCnt + n)]
      && m'.next == m.next && m'.calls == m.calls
    decreases n
  {
    if n > 0 {
      var m1 := AfterIncRef(m, r);
      RetainedCount(m1, r, n - 1);
    }
  }

  lemma {:induction false} ReleasedCount(m: Mem, r: Ref, n: nat, base: nat)
    requires r in m.cells && r != NULL && r != UNDEF && base >= 1
    requires m.cells[r].refCnt == base + n
    ensures Released(m, r, n) == m.(cells := m.cells[r := m.cells[r].(refCnt := base)])
    decreases n
  {
    if n > 0 {
      var m1 := AfterDecRef(m, r);
      assert m1 == m.(cells := m.cells[r := m.cells[r].(refCnt := base + n - 1)]);
      ReleasedCount(m1, r, n - 1, base);
    }
  }

  /**
   * After n retains and n releases a live, non-singleton value is not destroyed
   * and memory is exactly as before.
   */
  lemma {:induction false} RetainReleaseBalance(m: Mem, r: Ref, n: nat)
    requires r in m.cells && r != NULL && r != UNDEF && m.cells[r].refCnt >= 1
    ensures Released(Retained(m, r, n), r, n) == m
  {
    RetainedCount(m, r, n);
    var m1 := Retained(m, r, n);
    ReleasedCount(m1, r, n, m.cells[r].refCnt);
    assert m1.cells[r := m1.cells[r].(refCnt := m.cells[r].refCnt)] == m.cells;
  }

  /** dec_ref on NULL, on the singleton, or on a value already at zero changes nothing. */
  lemma DecRefIgnored(m: Mem, r: Ref)
    requires r == NULL || r == UNDEF || r !in m.cells || m.cells[r].refCnt == 0
    ensures AfterDecRef(m, r) == m
  {
  }

  /** The count of a value still shared after dec_ref drops by exactly one and nothing else changes. */
  lemma DecRefShared(m: Mem, r: Ref)
    requires r in m.cells && r != NULL && r != UNDEF && m.cells[r].refCnt >= 2
    ensures AfterDecRef(m, r) == m.(cells := m.cells[r := m.cells[r].(refCnt := m.cells[r].refCnt - 1)])
  {
    assert m.cells[r].refCnt != 0 && m.cells[r].refCnt > 1;
  }

  // ---------------------------------------------------------------------------
  // Releasing a sequence of references that cascades nowhere
  // ---------------------------------------------------------------------------

  function Occurrences(rs: seq<Ref>, x: Ref): nat {
    multiset(rs)[x]
  }

  /** Each reference in `rs` is counted more often than it occurs, so no release deletes. */
  ghost predicate NoCascade(m: Mem, rs: seq<Ref>) {
    forall x | x in rs && x in m.cells && x != UNDEF :: m.cells[x].refCnt > Occurrences(rs, x)
  }

  /** The counts after subtracting each reference's occurrences (the singleton excepted). */
  ghost function Decremented(m: Mem, rs: seq<Ref>): map<Ref, Cell>
    requires NoCascade(m, rs)
  {
    map x | x in m.cells ::
      if x == UNDEF || x == NULL then m.cells[x]
      else if x !in rs then m.cells[x]
      else m.cells[x].(refCnt := m.cells[x].refCnt - Occurrences(rs, x))
  }

  /** One reference fewer on `x`, unless it is NULL, the singleton, dangling or already at zero. */
  function DropOne(m: Mem, x: Ref): Mem {
    if x == NULL || x == UNDEF || x !in m.cells || m.cells[x].refCnt == 0 then m
    else m.(cells := m.cells[x := m.cells[x].(refCnt := m.cells[x].refCnt - 1)])
  }

  lemma DecRefNoDelete(m: Mem, x: Ref)
    requires x in m.cells && x != UNDEF ==> m.cells[x].refCnt != 1
    ensures AfterDecRef(m, x) == DropOne(m, x)
  {
  }

  lemma DecrementedStep(m: Mem, x: Ref, rest: seq<Ref>)
    requires NULL !in m.cells
    requires NoCascade(m, [x] + rest)
    ensures x in m.cells && x != UNDEF ==> m.cells[x].refCnt != 1
    ensures NoCascade(DropOne(m, x), rest)
    ensures Decremented(DropOne(m, x), rest) == Decremented(m, [x] + rest)
  {
    var rs := [x] + rest;
    assert multiset(rs) == multiset{x} + multiset(rest);
    assert x in rs;
    DropOneNoCascade(m, x, rest);
    var m1 := DropOne(m, x);
    forall y | y in m.cells
      ensures Decremented(m1, rest)[y] == Decremented(m, rs)[y]
    {
      DecrementedAt(m, x, rest, y);
    }
  }

  lemma DropOneNoCascade(m: Mem, x: Ref, rest: seq<Ref>)
    requires NoCascade(m, [x] + rest)
    ensures NoCascade(DropOne(m, x), rest)
  {
    var rs := [x] + rest;
    assert multiset(rs) == multiset{x} + multiset(rest);
    var m1 := DropOne(m, x);
    forall y | y in rest && y in m1.cells && y != UNDEF
      ensures m1.cells[y].refCnt > Occurrences(rest, y)
    {
      assert y in rs;
    }
  }

  lemma DecrementedAt(m: Mem, x: Ref, rest: seq<Ref>, y: Ref)
    requires NULL !in m.cells && NoCascade(m, [x] + rest) && NoCascade(DropOne(m, x), rest) && y in m.cells
    ensures Decremented(DropOne(m, x), rest)[y] == Decremented(m, [x] + rest)[y]
  {
    var rs := [x] + rest;
    assert multiset(rs) == multiset{x} + multiset(rest);
    assert y in rs <==> y == x || y in rest;
  }

  /**
   * Releasing references whose counts exceed their multiplicity lowers each
   * count by exactly its multiplicity and frees nothing.
   */
  lemma {:induction false} ReleaseAllNoCascade(m: Mem, rs: seq<Ref>)
    requires NULL !in m.cells
    requires NoCascade(m, rs)
    ensures AfterReleaseAll(m, rs) == m.(cells := Decremented(m, rs))
    decreases |rs|
  {
    if rs == [] {
      assert Decremented(m, rs) == m.cells;
    } else {
      assert rs == [rs[0]] + rs[1..];
      DecrementedStep(m, rs[0], rs[1..]);
      DecRefNoDelete(m, rs[0]);
      ReleaseAllNoCascade(DropOne(m, rs[0]), rs[1..]);
    }
  }

  /**
   * Releasing the last reference to a container whose elements are each counted
   * more often than they occur in it frees the container and lowers each
   * element's count by its number of occurrences.
   */
  lemma ReleaseContainer(m: Mem, r: Ref)
    requires NULL !in m.cells && r in m.cells && r != UNDEF && m.cells[r].refCnt == 1 && CellOk(m.cells[r])
    requires m.cells[r].body.ArrayBody? || m.cells[r].body.HashBody?
    requires var kids := Children(m.cells[r].body);
      r !in kids && NoCascade(m, kids)
    ensures var kids := Children(m.cells[r].body);
      AfterDecRef(m, r).cells == Decremented(m, kids) - {r}
  {
    var c := m.cells[r];
    var kids := Children(c.body);
    var m1 := m.(cells := m.cells[r := c.(refCnt := 0)]);
    DecRefLast(m, r);
    DeleteContainer(m1, r);
    assert NoCascade(m1, kids) by {
      forall x | x in kids && x in m1.cells && x != UNDEF
        ensures m1.cells[x].refCnt > Occurrences(kids, x)
      {
        assert x != r;
      }
    }
    ReleaseAllNoCascade(m1, kids);
    assert AfterDecRef(m, r).cells == Decremented(m1, kids) - {r};
    DecrementedFrame(m, r, c.(refCnt := 0), kids);
  }

  lemma DecrementedFrame(m: Mem, r: Ref, c: Cell, kids: seq<Ref>)
    requires r in m.cells && r !in kids
    requires NoCascade(m, kids) && NoCascade(m.(cells := m.cells[r := c]), kids)
    ensures Decremented(m.(cells := m.cells[r := c]), kids) - {r} == Decremented(m, kids) - {r}
  {
    var d1, d := Decremented(m.(cells := m.cells[r := c]), kids), Decremented(m, kids);
    forall y | y in d1 && y != r
      ensures d1[y] == d[y]
    {
    }
  }

  /** Releasing the last reference zeroes the count, then deletes. */
  lemma DecRefLast(m: Mem, r: Ref)
    requires r in m.cells && r != NULL && r != UNDEF && m.cells[r].refCnt == 1
    ensures AfterDecRef(m, r) == AfterDelete(m.(cells := m.cells[r := m.cells[r].(refCnt := 0)]), r)
  {
  }

  lemma DeleteContainer(m: Mem, r: Ref)
    requires r in m.cells && r != UNDEF && CellOk(m.cells[r])
    requires m.cells[r].body.ArrayBody? || m.cells[r].body.HashBody?
    ensures AfterDelete(m, r) == Free(AfterReleaseAll(m, Children(m.cells[r].body)), r)
  {
    var c := m.cells[r];
    if c.body.ArrayBody? {
      assert Kind(c) == DV_ARRAY;
    } else {
      assert Kind(c) == DV_HASH;
    }
  }

  /** The references a container owns. */
  function Children(b: Body): seq<Ref> {
    match b
    case ArrayBody(slots) => slots
    case HashBody(es) => Values(es)
    case ScalarBody(Dv(dv), _) => [dv]
    case _ => []
  }

  // ---------------------------------------------------------------------------
  // The mutable memory
  // ---------------------------------------------------------------------------

  class Heap {
    var cells: map<Ref, Cell>
    var next: Ref
    var calls: seq<DtorCall>

    function State(): Mem
      reads this
    {
      Mem(cells, next, calls)
    }

    ghost predicate Valid()
      reads this
    {
      WF(State())
    }

    constructor ()
      ensures Valid() && State() == Boot()
    {
      cells := Boot().cells;
      next := Boot().next;
      calls := [];
    }

    /** Allocates and initialises a value; the count and flags come from `c`. */
    method Alloc(c: Cell) returns (r: Ref)
      requires Valid() && CellOk(c)
      modifies this
      ensures Valid() && (State(), r) == Allocate(old(State()), c)
      ensures r !in old(cells) && r != NULL && r != UNDEF && cells == old(cells)[r := c]
    {
      AllocateFresh(State(), c);
      r := next;
      cells := cells[r := c];
      next := next + 1;
    }

    /** dtl_dv_null */
    method Null() returns (r: Ref)
      requires Valid()
      modifies this
      ensures Valid() && (State(), r) == NewNull(old(State()))
    {
      r := Alloc(Cell(1, DV_NULL, NoBody));
    }

    /** dtl_dv_inc_ref */
    method IncRef(r: Ref)
      requires Valid()
      modifies this
      ensures Valid()
      ensures State() == AfterIncRef(old(State()), r)
    {
      IncRefKeepsWF(State(), r);
      if r != NULL && r in cells {
        cells := cells[r := cells[r].(refCnt := cells[r].refCnt + 1)];
      }
    }

    /** dtl_dv_dec_ref */
    method DecRef(r: Ref)
      requires Valid()
      modifies this
      ensures Valid()
      ensures State() == AfterDecRef(old(State()), r)
      decreases Live(State()), 1, 0
    {
      if r != NULL && r != UNDEF && r in cells && cells[r].refCnt > 0 {
        if cells[r].refCnt > 1 {
          cells := cells[r := cells[r].(refCnt := cells[r].refCnt - 1)];
        } else {
          ZeroingDropsLive(State(), r);
          cells := cells[r := cells[r].(refCnt := 0)];
          Delete(r);
        }
      }
    }

    /** dtl_dv_delete, with dtl_sv_delete, dtl_av_delete and dtl_hv_delete */
    method Delete(r: Ref)
      requires Valid() && r != UNDEF
      modifies this
      ensures Valid()
      ensures State() == AfterDelete(old(State()), r)
      decreases Live(State()), 2, 0
    {
      if r !in cells {
        return;
      }
      ghost var m0 := State();
      var c := cells[r];
      var k := Kind(c);
      if k == DV_NULL {
        cells := cells - {r};
      } else if k == DV_SCALAR {
        if c.body.ScalarBody? {
          var t := SvTypeOf(c);
          match c.body.val
          case Ptr(p, dtor) =>
            if t == SV_PTR && dtor.Some? {
              calls := calls + [DtorCall(dtor.value, p)];
            }
          case Dv(dv) =>
            if t == SV_DV && dv != NULL {
              DecRef(dv);
            }
          case _ =>
        }
        assert State() == AfterScalarDestroy(m0, c);
        cells := cells - {r};
      } else if k == DV_ARRAY {
        if c.body.ArrayBody? {
          ReleaseEach(c.body.slots);
        }
        cells := cells - {r};
      } else if k == DV_HASH {
        if c.body.HashBody? {
          ReleaseEach(Values(c.body.entries));
        }
        cells := cells - {r};
      }
    }

    /** The destructor callback of the sequence and hash primitives, applied to each element. */
    method ReleaseEach(rs: seq<Ref>)
      requires Valid()
      modifies this
      ensures Valid()
      ensures State() == AfterReleaseAll(old(State()), rs)
      decreases Live(State()), 1, |rs| + 1
    {
      ghost var m0 := State();
      var i := 0;
      while i < |rs|
        invariant 0 <= i <= |rs|
        invariant AfterReleaseAll(State(), rs[i..]) == AfterReleaseAll(m0, rs)
        invariant Live(State()) <= Live(m0)
        invariant Valid()
      {
        ghost var before := State();
        assert rs[i..][0] == rs[i] && rs[i..][1..] == rs[i + 1..];
        DecRef(rs[i]);
        ShrinksLive(before, State());
        i := i + 1;
      }
    }
  }
}
