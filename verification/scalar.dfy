/**
 * The scalar value: a payload tagged with its type in bits 4-7 of the flags
 * word, the type transition that releases a nested value and creates or
 * destroys the string buffer, the setters, the coercing getters and the text
 * and typed views.
 */
module Scalars {
  import opened DynamicValues
  import opened NumText

  // ---------------------------------------------------------------------------
  // Creation
  // ---------------------------------------------------------------------------

  /** dtl_sv_create: a zeroed payload, kind SCALAR (so type NONE) and count 1. */
  function NewScalarCell(): (c: Cell)
    ensures CellOk(c) && Kind(c) == DV_SCALAR && SvTypeOf(c) == SV_NONE && c.refCnt == 1
  {
    Cell(1, DV_SCALAR, ScalarBody(NoVal, None))
  }

  /** dtl_sv_new */
  function NewScalar(m: Mem): (res: (Mem, Ref))
  {
    Allocate(m, NewScalarCell())
  }

  lemma NewScalarIsFresh(m: Mem)
    requires WF(m)
    ensures var (m', r) := NewScalar(m);
      && r != NULL && r !in m.cells && WF(m')
      && DvType(m', r) == DV_SCALAR && SvType(m', r) == SV_NONE && m'.cells[r].refCnt == 1
      && forall x | x in m.cells :: x in m'.cells && m'.cells[x] == m.cells[x]
  {
    AllocateFresh(m, NewScalarCell());
  }

  predicate ScalarAt(m: Mem, s: Ref) {
    s in m.cells && m.cells[s].body.ScalarBody?
  }

  /** The arguments the scalar operations accept: NULL or a scalar. */
  predicate ScalarOrNull(m: Mem, s: Ref) {
    s == NULL || ScalarAt(m, s)
  }

  /** dtl_sv_type: NONE for NULL, otherwise bits 4-7 of the flags. */
  function SvType(m: Mem, s: Ref): (t: bv32)
    requires Addressable(m, s)
    ensures t < 16
    ensures s == NULL ==> t == SV_NONE
  {
    if s == NULL then SV_NONE else SvTypeOf(m.cells[s])
  }

  // ---------------------------------------------------------------------------
  // The type transition (dtl_sv_set_type)
  // ---------------------------------------------------------------------------

  /**
   * The flags and string buffer after changing the type tag to `t`: the tag
   * bits are replaced, the string buffer is destroyed when leaving STR and
   * created empty when entering it.
   */
  function Retag(c: Cell, t: bv32): (c': Cell)
    requires c.body.ScalarBody?
  {
    var cur := SvTypeOf(c);
    var str :=
      if cur == SV_STR && t != SV_STR then None
      else if cur != SV_STR && t == SV_STR then Some("")
      else c.body.str;
    c.(flags := (c.flags & !0xF0) | ((t << 4) & 0xF0), body := c.body.(str := str))
  }

  /** The tag read back is the one written, and no other flag bit changes. */
  lemma RetagSetsType(c: Cell, t: bv32)
    requires c.body.ScalarBody? && t < 16
    ensures var c' := Retag(c, t);
      && SvTypeOf(c') == t
      && Kind(c') == Kind(c)
      && c'.flags & !0xF0 == c.flags & !0xF0
      && c'.refCnt == c.refCnt && c'.body.val == c.body.val
  {
  }

  /** The string buffer exists after the transition exactly when the new type is STR. */
  lemma RetagStringBuffer(c: Cell, t: bv32)
    requires c.body.ScalarBody? && t < 16
    requires c.body.str.Some? <==> SvTypeOf(c) == SV_STR
    ensures var c' := Retag(c, t);
      && (c'.body.str.Some? <==> t == SV_STR)
      && (SvTypeOf(c) == SV_STR && t == SV_STR ==> c'.body.str == c.body.str)
      && (SvTypeOf(c) != SV_STR && t == SV_STR ==> c'.body.str == Some(""))
  {
    RetagSetsType(c, t);
  }

  /** Retagging a well-formed scalar to a type whose payload is present keeps it well formed. */
  lemma RetagOk(c: Cell, t: bv32, v: Val)
    requires CellOk(c) && c.body.ScalarBody? && t <= SV_DV && ValMatches(t, v)
    ensures var c' := Retag(c, t);
      CellOk(c'.(body := c'.body.(val := v)))
  {
    RetagSetsType(c, t);
    RetagStringBuffer(c, t);
  }

  /** The nested value a scalar of type DV holds, or NULL. */
  function Nested(c: Cell): (d: Ref)
    ensures d != NULL ==> c.body.ScalarBody? && SvTypeOf(c) == SV_DV && c.body.val == Dv(d)
  {
    if c.body.ScalarBody? && SvTypeOf(c) == SV_DV && c.body.val.Dv? then c.body.val.dv else NULL
  }

  /** dtl_sv_set_type: release a nested value, then retag. */
  function AfterSetType(m: Mem, s: Ref, t: bv32): (m': Mem)
    requires ScalarAt(m, s)
    ensures Nested(m.cells[s]) == NULL ==>
      m'.cells == m.cells[s := Retag(m.cells[s], t)] && m'.next == m.next && m'.calls == m.calls
  {
    var m1 := AfterDecRef(m, Nested(m.cells[s]));
    if s in m1.cells then m1.(cells := m1.cells[s := Retag(m1.cells[s], t)]) else m1
  }

  /** Writes the payload union member, if the scalar is still there. */
  function Store(m: Mem, s: Ref, v: Val): Mem {
    if ScalarAt(m, s) then m.(cells := m.cells[s := m.cells[s].(body := m.cells[s].body.(val := v))])
    else m
  }

  /** Writes the string buffer, if the scalar is still there. */
  function StoreText(m: Mem, s: Ref, text: string): Mem {
    if ScalarAt(m, s) then m.(cells := m.cells[s := m.cells[s].(body := m.cells[s].body.(str := Some(text)))])
    else m
  }

  lemma AfterSetTypeKeepsScalar(m: Mem, s: Ref, t: bv32)
    requires ScalarAt(m, s)
    ensures var m' := AfterSetType(m, s, t);
      Shrinks(m, AfterDecRef(m, Nested(m.cells[s])))
      && (s in m'.cells ==> ScalarAt(m', s) && m'.cells[s].refCnt <= m.cells[s].refCnt)
  {
  }

  // ---------------------------------------------------------------------------
  // Setters
  // ---------------------------------------------------------------------------

  /**
   * set_dbl and set_bool: change the type (releasing a nested value once) and
   * store the payload.  This is also what the other value setters are meant to do.
   */
  function AfterSet(m: Mem, s: Ref, t: bv32, v: Val): (m': Mem)
    requires ScalarOrNull(m, s)
  {
    if s == NULL then m else Store(AfterSetType(m, s, t), s, v)
  }

  /**
   * set_i32, set_u32, set_i64, set_u64, set_flt and set_ptr as written: a nested
   * value is released, and then released again by the type change.
   */
  function AfterSetReleasing(m: Mem, s: Ref, t: bv32, v: Val): (m': Mem)
    requires ScalarOrNull(m, s)
  {
    if s == NULL then m
    else
      var m1 := AfterDecRef(m, Nested(m.cells[s]));
      if s in m1.cells then Store(AfterSetType(m1, s, t), s, v) else m1
  }

  /**
   * set_cstr, set_str and set_bstr: change the type to STR and write the text.
   * A NULL text (None) still changes the type, and leaves the string buffer as
   * the type change left it.
   */
  function AfterSetText(m: Mem, s: Ref, text: Option<string>): (m': Mem)
    requires ScalarOrNull(m, s)
  {
    if s == NULL then m
    else
      var m1 := AfterSetType(m, s, SV_STR);
      if text.Some? then StoreText(m1, s, text.value) else m1
  }

  /** set_dv as written: release what is held, store the new value, then retain it. */
  function AfterSetDv(m: Mem, s: Ref, d: Ref): (m': Mem)
    requires ScalarOrNull(m, s)
  {
    if s == NULL then m else AfterIncRef(Store(AfterSetType(m, s, SV_DV), s, Dv(d)), d)
  }

  /** set_dv with the new value retained before the old one is released. */
  function AfterSetDvRetainFirst(m: Mem, s: Ref, d: Ref): (m': Mem)
    requires ScalarOrNull(m, s)
  {
    if s == NULL then m
    else
      var m1 := AfterIncRef(m, d);
      Store(AfterSetType(m1, s, SV_DV), s, Dv(d))
  }

  /** The value setters as written keep memory well formed. */
  lemma SetReleasingKeepsWF(m: Mem, s: Ref, t: bv32, v: Val)
    requires WF(m) && ScalarOrNull(m, s) && t <= SV_DV && ValMatches(t, v)
    ensures WF(AfterSetReleasing(m, s, t, v))
  {
    if s != NULL {
      var m1 := AfterDecRef(m, Nested(m.cells[s]));
      ShrinksKeepsWF(m, m1);
      if s in m1.cells {
        SetKeepsWF(m1, s, t, v);
      }
    }
  }

  /** set_cstr, set_str and set_bstr keep memory well formed, a NULL text included. */
  lemma SetTextKeepsWF(m: Mem, s: Ref, text: Option<string>)
    requires WF(m) && ScalarOrNull(m, s)
    ensures WF(AfterSetText(m, s, text))
  {
    if s != NULL {
      TypeStrKeepsWF(m, s);
      var m2 := AfterSetType(m, s, SV_STR);
      if ScalarAt(m2, s) && text.Some? {
        assert CellOk(m2.cells[s]);
      }
    }
  }

  /** set_dv, retaining first, keeps memory well formed. */
  lemma SetDvKeepsWF(m: Mem, s: Ref, d: Ref)
    requires WF(m) && ScalarOrNull(m, s)
    ensures WF(AfterSetDvRetainFirst(m, s, d))
  {
    if s != NULL {
      var m3 := AfterIncRef(m, d);
      IncRefKeepsWF(m, d);
      SetKeepsWF(m3, s, SV_DV, Dv(d));
    }
  }

  /** One setter on a live scalar keeps memory well formed. */
  lemma SetKeepsWF(m: Mem, s: Ref, t: bv32, v: Val)
    requires WF(m) && ScalarAt(m, s) && t <= SV_DV && ValMatches(t, v)
    ensures WF(AfterSet(m, s, t, v))
  {
    var m1 := AfterDecRef(m, Nested(m.cells[s]));
    ShrinksKeepsWF(m, m1);
    SetUnfolds(m, s, t, v);
    if s in m1.cells {
      assert CellOk(m1.cells[s]);
      RetagOk(m1.cells[s], t, v);
      RetagSetsType(m1.cells[s], t);
      ReplaceKeepsWF(m1, s, SetCell(m1.cells[s], t, v));
    }
  }

  /** Changing the type to STR keeps memory well formed (every payload suits STR). */
  lemma TypeStrKeepsWF(m: Mem, s: Ref)
    requires WF(m) && ScalarAt(m, s)
    ensures WF(AfterSetType(m, s, SV_STR))
  {
    var m1 := AfterDecRef(m, Nested(m.cells[s]));
    ShrinksKeepsWF(m, m1);
    if s in m1.cells {
      var c := m1.cells[s];
      assert CellOk(c);
      RetagOk(c, SV_STR, c.body.val);
      RetagSetsType(c, SV_STR);
      assert SetCell(c, SV_STR, c.body.val) == Retag(c, SV_STR);
      ReplaceKeepsWF(m1, s, Retag(c, SV_STR));
    }
  }

  /** The scalar cell after a retag to `t` and a write of `v`. */
  function SetCell(c: Cell, t: bv32, v: Val): Cell
    requires c.body.ScalarBody?
  {
    var r := Retag(c, t);
    r.(body := r.body.(val := v))
  }

  /** A setter is the release of the nested value followed by the replacement of the scalar's cell. */
  lemma SetUnfolds(m: Mem, s: Ref, t: bv32, v: Val)
    requires WF(m) && ScalarAt(m, s)
    ensures var m1 := AfterDecRef(m, Nested(m.cells[s]));
      && (s in m1.cells ==> m1.cells[s].body.ScalarBody?)
      && (s in m1.cells ==> AfterSet(m, s, t, v) == m1.(cells := m1.cells[s := SetCell(m1.cells[s], t, v)]))
      && (s !in m1.cells ==> AfterSet(m, s, t, v) == m1)
  {
    var m1 := AfterDecRef(m, Nested(m.cells[s]));
    if s in m1.cells {
      assert m1.cells[s].body == m.cells[s].body;
      var r := Retag(m1.cells[s], t);
      assert m1.cells[s := r][s := SetCell(m1.cells[s], t, v)] == m1.cells[s := SetCell(m1.cells[s], t, v)];
    }
  }



  /**
   * A setter on a scalar that holds no nested value replaces that one cell by
   * `c`, of the new type and holding the payload, and touches nothing else;
   * there the setters as written and the corrected ones agree.
   */
  lemma SetOnPlainScalar(m: Mem, s: Ref, t: bv32, v: Val) returns (c: Cell)
    requires WF(m) && ScalarAt(m, s) && Nested(m.cells[s]) == NULL
    requires t <= SV_DV && ValMatches(t, v)
    ensures CellOk(c) && c.body.ScalarBody? && SvTypeOf(c) == t && c.body.val == v
    ensures Kind(c) == Kind(m.cells[s]) && c.refCnt == m.cells[s].refCnt
    ensures AfterSet(m, s, t, v) == m.(cells := m.cells[s := c])
    ensures AfterSetReleasing(m, s, t, v) == m.(cells := m.cells[s := c])
    ensures WF(m.(cells := m.cells[s := c]))
  {
    var r := Retag(m.cells[s], t);
    c := r.(body := r.body.(val := v));
    RetagSetsType(m.cells[s], t);
    RetagOk(m.cells[s], t, v);
    assert AfterDecRef(m, NULL) == m;
    var m' := m.(cells := m.cells[s := c]);
    assert WF(m') by {
      forall x | x in m'.cells
        ensures x < m'.next && CellOk(m'.cells[x])
      {
      }
    }
  }

  /**
   * The value setters as written release a nested value twice: a nested value
   * that one other owner still holds is freed.  The nested value is taken of
   * kind NULL only so that its teardown frees nothing further; the double
   * release does not depend on the kind.
   */
  lemma SetReleasingFreesSharedValue(m: Mem, s: Ref, t: bv32, v: Val)
    requires WF(m) && ScalarAt(m, s)
    requires var d := Nested(m.cells[s]);
      d != NULL && d != UNDEF && d != s && d in m.cells
      && m.cells[d].refCnt == 2 && Kind(m.cells[d]) == DV_NULL
    ensures Nested(m.cells[s]) !in AfterSetReleasing(m, s, t, v).cells
  {
    var d := Nested(m.cells[s]);
    var m1 := AfterDecRef(m, d);
    DecRefShared(m, d);
    assert m1.cells[s] == m.cells[s];
    assert Nested(m1.cells[s]) == d;
    DecRefFreesNullKind(m1, d);
  }

  lemma DecRefFreesNullKind(m: Mem, d: Ref)
    requires d in m.cells && d != NULL && d != UNDEF && m.cells[d].refCnt == 1
    requires Kind(m.cells[d]) == DV_NULL
    ensures AfterDecRef(m, d).cells == m.cells - {d}
  {
  }

  /** Releasing once, as set_dbl and set_bool do, leaves a shared nested value alive with one reference fewer. */
  lemma SetReleasesSharedValueOnce(m: Mem, s: Ref, t: bv32, v: Val)
    requires WF(m) && ScalarAt(m, s)
    requires var d := Nested(m.cells[s]);
      d != NULL && d != UNDEF && d != s && d in m.cells && m.cells[d].refCnt >= 2
    ensures var d := Nested(m.cells[s]);
      var m' := AfterSet(m, s, t, v);
      d in m'.cells && m'.cells[d].refCnt == m.cells[d].refCnt - 1
      && s in m'.cells && m'.cells[s].body.val == v
      && (t < 16 ==> SvType(m', s) == t)
  {
    var d := Nested(m.cells[s]);
    DecRefShared(m, d);
    if t < 16 {
      RetagSetsType(m.cells[s], t);
    }
  }

  /**
   * set_cstr, set_str and set_bstr on a scalar whose nested value, if any, has
   * other owners: the scalar becomes a STR scalar whose to_cstr is the text (for
   * a NULL text, the buffer the type change left), it keeps its count and its
   * other flag bits, a nested value loses exactly one reference, and nothing
   * else changes.
   */
  lemma SetTextYields(m: Mem, s: Ref, text: Option<string>)
    requires WF(m) && ScalarAt(m, s)
    requires var d := Nested(m.cells[s]);
      d == NULL || (d != UNDEF && d != s && d in m.cells && m.cells[d].refCnt >= 2)
    ensures var c := m.cells[s];
      var d := Nested(c);
      var m' := AfterSetText(m, s, text);
      && ScalarAt(m', s) && SvType(m', s) == SV_STR && CellOk(m'.cells[s])
      && ToCstr(Some(m'.cells[s]))
         == (if text.Some? then text else if SvTypeOf(c) == SV_STR then c.body.str else Some(""))
      && m'.cells[s].refCnt == c.refCnt && m'.cells[s].flags & !0xF0 == c.flags & !0xF0
      && (d != NULL ==> d in m'.cells && m'.cells[d].refCnt == m.cells[d].refCnt - 1)
      && m'.cells.Keys == m.cells.Keys
      && forall x | x in m.cells && x != s && x != d :: m'.cells[x] == m.cells[x]
  {
    var c' := SetTextShape(m, s, text);
    var d := Nested(m.cells[s]);
    if d != NULL {
      DecRefShared(m, d);
    }
  }

  /** set_cstr, set_str and set_bstr release the nested value and then replace the scalar's cell by `c'`. */
  lemma SetTextShape(m: Mem, s: Ref, text: Option<string>) returns (c': Cell)
    requires WF(m) && ScalarAt(m, s)
    requires var d := Nested(m.cells[s]);
      d == NULL || (d != UNDEF && d != s && d in m.cells && m.cells[d].refCnt >= 2)
    ensures var m1 := AfterDecRef(m, Nested(m.cells[s]));
      s in m1.cells && AfterSetText(m, s, text).cells == m1.cells[s := c']
    ensures c'.body.ScalarBody? && SvTypeOf(c') == SV_STR && CellOk(c')
    ensures var c := m.cells[s];
      ToCstr(Some(c')) == (if text.Some? then text else if SvTypeOf(c) == SV_STR then c.body.str else Some(""))
    ensures c'.refCnt == m.cells[s].refCnt && c'.flags & !0xF0 == m.cells[s].flags & !0xF0
  {
    var c := m.cells[s];
    var d := Nested(c);
    var m1 := AfterDecRef(m, d);
    if d != NULL {
      DecRefShared(m, d);
    }
    assert s in m1.cells && m1.cells[s] == c;
    var m2 := m1.(cells := m1.cells[s := Retag(c, SV_STR)]);
    assert AfterSetType(m, s, SV_STR) == m2;
    c' := TextRetag(c, text);
    assert m2.cells[s := c'] == m1.cells[s := c'];
  }

  /** The scalar cell set_cstr, set_str and set_bstr leave behind. */
  lemma TextRetag(c: Cell, text: Option<string>) returns (c': Cell)
    requires c.body.ScalarBody? && CellOk(c)
    ensures var r := Retag(c, SV_STR);
      c' == if text.Some? then r.(body := r.body.(str := text)) else r
    ensures c'.body.ScalarBody? && SvTypeOf(c') == SV_STR && CellOk(c')
    ensures ToCstr(Some(c'))
      == (if text.Some? then text else if SvTypeOf(c) == SV_STR then c.body.str else Some(""))
    ensures c'.refCnt == c.refCnt && c'.flags & !0xF0 == c.flags & !0xF0
  {
    var r := Retag(c, SV_STR);
    RetagSetsType(c, SV_STR);
    RetagStringBuffer(c, SV_STR);
    c' := if text.Some? then r.(body := r.body.(str := text)) else r;
  }

  /**
   * set_dv as written, on a scalar that already holds `d` as its only owner:
   * `d` is freed before it is retained, and the scalar is left holding it.
   * The kind NULL only keeps the teardown of `d` short; any kind is freed alike.
   */
  lemma SetDvSameValueDangles(m: Mem, s: Ref)
    requires WF(m) && ScalarAt(m, s)
    requires var d := Nested(m.cells[s]);
      d != NULL && d != UNDEF && d != s && d in m.cells
      && m.cells[d].refCnt == 1 && Kind(m.cells[d]) == DV_NULL
    ensures var d := Nested(m.cells[s]);
      var m' := AfterSetDv(m, s, d);
      d !in m'.cells && s in m'.cells && m'.cells[s].body.val == Dv(d)
  {
    var d := Nested(m.cells[s]);
    DecRefFreesNullKind(m, d);
  }

  /** Retaining first makes setting the value already held change nothing but the tag. */
  lemma SetDvRetainFirstSameValue(m: Mem, s: Ref)
    requires WF(m) && ScalarAt(m, s)
    requires var d := Nested(m.cells[s]);
      d != NULL && d != UNDEF && d != s && d in m.cells && m.cells[d].refCnt >= 1
    ensures AfterSetDvRetainFirst(m, s, Nested(m.cells[s])) == m
  {
    var c := m.cells[s];
    var d := Nested(c);
    var m1 := AfterIncRef(m, d);
    IncThenDecRestores(m, d);
    assert AfterDecRef(m1, d) == m;
    RetagSetsType(c, SV_DV);
    assert Retag(c, SV_DV) == c by {
      assert (c.flags & !0xF0) | ((SV_DV << 4) & 0xF0) == c.flags by {
        assert (c.flags & 0xF0) >> 4 == SV_DV;
      }
    }
  }

  /**
   * set_dv on a scalar holding no nested value retains the new value once, and
   * to_dv then returns it.
   */
  lemma SetDvRetains(m: Mem, s: Ref, d: Ref)
    requires WF(m) && ScalarAt(m, s) && Nested(m.cells[s]) == NULL
    requires d in m.cells && d != s
    ensures var m' := AfterSetDvRetainFirst(m, s, d);
      && d in m'.cells && m'.cells[d].refCnt == m.cells[d].refCnt + 1
      && s in m'.cells && ToDv(Some(m'.cells[s])) == d
  {
    RetagSetsType(m.cells[s], SV_DV);
  }

  // ---------------------------------------------------------------------------
  // The setters as mutations of the heap
  // ---------------------------------------------------------------------------

  /** dtl_sv_set_type */
  method SetType(h: Heap, s: Ref, t: bv32)
    requires h.Valid() && ScalarAt(h.State(), s)
    modifies h
    ensures h.State() == AfterSetType(old(h.State()), s, t)
  {
    var c := h.cells[s];
    if SvTypeOf(c) == SV_DV {
      h.DecRef(Nested(c));
    }
    if s in h.cells {
      h.cells := h.cells[s := Retag(h.cells[s], t)];
    }
  }

  method Write(h: Heap, s: Ref, v: Val)
    modifies h
    ensures h.State() == Store(old(h.State()), s, v)
  {
    if s in h.cells && h.cells[s].body.ScalarBody? {
      h.cells := h.cells[s := h.cells[s].(body := h.cells[s].body.(val := v))];
    }
  }

  /** The value setters other than set_dbl and set_bool as written: the nested value is released twice. */
  method SetReleasing(h: Heap, s: Ref, t: bv32, v: Val)
    requires h.Valid() && t <= SV_DV && ValMatches(t, v) && ScalarOrNull(h.State(), s)
    modifies h
    ensures h.Valid()
    ensures h.State() == AfterSetReleasing(old(h.State()), s, t, v)
  {
    SetReleasingKeepsWF(h.State(), s, t, v);
    if s != NULL {
      if SvTypeOf(h.cells[s]) == SV_DV {
        h.DecRef(Nested(h.cells[s]));
      }
      if s in h.cells {
        SetType(h, s, t);
        Write(h, s, v);
      }
    }
  }

  method Set(h: Heap, s: Ref, t: bv32, v: Val)
    requires h.Valid() && t <= SV_DV && ValMatches(t, v) && ScalarOrNull(h.State(), s)
    modifies h
    ensures h.Valid()
    ensures h.State() == AfterSet(old(h.State()), s, t, v)
  {
    if s != NULL {
      SetKeepsWF(h.State(), s, t, v);
      SetType(h, s, t);
      Write(h, s, v);
    }
  }

  /** dtl_sv_set_i32, releasing a nested value once (see SetReleasing for the code as written). */
  method SetI32(h: Heap, s: Ref, x: i32)
    requires h.Valid() && ScalarOrNull(h.State(), s)
    modifies h
    ensures h.Valid()
    ensures h.State() == AfterSet(old(h.State()), s, SV_I32, I32(x))
  {
    Set(h, s, SV_I32, I32(x));
  }

  /** dtl_sv_set_u32, releasing a nested value once (see SetReleasing for the code as written). */
  method SetU32(h: Heap, s: Ref, x: u32)
    requires h.Valid() && ScalarOrNull(h.State(), s)
    modifies h
    ensures h.Valid()
    ensures h.State() == AfterSet(old(h.State()), s, SV_U32, U32(x))
  {
    Set(h, s, SV_U32, U32(x));
  }

  /** dtl_sv_set_i64, releasing a nested value once (see SetReleasing for the code as written). */
  method SetI64(h: Heap, s: Ref, x: i64)
    requires h.Valid() && ScalarOrNull(h.State(), s)
    modifies h
    ensures h.Valid()
    ensures h.State() == AfterSet(old(h.State()), s, SV_I64, I64(x))
  {
    Set(h, s, SV_I64, I64(x));
  }

  /** dtl_sv_set_u64, releasing a nested value once (see SetReleasing for the code as written). */
  method SetU64(h: Heap, s: Ref, x: u64)
    requires h.Valid() && ScalarOrNull(h.State(), s)
    modifies h
    ensures h.Valid()
    ensures h.State() == AfterSet(old(h.State()), s, SV_U64, U64(x))
  {
    Set(h, s, SV_U64, U64(x));
  }

  /** dtl_sv_set_flt, releasing a nested value once (see SetReleasing for the code as written). */
  method SetFlt(h: Heap, s: Ref, f: Float)
    requires h.Valid() && ScalarOrNull(h.State(), s)
    modifies h
    ensures h.Valid()
    ensures h.State() == AfterSet(old(h.State()), s, SV_FLT, Flt(f))
  {
    Set(h, s, SV_FLT, Flt(f));
  }

  /** dtl_sv_set_dbl */
  method SetDbl(h: Heap, s: Ref, f: Float)
    requires h.Valid() && ScalarOrNull(h.State(), s)
    modifies h
    ensures h.Valid()
    ensures h.State() == AfterSet(old(h.State()), s, SV_DBL, Dbl(f))
  {
    Set(h, s, SV_DBL, Dbl(f));
  }

  /** dtl_sv_set_bool */
  method SetBool(h: Heap, s: Ref, b: bool)
    requires h.Valid() && ScalarOrNull(h.State(), s)
    modifies h
    ensures h.Valid()
    ensures h.State() == AfterSet(old(h.State()), s, SV_BOOL, Bool(b))
  {
    Set(h, s, SV_BOOL, Bool(b));
  }

  /**
   * dtl_sv_set_ptr: the pointer and its optional destructor callback, releasing
   * a nested value once (see SetReleasing for the code as written).
   */
  method SetPtr(h: Heap, s: Ref, p: nat, dtor: Option<nat>)
    requires h.Valid() && ScalarOrNull(h.State(), s)
    modifies h
    ensures h.Valid()
    ensures h.State() == AfterSet(old(h.State()), s, SV_PTR, Ptr(p, dtor))
  {
    Set(h, s, SV_PTR, Ptr(p, dtor));
  }

  /** dtl_sv_set_cstr and dtl_sv_set_str */
  method SetText(h: Heap, s: Ref, text: Option<string>)
    requires h.Valid() && ScalarOrNull(h.State(), s)
    modifies h
    ensures h.Valid()
    ensures h.State() == AfterSetText(old(h.State()), s, text)
  {
    SetTextKeepsWF(h.State(), s, text);
    if s != NULL {
      SetType(h, s, SV_STR);
      if text.Some? && s in h.cells && h.cells[s].body.ScalarBody? {
        h.cells := h.cells[s := h.cells[s].(body := h.cells[s].body.(str := text))];
      }
    }
  }

  /**
   * dtl_sv_set_bstr: the bytes from `begin` up to `end` of `bytes`, where None
   * stands for a null pointer; nothing happens unless both are given in order.
   */
  method SetBstr(h: Heap, s: Ref, bytes: seq<char>, begin: Option<nat>, end: Option<nat>)
    requires h.Valid() && ScalarOrNull(h.State(), s)
    requires begin.Some? && end.Some? && begin.value <= end.value ==> end.value <= |bytes|
    modifies h
    ensures h.Valid()
    ensures begin.Some? && end.Some? && begin.value <= end.value ==>
      h.State() == AfterSetText(old(h.State()), s, Some(bytes[begin.value..end.value]))
    ensures !(begin.Some? && end.Some? && begin.value <= end.value) ==> h.State() == old(h.State())
  {
    if s != NULL && begin.Some? && end.Some? && begin.value <= end.value {
      SetText(h, s, Some(bytes[begin.value..end.value]));
    }
  }

  /** dtl_sv_set_dv, with the new value retained before the old one is released. */
  method SetDv(h: Heap, s: Ref, d: Ref)
    requires h.Valid() && ScalarOrNull(h.State(), s)
    modifies h
    ensures h.Valid()
    ensures h.State() == AfterSetDvRetainFirst(old(h.State()), s, d)
  {
    SetDvKeepsWF(h.State(), s, d);
    if s != NULL {
      h.IncRef(d);
      SetType(h, s, SV_DV);
      Write(h, s, Dv(d));
    }
  }

  // ---------------------------------------------------------------------------
  // make_*: a new scalar with one setter applied
  // ---------------------------------------------------------------------------

  /** dtl_sv_make_i32, make_u32, make_i64, make_u64, make_bool: a fresh scalar holding `v`. */
  function Make(m: Mem, t: bv32, v: Val): (res: (Mem, Ref))
  {
    var (m1, r) := NewScalar(m);
    (AfterSet(m1, r, t, v), r)
  }

  /** A made scalar is fresh, has count 1 and the requested type and payload; nothing else changes. */
  lemma MakeYields(m: Mem, t: bv32, v: Val)
    requires WF(m) && t <= SV_DV && t != SV_STR && t != SV_DV && ValMatches(t, v)
    ensures var (m', r) := Make(m, t, v);
      && r != NULL && r !in m.cells && WF(m')
      && m'.cells == m.cells[r := m'.cells[r]]
      && m'.cells[r].refCnt == 1 && DvType(m', r) == DV_SCALAR
      && SvType(m', r) == t && m'.cells[r].body.val == v
      && AfterSetReleasing(NewScalar(m).0, r, t, v) == m'
  {
    var (m1, r) := NewScalar(m);
    NewScalarIsFresh(m);
    var c := SetOnPlainScalar(m1, r, t, v);
  }

  /** dtl_sv_make_cstr */
  function MakeText(m: Mem, text: string): (res: (Mem, Ref))
  {
    var (m1, r) := NewScalar(m);
    (AfterSetText(m1, r, Some(text)), r)
  }

  lemma MakeTextYields(m: Mem, text: string)
    requires WF(m)
    ensures var (m', r) := MakeText(m, text);
      && r != NULL && r !in m.cells && WF(m')
      && m'.cells == m.cells[r := m'.cells[r]]
      && m'.cells[r].refCnt == 1 && SvType(m', r) == SV_STR
      && ToCstr(Some(m'.cells[r])) == Some(text)
  {
    MakeTextShape(m, text);
    TextCellOk(text);
    AllocateFresh(m, TextCell(text));
  }

  /** The cell make_cstr creates: a fresh scalar retagged to STR, holding `text`. */
  function TextCell(text: string): Cell
  {
    var c := Retag(NewScalarCell(), SV_STR);
    c.(body := c.body.(str := Some(text)))
  }

  lemma TextCellOk(text: string)
    ensures var c := TextCell(text);
      && CellOk(c) && c.body.ScalarBody? && c.refCnt == 1 && Kind(c) == DV_SCALAR && SvTypeOf(c) == SV_STR
      && c.body.str == Some(text) && ToCstr(Some(c)) == Some(text)
  {
    RetagSetsType(NewScalarCell(), SV_STR);
    RetagStringBuffer(NewScalarCell(), SV_STR);
  }

  /** make_cstr allocates exactly the text cell. */
  lemma MakeTextShape(m: Mem, text: string)
    requires WF(m)
    ensures MakeText(m, text) == Allocate(m, TextCell(text))
  {
    var (m1, r) := NewScalar(m);
    assert r != NULL && m1.cells[r] == NewScalarCell();
    assert Nested(NewScalarCell()) == NULL;
    var m2 := AfterSetType(m1, r, SV_STR);
    assert m2 == m1.(cells := m1.cells[r := Retag(NewScalarCell(), SV_STR)]);
    assert ScalarAt(m2, r);
    var m3 := StoreText(m2, r, text);
    assert m3 == m1.(cells := m1.cells[r := TextCell(text)]);
    assert AfterSetText(m1, r, Some(text)) == m3;
    assert m1.cells[r := TextCell(text)] == m.cells[r := TextCell(text)];
  }

  /** dtl_sv_make_dv */
  function MakeDv(m: Mem, d: Ref): (res: (Mem, Ref))
  {
    var (m1, r) := NewScalar(m);
    (AfterSetDvRetainFirst(m1, r, d), r)
  }

  /**
   * make_dv retains the value once; deleting the scalar releases it again
   * (a count of 1 goes to 2 and back to 1).
   */
  lemma MakeDvThenDelete(m: Mem, d: Ref)
    requires WF(m) && d in m.cells && d != UNDEF && m.cells[d].refCnt >= 1
    ensures var (m', r) := MakeDv(m, d);
      && m'.cells[d].refCnt == m.cells[d].refCnt + 1
      && ToDv(Some(m'.cells[r])) == d
      && AfterDecRef(m', r) == m.(next := m'.next)
  {
    MakeDvState(m, d);
    var (m', r) := MakeDv(m, d);
    DeleteMadeDv(m, m', r, d);
  }

  lemma DeleteMadeDv(m: Mem, m': Mem, r: Ref, d: Ref)
    requires d in m.cells && d != UNDEF && d != NULL && m.cells[d].refCnt >= 1
    requires r !in m.cells && r != NULL && r != UNDEF
    requires m'.next == m.next + 1 && m'.calls == m.calls
    requires m'.cells == m.cells[r := Cell(1, 0xA2, ScalarBody(Dv(d), None))]
           [d := m.cells[d].(refCnt := m.cells[d].refCnt + 1)]
    ensures AfterDecRef(m', r) == m.(next := m'.next)
  {
    DeleteDvScalar(m', r, d);
    assert m'.cells[d := m.cells[d]] - {r} == m.cells;
  }

  /** The scalar make_dv builds: count 1, type DV, holding `d`, which has one more reference. */
  lemma MakeDvState(m: Mem, d: Ref)
    requires WF(m) && d in m.cells
    ensures var (m', r) := MakeDv(m, d);
      && r == m.next && r !in m.cells && r != NULL && r != UNDEF
      && m'.next == m.next + 1 && m'.calls == m.calls
      && m'.cells == m.cells[r := Cell(1, 0xA2, ScalarBody(Dv(d), None))]
           [d := m.cells[d].(refCnt := m.cells[d].refCnt + 1)]
  {
    var (m1, r) := NewScalar(m);
    NewScalarIsFresh(m);
    var c1 := m1.cells[r];
    assert Retag(c1, SV_DV) == Cell(1, 0xA2, ScalarBody(NoVal, None));
  }

  /** Deleting a scalar that holds a shared nested value frees it and releases the nested value once. */
  lemma DeleteDvScalar(m: Mem, r: Ref, d: Ref)
    requires r in m.cells && r != NULL && r != UNDEF && d != r
    requires m.cells[r] == Cell(1, 0xA2, ScalarBody(Dv(d), None))
    requires d in m.cells && d != NULL && d != UNDEF && m.cells[d].refCnt >= 2
    ensures AfterDecRef(m, r) == Free(m.(cells := m.cells[d := m.cells[d].(refCnt := m.cells[d].refCnt - 1)]), r)
  {
    var c0 := m.cells[r].(refCnt := 0);
    var m2 := m.(cells := m.cells[r := c0]);
    var dc := m.cells[d].(refCnt := m.cells[d].refCnt - 1);
    ReleaseNestedOnce(m, r, c0, d);
    DecRefLast(m, r);
    DvScalarTags(c0);
    DeleteScalar(m2, r);
    UpdateThenRemove(m.cells, r, c0, d, dc);
  }

  lemma ReleaseNestedOnce(m: Mem, r: Ref, c0: Cell, d: Ref)
    requires r in m.cells && d != r
    requires d in m.cells && d != NULL && d != UNDEF && m.cells[d].refCnt >= 2
    ensures var m2 := m.(cells := m.cells[r := c0]);
      AfterDecRef(m2, d) == m2.(cells := m2.cells[d := m.cells[d].(refCnt := m.cells[d].refCnt - 1)])
  {
    var m2 := m.(cells := m.cells[r := c0]);
    assert m2.cells[d] == m.cells[d];
    DecRefShared(m2, d);
  }

  lemma UpdateThenRemove(cells: map<Ref, Cell>, r: Ref, c: Cell, d: Ref, e: Cell)
    requires r != d
    ensures cells[r := c][d := e] - {r} == cells[d := e] - {r}
  {
  }

  lemma DvScalarTags(c: Cell)
    requires c.flags == 0xA2
    ensures Kind(c) == DV_SCALAR && SvTypeOf(c) == SV_DV
  {
  }

  lemma DeleteScalar(m: Mem, r: Ref)
    requires r in m.cells && r != UNDEF && Kind(m.cells[r]) == DV_SCALAR
    ensures AfterDelete(m, r) == Free(AfterScalarDestroy(m, m.cells[r]), r)
  {
  }

  method MakeI32(h: Heap, x: i32) returns (r: Ref)
    requires h.Valid()
    modifies h
    ensures h.Valid()
    ensures (h.State(), r) == Make(old(h.State()), SV_I32, I32(x))
  {
    r := h.Alloc(NewScalarCell());
    Set(h, r, SV_I32, I32(x));
  }

  method MakeU32(h: Heap, x: u32) returns (r: Ref)
    requires h.Valid()
    modifies h
    ensures h.Valid()
    ensures (h.State(), r) == Make(old(h.State()), SV_U32, U32(x))
  {
    r := h.Alloc(NewScalarCell());
    Set(h, r, SV_U32, U32(x));
  }

  method MakeI64(h: Heap, x: i64) returns (r: Ref)
    requires h.Valid()
    modifies h
    ensures h.Valid()
    ensures (h.State(), r) == Make(old(h.State()), SV_I64, I64(x))
  {
    r := h.Alloc(NewScalarCell());
    Set(h, r, SV_I64, I64(x));
  }

  method MakeU64(h: Heap, x: u64) returns (r: Ref)
    requires h.Valid()
    modifies h
    ensures h.Valid()
    ensures (h.State(), r) == Make(old(h.State()), SV_U64, U64(x))
  {
    r := h.Alloc(NewScalarCell());
    Set(h, r, SV_U64, U64(x));
  }

  method MakeBool(h: Heap, b: bool) returns (r: Ref)
    requires h.Valid()
    modifies h
    ensures h.Valid()
    ensures (h.State(), r) == Make(old(h.State()), SV_BOOL, Bool(b))
  {
    r := h.Alloc(NewScalarCell());
    Set(h, r, SV_BOOL, Bool(b));
  }

  /** dtl_sv_make_cstr; a NULL text (None) leaves the new scalar holding the empty string. */
  method MakeCstr(h: Heap, text: Option<string>) returns (r: Ref)
    requires h.Valid()
    modifies h
    ensures h.Valid()
    ensures text.Some? ==> (h.State(), r) == MakeText(old(h.State()), text.value)
    ensures text.None? ==> (h.State(), r) == MakeText(old(h.State()), "")
  {
    r := h.Alloc(NewScalarCell());
    ghost var m1 := h.State();
    SetText(h, r, text);
    if text.None? {
      assert m1.cells[r] == NewScalarCell() && Nested(NewScalarCell()) == NULL;
      RetagStringBuffer(NewScalarCell(), SV_STR);
      var m2 := AfterSetType(m1, r, SV_STR);
      assert m2.cells[r].body.str == Some("");
      assert StoreText(m2, r, "") == m2 by {
        assert m2.cells[r := m2.cells[r].(body := m2.cells[r].body.(str := Some("")))] == m2.cells;
      }
    }
  }

  method MakeDvScalar(h: Heap, d: Ref) returns (r: Ref)
    requires h.Valid()
    modifies h
    ensures h.Valid()
    ensures (h.State(), r) == MakeDv(old(h.State()), d)
  {
    r := h.Alloc(NewScalarCell());
    SetDv(h, r, d);
  }

  // ---------------------------------------------------------------------------
  // Coercing getters
  // ---------------------------------------------------------------------------

  /** The outcome of an integer getter: the converted value, a float cast, or failure (0 and ok=false). */
  datatype Conv<T> = Value(v: T) | FromFloat(f: Float) | NoConv

  predicate ScalarOk(sv: Option<Cell>) {
    sv.None? || (sv.value.body.ScalarBody? && CellOk(sv.value))
  }

  function Sv(m: Mem, s: Ref): (sv: Option<Cell>)
    requires ScalarOrNull(m, s)
    ensures sv.None? <==> s == NULL
  {
    if s == NULL then None else Some(m.cells[s])
  }

  /** The integer an integral or bool payload denotes (bool as 0 or 1). */
  function IntOf(v: Val): int {
    match v
    case I32(x) => x as int
    case U32(x) => x as int
    case I64(x) => x as int
    case U64(x) => x as int
    case Bool(b) => if b then 1 else 0
    case _ => 0
  }

  /** C's conversion of an integer to an unsigned N-bit type: reduction modulo 2^N. */
  function WrapU32(x: int): (r: u32)
    ensures (r as int - x) % 0x1_0000_0000 == 0
  {
    (x % 0x1_0000_0000) as u32
  }

  function WrapU64(x: int): (r: u64)
    ensures (r as int - x) % 0x1_0000_0000_0000_0000 == 0
  {
    (x % 0x1_0000_0000_0000_0000) as u64
  }

  /** Conversion to a signed N-bit type, two's complement: the representative in [-2^(N-1), 2^(N-1)). */
  function WrapI32(x: int): (r: i32)
    ensures (r as int - x) % 0x1_0000_0000 == 0
  {
    var y := x % 0x1_0000_0000;
    if y >= 0x8000_0000 then (y - 0x1_0000_0000) as i32 else y as i32
  }

  function WrapI64(x: int): (r: i64)
    ensures (r as int - x) % 0x1_0000_0000_0000_0000 == 0
  {
    var y := x % 0x1_0000_0000_0000_0000;
    if y >= 0x8000_0000_0000_0000 then (y - 0x1_0000_0000_0000_0000) as i64 else y as i64
  }

  predicate IsIntegral(t: bv32) {
    t == SV_I32 || t == SV_U32 || t == SV_I64 || t == SV_U64 || t == SV_BOOL
  }

  /** dtl_sv_to_i32 */
  function ToI32(sv: Option<Cell>): (r: Conv<i32>)
    requires ScalarOk(sv)
  {
    if sv.None? then NoConv
    else
      var t := SvTypeOf(sv.value);
      match sv.value.body.val
      case I32(x) => if t == SV_I32 then Value(x) else NoConv
      case U32(x) => if t == SV_U32 then Value(WrapI32(x as int)) else NoConv
      case I64(x) => if t == SV_I64 then Value(WrapI32(x as int)) else NoConv
      case U64(x) => if t == SV_U64 then Value(WrapI32(x as int)) else NoConv
      case Flt(f) => if t == SV_FLT then FromFloat(f) else NoConv
      case Dbl(f) => if t == SV_DBL then FromFloat(f) else NoConv
      case Bool(b) => if t == SV_BOOL then Value(if b then 1 else 0) else NoConv
      case _ => NoConv
  }

  /** dtl_sv_to_u32 */
  function ToU32(sv: Option<Cell>): (r: Conv<u32>)
    requires ScalarOk(sv)
  {
    if sv.None? then NoConv
    else
      var t := SvTypeOf(sv.value);
      match sv.value.body.val
      case I32(x) => if t == SV_I32 then Value(WrapU32(x as int)) else NoConv
      case U32(x) => if t == SV_U32 then Value(x) else NoConv
      case I64(x) => if t == SV_I64 then Value(WrapU32(x as int)) else NoConv
      case U64(x) => if t == SV_U64 then Value(WrapU32(x as int)) else NoConv
      case Flt(f) => if t == SV_FLT then FromFloat(f) else NoConv
      case Dbl(f) => if t == SV_DBL then FromFloat(f) else NoConv
      case Bool(b) => if t == SV_BOOL then Value(if b then 1 else 0) else NoConv
      case _ => NoConv
  }

  /** dtl_sv_to_i64 */
  function ToI64(sv: Option<Cell>): (r: Conv<i64>)
    requires ScalarOk(sv)
  {
    if sv.None? then NoConv
    else
      var t := SvTypeOf(sv.value);
      match sv.value.body.val
      case I32(x) => if t == SV_I32 then Value(x as i64) else NoConv
      case U32(x) => if t == SV_U32 then Value(x as i64) else NoConv
      case I64(x) => if t == SV_I64 then Value(x) else NoConv
      case U64(x) => if t == SV_U64 then Value(WrapI64(x as int)) else NoConv
      case Flt(f) => if t == SV_FLT then FromFloat(f) else NoConv
      case Dbl(f) => if t == SV_DBL then FromFloat(f) else NoConv
      case Bool(b) => if t == SV_BOOL then Value(if b then 1 else 0) else NoConv
      case _ => NoConv
  }

  /** dtl_sv_to_u64 */
  function ToU64(sv: Option<Cell>): (r: Conv<u64>)
    requires ScalarOk(sv)
  {
    if sv.None? then NoConv
    else
      var t := SvTypeOf(sv.value);
      match sv.value.body.val
      case I32(x) => if t == SV_I32 then Value(WrapU64(x as int)) else NoConv
      case U32(x) => if t == SV_U32 then Value(x as u64) else NoConv
      case I64(x) => if t == SV_I64 then Value(WrapU64(x as int)) else NoConv
      case U64(x) => if t == SV_U64 then Value(x) else NoConv
      case Flt(f) => if t == SV_FLT then FromFloat(f) else NoConv
      case Dbl(f) => if t == SV_DBL then FromFloat(f) else NoConv
      case Bool(b) => if t == SV_BOOL then Value(if b then 1 else 0) else NoConv
      case _ => NoConv
  }

  /**
   * The integer getters fail exactly on NULL and on the types NONE, STR, PTR and
   * DV; on the integral types each is the reduction of the payload's integer to
   * its width, without any range check.
   */
  lemma GettersAreModular(sv: Option<Cell>)
    requires ScalarOk(sv)
    ensures var ok := sv.Some? && (IsIntegral(SvTypeOf(sv.value)) || SvTypeOf(sv.value) == SV_FLT || SvTypeOf(sv.value) == SV_DBL);
      && (ToI32(sv).NoConv? <==> !ok) && (ToU32(sv).NoConv? <==> !ok)
      && (ToI64(sv).NoConv? <==> !ok) && (ToU64(sv).NoConv? <==> !ok)
    ensures sv.Some? && IsIntegral(SvTypeOf(sv.value)) ==>
      var x := IntOf(sv.value.body.val);
      && ToI32(sv) == Value(WrapI32(x)) && ToU32(sv) == Value(WrapU32(x))
      && ToI64(sv) == Value(WrapI64(x)) && ToU64(sv) == Value(WrapU64(x))
  {
    if sv.Some? && IsIntegral(SvTypeOf(sv.value)) {
      var x := IntOf(sv.value.body.val);
      WrapIdentities(x);
    }
  }

  lemma WrapIdentities(x: int)
    ensures -0x8000_0000 <= x < 0x8000_0000 ==> WrapI32(x) as int == x
    ensures 0 <= x < 0x1_0000_0000 ==> WrapU32(x) as int == x
    ensures -0x8000_0000_0000_0000 <= x < 0x8000_0000_0000_0000 ==> WrapI64(x) as int == x
    ensures 0 <= x < 0x1_0000_0000_0000_0000 ==> WrapU64(x) as int == x
  {
  }

  /** Narrowing agrees with widening first: to_u32 is to_u64 reduced modulo 2^32, and to_i32 its signed reading. */
  lemma NarrowingAgreesWithWidening(sv: Option<Cell>)
    requires ScalarOk(sv) && sv.Some? && IsIntegral(SvTypeOf(sv.value))
    ensures ToU64(sv).Value? && ToU32(sv) == Value(WrapU32(ToU64(sv).v as int))
    ensures ToI64(sv).Value? && ToI32(sv) == Value(WrapI32(ToI64(sv).v as int))
    ensures ToI32(sv) == Value(WrapI32(ToU32(sv).v as int))
  {
    GettersAreModular(sv);
    var x := IntOf(sv.value.body.val);
    WrapCompose(x);
  }

  lemma WrapCompose(x: int)
    ensures WrapU32(WrapU64(x) as int) == WrapU32(x)
    ensures WrapI32(WrapI64(x) as int) == WrapI32(x)
    ensures WrapI32(WrapU32(x) as int) == WrapI32(x)
  {
    LowWordAgrees(WrapU64(x) as int, x);
    LowWordAgrees(WrapI64(x) as int, x);
  }

  /** Numbers congruent modulo 2^64 are congruent modulo 2^32. */
  lemma LowWordAgrees(a: int, b: int)
    requires (a - b) % 0x1_0000_0000_0000_0000 == 0
    ensures a % 0x1_0000_0000 == b % 0x1_0000_0000
  {
    var k := (a - b) / 0x1_0000_0000_0000_0000;
    assert a == b + (k * 0x1_0000_0000) * 0x1_0000_0000;
  }

  /** Every make_* of an integer is read back exactly by the getter of its own type. */
  lemma MakeThenGet(m: Mem, x: i32, y: u32, z: i64, w: u64)
    requires WF(m)
    ensures var (m1, r1) := Make(m, SV_I32, I32(x));
      && r1 in m1.cells && ScalarOk(Some(m1.cells[r1]))
      && ToI32(Some(m1.cells[r1])) == Value(x) && ToI64(Some(m1.cells[r1])) == Value(x as i64)
    ensures var (m2, r2) := Make(m, SV_U32, U32(y));
      && r2 in m2.cells && ScalarOk(Some(m2.cells[r2]))
      && ToU32(Some(m2.cells[r2])) == Value(y) && ToU64(Some(m2.cells[r2])) == Value(y as u64)
    ensures var (m3, r3) := Make(m, SV_I64, I64(z));
      r3 in m3.cells && ScalarOk(Some(m3.cells[r3])) && ToI64(Some(m3.cells[r3])) == Value(z)
    ensures var (m4, r4) := Make(m, SV_U64, U64(w));
      r4 in m4.cells && ScalarOk(Some(m4.cells[r4])) && ToU64(Some(m4.cells[r4])) == Value(w)
  {
    var _ := MadeScalar(m, SV_I32, I32(x));
    var _ := MadeScalar(m, SV_U32, U32(y));
    var _ := MadeScalar(m, SV_I64, I64(z));
    var _ := MadeScalar(m, SV_U64, U64(w));
  }

  /** The cell a make_* of a number creates: a well-formed scalar of type `t` holding `v`. */
  lemma MadeScalar(m: Mem, t: bv32, v: Val) returns (c: Cell)
    requires WF(m) && t <= SV_DV && t != SV_STR && t != SV_DV && ValMatches(t, v)
    ensures var (m', r) := Make(m, t, v);
      && r in m'.cells && c == m'.cells[r]
      && c.body.ScalarBody? && CellOk(c) && SvTypeOf(c) == t && c.body.val == v
  {
    MakeYields(m, t, v);
    var (m', r) := Make(m, t, v);
    c := m'.cells[r];
  }

  /**
   * dtl_sv_to_bool: a nonzero number, the stored bool, or a string equal to
   * "true".  Whether a float is nonzero is given by `nonzero`.
   */
  function ToBool(sv: Option<Cell>, nonzero: Float -> bool): (r: bool)
    requires ScalarOk(sv)
  {
    if sv.None? then false
    else
      var t := SvTypeOf(sv.value);
      var body := sv.value.body;
      if t == SV_STR then body.str == Some("true")
      else match body.val
        case I32(x) => t == SV_I32 && x != 0
        case U32(x) => t == SV_U32 && x != 0
        case I64(x) => t == SV_I64 && x != 0
        case U64(x) => t == SV_U64 && x != 0
        case Flt(f) => t == SV_FLT && nonzero(f)
        case Dbl(f) => t == SV_DBL && nonzero(f)
        case Bool(b) => t == SV_BOOL && b
        case _ => false
  }

  /** On the integral types to_bool is "the integer is not zero"; NULL, NONE, PTR and DV give false. */
  lemma ToBoolMeaning(sv: Option<Cell>, nonzero: Float -> bool)
    requires ScalarOk(sv)
    ensures sv.Some? && IsIntegral(SvTypeOf(sv.value)) ==>
      (ToBool(sv, nonzero) <==> ToU64(sv) != Value(0))
    ensures sv.None? || SvTypeOf(sv.value) in {SV_NONE, SV_PTR, SV_DV} ==> !ToBool(sv, nonzero)
    ensures sv.Some? && SvTypeOf(sv.value) == SV_STR ==>
      (ToBool(sv, nonzero) <==> ToCstr(sv) == Some("true"))
  {
    GettersAreModular(sv);
  }

  /**
   * What to_cstr returns: the word for the truth value of a BOOL scalar, the
   * buffer of a STR scalar, and NULL (None) for every other type and for NULL.
   */
  lemma ToCstrMeaning(sv: Option<Cell>, nonzero: Float -> bool)
    requires ScalarOk(sv)
    ensures sv.Some? && SvTypeOf(sv.value) == SV_BOOL ==>
      ToCstr(sv) == Some(if ToBool(sv, nonzero) then "true" else "false")
    ensures sv.Some? && SvTypeOf(sv.value) == SV_STR ==>
      sv.value.body.str.Some? && ToCstr(sv) == sv.value.body.str
    ensures sv.None? || (SvTypeOf(sv.value) != SV_BOOL && SvTypeOf(sv.value) != SV_STR) ==> ToCstr(sv) == None
  {
  }

  /** dtl_sv_to_cstr: "true"/"false" for BOOL, the text for STR, otherwise NULL (None). */
  function ToCstr(sv: Option<Cell>): (r: Option<string>)
    requires ScalarOk(sv)
    ensures r.Some? <==> sv.Some? && (SvTypeOf(sv.value) == SV_BOOL || SvTypeOf(sv.value) == SV_STR)
  {
    if sv.None? then None
    else
      var t := SvTypeOf(sv.value);
      if t == SV_BOOL then Some(if sv.value.body.val.bl then "true" else "false")
      else if t == SV_STR then sv.value.body.str
      else None
  }

  /**
   * dtl_sv_to_string: a new string, or None for a NULL scalar.  `fixed` is the
   * "%f" rendering of a float or double and `pointer` the "%p" rendering of a
   * pointer.  The fixed-point rendering is trimmed with ZtrimSigned.
   */
  function ToString(sv: Option<Cell>, fixed: Float -> string, pointer: nat -> string): (r: Option<string>)
    requires ScalarOk(sv)
    ensures r.None? <==> sv.None?
  {
    if sv.None? then None
    else
      var t := SvTypeOf(sv.value);
      var body := sv.value.body;
      Some(
        if t == SV_NONE then "(undefined)"
        else if t == SV_BOOL then (if body.val.bl then "true" else "false")
        else if t == SV_STR then body.str.value
        else if t == SV_DV then ""
        else match body.val
          case I32(x) => IntToDecimal(x as int)
          case U32(x) => IntToDecimal(x as int)
          case I64(x) => IntToDecimal(x as int)
          case U64(x) => IntToDecimal(x as int)
          case Flt(f) => ZtrimSigned(fixed(f))
          case Dbl(f) => ZtrimSigned(fixed(f))
          case Ptr(p, _) => pointer(p)
          case _ => "")
  }

  /** to_string as written, trimming the fixed-point rendering with Ztrim. */
  function ToStringAsWritten(sv: Option<Cell>, fixed: Float -> string, pointer: nat -> string): (r: Option<string>)
    requires ScalarOk(sv)
    ensures r.None? <==> sv.None?
  {
    if sv.Some? && (SvTypeOf(sv.value) == SV_FLT || SvTypeOf(sv.value) == SV_DBL) then
      Some(Ztrim(fixed(if SvTypeOf(sv.value) == SV_FLT then sv.value.body.val.flt else sv.value.body.val.dbl)))
    else ToString(sv, fixed, pointer)
  }

  /**
   * The text of an integer scalar reads back as the integer it holds, and the
   * text of a bool or string scalar is what to_cstr gives.
   */
  lemma ToStringMeaning(sv: Option<Cell>, fixed: Float -> string, pointer: nat -> string)
    requires ScalarOk(sv) && sv.Some?
    ensures var t := SvTypeOf(sv.value);
      var r := ToString(sv, fixed, pointer).value;
      && (t == SV_I32 || t == SV_U32 || t == SV_I64 || t == SV_U64 ==>
            |r| >= 1 && (r[0] == '-' ==> AllDigits(r[1..])) && (r[0] != '-' ==> AllDigits(r))
            && ParseInt(r) == IntOf(sv.value.body.val))
      && (t == SV_BOOL || t == SV_STR ==> Some(r) == ToCstr(sv))
      && (t == SV_NONE ==> r == "(undefined)")
      && (t == SV_DV ==> r == "")
  {
    var t := SvTypeOf(sv.value);
    if t == SV_I32 || t == SV_U32 || t == SV_I64 || t == SV_U64 {
      IntToDecimalRoundTrip(IntOf(sv.value.body.val));
    }
  }

  /**
   * A negative double renders untrimmed as written, where a positive one is
   * trimmed; with ZtrimSigned both are trimmed alike.
   */
  lemma ToStringNegativeDouble(sv: Option<Cell>, fixed: Float -> string, pointer: nat -> string, ip: nat, frac: string)
    requires ScalarOk(sv) && sv.Some? && SvTypeOf(sv.value) == SV_DBL
    requires |frac| >= 1 && AllDigits(frac) && TrailingZeros(frac) > 0
    requires fixed(sv.value.body.val.dbl) == "-" + (NatToDecimal(ip) + "." + frac)
    ensures ToStringAsWritten(sv, fixed, pointer) == Some(fixed(sv.value.body.val.dbl))
    ensures ToString(sv, fixed, pointer)
      == Some("-" + (NatToDecimal(ip) + (if StripZeros(frac) == [] then "" else "." + StripZeros(frac))))
    ensures ToString(sv, fixed, pointer) != ToStringAsWritten(sv, fixed, pointer)
  {
    ToStringOfDouble(sv, fixed, pointer);
    NegativeTrimDiffers(ip, frac);
  }

  /** A double renders as its fixed-point text, trimmed by either version of ztrim. */
  lemma ToStringOfDouble(sv: Option<Cell>, fixed: Float -> string, pointer: nat -> string)
    requires ScalarOk(sv) && sv.Some? && SvTypeOf(sv.value) == SV_DBL
    ensures ToString(sv, fixed, pointer) == Some(ZtrimSigned(fixed(sv.value.body.val.dbl)))
    ensures ToStringAsWritten(sv, fixed, pointer) == Some(Ztrim(fixed(sv.value.body.val.dbl)))
  {
  }

  // ---------------------------------------------------------------------------
  // Views of a nested value
  // ---------------------------------------------------------------------------

  /** dtl_sv_to_dv: the nested value of a DV scalar, otherwise NULL. */
  function ToDv(sv: Option<Cell>): (d: Ref)
    ensures d != NULL ==> sv.Some? && SvTypeOf(sv.value) == SV_DV && sv.value.body.ScalarBody? && sv.value.body.val == Dv(d)
    ensures sv.Some? && SvTypeOf(sv.value) == SV_DV && sv.value.body.ScalarBody? && sv.value.body.val.Dv? ==>
      d == sv.value.body.val.dv
  {
    if sv.Some? then Nested(sv.value) else NULL
  }

  /** The nested value if it is live and of kind `k`, otherwise NULL (to_sv, to_av, to_hv). */
  function ViewAs(m: Mem, sv: Option<Cell>, k: bv32): (d: Ref)
    ensures d != NULL ==> d == ToDv(sv) && d in m.cells && Kind(m.cells[d]) == k
  {
    var d := ToDv(sv);
    if d != NULL && d in m.cells && DvType(m, d) == k then d else NULL
  }

  function ToSv(m: Mem, sv: Option<Cell>): Ref { ViewAs(m, sv, DV_SCALAR) }
  function ToAv(m: Mem, sv: Option<Cell>): Ref { ViewAs(m, sv, DV_ARRAY) }
  function ToHv(m: Mem, sv: Option<Cell>): Ref { ViewAs(m, sv, DV_HASH) }

  /** dtl_sv_dv_type: the kind of the nested value, INVALID when there is none. */
  function SvDvType(m: Mem, sv: Option<Cell>): (k: bv32)
    requires ToDv(sv) == NULL || ToDv(sv) in m.cells
    ensures ToDv(sv) == NULL ==> k == DV_INVALID
    ensures ToDv(sv) != NULL ==> k == Kind(m.cells[ToDv(sv)])
  {
    DvType(m, ToDv(sv))
  }

  /**
   * At most one of the typed views is not NULL; the one that is not returns
   * the nested value, and it is the one matching the nested value's kind.
   */
  lemma ViewsPartition(m: Mem, sv: Option<Cell>)
    requires ToDv(sv) == NULL || ToDv(sv) in m.cells
    ensures var d := ToDv(sv);
      && (ToSv(m, sv) != NULL ==> ToAv(m, sv) == NULL && ToHv(m, sv) == NULL)
      && (ToAv(m, sv) != NULL ==> ToHv(m, sv) == NULL)
      && (ToSv(m, sv) != NULL <==> d != NULL && SvDvType(m, sv) == DV_SCALAR)
      && (ToAv(m, sv) != NULL <==> d != NULL && SvDvType(m, sv) == DV_ARRAY)
      && (ToHv(m, sv) != NULL <==> d != NULL && SvDvType(m, sv) == DV_HASH)
  {
  }
}
