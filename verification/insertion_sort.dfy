/**
 * The in-place insertion sort behind dtl_av_sort.  Elements are references; the
 * kind of each element and the scalar comparison dtl_sv_lt come in as
 * parameters, because the comparison is declared but not defined in the
 * runtime.  A comparison yields an error code and, when that code is
 * NO_ERROR, whether the left operand is less than the right one.
 *
 * `SortFrom` states the whole run, pass by pass, including the state the
 * array is left in when a pass stops on an error; `InsertionSort` is the loop
 * nest proved equal to it.
 */
module InsertionSorting {
  import opened DynamicValues

  datatype LtResult = LtResult(err: int, less: bool)

  /** The `less` answer of the comparison. */
  predicate Less(lt: (Ref, Ref) -> LtResult, x: Ref, y: Ref) {
    lt(x, y).less
  }

  /** `result` after the optional flip: whether `x` may stay in front of `y`. */
  predicate Precedes(lt: (Ref, Ref) -> LtResult, reverse: bool, x: Ref, y: Ref) {
    if reverse then !Less(lt, x, y) else Less(lt, x, y)
  }

  /** `x` in front of `y` is out of order: ascending, y < x; descending, x < y. */
  predicate Inverted(lt: (Ref, Ref) -> LtResult, reverse: bool, x: Ref, y: Ref) {
    if reverse then Less(lt, x, y) else Less(lt, y, x)
  }

  predicate Sorted(lt: (Ref, Ref) -> LtResult, reverse: bool, s: seq<Ref>) {
    forall j, k | 0 <= j < k < |s| :: !Inverted(lt, reverse, s[j], s[k])
  }

  /** The comparison orders the values of `xs` as a strict weak order. */
  ghost predicate StrictWeakOrder(lt: (Ref, Ref) -> LtResult, xs: set<Ref>) {
    && (forall x | x in xs :: !Less(lt, x, x))
    && (forall x, y, z | x in xs && y in xs && z in xs ::
          Less(lt, x, y) && Less(lt, y, z) ==> Less(lt, x, z))
    && (forall x, y, z | x in xs && y in xs && z in xs ::
          !Less(lt, x, y) && !Less(lt, y, z) ==> !Less(lt, x, z))
  }

  /** Where the element being inserted goes, or the error that stops the walk. */
  datatype Search = Found(pos: nat) | Failed(err: int, pos: nat)

  /**
   * The walk down from the hole at `i`: compare s[i-1] with `right`; stop there
   * when it may stay in front, move on otherwise.  A non-scalar left operand is
   * a TYPE_ERROR; a comparison error is passed on.
   */
  function SearchFrom(s: seq<Ref>, right: Ref, i: nat, kind: Ref -> bv32, lt: (Ref, Ref) -> LtResult, reverse: bool): (r: Search)
    requires i <= |s|
    ensures r.pos <= i
    ensures r.Failed? ==> r.pos >= 1 && r.err != NO_ERROR
    decreases i
  {
    if i == 0 then Found(0)
    else
      var left := s[i - 1];
      if kind(left) != DV_SCALAR then Failed(TYPE_ERROR, i)
      else if lt(left, right).err != NO_ERROR then Failed(lt(left, right).err, i)
      else if Precedes(lt, reverse, left, right) then Found(i)
      else SearchFrom(s, right, i - 1, kind, lt, reverse)
  }

  /**
   * Where the walk stops is a place for `right`: the element in front of it may
   * stay in front, and every element it passed may not.
   */
  lemma {:induction false} SearchFound(s: seq<Ref>, right: Ref, i: nat, kind: Ref -> bv32, lt: (Ref, Ref) -> LtResult, reverse: bool)
    requires i <= |s|
    ensures var r := SearchFrom(s, right, i, kind, lt, reverse);
      r.Found? ==>
        && (r.pos > 0 ==> Precedes(lt, reverse, s[r.pos - 1], right))
        && forall b | r.pos <= b < i :: !Precedes(lt, reverse, s[b], right)
    decreases i
  {
    if i > 0 && kind(s[i - 1]) == DV_SCALAR && lt(s[i - 1], right).err == NO_ERROR && !Precedes(lt, reverse, s[i - 1], right) {
      SearchFound(s, right, i - 1, kind, lt, reverse);
    }
  }

  /** s[u] moved down to position j, s[j..u] moved up by one. */
  function Insert(s: seq<Ref>, u: nat, j: nat): (t: seq<Ref>)
    requires j <= u < |s|
    ensures |t| == |s| && t[j] == s[u]
  {
    s[..j] + [s[u]] + s[j..u] + s[u + 1..]
  }

  /**
   * The state a pass leaves when it stops at hole `i`: as written, slots
   * i..u hold the shifted elements and s[u] is gone; with `restore`, s[u] is
   * put into the hole first.
   */
  function Abandoned(s: seq<Ref>, u: nat, i: nat, restore: bool): (t: seq<Ref>)
    requires 1 <= i <= u < |s|
    ensures |t| == |s|
  {
    if restore then Insert(s, u, i) else s[..i + 1] + s[i..u] + s[u + 1..]
  }

  /** One pass that searches for the place of s[u]: its error code and the buffer it leaves. */
  function PassResult(s: seq<Ref>, u: nat, kind: Ref -> bv32, lt: (Ref, Ref) -> LtResult, reverse: bool, restore: bool): (r: (int, seq<Ref>))
    requires 1 <= u < |s|
    ensures |r.1| == |s|
  {
    match SearchFrom(s, s[u], u, kind, lt, reverse)
    case Failed(e, i) => (e, Abandoned(s, u, i, restore))
    case Found(j) => (NO_ERROR, Insert(s, u, j))
  }

  /** Passes u, u+1, … of the sort: the final error code and array contents. */
  function SortFrom(s: seq<Ref>, u: nat, kind: Ref -> bv32, lt: (Ref, Ref) -> LtResult, reverse: bool, restore: bool): (r: (int, seq<Ref>))
    requires u >= 1
    ensures |r.1| == |s|
    decreases |s| - u
  {
    if u >= |s| then (NO_ERROR, s)
    else
      var right := s[u];
      if kind(s[u - 1]) != DV_SCALAR || kind(right) != DV_SCALAR then (TYPE_ERROR, s)
      else match SearchFrom(s, right, u, kind, lt, reverse)
        case Failed(e, i) => (e, Abandoned(s, u, i, restore))
        case Found(j) => SortFrom(Insert(s, u, j), u + 1, kind, lt, reverse, restore)
  }

  /**
   * dtl_av_insertion_sort on the slot buffer.  With `restore` false this is the
   * loop as written; with `restore` true the element being inserted is put
   * back before an error from the inner walk is returned.
   */
  method InsertionSort(a: array<Ref>, kind: Ref -> bv32, lt: (Ref, Ref) -> LtResult, reverse: bool, restore: bool)
    returns (err: int)
    modifies a
    ensures (err, a[..]) == SortFrom(old(a[..]), 1, kind, lt, reverse, restore)
  {
    var n := a.Length;
    if n <= 1 {
      return NO_ERROR;
    }
    ghost var target := SortFrom(a[..], 1, kind, lt, reverse, restore);
    var u := 1;
    while u < n
      invariant 1 <= u <= n == a.Length
      invariant SortFrom(a[..], u, kind, lt, reverse, restore) == target
    {
      err := SortPass(a, u, kind, lt, reverse, restore);
      if err != NO_ERROR {
        return err;
      }
      u := u + 1;
    }
    assert SortFrom(a[..], n, kind, lt, reverse, restore) == (NO_ERROR, a[..]);
    return NO_ERROR;
  }

  /**
   * One round of the outer loop: compare the neighbours at u-1 and u and, when
   * they are out of order, walk s[u] down to its place.  Either the sort goes
   * on from u+1 with the new buffer, or it stops here with `err`.
   */
  method SortPass(a: array<Ref>, u: nat, kind: Ref -> bv32, lt: (Ref, Ref) -> LtResult, reverse: bool, restore: bool)
    returns (err: int)
    requires 1 <= u < a.Length
    modifies a
    ensures SortFrom(old(a[..]), u, kind, lt, reverse, restore)
      == if err == NO_ERROR then SortFrom(a[..], u + 1, kind, lt, reverse, restore) else (err, a[..])
  {
    ghost var s := a[..];
    var left := a[u - 1];
    var right := a[u];
    if !(kind(left) == DV_SCALAR && kind(right) == DV_SCALAR) {
      return TYPE_ERROR;
    }
    PassStart(s, u, kind, lt, reverse, restore);
    var cmp := lt(left, right);
    if cmp.err != NO_ERROR {
      return cmp.err;
    }
    var result := cmp.less;
    if reverse {
      result := !result;
    }
    if !result {
      err := Walk(a, u, kind, lt, reverse, restore);
      return err;
    }
    return NO_ERROR;
  }

  /**
   * The start of pass `u` on two scalars: the run continues as the walk decides,
   * and a walk that stops at once leaves the buffer as it is.
   */
  lemma PassStart(s: seq<Ref>, u: nat, kind: Ref -> bv32, lt: (Ref, Ref) -> LtResult, reverse: bool, restore: bool)
    requires 1 <= u < |s| && kind(s[u - 1]) == DV_SCALAR && kind(s[u]) == DV_SCALAR
    ensures var p := PassResult(s, u, kind, lt, reverse, restore);
      SortFrom(s, u, kind, lt, reverse, restore)
        == if p.0 == NO_ERROR then SortFrom(p.1, u + 1, kind, lt, reverse, restore) else p
    ensures lt(s[u - 1], s[u]).err != NO_ERROR
      ==> PassResult(s, u, kind, lt, reverse, restore) == (lt(s[u - 1], s[u]).err, s)
    ensures lt(s[u - 1], s[u]).err == NO_ERROR && Precedes(lt, reverse, s[u - 1], s[u])
      ==> PassResult(s, u, kind, lt, reverse, restore) == (NO_ERROR, s)
  {
    SortStep(s, u, kind, lt, reverse, restore);
    if lt(s[u - 1], s[u]).err != NO_ERROR {
      StopsOnError(s, s[u], u, kind, lt, reverse);
      assert Abandoned(s, u, u, restore) == s;
    } else if Precedes(lt, reverse, s[u - 1], s[u]) {
      StopsBehind(s, s[u], u, kind, lt, reverse);
      assert Insert(s, u, u) == s;
    }
  }

  /**
   * One pass whose first comparison put s[u-1] behind s[u]: shift the larger
   * elements up one slot at a time and drop s[u] into the hole.
   */
  method Walk(a: array<Ref>, u: nat, kind: Ref -> bv32, lt: (Ref, Ref) -> LtResult, reverse: bool, restore: bool)
    returns (err: int)
    requires 1 <= u < a.Length && kind(a[u - 1]) == DV_SCALAR
    requires lt(a[u - 1], a[u]).err == NO_ERROR && !Precedes(lt, reverse, a[u - 1], a[u])
    modifies a
    ensures (err, a[..]) == PassResult(old(a[..]), u, kind, lt, reverse, restore)
  {
    ghost var s := a[..];
    var right := a[u];
    var left := a[u - 1];
    ghost var target := SearchFrom(s, right, u, kind, lt, reverse);
    SearchStep(s, right, u, kind, lt, reverse);
    OpenHole(a, s, u, left);
    var i := u - 1;
    while i > 0
      invariant 0 <= i < u
      invariant a[..] == Shifted(s, u, i)
      invariant SearchFrom(s, right, i, kind, lt, reverse) == target
    {
      left := a[i - 1];
      assert left == s[i - 1] by { ShiftedBelow(s, u, i); }
      if kind(left) != DV_SCALAR {
        StopsOnType(s, right, i, kind, lt, reverse);
        Abandon(a, s, u, i, right, restore);
        return TYPE_ERROR;
      }
      var cmp := lt(left, right);
      if cmp.err != NO_ERROR {
        StopsOnError(s, right, i, kind, lt, reverse);
        Abandon(a, s, u, i, right, restore);
        return cmp.err;
      }
      var result := cmp.less;
      if reverse {
        result := !result;
      }
      if !result {
        SearchStep(s, right, i, kind, lt, reverse);
        MoveUp(a, s, u, i, left);
        i := i - 1;
      } else {
        StopsBehind(s, right, i, kind, lt, reverse);
        break;
      }
    }
    assert target == Found(i);
    Drop(a, s, u, i, right);
    return NO_ERROR;
  }

  /** The search fails at hole `i > 0` when s[i-1] is not a scalar. */
  lemma StopsOnType(s: seq<Ref>, right: Ref, i: nat, kind: Ref -> bv32, lt: (Ref, Ref) -> LtResult, reverse: bool)
    requires 0 < i <= |s| && kind(s[i - 1]) != DV_SCALAR
    ensures SearchFrom(s, right, i, kind, lt, reverse) == Failed(TYPE_ERROR, i)
  {
  }

  /** The search fails at hole `i > 0` when comparing s[i-1] fails. */
  lemma StopsOnError(s: seq<Ref>, right: Ref, i: nat, kind: Ref -> bv32, lt: (Ref, Ref) -> LtResult, reverse: bool)
    requires 0 < i <= |s| && kind(s[i - 1]) == DV_SCALAR && lt(s[i - 1], right).err != NO_ERROR
    ensures SearchFrom(s, right, i, kind, lt, reverse) == Failed(lt(s[i - 1], right).err, i)
  {
  }

  /** The search ends at hole `i > 0` when s[i-1] precedes the value being placed. */
  lemma StopsBehind(s: seq<Ref>, right: Ref, i: nat, kind: Ref -> bv32, lt: (Ref, Ref) -> LtResult, reverse: bool)
    requires 0 < i <= |s| && kind(s[i - 1]) == DV_SCALAR && lt(s[i - 1], right).err == NO_ERROR
    requires Precedes(lt, reverse, s[i - 1], right)
    ensures SearchFrom(s, right, i, kind, lt, reverse) == Found(i)
  {
  }

  /** Move s[u-1] up into slot `u`, holding s[u] aside; the hole is now at u-1. */
  method OpenHole(a: array<Ref>, ghost s: seq<Ref>, u: nat, left: Ref)
    requires 1 <= u < |s| && a[..] == s && left == s[u - 1]
    modifies a
    ensures a[..] == Shifted(s, u, u - 1)
  {
    ShiftFirst(s, u);
    a[u] := left;
  }

  /** Move s[i-1] up into the hole at `i`; the hole is now at i-1. */
  method MoveUp(a: array<Ref>, ghost s: seq<Ref>, u: nat, i: nat, left: Ref)
    requires 0 < i < u < |s| && a[..] == Shifted(s, u, i) && left == s[i - 1]
    modifies a
    ensures a[..] == Shifted(s, u, i - 1)
  {
    ShiftOne(s, u, i);
    a[i] := left;
  }

  /** Drop the held element s[u] into the hole at `i`. */
  method Drop(a: array<Ref>, ghost s: seq<Ref>, u: nat, i: nat, right: Ref)
    requires i < u < |s| && a[..] == Shifted(s, u, i) && right == s[u]
    modifies a
    ensures a[..] == Insert(s, u, i)
  {
    Place(s, u, i);
    a[i] := right;
  }

  /** Leave a pass at hole `i`, with s[u] put back into the hole when `restore`. */
  method Abandon(a: array<Ref>, ghost s: seq<Ref>, u: nat, i: nat, right: Ref, restore: bool)
    requires 1 <= i < u < |s| && a[..] == Shifted(s, u, i) && right == s[u]
    modifies a
    ensures a[..] == Abandoned(s, u, i, restore)
  {
    Place(s, u, i);
    if restore {
      a[i] := right;
    }
  }

  /** The buffer during a walk that has reached hole `i`: s[i..u] moved up one, s[u] held aside. */
  function Shifted(s: seq<Ref>, u: nat, i: nat): (t: seq<Ref>)
    requires i < u < |s|
    ensures |t| == |s|
  {
    s[..i + 1] + s[i..u] + s[u + 1..]
  }

  lemma ShiftedBelow(s: seq<Ref>, u: nat, i: nat)
    requires 0 < i < u < |s|
    ensures Shifted(s, u, i)[i - 1] == s[i - 1]
  {
  }

  lemma ShiftFirst(s: seq<Ref>, u: nat)
    requires 1 <= u < |s|
    ensures s[u := s[u - 1]] == Shifted(s, u, u - 1)
  {
  }

  lemma ShiftOne(s: seq<Ref>, u: nat, i: nat)
    requires 0 < i < u < |s|
    ensures Shifted(s, u, i)[i := s[i - 1]] == Shifted(s, u, i - 1)
  {
  }

  lemma Place(s: seq<Ref>, u: nat, i: nat)
    requires i < u < |s|
    ensures Shifted(s, u, i)[i := s[u]] == Insert(s, u, i)
    ensures i >= 1 ==> Shifted(s, u, i) == Abandoned(s, u, i, false)
  {
  }

  lemma SearchStep(s: seq<Ref>, right: Ref, i: nat, kind: Ref -> bv32, lt: (Ref, Ref) -> LtResult, reverse: bool)
    requires 0 < i <= |s| && kind(s[i - 1]) == DV_SCALAR
    requires lt(s[i - 1], right).err == NO_ERROR && !Precedes(lt, reverse, s[i - 1], right)
    ensures SearchFrom(s, right, i, kind, lt, reverse) == SearchFrom(s, right, i - 1, kind, lt, reverse)
  {
  }

  // ---------------------------------------------------------------------------
  // What a run guarantees
  // ---------------------------------------------------------------------------

  lemma InsertPermutes(s: seq<Ref>, u: nat, j: nat)
    requires j <= u < |s|
    ensures multiset(Insert(s, u, j)) == multiset(s)
  {
    assert s == s[..j] + s[j..u] + [s[u]] + s[u + 1..];
  }

  /** `r` keeps the elements of `s` when it ends without error, or whenever `restore` is set. */
  ghost predicate Keeps(s: seq<Ref>, r: (int, seq<Ref>), restore: bool)
  {
    restore || r.0 == NO_ERROR ==> multiset(r.1) == multiset(s)
  }

  /**
   * A run that ends without error, and every run with `restore`, only
   * rearranges the elements.
   */
  lemma {:induction false} SortPermutes(s: seq<Ref>, u: nat, kind: Ref -> bv32, lt: (Ref, Ref) -> LtResult, reverse: bool, restore: bool)
    requires u >= 1
    ensures Keeps(s, SortFrom(s, u, kind, lt, reverse, restore), restore)
    decreases |s| - u
  {
    var found, t := StepPermutes(s, u, kind, lt, reverse, restore);
    if found {
      SortPermutes(t, u + 1, kind, lt, reverse, restore);
      KeptThrough(s, t, SortFrom(t, u + 1, kind, lt, reverse, restore), restore);
    }
  }

  /** A run that keeps the elements of a rearrangement `t` of `s` keeps those of `s`. */
  lemma KeptThrough(s: seq<Ref>, t: seq<Ref>, r: (int, seq<Ref>), restore: bool)
    requires multiset(t) == multiset(s) && Keeps(t, r, restore)
    ensures Keeps(s, r, restore)
  {
  }

  /** The run from pass `u` either goes on from a rearrangement `t` of `s`, or ends with nothing lost. */
  lemma StepPermutes(s: seq<Ref>, u: nat, kind: Ref -> bv32, lt: (Ref, Ref) -> LtResult, reverse: bool, restore: bool)
    returns (found: bool, t: seq<Ref>)
    requires u >= 1
    ensures found ==> u < |s| && |t| == |s| && multiset(t) == multiset(s)
                      && SortFrom(s, u, kind, lt, reverse, restore) == SortFrom(t, u + 1, kind, lt, reverse, restore)
    ensures !found ==> Keeps(s, SortFrom(s, u, kind, lt, reverse, restore), restore)
  {
    found, t := false, s;
    if u < |s| && kind(s[u - 1]) == DV_SCALAR && kind(s[u]) == DV_SCALAR {
      var r := SearchFrom(s, s[u], u, kind, lt, reverse);
      SortStep(s, u, kind, lt, reverse, restore);
      InsertPermutes(s, u, r.pos);
      found, t := r.Found?, Insert(s, u, r.pos);
    }
  }

  /** One pass of the run, spelled out: insert and go on, or stop with the walk's error. */
  lemma SortStep(s: seq<Ref>, u: nat, kind: Ref -> bv32, lt: (Ref, Ref) -> LtResult, reverse: bool, restore: bool)
    requires 1 <= u < |s| && kind(s[u - 1]) == DV_SCALAR && kind(s[u]) == DV_SCALAR
    ensures var r := SearchFrom(s, s[u], u, kind, lt, reverse);
      SortFrom(s, u, kind, lt, reverse, restore)
        == if r.Found? then SortFrom(Insert(s, u, r.pos), u + 1, kind, lt, reverse, restore)
           else (r.err, Abandoned(s, u, r.pos, restore))
  {
  }

  /** A run that ends without error found every element to be a scalar. */
  lemma {:induction false} SortSucceedsOnlyOnScalars(s: seq<Ref>, u: nat, kind: Ref -> bv32, lt: (Ref, Ref) -> LtResult, reverse: bool, restore: bool)
    requires 1 <= u < |s|
    requires SortFrom(s, u, kind, lt, reverse, restore).0 == NO_ERROR
    ensures kind(s[u - 1]) == DV_SCALAR
    ensures forall k | u <= k < |s| :: kind(s[k]) == DV_SCALAR
    decreases |s| - u
  {
    var j := SearchFrom(s, s[u], u, kind, lt, reverse).pos;
    var t := Insert(s, u, j);
    if u + 1 < |s| {
      SortSucceedsOnlyOnScalars(t, u + 1, kind, lt, reverse, restore);
      forall k | u + 1 <= k < |s|
        ensures kind(s[k]) == DV_SCALAR
      {
        assert t[k] == s[k];
      }
    }
  }

  /** A sort of more than one element that finds a non-scalar does not succeed. */
  lemma NonScalarFails(s: seq<Ref>, k: nat, kind: Ref -> bv32, lt: (Ref, Ref) -> LtResult, reverse: bool, restore: bool)
    requires 1 < |s| && k < |s| && kind(s[k]) != DV_SCALAR
    ensures SortFrom(s, 1, kind, lt, reverse, restore).0 != NO_ERROR
  {
    if SortFrom(s, 1, kind, lt, reverse, restore).0 == NO_ERROR {
      SortSucceedsOnlyOnScalars(s, 1, kind, lt, reverse, restore);
    }
  }

  /** Inserting at the place the walk finds extends a sorted prefix by one. */
  lemma InsertKeepsSorted(s: seq<Ref>, u: nat, j: nat, lt: (Ref, Ref) -> LtResult, reverse: bool, xs: set<Ref>)
    requires j <= u < |s|
    requires StrictWeakOrder(lt, xs) && forall k | 0 <= k < |s| :: s[k] in xs
    requires Sorted(lt, reverse, s[..u])
    requires j > 0 ==> Precedes(lt, reverse, s[j - 1], s[u])
    requires forall b | j <= b < u :: !Precedes(lt, reverse, s[b], s[u])
    ensures Sorted(lt, reverse, Insert(s, u, j)[..u + 1])
  {
    var t := Insert(s, u, j)[..u + 1];
    assert t == s[..j] + [s[u]] + s[j..u];
    var right := s[u];
    forall p, q | 0 <= p < q < |t|
      ensures !Inverted(lt, reverse, t[p], t[q])
    {
      if q < j {
        assert t[p] == s[p] && t[q] == s[q];
        assert s[..u][p] == s[p] && s[..u][q] == s[q];
      } else if p > j {
        assert t[p] == s[p - 1] && t[q] == s[q - 1];
        assert s[..u][p - 1] == s[p - 1] && s[..u][q - 1] == s[q - 1];
      } else if p == j {
        assert t[p] == right && t[q] == s[q - 1];
        assert !Precedes(lt, reverse, s[q - 1], right);
      } else if q > j {
        assert t[p] == s[p] && t[q] == s[q - 1];
        assert s[..u][p] == s[p] && s[..u][q - 1] == s[q - 1];
      } else {
        assert q == j && t[q] == right && t[p] == s[p];
        assert Precedes(lt, reverse, s[j - 1], right);
        if p < j - 1 {
          assert s[..u][p] == s[p] && s[..u][j - 1] == s[j - 1];
          assert !Inverted(lt, reverse, s[p], s[j - 1]);
        }
      }
    }
  }

  lemma InsertKeepsElements(s: seq<Ref>, u: nat, j: nat, xs: set<Ref>)
    requires j <= u < |s|
    requires forall k | 0 <= k < |s| :: s[k] in xs
    ensures forall k | 0 <= k < |s| :: Insert(s, u, j)[k] in xs
  {
    InsertPermutes(s, u, j);
    forall k | 0 <= k < |s|
      ensures Insert(s, u, j)[k] in xs
    {
      var x := Insert(s, u, j)[k];
      assert x in multiset(Insert(s, u, j));
      assert x in multiset(s);
      var k' :| 0 <= k' < |s| && s[k'] == x;
    }
  }

  /** A run that ends without error leaves the elements ordered. */
  ghost predicate Ordered(r: (int, seq<Ref>), lt: (Ref, Ref) -> LtResult, reverse: bool)
  {
    r.0 == NO_ERROR ==> Sorted(lt, reverse, r.1)
  }

  /**
   * When the comparison is a strict weak order on the elements and the run ends
   * without error, the result is ordered: ascending by `lt`, or descending
   * when `reverse` is set.
   */
  lemma {:induction false} SortOrders(s: seq<Ref>, u: nat, kind: Ref -> bv32, lt: (Ref, Ref) -> LtResult, reverse: bool, restore: bool, xs: set<Ref>)
    requires 1 <= u && StrictWeakOrder(lt, xs) && forall k | 0 <= k < |s| :: s[k] in xs
    requires Sorted(lt, reverse, s[..if u < |s| then u else |s|])
    ensures Ordered(SortFrom(s, u, kind, lt, reverse, restore), lt, reverse)
    decreases |s| - u
  {
    var found, t := StepOrders(s, u, kind, lt, reverse, restore, xs);
    if found {
      SortOrders(t, u + 1, kind, lt, reverse, restore, xs);
    }
  }

  /** The run from pass `u` either goes on from `t`, whose sorted prefix is one longer, or ends ordered. */
  lemma StepOrders(s: seq<Ref>, u: nat, kind: Ref -> bv32, lt: (Ref, Ref) -> LtResult, reverse: bool, restore: bool, xs: set<Ref>)
    returns (found: bool, t: seq<Ref>)
    requires 1 <= u && StrictWeakOrder(lt, xs) && forall k | 0 <= k < |s| :: s[k] in xs
    requires Sorted(lt, reverse, s[..if u < |s| then u else |s|])
    ensures found ==> u < |s| && |t| == |s| && Sorted(lt, reverse, t[..u + 1]) && (forall k | 0 <= k < |t| :: t[k] in xs)
                      && SortFrom(s, u, kind, lt, reverse, restore) == SortFrom(t, u + 1, kind, lt, reverse, restore)
    ensures !found ==> Ordered(SortFrom(s, u, kind, lt, reverse, restore), lt, reverse)
  {
    found, t := false, s;
    if u >= |s| {
      assert s[..|s|] == s;
    } else if kind(s[u - 1]) == DV_SCALAR && kind(s[u]) == DV_SCALAR {
      var r := SearchFrom(s, s[u], u, kind, lt, reverse);
      SortStep(s, u, kind, lt, reverse, restore);
      if r.Found? {
        found := true;
        t := PlaceOrders(s, u, kind, lt, reverse, xs);
      }
    }
  }

  /** Placing s[u] where the walk finds its place extends the sorted prefix by one and keeps the elements. */
  lemma PlaceOrders(s: seq<Ref>, u: nat, kind: Ref -> bv32, lt: (Ref, Ref) -> LtResult, reverse: bool, xs: set<Ref>)
    returns (t: seq<Ref>)
    requires 1 <= u < |s| && StrictWeakOrder(lt, xs) && forall k | 0 <= k < |s| :: s[k] in xs
    requires Sorted(lt, reverse, s[..u])
    requires SearchFrom(s, s[u], u, kind, lt, reverse).Found?
    ensures t == Insert(s, u, SearchFrom(s, s[u], u, kind, lt, reverse).pos)
    ensures |t| == |s| && Sorted(lt, reverse, t[..u + 1]) && forall k | 0 <= k < |t| :: t[k] in xs
  {
    var r := SearchFrom(s, s[u], u, kind, lt, reverse);
    SearchFound(s, s[u], u, kind, lt, reverse);
    InsertKeepsSorted(s, u, r.pos, lt, reverse, xs);
    InsertKeepsElements(s, u, r.pos, xs);
    t := Insert(s, u, r.pos);
  }

  /** The whole sort: a successful run is an ordered permutation of its input. */
  lemma SortCorrect(s: seq<Ref>, kind: Ref -> bv32, lt: (Ref, Ref) -> LtResult, reverse: bool, restore: bool)
    requires StrictWeakOrder(lt, set x | x in s)
    requires SortFrom(s, 1, kind, lt, reverse, restore).0 == NO_ERROR
    ensures multiset(SortFrom(s, 1, kind, lt, reverse, restore).1) == multiset(s)
    ensures Sorted(lt, reverse, SortFrom(s, 1, kind, lt, reverse, restore).1)
  {
    SortPermutes(s, 1, kind, lt, reverse, restore);
    SortOrders(s, 1, kind, lt, reverse, restore, set x | x in s);
  }

  // ---------------------------------------------------------------------------
  // Concrete runs
  // ---------------------------------------------------------------------------

  /** Every element is a scalar. */
  function AllScalar(r: Ref): bv32 { DV_SCALAR }

  /** Compare by a key table; no comparison fails. */
  function ByKey(key: Ref -> int): (Ref, Ref) -> LtResult {
    (x: Ref, y: Ref) => LtResult(NO_ERROR, key(x) < key(y))
  }

  /** Two elements with equal keys trade places in an ascending sort. */
  lemma EqualKeysSwap(restore: bool)
    ensures SortFrom([10, 11], 1, AllScalar, ByKey(x => 0), false, restore) == (NO_ERROR, [11, 10])
    ensures SortFrom([10, 11], 1, AllScalar, ByKey(x => 0), true, restore) == (NO_ERROR, [10, 11])
  {
    var lt := ByKey(x => 0);
    assert SearchFrom([10, 11], 11, 1, AllScalar, lt, false) == SearchFrom([10, 11], 11, 0, AllScalar, lt, false);
    assert Insert([10, 11], 1, 0) == [11, 10];
    assert Insert([10, 11], 1, 1) == [10, 11];
  }

  /** Ascending by address, except that comparing 10 with 11 fails. */
  function FailsOn10And11(x: Ref, y: Ref): LtResult {
    if x == 10 && y == 11 then LtResult(INVALID_ARGUMENT_ERROR, false)
    else LtResult(NO_ERROR, x < y)
  }

  /**
   * As written, an error in the inner walk leaves 12 twice and 11 nowhere;
   * with the element put back the array is a rearrangement of its input.
   */
  lemma SortErrorLosesElement()
    ensures SortFrom([10, 12, 11], 1, AllScalar, FailsOn10And11, false, false)
      == (INVALID_ARGUMENT_ERROR, [10, 12, 12])
    ensures SortFrom([10, 12, 11], 1, AllScalar, FailsOn10And11, false, true)
      == (INVALID_ARGUMENT_ERROR, [10, 11, 12])
  {
    var s := [10, 12, 11];
    assert SearchFrom(s, 12, 1, AllScalar, FailsOn10And11, false) == Found(1);
    assert Insert(s, 1, 1) == s;
    assert SearchFrom(s, 11, 2, AllScalar, FailsOn10And11, false) == Failed(INVALID_ARGUMENT_ERROR, 1);
    assert Abandoned(s, 2, 1, false) == [10, 12, 12];
    assert Abandoned(s, 2, 1, true) == [10, 11, 12];
  }
}
