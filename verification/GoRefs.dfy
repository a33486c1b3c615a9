/** The reference table of the Go runtime glue, as states and steps, and its invariant. */
module GoRefs {
  import opened ByteStrings
  import opened JsMemory

  // ---------- JavaScript values ----------

  /** A number is NaN or the two words of a float64; objects, symbols and functions are identities. */
  datatype Value = Undefined | Null | Bool(b: bool) | NaN | Num(hi: int, lo: int) | Str(s: string)
                 | Sym(id: nat) | Fun(id: nat) | Obj(id: nat) | Big(n: int)

  predicate NaNBits(hi: int, lo: int) {
    hi / 0x10_0000 % 0x800 == 0x7FF && (hi % 0x10_0000 != 0 || lo != 0)
  }

  predicate ZeroBits(hi: int, lo: int) {
    lo == 0 && (hi == 0 || hi == 0x8000_0000)
  }

  type JsValue = v: Value | v.Num? ==> 0 <= v.hi < TWO_32 && 0 <= v.lo < TWO_32 && !NaNBits(v.hi, v.lo)
    witness Undefined

  /** Map keys and loads do not tell -0 from 0. */
  function Canon(v: JsValue): JsValue {
    if v.Num? && ZeroBits(v.hi, v.lo) then Num(0, 0) else v
  }

  /** Non-zero numbers and undefined are stored in the cell itself, all else by reference. */
  predicate ByReference(v: JsValue) {
    !(v.Undefined? || v.NaN? || (v.Num? && !ZeroBits(v.hi, v.lo)))
  }

  function TypeFlag(v: JsValue): (f: nat)
    ensures f <= 4
  {
    match v
    case Obj(_) => 1
    case Str(_) => 2
    case Sym(_) => 3
    case Fun(_) => 4
    case _ => 0
  }

  const NAN_HEAD: nat := 0x7FF8_0000

  // ---------- the table ----------

  datatype Count = Finite(n: int) | Infinite

  function Plus(c: Count, d: int): Count {
    if c.Infinite? then Infinite else Finite(c.n + d)
  }

  datatype Refs = Refs(values: seq<JsValue>, counts: seq<Count>, ids: map<JsValue, nat>, pool: seq<nat>)

  datatype State = State(refs: Refs, mem: Bytes)

  const RESERVED: seq<JsValue> := [NaN, Num(0, 0), Null, Bool(true), Bool(false), Obj(0), Obj(1)]

  /** The table that run sets up; Obj(0) is globalThis and Obj(1) the Go instance. */
  function InitialRefs(): Refs {
    Refs(RESERVED, [Infinite, Infinite, Infinite, Infinite, Infinite, Infinite, Infinite],
         map[Num(0, 0) := 1, Null := 2, Bool(true) := 3, Bool(false) := 4, Obj(0) := 5, Obj(1) := 6], [])
  }

  predicate Live(t: Refs, i: nat) {
    1 <= i < |t.counts| && t.counts[i] != Finite(0)
  }

  ghost predicate NoDuplicates(s: seq<nat>) {
    forall j, k :: 0 <= j < k < |s| ==> s[j] != s[k]
  }

  /** Reserved slots are untouched, all other counts are natural numbers. */
  ghost predicate Counted(t: Refs) {
    && |t.values| == |t.counts| >= 7
    && (forall i :: 0 <= i < 7 ==> t.values[i] == RESERVED[i] && t.counts[i] == Infinite)
    && (forall i :: 7 <= i < |t.counts| ==> t.counts[i].Finite? && t.counts[i].n >= 0)
  }

  /** The pool lists, once each, exactly the slots without references, which hold null. */
  ghost predicate Pooled(t: Refs) {
    && NoDuplicates(t.pool)
    && (forall i: nat :: i in t.pool <==> 7 <= i < |t.counts| && t.counts[i] == Finite(0))
    && (forall i :: i in t.pool && i < |t.values| ==> t.values[i] == Null)
  }

  /** ids is exactly the inverse of values on live slots. */
  ghost predicate Indexed(t: Refs) {
    && (forall v :: v in t.ids ==>
          Canon(v) == v && Live(t, t.ids[v]) && t.ids[v] < |t.values| && t.values[t.ids[v]] == v)
    && (forall i :: 1 <= i < |t.values| && Live(t, i) ==> t.values[i] in t.ids && t.ids[t.values[i]] == i)
  }

  ghost predicate Valid(t: Refs) {
    Counted(t) && Pooled(t) && Indexed(t)
  }

  /** The id storeValue uses for a value held by reference. */
  function IssuedId(t: Refs, v: JsValue): nat {
    if Canon(v) in t.ids then t.ids[Canon(v)]
    else if t.pool != [] then t.pool[|t.pool| - 1]
    else |t.values|
  }

  function Acquire(t: Refs, v: JsValue): Refs
    requires Valid(t)
  {
    var key, id := Canon(v), IssuedId(t, v);
    if key in t.ids then t.(counts := t.counts[id := Plus(t.counts[id], 1)])
    else if t.pool != [] then
      assert id in t.pool;
      Refs(t.values[id := v], t.counts[id := Finite(1)], t.ids[key := id], t.pool[..|t.pool| - 1])
    else
      Refs(t.values + [v], t.counts + [Finite(1)], t.ids[key := id], t.pool)
  }

  function Release(t: Refs, id: nat): Refs
    requires id < |t.counts| == |t.values|
  {
    var c := Plus(t.counts[id], -1);
    if c == Finite(0)
    then Refs(t.values[id := Null], t.counts[id := c], t.ids - {Canon(t.values[id])}, t.pool + [id])
    else t.(counts := t.counts[id := c])
  }

  lemma InitialIsIndexed()
    ensures Indexed(InitialRefs())
  {
    var t := InitialRefs();
    assert t.ids.Keys == {t.values[1], t.values[2], t.values[3], t.values[4], t.values[5], t.values[6]};
    forall v | v in t.ids
      ensures Canon(v) == v && Live(t, t.ids[v]) && t.values[t.ids[v]] == v
    {
      assert v in t.ids.Keys;
    }
  }

  lemma InitialIsValid()
    ensures Valid(InitialRefs())
  {
    InitialIsIndexed();
    hide Indexed;
  }

  /** Zero keeps its reserved id, so a value without an id is its own map key. */
  lemma ZeroIsReserved(t: Refs, v: JsValue)
    requires Valid(t)
    ensures Num(0, 0) in t.ids && t.ids[Num(0, 0)] == 1
    ensures Canon(v) !in t.ids ==> Canon(v) == v
  {
    assert Live(t, 1) && t.values[1] == RESERVED[1];
  }

  lemma AcquireKnown(t: Refs, v: JsValue)
    requires Valid(t) && Canon(v) in t.ids
    ensures Valid(Acquire(t, v))
  {
  }

  lemma AcquireReused(t: Refs, v: JsValue)
    requires Valid(t) && Canon(v) !in t.ids && t.pool != []
    ensures Valid(Acquire(t, v))
  {
    ZeroIsReserved(t, v);
    var id, u := IssuedId(t, v), Acquire(t, v);
    assert id in t.pool && t.pool == u.pool + [id];
    hide Canon;
    ReusedIsIndexed(t, v, id, u);
    ReusedIsPooled(t, v, id, u);
    hide Indexed, Pooled, Counted, Acquire, IssuedId, Live;
  }

  lemma ReusedIsPooled(t: Refs, v: JsValue, id: nat, u: Refs)
    requires Counted(t) && Pooled(t) && 7 <= id < |t.values| && t.pool == u.pool + [id]
    requires u.values == t.values[id := v] && u.counts == t.counts[id := Finite(1)]
    ensures Counted(u) && Pooled(u)
  {
    assert t.pool[|u.pool|] == id && forall j :: 0 <= j < |u.pool| ==> u.pool[j] == t.pool[j];
    assert forall i: nat :: i in u.pool <==> i in t.pool && i != id;
  }

  lemma ReusedIsIndexed(t: Refs, v: JsValue, id: nat, u: Refs)
    requires Indexed(t) && Canon(v) == v && v !in t.ids && 1 <= id < |t.values| == |t.counts| && !Live(t, id)
    requires u.values == t.values[id := v] && u.counts == t.counts[id := Finite(1)] && u.ids == t.ids[v := id]
    ensures Indexed(u)
  {
  }

  lemma AcquireFresh(t: Refs, v: JsValue)
    requires Valid(t) && Canon(v) !in t.ids && t.pool == []
    ensures Valid(Acquire(t, v))
  {
    ZeroIsReserved(t, v);
    var id, u := IssuedId(t, v), Acquire(t, v);
    assert forall i :: Live(u, i) <==> Live(t, i) || i == id;
    forall w | w in u.ids
      ensures Canon(w) == w && Live(u, u.ids[w]) && u.ids[w] < |u.values| && u.values[u.ids[w]] == w
    {
      assert w == v || (w in t.ids && Live(t, t.ids[w]));
    }
  }

  lemma AcquireKeepsValid(t: Refs, v: JsValue)
    requires Valid(t)
    ensures Valid(Acquire(t, v))
  {
    hide Valid, Acquire;
    if Canon(v) in t.ids { AcquireKnown(t, v); }
    else if t.pool != [] { AcquireReused(t, v); }
    else { AcquireFresh(t, v); }
  }

  lemma ReleaseLast(t: Refs, id: nat)
    requires Valid(t) && id < |t.counts| && t.counts[id] == Finite(1)
    ensures Valid(Release(t, id))
  {
    var u := Release(t, id);
    var v := t.values[id];
    assert Live(t, id) && id !in t.pool && v in t.ids && t.ids[v] == id;
    assert u.ids == t.ids - {v};
    assert forall i: nat :: i in u.pool <==> i in t.pool || i == id;
    assert forall i :: Live(u, i) <==> Live(t, i) && i != id;
    forall w | w in u.ids
      ensures Canon(w) == w && Live(u, u.ids[w]) && u.ids[w] < |u.values| && u.values[u.ids[w]] == w
    {
      assert w in t.ids && w != v;
    }
  }

  lemma ReleaseKeepsValid(t: Refs, id: nat)
    requires Valid(t) && id < |t.counts|
    requires t.counts[id].Infinite? || t.counts[id].n >= 1
    ensures Valid(Release(t, id))
  {
    if t.counts[id] == Finite(1) {
      ReleaseLast(t, id);
    } else {
      assert id == 0 || Live(t, id);
      assert forall i :: Live(Release(t, id), i) <==> Live(t, i);
    }
  }

  // ---------- the table in terms of values ----------

  /** The sign dropped, a float64 pattern is zero, a number up to infinity, or a NaN above it. */
  lemma FloatClasses(hi: int, lo: int)
    requires 0 <= hi < TWO_32 && 0 <= lo < TWO_32
    ensures var magnitude := (hi % 0x8000_0000) * TWO_32 + lo;
            (ZeroBits(hi, lo) <==> magnitude == 0)
            && (NaNBits(hi, lo) <==> magnitude > 0x7FF0_0000_0000_0000)
  {
    var m := hi % 0x8000_0000;
    assert m / 0x10_0000 == hi / 0x10_0000 % 0x800 && m % 0x10_0000 == hi % 0x10_0000;
  }

  /** Only -0 has another value's key; it has that of 0. */
  lemma KeysOfValues(v: JsValue)
    ensures Canon(v) == if v == Num(0x8000_0000, 0) then Num(0, 0) else v
  {
  }

  /** In every valid table the first seven ids have their fixed values, and six of them are looked up by value. */
  lemma ReservedIds(t: Refs)
    requires Valid(t)
    ensures t.values[..7] == [NaN, Num(0, 0), Null, Bool(true), Bool(false), Obj(0), Obj(1)]
    ensures IssuedId(t, Num(0, 0)) == IssuedId(t, Num(0x8000_0000, 0)) == 1
    ensures IssuedId(t, Null) == 2 && IssuedId(t, Bool(true)) == 3 && IssuedId(t, Bool(false)) == 4
    ensures IssuedId(t, Obj(0)) == 5 && IssuedId(t, Obj(1)) == 6
  {
    ReservedId(t, 1);
    ReservedId(t, 2);
    ReservedId(t, 3);
    ReservedId(t, 4);
    ReservedId(t, 5);
    ReservedId(t, 6);
    assert t.values[..7] == RESERVED;
    hide Valid;
  }

  lemma ReservedId(t: Refs, i: nat)
    requires Valid(t) && 1 <= i < 7
    ensures t.values[i] == RESERVED[i] && RESERVED[i] in t.ids && t.ids[RESERVED[i]] == i
  {
    assert Live(t, i) && t.values[i] == RESERVED[i];
  }

  /** A new value takes the id freed last, or without one a fresh id at the end. */
  lemma FreedIdComesBack(t: Refs, id: nat, v: JsValue)
    requires Valid(t) && id < |t.counts| && t.counts[id] == Finite(1)
    requires Canon(v) !in t.ids || t.ids[Canon(v)] == id
    ensures IssuedId(Release(t, id), v) == id
    ensures Canon(v) !in t.ids && t.pool == [] ==> IssuedId(t, v) == |t.values|
  {
    assert Live(t, id) && t.ids[t.values[id]] == id && Canon(t.values[id]) == t.values[id];
  }
}
