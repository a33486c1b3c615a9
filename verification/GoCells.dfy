/** Memory cells of the glue and runs of stores and finalizes over the reference table. */
module GoCells {
  import opened ByteStrings
  import opened JsMemory
  import opened GoRefs

  // ---------- cells ----------

  function WriteCell(m: Bytes, a: nat, hi: int, lo: int): (m': Bytes)
    requires a + 8 <= |m|
    ensures |m'| == |m|
  {
    WriteU32(WriteU32(m, a + 4, hi), a, lo)
  }

  /** loadValue. */
  function LoadValue(s: State, a: nat): JsValue
    requires a + 8 <= |s.mem|
  {
    var hi, lo := ReadU32(s.mem, a + 4), ReadU32(s.mem, a);
    if ZeroBits(hi, lo) then Undefined
    else if !NaNBits(hi, lo) then Num(hi, lo)
    else if lo < |s.refs.values| then s.refs.values[lo]
    else Undefined
  }

  /** storeValue. */
  function StoreValue(s: State, a: nat, v: JsValue): (s': State)
    requires Valid(s.refs) && a + 8 <= |s.mem|
    ensures |s'.mem| == |s.mem|
  {
    if ByReference(v) then
      State(Acquire(s.refs, v), WriteCell(s.mem, a, NAN_HEAD + TypeFlag(v), IssuedId(s.refs, v)))
    else if v.NaN? then s.(mem := WriteCell(s.mem, a, NAN_HEAD, 0))
    else if v.Undefined? then s.(mem := WriteCell(s.mem, a, 0, 0))
    else s.(mem := WriteCell(s.mem, a, v.hi, v.lo))
  }

  /** finalizeRef of the reference in the cell at a. */
  function FinalizeRef(s: State, a: nat): (s': State)
    requires Valid(s.refs) && a + 8 <= |s.mem| && ReadU32(s.mem, a) < |s.refs.counts|
    ensures |s'.mem| == |s.mem|
  {
    s.(refs := Release(s.refs, ReadU32(s.mem, a)))
  }

  lemma CellReadsBack(m: Bytes, a: nat, hi: int, lo: int)
    requires a + 8 <= |m|
    ensures ReadU32(WriteCell(m, a, hi, lo), a) == lo % TWO_32
    ensures ReadU32(WriteCell(m, a, hi, lo), a + 4) == hi % TWO_32
  {
    ReadBack(m, a + 4, hi);
    ReadBack(WriteU32(m, a + 4, hi), a, lo);
    ReadElsewhere(WriteU32(m, a + 4, hi), a, lo, a + 4);
  }

  lemma CellElsewhere(m: Bytes, a: nat, hi: int, lo: int, b: nat)
    requires a + 8 <= |m| && b + 8 <= |m| && (b + 8 <= a || a + 8 <= b)
    ensures ReadU32(WriteCell(m, a, hi, lo), b) == ReadU32(m, b)
    ensures ReadU32(WriteCell(m, a, hi, lo), b + 4) == ReadU32(m, b + 4)
  {
  }

  lemma TaggedHeadIsNaN(flag: nat, lo: int)
    requires flag <= 4
    ensures NaNBits(NAN_HEAD + flag, lo) && !ZeroBits(NAN_HEAD + flag, lo) && NAN_HEAD + flag < TWO_32
  {
  }

  lemma AcquiredHoldsValue(t: Refs, v: JsValue)
    requires Valid(t) && ByReference(v)
    ensures var u, id := Acquire(t, v), IssuedId(t, v);
            Live(u, id) && id < |u.values| && id <= |t.values|
            && u.values[id] == if v == Num(0x8000_0000, 0) then Num(0, 0) else v
  {
    KeysOfValues(v);
    ZeroIsReserved(t, v);
    AcquireKeepsValid(t, v);
    if Canon(v) in t.ids {
      assert Live(t, IssuedId(t, v));
    } else if t.pool != [] {
      assert IssuedId(t, v) in t.pool;
    }
  }

  lemma WordModulo(n: int)
    requires 0 <= n < TWO_32
    ensures n % TWO_32 == n
  {
  }

  lemma ZeroIsZero()
    ensures ZeroBits(0, 0)
  {
  }

  /** The cell written by storeValue: what loadValue will find in it. */
  lemma StoredCell(s: State, a: nat, v: JsValue)
    requires Valid(s.refs) && a + 8 <= |s.mem| && |s.refs.values| < TWO_32
    ensures var s' := StoreValue(s, a, v);
            var hi, lo := ReadU32(s'.mem, a + 4), ReadU32(s'.mem, a);
            if ByReference(v) then !ZeroBits(hi, lo) && NaNBits(hi, lo) && lo == IssuedId(s.refs, v)
            else if v.NaN? then !ZeroBits(hi, lo) && NaNBits(hi, lo) && lo == 0
            else if v.Undefined? then ZeroBits(hi, lo)
            else hi == v.hi && lo == v.lo
  {
    hide Valid, Acquire, NaNBits, ZeroBits, WriteCell, ReadU32, IssuedId, Canon, TypeFlag, Live;
    if ByReference(v) {
      var hi, lo := NAN_HEAD + TypeFlag(v), IssuedId(s.refs, v);
      AcquiredHoldsValue(s.refs, v);
      TaggedHeadIsNaN(TypeFlag(v), lo);
      CellReadsBack(s.mem, a, hi, lo);
      WordModulo(hi);
      WordModulo(lo);
    } else if v.NaN? {
      TaggedHeadIsNaN(0, 0);
      CellReadsBack(s.mem, a, NAN_HEAD, 0);
      WordModulo(NAN_HEAD);
      WordModulo(0);
    } else if v.Undefined? {
      CellReadsBack(s.mem, a, 0, 0);
      WordModulo(0);
      ZeroIsZero();
    } else {
      CellReadsBack(s.mem, a, v.hi, v.lo);
      WordModulo(v.hi);
      WordModulo(v.lo);
    }
  }

  // ---------- runs ----------

  /**
   * Finalize names the cell that holds the reference, as finalizeRef reads it. GoWrite is Go
   * itself writing to the memory it shares with the glue, between calls.
   */
  datatype Op = Store(addr: nat, v: JsValue) | Finalize(addr: nat) | GoWrite(addr: nat, bytes: Bytes)

  /** The bytes an operation may write, from addr on. */
  function Width(op: Op): nat {
    match op
    case Store(_, _) => 8
    case Finalize(_) => 0
    case GoWrite(_, bytes) => |bytes|
  }

  /** Some reference that the cell at a names is still counted. */
  predicate Releasable(s: State, a: nat) {
    a + 8 <= |s.mem| && ReadU32(s.mem, a) < |s.refs.counts|
    && (s.refs.counts[ReadU32(s.mem, a)].Infinite? || s.refs.counts[ReadU32(s.mem, a)].n >= 1)
  }

  /** A finalize is legal when the table still counts a reference of that id. */
  ghost predicate Legal(s: State, op: Op) {
    Valid(s.refs) && op.addr + Width(op) <= |s.mem| && (op.Finalize? ==> Releasable(s, op.addr))
  }

  ghost function Step(s: State, op: Op): State
    requires Legal(s, op)
  {
    match op
    case Store(a, v) => StoreValue(s, a, v)
    case Finalize(a) => FinalizeRef(s, a)
    case GoWrite(a, bytes) => s.(mem := s.mem[..a] + bytes + s.mem[a + |bytes|..])
  }

  ghost predicate LegalRun(s: State, ops: seq<Op>)
    decreases |ops|, 0
  {
    ops == [] || (LegalRun(s, ops[..|ops| - 1]) && Legal(Run(s, ops[..|ops| - 1]), ops[|ops| - 1]))
  }

  ghost function Run(s: State, ops: seq<Op>): State
    requires LegalRun(s, ops)
    decreases |ops|, 1
  {
    if ops == [] then s else Step(Run(s, ops[..|ops| - 1]), ops[|ops| - 1])
  }

  lemma StepKeepsValid(s: State, op: Op)
    requires Legal(s, op)
    ensures Valid(Step(s, op).refs) && |Step(s, op).mem| == |s.mem|
  {
    hide Valid, Acquire, Release;
    match op
    case Store(a, v) => if ByReference(v) { AcquireKeepsValid(s.refs, v); }
    case Finalize(a) => ReleaseKeepsValid(s.refs, ReadU32(s.mem, a));
    case GoWrite(_, _) =>
  }

  lemma {:induction false} RunKeepsValid(s: State, ops: seq<Op>)
    requires Valid(s.refs) && LegalRun(s, ops)
    ensures Valid(Run(s, ops).refs) && |Run(s, ops).mem| == |s.mem|
  {
    hide Valid, Step, Legal;
    if ops != [] {
      RunKeepsValid(s, ops[..|ops| - 1]);
      StepKeepsValid(Run(s, ops[..|ops| - 1]), ops[|ops| - 1]);
    }
  }

  /** One more reference to id, one less, or neither. */
  ghost function Change(s: State, op: Op, id: nat): int
    requires Legal(s, op)
  {
    match op
    case Store(_, v) => if ByReference(v) && IssuedId(s.refs, v) == id then 1 else 0
    case Finalize(a) => if ReadU32(s.mem, a) == id then -1 else 0
    case GoWrite(_, _) => 0
  }

  /** References to id handed out and not finalized, counted over the history of calls. */
  ghost function Outstanding(s: State, ops: seq<Op>, id: nat): int
    requires LegalRun(s, ops)
  {
    if ops == [] then 0
    else
      var n := |ops| - 1;
      Outstanding(s, ops[..n], id) + Change(Run(s, ops[..n]), ops[n], id)
  }

  lemma AcquireCounts(t: Refs, v: JsValue, id: nat)
    requires Valid(t)
    ensures var u := Acquire(t, v);
            |t.counts| <= |u.counts|
            && (7 <= id < |u.counts| ==>
                  u.counts[id] == Plus(if id < |t.counts| then t.counts[id] else Finite(0),
                                       if IssuedId(t, v) == id then 1 else 0))
            && (|u.counts| <= id ==> IssuedId(t, v) != id)
  {
    if Canon(v) in t.ids {
      assert Live(t, IssuedId(t, v));
    } else if t.pool != [] {
      assert IssuedId(t, v) in t.pool;
    }
  }

  lemma StepCounts(s: State, op: Op, id: nat)
    requires Legal(s, op) && id >= 7
    ensures var t, u := s.refs, Step(s, op).refs;
            |t.counts| <= |u.counts|
            && (id < |u.counts| ==>
                  u.counts[id] == Plus(if id < |t.counts| then t.counts[id] else Finite(0), Change(s, op, id)))
            && (|u.counts| <= id ==> Change(s, op, id) == 0)
  {
    if op.Store? {
      AcquireCounts(s.refs, op.v, id);
      hide Valid, Acquire, IssuedId;
    }
  }

  /** Each count of a non-reserved id is the number of its outstanding references. */
  lemma {:induction false} CountsAreOutstanding(s: State, ops: seq<Op>, id: nat)
    requires |s.refs.counts| == 7 && LegalRun(s, ops) && id >= 7
    ensures var t := Run(s, ops).refs;
            if id < |t.counts| then t.counts[id] == Finite(Outstanding(s, ops, id))
            else Outstanding(s, ops, id) == 0
  {
    hide Legal, Step, Change, Valid;
    if ops != [] {
      var n := |ops| - 1;
      CountsAreOutstanding(s, ops[..n], id);
      StepCounts(Run(s, ops[..n]), ops[n], id);
    }
  }

  /**
   * Over every interleaving of stores and legal finalizes from the initial table: reserved
   * ids are never freed; every other id of the table is in the pool, once, exactly when no
   * reference to it is outstanding, and otherwise its value maps back to it; every key of ids
   * names a slot outside the pool that holds that key.
   */
  lemma TableInvariant(s: State, ops: seq<Op>)
    requires s.refs == InitialRefs() && LegalRun(s, ops)
    ensures var t := Run(s, ops).refs;
            |t.values| == |t.counts| >= 7 && NoDuplicates(t.pool)
            && t.values[..7] == [NaN, Num(0, 0), Null, Bool(true), Bool(false), Obj(0), Obj(1)]
            && (forall i :: 0 <= i < 7 ==> t.counts[i] == Infinite && i !in t.pool)
            && (forall i :: 7 <= i < |t.values| ==>
                  t.counts[i] == Finite(Outstanding(s, ops, i))
                  && (i in t.pool <==> Outstanding(s, ops, i) == 0)
                  && (i !in t.pool ==> t.values[i] in t.ids && t.ids[t.values[i]] == i))
            && (forall i :: i in t.pool ==> 7 <= i < |t.values| && t.values[i] == Null)
            && (forall v :: v in t.ids ==>
                  1 <= t.ids[v] < |t.values| && t.ids[v] !in t.pool && t.values[t.ids[v]] == v)
  {
    InitialIsValid();
    RunKeepsValid(s, ops);
    var t := Run(s, ops).refs;
    ReservedIds(t);
    forall i | 7 <= i < |t.values|
      ensures t.counts[i] == Finite(Outstanding(s, ops, i))
      ensures i in t.pool <==> Outstanding(s, ops, i) == 0
      ensures i !in t.pool ==> t.values[i] in t.ids && t.ids[t.values[i]] == i
    {
      CountsAreOutstanding(s, ops, i);
      assert i !in t.pool ==> Live(t, i);
    }
  }

  /** An id with outstanding references is issued again only for the value it already names. */
  lemma NoReissueWhileReferenced(s: State, ops: seq<Op>, v: JsValue)
    requires s.refs == InitialRefs() && LegalRun(s, ops) && ByReference(v)
    ensures var t := Run(s, ops).refs;
            var id := IssuedId(t, v);
            id >= 7 && Outstanding(s, ops, id) != 0 ==> id < |t.values| && t.values[id] == v
  {
    KeysOfValues(v);
    InitialIsValid();
    RunKeepsValid(s, ops);
    var t := Run(s, ops).refs;
    var id := IssuedId(t, v);
    if id >= 7 { CountsAreOutstanding(s, ops, id); }
    if Canon(v) !in t.ids && t.pool != [] { assert id in t.pool; }
    ReservedIds(t);
  }

  // ---------- a stored value stays loadable ----------

  /** An id that is counted before and after a step names the same value before and after. */
  lemma StepKeepsValue(s: State, op: Op, id: nat)
    requires Legal(s, op) && Live(s.refs, id) && Live(Step(s, op).refs, id)
    ensures id < |s.refs.values| && id < |Step(s, op).refs.values|
    ensures Step(s, op).refs.values[id] == s.refs.values[id]
  {
    if op.Store? && ByReference(op.v) && Canon(op.v) !in s.refs.ids && s.refs.pool != [] {
      assert IssuedId(s.refs, op.v) in s.refs.pool;
    }
  }

  /** No store and no write of the run touches the eight bytes at a. */
  ghost predicate LeavesCell(ops: seq<Op>, a: nat) {
    forall i :: 0 <= i < |ops| && !ops[i].Finalize? ==>
      ops[i].addr + Width(ops[i]) <= a || a + 8 <= ops[i].addr
  }

  /** Some reference to id is outstanding all along the run. */
  ghost predicate KeepsReference(s: State, ops: seq<Op>, id: nat)
    requires LegalRun(s, ops)
  {
    Live(Run(s, ops).refs, id) && (ops == [] || KeepsReference(s, ops[..|ops| - 1], id))
  }

  lemma StepKeepsCell(s: State, op: Op, a: nat)
    requires Legal(s, op) && a + 8 <= |s.mem| && LeavesCell([op], a)
    ensures |Step(s, op).mem| == |s.mem|
    ensures ReadU32(Step(s, op).mem, a) == ReadU32(s.mem, a)
    ensures ReadU32(Step(s, op).mem, a + 4) == ReadU32(s.mem, a + 4)
  {
    hide Valid, Acquire, Release, WriteCell;
    assert [op][0] == op;
    if op.Store? {
      var v := op.v;
      if ByReference(v) { CellElsewhere(s.mem, op.addr, NAN_HEAD + TypeFlag(v), IssuedId(s.refs, v), a); }
      else if v.NaN? { CellElsewhere(s.mem, op.addr, NAN_HEAD, 0, a); }
      else if v.Undefined? { CellElsewhere(s.mem, op.addr, 0, 0, a); }
      else { CellElsewhere(s.mem, op.addr, v.hi, v.lo, a); }
    }
  }

  lemma {:induction false} RunKeepsCell(s: State, ops: seq<Op>, a: nat)
    requires Valid(s.refs) && LegalRun(s, ops) && a + 8 <= |s.mem| && LeavesCell(ops, a)
    ensures |Run(s, ops).mem| == |s.mem|
    ensures ReadU32(Run(s, ops).mem, a) == ReadU32(s.mem, a)
    ensures ReadU32(Run(s, ops).mem, a + 4) == ReadU32(s.mem, a + 4)
  {
    hide Valid, Step, Legal, ReadU32;
    if ops != [] {
      var n := |ops| - 1;
      RunKeepsCell(s, ops[..n], a);
      assert [ops[n]][0] == ops[n];
      StepKeepsCell(Run(s, ops[..n]), ops[n], a);
    }
  }

  lemma {:induction false} RunKeepsValue(s: State, ops: seq<Op>, id: nat)
    requires Valid(s.refs) && LegalRun(s, ops) && KeepsReference(s, ops, id)
    ensures id < |s.refs.values| && id < |Run(s, ops).refs.values|
    ensures Run(s, ops).refs.values[id] == s.refs.values[id]
  {
    if ops != [] {
      var n := |ops| - 1;
      RunKeepsValue(s, ops[..n], id);
      assert KeepsReference(s, ops[..n], id);
      hide Valid, Step, Legal;
      StepKeepsValue(Run(s, ops[..n]), ops[n], id);
    }
  }

  /**
   * From any valid table, loadValue returns what storeValue stored (with -0 as 0), and goes
   * on doing so through any later stores elsewhere and finalizes, as long as a stored
   * reference keeps at least one outstanding count.
   */
  lemma LoadAfterStore(s: State, a: nat, v: JsValue, ops: seq<Op>)
    requires Valid(s.refs) && a + 8 <= |s.mem| && |s.refs.values| < TWO_32
    requires LegalRun(StoreValue(s, a, v), ops) && LeavesCell(ops, a)
    requires ByReference(v) ==> KeepsReference(StoreValue(s, a, v), ops, IssuedId(s.refs, v))
    ensures |Run(StoreValue(s, a, v), ops).mem| == |s.mem|
    ensures LoadValue(Run(StoreValue(s, a, v), ops), a) == if v == Num(0x8000_0000, 0) then Num(0, 0) else v
  {
    KeysOfValues(v);
    hide Valid, IssuedId, Acquire, LegalRun, Run, KeepsReference, LeavesCell, NaNBits, ZeroBits, WriteCell, ReadU32,
      Canon;
    var s' := StoreValue(s, a, v);
    StoreKeepsValid(s, a, v);
    StoredCell(s, a, v);
    RunKeepsCell(s', ops, a);
    if ByReference(v) {
      AcquiredHoldsValue(s.refs, v);
      RunKeepsValue(s', ops, IssuedId(s.refs, v));
    } else if v.NaN? {
      RunKeepsValid(s', ops);
      NaNIsReserved(Run(s', ops).refs);
    }
    CanonOfPlainNumber(v);
  }

  lemma StoreKeepsValid(s: State, a: nat, v: JsValue)
    requires Valid(s.refs) && a + 8 <= |s.mem|
    ensures Valid(StoreValue(s, a, v).refs)
  {
    if ByReference(v) { AcquireKeepsValid(s.refs, v); }
  }

  lemma NaNIsReserved(t: Refs)
    requires Valid(t)
    ensures 0 < |t.values| && t.values[0] == NaN
  {
  }

  lemma CanonOfPlainNumber(v: JsValue)
    ensures !ByReference(v) ==> Canon(v) == v
    ensures !ByReference(v) && v.Num? ==> !ZeroBits(v.hi, v.lo) && !NaNBits(v.hi, v.lo)
  {
  }

  // ---------- cells, legal calls and kept references in plain terms ----------

  /**
   * The eight bytes by kind of value: undefined is +0, NaN is the plain NaN, other numbers
   * are themselves except that zeros are reference 1, and a reference is a NaN with the
   * kind in its head and, in its low word, an id that names the value.
   */
  lemma {:induction false} CellOfValue(s: State, a: nat, v: JsValue)
    requires Valid(s.refs) && a + 8 <= |s.mem| && |s.refs.values| < TWO_32
    ensures var u := StoreValue(s, a, v);
            var hi, lo := ReadU32(u.mem, a + 4), ReadU32(u.mem, a);
            match v
            case Undefined => hi == 0 && lo == 0
            case NaN => hi == 0x7FF8_0000 && lo == 0
            case Num(h, l) =>
              if l == 0 && (h == 0 || h == 0x8000_0000) then hi == 0x7FF8_0000 && lo == 1 else hi == h && lo == l
            case _ =>
              lo < |u.refs.values| && u.refs.values[lo] == v
              && hi == match v
                       case Obj(_) => 0x7FF8_0001
                       case Str(_) => 0x7FF8_0002
                       case Sym(_) => 0x7FF8_0003
                       case Fun(_) => 0x7FF8_0004
                       case _ => 0x7FF8_0000
  {
    hide Valid, Acquire, NaNBits, WriteCell, ReadU32, IssuedId, Canon, Live;
    ReservedIds(s.refs);
    WordModulo(0);
    if ByReference(v) {
      AcquiredHoldsValue(s.refs, v);
      CellReadsBack(s.mem, a, NAN_HEAD + TypeFlag(v), IssuedId(s.refs, v));
      WordModulo(NAN_HEAD + TypeFlag(v));
      WordModulo(IssuedId(s.refs, v));
    } else if v.NaN? {
      CellReadsBack(s.mem, a, NAN_HEAD, 0);
      WordModulo(NAN_HEAD);
    } else if v.Undefined? {
      CellReadsBack(s.mem, a, 0, 0);
    } else {
      CellReadsBack(s.mem, a, v.hi, v.lo);
      WordModulo(v.hi);
      WordModulo(v.lo);
    }
  }

  /** In a run from the initial table a call is legal exactly if it is in bounds and drops only referenced ids. */
  lemma {:induction false} LegalExactly(s: State, ops: seq<Op>, op: Op)
    requires s.refs == InitialRefs() && LegalRun(s, ops)
    ensures var u := Run(s, ops);
            |u.mem| == |s.mem|
            && (Legal(u, op) <==>
                  match op
                  case Store(a, _) => a + 8 <= |s.mem|
                  case GoWrite(a, bytes) => a + |bytes| <= |s.mem|
                  case Finalize(a) =>
                    a + 8 <= |s.mem|
                    && var id := ReadU32(u.mem, a);
                       id < |u.refs.values| && (id < 7 || Outstanding(s, ops, id) >= 1))
  {
    InitialIsValid();
    RunKeepsValid(s, ops);
    TableInvariant(s, ops);
    hide Valid, Run, LegalRun, Outstanding, ReadU32;
  }

  /** A kept reference is one whose count is not zero before the run and after each of its steps. */
  lemma {:induction false} KeptExactly(s: State, ops: seq<Op>, id: nat)
    requires LegalRun(s, ops)
    ensures KeepsReference(s, ops, id) <==>
      forall k :: 0 <= k <= |ops| ==>
        LegalRun(s, ops[..k])
        && var t := Run(s, ops[..k]).refs; 1 <= id < |t.counts| && t.counts[id] != Finite(0)
  {
    hide Legal, Step;
    assert ops[..|ops|] == ops;
    if ops != [] {
      var n := |ops| - 1;
      KeptExactly(s, ops[..n], id);
      assert forall k :: 0 <= k <= n ==> ops[..n][..k] == ops[..k];
      hide LegalRun, Run;
    }
  }

  /** With nothing in between, every value is loaded back, on any valid table. */
  lemma {:induction false} LoadAtOnce(s: State, a: nat, v: JsValue)
    requires Valid(s.refs) && a + 8 <= |s.mem| && |s.refs.values| < TWO_32
    ensures LoadValue(StoreValue(s, a, v), a) == if v == Num(0x8000_0000, 0) then Num(0, 0) else v
  {
    AcquiredIsKept(s, a, v);
    hide StoreValue, LoadValue, Valid;
    LoadAfterStore(s, a, v, []);
  }

  lemma AcquiredIsKept(s: State, a: nat, v: JsValue)
    requires Valid(s.refs) && a + 8 <= |s.mem|
    ensures ByReference(v) ==> KeepsReference(StoreValue(s, a, v), [], IssuedId(s.refs, v))
  {
    hide Valid, Acquire, IssuedId;
    if ByReference(v) { AcquiredHoldsValue(s.refs, v); }
  }

  /** Whatever Go left in a cell: zero is undefined, a number itself, and a NaN the value that its low word names. */
  lemma {:induction false} LoadFromBits(s: State, a: nat)
    requires a + 8 <= |s.mem|
    ensures var hi, lo := ReadU32(s.mem, a + 4), ReadU32(s.mem, a);
            var magnitude := (hi % 0x8000_0000) * TWO_32 + lo;
            LoadValue(s, a) ==
              if magnitude == 0 then Undefined
              else if magnitude > 0x7FF0_0000_0000_0000 then
                if lo < |s.refs.values| then s.refs.values[lo] else Undefined
              else Num(hi, lo)
  {
    FloatClasses(ReadU32(s.mem, a + 4), ReadU32(s.mem, a));
    hide ReadU32, NaNBits, ZeroBits;
  }
}
