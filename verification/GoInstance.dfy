/** The glue object itself: fields updated in place, and a byte buffer shared with Go. */
module GoInstance {
  import opened ByteStrings
  import opened JsMemory
  import opened GoRefs
  import Cells = GoCells

  class Go {
    var values: seq<JsValue>
    var goRefCounts: seq<Count>
    var ids: map<JsValue, nat>
    var idPool: seq<nat>
    var mem: array<byte>

    function View(): State
      reads this, mem
    {
      State(Refs(values, goRefCounts, ids, idPool), mem[..])
    }

    /** The table initialisation in run. */
    constructor (memory: array<byte>)
      ensures mem == memory && View().refs == InitialRefs() && Valid(View().refs)
    {
      InitialIsValid();
      values := RESERVED;
      goRefCounts := [Infinite, Infinite, Infinite, Infinite, Infinite, Infinite, Infinite];
      ids := map[Num(0, 0) := 1, Null := 2, Bool(true) := 3, Bool(false) := 4, Obj(0) := 5, Obj(1) := 6];
      idPool := [];
      mem := memory;
    }

    method SetUint32(addr: nat, v: int)
      requires addr + 4 <= mem.Length
      modifies mem
      ensures mem[..] == WriteU32(old(mem[..]), addr, v)
    {
      var b := U32Bytes(v);
      mem[addr], mem[addr + 1], mem[addr + 2], mem[addr + 3] := b[0], b[1], b[2], b[3];
      assert mem[addr..addr + 4] == b;
      assert mem[..] == mem[..addr] + mem[addr..addr + 4] + mem[addr + 4..];
    }

    method SetInt64(addr: nat, v: int)
      requires addr + 8 <= mem.Length
      modifies mem
      ensures mem[..] == WriteI64(old(mem[..]), addr, v)
    {
      SetUint32(addr, v);
      SetUint32(addr + 4, v / TWO_32);
    }

    method GetInt64(addr: nat) returns (v: int)
      requires addr + 8 <= mem.Length
      ensures v == ReadI64(mem[..], addr)
    {
      var low := ReadU32(mem[..], addr);
      var high := Signed32(ReadU32(mem[..], addr + 4));
      v := low + high * TWO_32;
    }

    method LoadValue(addr: nat) returns (v: JsValue)
      requires addr + 8 <= mem.Length
      ensures v == Cells.LoadValue(View(), addr)
    {
      var hi, lo := ReadU32(mem[..], addr + 4), ReadU32(mem[..], addr);
      if ZeroBits(hi, lo) { return Undefined; }
      if !NaNBits(hi, lo) { return Num(hi, lo); }
      v := if lo < |values| then values[lo] else Undefined;
    }

    method StoreValue(addr: nat, v: JsValue)
      requires Valid(View().refs) && addr + 8 <= mem.Length
      modifies this, mem
      ensures mem == old(mem)
      ensures View() == Cells.StoreValue(old(View()), addr, v)
      ensures Valid(View().refs)
    {
      hide Valid, Acquire, IssuedId, WriteU32, NaNBits, ZeroBits, TypeFlag;
      Cells.StoreKeepsValid(View(), addr, v);
      if v.NaN? || (v.Num? && !ZeroBits(v.hi, v.lo)) {
        if v.NaN? {
          SetUint32(addr + 4, NAN_HEAD);
          SetUint32(addr, 0);
          return;
        }
        SetUint32(addr + 4, v.hi);
        SetUint32(addr, v.lo);
        return;
      }
      if v.Undefined? {
        SetUint32(addr + 4, 0);
        SetUint32(addr, 0);
        return;
      }
      var id := ReferenceTo(v);
      SetUint32(addr + 4, NAN_HEAD + TypeFlag(v));
      SetUint32(addr, id);
    }

    /** The middle of storeValue: find or allocate the id of v and count one more reference. */
    method ReferenceTo(v: JsValue) returns (id: nat)
      requires Valid(View().refs)
      modifies this
      ensures mem == old(mem) && id == IssuedId(old(View()).refs, v)
      ensures View().refs == Acquire(old(View()).refs, v)
    {
      ghost var t := View().refs;
      if Canon(v) in ids {
        id := ids[Canon(v)];
        assert Live(t, id);
      } else {
        if idPool != [] {
          id := idPool[|idPool| - 1];
          assert id in t.pool;
          idPool := idPool[..|idPool| - 1];
          values := values[id := v];
          goRefCounts := goRefCounts[id := Finite(0)];
        } else {
          id := |values|;
          values := values + [v];
          goRefCounts := goRefCounts + [Finite(0)];
        }
        ids := ids[Canon(v) := id];
      }
      goRefCounts := goRefCounts[id := Plus(goRefCounts[id], 1)];
    }

    /** finalizeRef; addr is the cell of its argument, sp + 8. The table stays valid for a counted reference. */
    method FinalizeRef(addr: nat)
      requires Valid(View().refs) && addr + 8 <= mem.Length && ReadU32(mem[..], addr) < |goRefCounts|
      modifies this
      ensures mem == old(mem)
      ensures View() == Cells.FinalizeRef(old(View()), addr)
      ensures old(Cells.Releasable(View(), addr)) ==> Valid(View().refs)
    {
      if Cells.Releasable(View(), addr) { ReleaseKeepsValid(View().refs, ReadU32(mem[..], addr)); }
      var id := ReadU32(mem[..], addr);
      goRefCounts := goRefCounts[id := Plus(goRefCounts[id], -1)];
      if goRefCounts[id] == Finite(0) {
        var v := values[id];
        values := values[id := Null];
        ids := ids - {Canon(v)};
        idPool := idPool + [id];
      }
    }
  }
}
