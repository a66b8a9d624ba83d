/** The unpruned timeline's code (packages/shared/src/checkpoint.rs): numbered slots
    and a slot count, never shortened. */
module Checkpoint {
  import opened Ints
  import opened History

  class CheckpointStore {
    var slots: map<nat, Entry>
    var count: u32

    ghost predicate Valid()
      reads this
    {
      forall i: nat :: i < count ==> i in slots
    }

    ghost function Contents(): (s: seq<Entry>)
      requires Valid()
      reads this
      ensures |s| == count
    {
      seq(count, i requires 0 <= i < count reads this requires Valid() => slots[i])
    }

    constructor ()
      ensures Valid() && Contents() == []
    {
      slots, count := map[], 0;
    }

    /** `ok` is false when one more slot would not fit the 32-bit count; the host then
        undoes the call. */
    method Push(ledger: u32, value: u64) returns (ok: bool)
      requires Valid()
      modifies this
      ensures Valid()
      ensures ok <==> old(|Record(Contents(), ledger, value)|) <= U32_MAX
      ensures Contents() == if ok then Record(old(Contents()), ledger, value) else old(Contents())
    {
      ghost var before := Contents();
      if count > 0 {
        var last := slots[count - 1];
        if last.ledger == ledger {
          slots := slots[count - 1 := Entry(ledger, value)];
          assert Contents() == Front(before) + [Entry(ledger, value)];
          return true;
        }
      }
      if count == U32_MAX {
        return false;
      }
      slots := slots[count := Entry(ledger, value)];
      count := count + 1;
      assert Contents() == before + [Entry(ledger, value)];
      ok := true;
    }

    method LookupAt(target: u32) returns (value: u64)
      requires Valid() && Ascending(Contents())
      ensures value == At(Contents(), target)
    {
      if count == 0 {
        return 0;
      }
      var last := slots[count - 1];
      if last.ledger <= target {
        return last.value;
      }
      var first := slots[0];
      if target < first.ledger {
        AtBeforeFirst(Contents(), target);
        return 0;
      }
      var lo: u32, hi: u32 := 0, count - 1;
      while lo < hi
        invariant lo <= hi < count
        invariant Contents()[lo].ledger <= target
        invariant forall i :: hi < i < count ==> target < Contents()[i].ledger
        decreases hi - lo
      {
        var mid: u32 := lo + (hi - lo + 1) / 2;
        if slots[mid].ledger <= target {
          lo := mid;
        } else {
          hi := mid - 1;
        }
      }
      AtFinds(Contents(), target, lo);
      value := slots[lo].value;
    }

    method LatestValue() returns (value: u64)
      requires Valid()
      ensures value == Latest(Contents())
    {
      if count == 0 {
        return 0;
      }
      value := slots[count - 1].value;
    }
  }
}
