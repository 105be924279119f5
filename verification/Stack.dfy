/** A stack on an array that doubles when it is full. */
module Stack {
  import opened CacheTable

  const DEFAULT_CAPACITY: nat := 10

  class Stack {
    var data: array<Entry>
    var size: nat

    ghost predicate Valid()
      reads this
    {
      size <= data.Length && 0 < data.Length
    }

    /** What was pushed and not popped, in order. */
    ghost function Contents(): (s: seq<Entry>)
      requires Valid()
      reads this, data
      ensures |s| == size
    {
      data[..size]
    }

    constructor (sizeHint: nat)
      ensures Valid() && fresh(data) && Contents() == []
    {
      var capacity := if sizeHint > 0 then sizeHint else DEFAULT_CAPACITY;
      data := new Entry[capacity](i => NOTHING);
      size := 0;
    }

    method Push(item: Entry)
      requires Valid()
      modifies this, data
      ensures Valid() && (data == old(data) || fresh(data))
      ensures Contents() == old(Contents()) + [item]
    {
      if size == data.Length {
        var wider := new Entry[2 * data.Length](i => NOTHING);
        forall i | 0 <= i < size {
          wider[i] := data[i];
        }
        data := wider;
        assert data[..size] == old(data[..size]);
      }
      data[size] := item;
      size := size + 1;
      assert data[..size] == old(data[..size]) + [item];
    }

    method Pop() returns (item: Entry)
      requires Valid() && size > 0
      modifies this`size
      ensures Valid() && old(Contents()) == Contents() + [item]
    {
      size := size - 1;
      item := data[size];
    }

    method Get(n: nat) returns (item: Entry)
      requires Valid() && n < size
      ensures item == Contents()[n]
    {
      item := data[n];
    }
  }

  const NOTHING := Entry(0, "", Scalar(0), 0, 0, 0, 0, 0, 0, 0, 0)
}
