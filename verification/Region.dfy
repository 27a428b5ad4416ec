/** The bump-allocated region generated writers append to. */
module Regions {
  import opened Wrappers
  import opened Bytes

  class Region {
    const page: array<Byte>
    var head: nat

    ghost predicate Valid()
      reads this
    {
      head <= page.Length < U32_BOUND
    }

    /** The bytes written so far. */
    ghost function Contents(): seq<Byte>
      requires Valid()
      reads this, page
    {
      page[..head]
    }

    constructor (capacity: nat)
      requires capacity < U32_BOUND
      ensures Valid() && fresh(page) && page.Length == capacity && Contents() == []
    {
      page := new Byte[capacity];
      head := 0;
    }

    method WriteTag(tag: Byte) returns (r: Result<()>)
      requires Valid()
      modifies `head, page
      ensures Valid()
      ensures r == if |old(Contents())| + 1 > page.Length then Failure(ErrOom) else Success(())
      ensures Contents() == if r.Success? then old(Contents()) + [tag] else old(Contents())
    {
      if head + 1 > page.Length {
        return Failure(ErrOom);
      }
      page[head] := tag;
      head := head + 1;
      return Success(());
    }

    method WriteData(data: seq<Byte>) returns (r: Result<()>)
      requires Valid()
      modifies `head, page
      ensures Valid()
      ensures r == if |old(Contents())| + |data| > page.Length then Failure(ErrOom) else Success(())
      ensures Contents() == if r.Success? then old(Contents()) + data else old(Contents())
    {
      if head + |data| > page.Length {
        return Failure(ErrOom);
      }
      forall i | 0 <= i < |data| {
        page[head + i] := data[i];
      }
      head := head + |data|;
      assert forall i :: 0 <= i < |data| ==> page[old(head) + i] == data[i];
      return Success(());
    }

    /** Leaves four bytes for a length that is known only once the body is written. */
    method ReserveSkip() returns (r: Result<nat>)
      requires Valid()
      modifies `head
      ensures Valid()
      ensures r == if |old(Contents())| + 4 > page.Length then Failure(ErrOom) else Success(old(head))
      ensures head == if r.Success? then old(head) + 4 else old(head)
      ensures Contents()[..old(head)] == old(Contents())
    {
      if head + 4 > page.Length {
        return Failure(ErrOom);
      }
      head := head + 4;
      return Success(head - 4);
    }

    /** Patches the reserved bytes with the number of bytes written behind them. */
    method CommitSkip(loc: nat) returns (r: Result<()>)
      requires Valid()
      modifies page
      ensures Valid()
      ensures r == if loc > head || head - loc < 4 then Failure(ErrRange) else Success(())
      ensures Contents() ==
              if r.Success? then old(Contents())[..loc] + LE32(head - loc - 4) + old(Contents())[loc + 4..]
              else old(Contents())
    {
      if loc > head || head - loc < 4 {
        return Failure(ErrRange);
      }
      var len := LE32(head - loc - 4);
      page[loc], page[loc + 1], page[loc + 2], page[loc + 3] := len[0], len[1], len[2], len[3];
      return Success(());
    }
  }
}
