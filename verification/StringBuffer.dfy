/** The growable string buffer (SB) of src/db/Json.cpp.  cur and end are offsets from the start of the
    allocation; one byte beyond end is always there for the terminator. */
module StringBuffers {
  import opened Utf8

  class StringBuffer {
    var data: array<byte>
    var cur: nat
    var end: nat

    ghost predicate Valid()
      reads this
    {
      cur <= end && 0 < end && data.Length == end + 1
    }

    ghost function Contents(): bytes
      requires Valid()
      reads this, data
    {
      data[..cur]
    }

    /** sb_init. */
    constructor ()
      ensures Valid() && fresh(data) && Contents() == [] && end == 16
    {
      data := new byte[17](_ => 0);
      cur := 0;
      end := 16;
    }

    /** sb_grow: double at least once, until the reservation fits. */
    method Grow(need: nat)
      requires Valid()
      modifies this
      ensures Valid() && Contents() == old(Contents()) && cur == old(cur)
      ensures fresh(data) && end - cur >= need && end >= 2 * old(end)
    {
      var alloc := 2 * end;
      while alloc < cur + need
        invariant 2 * end <= alloc
        decreases cur + need - alloc
      {
        alloc := 2 * alloc;
      }
      var bigger := new byte[alloc + 1](_ => 0);
      forall i | 0 <= i < cur {
        bigger[i] := data[i];
      }
      data := bigger;
      end := alloc;
    }

    /** sb_need. */
    method Need(need: nat)
      requires Valid()
      modifies this
      ensures Valid() && Contents() == old(Contents()) && cur == old(cur)
      ensures data == old(data) || fresh(data)
      ensures end - cur >= need
    {
      if end - cur < need {
        Grow(need);
      }
    }

    /** sb_put and sb_puts. */
    method Put(s: bytes)
      requires Valid()
      modifies this, data
      ensures Valid() && Contents() == old(Contents()) + s
      ensures data == old(data) || fresh(data)
    {
      Need(|s|);
      forall i | 0 <= i < |s| {
        data[cur + i] := s[i];
      }
      cur := cur + |s|;
    }

    /** sb_putc. */
    method PutC(c: byte)
      requires Valid()
      modifies this, data
      ensures Valid() && Contents() == old(Contents()) + [c]
      ensures data == old(data) || fresh(data)
    {
      if cur >= end {
        Grow(1);
      }
      data[cur] := c;
      cur := cur + 1;
    }

    /** sb_finish: the C string that was built; its assertion is that no NUL was put into it. */
    method Finish() returns (s: bytes)
      requires Valid() && 0 !in Contents()
      modifies data
      ensures s == old(Contents()) && data[cur] == 0 && Contents() == s
    {
      data[cur] := 0;
      s := data[..cur];
    }
  }
}
