/** A byte container whose front is erased lazily (include/pfs/netty/archive.hpp). */
module Archives {
  import opened Prelude

  class Archive {
    var c: seq<byte>
    var offset: nat

    ghost predicate Valid()
      reads this
    {
      offset <= |c|
    }

    /** The bytes an archive stands for; the erased front still sits in `c`. */
    ghost function Contents(): seq<byte>
      reads this
      requires Valid()
    {
      c[offset..]
    }

    constructor (data: seq<byte>)
      ensures Valid() && Contents() == data
    {
      c, offset := data, 0;
    }

    /** The copy constructor. */
    constructor Copied(other: Archive)
      requires other.Valid()
      ensures Valid() && Contents() == other.Contents()
    {
      c, offset := other.c[other.offset..], 0;
    }

    method Data() returns (data: seq<byte>)
      requires Valid()
      ensures data == Contents()
    {
      return c[offset..];
    }

    method Size() returns (n: nat)
      requires Valid()
      ensures n == |Contents()|
    {
      return |c| - offset;
    }

    method Empty() returns (b: bool)
      requires Valid()
      ensures b <==> Contents() == []
    {
      return |c| - offset == 0;
    }

    method Append(data: seq<byte>)
      requires Valid()
      modifies this
      ensures Valid() && Contents() == old(Contents()) + data
    {
      c := c + data;
    }

    method Clear()
      modifies this
      ensures Valid() && Contents() == []
    {
      c, offset := [], 0;
    }

    /** Fails, and changes nothing, exactly when fewer than n bytes are left. */
    method EraseFront(n: nat) returns (ok: bool)
      requires Valid()
      modifies this
      ensures Valid() && (ok <==> n <= |old(Contents())|)
      ensures Contents() == if ok then old(Contents())[n..] else old(Contents())
    {
      if n == 0 {
        return true;
      }
      if n > |c| - offset {
        return false;
      }
      offset := offset + n;
      if |c| - offset == 0 {
        Clear();
      }
      return true;
    }

    /** Cuts the contents, or fills them up with zero bytes, to n bytes. */
    method Resize(n: nat)
      requires Valid()
      modifies this
      ensures Valid() && |Contents()| == n
      ensures forall i :: 0 <= i < n ==> Contents()[i] == if i < |old(Contents())| then old(Contents())[i] else 0
    {
      var m := n + offset;
      c := if m <= |c| then c[..m] else c + seq(m - |c|, _ => 0);
    }

    /** Overwrites from position pos on. */
    method CopyAt(data: seq<byte>, pos: nat)
      requires Valid() && pos + |data| <= |Contents()|
      modifies this
      ensures Valid() && Contents() == old(Contents())[..pos] + data + old(Contents())[pos + |data|..]
    {
      c := c[..pos + offset] + data + c[pos + offset + |data|..];
    }

    /** Gives the bare container, with the erased front really gone. */
    method MoveContainer() returns (container: seq<byte>)
      requires Valid()
      modifies this
      ensures Valid() && container == old(Contents()) == Contents() && offset == 0
    {
      c := c[offset..];
      offset := 0;
      return c;
    }
  }
}
