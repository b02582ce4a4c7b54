/**
 The double-ended encoding buffer. Octets are prepended (and sometimes appended) to a window
 `[begin, end)` of a fixed array, which is replaced by a larger one when either side is full.
 */
module Encoding {
  import opened Tlv

  /** `s` with the octets from position `at` on replaced by `bytes`. */
  function Overwrite(s: Bytes, bytes: Bytes, at: nat): (t: Bytes)
    requires at + |bytes| <= |s|
    ensures |t| == |s|
  {
    s[..at] + bytes + s[at + |bytes|..]
  }

  lemma Associative(x: Bytes, y: Bytes, z: Bytes)
    ensures x + (y + z) == x + y + z
  {
  }

  lemma OverwriteBefore(s: Bytes, bytes: Bytes, at: nat, end: nat)
    requires at + |bytes| <= end <= |s|
    ensures Overwrite(s, bytes, at)[at..end] == bytes + s[at + |bytes|..end]
    ensures Overwrite(s, bytes, at)[at + |bytes|..] == s[at + |bytes|..]
  {
  }

  lemma OverwriteLast(s: Bytes, bytes: Bytes)
    requires |bytes| <= |s|
    ensures Overwrite(s, bytes, |s| - |bytes|)[|s| - |bytes|..] == bytes
  {
  }

  /** Two writes that touch are one write. */
  lemma OverwriteTwice(s: Bytes, x: Bytes, y: Bytes, at: nat)
    requires |y| <= at && at + |x| <= |s|
    ensures Overwrite(Overwrite(s, x, at), y, at - |y|) == Overwrite(s, y + x, at - |y|)
  {
  }

  lemma OverwriteAfter(s: Bytes, bytes: Bytes, begin: nat, at: nat)
    requires begin <= at && at + |bytes| <= |s|
    ensures Overwrite(s, bytes, at)[begin..at + |bytes|] == s[begin..at] + bytes
  {
  }

  lemma OverwriteWithin(s: Bytes, bytes: Bytes, at: nat, i: nat, j: nat)
    requires i <= j <= |bytes| && at + |bytes| <= |s|
    ensures Overwrite(s, bytes, at)[at + i..at + j] == bytes[i..j]
  {
  }

  /** `std::copy` of `bytes` to position `at`. */
  method Copy(bytes: Bytes, a: array<Byte>, at: nat)
    requires at + |bytes| <= a.Length
    modifies a
    ensures a[..] == Overwrite(old(a[..]), bytes, at)
  {
    forall i | at <= i < at + |bytes| {
      a[i] := bytes[i - at];
    }
  }

  class Encoder {
    var buffer: array<Byte>
    var begin: nat
    var end: nat

    ghost predicate Valid()
      reads this
    {
      begin <= end <= buffer.Length
    }

    /** The octets written so far. */
    ghost function Contents(): Bytes
      requires Valid()
      reads this, buffer
    {
      buffer[begin..end]
    }

    /** `x` was put in front within the same array; nothing else in it changed. */
    twostate predicate WroteInFront(x: Bytes)
      reads this, buffer
    {
      && buffer == old(buffer)
      && begin + |x| == old(begin) <= buffer.Length
      && end == old(end)
      && buffer[..] == Overwrite(old(buffer[..]), x, begin)
    }

    constructor (totalReserve: nat, reserveFromBack: nat)
      ensures Valid() && fresh(buffer) && Contents() == []
      ensures buffer.Length == totalReserve
      ensures begin == totalReserve - if reserveFromBack < totalReserve then reserveFromBack else 0
    {
      buffer := new Byte[totalReserve];
      begin := totalReserve - if reserveFromBack < totalReserve then reserveFromBack else 0;
      end := totalReserve - if reserveFromBack < totalReserve then reserveFromBack else 0;
    }

    /** Moves to an array of at least `size` octets; the slack goes to the front or to the back. */
    method Reserve(size: nat, addInFront: bool)
      requires Valid()
      modifies this
      ensures Valid() && fresh(buffer) && Contents() == old(Contents())
      ensures buffer.Length == if size < old(buffer.Length) then old(buffer.Length) else size
      ensures addInFront ==> buffer.Length - end == old(buffer.Length - end)
      ensures !addInFront ==> begin == old(begin)
    {
      var length := buffer.Length;
      var newLength := if size < length then length else size;
      var bigger := new Byte[newLength];
      var offset := if addInFront then newLength - length else 0;
      OverwriteWithin(bigger[..], buffer[..], offset, begin, end);
      Copy(buffer[..], bigger, offset);
      buffer, begin, end := bigger, begin + offset, end + offset;
    }

    method ReserveFront(size: nat)
      requires Valid()
      modifies this
      ensures Valid() && Contents() == old(Contents()) && begin >= size
      ensures if old(begin) >= size then WroteInFront([]) else fresh(buffer)
    {
      if size > begin {
        Reserve(buffer.Length * 2 + size, true);
      }
    }

    method ReserveBack(size: nat)
      requires Valid()
      modifies this
      ensures Valid() && Contents() == old(Contents()) && end + size <= buffer.Length
      ensures if old(end + size <= buffer.Length) then WroteInFront([]) else fresh(buffer)
    {
      if end + size > buffer.Length {
        Reserve(buffer.Length * 2 + size, false);
      }
    }

    method PrependRange(bytes: Bytes) returns (length: nat)
      requires Valid()
      modifies this, buffer
      ensures Valid() && Contents() == bytes + old(Contents()) && length == |bytes|
      ensures if old(begin) >= |bytes| then WroteInFront(bytes) else fresh(buffer)
    {
      length := |bytes|;
      ReserveFront(length);
      begin := begin - length;
      OverwriteBefore(buffer[..], bytes, begin, end);
      Copy(bytes, buffer, begin);
    }

    method AppendRange(bytes: Bytes) returns (length: nat)
      requires Valid()
      modifies this, buffer
      ensures Valid() && Contents() == old(Contents()) + bytes && length == |bytes|
      ensures buffer == old(buffer) || fresh(buffer)
      ensures old(end) + |bytes| <= old(buffer.Length) ==> buffer == old(buffer) && begin == old(begin)
    {
      length := |bytes|;
      ReserveBack(length);
      OverwriteAfter(buffer[..], bytes, begin, end);
      Copy(bytes, buffer, end);
      end := end + length;
    }

    /** Prepends the digits of a number, then the octet that tells how many there are. */
    method PrependMarked(marker: Byte, digits: Bytes) returns (length: nat)
      requires Valid()
      modifies this, buffer
      ensures Valid() && Contents() == [marker] + digits + old(Contents())
      ensures length == 1 + |digits|
      ensures if old(begin) >= length then WroteInFront([marker] + digits) else fresh(buffer)
    {
      hide Overwrite;
      Associative([marker], digits, Contents());
      if |digits| < begin {
        OverwriteTwice(buffer[..], digits, [marker], begin - |digits|);
      }
      length := PrependRange(digits);
      var more := PrependRange([marker]);
      length := length + more;
    }

    /** Returns what the estimator returns for the same number. */
    method PrependVarNumber(n: nat) returns (length: nat)
      requires Valid() && n < TWO_64
      modifies this, buffer
      ensures Valid() && Contents() == VarNumber(n) + old(Contents())
      ensures length == SizeOfVarNumber(n)
      ensures if old(begin) >= length then WroteInFront(VarNumber(n)) else fresh(buffer)
    {
      hide Overwrite, BigEndian;
      if n < 253 {
        length := PrependRange([n]);
      } else if n < TWO_16 {
        length := PrependMarked(253, BigEndian(n, 2));
      } else if n < TWO_32 {
        length := PrependMarked(254, BigEndian(n, 4));
      } else {
        length := PrependMarked(255, BigEndian(n, 8));
      }
    }

    method AppendVarNumber(n: nat) returns (length: nat)
      requires Valid() && n < TWO_64
      modifies this, buffer
      ensures Valid() && Contents() == old(Contents()) + VarNumber(n)
      ensures length == SizeOfVarNumber(n)
      ensures buffer == old(buffer) || fresh(buffer)
    {
      if n < 253 {
        length := AppendRange([n]);
      } else {
        var width := if n < TWO_16 then 2 else if n < TWO_32 then 4 else 8;
        var marker := if width == 2 then 253 else if width == 4 then 254 else 255;
        ghost var window := Contents();
        length := AppendRange([marker]);
        var more := AppendRange(BigEndian(n, width));
        length := length + more;
        assert window + [marker] + BigEndian(n, width) == window + ([marker] + BigEndian(n, width));
      }
    }

    method PrependNonNegativeInteger(n: nat) returns (length: nat)
      requires Valid() && n < TWO_64
      modifies this, buffer
      ensures Valid() && Contents() == NonNegativeInteger(n) + old(Contents())
      ensures length == SizeOfNonNegativeInteger(n)
      ensures if old(begin) >= length then WroteInFront(NonNegativeInteger(n)) else fresh(buffer)
    {
      var width := if n < TWO_8 then 1 else if n < TWO_16 then 2 else if n < TWO_32 then 4 else 8;
      length := PrependRange(BigEndian(n, width));
    }

    method AppendNonNegativeInteger(n: nat) returns (length: nat)
      requires Valid() && n < TWO_64
      modifies this, buffer
      ensures Valid() && Contents() == old(Contents()) + NonNegativeInteger(n)
      ensures length == SizeOfNonNegativeInteger(n)
      ensures buffer == old(buffer) || fresh(buffer)
    {
      var width := if n < TWO_8 then 1 else if n < TWO_16 then 2 else if n < TWO_32 then 4 else 8;
      length := AppendRange(BigEndian(n, width));
    }
  }
}
