/** A header page as it is stored: a bitmap of bytes that says which pages are used, and
    the links of the chain of header pages. */
module HeaderPages {
  import opened Slots
  import opened Paging

  /** The bitmap, a bit at a time. */
  ghost function BitsOf(header: seq<bv8>): (bits: seq<bool>)
    ensures |bits| == 8 * |header|
    ensures forall i :: 0 <= i < |bits| ==> bits[i] == IsSlotUsed(header, i)
  {
    seq(8 * |header|, i requires 0 <= i < 8 * |header| => IsSlotUsed(header, i))
  }

  class BTreeHeaderPage {
    const header: array<bv8>
    var nextPage: nat
    var prevPage: nat

    /** The value of the page: bit i is set when the i-th page it accounts for is used. */
    ghost function Used(): seq<bool>
      reads header
    {
      BitsOf(header[..])
    }

    constructor (headerSize: nat)
      ensures header.Length == headerSize && fresh(header) && nextPage == prevPage == 0
      ensures forall i :: 0 <= i < |Used()| ==> !Used()[i]
    {
      header := new bv8[headerSize](_ => 0);
      nextPage, prevPage := 0, 0;
    }

    /** init: every bit is set. */
    method Init()
      modifies header
      ensures AllSet(Used())
    {
      for i := 0 to header.Length
        invariant forall j :: 0 <= j < i ==> header[j] == 0xFF
      {
        header[i] := 0xFF;
      }
      forall i | 0 <= i < |Used()|
        ensures Used()[i]
      {
        FullByte(i % 8);
      }
    }

    /** markSlotUsed. */
    method MarkUsed(i: nat, value: bool)
      requires i < 8 * header.Length
      modifies header
      ensures Used() == old(Used())[i := value]
    {
      hide IsSlotUsed;
      MarkSlotUsed(header, i, value);
    }

    /** getEmptySlot: the first clear bit, or -1. */
    method GetEmptySlot() returns (slot: int)
      ensures -1 <= slot < |Used()|
      ensures slot == -1 ==> AllSet(Used())
      ensures slot >= 0 ==> !Used()[slot] && forall i :: 0 <= i < slot ==> Used()[i]
    {
      hide IsSlotUsed;
      var i := 0;
      while i < header.Length
        invariant 0 <= i <= header.Length
        invariant forall b :: 0 <= b < 8 * i ==> Used()[b]
      {
        var j := 0;
        while j < 8
          invariant 0 <= j <= 8
          invariant forall b :: 0 <= b < 8 * i + j ==> Used()[b]
        {
          if !IsSlotUsed(header[..], i * 8 + j) {
            return i * 8 + j;
          }
          j := j + 1;
        }
        i := i + 1;
      }
      return -1;
    }
  }

  lemma FullByte(i: nat)
    requires i < 8
    ensures 0xFF as bv8 & (1 << i) != 0
  {
  }
}
