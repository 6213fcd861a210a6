/** The byte layout of a heap page: a header bitmap and the tuple slots that tile a page,
    written to bytes and read back.  Fields are 32-bit integers. */
module HeapPages {
  import opened Pages
  import opened Slots

  type Field = bv32
  type Fields = seq<Field>

  // ------------------------------------------------------------------ how many slots

  /** getNumTuples, for pages of pageSize bytes and tuples of tupleSize bytes. */
  function NumTuples(pageSize: nat, tupleSize: nat): nat {
    var unit := tupleSize * 8 + 1;
    pageSize * 8 / unit
  }

  /** getHeaderSize: what the tuples leave over. */
  function HeaderSize(pageSize: nat, tupleSize: nat): int {
    pageSize - tupleSize * NumTuples(pageSize, tupleSize)
  }

  lemma Quotient(a: nat, b: nat)
    requires b > 0
    ensures (a / b) * b <= a < (a / b + 1) * b
  {
  }

  /** The slots and the header tile the page, the header has a bit for every slot, and no
      larger number of slots leaves room for its bits. */
  lemma SlotsTile(pageSize: nat, tupleSize: nat)
    requires tupleSize > 0
    ensures var n := NumTuples(pageSize, tupleSize);
            && HeaderSize(pageSize, tupleSize) >= 0
            && HeaderSize(pageSize, tupleSize) + n * tupleSize == pageSize
            && n <= 8 * HeaderSize(pageSize, tupleSize)
            && forall m: nat :: m > n ==> 8 * (pageSize - tupleSize * m) < m
  {
    var n, unit := NumTuples(pageSize, tupleSize), tupleSize * 8 + 1;
    Quotient(pageSize * 8, unit);
    assert n * unit == 8 * (tupleSize * n) + n;
    forall m: nat | m > n
      ensures 8 * (pageSize - tupleSize * m) < m
    {
      Monotone(n + 1, m, unit);
      assert m * unit == 8 * (tupleSize * m) + m;
    }
  }

  lemma Monotone(a: nat, b: nat, c: nat)
    requires a <= b
    ensures a * c <= b * c
  {
  }

  // ------------------------------------------------------------------ fields as bytes

  /** serialize of an integer field: its four bytes, the lowest first. */
  function FieldBytes(f: Field): (r: seq<bv8>)
    ensures |r| == 4
  {
    [(f & 0xFF) as bv8, ((f >> 8) & 0xFF) as bv8, ((f >> 16) & 0xFF) as bv8, ((f >> 24) & 0xFF) as bv8]
  }

  /** parse of an integer field. */
  function ParseField(b: seq<bv8>): Field
    requires |b| >= 4
  {
    Word(b[0] as bv32, b[1] as bv32, b[2] as bv32, b[3] as bv32)
  }

  lemma FieldRoundTrip(f: Field)
    ensures ParseField(FieldBytes(f)) == f
  {
  }

  function TupleBytes(t: Fields): (r: seq<bv8>)
    ensures |r| == 4 * |t|
  {
    if t == [] then [] else TupleBytes(t[..|t| - 1]) + FieldBytes(t[|t| - 1])
  }

  function ParseTuple(b: seq<bv8>, numFields: nat): (t: Fields)
    requires |b| == 4 * numFields
    ensures |t| == numFields
  {
    if numFields == 0 then [] else ParseTuple(b[..4 * (numFields - 1)], numFields - 1) + [ParseField(b[4 * (numFields - 1)..])]
  }

  lemma {:induction false} TupleRoundTrip(t: Fields)
    ensures ParseTuple(TupleBytes(t), |t|) == t
  {
    if t != [] {
      var n := |t| - 1;
      TupleRoundTrip(t[..n]);
      FieldRoundTrip(t[n]);
      assert TupleBytes(t)[..4 * n] == TupleBytes(t[..n]);
      assert TupleBytes(t)[4 * n..] == FieldBytes(t[n]);
    }
  }

  /** Field f is in the four bytes from place at on: byte k holds its bits 8k to 8k + 7. */
  ghost predicate FieldAt(data: seq<bv8>, at: nat, f: Field) {
    && at + 4 <= |data|
    && f & 0xFF == data[at] as bv32 && (f >> 8) & 0xFF == data[at + 1] as bv32
    && (f >> 16) & 0xFF == data[at + 2] as bv32 && (f >> 24) & 0xFF == data[at + 3] as bv32
  }

  /** So the bytes make up the value, the lowest first. */
  lemma FieldAtValue(data: seq<bv8>, at: nat, f: Field)
    requires at + 4 <= |data|
    ensures FieldAt(data, at, f) <==>
              f == Word(data[at] as bv32, data[at + 1] as bv32, data[at + 2] as bv32, data[at + 3] as bv32)
  {
    hide Word;
    ByteBack(data[at]);
    ByteBack(data[at + 1]);
    ByteBack(data[at + 2]);
    ByteBack(data[at + 3]);
    WordIs(f, data[at] as bv32, data[at + 1] as bv32, data[at + 2] as bv32, data[at + 3] as bv32);
  }

  lemma WordIs(f: bv32, b0: bv32, b1: bv32, b2: bv32, b3: bv32)
    requires b0 <= 0xFF && b1 <= 0xFF && b2 <= 0xFF && b3 <= 0xFF
    ensures f & 0xFF == b0 && (f >> 8) & 0xFF == b1 && (f >> 16) & 0xFF == b2 && (f >> 24) & 0xFF == b3 <==>
              f == Word(b0, b1, b2, b3)
  {
    hide Word;
    WordBytes(b0, b1, b2, b3);
    WordOf(f);
  }

  lemma WordOf(f: bv32)
    ensures f == Word(f & 0xFF, (f >> 8) & 0xFF, (f >> 16) & 0xFF, (f >> 24) & 0xFF)
  {
  }

  /** The first field of the page of the read test. */
  lemma TestField()
    ensures ParseField([0xbd, 0x7c, 0x00, 0x00]) == 31933 && FieldBytes(31933) == [0xbd, 0x7c, 0x00, 0x00]
  {
  }

  lemma FieldRead(b: seq<bv8>)
    requires |b| >= 4
    ensures var f := ParseField(b);
            && f & 0xFF == b[0] as bv32 && (f >> 8) & 0xFF == b[1] as bv32
            && (f >> 16) & 0xFF == b[2] as bv32 && (f >> 24) & 0xFF == b[3] as bv32
  {
    hide Word;
    ByteBack(b[0]);
    ByteBack(b[1]);
    ByteBack(b[2]);
    ByteBack(b[3]);
    WordBytes(b[0] as bv32, b[1] as bv32, b[2] as bv32, b[3] as bv32);
  }

  lemma FieldWritten(f: Field)
    ensures var b := FieldBytes(f);
            && f & 0xFF == b[0] as bv32 && (f >> 8) & 0xFF == b[1] as bv32
            && (f >> 16) & 0xFF == b[2] as bv32 && (f >> 24) & 0xFF == b[3] as bv32
  {
  }

  /** Field j of a tuple is read from the bytes from 4j on, */
  lemma {:induction false} TupleRead(b: seq<bv8>, numFields: nat, j: nat)
    requires |b| == 4 * numFields && j < numFields
    ensures FieldAt(b, 4 * j, ParseTuple(b, numFields)[j])
    decreases numFields
  {
    hide ParseField;
    var m := 4 * (numFields - 1);
    if j == numFields - 1 {
      FieldRead(b[m..]);
    } else {
      TupleRead(b[..m], numFields - 1, j);
    }
  }

  /** and written to them. */
  lemma {:induction false} TupleWritten(t: Fields, j: nat)
    requires j < |t|
    ensures FieldAt(TupleBytes(t), 4 * j, t[j])
    decreases |t|
  {
    hide FieldBytes;
    var n := |t| - 1;
    if j == n {
      FieldWritten(t[n]);
    } else {
      TupleWritten(t[..n], j);
    }
  }

  // ------------------------------------------------------------------ pages as bytes

  function Zeros(n: nat): (r: seq<bv8>)
    ensures |r| == n
  {
    seq(n, _ => 0)
  }

  /** Where slot i is in the bytes after the header. */
  function SlotAt(i: nat, numFields: nat): nat {
    i * (4 * numFields)
  }

  lemma SlotAtNext(i: nat, numFields: nat)
    ensures SlotAt(i + 1, numFields) == SlotAt(i, numFields) + 4 * numFields
  {
  }

  /** The bytes of the first n slots: an unused slot is written as zeros. */
  ghost function SlotBytes(header: seq<bv8>, tuples: seq<Fields>, numFields: nat, n: nat): (r: seq<bv8>)
    requires n <= |tuples| && |tuples| <= 8 * |header| && forall i :: 0 <= i < |tuples| ==> |tuples[i]| == numFields
    ensures |r| == SlotAt(n, numFields)
  {
    if n == 0 then []
    else
      SlotAtNext(n - 1, numFields);
      SlotBytes(header, tuples, numFields, n - 1) +
         (if IsSlotUsed(header, n - 1) then TupleBytes(tuples[n - 1]) else Zeros(4 * numFields))
  }

  lemma {:induction false} SlotBytesAt(header: seq<bv8>, tuples: seq<Fields>, numFields: nat, n: nat, i: nat)
    requires i < n <= |tuples| && |tuples| <= 8 * |header| && forall i :: 0 <= i < |tuples| ==> |tuples[i]| == numFields
    ensures SlotAt(i, numFields) + 4 * numFields <= |SlotBytes(header, tuples, numFields, n)|
    ensures SlotBytes(header, tuples, numFields, n)[SlotAt(i, numFields)..SlotAt(i, numFields) + 4 * numFields] ==
            if IsSlotUsed(header, i) then TupleBytes(tuples[i]) else Zeros(4 * numFields)
    decreases n
  {
    hide IsSlotUsed, SlotAt, TupleBytes, SlotBytes, Zeros;
    NextSlot(header, tuples, numFields, n - 1);
    SlotAtNext(n - 1, numFields);
    var whole, front := SlotBytes(header, tuples, numFields, n), SlotBytes(header, tuples, numFields, n - 1);
    var at := SlotAt(i, numFields);
    if i < n - 1 {
      SlotBytesAt(header, tuples, numFields, n - 1, i);
      assert whole[at..at + 4 * numFields] == front[at..at + 4 * numFields];
    } else {
      assert whole[at..at + 4 * numFields] == whole[|front|..];
    }
  }

  lemma NoSlots(header: seq<bv8>, tuples: seq<Fields>, numFields: nat)
    requires |tuples| <= 8 * |header| && forall i :: 0 <= i < |tuples| ==> |tuples[i]| == numFields
    ensures SlotBytes(header, tuples, numFields, 0) == []
  {
  }

  lemma NextSlot(header: seq<bv8>, tuples: seq<Fields>, numFields: nat, i: nat)
    requires i < |tuples| <= 8 * |header| && forall i :: 0 <= i < |tuples| ==> |tuples[i]| == numFields
    ensures SlotBytes(header, tuples, numFields, i + 1) ==
            SlotBytes(header, tuples, numFields, i) + if IsSlotUsed(header, i) then TupleBytes(tuples[i]) else Zeros(4 * numFields)
  {
  }

  lemma NoFields(t: Fields)
    requires t == []
    ensures TupleBytes(t) == []
  {
  }

  lemma NextField(t: Fields, j: nat)
    requires j < |t|
    ensures TupleBytes(t[..j + 1]) == TupleBytes(t[..j]) + FieldBytes(t[j])
  {
    assert t[..j + 1][..j] == t[..j];
  }

  /** What each slot holds. */
  ghost function CellsOf(header: seq<bv8>, tuples: seq<Fields>): (cells: seq<Option<Fields>>)
    requires |tuples| <= 8 * |header|
    ensures |cells| == |tuples|
    ensures forall i :: 0 <= i < |cells| ==> cells[i] == if IsSlotUsed(header, i) then Some(tuples[i]) else None
  {
    seq(|tuples|, i requires 0 <= i < |tuples| => if IsSlotUsed(header, i) then Some(tuples[i]) else None)
  }

  lemma CellMarked(header: seq<bv8>, header': seq<bv8>, tuples: seq<Fields>, i: nat, value: bool)
    requires |tuples| <= 8 * |header| && i < |tuples|
    requires BitWritten(header, header', i, value)
    ensures CellsOf(header', tuples) == CellsOf(header, tuples)[i := if value then Some(tuples[i]) else None]
  {
    hide IsSlotUsed;
  }

  lemma CellWritten(header: seq<bv8>, tuples: seq<Fields>, i: nat, t: Fields)
    requires |tuples| <= 8 * |header| && i < |tuples| && CellsOf(header, tuples)[i] == None
    ensures CellsOf(header, tuples[i := t]) == CellsOf(header, tuples)
  {
    hide IsSlotUsed;
  }

  /** The fields of a slot, as they are in the bytes at its place. */
  lemma SlotRead(data: seq<bv8>, h: nat, i: nat, j: nat, numFields: nat, f: Field)
    requires h + SlotAt(i, numFields) + 4 * numFields <= |data| && j < numFields
    requires f == ParseTuple(data[h..][SlotAt(i, numFields)..SlotAt(i, numFields) + 4 * numFields], numFields)[j]
    ensures FieldAt(data, h + SlotAt(i, numFields) + 4 * j, f)
  {
    hide ParseTuple, SlotAt, FieldAt;
    Sliced(data, h, SlotAt(i, numFields), 4 * numFields);
    TupleRead(data[h..][SlotAt(i, numFields)..SlotAt(i, numFields) + 4 * numFields], numFields, j);
    FieldInside(data, h + SlotAt(i, numFields), 4 * numFields, 4 * j, f);
  }

  lemma FieldInside(data: seq<bv8>, at: nat, n: nat, k: nat, f: Field)
    requires at + n <= |data| && FieldAt(data[at..at + n], k, f)
    ensures FieldAt(data, at + k, f)
  {
  }

  lemma SlotWritten(data: seq<bv8>, h: nat, i: nat, j: nat, numFields: nat, t: Fields)
    requires |t| == numFields && h + SlotAt(i, numFields) + 4 * numFields <= |data| && j < numFields
    requires TupleBytes(t) == data[h..][SlotAt(i, numFields)..SlotAt(i, numFields) + 4 * numFields]
    ensures FieldAt(data, h + SlotAt(i, numFields) + 4 * j, t[j])
  {
    hide TupleBytes, SlotAt, FieldAt;
    Sliced(data, h, SlotAt(i, numFields), 4 * numFields);
    TupleWritten(t, j);
    FieldInside(data, h + SlotAt(i, numFields), 4 * numFields, 4 * j, t[j]);
  }

  lemma SlotCleared(data: seq<bv8>, h: nat, i: nat, numFields: nat)
    requires h + SlotAt(i, numFields) + 4 * numFields <= |data|
    requires data[h..][SlotAt(i, numFields)..SlotAt(i, numFields) + 4 * numFields] == Zeros(4 * numFields)
    ensures var at := h + SlotAt(i, numFields);
            at + 4 * numFields <= |data| && forall k :: at <= k < at + 4 * numFields ==> data[k] == 0
  {
    hide SlotAt;
    Sliced(data, h, SlotAt(i, numFields), 4 * numFields);
    var at := h + SlotAt(i, numFields);
    forall k | at <= k < at + 4 * numFields
      ensures data[k] == 0
    {
      assert data[k] == data[h..][SlotAt(i, numFields)..SlotAt(i, numFields) + 4 * numFields][k - at];
    }
  }

  /** The bytes of a page: the fields of used slots at their places, and zeros for unused slots. */
  lemma PageWritten(data: seq<bv8>, header: seq<bv8>, tuples: seq<Fields>, numFields: nat)
    requires |tuples| <= 8 * |header| && forall i :: 0 <= i < |tuples| ==> |tuples[i]| == numFields
    requires data == header + SlotBytes(header, tuples, numFields, |tuples|)
    ensures forall i, j :: 0 <= i < |tuples| && 0 <= j < numFields && IsSlotUsed(header, i) ==>
              FieldAt(data, |header| + SlotAt(i, numFields) + 4 * j, tuples[i][j])
    ensures forall i :: 0 <= i < |tuples| && !IsSlotUsed(header, i) ==>
              var at := |header| + SlotAt(i, numFields);
              at + 4 * numFields <= |data| && forall k :: at <= k < at + 4 * numFields ==> data[k] == 0
  {
    hide IsSlotUsed, SlotBytes, TupleBytes, SlotAt, Zeros, FieldAt;
    var h := |header|;
    assert data[h..] == SlotBytes(header, tuples, numFields, |tuples|);
    forall i, j | 0 <= i < |tuples| && 0 <= j < numFields && IsSlotUsed(header, i)
      ensures FieldAt(data, h + SlotAt(i, numFields) + 4 * j, tuples[i][j])
    {
      SlotBytesAt(header, tuples, numFields, |tuples|, i);
      SlotWritten(data, h, i, j, numFields, tuples[i]);
    }
    forall i | 0 <= i < |tuples| && !IsSlotUsed(header, i)
      ensures var at := h + SlotAt(i, numFields);
              at + 4 * numFields <= |data| && forall k :: at <= k < at + 4 * numFields ==> data[k] == 0
    {
      SlotBytesAt(header, tuples, numFields, |tuples|, i);
      SlotCleared(data, h, i, numFields);
    }
  }

  lemma SlotAtIs(i: nat, numFields: nat)
    ensures SlotAt(i, numFields) == i * (4 * numFields)
  {
  }

  lemma Sliced(data: seq<bv8>, h: nat, at: nat, n: nat)
    requires h + at + n <= |data|
    ensures data[h..][at..at + n] == data[h + at..h + at + n]
  {
  }

  /** A page in memory: its header, and the tuples in its used slots. */
  class HeapPage {
    const pid: PageId
    const numFields: nat
    const numSlots: nat
    const header: array<bv8>
    const tuples: array<Fields>

    ghost predicate Valid()
      reads header, tuples
    {
      && numFields > 0 && tuples.Length == numSlots <= 8 * header.Length
      && (header as object) != (tuples as object)
      && forall i :: 0 <= i < numSlots ==> |tuples[i]| == numFields
    }

    /** The bytes of the page. */
    ghost function Bytes(): seq<bv8>
      requires Valid()
      reads header, tuples
    {
      header[..] + SlotBytes(header[..], tuples[..], numFields, numSlots)
    }

    /** Reads a page from its bytes. */
    constructor (pid: PageId, data: seq<bv8>, numFields: nat)
      requires numFields > 0
      ensures Valid() && fresh(header) && fresh(tuples) && this.pid == pid && this.numFields == numFields
      ensures numSlots == NumTuples(|data|, 4 * numFields)
      ensures header.Length == HeaderSize(|data|, 4 * numFields) && header[..] == data[..header.Length]
      ensures header.Length + SlotAt(numSlots, numFields) == |data|
      ensures forall i :: 0 <= i < numSlots && IsSlotUsed(header[..], i) ==>
                SlotAt(i, numFields) + 4 * numFields <= |data| - header.Length &&
                tuples[i] == ParseTuple(data[header.Length..][SlotAt(i, numFields)..SlotAt(i, numFields) + 4 * numFields], numFields)
      ensures forall i, j :: 0 <= i < numSlots && 0 <= j < numFields && IsSlotUsed(header[..], i) ==>
                FieldAt(data, header.Length + SlotAt(i, numFields) + 4 * j, tuples[i][j])
    {
      hide IsSlotUsed, ParseTuple, NumTuples, HeaderSize, SlotAt, HeapPage.Valid, FieldAt;
      SlotsTile(|data|, 4 * numFields);
      var n := NumTuples(|data|, 4 * numFields);
      SlotAtIs(n, numFields);
      var headerSize := HeaderSize(|data|, 4 * numFields);
      this.pid, this.numFields, numSlots := pid, numFields, n;
      header := new bv8[headerSize](i requires 0 <= i < headerSize => data[i]);
      var blank := seq(numFields, _ => 0);
      tuples := new Fields[n](_ => blank);
      new;
      assert header[..] == data[..headerSize];
      Started();
      ReadTuples(data[headerSize..]);
      forall i, j | 0 <= i < numSlots && 0 <= j < numFields && IsSlotUsed(header[..], i)
        ensures FieldAt(data, headerSize + SlotAt(i, numFields) + 4 * j, tuples[i][j])
      {
        SlotRead(data, headerSize, i, j, numFields, tuples[i][j]);
      }
    }

    lemma Started()
      requires numFields > 0 && tuples.Length == numSlots <= 8 * header.Length && (header as object) != (tuples as object)
      requires forall i :: 0 <= i < numSlots ==> |tuples[i]| == numFields
      ensures Valid()
    {
    }

    /** The loop of the constructor over the slots. */
    method ReadTuples(body: seq<bv8>)
      requires Valid() && |body| == SlotAt(numSlots, numFields)
      modifies tuples
      ensures Valid() && header[..] == old(header[..])
      ensures forall i :: 0 <= i < numSlots && IsSlotUsed(header[..], i) ==>
                SlotAt(i, numFields) + 4 * numFields <= |body| &&
                tuples[i] == ParseTuple(body[SlotAt(i, numFields)..SlotAt(i, numFields) + 4 * numFields], numFields)
    {
      hide IsSlotUsed, ParseTuple;
      var offset := 0;
      for slot := 0 to numSlots
        invariant Valid() && offset == SlotAt(slot, numFields) && header[..] == old(header[..])
        invariant forall i :: 0 <= i < slot && IsSlotUsed(header[..], i) ==>
                    SlotAt(i, numFields) + 4 * numFields <= |body| &&
                    tuples[i] == ParseTuple(body[SlotAt(i, numFields)..SlotAt(i, numFields) + 4 * numFields], numFields)
      {
        SlotAtNext(slot, numFields);
        SlotInside(slot, numSlots, numFields);
        if IsSlotUsed(header[..], slot) {
          tuples[slot] := ParseTuple(body[offset..offset + 4 * numFields], numFields);
        }
        offset := offset + 4 * numFields;
      }
    }

    /** getPageData. */
    method GetPageData() returns (data: seq<bv8>)
      requires Valid()
      ensures data == Bytes()
      ensures |data| == header.Length + SlotAt(numSlots, numFields) && data[..header.Length] == header[..]
      ensures forall i, j :: 0 <= i < numSlots && 0 <= j < numFields && IsSlotUsed(header[..], i) ==>
                FieldAt(data, header.Length + SlotAt(i, numFields) + 4 * j, tuples[i][j])
      ensures forall i :: 0 <= i < numSlots && !IsSlotUsed(header[..], i) ==>
                var at := header.Length + SlotAt(i, numFields);
                at + 4 * numFields <= |data| && forall k :: at <= k < at + 4 * numFields ==> data[k] == 0
    {
      hide IsSlotUsed, SlotBytes, TupleBytes, FieldBytes, SlotAt, Zeros, FieldAt;
      data := WriteBytes();
      PageWritten(data, header[..], tuples[..], numFields);
    }

    method WriteBytes() returns (data: seq<bv8>)
      requires Valid()
      ensures data == Bytes()
    {
      hide IsSlotUsed, SlotBytes, TupleBytes, FieldBytes;
      data := header[..];
      NoSlots(header[..], tuples[..], numFields);
      for i := 0 to numSlots
        invariant data == header[..] + SlotBytes(header[..], tuples[..], numFields, i)
      {
        NextSlot(header[..], tuples[..], numFields, i);
        if !IsSlotUsed(header[..], i) {
          data := data + Zeros(4 * numFields);
        } else {
          var tuple := tuples[i];
          ghost var before := data;
          NoFields(tuple[..0]);
          for j := 0 to numFields
            invariant data == before + TupleBytes(tuple[..j])
          {
            NextField(tuple, j);
            data := data + FieldBytes(tuple[j]);
          }
          assert tuple[..numFields] == tuple;
        }
      }
    }

    // ---------------------------------------------------------------- tuples

    ghost function Cells(): (cells: seq<Option<Fields>>)
      requires Valid()
      reads header, tuples
      ensures |cells| == numSlots
    {
      CellsOf(header[..], tuples[..])
    }

    /** The tuples on the page, in slot order. */
    ghost function Contents(): seq<Fields>
      requires Valid()
      reads header, tuples
    {
      Gather(Cells())
    }

    /** isSlotUsed: the byte shifted down to the bit. */
    predicate Used(i: nat)
      requires Valid() && i < numSlots
      reads header, tuples
      ensures Used(i) <==> Cells()[i].Some?
      ensures Used(i) ==> Cells()[i] == Some(tuples[i])
    {
      ShiftedBit(header[i / 8], i % 8);
      (header[i / 8] >> (i % 8)) & 1 != 0
    }

    method Mark(i: nat, value: bool)
      requires Valid() && i < numSlots
      modifies header
      ensures Valid() && Cells() == old(Cells())[i := if value then Some(tuples[i]) else None]
    {
      hide IsSlotUsed, CellsOf;
      ghost var before, records := header[..], tuples[..];
      MarkSlotUsed(header, i, value);
      assert tuples[..] == records;
      CellMarked(before, header[..], records, i, value);
    }

    /** getNumEmptySlots. */
    method GetNumEmptySlots() returns (cnt: nat)
      requires Valid()
      ensures cnt == numSlots - |Contents()|
    {
      hide IsSlotUsed, CellsOf;
      cnt := 0;
      ghost var cells := Cells();
      assert cells[..0] == [];
      for i := 0 to numSlots
        invariant cnt == i - |Gather(cells[..i])|
      {
        GatherNext(cells, i);
        if !Used(i) {
          cnt := cnt + 1;
        }
      }
      assert cells[..numSlots] == cells;
    }

    /** insertTuple: into the first empty slot, which the record id of t, rid, then names; not
        ok when there is none. */
    method InsertTuple(t: Fields) returns (ok: bool, rid: RecordId)
      requires Valid() && |t| == numFields
      modifies header, tuples
      ensures Valid() && (ok <==> |old(Contents())| < numSlots)
      ensures ok ==> rid.pageId == pid && rid.slot < numSlots && old(Cells())[rid.slot] == None
      ensures ok ==> Cells() == old(Cells())[rid.slot := Some(t)] && forall i :: 0 <= i < rid.slot ==> old(Cells())[i].Some?
      ensures ok ==> multiset(Contents()) == multiset(old(Contents())) + multiset{t}
      ensures !ok ==> Cells() == old(Cells())
    {
      hide IsSlotUsed, CellsOf, Gather;
      ghost var cells := Cells();
      var empty := GetNumEmptySlots();
      if empty <= 0 {
        return false, RecordId(pid, 0);
      }
      GatherRoom(cells);
      var slotIndex := 0;
      while Used(slotIndex)
        invariant 0 <= slotIndex < numSlots && forall i :: 0 <= i < slotIndex ==> cells[i].Some?
        invariant exists i :: slotIndex <= i < numSlots && cells[i] == None
        decreases numSlots - slotIndex
      {
        slotIndex := slotIndex + 1;
      }
      ghost var bits, before := header[..], tuples[..];
      CellWritten(bits, before, slotIndex, t);
      tuples[slotIndex] := t;
      assert tuples[..] == before[slotIndex := t] && header[..] == bits;
      Mark(slotIndex, true);
      GatherFill(cells, slotIndex, t);
      return true, RecordId(pid, slotIndex);
    }

    /** deleteTuple of the tuple with a record id; not ok when it names another page or an
        empty slot. */
    method DeleteTuple(rid: RecordId) returns (ok: bool)
      requires Valid() && (rid.pageId == pid ==> rid.slot < numSlots)
      modifies header
      ensures Valid() && (ok <==> rid.pageId == pid && old(Cells())[rid.slot].Some?)
      ensures ok ==> Cells() == old(Cells())[rid.slot := None]
      ensures ok ==> multiset(Contents()) + multiset{old(Cells())[rid.slot].value} == multiset(old(Contents()))
      ensures !ok ==> Cells() == old(Cells())
    {
      hide IsSlotUsed, CellsOf, Gather;
      ok := rid.pageId == pid && Used(rid.slot);
      if ok {
        ghost var cells, slot := Cells(), rid.slot;
        Mark(rid.slot, false);
        GatherFill(Cells(), slot, cells[slot].value);
        assert Cells()[slot := cells[slot]] == cells;
        ghost var a, b := Gather(Cells()[..slot]), Gather(Cells()[slot + 1..]);
        assert multiset(a + [cells[slot].value] + b) == multiset(a + b) + multiset{cells[slot].value};
      }
    }

    /** The steps of HeapPageIterator: the next used slot from a slot on, or numSlots. */
    method NextUsed(from: nat) returns (slot: nat)
      requires Valid() && from <= numSlots
      ensures from <= slot <= numSlots && tuples.Length == numSlots
      ensures slot < numSlots ==> Cells()[slot] == Some(tuples[slot])
      ensures forall j :: from <= j < slot ==> Cells()[j] == None
      ensures Onward(Cells(), from) == Onward(Cells(), slot)
    {
      hide IsSlotUsed, CellsOf, Onward;
      slot := from;
      ghost var cells := Cells();
      while slot < numSlots && !Used(slot)
        invariant from <= slot <= numSlots && forall j :: from <= j < slot ==> cells[j] == None
      {
        slot := slot + 1;
      }
      OnwardSkip(cells, from, slot);
    }

    /** A walk with the iterator gives every tuple once, in slot order. */
    method Walk() returns (ts: seq<Fields>)
      requires Valid()
      ensures ts == Contents()
    {
      hide IsSlotUsed, CellsOf, Gather, Onward, HeapPage.Valid;
      ts := [];
      ghost var cells := Cells();
      OnwardStart(cells);
      var slot := NextUsed(0);
      while slot < numSlots
        invariant slot <= numSlots && tuples.Length == numSlots
        invariant slot < numSlots ==> cells[slot] == Some(tuples[slot])
        invariant Contents() == ts + Onward(cells, slot)
      {
        OnwardUsed(cells, slot);
        ts := ts + [tuples[slot]];
        slot := NextUsed(slot + 1);
      }
    }
  }

  lemma SlotInside(i: nat, n: nat, numFields: nat)
    requires i < n
    ensures SlotAt(i, numFields) + 4 * numFields <= SlotAt(n, numFields)
  {
    SlotAtNext(i, numFields);
    Monotone(i + 1, n, 4 * numFields);
  }

  /** Writing a page and reading it back restores the header and every used tuple. */
  method WriteAndRead(page: HeapPage) returns (copy: HeapPage)
    requires page.Valid()
    requires page.header.Length + SlotAt(page.numSlots, page.numFields) > 0
    requires page.numSlots == NumTuples(page.header.Length + SlotAt(page.numSlots, page.numFields), 4 * page.numFields)
    ensures copy.Valid() && copy.pid == page.pid && copy.numSlots == page.numSlots && copy.numFields == page.numFields
    ensures copy.header[..] == page.header[..]
    ensures forall i :: 0 <= i < page.numSlots && IsSlotUsed(page.header[..], i) ==> copy.tuples[i] == page.tuples[i]
  {
    hide IsSlotUsed, NumTuples, SlotAt, TupleBytes, ParseTuple, SlotBytes;
    var data := page.GetPageData();
    SlotsTile(|data|, 4 * page.numFields);
    copy := new HeapPage(page.pid, data, page.numFields);
    assert data[page.header.Length..] == SlotBytes(page.header[..], page.tuples[..], page.numFields, page.numSlots);
    forall i | 0 <= i < page.numSlots && IsSlotUsed(page.header[..], i)
      ensures copy.tuples[i] == page.tuples[i]
    {
      SlotBytesAt(page.header[..], page.tuples[..], page.numFields, page.numSlots, i);
      TupleRoundTrip(page.tuples[i]);
    }
  }

  function Word(b0: bv32, b1: bv32, b2: bv32, b3: bv32): bv32 {
    b0 | (b1 << 8) | (b2 << 16) | (b3 << 24)
  }

  lemma WordBytes(b0: bv32, b1: bv32, b2: bv32, b3: bv32)
    requires b0 <= 0xFF && b1 <= 0xFF && b2 <= 0xFF && b3 <= 0xFF
    ensures var f := Word(b0, b1, b2, b3);
            f & 0xFF == b0 && (f >> 8) & 0xFF == b1 && (f >> 16) & 0xFF == b2 && (f >> 24) & 0xFF == b3
  {
  }

  lemma ByteBack(b: bv8)
    ensures b as bv32 <= 0xFF && (b as bv32) as bv8 == b
  {
  }

  lemma FieldBytesBack(b: seq<bv8>)
    requires |b| == 4
    ensures FieldBytes(ParseField(b)) == b
  {
    WordBytes(b[0] as bv32, b[1] as bv32, b[2] as bv32, b[3] as bv32);
    ByteBack(b[0]);
    ByteBack(b[1]);
    ByteBack(b[2]);
    ByteBack(b[3]);
  }

  lemma {:induction false} TupleBytesBack(b: seq<bv8>, numFields: nat)
    requires |b| == 4 * numFields
    ensures TupleBytes(ParseTuple(b, numFields)) == b
  {
    if numFields > 0 {
      var m := 4 * (numFields - 1);
      TupleBytesBack(b[..m], numFields - 1);
      FieldBytesBack(b[m..]);
      assert ParseTuple(b, numFields)[..numFields - 1] == ParseTuple(b[..m], numFields - 1);
      assert b == b[..m] + b[m..];
    }
  }

  /** Reading a page and writing it back restores every byte of the header and of the used
      slots, and clears the unused slots. */
  method ReadAndWrite(pid: PageId, data: seq<bv8>, numFields: nat) returns (copy: seq<bv8>)
    requires numFields > 0
    ensures |copy| == |data|
    ensures var n, h := NumTuples(|data|, 4 * numFields), HeaderSize(|data|, 4 * numFields);
            && 0 <= h <= |data| && n <= 8 * h && h + SlotAt(n, numFields) == |data| && copy[..h] == data[..h]
            && forall i :: 0 <= i < n ==>
                 && h + SlotAt(i, numFields) + 4 * numFields <= |data|
                 && copy[h..][SlotAt(i, numFields)..SlotAt(i, numFields) + 4 * numFields] ==
                    if IsSlotUsed(data[..h], i) then data[h..][SlotAt(i, numFields)..SlotAt(i, numFields) + 4 * numFields]
                    else Zeros(4 * numFields)
  {
    hide IsSlotUsed, NumTuples, SlotAt, TupleBytes, ParseTuple, SlotBytes;
    SlotsTile(|data|, 4 * numFields);
    var page := new HeapPage(pid, data, numFields);
    copy := page.GetPageData();
    ghost var h := page.header.Length;
    assert copy[h..] == SlotBytes(page.header[..], page.tuples[..], numFields, page.numSlots);
    forall i | 0 <= i < page.numSlots
      ensures h + SlotAt(i, numFields) + 4 * numFields <= |data|
      ensures copy[h..][SlotAt(i, numFields)..SlotAt(i, numFields) + 4 * numFields] ==
              if IsSlotUsed(data[..h], i) then data[h..][SlotAt(i, numFields)..SlotAt(i, numFields) + 4 * numFields]
              else Zeros(4 * numFields)
    {
      SlotInside(i, page.numSlots, numFields);
      SlotBytesAt(page.header[..], page.tuples[..], numFields, page.numSlots, i);
      TupleBytesBack(data[h..][SlotAt(i, numFields)..SlotAt(i, numFields) + 4 * numFields], numFields);
    }
  }
}
