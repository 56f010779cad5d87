/**
  The term-file writer (index_tfile.c, `tfileWriterCreate` to
  `tfileSerialTableIdsToBuf`): it writes the header, then for one batch of
  column values a 4-byte trailer with the offset the transducer will start
  at, one table-id block per value, and finally the transducer mapping each
  value to its block.

  The writer context is the `FileImage` the writer appends to; its writes
  always complete here, since the context's I/O is not part of this model.
 */
module TFileWrite {
  import opened Bytes
  import opened CStrings
  import opened Fst
  import opened TFileFormat
  import opened Wrappers

  // ------------------------------------------------------------ comparators

  /** `tfileValueCompare` with `tfileStrCompare` as its comparator: the
      order `tfileWriterPut` sorts string columns by. */
  function ValueCompare(a: TFileValue, b: TFileValue): (r: int)
    ensures r in {-1, 0, 1}
    ensures r == -1 <==> LexLess(a.colVal, b.colVal)
    ensures r == 0 <==> a.colVal == b.colVal
  {
    StrCompareIsLex(a.colVal, b.colVal);
    StrCompare(a.colVal, b.colVal)
  }

  /** `s[lo..hi]` is nondecreasing under `tfileStrCompare`. */
  predicate SortedRange(s: seq<TFileValue>, lo: int, hi: int)
    requires 0 <= lo <= hi <= |s|
  {
    forall i, j :: lo <= i < j < hi ==> StrCompare(s[i].colVal, s[j].colVal) <= 0
  }

  /** The sort `tfileWriterPut` applies to a string column, done in place:
      afterwards the array is a permutation of what it held and is
      nondecreasing under `tfileStrCompare`. */
  method SortByStrCompare(a: array<TFileValue>)
    modifies a
    ensures NonDecreasing(a[..])
    ensures multiset(a[..]) == multiset(old(a[..]))
    ensures SumSizes(a[..]) == SumSizes(old(a[..]))
  {
    var i := 0;
    while i < a.Length
      invariant 0 <= i <= a.Length
      invariant SortedRange(a[..], 0, i)
      invariant multiset(a[..]) == multiset(old(a[..]))
      invariant SumSizes(a[..]) == SumSizes(old(a[..]))
    {
      InsertAt(a, i);
      i := i + 1;
    }
  }

  /** One insertion step: moves `a[i]` down into the sorted prefix by
      adjacent swaps, while the element before it sorts after it. */
  method InsertAt(a: array<TFileValue>, i: int)
    requires 0 <= i < a.Length && SortedRange(a[..], 0, i)
    modifies a
    ensures SortedRange(a[..], 0, i + 1)
    ensures multiset(a[..]) == multiset(old(a[..]))
    ensures SumSizes(a[..]) == SumSizes(old(a[..]))
  {
    var j := i;
    while j > 0 && ValueCompare(a[j - 1], a[j]) == 1
      invariant 0 <= j <= i
      invariant Inserting(a[..], j, i)
      invariant multiset(a[..]) == multiset(old(a[..]))
      invariant SumSizes(a[..]) == SumSizes(old(a[..]))
    {
      ghost var s := a[..];
      a[j - 1], a[j] := a[j], a[j - 1];
      SwapKeepsOrder(s, a[..], j, i);
      SumSizesSwap(s, a[..], j);
      j := j - 1;
    }
    InsertedInOrder(a[..], j, i);
  }

  /** The state of an insertion step with `s[i]`'s value now at `j`: both
      sides of `j` are sorted and everything before `j` sorts before
      everything after it. */
  predicate Inserting(s: seq<TFileValue>, j: int, i: int)
    requires 0 <= j <= i < |s|
  {
    && SortedRange(s, 0, j) && SortedRange(s, j, i + 1)
    && forall k, l :: 0 <= k < j < l <= i ==> StrCompare(s[k].colVal, s[l].colVal) <= 0
  }

  /** One adjacent swap of the inner insertion loop keeps its invariants. */
  lemma SwapKeepsOrder(s: seq<TFileValue>, t: seq<TFileValue>, j: int, i: int)
    requires 0 < j <= i < |s|
    requires t == s[j - 1 := s[j]][j := s[j - 1]]
    requires StrCompare(s[j - 1].colVal, s[j].colVal) == 1
    requires Inserting(s, j, i)
    ensures Inserting(t, j - 1, i)
    ensures multiset(t) == multiset(s)
  {
    StrCompareFlip(s[j - 1].colVal, s[j].colVal);
    forall k, l | j - 1 <= k < l <= i ensures StrCompare(t[k].colVal, t[l].colVal) <= 0 {
      if k == j - 1 && l > j {
        StrCompareTransitive(s[j].colVal, s[j - 1].colVal, s[l].colVal);
      }
    }
    forall k, l | 0 <= k < j - 1 < l <= i ensures StrCompare(t[k].colVal, t[l].colVal) <= 0 {
      if l == j {
        assert t[l] == s[j - 1];
      }
    }
  }

  /** Once the inner loop stops, the prefix up to `i` is sorted. */
  lemma InsertedInOrder(s: seq<TFileValue>, j: int, i: int)
    requires 0 <= j <= i < |s|
    requires j > 0 ==> StrCompare(s[j - 1].colVal, s[j].colVal) != 1
    requires Inserting(s, j, i)
    ensures SortedRange(s, 0, i + 1)
  {
    if j > 0 {
      StrCompareIsLex(s[j - 1].colVal, s[j].colVal);
      forall k | 0 <= k < j ensures StrCompare(s[k].colVal, s[j].colVal) <= 0 {
        if k < j - 1 {
          StrCompareTransitive(s[k].colVal, s[j - 1].colVal, s[j].colVal);
        }
      }
    }
  }

  // -------------------------------------------------------- id serialiser

  /** `tfileSerialTableIdsToBuf`: fills a buffer of `TF_TABLE_TATOAL_SIZE`
      bytes with the count and then each id, in order. */
  method SerialTableIdsToBuf(buf: array<byte>, ids: IdList)
    requires buf.Length == BlockSize(|ids|)
    modifies buf
    ensures buf[..] == EncodeBlock(ids)
  {
    var count := EncodeI32(|ids|);
    forall k | 0 <= k < 4 {
      buf[k] := count[k];
    }
    var i := 0;
    while i < |ids|
      invariant 0 <= i <= |ids|
      invariant buf[..4 + 8 * i] == count + EncodeIds(ids[..i])
    {
      var e := EncodeU64(ids[i]);
      forall k | 0 <= k < 8 {
        buf[4 + 8 * i + k] := e[k];
      }
      assert ids[..i + 1][..i] == ids[..i];
      i := i + 1;
    }
    assert ids[..|ids|] == ids;
  }

  // ------------------------------------------------------------- offsets

  /** The same value and id list, whatever the offset. */
  predicate SameEntry(x: TFileValue, y: TFileValue) {
    x.colVal == y.colVal && x.tableId == y.tableId
  }

  /** `a` holds the values of `b` in the same order, offsets aside. */
  predicate SameEntries(a: seq<TFileValue>, b: seq<TFileValue>) {
    |a| == |b| && forall k :: 0 <= k < |a| ==> SameEntry(a[k], b[k])
  }

  /** Block sizes and bytes depend only on the id lists. */
  lemma {:induction false} SameEntriesSameBlocks(a: seq<TFileValue>, b: seq<TFileValue>)
    requires SameEntries(a, b)
    ensures SumSizes(a) == SumSizes(b) && Blocks(a) == Blocks(b)
  {
    if |a| > 0 {
      SameEntriesSameBlocks(a[..|a| - 1], b[..|b| - 1]);
    }
  }

  /** What a successful put leaves on a fresh file is its written image. */
  lemma FreshPutImage(h0: TFileHeader, off0: int, data0: seq<TFileValue>, order: bool,
                      sorted: seq<TFileValue>, d: seq<TFileValue>, h: TFileHeader, f: FileImage)
    requires off0 == HeaderNoFstSize && IsI32(HeaderNoFstSize + FstOffsetSize + SumSizes(d))
    requires BlocksWritten(h0, off0, [], data0, order, sorted, d, h, f.body)
    requires f.head == HeaderRegion(h0)
    requires f.index == Some(FstRegion(h.fstOffset, BuildFst(h.colType, d)))
    ensures f == WrittenImage(h0, d)
  {
    assert [] + EncodeI32(HeaderNoFstSize + FstOffsetSize + SumSizes(d)) == EncodeI32(HeaderNoFstSize + FstOffsetSize + SumSizes(d));
  }

  /** What the sort, the trailer and the data pass of `tfileWriterPut`
      leave behind, from the header `h0`, offset `off0`, file body `body0`
      and batch `data0` before: `sorted` is a permutation of the batch with
      the same sizes, the batch itself when `order` says it is sorted and
      ordered by `tfileStrCompare` for a string column otherwise; the batch
      `d` afterwards holds the same entries laid out block after block
      behind the trailer; the header's `fstOffset` is the end of the last
      block; and the body gained the trailer and the blocks. */
  ghost predicate BlocksWritten(h0: TFileHeader, off0: int, body0: seq<byte>, data0: seq<TFileValue>, order: bool,
                                sorted: seq<TFileValue>, d: seq<TFileValue>, h: TFileHeader, body: seq<byte>)
  {
    && multiset(sorted) == multiset(data0)
    && SumSizes(sorted) == SumSizes(data0)
    && (order ==> sorted == data0)
    && (!order && IsStringType(h0.colType) ==> NonDecreasing(d))
    && SameEntries(d, sorted) && LaidOut(d, off0 + FstOffsetSize)
    && SumSizes(d) == SumSizes(sorted)
    && h == h0.(fstOffset := off0 + FstOffsetSize + SumSizes(sorted))
    && IsI32(h.fstOffset)
    && body == body0 + EncodeI32(h.fstOffset) + Blocks(d)
  }

  /** The sort, the trailer and the data pass together establish
      `BlocksWritten`: the data pass copies the entries of `sorted`, so it
      keeps their order and writes the same block bytes. */
  lemma PassesWritten(h0: TFileHeader, off0: int, body0: seq<byte>, data0: seq<TFileValue>, order: bool,
                      sorted: seq<TFileValue>, d: seq<TFileValue>, h: TFileHeader, body: seq<byte>)
    requires multiset(sorted) == multiset(data0) && SumSizes(sorted) == SumSizes(data0)
    requires order ==> sorted == data0
    requires !order && IsStringType(h0.colType) ==> NonDecreasing(sorted)
    requires SameEntries(d, sorted) && LaidOut(d, off0 + FstOffsetSize)
    requires SumSizes(d) == SumSizes(sorted) && Blocks(d) == Blocks(sorted)
    requires h == h0.(fstOffset := off0 + FstOffsetSize + SumSizes(sorted)) && IsI32(h.fstOffset)
    requires body == body0 + EncodeI32(h.fstOffset) + Blocks(sorted)
    ensures BlocksWritten(h0, off0, body0, data0, order, sorted, d, h, body)
  {
    if !order && IsStringType(h0.colType) {
      SameEntriesKeepOrder(d, sorted);
    }
  }

  /** Appending a value placed right after the others keeps the layout. */
  lemma PlacedStep(placed: seq<TFileValue>, w: TFileValue, base: int)
    requires LaidOut(placed, base) && w.offset == base + SumSizes(placed)
    ensures LaidOut(placed + [w], base)
    ensures SumSizes(placed + [w]) == SumSizes(placed) + BlockSize(|w.tableId|)
    ensures Blocks(placed + [w]) == Blocks(placed) + EncodeBlock(w.tableId)
  {
    var p := placed + [w];
    assert p[..|placed|] == placed;
    forall k | 0 <= k < |placed| ensures p[..k] == placed[..k] && p[k] == placed[k] {
    }
  }

  /** Same entries keep the `tfileStrCompare` order. */
  lemma SameEntriesKeepOrder(a: seq<TFileValue>, b: seq<TFileValue>)
    requires SameEntries(a, b) && NonDecreasing(b)
    ensures NonDecreasing(a)
  {
  }

  /** The data pass after `i` blocks: the first `i` values have been
      given their offsets, the rest are as sorted. */
  predicate BlocksProgress(d: seq<TFileValue>, placed: seq<TFileValue>, sorted: seq<TFileValue>, i: int, base: int) {
    && 0 <= i <= |sorted| && |placed| == i
    && d == placed + sorted[i..]
    && (forall k :: 0 <= k < i ==> SameEntry(placed[k], sorted[k]))
    && SumSizes(placed) == SumSizes(sorted[..i]) <= SumSizes(sorted)
    && LaidOut(placed, base)
  }

  lemma BlocksProgressAt(d: seq<TFileValue>, placed: seq<TFileValue>, sorted: seq<TFileValue>, i: int, base: int)
    requires BlocksProgress(d, placed, sorted, i, base) && i < |d|
    ensures d[i] == sorted[i]
    ensures SumSizes(placed) + BlockSize(|sorted[i].tableId|) <= SumSizes(sorted)
  {
    BlocksStep(sorted, i);
  }

  lemma BlocksProgressStep(d: seq<TFileValue>, placed: seq<TFileValue>, sorted: seq<TFileValue>, i: int, base: int, w: TFileValue)
    requires BlocksProgress(d, placed, sorted, i, base) && i < |sorted|
    requires SameEntry(w, sorted[i]) && w.offset == base + SumSizes(placed)
    ensures BlocksProgress(d[i := w], placed + [w], sorted, i + 1, base)
    ensures SumSizes(placed + [w]) == SumSizes(placed) + BlockSize(|w.tableId|)
    ensures Blocks(placed + [w]) == Blocks(placed) + EncodeBlock(w.tableId)
  {
    BlocksStep(sorted, i);
    UpdateAtBoundary(placed, sorted, i, w);
    PlacedStep(placed, w, base);
    forall k | 0 <= k < i + 1 ensures SameEntry((placed + [w])[k], sorted[k]) {
      if k < i {
        assert (placed + [w])[k] == placed[k];
      }
    }
  }

  lemma BlocksProgressDone(d: seq<TFileValue>, placed: seq<TFileValue>, sorted: seq<TFileValue>, i: int, base: int)
    requires BlocksProgress(d, placed, sorted, i, base) && i == |sorted|
    ensures d == placed && SameEntries(d, sorted) && LaidOut(d, base)
    ensures SumSizes(d) == SumSizes(sorted) && Blocks(d) == Blocks(sorted)
  {
    assert sorted[i..] == [];
    assert placed + [] == placed;
    SameEntriesSameBlocks(placed, sorted);
  }

  /** Replacing the first element of `s[i..]` after a prefix of length `i`. */
  lemma UpdateAtBoundary<T>(p: seq<T>, s: seq<T>, i: int, w: T)
    requires |p| == i < |s|
    ensures (p + s[i..])[i := w] == (p + [w]) + s[i + 1..]
  {
  }

  // -------------------------------------------------------------- writer

  /** `TFileWriter`: the header being written, the offset of the next byte,
      the writer context's contents, and the transducer builder while
      `tfileWriterPut` is inserting. `closed` records `tfileWriterClose`. */
  class TFileWriter {
    var header: TFileHeader
    var offset: int
    var file: FileImage
    var fb: Option<Builder>
    var closed: bool

    /** A writer's offset is always the end of what it has written, and it
        holds a builder only inside `tfileWriterPut`. */
    predicate Valid()
      reads this
    {
      offset == FileEnd(file) && fb == None
    }

    /** `tfileWriterCreate`: keeps the header and writes it to the context,
        which has received nothing yet. */
    constructor (h: TFileHeader)
      ensures Valid() && !closed
      ensures header == h && offset == HeaderNoFstSize
      ensures file == FileImage(HeaderRegion(h), [], None)
    {
      header := h;
      offset := 0;
      file := FileImage(HeaderRegion(TFileHeader(0, 0, "", 0, 0)), [], None);
      fb := None;
      closed := false;
      new;
      WriteHeader();
    }

    /** `tfileWriteHeader`: the header less its `fstOffset` goes to the
        header region, and the offset moves past it. */
    method WriteHeader()
      requires file.body == [] && file.index == None
      modifies this
      ensures header == old(header) && fb == old(fb) && closed == old(closed)
      ensures file == old(file).(head := HeaderRegion(header))
      ensures offset == HeaderNoFstSize
    {
      file := file.(head := HeaderRegion(header));
      offset := HeaderNoFstSize;
    }

    /** `tfileWriteFstOffset`: the trailer holds `off` plus its own size,
        which also becomes the header's `fstOffset`. */
    method WriteFstOffset(off: int) returns (ret: int)
      requires IsI32(off + FstOffsetSize)
      modifies this
      ensures ret == 0
      ensures header == old(header).(fstOffset := off + FstOffsetSize)
      ensures file == old(file).(body := old(file.body) + EncodeI32(off + FstOffsetSize))
      ensures offset == old(offset) + FstOffsetSize
      ensures fb == old(fb) && closed == old(closed)
    {
      var fstOffset := off + FstOffsetSize;
      header := header.(fstOffset := fstOffset);
      file := file.(body := file.body + EncodeI32(fstOffset));
      offset := offset + FstOffsetSize;
      ret := 0;
    }

    /** `tfileWriteData`: for a string column, inserts the value with its
        block offset and answers 0 when the builder accepts it, -1 when it
        refuses; other column types insert nothing and answer 0. */
    method WriteData(v: TFileValue) returns (ret: int)
      requires fb.Some?
      modifies this
      ensures IsStringType(header.colType) ==>
        var r := Insert(old(fb).value, v.colVal, v.offset);
        fb == Some(r.1) && (ret == 0 <==> r.0) && (ret == 0 || ret == -1)
      ensures !IsStringType(header.colType) ==> fb == old(fb) && ret == 0
      ensures header == old(header) && offset == old(offset) && file == old(file) && closed == old(closed)
    {
      if IsStringType(header.colType) {
        var r := Insert(fb.value, v.colVal, v.offset);
        fb := Some(r.1);
        ret := if r.0 then 0 else -1;
      } else {
        ret := 0;
      }
    }

    /** `tfileWriterPut`. Unless `order` says the batch is sorted already, a
        string column is sorted by `tfileStrCompare`; other column types are
        sorted by a comparator from outside this model, so only the
        permutation is promised. Then the trailer, one block per value with
        the value's offset set to its block, and the transducer built from
        the values in array order. `builderCreated` is whether
        `fstBuilderCreate` succeeds: when it does not, the writer is closed
        and -1 returned. `sorted` is the batch in written order. */
    method Put(data: array<TFileValue>, order: bool, builderCreated: bool) returns (ret: int, ghost sorted: seq<TFileValue>)
      requires Valid() && !closed && file.index == None
      requires offset + FstOffsetSize + SumSizes(data[..]) < TWO_31
      modifies this, data
      ensures BlocksWritten(old(header), old(offset), old(file.body), old(data[..]), order, sorted, data[..], header, file.body)
      ensures offset == header.fstOffset && offset == FileEnd(file) && fb == None
      ensures file.head == old(file.head)
      ensures ret == 0 <==> builderCreated
      ensures ret == -1 <==> !builderCreated
      ensures closed <==> !builderCreated
      ensures file.index == if builderCreated then Some(FstRegion(offset, BuildFst(header.colType, data[..]))) else None
      ensures old(file) == FileImage(HeaderRegion(old(header)), [], None) && builderCreated ==>
        file == WrittenImage(old(header), data[..])
    {
      ghost var h0, file0, off0, data0 := header, file, offset, data[..];
      sorted := PutBlocks(data, order);
      ghost var h1, body1, d := header, file.body, data[..];
      if !builderCreated {
        closed := true;
        ret := -1;
        return;
      }
      fb := Some(Builder([]));
      InsertAll(data);
      file := file.(index := Some(FstRegion(offset, Finish(fb.value))));
      fb := None;
      ret := 0;
      assert header == h1 && file.body == body1 && file.head == file0.head && data[..] == d;
      if file0 == FileImage(HeaderRegion(h0), [], None) {
        FreshPutImage(h0, off0, data0, order, sorted, d, h1, file);
      }
    }

    /** The part of `tfileWriterPut` before the transducer: the sort, the
        trailer and the data pass. */
    method PutBlocks(data: array<TFileValue>, order: bool) returns (ghost sorted: seq<TFileValue>)
      requires Valid() && file.index == None
      requires offset + FstOffsetSize + SumSizes(data[..]) < TWO_31
      modifies this, data
      ensures BlocksWritten(old(header), old(offset), old(file.body), old(data[..]), order, sorted, data[..], header, file.body)
      ensures offset == header.fstOffset && offset == FileEnd(file)
      ensures file.head == old(file.head) && file.index == None
      ensures fb == old(fb) && closed == old(closed)
    {
      ghost var h0, off0, body0, data0 := header, offset, file.body, data[..];
      if !order && IsStringType(header.colType) {
        SortByStrCompare(data);
      }
      sorted := data[..];
      assert multiset(sorted) == multiset(data0) && SumSizes(sorted) == SumSizes(data0);
      var fstOffset := TotalSize(data);
      var _ := WriteFstOffset(fstOffset);
      ghost var h1, body1 := header, file.body;
      WriteBlocks(data, sorted);
      assert header == h1 && file.body == body1 + Blocks(sorted);
      PassesWritten(h0, off0, body0, data0, order, sorted, data[..], header, file.body);
    }

    /** The first pass of `tfileWriterPut`: where the transducer will start,
        before the trailer is counted, is the current offset plus the size
        of every block. */
    method TotalSize(data: array<TFileValue>) returns (fstOffset: int)
      ensures fstOffset == offset + SumSizes(data[..])
    {
      fstOffset := offset;
      var i := 0;
      while i < data.Length
        invariant 0 <= i <= data.Length
        invariant fstOffset == offset + SumSizes(data[..i])
      {
        assert data[..i + 1][..i] == data[..i];
        fstOffset := fstOffset + BlockSize(|data[i].tableId|);
        i := i + 1;
      }
      assert data[..data.Length] == data[..];
    }

    /** The data pass of `tfileWriterPut`: writes one block per value and
        sets each value's offset to its block. */
    method WriteBlocks(data: array<TFileValue>, ghost sorted: seq<TFileValue>)
      requires data[..] == sorted && offset == FileEnd(file)
      requires offset + SumSizes(sorted) < TWO_31
      modifies this, data
      ensures SameEntries(data[..], sorted) && LaidOut(data[..], old(offset))
      ensures SumSizes(data[..]) == SumSizes(sorted) && Blocks(data[..]) == Blocks(sorted)
      ensures offset == old(offset) + SumSizes(sorted) && offset == FileEnd(file)
      ensures file == old(file).(body := old(file.body) + Blocks(sorted))
      ensures header == old(header) && fb == old(fb) && closed == old(closed)
    {
      ghost var base := offset;
      ghost var body0 := file.body;
      ghost var placed: seq<TFileValue> := [];
      var i := 0;
      while i < data.Length
        invariant BlocksProgress(data[..], placed, sorted, i, base)
        invariant offset == base + SumSizes(placed) && offset == FileEnd(file)
        invariant file.head == old(file.head) && file.index == old(file.index)
        invariant file.body == body0 + Blocks(placed)
        invariant header == old(header) && fb == old(fb) && closed == old(closed)
      {
        placed := PlaceBlock(data, i, sorted, base, body0, placed);
        i := i + 1;
      }
      BlocksProgressDone(data[..], placed, sorted, i, base);
    }

    /** One turn of the data pass: appends the block of `data[i]` and sets
        that value's offset to where the block starts. */
    method PlaceBlock(data: array<TFileValue>, i: int, ghost sorted: seq<TFileValue>, ghost base: int,
                      ghost body0: seq<byte>, ghost placed: seq<TFileValue>) returns (ghost placed': seq<TFileValue>)
      requires 0 <= i < data.Length
      requires BlocksProgress(data[..], placed, sorted, i, base) && base + SumSizes(sorted) < TWO_31
      requires offset == base + SumSizes(placed) && offset == FileEnd(file)
      requires file.body == body0 + Blocks(placed)
      modifies this, data
      ensures placed' == placed + [data[i]]
      ensures BlocksProgress(data[..], placed', sorted, i + 1, base)
      ensures offset == base + SumSizes(placed') && offset == FileEnd(file)
      ensures file.body == body0 + Blocks(placed')
      ensures file.head == old(file.head) && file.index == old(file.index)
      ensures header == old(header) && fb == old(fb) && closed == old(closed)
    {
      BlocksProgressAt(data[..], placed, sorted, i, base);
      var v := data[i];
      var off := WriteBlock(v.tableId);
      var w := v.(offset := off);
      ghost var d := data[..];
      data[i] := w;
      assert data[..] == d[i := w];
      BlocksProgressStep(d, placed, sorted, i, base, w);
      Concat3(body0, Blocks(placed), EncodeBlock(w.tableId));
      placed' := placed + [w];
    }

    /** One block of the data pass: serialises `ids` into a fresh buffer,
        appends it, and answers the offset it was written at. */
    method WriteBlock(ids: IdList) returns (off: int)
      modifies this
      ensures off == old(offset) && offset == old(offset) + BlockSize(|ids|)
      ensures file == old(file).(body := old(file.body) + EncodeBlock(ids))
      ensures header == old(header) && fb == old(fb) && closed == old(closed)
    {
      var ttsz := BlockSize(|ids|);
      var buf := new byte[ttsz];
      SerialTableIdsToBuf(buf, ids);
      file := file.(body := file.body + buf[..]);
      off := offset;
      offset := offset + ttsz;
    }

    /** The insert pass of `tfileWriterPut`: `tfileWriteData` for every
        value in array order; a refused insertion is only logged. */
    method InsertAll(data: array<TFileValue>)
      requires fb == Some(Builder([]))
      modifies this
      ensures fb == Some(if IsStringType(header.colType) then Build(data[..]) else Builder([]))
      ensures header == old(header) && offset == old(offset) && file == old(file) && closed == old(closed)
    {
      var i := 0;
      while i < data.Length
        invariant 0 <= i <= data.Length
        invariant fb == Some(if IsStringType(header.colType) then Build(data[..i]) else Builder([]))
        invariant header == old(header) && offset == old(offset) && file == old(file) && closed == old(closed)
      {
        assert data[..i + 1][..i] == data[..i];
        var _ := WriteData(data[i]);
        i := i + 1;
      }
      assert data[..data.Length] == data[..];
    }
  }

  /** One more value's block, in bytes and in size. */
  lemma BlocksStep(vs: seq<TFileValue>, i: nat)
    requires i < |vs|
    ensures Blocks(vs[..i + 1]) == Blocks(vs[..i]) + EncodeBlock(vs[i].tableId)
    ensures SumSizes(vs[..i + 1]) == SumSizes(vs[..i]) + BlockSize(|vs[i].tableId|)
    ensures SumSizes(vs[..i + 1]) <= SumSizes(vs)
  {
    assert vs[..i + 1][..i] == vs[..i];
    SumSizesMonotone(vs, i + 1, |vs|);
    assert vs[..|vs|] == vs;
  }

  /** Swapping two neighbours keeps the total block size. */
  lemma SumSizesSwap(s: seq<TFileValue>, t: seq<TFileValue>, j: int)
    requires 0 < j < |s| && t == s[j - 1 := s[j]][j := s[j - 1]]
    ensures SumSizes(t) == SumSizes(s)
  {
    var p, q := s[..j - 1], s[j + 1..];
    assert s == p + [s[j - 1]] + [s[j]] + q;
    assert t == p + [s[j]] + [s[j - 1]] + q;
    SumSizesAppend(p + [s[j - 1]] + [s[j]], q);
    SumSizesAppend(p + [s[j]] + [s[j - 1]], q);
    SumSizesAppend(p + [s[j - 1]], [s[j]]);
    SumSizesAppend(p + [s[j]], [s[j - 1]]);
    SumSizesAppend(p, [s[j - 1]]);
    SumSizesAppend(p, [s[j]]);
  }

  lemma {:induction false} SumSizesAppend(a: seq<TFileValue>, b: seq<TFileValue>)
    ensures SumSizes(a + b) == SumSizes(a) + SumSizes(b)
    decreases |b|
  {
    if |b| > 0 {
      assert (a + b)[..|a + b| - 1] == a + b[..|b| - 1];
      SumSizesAppend(a, b[..|b| - 1]);
    } else {
      assert a + b == a;
    }
  }
}
