/**
  The term-file reader and its iterator (index_tfile.c, `tfileReaderCreate`,
  `tfileReaderSearch`, `tfileReaderLoadTableIds`, `tfileReaderRef`,
  `tfileReaderUnRef`, `tfileIteratorCreate`, `tfileIteratorNext`).

  A reader holds the file it was opened on, the header it loaded and the
  transducer found at the header's `fstOffset`. Its reference count starts
  at 0, since `calloc` zeroes it and the increment in `tfileReaderCreate` is
  commented out; the release that brings it to exactly 0 destroys it, and
  deletes the file when the reader was marked for removal.
 */
module TFileRead {
  import opened Bytes
  import opened CStrings
  import opened Wrappers
  import opened Fst
  import opened TFileFormat

  /** `EIndexQueryType`: only exact-term queries are answered. */
  datatype QueryType = QueryTerm | QueryPrefix | QueryOther

  /** `SIndexTerm`: the column a term belongs to and the value searched;
      the value is `nColVal` bytes, not necessarily a C string. */
  datatype IndexTerm = IndexTerm(suid: u64, colType: byte, colName: CStr, colVal: string)

  datatype IndexTermQuery = IndexTermQuery(term: IndexTerm, qType: QueryType)

  /** The `uint64_t` transducer output passed to the `int32_t` offset
      parameter of `tfileReaderLoadTableIds`: the low 32 bits, read as two's
      complement. */
  function ToI32(x: u64): (r: int)
    ensures IsI32(r)
    ensures (r - x) % TWO_32 == 0
    ensures x < TWO_31 ==> r == x
  {
    var m := x % TWO_32;
    if m >= TWO_31 then m - TWO_32 else m
  }

  /** The pieces of `DecodeIds` a loop reads one id at a time. */
  lemma DecodeIdsStep(bs: seq<byte>, i: nat)
    requires 8 * (i + 1) <= |bs|
    ensures DecodeIds(bs[..8 * (i + 1)]) == DecodeIds(bs[..8 * i]) + [DecodeU64(bs[8 * i..8 * i + 8])]
  {
    var b := bs[..8 * (i + 1)];
    assert b[..|b| - 8] == bs[..8 * i];
    assert b[|b| - 8..] == bs[8 * i..8 * i + 8];
  }

  class TFileReader {
    const ctx: FileImage
    const header: TFileHeader
    const fst: Fst
    var refCount: int
    var remove: bool
    /** Whether `tfileReaderDestroy` has run, and whether it deleted the
        file, which `writerCtxDestroy` does for a reader marked `remove`. */
    var destroyed: bool
    var fileRemoved: bool

    constructor (img: FileImage, h: TFileHeader, f: Fst)
      ensures ctx == img && header == h && fst == f
      ensures refCount == 0 && !remove && !destroyed && !fileRemoved
    {
      ctx := img;
      header := h;
      fst := f;
      refCount := 0;
      remove := false;
      destroyed := false;
      fileRemoved := false;
    }

    /** The block a transducer output points at can be loaded: what the
        assertions of `tfileReaderLoadTableIds` demand of it. */
    predicate Loadable(out: u64) {
      BlockOkAt(ctx, ToI32(out))
    }

    /** A query whose lookup either misses or lands on a loadable block. */
    predicate QueryLoadable(q: IndexTermQuery) {
      q.qType == QueryTerm && Get(fst.pairs, q.term.colVal).Some? ==> Loadable(Get(fst.pairs, q.term.colVal).value)
    }

    /** `tfileReaderRef`. */
    method Ref()
      modifies this
      ensures refCount == old(refCount) + 1
      ensures remove == old(remove) && destroyed == old(destroyed) && fileRemoved == old(fileRemoved)
    {
      refCount := refCount + 1;
    }

    /** `tfileReaderUnRef`: the release that brings the count to exactly 0
        destroys the reader, deleting the file when it is marked `remove`. */
    method UnRef()
      requires !destroyed && !fileRemoved
      modifies this
      ensures refCount == old(refCount) - 1 && remove == old(remove)
      ensures destroyed <==> refCount == 0
      ensures fileRemoved <==> refCount == 0 && remove
    {
      refCount := refCount - 1;
      if refCount == 0 {
        Destroy();
      }
    }

    /** `tfileReaderDestroy`. */
    method Destroy()
      modifies this
      ensures destroyed && fileRemoved == remove
      ensures refCount == old(refCount) && remove == old(remove)
    {
      destroyed := true;
      fileRemoved := remove;
    }

    /** `tfileReaderLoadTableIds`: reads the count at `offset`, then that
        many ids after it, appending them to `result` in order. */
    method LoadTableIds(offset: int, result: seq<u64>) returns (ret: int, out: seq<u64>)
      requires BlockOkAt(ctx, offset)
      ensures ret == 0 && out == result + BlockIds(ctx, offset)
    {
      var nid := DecodeI32(ReadAt(ctx, offset, 4));
      var total := 8 * nid;
      var buf := ReadAt(ctx, offset + 4, total);
      out := result;
      var i := 0;
      while i < nid
        invariant 0 <= i <= nid
        invariant out == result + DecodeIds(buf[..8 * i])
      {
        DecodeIdsStep(buf, i);
        out := out + [DecodeU64(buf[8 * i..8 * i + 8])];
        i := i + 1;
      }
      assert buf[..8 * nid] == buf;
      ret := 0;
    }

    /** `tfileReaderSearch`: an exact-term query whose value the transducer
        holds appends the ids of the block at its output and answers 0; a
        miss, a prefix query or any other query answers -1 and leaves
        `result` as it was. Every path releases one reference. */
    method Search(q: IndexTermQuery, result: seq<u64>) returns (ret: int, out: seq<u64>)
      requires !destroyed && !fileRemoved && QueryLoadable(q)
      modifies this
      ensures q.qType == QueryTerm && Get(fst.pairs, q.term.colVal).Some? ==>
        ret == 0 && out == result + BlockIds(ctx, ToI32(Get(fst.pairs, q.term.colVal).value))
      ensures !(q.qType == QueryTerm && Get(fst.pairs, q.term.colVal).Some?) ==> ret == -1 && out == result
      ensures refCount == old(refCount) - 1 && remove == old(remove)
      ensures destroyed <==> refCount == 0
      ensures fileRemoved <==> refCount == 0 && remove
    {
      ret := -1;
      out := result;
      if q.qType == QueryTerm {
        var hit := Get(fst.pairs, q.term.colVal);
        if hit.Some? {
          ret, out := LoadTableIds(ToI32(hit.value), result);
        }
      }
      UnRef();
    }
  }

  /** `tfileReaderCreate`: loads the header, which never fails, then the
      transducer at the header's `fstOffset`; the reader is NULL exactly
      when no transducer starts there. */
  method ReaderCreate(img: FileImage) returns (r: TFileReader?)
    ensures r == null <==> LoadFst(img, LoadHeader(img).fstOffset) == None
    ensures r != null ==> (
      && fresh(r) && r.ctx == img && r.header == LoadHeader(img)
      && Some(r.fst) == LoadFst(img, LoadHeader(img).fstOffset)
      && r.refCount == 0 && !r.remove && !r.destroyed && !r.fileRemoved)
  {
    var h := LoadHeader(img);
    var f := LoadFst(img, h.fstOffset);
    if f == None {
      return null;
    }
    r := new TFileReader(img, h, f.value);
  }

  // --------------------------------------------------------------- iterator

  /** `Iterate` over a `TFileFstIter`: the stream over every pair of the
      reader's transducer, in key order, and the current value. The stream
      position is `cursor`; `colVal == None` is a NULL `colVal`. */
  class TFileIterator {
    const rdr: TFileReader
    var cursor: nat
    var colVal: Option<CStr>
    var val: seq<u64>

    constructor (r: TFileReader)
      ensures rdr == r && cursor == 0 && colVal == None && val == []
    {
      rdr := r;
      cursor := 0;
      colVal := None;
      val := [];
    }

    /** The stream position lies within the stream, and the next pair, if
        any, points at a loadable block. */
    predicate NextLoadable()
      reads this
    {
      cursor <= |rdr.fst.pairs| && (cursor < |rdr.fst.pairs| ==> rdr.Loadable(rdr.fst.pairs[cursor].1))
    }

    /** `tfileIteratorNext`: clears the current value, takes the next pair
        from the stream and loads its block into `val` with its key as
        `colVal`; once the stream is exhausted it answers false and stays
        there. */
    method Next() returns (more: bool)
      requires NextLoadable()
      modifies this
      ensures cursor <= |rdr.fst.pairs|
      ensures more <==> old(cursor) < |rdr.fst.pairs|
      ensures more ==> (
        && cursor == old(cursor) + 1
        && colVal == Some(rdr.fst.pairs[old(cursor)].0)
        && val == BlockIds(rdr.ctx, ToI32(rdr.fst.pairs[old(cursor)].1)))
      ensures !more ==> cursor == old(cursor) && colVal == None && val == []
    {
      var k := cursor;
      colVal := None;
      val := [];
      if k == |rdr.fst.pairs| {
        return false;
      }
      var (key, offset) := rdr.fst.pairs[k];
      var ret, ids := rdr.LoadTableIds(ToI32(offset), val);
      cursor := k + 1;
      val := ids;
      colVal := Some(key);
      more := true;
    }
  }

  /** `tfileIteratorCreate`: NULL for a NULL reader, otherwise a stream
      positioned before the first pair. */
  method IteratorCreate(r: TFileReader?) returns (it: TFileIterator?)
    ensures r == null ==> it == null
    ensures r != null ==> it != null && fresh(it) && it.rdr == r && it.cursor == 0 && it.colVal == None && it.val == []
  {
    if r == null {
      return null;
    }
    it := new TFileIterator(r);
  }

  // -------------------------------------------------- written, then read

  /** Reading back a sorted string column: after `tfileWriterPut` has
      sorted and written `vs` on a fresh file, the reader opened on that
      file finds its transducer, every value's first occurrence leads to
      that value's own ids, and a value written nowhere is a miss. */
  lemma WrittenFileSearch(h: TFileHeader, vs: seq<TFileValue>, key: string)
    requires HeaderNoFstSize + FstOffsetSize + SumSizes(vs) < TWO_31
    requires LaidOut(vs, HeaderNoFstSize + FstOffsetSize)
    requires IsStringType(h.colType) && NonDecreasing(vs)
    ensures var img := WrittenImage(h, vs);
      && LoadFst(img, LoadHeader(img).fstOffset) == Some(BuildFst(h.colType, vs))
      && (forall i :: 0 <= i < |vs| ==> vs[i].offset < TWO_31)
      && (forall i :: 0 <= i < |vs| && FirstOfKey(vs, i) ==>
            && Get(BuildFst(h.colType, vs).pairs, vs[i].colVal) == Some(vs[i].offset)
            && BlockOkAt(img, ToI32(vs[i].offset))
            && BlockIds(img, ToI32(vs[i].offset)) == vs[i].tableId)
      && ((forall i :: 0 <= i < |vs| ==> vs[i].colVal != key) ==> Get(BuildFst(h.colType, vs).pairs, key) == None)
  {
    OpenWrittenImage(h, vs);
    BuildNonDecreasing(vs);
    forall i | 0 <= i < |vs| ensures vs[i].offset < TWO_31 {
      WrittenOffsetBound(vs, i);
    }
    if forall i :: 0 <= i < |vs| ==> vs[i].colVal != key {
      forall k | 0 <= k < |Build(vs).pairs| ensures Build(vs).pairs[k].0 != key {
        BuildFromValues(vs, k);
      }
    }
  }

  /** Every block of a laid-out batch starts below the transducer offset. */
  lemma WrittenOffsetBound(vs: seq<TFileValue>, i: nat)
    requires i < |vs| && LaidOut(vs, HeaderNoFstSize + FstOffsetSize)
    requires HeaderNoFstSize + FstOffsetSize + SumSizes(vs) < TWO_31
    ensures vs[i].offset < TWO_31
  {
    BlocksSplit(vs, i);
  }

  /** Iterating a written string column yields only pairs that come from the
      written values, each leading to that value's ids, in strictly
      ascending key order. */
  lemma WrittenFileStream(h: TFileHeader, vs: seq<TFileValue>)
    requires HeaderNoFstSize + FstOffsetSize + SumSizes(vs) < TWO_31
    requires LaidOut(vs, HeaderNoFstSize + FstOffsetSize)
    ensures var img := WrittenImage(h, vs);
      var pairs := BuildFst(h.colType, vs).pairs;
      && StrictlySorted(pairs)
      && forall k :: 0 <= k < |pairs| ==> exists i :: (
           && 0 <= i < |vs| && pairs[k] == (vs[i].colVal, vs[i].offset)
           && BlockOkAt(img, ToI32(pairs[k].1)) && BlockIds(img, ToI32(pairs[k].1)) == vs[i].tableId)
  {
    var img := WrittenImage(h, vs);
    var pairs := BuildFst(h.colType, vs).pairs;
    OpenWrittenImage(h, vs);
    forall k | 0 <= k < |pairs| ensures exists i :: (
      && 0 <= i < |vs| && pairs[k] == (vs[i].colVal, vs[i].offset)
      && BlockOkAt(img, ToI32(pairs[k].1)) && BlockIds(img, ToI32(pairs[k].1)) == vs[i].tableId)
    {
      BuildFromValues(vs, k);
      var i :| 0 <= i < |vs| && pairs[k] == (vs[i].colVal, vs[i].offset);
      WrittenOffsetBound(vs, i);
    }
  }
}
