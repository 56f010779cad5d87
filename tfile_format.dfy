/**
  The term file's layout (index_tfile.c): header, a 4-byte trailer holding
  the offset of the transducer, one table-id block per column value, then
  the transducer itself.

    | header (HeaderNoFstSize bytes) | fstOffset: int32 | blocks ... | FST ... |

  A block is `count: int32` followed by `count` table ids of 8 bytes each.
  The header is copied to and from the `TFileHeader` struct with `memcpy`;
  that struct is declared in index_tfile.h, which is not part of this model,
  so the header region is kept as a record of fixed but unspecified size and
  everything below holds for every such size. The transducer's bytes belong
  to the external engine and are kept as the `FstRegion` a finished builder
  left at its starting offset.
 */
module TFileFormat {
  import opened Bytes
  import opened CStrings
  import opened Fst
  import opened Wrappers

  /** `TFILE_HEADER_NO_FST`: the header struct without its `fstOffset`. */
  const HeaderNoFstSize: nat

  /** `sizeof(fstOffset)`, the trailer that completes the header struct. */
  const FstOffsetSize: nat := 4

  /** `sizeof(int32_t)`, the id count at the head of a table-id block. */
  const CountSize: nat := 4

  /** `TSDB_DATA_TYPE_BINARY` and `TSDB_DATA_TYPE_NCHAR` (taosdef.h). */
  const TypeBinary: byte := 8
  const TypeNChar: byte := 10

  /** The column types whose values are strings: the only ones the term
      file indexes in its transducer. */
  predicate IsStringType(colType: byte) {
    colType == TypeBinary || colType == TypeNChar
  }

  datatype TFileHeader = TFileHeader(suid: u64, version: int, colName: CStr, colType: byte, fstOffset: int)

  /** The part of a header the writer copies into the header region; its
      `fstOffset` is not part of the region. */
  function HeaderRegion(h: TFileHeader): TFileHeader {
    h.(fstOffset := 0)
  }

  datatype FstRegion = FstRegion(start: nat, fst: Fst)

  /** A term file's contents: the header region, the bytes after it, and the
      transducer a finished builder appended, if any. */
  datatype FileImage = FileImage(head: TFileHeader, body: seq<byte>, index: Option<FstRegion>)

  /** The absolute offset of the next byte written, before any transducer. */
  function FileEnd(img: FileImage): nat {
    HeaderNoFstSize + |img.body|
  }

  /** `readFrom(ctx, buf, n, off)` past the header: up to `n` bytes, fewer at
      the end of the file. */
  function ReadAt(img: FileImage, off: int, n: nat): (bs: seq<byte>)
    requires off >= HeaderNoFstSize
    ensures |bs| <= n
  {
    var p := off - HeaderNoFstSize;
    var lo := if p < |img.body| then p else |img.body|;
    var hi := if p + n < |img.body| then p + n else |img.body|;
    img.body[lo..hi]
  }

  /** The rest of a zero-initialised buffer of `n` bytes after a short read. */
  function ZeroPad(bs: seq<byte>, n: nat): (r: seq<byte>)
    requires |bs| <= n
    ensures |r| == n && r[..|bs|] == bs
  {
    bs + seq(n - |bs|, _ => 0)
  }

  /** `tfileReaderLoadHeader`: copies whatever the read returned into the
      header, the trailer supplying `fstOffset`; it never fails, and a file
      too short to hold the trailer reads as offset 0. */
  function LoadHeader(img: FileImage): TFileHeader {
    img.head.(fstOffset := DecodeI32(ZeroPad(ReadAt(img, HeaderNoFstSize, FstOffsetSize), FstOffsetSize)))
  }

  /** `tfileReaderLoadFst`: `fstCreate` over the bytes from `fstOffset` to
      the end of the file succeeds exactly when a builder finished its
      transducer at that offset. */
  function LoadFst(img: FileImage, fstOffset: int): Option<Fst> {
    match img.index
    case Some(r) => if r.start == fstOffset then Some(r.fst) else None
    case None => None
  }

  // ------------------------------------------------------------ id blocks

  /** A table-id list whose length an `int32_t` count can hold. */
  type IdList = ids: seq<u64> | |ids| < TWO_31

  /** `TF_TABLE_TATOAL_SIZE(n)`: the count field plus `n` 8-byte ids. */
  function BlockSize(n: nat): nat {
    CountSize + n * 8
  }

  function EncodeIds(ids: seq<u64>): (bs: seq<byte>)
    ensures |bs| == 8 * |ids|
  {
    if |ids| == 0 then [] else EncodeIds(ids[..|ids| - 1]) + EncodeU64(ids[|ids| - 1])
  }

  function DecodeIds(bs: seq<byte>): seq<u64>
    requires |bs| % 8 == 0
  {
    if |bs| == 0 then [] else DecodeIds(bs[..|bs| - 8]) + [DecodeU64(bs[|bs| - 8..])]
  }

  /** The serialised form of one table-id list, as `tfileSerialTableIdsToBuf`
      lays it out. */
  function EncodeBlock(ids: IdList): (bs: seq<byte>)
    ensures |bs| == BlockSize(|ids|)
  {
    EncodeI32(|ids|) + EncodeIds(ids)
  }

  /** The count stored at absolute offset `off`. */
  function CountAt(img: FileImage, off: int): int
    requires off >= HeaderNoFstSize && off - HeaderNoFstSize + CountSize <= |img.body|
  {
    var p := off - HeaderNoFstSize;
    DecodeI32(img.body[p..p + CountSize])
  }

  /** What `tfileReaderLoadTableIds` asserts of the block at `off`: both of
      its reads return in full, the count is not negative, and its `int32`
      arithmetic does not overflow. */
  predicate BlockOkAt(img: FileImage, off: int) {
    && off >= HeaderNoFstSize
    && off - HeaderNoFstSize + CountSize <= |img.body|
    && 0 <= CountAt(img, off)
    && off - HeaderNoFstSize + BlockSize(CountAt(img, off)) <= |img.body|
    && off + BlockSize(CountAt(img, off)) < TWO_31
  }

  /** The ids of the block at `off`. */
  function BlockIds(img: FileImage, off: int): seq<u64>
    requires BlockOkAt(img, off)
  {
    var p := off - HeaderNoFstSize + CountSize;
    DecodeIds(img.body[p..p + 8 * CountAt(img, off)])
  }

  lemma {:induction false} DecodeEncodeIds(ids: seq<u64>)
    ensures DecodeIds(EncodeIds(ids)) == ids
  {
    if |ids| > 0 {
      var init, last := ids[..|ids| - 1], ids[|ids| - 1];
      var a, b := EncodeIds(init), EncodeU64(last);
      assert EncodeIds(ids) == a + b;
      SplitAt(a, b);
      assert DecodeIds(a + b) == DecodeIds(a) + [DecodeU64(b)];
      DecodeEncodeIds(init);
      DecodeEncodeU64(last);
      assert init + [last] == ids;
    }
  }

  /** Block round trip: a block written at `off` reads back as the same ids,
      in the same order. */
  lemma BlockRoundTrip(img: FileImage, off: int, pre: seq<byte>, ids: IdList, post: seq<byte>)
    requires img.body == pre + EncodeBlock(ids) + post
    requires off == HeaderNoFstSize + |pre|
    requires off + BlockSize(|ids|) < TWO_31
    ensures BlockOkAt(img, off)
    ensures CountAt(img, off) == |ids|
    ensures BlockIds(img, off) == ids
  {
    var p := |pre|;
    assert img.body[p..p + 4] == EncodeI32(|ids|);
    DecodeEncodeI32(|ids|);
    assert img.body[p + 4..p + 4 + 8 * |ids|] == EncodeIds(ids);
    DecodeEncodeIds(ids);
  }

  // --------------------------------------------------------- write layout

  /** `TFileValue`: a column value, its table ids, and the offset of its
      block once written. */
  datatype TFileValue = TFileValue(colVal: CStr, tableId: IdList, offset: u64)

  /** The bytes that all blocks of `vs` take. */
  function SumSizes(vs: seq<TFileValue>): nat {
    if |vs| == 0 then 0 else SumSizes(vs[..|vs| - 1]) + BlockSize(|vs[|vs| - 1].tableId|)
  }

  /** The blocks of `vs`, one after another. */
  function Blocks(vs: seq<TFileValue>): seq<byte> {
    if |vs| == 0 then [] else Blocks(vs[..|vs| - 1]) + EncodeBlock(vs[|vs| - 1].tableId)
  }

  /** Each value's offset is `base` plus the sizes of the blocks before it. */
  predicate LaidOut(vs: seq<TFileValue>, base: int) {
    forall i :: 0 <= i < |vs| ==> vs[i].offset == base + SumSizes(vs[..i])
  }

  lemma {:induction false} BlocksLength(vs: seq<TFileValue>)
    ensures |Blocks(vs)| == SumSizes(vs)
  {
    if |vs| > 0 {
      BlocksLength(vs[..|vs| - 1]);
    }
  }

  lemma {:induction false} BlocksAppend(a: seq<TFileValue>, b: seq<TFileValue>)
    ensures Blocks(a + b) == Blocks(a) + Blocks(b)
    ensures SumSizes(a + b) == SumSizes(a) + SumSizes(b)
    decreases |b|
  {
    if |b| > 0 {
      var b' := b[..|b| - 1];
      assert (a + b)[..|a + b| - 1] == a + b';
      BlocksAppend(a, b');
      Concat3(Blocks(a), Blocks(b'), EncodeBlock(b[|b| - 1].tableId));
    } else {
      assert a + b == a;
    }
  }

  lemma {:induction false} SumSizesMonotone(vs: seq<TFileValue>, i: nat, j: nat)
    requires i <= j <= |vs|
    ensures SumSizes(vs[..i]) + (j - i) * 4 <= SumSizes(vs[..j])
    decreases j - i
  {
    if i < j {
      SumSizesMonotone(vs, i, j - 1);
      assert vs[..j][..j - 1] == vs[..j - 1];
    }
  }

  /** Blocks laid out from `base` start at strictly increasing offsets and
      never overlap: each ends at or before the next one starts. */
  lemma OffsetsIncrease(vs: seq<TFileValue>, base: int, i: nat, j: nat)
    requires LaidOut(vs, base)
    requires i < j < |vs|
    ensures vs[i].offset + BlockSize(|vs[i].tableId|) <= vs[j].offset
    ensures vs[i].offset < vs[j].offset
  {
    assert vs[..i + 1][..i] == vs[..i];
    SumSizesMonotone(vs, i + 1, j);
  }

  // ------------------------------------------------------ transducer build

  /** The builder after `tfileWriteData` has inserted every value of `vs`
      in array order, refused insertions included. */
  function Build(vs: seq<TFileValue>): (b: Builder)
    ensures StrictlySorted(b.pairs)
  {
    if |vs| == 0 then Builder([])
    else
      var prev := Build(vs[..|vs| - 1]);
      InsertKeepsSorted(prev, vs[|vs| - 1].colVal, vs[|vs| - 1].offset);
      Insert(prev, vs[|vs| - 1].colVal, vs[|vs| - 1].offset).1
  }

  /** The transducer `tfileWriterPut` finishes: string columns insert every
      value, other column types insert nothing. */
  function BuildFst(colType: byte, vs: seq<TFileValue>): (f: Fst)
    ensures StrictlySorted(f.pairs)
    ensures !IsStringType(colType) ==> f.pairs == []
  {
    if IsStringType(colType) then Finish(Build(vs)) else Finish(Builder([]))
  }

  /** Every value's key sorts after the previous one. */
  predicate StrictlyAscending(vs: seq<TFileValue>) {
    forall i, j :: 0 <= i < j < |vs| ==> LexLess(vs[i].colVal, vs[j].colVal)
  }

  /** Nondecreasing under `tfileStrCompare`: what sorting produces. */
  predicate NonDecreasing(vs: seq<TFileValue>) {
    forall i, j :: 0 <= i < j < |vs| ==> StrCompare(vs[i].colVal, vs[j].colVal) <= 0
  }

  /** No earlier value has the same key as `vs[i]`. */
  predicate FirstOfKey(vs: seq<TFileValue>, i: nat)
    requires i < |vs|
  {
    forall j :: 0 <= j < i ==> vs[j].colVal != vs[i].colVal
  }

  /** Every pair in the builder comes from one of the values. */
  lemma {:induction false} BuildFromValues(vs: seq<TFileValue>, k: nat)
    requires k < |Build(vs).pairs|
    ensures exists i :: 0 <= i < |vs| && Build(vs).pairs[k] == (vs[i].colVal, vs[i].offset)
  {
    var prev := vs[..|vs| - 1];
    var b := Build(prev);
    if k < |b.pairs| {
      BuildFromValues(prev, k);
      var i :| 0 <= i < |prev| && b.pairs[k] == (prev[i].colVal, prev[i].offset);
      assert vs[i] == prev[i];
    } else {
      assert Build(vs).pairs[k] == (vs[|vs| - 1].colVal, vs[|vs| - 1].offset);
    }
  }

  /** With distinct keys in ascending order every insertion is accepted. */
  lemma {:induction false} BuildStrictlyAscending(vs: seq<TFileValue>)
    requires StrictlyAscending(vs)
    ensures |Build(vs).pairs| == |vs|
    ensures forall i :: 0 <= i < |vs| ==> Build(vs).pairs[i] == (vs[i].colVal, vs[i].offset)
  {
    if |vs| > 0 {
      var prev := vs[..|vs| - 1];
      BuildStrictlyAscending(prev);
      if |prev| > 0 {
        assert Build(prev).pairs[|prev| - 1].0 == vs[|vs| - 2].colVal;
      }
    }
  }

  /** After a sort, every key is found in the transducer, with the offset of
      its first occurrence; later duplicates are refused by the builder and
      their blocks are never reachable. */
  lemma {:induction false} BuildNonDecreasing(vs: seq<TFileValue>)
    requires NonDecreasing(vs)
    ensures |vs| > 0 ==> |Build(vs).pairs| > 0 && Build(vs).pairs[|Build(vs).pairs| - 1].0 == vs[|vs| - 1].colVal
    ensures forall i :: 0 <= i < |vs| && FirstOfKey(vs, i) ==> Get(Build(vs).pairs, vs[i].colVal) == Some(vs[i].offset)
  {
    if |vs| == 1 {
      assert Build(vs).pairs == [(vs[0].colVal, vs[0].offset)];
    } else if |vs| > 1 {
      var n := |vs|;
      var prev := vs[..n - 1];
      NonDecreasingPrefix(vs, prev);
      BuildNonDecreasing(prev);
      BuildLastStep(vs, prev);
      forall i | 0 <= i < n && FirstOfKey(vs, i)
        ensures Get(Build(vs).pairs, vs[i].colVal) == Some(vs[i].offset)
      {
        if i < n - 1 {
          FirstOfKeyPrefix(vs, prev, i);
          assert Get(Build(prev).pairs, prev[i].colVal) == Some(prev[i].offset);
        }
      }
    }
  }

  lemma NonDecreasingPrefix(vs: seq<TFileValue>, prev: seq<TFileValue>)
    requires |vs| >= 2 && prev == vs[..|vs| - 1] && NonDecreasing(vs)
    ensures NonDecreasing(prev)
    ensures StrCompare(vs[|vs| - 2].colVal, vs[|vs| - 1].colVal) <= 0
  {
    forall i, j | 0 <= i < j < |prev| ensures StrCompare(prev[i].colVal, prev[j].colVal) <= 0 {
      assert prev[i] == vs[i] && prev[j] == vs[j];
    }
  }

  /** One insertion after a sort: the last key becomes the new value's key,
      every key found before is still found with the same output, and a new
      key is found with the new value's offset. */
  lemma BuildLastStep(vs: seq<TFileValue>, prev: seq<TFileValue>)
    requires |vs| >= 2 && prev == vs[..|vs| - 1]
    requires |Build(prev).pairs| > 0 && Build(prev).pairs[|Build(prev).pairs| - 1].0 == vs[|vs| - 2].colVal
    requires StrCompare(vs[|vs| - 2].colVal, vs[|vs| - 1].colVal) <= 0
    ensures |Build(vs).pairs| > 0 && Build(vs).pairs[|Build(vs).pairs| - 1].0 == vs[|vs| - 1].colVal
    ensures forall key :: Get(Build(prev).pairs, key).Some? ==> Get(Build(vs).pairs, key) == Get(Build(prev).pairs, key)
    ensures FirstOfKey(vs, |vs| - 1) ==> Get(Build(vs).pairs, vs[|vs| - 1].colVal) == Some(vs[|vs| - 1].offset)
  {
    var n := |vs|;
    StrCompareIsLex(vs[n - 2].colVal, vs[n - 1].colVal);
    if vs[n - 2].colVal == vs[n - 1].colVal {
      assert !FirstOfKey(vs, n - 1) by {
        assert vs[n - 2].colVal == vs[n - 1].colVal;
      }
      BuildRefused(vs, prev);
    } else {
      BuildAccepted(vs, prev);
    }
  }

  /** The last value repeats the key accepted last: the builder refuses it. */
  lemma BuildRefused(vs: seq<TFileValue>, prev: seq<TFileValue>)
    requires |vs| >= 1 && prev == vs[..|vs| - 1]
    requires |Build(prev).pairs| > 0 && Build(prev).pairs[|Build(prev).pairs| - 1].0 == vs[|vs| - 1].colVal
    ensures Build(vs) == Build(prev)
  {
    LexLessIrreflexive(vs[|vs| - 1].colVal);
  }

  /** The last value's key sorts after every accepted key: the builder
      accepts it, and no earlier pair carries that key. */
  lemma BuildAccepted(vs: seq<TFileValue>, prev: seq<TFileValue>)
    requires |vs| >= 1 && prev == vs[..|vs| - 1]
    requires |Build(prev).pairs| > 0 && LexLess(Build(prev).pairs[|Build(prev).pairs| - 1].0, vs[|vs| - 1].colVal)
    ensures Build(vs).pairs == Build(prev).pairs + [(vs[|vs| - 1].colVal, vs[|vs| - 1].offset)]
    ensures Get(Build(vs).pairs, vs[|vs| - 1].colVal) == Some(vs[|vs| - 1].offset)
    ensures forall key :: Get(Build(prev).pairs, key).Some? ==> Get(Build(vs).pairs, key) == Get(Build(prev).pairs, key)
  {
    var b := Build(prev);
    var p := (vs[|vs| - 1].colVal, vs[|vs| - 1].offset);
    NewKeyAbsent(b.pairs, p.0);
    GetAppend(b.pairs, p, p.0);
    forall key | Get(b.pairs, key).Some? ensures Get(b.pairs + [p], key) == Get(b.pairs, key) {
      GetAppend(b.pairs, p, key);
    }
  }

  lemma FirstOfKeyPrefix(vs: seq<TFileValue>, prev: seq<TFileValue>, i: nat)
    requires |vs| > 0 && prev == vs[..|vs| - 1]
    requires i < |vs| - 1 && FirstOfKey(vs, i)
    ensures prev[i] == vs[i] && FirstOfKey(prev, i)
  {
    forall j | 0 <= j < i ensures prev[j].colVal != prev[i].colVal { assert prev[j] == vs[j]; }
  }

  /** A key greater than the last key of a sorted builder is not in it. */
  lemma NewKeyAbsent(pairs: seq<Pair>, key: CStr)
    requires StrictlySorted(pairs) && |pairs| > 0 && LexLess(pairs[|pairs| - 1].0, key)
    ensures Get(pairs, key) == None
  {
    var last := pairs[|pairs| - 1].0;
    forall k | 0 <= k < |pairs| ensures pairs[k].0 != key {
      if k < |pairs| - 1 {
        LexLessTransitive(pairs[k].0, last, key);
      }
      LexLessIrreflexive(key);
    }
  }

  lemma GetAppend(pairs: seq<Pair>, p: Pair, key: CStr)
    ensures Get(pairs + [p], key) == if Get(pairs, key).Some? then Get(pairs, key)
                                     else if p.0 == key then Some(p.1) else None
  {
    if |pairs| > 0 {
      assert (pairs + [p])[1..] == pairs[1..] + [p];
      GetAppend(pairs[1..], p, key);
    }
  }

  // ------------------------------------------------------ the whole file

  /** The file a writer leaves after a successful `tfileWriterPut` of `vs`
      on a freshly created file with header `h`. */
  function WrittenImage(h: TFileHeader, vs: seq<TFileValue>): FileImage
    requires IsI32(HeaderNoFstSize + FstOffsetSize + SumSizes(vs))
  {
    var fstOffset := HeaderNoFstSize + FstOffsetSize + SumSizes(vs);
    FileImage(HeaderRegion(h), EncodeI32(fstOffset) + Blocks(vs),
              Some(FstRegion(fstOffset, BuildFst(h.colType, vs))))
  }

  /** Opening a written file recovers its header with the transducer offset
      from the trailer, finds the transducer there, and finds each value's
      ids in the block at that value's offset. */
  lemma OpenWrittenImage(h: TFileHeader, vs: seq<TFileValue>)
    requires HeaderNoFstSize + FstOffsetSize + SumSizes(vs) < TWO_31
    requires LaidOut(vs, HeaderNoFstSize + FstOffsetSize)
    ensures var img := WrittenImage(h, vs);
      && LoadHeader(img) == h.(fstOffset := HeaderNoFstSize + FstOffsetSize + SumSizes(vs))
      && FileEnd(img) == LoadHeader(img).fstOffset
      && LoadFst(img, LoadHeader(img).fstOffset) == Some(BuildFst(h.colType, vs))
      && forall i :: 0 <= i < |vs| ==> BlockOkAt(img, vs[i].offset) && BlockIds(img, vs[i].offset) == vs[i].tableId
  {
    var fstOffset := HeaderNoFstSize + FstOffsetSize + SumSizes(vs);
    var img := WrittenImage(h, vs);
    var lead := EncodeI32(fstOffset);
    BlocksLength(vs);
    DecodeEncodeI32(fstOffset);
    Slice2(lead, Blocks(vs));
    assert ReadAt(img, HeaderNoFstSize, FstOffsetSize) == lead;
    ZeroPadFull(lead);
    forall i | 0 <= i < |vs|
      ensures BlockOkAt(img, vs[i].offset) && BlockIds(img, vs[i].offset) == vs[i].tableId
    {
      WrittenBlockAt(img, lead, vs, i);
    }
  }

  /** The blocks of `vs` split around the block of `vs[i]`. */
  lemma BlocksSplit(vs: seq<TFileValue>, i: nat)
    requires i < |vs|
    ensures Blocks(vs) == Blocks(vs[..i]) + EncodeBlock(vs[i].tableId) + Blocks(vs[i + 1..])
    ensures |Blocks(vs[..i])| == SumSizes(vs[..i])
    ensures SumSizes(vs) == SumSizes(vs[..i]) + BlockSize(|vs[i].tableId|) + SumSizes(vs[i + 1..])
  {
    var a, b := vs[..i + 1], vs[i + 1..];
    assert vs == a + b;
    assert a[..i] == vs[..i] && a[i] == vs[i];
    BlocksAppend(a, b);
    BlocksLength(vs[..i]);
  }

  /** The block of `vs[i]` within blocks laid out after a prefix `lead`. */
  lemma WrittenBlockAt(img: FileImage, lead: seq<byte>, vs: seq<TFileValue>, i: nat)
    requires i < |vs|
    requires img.body == lead + Blocks(vs)
    requires vs[i].offset == HeaderNoFstSize + |lead| + SumSizes(vs[..i])
    requires HeaderNoFstSize + |lead| + SumSizes(vs) < TWO_31
    ensures BlockOkAt(img, vs[i].offset) && BlockIds(img, vs[i].offset) == vs[i].tableId
  {
    BlocksSplit(vs, i);
    var a, b, c := Blocks(vs[..i]), EncodeBlock(vs[i].tableId), Blocks(vs[i + 1..]);
    Concat4(lead, a, b, c);
    BlockRoundTrip(img, vs[i].offset, lead + a, vs[i].tableId, c);
  }

  lemma Concat3<T>(a: seq<T>, b: seq<T>, c: seq<T>)
    ensures a + (b + c) == a + b + c
  {
  }

  lemma Concat4<T>(a: seq<T>, b: seq<T>, c: seq<T>, d: seq<T>)
    ensures a + (b + c + d) == (a + b) + c + d
  {
  }

  lemma Slice2<T>(a: seq<T>, b: seq<T>)
    ensures (a + b)[0..|a|] == a
  {
  }

  lemma SplitAt<T>(a: seq<T>, b: seq<T>)
    ensures (a + b)[..|a|] == a && (a + b)[|a|..] == b
  {
  }

  lemma ZeroPadFull(bs: seq<byte>)
    ensures ZeroPad(bs, |bs|) == bs
  {
  }
}
