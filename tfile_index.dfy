/**
  The public face of the term-file index (index_tfile.c, `indexTFileCreate`,
  `indexTFileDestroy`, `indexTFileSearch`, `tfileGetReaderByCol`): a handle
  on the reader cache, and the searches that go through it.
 */
module TFileIndex {
  import opened Bytes
  import opened CStrings
  import opened Fst
  import opened TFileFormat
  import opened TFileRead
  import opened ReaderCache

  /** The cache key a query term is looked up under. */
  function TermKey(t: IndexTerm): (k: CacheKey)
    ensures k.suid == t.suid && k.colName == t.colName && k.colType == t.colType
  {
    CacheKey(t.suid, t.colName, t.colType)
  }

  /** `IndexTFile`: the cache is NULL when `tfileCacheCreate` failed. */
  class IndexTFile {
    const cache: TFileCache?

    constructor (c: TFileCache?)
      ensures cache == c
    {
      cache := c;
    }
  }

  /** `indexTFileCreate`: the handle on whatever cache the directory scan
      produced, NULL included. */
  method IndexTFileCreate(files: seq<string>, disk: map<string, FileImage>) returns (tf: IndexTFile)
    requires AllOpen(files, disk)
    ensures fresh(tf)
    ensures tf.cache == null <==> exists i :: 0 <= i < |files| && Missing(files[i], disk)
    ensures tf.cache != null ==> fresh(tf.cache) && tf.cache.Valid() && BuiltFor(tf.cache.table, Registered(files, disk))
  {
    var c := CacheCreate(files, disk);
    tf := new IndexTFile(c);
  }

  /** `indexTFileDestroy`: `tfileCacheDestroy` does nothing on a NULL
      cache and otherwise releases every reference the cache holds. */
  method IndexTFileDestroy(tf: IndexTFile)
    requires tf.cache != null ==> tf.cache.Valid()
    modifies if tf.cache != null then {tf.cache} + tf.cache.table.Values else {}
    ensures tf.cache != null ==> tf.cache.table == map[]
    ensures tf.cache != null ==> forall r :: r in old(tf.cache.table).Values ==> (
      && r.refCount == old(r.refCount) - |Holders(old(tf.cache.table), r)|
      && (r.destroyed <==> r.refCount == 0))
  {
    if tf.cache != null {
      tf.cache.Destroy();
    }
  }

  /** The reader a term is looked up in, if the cache holds one. */
  function ReaderOf(c: TFileCache, t: IndexTerm): (r: TFileReader?)
    reads c
    ensures r != null <==> TermKey(t) in c.table
    ensures r != null ==> r == c.table[TermKey(t)]
  {
    if TermKey(t) in c.table then c.table[TermKey(t)] else null
  }

  /** `indexTFileSearch`. With no handle the answer is -1; when the cache
      has no reader for the term's column the answer is 0 and `result` is
      untouched; otherwise the column's reader answers, and the reference
      taken on it for the search is released afterwards. */
  method IndexTFileSearch(tfile: IndexTFile?, q: IndexTermQuery, result: seq<u64>) returns (ret: int, out: seq<u64>)
    requires tfile != null ==> tfile.cache != null && tfile.cache.Valid()
    requires tfile != null && ReaderOf(tfile.cache, q.term) != null ==> ReaderOf(tfile.cache, q.term).QueryLoadable(q)
    modifies if tfile != null && ReaderOf(tfile.cache, q.term) != null then {ReaderOf(tfile.cache, q.term)} else {}
    ensures tfile == null ==> ret == -1 && out == result
    ensures tfile != null ==> tfile.cache.table == old(tfile.cache.table) && tfile.cache.Valid()
    ensures tfile != null && ReaderOf(tfile.cache, q.term) == null ==> ret == 0 && out == result
    ensures tfile != null && ReaderOf(tfile.cache, q.term) != null ==>
      var r := ReaderOf(tfile.cache, q.term);
      && r.refCount == old(r.refCount) && r.remove == old(r.remove) && !r.destroyed
      && (q.qType == QueryTerm && Get(r.fst.pairs, q.term.colVal).Some? ==>
            ret == 0 && out == result + BlockIds(r.ctx, ToI32(Get(r.fst.pairs, q.term.colVal).value)))
      && (!(q.qType == QueryTerm && Get(r.fst.pairs, q.term.colVal).Some?) ==> ret == -1 && out == result)
  {
    if tfile == null {
      return -1, result;
    }
    var key := TermKey(q.term);
    if key in tfile.cache.table {
      assert key in Holders(tfile.cache.table, tfile.cache.table[key]);
    }
    var reader := tfile.cache.Get(key);
    if reader == null {
      return 0, result;
    }
    ret, out := reader.Search(q, result);
  }

  /** `tfileGetReaderByCol`: the reader of a binary column, with one more
      reference, or NULL. */
  method GetReaderByCol(tf: IndexTFile?, suid: u64, colName: CStr) returns (r: TFileReader?)
    requires tf != null ==> tf.cache != null && tf.cache.Valid()
    modifies if tf != null && CacheKey(suid, colName, TypeBinary) in tf.cache.table
      then {tf.cache.table[CacheKey(suid, colName, TypeBinary)]} else {}
    ensures tf == null ==> r == null
    ensures tf != null ==> tf.cache.table == old(tf.cache.table) && tf.cache.Valid()
    ensures tf != null ==> (r == null <==> CacheKey(suid, colName, TypeBinary) !in tf.cache.table)
    ensures r != null ==> (
      && r == tf.cache.table[CacheKey(suid, colName, TypeBinary)]
      && r.refCount == old(r.refCount) + 1 && !r.destroyed)
  {
    if tf == null {
      return null;
    }
    r := tf.cache.Get(CacheKey(suid, colName, TypeBinary));
  }
}
