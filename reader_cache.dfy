/**
  The reader cache (index_tfile.c, `tfileCacheCreate`, `tfileCacheDestroy`,
  `tfileCacheGet`, `tfileCachePut`): a map from a column's identity to the
  shared reader of its current term file.

  The hash map keyed by `indexSerialCacheKey` is modelled as a map keyed by
  the tuple the serialisation is made from. Each key the cache holds a
  reader under stands for one reference the cache owns, so a registered
  reader's count is at least the number of keys that hold it, and a
  registered reader is never destroyed.
 */
module ReaderCache {
  import opened Bytes
  import opened CStrings
  import opened Wrappers
  import opened TFileFormat
  import opened TFileRead
  import opened FileNames

  /** `ICacheKey`: the suid, column name and column type a term file
      indexes, whatever its version. */
  datatype CacheKey = CacheKey(suid: u64, colName: CStr, colType: byte)

  /** The key `tfileCacheCreate` files a reader under: built from the
      header the reader loaded, not from the parsed file name. */
  function HeaderKey(h: TFileHeader): CacheKey {
    CacheKey(h.suid, h.colName, h.colType)
  }

  /** The keys under which `t` holds `r`. */
  function Holders(t: map<CacheKey, TFileReader>, r: TFileReader): set<CacheKey> {
    set k | k in t && t[k] == r
  }

  /** Replacing the entry of `key` moves one holding from the reader there
      to `v`. */
  lemma HoldersUpdate(t: map<CacheKey, TFileReader>, key: CacheKey, v: TFileReader)
    ensures forall r :: (|Holders(t[key := v], r)|
      == |Holders(t, r)| - (if key in t && t[key] == r then 1 else 0) + (if v == r then 1 else 0))
  {
    forall r ensures |Holders(t[key := v], r)|
      == |Holders(t, r)| - (if key in t && t[key] == r then 1 else 0) + (if v == r then 1 else 0)
    {
      var base := Holders(t, r) - {key};
      assert Holders(t[key := v], r) == if v == r then base + {key} else base;
      if key in t && t[key] == r {
        assert Holders(t, r) == base + {key};
      } else {
        assert Holders(t, r) == base;
      }
    }
  }

  /** Dropping the entry of `key` drops one holding of the reader there. */
  lemma HoldersRemove(t: map<CacheKey, TFileReader>, key: CacheKey)
    requires key in t
    ensures forall r :: |Holders(t - {key}, r)| == |Holders(t, r)| - (if t[key] == r then 1 else 0)
  {
    forall r ensures |Holders(t - {key}, r)| == |Holders(t, r)| - (if t[key] == r then 1 else 0) {
      var base := Holders(t - {key}, r);
      if t[key] == r {
        assert Holders(t, r) == base + {key};
      } else {
        assert Holders(t, r) == base;
      }
    }
  }

  /** Filing a freshly counted reader keeps the table built for its file. */
  lemma BuiltForUpdate(t: map<CacheKey, TFileReader>, reg: map<CacheKey, FileImage>, key: CacheKey, r: TFileReader, img: FileImage)
    requires BuiltFor(t, reg)
    requires r.ctx == img && r.header == LoadHeader(img)
    requires r.refCount == 1 && !r.remove && !r.destroyed && !r.fileRemoved
    ensures BuiltFor(t[key := r], reg[key := img])
  {
  }

  /** `TFileCache`. Its `capacity` is set and never read, so it is not
      part of the model. */
  class TFileCache {
    var table: map<CacheKey, TFileReader>

    /** Every registered reader is alive and its count covers the keys
        that hold it. */
    predicate Valid()
      reads this, table.Values
    {
      forall r :: r in table.Values ==> !r.destroyed && !r.fileRemoved && r.refCount >= |Holders(table, r)|
    }

    constructor ()
      ensures table == map[] && Valid()
    {
      table := map[];
    }

    /** `tfileCacheGet`: on a hit, the registered reader with one more
        reference; on a miss, NULL and nothing changes. */
    method Get(key: CacheKey) returns (r: TFileReader?)
      requires Valid()
      modifies if key in table then {table[key]} else {}
      ensures Valid() && table == old(table)
      ensures key !in table ==> r == null
      ensures key in table ==> (
        && r == table[key] && r.refCount == old(r.refCount) + 1
        && r.remove == old(r.remove) && !r.destroyed && !r.fileRemoved)
    {
      if key !in table {
        return null;
      }
      r := table[key];
      r.Ref();
    }

    /** `tfileCachePut`: the hot swap. Afterwards `key` maps to `reader`,
        which gains the cache's reference; a different reader that was
        registered under `key` is marked for removal and loses that
        reference, so it is destroyed, and its file deleted, once the last
        query holding it releases it. Other keys keep their readers. */
    method Put(key: CacheKey, reader: TFileReader)
      requires Valid() && !reader.destroyed && !reader.fileRemoved && reader.refCount >= 0
      requires key in table && table[key] == reader ==> reader.refCount > 1
      modifies this, reader, if key in table then {table[key]} else {}
      ensures table == old(table)[key := reader] && Valid()
      ensures key in old(table) && old(table)[key] != reader ==>
        var o := old(table)[key];
        && o.remove && o.refCount == old(o.refCount) - 1
        && (o.destroyed <==> o.refCount == 0) && (o.fileRemoved <==> o.refCount == 0)
      ensures key in old(table) && old(table)[key] == reader ==>
        reader.remove && reader.refCount == old(reader.refCount)
      ensures !(key in old(table) && old(table)[key] == reader) ==>
        reader.refCount == old(reader.refCount) + 1 && reader.remove == old(reader.remove)
      ensures !reader.destroyed && !reader.fileRemoved
    {
      ghost var t0 := table;
      HoldersUpdate(t0, key, reader);
      if key in table {
        var o := table[key];
        table := table - {key};
        o.remove := true;
        o.UnRef();
      }
      table := table[key := reader];
      assert table == t0[key := reader];
      reader.Ref();
    }

    /** The `taosHashPut` and `tfileReaderRef` of `tfileCacheCreate`: `key`
        maps to the new `reader`, which gains the cache's reference. A reader
        registered under `key` before is dropped from the map untouched, so
        the reference the cache held on it is never released. */
    method Register(key: CacheKey, reader: TFileReader)
      requires Valid() && !reader.destroyed && !reader.fileRemoved && reader.refCount >= 0
      requires reader !in table.Values
      modifies this, reader
      ensures table == old(table)[key := reader] && Valid()
      ensures reader.refCount == old(reader.refCount) + 1 && reader.remove == old(reader.remove)
      ensures !reader.destroyed && !reader.fileRemoved
    {
      assert Holders(table, reader) == {};
      HoldersUpdate(table, key, reader);
      table := table[key := reader];
      reader.Ref();
    }

    /** A valid cache whose readers are those built for `reg`. */
    predicate Built(reg: map<CacheKey, FileImage>)
      reads this, table.Values
    {
      Valid() && BuiltFor(table, reg)
    }

    /** One name of the scan in `tfileCacheCreate`, when the table is the
        one built for the files `reg` registers: a name that does not parse
        is skipped, one that parses but is not on the disk fails, and any
        other file is opened and registered under its header's key. */
    method OpenFile(name: string, disk: map<string, FileImage>, ghost reg: map<CacheKey, FileImage>) returns (ok: bool)
      requires Built(reg) && (Present(name, disk) ==> Opens(disk[name]))
      modifies this
      ensures ok <==> !Missing(name, disk)
      ensures Built(if ok then Scan(reg, name, disk) else reg)
      ensures fresh(table.Values - old(table.Values))
    {
      var parsed := ParseFileName(name);
      if parsed == None {
        return true;
      }
      if name !in disk {
        return false;
      }
      ghost var t0 := table;
      var reader := ReaderCreate(disk[name]);
      Register(HeaderKey(reader.header), reader);
      assert BuiltFor(t0, reg);
      BuiltForUpdate(t0, reg, HeaderKey(reader.header), reader, disk[name]);
      ok := true;
    }

    /** The loop of `tfileCacheCreate` over the names of `files`, on an
        empty cache: it stops at the first name that parses but is not on
        the disk. */
    method OpenAll(files: seq<string>, disk: map<string, FileImage>) returns (ok: bool)
      requires table == map[] && AllOpen(files, disk)
      modifies this
      ensures ok <==> NoneMissing(files, disk)
      ensures Valid() && (ok ==> BuiltFor(table, Registered(files, disk)))
      ensures fresh(table.Values)
    {
      var i := 0;
      ghost var reg := map[];
      while i < |files|
        invariant 0 <= i <= |files| && fresh(table.Values)
        invariant reg == Registered(files[..i], disk) && NoneMissing(files[..i], disk) && Built(reg)
      {
        var name := files[i];
        OpensAt(files, i, disk);
        ok := OpenFile(name, disk, reg);
        if !ok {
          NoneMissingAt(files, i, disk);
          return;
        }
        ScanStep(files, i, disk);
        reg := Scan(reg, name, disk);
        i := i + 1;
      }
      PrefixAll(files);
      ok := true;
    }

    /** `tfileCacheDestroy`: every key releases the cache's reference on
        its reader, then the map is emptied; a reader no query still holds
        is destroyed. */
    method Destroy()
      requires Valid()
      modifies this, table.Values
      ensures table == map[]
      ensures forall r :: r in old(table).Values ==> (
        && r.refCount == old(r.refCount) - |Holders(old(table), r)|
        && r.remove == old(r.remove)
        && (r.destroyed <==> r.refCount == 0)
        && (r.fileRemoved <==> r.refCount == 0 && r.remove))
    {
      ghost var t0 := table;
      var rest := table;
      forall r | r in t0.Values ensures r.refCount > 0 {
        var k :| k in t0 && t0[k] == r;
        assert k in Holders(t0, r);
      }
      while rest != map[]
        invariant forall k :: k in rest ==> k in t0 && rest[k] == t0[k]
        invariant table == t0
        invariant forall r :: r in t0.Values ==> (
          && r.refCount == old(r.refCount) - |Holders(t0, r)| + |Holders(rest, r)|
          && r.refCount >= |Holders(rest, r)|
          && r.remove == old(r.remove)
          && (r.destroyed <==> r.refCount == 0)
          && (r.fileRemoved <==> r.refCount == 0 && r.remove))
        decreases |rest|
      {
        var k :| k in rest;
        var r := rest[k];
        assert r in t0.Values;
        assert k in Holders(rest, r);
        HoldersRemove(rest, k);
        r.UnRef();
        rest := rest - {k};
      }
      forall r | r in t0.Values ensures Holders(rest, r) == {} {
      }
      table := map[];
    }
  }

  // ------------------------------------------------------------- startup

  /** The file a reader can be opened on: a transducer starts at the
      offset its header names. */
  predicate Opens(img: FileImage) {
    LoadFst(img, LoadHeader(img).fstOffset).Some?
  }

  /** A name `tfileParseFileName` accepts and the disk holds. */
  predicate Present(f: string, disk: map<string, FileImage>) {
    ParseFileName(f).Some? && f in disk
  }

  /** The file each key ends up registered with when `tfileCacheCreate`
      scans `files` in order: later files replace earlier ones with the
      same header key, and names that do not parse are skipped. */
  function Registered(files: seq<string>, disk: map<string, FileImage>): map<CacheKey, FileImage>
    decreases |files|
  {
    if |files| == 0 then map[]
    else Scan(Registered(files[..|files| - 1], disk), files[|files| - 1], disk)
  }

  /** One name of the scan. */
  function Scan(m: map<CacheKey, FileImage>, f: string, disk: map<string, FileImage>): map<CacheKey, FileImage> {
    if Present(f, disk) then m[HeaderKey(LoadHeader(disk[f])) := disk[f]] else m
  }

  lemma RegisteredSnoc(files: seq<string>, f: string, disk: map<string, FileImage>)
    ensures Registered(files + [f], disk) == Scan(Registered(files, disk), f, disk)
  {
    assert (files + [f])[..|files|] == files;
  }

  /** A name `tfileParseFileName` accepts that the disk does not hold. */
  predicate Missing(f: string, disk: map<string, FileImage>) {
    ParseFileName(f).Some? && f !in disk
  }

  /** Every file of `files` the scan would open can be opened. */
  predicate AllOpen(files: seq<string>, disk: map<string, FileImage>) {
    forall i :: 0 <= i < |files| && Present(files[i], disk) ==> Opens(disk[files[i]])
  }

  /** No name of `files` is missing from the disk. */
  predicate NoneMissing(files: seq<string>, disk: map<string, FileImage>) {
    forall j :: 0 <= j < |files| ==> !Missing(files[j], disk)
  }

  lemma NoneMissingSnoc(files: seq<string>, f: string, disk: map<string, FileImage>)
    requires NoneMissing(files, disk) && !Missing(f, disk)
    ensures NoneMissing(files + [f], disk)
  {
    assert forall j :: 0 <= j < |files| ==> (files + [f])[j] == files[j];
  }

  lemma OpensAt(files: seq<string>, i: nat, disk: map<string, FileImage>)
    requires i < |files| && AllOpen(files, disk)
    ensures Present(files[i], disk) ==> Opens(disk[files[i]])
  {
  }

  /** One more name of the listing scanned. */
  lemma ScanStep(files: seq<string>, i: nat, disk: map<string, FileImage>)
    requires i < |files| && NoneMissing(files[..i], disk) && !Missing(files[i], disk)
    ensures Registered(files[..i + 1], disk) == Scan(Registered(files[..i], disk), files[i], disk)
    ensures NoneMissing(files[..i + 1], disk)
  {
    PrefixSnoc(files, i);
    RegisteredSnoc(files[..i], files[i], disk);
    NoneMissingSnoc(files[..i], files[i], disk);
  }

  lemma PrefixAll<T>(s: seq<T>)
    ensures s[..|s|] == s
  {
  }

  /** A missing name makes the whole listing fail. */
  lemma NoneMissingAt(files: seq<string>, i: nat, disk: map<string, FileImage>)
    requires i < |files| && Missing(files[i], disk)
    ensures !NoneMissing(files, disk)
  {
  }

  /** The readers of `t` are those of a cache just built for `reg`. */
  predicate BuiltFor(t: map<CacheKey, TFileReader>, reg: map<CacheKey, FileImage>)
    reads t.Values
  {
    && t.Keys == reg.Keys
    && forall k :: k in t ==> (
      && t[k].ctx == reg[k] && t[k].header == LoadHeader(reg[k])
      && t[k].refCount == 1 && !t[k].remove && !t[k].destroyed && !t[k].fileRemoved)
  }

  /** `tfileCacheCreate` over the directory listing `files` and the term
      files `disk` holds. A name that does not parse is skipped; one that
      parses but cannot be opened abandons the scan, destroys the cache and
      answers NULL. Every other file gets a fresh reader, filed under the
      key of its header with one reference; a reader replaced by a later
      file with the same key is not released. */
  method CacheCreate(files: seq<string>, disk: map<string, FileImage>) returns (c: TFileCache?)
    requires AllOpen(files, disk)
    ensures c == null <==> exists i :: 0 <= i < |files| && Missing(files[i], disk)
    ensures c != null ==> fresh(c) && fresh(c.table.Values) && c.Valid() && BuiltFor(c.table, Registered(files, disk))
  {
    c := new TFileCache();
    var ok := c.OpenAll(files, disk);
    if !ok {
      c.Destroy();
      return null;
    }
  }

  // ------------------------------------------------------ startup order

  /** Every registered file is one of the files scanned, and it is filed
      under its own header's key. */
  lemma {:induction false} RegisteredFromHeaders(files: seq<string>, disk: map<string, FileImage>)
    ensures forall k :: k in Registered(files, disk) ==>
      && k == HeaderKey(LoadHeader(Registered(files, disk)[k]))
      && exists i :: 0 <= i < |files| && Present(files[i], disk) && disk[files[i]] == Registered(files, disk)[k]
  {
    if |files| > 0 {
      var init := files[..|files| - 1];
      RegisteredFromHeaders(init, disk);
      forall k | k in Registered(files, disk) ensures
        exists i :: 0 <= i < |files| && Present(files[i], disk) && disk[files[i]] == Registered(files, disk)[k]
      {
        if k in Registered(init, disk) && Registered(files, disk)[k] == Registered(init, disk)[k] {
          var i :| 0 <= i < |init| && Present(init[i], disk) && disk[init[i]] == Registered(init, disk)[k];
          assert files[i] == init[i];
        } else {
          assert Present(files[|files| - 1], disk);
        }
      }
    }
  }

  lemma PrefixSnoc<T>(s: seq<T>, i: nat)
    requires i < |s|
    ensures s[..i + 1] == s[..i] + [s[i]]
  {
  }

  lemma SplitLast(a: seq<string>, b: seq<string>)
    requires |b| > 0
    ensures a + b == (a + b[..|b| - 1]) + [b[|b| - 1]]
  {
    assert b == b[..|b| - 1] + [b[|b| - 1]];
  }

  /** A name that does not parse changes nothing, wherever it appears in
      the listing. */
  lemma {:induction false} UnparsableSkipped(pre: seq<string>, f: string, post: seq<string>, disk: map<string, FileImage>)
    requires ParseFileName(f) == None
    ensures Registered(pre + [f] + post, disk) == Registered(pre + post, disk)
    decreases |post|
  {
    if |post| == 0 {
      assert pre + [f] + post == pre + [f] && pre + post == pre;
      RegisteredSnoc(pre, f, disk);
    } else {
      var post' := post[..|post| - 1];
      var last := post[|post| - 1];
      UnparsableSkipped(pre, f, post', disk);
      SplitLast(pre + [f], post);
      SplitLast(pre, post);
      RegisteredSnoc(pre + [f] + post', last, disk);
      RegisteredSnoc(pre + post', last, disk);
    }
  }

  /** The last file scanned for a key wins: a file stays registered unless
      a later file has the same header key. */
  lemma {:induction false} LastFileWins(pre: seq<string>, f: string, post: seq<string>, disk: map<string, FileImage>)
    requires Present(f, disk)
    requires forall i :: 0 <= i < |post| && Present(post[i], disk) ==>
      HeaderKey(LoadHeader(disk[post[i]])) != HeaderKey(LoadHeader(disk[f]))
    ensures HeaderKey(LoadHeader(disk[f])) in Registered(pre + [f] + post, disk)
    ensures Registered(pre + [f] + post, disk)[HeaderKey(LoadHeader(disk[f]))] == disk[f]
    decreases |post|
  {
    if |post| == 0 {
      assert pre + [f] + post == pre + [f];
      RegisteredSnoc(pre, f, disk);
    } else {
      var k := HeaderKey(LoadHeader(disk[f]));
      var post' := post[..|post| - 1];
      var last := post[|post| - 1];
      forall i | 0 <= i < |post'| && Present(post'[i], disk)
        ensures HeaderKey(LoadHeader(disk[post'[i]])) != k
      {
        assert post'[i] == post[i];
      }
      LastFileWins(pre, f, post', disk);
      var m := Registered(pre + [f] + post', disk);
      SplitLast(pre + [f], post);
      RegisteredSnoc(pre + [f] + post', last, disk);
      assert Present(last, disk) ==> HeaderKey(LoadHeader(disk[last])) != k;
      assert k in Scan(m, last, disk) && Scan(m, last, disk)[k] == m[k];
    }
  }
}
