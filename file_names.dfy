/**
  Term-file names (index_tfile.c, `tfileGenFileName`, `tfileParseFileName`,
  and the directory filter of `tfileGetFileList`).

  A name is `suid-col-version.tindex`, written with `sprintf` as
  `"%" PRIu64 "-%s-%d.tindex"` and read back with `sscanf` and the same
  pattern, except that the column is read with `%[^-]`. The parse succeeds
  when `sscanf` converts all three fields; the literal `.tindex` after
  the last conversion is never checked, since `sscanf` counts only
  conversions.

  The model of `sscanf` covers what the three conversions do: `%lu` and
  `%d` skip leading white space, take an optional sign and then at least
  one decimal digit; `%[^-]` takes at least one character other than `-`.
  A number out of the range of its target, for which C leaves the result
  undefined, is a failed conversion here.
 */
module FileNames {
  import opened Bytes
  import opened CStrings
  import opened Wrappers

  // ----------------------------------------------------------- decimals

  predicate IsDigit(c: char) {
    '0' <= c <= '9'
  }

  predicate AllDigits(s: string) {
    forall i :: 0 <= i < |s| ==> IsDigit(s[i])
  }

  function DigitChar(d: nat): (c: char)
    requires d < 10
    ensures IsDigit(c)
  {
    (48 + d) as char
  }

  /** `%lu` / `PRIu64` output: the decimal digits of `n`, no leading zero. */
  function NatToDecimal(n: nat): (s: string)
    ensures |s| > 0 && AllDigits(s)
  {
    if n < 10 then [DigitChar(n)] else NatToDecimal(n / 10) + [DigitChar(n % 10)]
  }

  /** `%d` output. */
  function IntToDecimal(x: int): string {
    if x < 0 then "-" + NatToDecimal(-x) else NatToDecimal(x)
  }

  /** The number a run of decimal digits denotes. */
  function DecimalValue(s: string): nat
    requires AllDigits(s)
  {
    if |s| == 0 then 0 else DecimalValue(s[..|s| - 1]) * 10 + (s[|s| - 1] as int - 48)
  }

  lemma {:induction false} DecimalOfNat(n: nat)
    ensures DecimalValue(NatToDecimal(n)) == n
  {
    if n >= 10 {
      var s := NatToDecimal(n);
      assert s[..|s| - 1] == NatToDecimal(n / 10);
      DecimalOfNat(n / 10);
    }
  }

  // -------------------------------------------------------------- sscanf

  /** The characters `isspace` accepts. */
  predicate IsSpace(c: char) {
    c == ' ' || c == '\t' || c == '\n' || c == '\r' || c == '\U{B}' || c == '\U{C}'
  }

  /** The input after leading white space. */
  function SkipSpace(s: string): (r: string)
    ensures |r| <= |s|
  {
    if |s| > 0 && IsSpace(s[0]) then SkipSpace(s[1..]) else s
  }

  lemma Cons(s: string, d: string, rest: string)
    requires |s| > 0 && d + rest == s[1..]
    ensures [s[0]] + d + rest == s
  {
    assert [s[0]] + d + rest == [s[0]] + (d + rest);
  }

  /** The leading run of decimal digits and what follows it. */
  function Digits(s: string): (r: (string, string))
    ensures AllDigits(r.0) && r.0 + r.1 == s
    ensures |r.1| > 0 ==> !IsDigit(r.1[0])
  {
    if |s| > 0 && IsDigit(s[0]) then
      var tail := Digits(s[1..]);
      Cons(s, tail.0, tail.1);
      ([s[0]] + tail.0, tail.1)
    else ([], s)
  }

  /** White space, an optional sign, at least one digit: the sign, the
      magnitude and the rest of the input. */
  function ScanNumber(s: string): Option<(bool, nat, string)> {
    var t := SkipSpace(s);
    var neg := |t| > 0 && t[0] == '-';
    var u := if |t| > 0 && (t[0] == '-' || t[0] == '+') then t[1..] else t;
    var (d, rest) := Digits(u);
    if |d| == 0 then None else Some((neg, DecimalValue(d), rest))
  }

  /** `%lu`: a negated magnitude wraps modulo 2^64, as `strtoul` does. */
  function ScanU64(s: string): Option<(u64, string)> {
    match ScanNumber(s)
    case None => None
    case Some((neg, v, rest)) =>
      if v >= TWO_64 then None
      else Some((if neg && v != 0 then TWO_64 - v else v, rest))
  }

  /** `%d`. */
  function ScanI32(s: string): (r: Option<(int, string)>)
    ensures r.Some? ==> IsI32(r.value.0)
  {
    match ScanNumber(s)
    case None => None
    case Some((neg, v, rest)) =>
      var x: int := if neg then -(v as int) else v as int;
      if IsI32(x) then Some((x, rest)) else None
  }

  /** The leading run of characters other than `-` and what follows it. */
  function DashFree(s: string): (r: (string, string))
    ensures '-' !in r.0 && r.0 + r.1 == s
    ensures |r.1| > 0 ==> r.1[0] == '-'
  {
    if |s| > 0 && s[0] != '-' then
      var (d, rest) := DashFree(s[1..]);
      assert [s[0]] + d + rest == s;
      ([s[0]] + d, rest)
    else ([], s)
  }

  /** `%[^-]`: no white space is skipped, and at least one character. */
  function ScanNotDash(s: string): (r: Option<(string, string)>)
    ensures r.Some? ==> |r.value.0| > 0 && '-' !in r.value.0
  {
    var (d, rest) := DashFree(s);
    if |d| == 0 then None else Some((d, rest))
  }

  /** The input after the pattern's literal `-`, if it is there. */
  function Dash(s: string): Option<string> {
    if |s| > 0 && s[0] == '-' then Some(s[1..]) else None
  }

  // ------------------------------------------------------ name functions

  datatype FileId = FileId(suid: u64, col: string, version: int)

  /** `tfileGenFileName`. */
  function GenFileName(suid: u64, col: CStr, version: int): string
    requires IsI32(version)
  {
    NatToDecimal(suid) + ("-" + (col + ("-" + (IntToDecimal(version) + ".tindex"))))
  }

  /** `tfileParseFileName`: `Some` exactly when `sscanf` reports three
      conversions, that is when `tfileParseFileName` returns 0. */
  function ParseFileName(name: string): (r: Option<FileId>)
    ensures r.Some? ==> |r.value.col| > 0 && '-' !in r.value.col && IsI32(r.value.version)
  {
    match ScanU64(name)
    case None => None
    case Some((suid, r1)) =>
      match Dash(r1)
      case None => None
      case Some(r2) =>
        match ScanNotDash(r2)
        case None => None
        case Some((col, r3)) =>
          match Dash(r3)
          case None => None
          case Some(r4) =>
            match ScanI32(r4)
            case None => None
            case Some((version, _)) => Some(FileId(suid, col, version))
  }

  // ----------------------------------------------------------- properties

  /** A run of digits followed by a non-digit is read as that run. */
  lemma {:induction false} DigitsOf(d: string, rest: string)
    requires AllDigits(d) && (|rest| == 0 || !IsDigit(rest[0]))
    ensures Digits(d + rest) == (d, rest)
  {
    if |d| > 0 {
      assert (d + rest)[0] == d[0];
      assert (d + rest)[1..] == d[1..] + rest;
      DigitsOf(d[1..], rest);
      assert [d[0]] + d[1..] == d;
    } else {
      assert d + rest == rest;
    }
  }

  /** A dash-free run followed by a dash is read as that run. */
  lemma {:induction false} DashFreeOf(d: string, rest: string)
    requires '-' !in d && (|rest| == 0 || rest[0] == '-')
    ensures DashFree(d + rest) == (d, rest)
  {
    if |d| > 0 {
      assert (d + rest)[0] == d[0];
      assert (d + rest)[1..] == d[1..] + rest;
      DashFreeOf(d[1..], rest);
      assert [d[0]] + d[1..] == d;
    } else {
      assert d + rest == rest;
    }
  }

  /** An unsigned run of digits is read with its value. */
  lemma {:induction false} ScanNumberOfDigits(d: string, rest: string)
    requires |d| > 0 && AllDigits(d) && (|rest| == 0 || !IsDigit(rest[0]))
    ensures ScanNumber(d + rest) == Some((false, DecimalValue(d), rest))
  {
    assert (d + rest)[0] == d[0];
    assert SkipSpace(d + rest) == d + rest;
    DigitsOf(d, rest);
  }

  /** A `-` and a run of digits is read as a negated magnitude. */
  lemma {:induction false} ScanNumberOfNegated(d: string, rest: string)
    requires |d| > 0 && AllDigits(d) && (|rest| == 0 || !IsDigit(rest[0]))
    ensures ScanNumber("-" + (d + rest)) == Some((true, DecimalValue(d), rest))
  {
    var s := "-" + (d + rest);
    assert s[0] == '-' && s[1..] == d + rest;
    assert SkipSpace(s) == s;
    DigitsOf(d, rest);
  }

  /** `%lu` reads back what `PRIu64` wrote, up to the first non-digit. */
  lemma ScanU64OfDecimal(n: u64, rest: string)
    requires |rest| == 0 || !IsDigit(rest[0])
    ensures ScanU64(NatToDecimal(n) + rest) == Some((n, rest))
  {
    ScanNumberOfDigits(NatToDecimal(n), rest);
    DecimalOfNat(n);
  }

  /** `%d` reads back what `%d` wrote, up to the first non-digit. */
  lemma ScanI32OfDecimal(x: int, rest: string)
    requires IsI32(x) && (|rest| == 0 || !IsDigit(rest[0]))
    ensures ScanI32(IntToDecimal(x) + rest) == Some((x, rest))
  {
    var m: nat := if x < 0 then -x else x;
    var d := NatToDecimal(m);
    DecimalOfNat(m);
    var s := IntToDecimal(x) + rest;
    if x < 0 {
      assert s == "-" + (d + rest);
      ScanNumberOfNegated(d, rest);
      ScanI32OfNumber(s, true, m, rest);
    } else {
      assert s == d + rest;
      ScanNumberOfDigits(d, rest);
      ScanI32OfNumber(s, false, m, rest);
    }
  }

  lemma ScanI32OfNumber(s: string, neg: bool, m: nat, rest: string)
    requires ScanNumber(s) == Some((neg, m, rest))
    requires IsI32(if neg then -(m as int) else m)
    ensures ScanI32(s) == Some((if neg then -(m as int) else m, rest))
  {
  }

  /** Parsing ignores whatever follows the version once that ends at a
      non-digit: the `.tindex` suffix is never checked. */
  lemma ParseIgnoresSuffix(suid: u64, col: CStr, version: int, suffix: string)
    requires |col| > 0 && '-' !in col && IsI32(version)
    requires |suffix| == 0 || !IsDigit(suffix[0])
    ensures ParseFileName(NatToDecimal(suid) + ("-" + (col + ("-" + (IntToDecimal(version) + suffix)))))
      == Some(FileId(suid, col, version))
  {
    var r4 := IntToDecimal(version) + suffix;
    var r3 := "-" + r4;
    var r2 := col + r3;
    var r1 := "-" + r2;
    ScanU64OfDecimal(suid, r1);
    assert Dash(r1) == Some(r2);
    DashFreeOf(col, r3);
    assert Dash(r3) == Some(r4);
    ScanI32OfDecimal(version, suffix);
  }

  /** Generating then parsing a name gives back its three fields, for a
      column that is nonempty and has no `-`. */
  lemma ParseGenFileName(suid: u64, col: CStr, version: int)
    requires |col| > 0 && '-' !in col && IsI32(version)
    ensures ParseFileName(GenFileName(suid, col, version)) == Some(FileId(suid, col, version))
  {
    ParseIgnoresSuffix(suid, col, version, ".tindex");
  }

  /** A column with a `-` in it does not survive the round trip. */
  lemma DashedColumnLost(suid: u64, col: CStr, version: int)
    requires '-' in col && IsI32(version)
    ensures ParseFileName(GenFileName(suid, col, version)) != Some(FileId(suid, col, version))
  {
  }

  /** `strcmp` skips a common prefix free of NUL. */
  lemma {:induction false} StrcmpSkip(p: string, x: string, y: string)
    requires '\0' !in p
    ensures Strcmp(p + x, p + y) == Strcmp(x, y)
  {
    if |p| > 0 {
      assert p[0] != '\0';
      assert '\0' !in p[1..] by {
        forall i | 0 <= i < |p[1..]| ensures p[1..][i] != '\0' { assert p[1..][i] == p[i + 1]; }
      }
      assert (p + x)[0] == p[0] && (p + y)[0] == p[0];
      assert Code(p + x, 0) == Code(p + y, 0) == p[0] as int != 0;
      assert (p + x)[1..] == p[1..] + x && (p + y)[1..] == p[1..] + y;
      StrcmpSkip(p[1..], x, y);
    } else {
      assert p + x == x && p + y == y;
    }
  }

  /** Names are ordered by `tfileCompare`, the order of `strcmp`, so
      version 10 of a column's file sorts before its version 9. */
  lemma VersionsSortAsText(suid: u64, col: CStr)
    ensures FileCompare(GenFileName(suid, col, 10), GenFileName(suid, col, 9)) == -1
  {
    var p := NatToDecimal(suid) + ("-" + (col + "-"));
    var x, y := IntToDecimal(10) + ".tindex", IntToDecimal(9) + ".tindex";
    assert GenFileName(suid, col, 10) == p + x;
    assert GenFileName(suid, col, 9) == p + y;
    assert '\0' !in p by {
      assert forall c :: c in p ==> c in NatToDecimal(suid) || c == '-' || c in col;
      assert forall i :: 0 <= i < |NatToDecimal(suid)| ==> IsDigit(NatToDecimal(suid)[i]);
    }
    StrcmpSkip(p, x, y);
    assert IntToDecimal(10) == NatToDecimal(1) + [DigitChar(0)];
    assert x[0] == '1' && y[0] == '9';
    FileCompareIsStrCompare(p + x, p + y);
  }

  // ------------------------------------------------------ directory scan

  /** A directory entry as `readdir` returns it. */
  datatype DirEntry = DirEntry(name: CStr, dType: byte)

  /** `DT_UNKNOWN`, `DT_DIR` and `DT_REG` (dirent.h). */
  const DtUnknown: byte := 0
  const DtDir: byte := 4
  const DtReg: byte := 8

  /** The filter of `tfileGetFileList` as written: `entry->d_type && DT_DIR`
      is true for every entry whose type is known, and such entries are
      skipped. */
  function KeptNamesAsWritten(es: seq<DirEntry>): (r: seq<CStr>)
    ensures forall x :: x in r ==> exists i :: 0 <= i < |es| && es[i].name == x && es[i].dType == DtUnknown
  {
    if |es| == 0 then []
    else
      var rest := KeptNamesAsWritten(es[..|es| - 1]);
      var e := es[|es| - 1];
      if e.dType != 0 && DtDir != 0 then rest else rest + [e.name]
  }

  /** With the filter as written a directory holding only regular files
      yields no file at all. */
  lemma {:induction false} RegularFilesDropped(es: seq<DirEntry>)
    requires forall i :: 0 <= i < |es| ==> es[i].dType == DtReg
    ensures KeptNamesAsWritten(es) == []
  {
    if |es| > 0 {
      RegularFilesDropped(es[..|es| - 1]);
    }
  }

  /** The filter as evidently intended: only directories are skipped. */
  function KeptNames(es: seq<DirEntry>): (r: seq<CStr>)
    ensures forall x :: x in r <==> exists i :: 0 <= i < |es| && es[i].name == x && es[i].dType != DtDir
    ensures |r| <= |es|
  {
    if |es| == 0 then []
    else
      var init := es[..|es| - 1];
      var rest := KeptNames(init);
      var e := es[|es| - 1];
      assert forall i :: 0 <= i < |init| ==> es[i] == init[i];
      if e.dType == DtDir then rest else rest + [e.name]
  }

  /** The corrected filter keeps exactly the non-directory entries, in
      directory order. */
  lemma {:induction false} KeptNamesInOrder(es: seq<DirEntry>)
    ensures KeptNames(es) == NonDirNames(es)
  {
    if |es| > 0 {
      var init, e := es[..|es| - 1], es[|es| - 1];
      KeptNamesInOrder(init);
      NonDirNamesSnoc(init, e);
      assert init + [e] == es;
    }
  }

  lemma {:induction false} NonDirNamesSnoc(es: seq<DirEntry>, e: DirEntry)
    ensures NonDirNames(es + [e]) == NonDirNames(es) + (if e.dType == DtDir then [] else [e.name])
  {
    if |es| > 0 {
      assert (es + [e])[1..] == es[1..] + [e];
      NonDirNamesSnoc(es[1..], e);
    } else {
      assert [] + [e] == [e];
    }
  }

  /** The names of the non-directory entries, front to back. */
  function NonDirNames(es: seq<DirEntry>): seq<CStr> {
    if |es| == 0 then []
    else if es[0].dType == DtDir then NonDirNames(es[1..])
    else [es[0].name] + NonDirNames(es[1..])
  }
}
