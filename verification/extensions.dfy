/** File-extension handling: decoder dispatch in the loader worker, the catalogue
    filter of the directory scan, and the file-size conversion. */
module Extensions {
  import opened ViewerTypes

  /** The decoders the worker can dispatch to; `Stb` is the catch-all. */
  datatype Decoder = Spng | JpegTurbo | WebP | HeifAvif | Tiff | Jxl | Stb

  /** ASCII lower-casing, as `strcasecmp` applies it. */
  function ToLower(c: char): char
  {
    if 'A' <= c <= 'Z' then (c as int + 32) as char else c
  }

  function Lower(s: string): (r: string)
    ensures |r| == |s|
    ensures forall k :: 0 <= k < |s| ==> r[k] == ToLower(s[k])
  {
    if s == [] then [] else [ToLower(s[0])] + Lower(s[1..])
  }

  /** `strcasecmp(a, b) == 0`: same length, equal after lower-casing each character. */
  function SameIgnoringCase(a: string, b: string): (same: bool)
    ensures same ==> |a| == |b|
  {
    if a == [] || b == [] then a == b
    else ToLower(a[0]) == ToLower(b[0]) && SameIgnoringCase(a[1..], b[1..])
  }

  /** Case-insensitive comparison is comparison of the lower-cased strings. */
  lemma {:induction false} SameIgnoringCaseIsLowerEq(a: string, b: string)
    ensures SameIgnoringCase(a, b) <==> Lower(a) == Lower(b)
  {
    if a != [] && b != [] {
      SameIgnoringCaseIsLowerEq(a[1..], b[1..]);
      assert Lower(a) == [ToLower(a[0])] + Lower(a[1..]);
      assert Lower(b) == [ToLower(b[0])] + Lower(b[1..]);
      if Lower(a) == Lower(b) {
        assert Lower(a)[1..] == Lower(a[1..]);
        assert Lower(b)[1..] == Lower(b[1..]);
      }
    } else if a != [] {
      assert |Lower(a)| > 0;
    } else if b != [] {
      assert |Lower(b)| > 0;
    }
  }

  /** Position of the last '.' in `s` (`strrchr(s, '.')`), if any. */
  function LastDot(s: string): (r: Option<nat>)
    ensures r.Some? ==> r.value < |s| && s[r.value] == '.'
    ensures r.Some? ==> forall k :: r.value < k < |s| ==> s[k] != '.'
    ensures r.None? ==> forall k :: 0 <= k < |s| ==> s[k] != '.'
  {
    if s == [] then None
    else if s[|s| - 1] == '.' then Some(|s| - 1)
    else LastDot(s[..|s| - 1])
  }

  /** The suffix starting at the last '.', dot included. */
  function Extension(s: string): (r: Option<string>)
    ensures r.Some? ==> 0 < |r.value| <= |s| && r.value[0] == '.' && s == s[..|s| - |r.value|] + r.value
    ensures r.Some? ==> forall k :: 0 < k < |r.value| ==> r.value[k] != '.'
    ensures r.None? ==> forall k :: 0 <= k < |s| ==> s[k] != '.'
  {
    match LastDot(s)
    case None => None
    case Some(i) => Some(s[i..])
  }

  /** Whatever precedes it, a name ending in a dot-led, dot-free suffix has that suffix as its extension. */
  lemma ExtensionOfSuffix(p: string, e: string)
    requires |e| > 0 && e[0] == '.'
    requires forall k :: 0 < k < |e| ==> e[k] != '.'
    ensures Extension(p + e) == Some(e)
  {
    var s := p + e;
    assert s[|p|] == '.';
    assert forall k :: |p| < k < |s| ==> s[k] != '.' by {
      forall k | |p| < k < |s|
        ensures s[k] != '.'
      {
        assert s[k] == e[k - |p|];
      }
    }
    var r := LastDot(s);
    assert r.Some?;
    assert r.value == |p|;
    assert s[|p|..] == e;
  }

  /** The worker's dispatch table, in its order. */
  const LoaderTable: seq<(string, Decoder)> := [
    (".png", Spng), (".jpg", JpegTurbo), (".jpeg", JpegTurbo), (".webp", WebP),
    (".heif", HeifAvif), (".heic", HeifAvif), (".avif", HeifAvif),
    (".tiff", Tiff), (".tif", Tiff), (".jxl", Jxl)]

  /** The decoder of the first table entry matching `ext` case-insensitively. */
  function FirstMatch(ext: string, table: seq<(string, Decoder)>): (r: Option<Decoder>)
  {
    if table == [] then None
    else if SameIgnoringCase(ext, table[0].0) then Some(table[0].1)
    else FirstMatch(ext, table[1..])
  }

  /** Decoder dispatch: look up the extension, fall back to stb without a dot or a match. */
  function SelectDecoder(path: string): (d: Decoder)
    ensures Extension(path).None? ==> d == Stb
  {
    match Extension(path)
    case None => Stb
    case Some(ext) =>
      match FirstMatch(ext, LoaderTable)
      case Some(d) => d
      case None => Stb
  }

  /** An independent statement of the dispatch: one case per lower-cased extension. */
  function DecoderFor(lowerExt: string): Decoder
  {
    if lowerExt == ".png" then Spng
    else if lowerExt == ".jpg" || lowerExt == ".jpeg" then JpegTurbo
    else if lowerExt == ".webp" then WebP
    else if lowerExt == ".heif" || lowerExt == ".heic" || lowerExt == ".avif" then HeifAvif
    else if lowerExt == ".tiff" || lowerExt == ".tif" then Tiff
    else if lowerExt == ".jxl" then Jxl
    else Stb
  }

  /** All table keys are lower case. */
  lemma LoaderTableLower()
    ensures forall k :: 0 <= k < |LoaderTable| ==> Lower(LoaderTable[k].0) == LoaderTable[k].0
  {
    forall k | 0 <= k < |LoaderTable|
      ensures Lower(LoaderTable[k].0) == LoaderTable[k].0
    {
      var key := LoaderTable[k].0;
      assert forall j :: 0 <= j < |key| ==> ToLower(key[j]) == key[j];
      assert Lower(key) == key;
    }
  }

  /** Matching against a lower-case table is a lookup of the lower-cased extension. */
  lemma {:induction false} FirstMatchLower(ext: string, table: seq<(string, Decoder)>)
    requires forall k :: 0 <= k < |table| ==> Lower(table[k].0) == table[k].0
    ensures FirstMatch(ext, table) == FirstMatch(Lower(ext), table)
  {
    if table != [] {
      var key := table[0].0;
      SameIgnoringCaseIsLowerEq(ext, key);
      SameIgnoringCaseIsLowerEq(Lower(ext), key);
      LowerIdempotent(ext);
      FirstMatchLower(ext, table[1..]);
    }
  }

  lemma LowerIdempotent(s: string)
    ensures Lower(Lower(s)) == Lower(s)
  {
    assert forall k :: 0 <= k < |s| ==> ToLower(ToLower(s[k])) == ToLower(s[k]);
  }

  /** `FirstMatch` finds an entry that matches, or reports that none does. */
  lemma {:induction false} FirstMatchFinds(ext: string, table: seq<(string, Decoder)>)
    ensures FirstMatch(ext, table).None? ==> forall k :: 0 <= k < |table| ==> !SameIgnoringCase(ext, table[k].0)
    ensures FirstMatch(ext, table).Some? ==>
      exists k :: 0 <= k < |table| && SameIgnoringCase(ext, table[k].0) && FirstMatch(ext, table).value == table[k].1
  {
    if table != [] && !SameIgnoringCase(ext, table[0].0) {
      FirstMatchFinds(ext, table[1..]);
      if FirstMatch(ext, table).Some? {
        var k :| 0 <= k < |table[1..]| && SameIgnoringCase(ext, table[1..][k].0) && FirstMatch(ext, table).value == table[1..][k].1;
        assert table[1..][k] == table[k + 1];
      } else {
        forall k | 0 < k < |table|
          ensures !SameIgnoringCase(ext, table[k].0)
        {
          assert table[1..][k - 1] == table[k];
        }
      }
    }
  }

  /** Every table entry maps its key the way `DecoderFor` does. */
  lemma LoaderTableAgrees()
    ensures forall k :: 0 <= k < |LoaderTable| ==> DecoderFor(LoaderTable[k].0) == LoaderTable[k].1
  {
  }

  /** `DecoderFor` names a dedicated decoder only for a key of the table. */
  lemma DecoderForOnlyKeys(x: string)
    requires DecoderFor(x) != Stb
    ensures exists k :: 0 <= k < |LoaderTable| && LoaderTable[k].0 == x
  {
    var t := LoaderTable;
    var k :=
      if x == ".png" then 0 else if x == ".jpg" then 1 else if x == ".jpeg" then 2
      else if x == ".webp" then 3 else if x == ".heif" then 4 else if x == ".heic" then 5
      else if x == ".avif" then 6 else if x == ".tiff" then 7 else if x == ".tif" then 8 else 9;
    assert t[k].0 == x;
  }

  /** On a lower-case string the table lookup agrees with `DecoderFor`. */
  lemma TableLookupIsDecoderFor(lowerExt: string)
    requires Lower(lowerExt) == lowerExt
    ensures (match FirstMatch(lowerExt, LoaderTable) case Some(d) => d case None => Stb) == DecoderFor(lowerExt)
  {
    LoaderTableLower();
    LoaderTableAgrees();
    FirstMatchFinds(lowerExt, LoaderTable);
    var t := LoaderTable;
    forall k | 0 <= k < |t|
      ensures SameIgnoringCase(lowerExt, t[k].0) <==> lowerExt == t[k].0
    {
      SameIgnoringCaseIsLowerEq(lowerExt, t[k].0);
    }
    if FirstMatch(lowerExt, t).None? && DecoderFor(lowerExt) != Stb {
      DecoderForOnlyKeys(lowerExt);
    }
  }

  /** The dispatch table and the case-by-case statement agree on every path with an extension. */
  lemma SelectDecoderIsDecoderFor(path: string, ext: string)
    requires Extension(path) == Some(ext)
    ensures SelectDecoder(path) == DecoderFor(Lower(ext))
  {
    LoaderTableLower();
    FirstMatchLower(ext, LoaderTable);
    LowerIdempotent(ext);
    TableLookupIsDecoderFor(Lower(ext));
  }

  /** A name ending in a given spelling of an extension is dispatched on its lower-cased form. */
  lemma DispatchSpelling(p: string, e: string, lower: string)
    requires |e| > 0 && e[0] == '.'
    requires forall k :: 0 < k < |e| ==> e[k] != '.'
    requires |lower| == |e| && forall k :: 0 <= k < |e| ==> ToLower(e[k]) == lower[k]
    ensures SelectDecoder(p + e) == DecoderFor(lower)
  {
    ExtensionOfSuffix(p, e);
    assert Lower(e) == lower;
    SelectDecoderIsDecoderFor(p + e, e);
  }

  /** `.jpg` and `.jpeg` share the libjpeg-turbo decoder, in any letter case. */
  lemma JpegAliases(p: string)
    ensures SelectDecoder(p + ".jpg") == SelectDecoder(p + ".JPEG") == JpegTurbo
  {
    DispatchSpelling(p, ".jpg", ".jpg");
    DispatchSpelling(p, ".JPEG", ".jpeg");
  }

  /** `.heif` and `.heic` share the libheif decoder, in any letter case. */
  lemma HeifAliases(p: string)
    ensures SelectDecoder(p + ".heif") == SelectDecoder(p + ".HEIC") == HeifAvif
  {
    DispatchSpelling(p, ".heif", ".heif");
    DispatchSpelling(p, ".HEIC", ".heic");
  }

  /** `.avif` goes to the libheif decoder too, in any letter case. */
  lemma AvifUsesHeif(p: string)
    ensures SelectDecoder(p + ".avif") == SelectDecoder(p + ".AVIF") == HeifAvif
  {
    DispatchSpelling(p, ".avif", ".avif");
    DispatchSpelling(p, ".AVIF", ".avif");
  }

  /** `.tif` and `.tiff` share the libtiff decoder, in any letter case. */
  lemma TiffAliases(p: string)
    ensures SelectDecoder(p + ".tif") == SelectDecoder(p + ".TiFf") == Tiff
  {
    DispatchSpelling(p, ".tif", ".tif");
    DispatchSpelling(p, ".TiFf", ".tiff");
  }

  /** `.gif`, which the catalogue accepts but the table lacks, falls back to stb. */
  lemma GifFallsBack(p: string)
    ensures SelectDecoder(p + ".gif") == Stb
  {
    DispatchSpelling(p, ".gif", ".gif");
  }

  /** A name without a dot always goes to stb. */
  lemma NoDotFallsBack(path: string)
    requires forall k :: 0 <= k < |path| ==> path[k] != '.'
    ensures SelectDecoder(path) == Stb
  {
    assert LastDot(path).None?;
  }

  /** The dispatch loop of the worker: scan the table in order, stop at the first match. */
  method LookupLoader(path: string) returns (loader: Decoder)
    ensures loader == SelectDecoder(path)
  {
    loader := Stb;
    var ext := Extension(path);
    if ext.Some? {
      var i := 0;
      while i < |LoaderTable|
        invariant 0 <= i <= |LoaderTable|
        invariant FirstMatch(ext.value, LoaderTable) == FirstMatch(ext.value, LoaderTable[i..])
        invariant loader == Stb
      {
        if SameIgnoringCase(ext.value, LoaderTable[i].0) {
          loader := LoaderTable[i].1;
          break;
        }
        assert LoaderTable[i..][1..] == LoaderTable[i + 1..];
        i := i + 1;
      }
    }
  }

  /** The extensions the directory scan accepts. */
  const CatalogueExtensions: seq<string> := [
    ".png", ".jpg", ".jpeg", ".bmp", ".tga", ".gif", ".webp",
    ".heif", ".heic", ".avif", ".tiff", ".tif", ".jxl"]

  /** Does `ext` equal one of `exts`, ignoring case? */
  function MatchesAny(ext: string, exts: seq<string>): bool
  {
    exists k :: 0 <= k < |exts| && SameIgnoringCase(ext, exts[k])
  }

  /** A directory entry is catalogued when its extension is one of the thirteen. */
  function IsCatalogued(name: string): (listed: bool)
    ensures listed ==> |name| >= 4
  {
    match Extension(name)
    case None => false
    case Some(ext) =>
      var found := MatchesAny(ext, CatalogueExtensions);
      assert found ==> |ext| >= 4 by {
        if found {
          var k :| 0 <= k < |CatalogueExtensions| && SameIgnoringCase(ext, CatalogueExtensions[k]);
          assert |CatalogueExtensions[k]| >= 4;
        }
      }
      found
  }

  /** The scan's test for one name: a loop over the thirteen extensions. */
  method IsListedImage(name: string) returns (matched: bool)
    ensures matched == IsCatalogued(name)
  {
    matched := false;
    var ext := Extension(name);
    if ext.Some? {
      for i := 0 to |CatalogueExtensions|
        invariant !matched
        invariant forall k :: 0 <= k < i ==> !SameIgnoringCase(ext.value, CatalogueExtensions[k])
      {
        if SameIgnoringCase(ext.value, CatalogueExtensions[i]) {
          matched := true;
          assert MatchesAny(ext.value, CatalogueExtensions);
          break;
        }
      }
      assert matched || !MatchesAny(ext.value, CatalogueExtensions);
    }
  }

  /** Every key of the dispatch table is one of the catalogue's extensions. */
  lemma TableKeysCatalogued(k: nat)
    requires k < |LoaderTable|
    ensures exists j :: 0 <= j < |CatalogueExtensions| && CatalogueExtensions[j] == LoaderTable[k].0
  {
    var j := [0, 1, 2, 6, 7, 8, 9, 10, 11, 12][k];
    assert CatalogueExtensions[j] == LoaderTable[k].0;
  }

  /** Every file that gets a dedicated decoder is also accepted by the catalogue filter. */
  lemma DispatchedFilesAreCatalogued(path: string)
    requires SelectDecoder(path) != Stb
    ensures IsCatalogued(path)
  {
    var ext := Extension(path).value;
    SelectDecoderIsDecoderFor(path, ext);
    var l := Lower(ext);
    DecoderForOnlyKeys(l);
    var k :| 0 <= k < |LoaderTable| && LoaderTable[k].0 == l;
    TableKeysCatalogued(k);
    var j :| 0 <= j < |CatalogueExtensions| && CatalogueExtensions[j] == LoaderTable[k].0;
    LoaderTableLower();
    LowerIdempotent(ext);
    SameIgnoringCaseIsLowerEq(ext, CatalogueExtensions[j]);
  }

  /** `fileSizeKB = (uint32_t)(bytes / 1024)`: floor division, then truncation to 32 bits. */
  function FileSizeKB(bytes: nat): (kb: U32)
    ensures kb * 1024 <= bytes
  {
    (bytes / 1024) % U32_LIMIT
  }

  /** Below 4 TiB the stored size is the floor of the size in KiB. */
  lemma FileSizeKBIsFloor(bytes: nat)
    requires bytes < 1024 * U32_LIMIT
    ensures FileSizeKB(bytes) * 1024 <= bytes < (FileSizeKB(bytes) + 1) * 1024
  {
  }
}
