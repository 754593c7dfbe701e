/** The older decoder in lib/stardict.js: `loadIdx` takes its counts from the
    caller, which `parseInt`s the string values of the `.ifo` map; and
    `fromIfo` names the dictionary after the `.ifo` file. Its `loadIfo` is the
    shared parse `IfoText.ParseIfo`, and its record loop is `IdxFormat.ScanIdx`. */
module Stardict {
  import opened Wrappers
  import opened Buffers
  import opened JsNumbers
  import opened IfoText
  import opened IdxFormat
  import Dict

  /** `parseInt(ifo.k, 10)`: a missing key gives `parseInt(undefined)`, which
      reads the string "undefined" and yields NaN. */
  function IntArg(ifo: map<string, string>, k: string): (n: Num)
    ensures k !in ifo ==> n == NaN
  {
    if k in ifo then ParseInt(ifo[k]) else NaN
  }

  /** `loadIdx(idxFile, wordcount, filesize)`, given the file's bytes.
      `mismatch` says whether the size warning is printed; the entries do not
      depend on `filesize`. */
  method LoadIdx(buffer: seq<byte>, wordcount: Num, filesize: Num) returns (r: Result<seq<IndexEntry>, Error>, mismatch: bool)
    ensures r == IdxEntries(buffer, Trips(wordcount))
    ensures r.Success? ==> |r.value| == Trips(wordcount)
    ensures mismatch <==> filesize != Int(|buffer|)
  {
    mismatch := filesize != Int(|buffer|);
    r := ScanIdx(buffer, Trips(wordcount));
  }

  /** A NaN or non-positive `wordcount` gives no entries and no error. */
  lemma NoCountNoEntries(buffer: seq<byte>, wordcount: Num)
    requires wordcount == NaN || (wordcount.Int? && wordcount.value <= 0)
    ensures IdxEntries(buffer, Trips(wordcount)) == Success([])
  {
  }

  /** The two decoders agree: the pass count and the size warning that
      lib/stardict.js derives with `parseInt` at the call site are those that
      lib/dict.js derives from its coerced `.ifo` fields. */
  lemma LoadersAgree(text: string, length: nat)
    ensures var m, ifo := ParseIfo(text), Dict.IfoOf(text);
      && Dict.Bound(ifo.wordcount) == Trips(IntArg(m, "wordcount"))
      && (Dict.SizeMismatch(length, ifo.idxfilesize) <==> IntArg(m, "idxfilesize") != Int(length))
  {
  }

  /** `s` holds no separator. */
  predicate NoSep(s: string, sep: char)
  {
    forall i :: 0 <= i < |s| ==> s[i] != sep
  }

  /** `ifoFile.split(sep).slice(-1).pop()`: the text after the last separator,
      or the whole path when there is none. */
  function LastSegment(path: string, sep: char): (r: string)
    ensures |r| <= |path| && r == path[|path| - |r|..]
    ensures NoSep(r, sep)
    ensures |r| < |path| ==> path[|path| - |r| - 1] == sep
  {
    if path == [] || path[|path| - 1] == sep then []
    else LastSegment(path[..|path| - 1], sep) + [path[|path| - 1]]
  }

  predicate EndsWithIfo(s: string)
  {
    |s| >= 4 && s[|s| - 4..] == ".ifo"
  }

  /** The `dictID` of `fromIfo`: the last path segment, without its `.ifo`
      suffix when it has one. */
  function DictId(ifoFile: string, sep: char): (id: string)
    ensures var f := LastSegment(ifoFile, sep);
      && (EndsWithIfo(f) ==> id + ".ifo" == f)
      && (!EndsWithIfo(f) ==> id == f)
    ensures NoSep(id, sep)
  {
    var fname := LastSegment(ifoFile, sep);
    if EndsWithIfo(fname) then
      StripIfo(fname, sep);
      fname[..|fname| - 4]
    else fname
  }

  lemma StripIfo(f: string, sep: char)
    requires EndsWithIfo(f) && NoSep(f, sep)
    ensures f[..|f| - 4] + ".ifo" == f && NoSep(f[..|f| - 4], sep)
  {
    assert f[..|f| - 4] + f[|f| - 4..] == f;
    var id := f[..|f| - 4];
    forall i | 0 <= i < |id| ensures id[i] != sep {
      assert id[i] == f[i];
    }
  }

  /** A segment after a separator (or at the start) is found whatever precedes
      it. */
  lemma {:induction false} LastSegmentOf(dir: string, name: string, sep: char)
    requires dir == [] || dir[|dir| - 1] == sep
    requires NoSep(name, sep)
    ensures LastSegment(dir + name, sep) == name
  {
    if name == [] {
      assert dir + name == dir;
    } else {
      var init, last := name[..|name| - 1], name[|name| - 1];
      var p := dir + name;
      assert p[..|p| - 1] == dir + init;
      assert p[|p| - 1] == last && last != sep;
      assert NoSep(init, sep) by {
        forall i | 0 <= i < |init| ensures init[i] != sep {
          assert init[i] == name[i];
        }
      }
      LastSegmentOf(dir, init, sep);
      assert LastSegment(p, sep) == LastSegment(dir + init, sep) + [last];
      assert init + [last] == name;
    }
  }

  /** A name followed by ".ifo" holds a separator only if the name does. */
  lemma NoSepIfo(name: string, sep: char)
    requires sep == '/' || sep == '\\'
    requires NoSep(name, sep)
    ensures NoSep(name + ".ifo", sep)
  {
    var f := name + ".ifo";
    forall i | 0 <= i < |f| ensures f[i] != sep {
      if i >= |name| {
        assert f[i] == ".ifo"[i - |name|];
      }
    }
  }

  /** `dir/name.ifo` is named `name`, with either separator `path.sep` can be. */
  lemma DictIdOfIfo(dir: string, name: string, sep: char)
    requires sep == '/' || sep == '\\'
    requires dir == [] || dir[|dir| - 1] == sep
    requires NoSep(name, sep)
    ensures DictId(dir + name + ".ifo", sep) == name
  {
    var f := name + ".ifo";
    IfoName(dir, name);
    NoSepIfo(name, sep);
    LastSegmentOf(dir, f, sep);
  }

  lemma IfoName(dir: string, name: string)
    ensures var f := name + ".ifo";
      dir + name + ".ifo" == dir + f && EndsWithIfo(f) && f[..|f| - 4] == name
  {
    var f := name + ".ifo";
    assert f[|f| - 4..] == ".ifo";
    assert f[..|f| - 4] == name;
  }

  /** A file name without the suffix is the name itself. */
  lemma DictIdWithoutSuffix(dir: string, name: string, sep: char)
    requires dir == [] || dir[|dir| - 1] == sep
    requires NoSep(name, sep)
    requires !EndsWithIfo(name)
    ensures DictId(dir + name, sep) == name
  {
    LastSegmentOf(dir, name, sep);
  }
}
