/**
 * The name `dct2_compress` gives the compressed image
 * (compression_tool/main.py:114-115): the input's base name without its
 * extension, then `_compressed_F<F>_d<d>.bmp`. `os.path` is taken with the
 * POSIX separator '/'.
 */
module OutputName {
  import opened Wrappers
  import opened Decimal

  /** Index of the last `ch` in `s`, or -1 when there is none (Python's `str.rfind`). */
  function LastIndexOf(s: string, ch: char): (i: int)
    ensures -1 <= i < |s|
    ensures i >= 0 ==> s[i] == ch
    ensures forall j :: i < j < |s| ==> s[j] != ch
  {
    if s == [] then -1
    else if s[|s| - 1] == ch then |s| - 1
    else LastIndexOf(s[..|s| - 1], ch)
  }

  /** `os.path.basename`: the longest suffix of the path without a '/'. */
  function Basename(path: string): (b: string)
    ensures '/' !in b
    ensures |b| <= |path| && b == path[|path| - |b|..]
    ensures |b| < |path| ==> path[|path| - |b| - 1] == '/'
  {
    if path == [] then []
    else if path[|path| - 1] == '/' then []
    else Basename(path[..|path| - 1]) + [path[|path| - 1]]
  }

  /**
   * `os.path.splitext(name)[0]`: the name up to its last '.', unless every
   * character before that dot is itself a dot (".bashrc" keeps its dot).
   */
  function StripExtension(name: string): (root: string)
    ensures |root| <= |name| && root == name[..|root|]
    ensures root != name ==> name[|root|] == '.' && '.' !in name[|root| + 1..]
    ensures root != name ==> exists j :: 0 <= j < |root| && root[j] != '.'
    ensures root == name ==> forall j :: 0 <= j < LastIndexOf(name, '.') ==> name[j] == '.'
  {
    var dot := LastIndexOf(name, '.');
    if dot > 0 && exists j :: 0 <= j < dot && name[j] != '.' then name[..dot] else name
  }

  /** `f"{img_name}_compressed_F{F}_d{d}.bmp"` with `img_name` the input's base name without extension. */
  function CompressedName(inputFile: string, F: int, d: int): (n: string)
    ensures '/' !in n
    ensures |n| >= 4 && n[|n| - 4..] == ".bmp"
  {
    var stem := StripExtension(Basename(inputFile));
    StemHasNoSlash(inputFile);
    NumberChars(F);
    NumberChars(d);
    NameHasNoSlash(stem, IntToString(F), IntToString(d));
    stem + "_compressed_F" + IntToString(F) + "_d" + IntToString(d) + ".bmp"
  }

  /** The stem is a prefix of the base name, so it holds no '/' either. */
  lemma StemHasNoSlash(inputFile: string)
    ensures '/' !in StripExtension(Basename(inputFile))
  {
    var b := Basename(inputFile);
    var stem := StripExtension(b);
    forall i | 0 <= i < |stem| ensures stem[i] != '/' {
      assert stem[i] == b[i];
    }
  }

  /** The pieces of a name, none holding a '/', give a '/'-free name ending in ".bmp". */
  lemma NameHasNoSlash(stem: string, fs: string, ds: string)
    requires '/' !in stem && '/' !in fs && '/' !in ds
    ensures '/' !in stem + "_compressed_F" + fs + "_d" + ds + ".bmp"
    ensures var n := stem + "_compressed_F" + fs + "_d" + ds + ".bmp"; |n| >= 4 && n[|n| - 4..] == ".bmp"
  {
    var n := stem + "_compressed_F" + fs + "_d" + ds + ".bmp";
    var a := stem + "_compressed_F";
    var b := a + fs + "_d";
    forall i | 0 <= i < |n| ensures n[i] != '/' {
      if i < |stem| {
        assert n[i] == stem[i];
      } else if i < |a| {
        assert n[i] == "_compressed_F"[i - |stem|];
      } else if i < |a| + |fs| {
        assert n[i] == fs[i - |a|];
      } else if i < |b| {
        assert n[i] == "_d"[i - |a| - |fs|];
      } else if i < |b| + |ds| {
        assert n[i] == ds[i - |b|];
      } else {
        assert n[i] == ".bmp"[i - |b| - |ds|];
      }
    }
  }

  /** What a compressed file name records: the original stem, F and d. */
  datatype NameParts = NameParts(stem: string, F: int, d: int)

  /** `s` without `suffix`, when it ends with it. */
  function DropSuffix(s: string, suffix: string): Option<string> {
    if |s| >= |suffix| && s[|s| - |suffix|..] == suffix then Some(s[..|s| - |suffix|]) else None
  }

  /** Splits `s` at its last '_' when a `tag` follows it: the text before the '_' and the text after the tag. */
  function SplitTag(s: string, tag: char): Option<(string, string)> {
    var u := LastIndexOf(s, '_');
    if u < 0 || |s| < u + 2 || s[u + 1] != tag then None else Some((s[..u], s[u + 2..]))
  }

  /** Reads a name of the form `<stem>_compressed_F<F>_d<d>.bmp` back into its parts. */
  function ParseCompressedName(name: string): Option<NameParts> {
    match DropSuffix(name, ".bmp")
    case None => None
    case Some(body) =>
      match SplitTag(body, 'd')
      case None => None
      case Some((head, dText)) =>
        match SplitTag(head, 'F')
        case None => None
        case Some((pre, fText)) =>
          match (DropSuffix(pre, "_compressed"), ParseInt(fText), ParseInt(dText))
          case (Some(stem), Some(f), Some(cut)) => Some(NameParts(stem, f, cut))
          case _ => None
  }

  lemma DropSuffixAppend(a: string, suffix: string)
    ensures DropSuffix(a + suffix, suffix) == Some(a)
  {
    var s := a + suffix;
    assert s[|s| - |suffix|..] == suffix;
    assert s[..|s| - |suffix|] == a;
  }

  /** The last `ch` of `a + [ch] + b` is the one after `a` when `b` holds no `ch`. */
  lemma {:induction false} LastIndexOfAppend(a: string, ch: char, b: string)
    requires ch !in b
    ensures LastIndexOf(a + [ch] + b, ch) == |a|
    decreases |b|
  {
    var s := a + [ch] + b;
    if b == [] {
      assert s[|s| - 1] == ch;
    } else {
      var last := |b| - 1;
      assert s[|s| - 1] == b[last];
      assert s[..|s| - 1] == a + [ch] + b[..last];
      LastIndexOfAppend(a, ch, b[..last]);
    }
  }

  lemma SplitTagAppend(a: string, tag: char, text: string)
    requires '_' !in text && tag != '_'
    ensures SplitTag(a + "_" + [tag] + text, tag) == Some((a, text))
  {
    var s := a + "_" + [tag] + text;
    assert s == a + ['_'] + ([tag] + text);
    LastIndexOfAppend(a, '_', [tag] + text);
    assert s[..|a|] == a;
    assert s[|a| + 2..] == text;
  }

  /** The decimal text of a number holds neither '_' nor '/'. */
  lemma NumberChars(n: int)
    ensures '_' !in IntToString(n) && '/' !in IntToString(n)
  {
  }

  /** The f-string, regrouped into the pieces the parser takes apart. */
  lemma NamePieces(stem: string, fs: string, ds: string)
    ensures stem + "_compressed_F" + fs + "_d" + ds + ".bmp"
         == (((stem + "_compressed") + "_" + ['F'] + fs) + "_" + ['d'] + ds) + ".bmp"
  {
    assert "_compressed_F" == "_compressed" + "_" + ['F'];
    assert "_d" == "_" + ['d'];
  }

  /** The parser reads back the stem and numbers a name was assembled from. */
  lemma ParsePieces(stem: string, F: int, d: int)
    ensures ParseCompressedName((((stem + "_compressed") + "_" + ['F'] + IntToString(F)) + "_" + ['d'] + IntToString(d)) + ".bmp")
         == Some(NameParts(stem, F, d))
  {
    var pre := stem + "_compressed";
    var head := pre + "_" + ['F'] + IntToString(F);
    var body := head + "_" + ['d'] + IntToString(d);
    DropSuffixAppend(body, ".bmp");
    NumberChars(F);
    NumberChars(d);
    SplitTagAppend(head, 'd', IntToString(d));
    SplitTagAppend(pre, 'F', IntToString(F));
    DropSuffixAppend(stem, "_compressed");
    ParseIntOfIntToString(F);
    ParseIntOfIntToString(d);
  }

  /** The name records the stem, F and d, and they can be read back from it. */
  lemma ParseCompressedNameRoundTrip(inputFile: string, F: int, d: int)
    ensures ParseCompressedName(CompressedName(inputFile, F, d))
         == Some(NameParts(StripExtension(Basename(inputFile)), F, d))
  {
    var stem := StripExtension(Basename(inputFile));
    NamePieces(stem, IntToString(F), IntToString(d));
    ParsePieces(stem, F, d);
  }

  lemma {:induction false} BasenameAfterSlash(dir: string, file: string)
    requires '/' !in file
    ensures Basename(dir + "/" + file) == file
    decreases |file|
  {
    var path := dir + "/" + file;
    if file != [] {
      var last := |file| - 1;
      assert path[..|path| - 1] == dir + "/" + file[..last];
      BasenameAfterSlash(dir, file[..last]);
      assert file == file[..last] + [file[last]];
    } else {
      assert path[|path| - 1] == '/';
    }
  }

  lemma StripBmp(stem: string)
    requires exists j :: 0 <= j < |stem| && stem[j] != '.'
    ensures StripExtension(stem + ".bmp") == stem
  {
    var file := stem + ".bmp";
    assert file == stem + ['.'] + "bmp";
    LastIndexOfAppend(stem, '.', "bmp");
    var j :| 0 <= j < |stem| && stem[j] != '.';
    assert file[j] != '.';
    assert file[..|stem|] == stem;
  }

  lemma NoSlashInBmp(stem: string)
    requires '/' !in stem
    ensures '/' !in stem + ".bmp"
  {
    var file := stem + ".bmp";
    forall i | 0 <= i < |file| ensures file[i] != '/' {
      if i < |stem| {
        assert file[i] == stem[i];
      }
    }
  }

  lemma BmpPath(dir: string, stem: string)
    ensures dir + "/" + stem + ".bmp" == dir + "/" + (stem + ".bmp")
  {
  }

  /** A `.bmp` input in any folder yields the stem it was saved under. */
  lemma StemOfBmp(dir: string, stem: string)
    requires '/' !in stem
    requires exists j :: 0 <= j < |stem| && stem[j] != '.'
    ensures StripExtension(Basename(dir + "/" + stem + ".bmp")) == stem
  {
    var file := stem + ".bmp";
    NoSlashInBmp(stem);
    BmpPath(dir, stem);
    BasenameAfterSlash(dir, file);
    StripBmp(stem);
  }
}
