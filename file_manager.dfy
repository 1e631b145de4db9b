/** The image file manager as the note service sees it (IFileManager): a save
    that hands back a stored path and a delete. The files themselves are not
    modelled; a ghost log records every call in order, so that callers can
    state which calls they make, how often and in what order. */
module FileManagement {
  import opened Entities
  import opened Paths

  datatype FileCall = Save(file: FormFile, path: string) | Delete(path: string)

  /** Decimal digits of `n`, without leading zeros. */
  function Digits(n: nat): (r: string)
    ensures |r| >= 1 && forall c :: c in r ==> '0' <= c <= '9'
    ensures (n < 10) == (|r| == 1)
    decreases n
  {
    (if n < 10 then "" else Digits(n / 10)) + [('0' as int + n % 10) as char]
  }

  /** Distinct numbers have distinct digits. */
  lemma {:induction false} DigitsInjective(a: nat, b: nat)
    requires Digits(a) == Digits(b)
    ensures a == b
    decreases a
  {
    var d := Digits(a);
    var ca, cb := ('0' as int + a % 10) as char, ('0' as int + b % 10) as char;
    assert d == (if a < 10 then "" else Digits(a / 10)) + [ca];
    assert d == (if b < 10 then "" else Digits(b / 10)) + [cb];
    assert ca == d[|d| - 1] == cb;
    assert ca as int == '0' as int + a % 10 && cb as int == '0' as int + b % 10;
    if a >= 10 {
      assert Digits(a / 10) == d[..|d| - 1] == Digits(b / 10);
      DigitsInjective(a / 10, b / 10);
    }
  }

  /** The prefix that makes the n-th stored file name unique; it stands in for
      the fresh GUID that FileManager puts before the uploaded file name. The
      count is unique per FileManager instance only, while a GUID is unique
      across instances. */
  function Stem(n: nat): (r: string)
    ensures forall c :: c in r ==> !IsDirectorySeparator(c)
  {
    Digits(n) + "-"
  }

  /** A stored name determines the save that produced it and the uploaded
      file name: the stem ends at its first '-'. */
  lemma StemDeterminesCount(a: nat, b: nat, x: string, y: string)
    requires Stem(a) + x == Stem(b) + y
    ensures a == b && x == y
  {
    var s := Stem(a) + x;
    var la, lb := |Digits(a)|, |Digits(b)|;
    forall i | 0 <= i < la ensures s[i] != '-' {
      assert s[i] == Digits(a)[i] && Digits(a)[i] in Digits(a);
    }
    forall i | 0 <= i < lb ensures s[i] != '-' {
      assert s[i] == Digits(b)[i] && Digits(b)[i] in Digits(b);
    }
    assert s[la] == '-' && s[lb] == '-';
    assert la == lb;
    assert Digits(a) == s[..la] == Digits(b);
    DigitsInjective(a, b);
    assert x == s[la + 1..] == y;
  }

  /** Two saves through the same file manager return the same path only if
      they are the same save of the same file name. */
  lemma SavedPathsDiffer(basePath: string, a: nat, b: nat, x: string, y: string)
    requires basePath + "/" + Stem(a) + x == basePath + "/" + Stem(b) + y
    ensures a == b && x == y
  {
    var n := |basePath| + 1;
    assert (basePath + "/" + Stem(a) + x)[n..] == Stem(a) + x;
    assert (basePath + "/" + Stem(b) + y)[n..] == Stem(b) + y;
    StemDeterminesCount(a, b, x, y);
  }

  /** A path joined from a directory and two parts without separators has no
      separator after the directory. */
  lemma StoredNameHasNoSeparator(dir: string, stem: string, name: string)
    requires forall c :: c in stem ==> !IsDirectorySeparator(c)
    requires forall c :: c in name ==> !IsDirectorySeparator(c)
    ensures forall c :: c in (dir + "/" + stem + name)[|dir| + 1..] ==> !IsDirectorySeparator(c)
  {
    assert (dir + "/" + stem + name)[|dir| + 1..] == stem + name;
  }

  class FileManager {
    /** The directory every stored image goes to. */
    const basePath: string
    /** How many images were saved. */
    var saved: nat
    /** Every call made to this file manager, oldest first. */
    ghost var calls: seq<FileCall>

    /** Images go to the `images` directory under the configured path. */
    constructor (basePath: string)
      ensures this.basePath == basePath + "/images" && saved == 0 && calls == []
    {
      this.basePath := basePath + "/images";
      saved := 0;
      calls := [];
    }

    /** SaveImageAsync: stores the upload in the base directory under a fresh
        stem followed by the upload's file name, without its directory parts,
        and returns the stored path. */
    method SaveImage(file: FormFile) returns (path: string)
      modifies this
      ensures saved == old(saved) + 1
      ensures path == basePath + "/" + Stem(old(saved)) + FileName(file.fileName)
      ensures forall c :: c in path[|basePath| + 1..] ==> !IsDirectorySeparator(c)
      ensures calls == old(calls) + [Save(file, path)]
    {
      var name := Stem(saved) + FileName(file.fileName);
      path := basePath + "/" + name;
      StoredNameHasNoSeparator(basePath, Stem(saved), FileName(file.fileName));
      saved := saved + 1;
      calls := calls + [Save(file, path)];
    }

    /** DeleteImageAsync: recorded; the save count stays, so a later save
        still gets a fresh stem. */
    method DeleteImage(path: string)
      modifies this
      ensures saved == old(saved)
      ensures calls == old(calls) + [Delete(path)]
    {
      calls := calls + [Delete(path)];
    }
  }
}
