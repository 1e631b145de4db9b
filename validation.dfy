/** The two upload validation attributes, as predicates over the validated
    value and the attribute's configured parameter. */
module ValidationAttributes {
  import opened Entities
  import opened Paths

  /** The bound and the allow-list that note images carry (CreateNoteDTO.Image
      and NoteUpdateImageDTO.Image). */
  const MaxImageBytes: int := 5 * 1024 * 1024
  const ImageExtensions: seq<string> := [".jpg", ".jpeg", ".png"]

  /** MaxFileSizeAttribute.IsValid: only a file longer than the bound fails. */
  predicate MaxFileSizeValid(value: Upload, maxFileSize: int) {
    !(value.File? && value.file.length > maxFileSize)
  }

  /** `k` is where Path.GetExtension starts: a '.' that is not the last
      character and is followed by neither a '.' nor a directory separator. */
  ghost predicate ExtensionStartsAt(path: string, k: int) {
    0 <= k < |path| - 1 && path[k] == '.' &&
    forall j :: k < j < |path| ==> path[j] != '.' && !IsDirectorySeparator(path[j])
  }

  /** Path.GetExtension scanning `path[..i]` backwards, when nothing in
      `path[i..]` is a '.' or a separator. */
  function ExtensionScan(path: string, i: nat): (r: string)
    requires i <= |path|
    requires forall j :: i <= j < |path| ==> path[j] != '.' && !IsDirectorySeparator(path[j])
    ensures r == "" ==> forall k :: !ExtensionStartsAt(path, k)
    ensures r != "" ==> exists k :: k < i && ExtensionStartsAt(path, k) && r == path[k..]
    decreases i
  {
    if i == 0 then ""
    else if path[i - 1] == '.' then
      (if i == |path| then "" else assert ExtensionStartsAt(path, i - 1); path[i - 1..])
    else if IsDirectorySeparator(path[i - 1]) then ""
    else ExtensionScan(path, i - 1)
  }

  /** Path.GetExtension: the suffix from the last '.' of the last path segment,
      or "" when there is none or the '.' ends the path. */
  function GetExtension(path: string): (r: string)
    ensures r == "" <==> forall k :: !ExtensionStartsAt(path, k)
    ensures forall k :: ExtensionStartsAt(path, k) ==> r == path[k..]
  {
    var r := ExtensionScan(path, |path|);
    assert forall k, k' :: ExtensionStartsAt(path, k) && ExtensionStartsAt(path, k') ==> k == k' by {
      forall k, k' | ExtensionStartsAt(path, k) && ExtensionStartsAt(path, k') ensures k == k' {
        assert path[k] == '.' && path[k'] == '.';
      }
    }
    r
  }

  /** char.ToLowerInvariant on the ASCII letters. */
  function LowerChar(c: char): char {
    if 'A' <= c <= 'Z' then (c as int + 32) as char else c
  }

  /** string.ToLowerInvariant on the ASCII letters. */
  function ToLower(s: string): (r: string)
    ensures |r| == |s| && forall i :: 0 <= i < |s| ==> r[i] == LowerChar(s[i])
  {
    seq(|s|, i requires 0 <= i < |s| => LowerChar(s[i]))
  }

  /** AllowedExtensionsAttribute.IsValid: null and non-file values pass; a file
      passes when its lower-cased extension is in the list. */
  predicate AllowedExtensionsValid(value: Upload, extensions: seq<string>) {
    value.File? ==> ToLower(GetExtension(value.file.fileName)) in extensions
  }

  /** Both attributes as they stand on the note image properties. */
  predicate ImageUploadValid(value: Upload) {
    MaxFileSizeValid(value, MaxImageBytes) && AllowedExtensionsValid(value, ImageExtensions)
  }

  /** A value that is not a file passes both attributes, whatever their parameters. */
  lemma NonFilePasses(value: Upload, maxFileSize: int, extensions: seq<string>)
    requires !value.File?
    ensures MaxFileSizeValid(value, maxFileSize) && AllowedExtensionsValid(value, extensions)
  {
  }

  /** The size bound is inclusive: a file of exactly the bound passes, one byte more fails. */
  lemma MaxFileSizeInclusive(name: string, maxFileSize: int)
    ensures MaxFileSizeValid(File(FormFile(name, maxFileSize)), maxFileSize)
    ensures !MaxFileSizeValid(File(FormFile(name, maxFileSize + 1)), maxFileSize)
  {
  }

  /** Lower-casing is idempotent. */
  lemma ToLowerIdempotent(s: string)
    ensures ToLower(ToLower(s)) == ToLower(s)
  {
  }

  /** Lower-casing neither makes nor unmakes a '.' or a separator. */
  lemma LowerCharKeepsSeparators(c: char)
    ensures (LowerChar(c) == '.') == (c == '.')
    ensures IsDirectorySeparator(LowerChar(c)) == IsDirectorySeparator(c)
  {
  }

  /** The extension of a lower-cased name is the lower-cased extension:
      '.' and the separators are not letters. */
  lemma {:induction false} ExtensionScanOfLower(path: string, i: nat)
    requires i <= |path|
    requires forall j :: i <= j < |path| ==> path[j] != '.' && !IsDirectorySeparator(path[j])
    ensures forall j :: i <= j < |path| ==> ToLower(path)[j] != '.' && !IsDirectorySeparator(ToLower(path)[j])
    ensures ExtensionScan(ToLower(path), i) == ToLower(ExtensionScan(path, i))
    decreases i
  {
    var low := ToLower(path);
    forall j | i <= j < |path| ensures low[j] != '.' && !IsDirectorySeparator(low[j]) {
      LowerCharKeepsSeparators(path[j]);
    }
    if i > 0 {
      LowerCharKeepsSeparators(path[i - 1]);
      if path[i - 1] == '.' {
        if i < |path| {
          assert low[i - 1..] == ToLower(path[i - 1..]);
        }
      } else if !IsDirectorySeparator(path[i - 1]) {
        ExtensionScanOfLower(path, i - 1);
      }
    }
  }

  /** Whether a file passes the allow-list depends on its name only up to case:
      `photo.PNG` is judged as `photo.png`. */
  lemma AllowedExtensionsIgnoresCase(f: FormFile, g: FormFile, extensions: seq<string>)
    requires ToLower(f.fileName) == ToLower(g.fileName)
    ensures AllowedExtensionsValid(File(f), extensions) == AllowedExtensionsValid(File(g), extensions)
  {
    ExtensionScanOfLower(f.fileName, |f.fileName|);
    ExtensionScanOfLower(g.fileName, |g.fileName|);
    ToLowerIdempotent(GetExtension(f.fileName));
    ToLowerIdempotent(GetExtension(g.fileName));
    assert ToLower(GetExtension(f.fileName)) == GetExtension(ToLower(f.fileName));
  }

  /** The note-image attributes accept an upper-case `.PNG` of exactly 5 MiB. */
  lemma UpperCasePngAccepted()
    ensures ImageUploadValid(File(FormFile("photo.PNG", 5242880)))
  {
    assert ExtensionStartsAt("photo.PNG", 5);
    assert "photo.PNG"[5..] == ".PNG";
    assert ToLower(".PNG") == ".png";
  }

  /** ... and refuse a file one byte over the bound. */
  lemma OversizedRefused()
    ensures !ImageUploadValid(File(FormFile("photo.png", 5242881)))
  {
  }

  /** ... and refuse an extension outside the list. */
  lemma GifRefused()
    ensures !ImageUploadValid(File(FormFile("anim.gif", 10)))
  {
    assert ExtensionStartsAt("anim.gif", 4);
    assert "anim.gif"[4..] == ".gif";
    assert ToLower(".gif") == ".gif";
  }

  /** ... and refuse a name without extension, whose extension is "". */
  lemma NoExtensionRefused()
    ensures !ImageUploadValid(File(FormFile("README", 10)))
  {
    assert forall k :: 0 <= k < 6 ==> "README"[k] != '.';
    assert GetExtension("README") == "";
  }
}
