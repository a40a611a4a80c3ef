/**
  The upload filename check of the file-upload application: a whitelist of
  image extensions and the predicate that accepts a filename exactly when the
  text after its last dot is one of them.
 */
module Utils {

  datatype Option<T> = None | Some(value: T)

  /** The whitelist of image extensions an upload may carry, lower case. */
  const AllowedExtensions: seq<string> := ["png", "jpg", "jpeg", "gif"]

  /** `t` is a suffix of `s`. */
  predicate EndsWith(s: string, t: string) {
    |t| <= |s| && s[|s| - |t|..] == t
  }

  /**
    The position of the last occurrence of `c` in `s`, or None when `c` does
    not occur in `s`.
   */
  function LastIndexOf(s: string, c: char): (r: Option<nat>)
    ensures r.None? <==> c !in s
    ensures r.Some? ==> r.value < |s| && s[r.value] == c
    ensures r.Some? ==> forall j :: r.value < j < |s| ==> s[j] != c
  {
    if |s| == 0 then None
    else if s[|s| - 1] == c then Some(|s| - 1)
    else
      assert forall j :: 0 <= j < |s| - 1 ==> s[..|s| - 1][j] == s[j];
      LastIndexOf(s[..|s| - 1], c)
  }

  /**
    Python's `s.rsplit(sep, 1)` for a one-character separator: the whole
    string when `sep` does not occur, otherwise the text before and the text
    after the last `sep`.
   */
  function RSplitOnce(s: string, sep: char): (parts: seq<string>)
    ensures |parts| == 1 <==> sep !in s
    ensures |parts| == 2 <==> sep in s
    ensures |parts| == 1 ==> parts[0] == s
    ensures |parts| == 2 ==> parts[0] + [sep] + parts[1] == s && sep !in parts[1]
  {
    match LastIndexOf(s, sep)
    case None => [s]
    case Some(i) =>
      assert s[..i] + [sep] + s[i + 1..] == s;
      [s[..i], s[i + 1..]]
  }

  /**
    `file_valid`: the filename contains a dot and the text after its last dot
    is exactly (case-sensitively) one of the whitelisted extensions. The
    dot test guards the index into the split result, as Python's
    short-circuiting `and` does.
   */
  predicate FileValid(file: string) {
    '.' in file && RSplitOnce(file, '.')[1] in AllowedExtensions
  }

  /** The reference definition: the filename ends in "." followed by a whitelisted extension. */
  predicate HasAllowedSuffix(file: string) {
    exists i :: 0 <= i < |AllowedExtensions| && EndsWith(file, "." + AllowedExtensions[i])
  }

  /** No whitelisted extension contains a dot. */
  lemma AllowedExtensionsHaveNoDot()
    ensures forall e :: e in AllowedExtensions ==> '.' !in e
  {
  }

  /** Every whitelisted extension is spelled in lower-case ASCII letters only. */
  lemma AllowedExtensionsAreLowerCase()
    ensures forall e, k :: e in AllowedExtensions && 0 <= k < |e| ==> 'a' <= e[k] <= 'z'
  {
  }

  /**
    The split at the last separator is the only split whose right part is
    free of the separator.
   */
  lemma RSplitOnceOfJoin(stem: string, sep: char, ext: string)
    requires sep !in ext
    ensures RSplitOnce(stem + [sep] + ext, sep) == [stem, ext]
  {
    var s := stem + [sep] + ext;
    assert s[|stem|] == sep;
    var parts := RSplitOnce(s, sep);
    assert s == parts[0] + [sep] + parts[1];
    assert s[..|stem|] == stem && s[|stem| + 1..] == ext;
  }

  /**
    A filename made of any stem, a dot, and a dot-free extension is accepted
    exactly when that extension is whitelisted; the stem plays no part.
   */
  lemma {:induction false} FileValidOfJoin(stem: string, ext: string)
    requires '.' !in ext
    ensures FileValid(stem + "." + ext) <==> ext in AllowedExtensions
  {
    RSplitOnceOfJoin(stem, '.', ext);
    assert (stem + "." + ext)[|stem|] == '.';
  }

  /** A filename without any dot is rejected. */
  lemma NoDotRejected(file: string)
    requires '.' !in file
    ensures !FileValid(file)
  {
  }

  /**
    Acceptance depends only on the text after the last dot: it holds exactly
    when that text is a whitelisted extension.
   */
  lemma FileValidIffLastExtensionAllowed(file: string)
    ensures FileValid(file) <==>
      exists i :: 0 <= i < |file| && file[i] == '.' && '.' !in file[i + 1..] && file[i + 1..] in AllowedExtensions
  {
  }

  /**
    The headline property: a filename is accepted exactly when it ends with
    ".png", ".jpg", ".jpeg" or ".gif". This holds because no whitelisted
    extension contains a dot, so the matched suffix starts at the last dot.
   */
  lemma {:induction false} FileValidIffAllowedSuffix(file: string)
    ensures FileValid(file) <==> HasAllowedSuffix(file)
  {
    AllowedExtensionsHaveNoDot();
    if FileValid(file) {
      var parts := RSplitOnce(file, '.');
      var i :| 0 <= i < |AllowedExtensions| && AllowedExtensions[i] == parts[1];
      assert file == parts[0] + ['.'] + parts[1];
      assert file[|file| - |"." + parts[1]|..] == "." + parts[1];
      assert EndsWith(file, "." + AllowedExtensions[i]);
    }
    if HasAllowedSuffix(file) {
      var i :| 0 <= i < |AllowedExtensions| && EndsWith(file, "." + AllowedExtensions[i]);
      var ext := AllowedExtensions[i];
      var stem := file[..|file| - |ext| - 1];
      assert file == stem + "." + ext;
      FileValidOfJoin(stem, ext);
    }
  }

  /** A filename ending in a dot has an empty extension and is rejected. */
  lemma TrailingDotRejected(stem: string)
    ensures !FileValid(stem + ".")
  {
  }

  /**
    Matching is exact and case-sensitive: an extension holding any upper-case
    ASCII letter is rejected, whatever the stem.
   */
  lemma {:induction false} UpperCaseExtensionRejected(stem: string, ext: string, k: nat)
    requires '.' !in ext
    requires k < |ext| && 'A' <= ext[k] <= 'Z'
    ensures !FileValid(stem + "." + ext)
  {
    AllowedExtensionsAreLowerCase();
    FileValidOfJoin(stem, ext);
  }

  /** No stem is needed before the dot: a bare ".png" is accepted. */
  lemma BareExtensionAccepted()
    ensures FileValid(".png") && FileValid(".gif")
  {
  }

  /**
    Only the text after the last dot is examined: "a.png.exe" is rejected and
    "a.exe.png" is accepted.
   */
  lemma OnlyLastExtensionExamined()
    ensures !FileValid("a.png.exe")
    ensures FileValid("a.exe.png")
  {
  }

  /** Concrete instances of case sensitivity: "photo.PNG" and "photo.Jpg" are rejected. */
  lemma MixedCaseExamplesRejected()
    ensures !FileValid("photo.PNG")
    ensures !FileValid("photo.Jpg")
  {
  }
}
