/** The poster-upload rule of the movie controller: an uploaded file is accepted
    only when its lower-cased extension is allowed and its length is within the
    limit; the checks run in that order and each failure has its own message. */
module Posters {
  import opened Basics

  /** The extensions a poster file name may end in (compared lower-cased). */
  const AllowedExtensions: seq<string> := [".jpg", ".png"]

  /** The largest poster accepted, in bytes (1 MiB, inclusive). */
  const MaxAllowedPosterSize: nat := 1048576

  const MissingPosterMessage := "Please Select Movie Poster!"
  const ExtensionMessage := "Only .jpg, .png images is allowed!"
  const SizeMessage := "Posters can't be more than 1MB!"

  /** A file part of the submitted form: the client's file name and its content. */
  datatype UploadedFile = UploadedFile(fileName: string, bytes: seq<byte>)

  // ---------------------------------------------------------------------------
  // Lower-casing (ASCII letters only)

  predicate IsUpper(c: char) { 'A' <= c <= 'Z' }

  function LowerChar(c: char): char
  {
    if IsUpper(c) then (c as int + 32) as char else c
  }

  /** The file name lower-cased, letter by letter. */
  function ToLowerAscii(s: string): (r: string)
    ensures |r| == |s|
    ensures forall i :: 0 <= i < |s| ==> !IsUpper(r[i])
    ensures forall i :: 0 <= i < |s| ==> (r[i] == s[i] || (IsUpper(s[i]) && r[i] as int == s[i] as int + 32))
  {
    seq(|s|, i requires 0 <= i < |s| => LowerChar(s[i]))
  }

  lemma ToLowerAsciiConcat(a: string, b: string)
    ensures ToLowerAscii(a + b) == ToLowerAscii(a) + ToLowerAscii(b)
  {
  }

  /** Lower-casing twice is lower-casing once. */
  lemma ToLowerAsciiIdempotent(s: string)
    ensures ToLowerAscii(ToLowerAscii(s)) == ToLowerAscii(s)
  {
  }

  // ---------------------------------------------------------------------------
  // Path.GetExtension, as a stand-in: the suffix from the last '.' of the last
  // path segment, or empty when that segment has no '.', or ends in one.

  predicate IsSeparator(c: char) { c == '/' || c == '\\' }

  /** No period and no directory separator: `s` lies inside one extension. */
  predicate NoDotOrSeparator(s: string)
  {
    forall i :: 0 <= i < |s| ==> s[i] != '.' && !IsSeparator(s[i])
  }

  /** An extension of `path`: a suffix that starts with the last '.' of the last
      segment and has at least one character after it. */
  ghost predicate IsExtensionOf(ext: string, path: string)
  {
    2 <= |ext| <= |path| && ext[0] == '.' && ext == path[|path| - |ext|..] && NoDotOrSeparator(ext[1..])
  }

  /** `path` has no extension: every '.' before the last character is followed
      by another '.' or a separator. */
  ghost predicate HasNoExtension(path: string)
  {
    forall d :: 0 <= d < |path| - 1 && path[d] == '.' ==> !NoDotOrSeparator(path[d + 1..])
  }

  function GetExtension(path: string): (ext: string)
    ensures ext != [] ==> IsExtensionOf(ext, path)
    ensures ext == [] ==> HasNoExtension(path)
  {
    ExtensionBefore(path, |path|)
  }

  /** Scans `path` backwards from position `i`; the part from `i` on has already
      been seen to hold no '.' and no separator. */
  function ExtensionBefore(path: string, i: nat): (ext: string)
    requires i <= |path| && NoDotOrSeparator(path[i..])
    ensures ext != [] ==> IsExtensionOf(ext, path)
    ensures ext == [] ==> HasNoExtension(path)
    decreases i
  {
    if i == 0 then
      assert path[0..] == path;
      []
    else if path[i - 1] == '.' then
      if i == |path| then
        BlockedBefore(path, i - 1);
        []
      else
        assert path[i - 1..][1..] == path[i..];
        path[i - 1..]
    else if IsSeparator(path[i - 1]) then
      BlockedBefore(path, i - 1);
      assert forall d :: i <= d < |path| ==> path[d] == path[i..][d - i];
      []
    else
      assert path[i - 1..] == [path[i - 1]] + path[i..];
      ExtensionBefore(path, i - 1)
  }

  /** A '.' or a separator at `k` means no '.' before `k` starts an extension. */
  lemma BlockedBefore(path: string, k: nat)
    requires k < |path| && (path[k] == '.' || IsSeparator(path[k]))
    ensures forall d :: 0 <= d < k && path[d] == '.' ==> !NoDotOrSeparator(path[d + 1..])
  {
  }

  /** A name ending in '.' plus a non-empty run free of '.' and separators has
      exactly that ending as its extension. */
  lemma ExtensionOfSuffix(stem: string, ext: string)
    requires |ext| >= 2 && ext[0] == '.' && NoDotOrSeparator(ext[1..])
    ensures GetExtension(stem + ext) == ext
  {
    var p := stem + ext;
    var e := GetExtension(p);
    var d := |stem|;
    assert p[d + 1..] == ext[1..];
    assert p[d] == '.';
    assert e != [];
  }

  lemma LowerKeepsNoDotOrSeparator(s: string)
    requires NoDotOrSeparator(s)
    ensures NoDotOrSeparator(ToLowerAscii(s))
  {
  }

  // ---------------------------------------------------------------------------
  // The poster rule

  /** The extension test: lower-case the whole name, take its extension, look it
      up among the allowed ones. */
  predicate HasAllowedExtension(fileName: string)
  {
    GetExtension(ToLowerAscii(fileName)) in AllowedExtensions
  }

  /** The first failing poster check, as its field message, or None when the
      file is accepted. The extension check comes before the size check. */
  function PosterError(file: UploadedFile): (err: Option<string>)
    ensures err == None <==> HasAllowedExtension(file.fileName) && |file.bytes| <= MaxAllowedPosterSize
    ensures err == Some(ExtensionMessage) <==> !HasAllowedExtension(file.fileName)
    ensures err == Some(SizeMessage) <==> HasAllowedExtension(file.fileName) && |file.bytes| > MaxAllowedPosterSize
  {
    if !HasAllowedExtension(file.fileName) then Some(ExtensionMessage)
    else if |file.bytes| > MaxAllowedPosterSize then Some(SizeMessage)
    else None
  }

  /** The verdict on a name depends only on its final '.'-suffix, lower-cased:
      `.JPG`, `.Jpg` and `.jpg` are all accepted, and nothing else is. */
  lemma ExtensionCaseInsensitive(stem: string, ext: string)
    requires |ext| >= 2 && ext[0] == '.' && NoDotOrSeparator(ext[1..])
    ensures HasAllowedExtension(stem + ext) <==> ToLowerAscii(ext) in AllowedExtensions
  {
    ToLowerAsciiConcat(stem, ext);
    var lext := ToLowerAscii(ext);
    assert lext[1..] == ToLowerAscii(ext[1..]);
    LowerKeepsNoDotOrSeparator(ext[1..]);
    ExtensionOfSuffix(ToLowerAscii(stem), lext);
  }

  lemma UpperCaseJpgAccepted()
    ensures HasAllowedExtension("Poster.JPG")
  {
    var ext := ".JPG";
    assert ext[1..] == "JPG";
    ExtensionCaseInsensitive("Poster", ext);
    var l := ToLowerAscii(ext);
    assert l[0] == '.' && l[1] == 'j' && l[2] == 'p' && l[3] == 'g';
    assert l == AllowedExtensions[0];
    assert "Poster" + ext == "Poster.JPG";
  }

  lemma MixedCasePngAccepted()
    ensures HasAllowedExtension("poster.Png")
  {
    var ext := ".Png";
    assert ext[1..] == "Png";
    ExtensionCaseInsensitive("poster", ext);
    var l := ToLowerAscii(ext);
    assert l[0] == '.' && l[1] == 'p' && l[2] == 'n' && l[3] == 'g';
    assert l == AllowedExtensions[1];
    assert "poster" + ext == "poster.Png";
  }

  /** A longer or different extension is refused, even when an allowed one
      appears earlier in the name. */
  lemma JpegRejected()
    ensures !HasAllowedExtension("poster.jpeg")
  {
  }

  lemma DoubleExtensionRejected()
    ensures !HasAllowedExtension("poster.png.exe")
  {
  }

  /** A name with no '.' at all has no extension and is rejected. */
  lemma NameWithoutDotRejected(fileName: string)
    requires forall i :: 0 <= i < |fileName| ==> fileName[i] != '.'
    ensures PosterError(UploadedFile(fileName, [])) == Some(ExtensionMessage)
  {
  }

  /** The size bound is inclusive: 1,048,576 bytes pass, 1,048,577 do not. */
  lemma SizeBoundInclusive(fileName: string, bytes: seq<byte>)
    requires HasAllowedExtension(fileName)
    ensures |bytes| == MaxAllowedPosterSize ==> PosterError(UploadedFile(fileName, bytes)) == None
    ensures |bytes| == MaxAllowedPosterSize + 1 ==> PosterError(UploadedFile(fileName, bytes)) == Some(SizeMessage)
  {
  }
}
