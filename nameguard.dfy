/** The three guards the handlers apply to a client-supplied file name
    before touching the filesystem. Download and delete take the name as
    the client sent it; upload takes what `filepath.Base` made of the
    client's name, which arrives here as a plain input. */
module NameGuard {
  import opened GoStrings

  /** A character that the filesystem treats as a path separator on Unix or
      on Windows. */
  predicate IsSeparator(c: char) {
    c == '/' || c == '\\'
  }

  /** The guard of the download handler: a name is refused when it is empty
      or contains `..`, `/` or `\`. */
  predicate DownloadNameOk(name: string) {
    !(name == "" || Contains(name, "..") || Contains(name, "/") || Contains(name, "\\"))
  }

  /** The guard of the delete handler, written out again in the source with
      the same four tests. */
  predicate DeleteNameOk(name: string) {
    !(name == "" || Contains(name, "..") || Contains(name, "/") || Contains(name, "\\"))
  }

  /** The guard of the upload handler, on the result of `filepath.Base`:
      refused when empty, `.` or `..`, or when it contains `/` or `\`. */
  predicate UploadNameOk(base: string) {
    !(base == "" || base == "." || base == ".." || Contains(base, "/") || Contains(base, "\\"))
  }

  /** The name is one path component that does not lead out of the
      directory: no separator in it, and it is not the parent link. */
  ghost predicate StaysInDirectory(name: string) {
    name != ".." && forall i :: 0 <= i < |name| ==> !IsSeparator(name[i])
  }

  lemma NoSeparatorIff(name: string)
    ensures !Contains(name, "/") && !Contains(name, "\\") <==>
            forall i :: 0 <= i < |name| ==> !IsSeparator(name[i])
  {
    ContainsChar(name, '/');
    ContainsChar(name, '\\');
  }

  /** The download guard accepts a name exactly when it is non-empty, holds
      no separator and has no two adjacent dots. */
  lemma DownloadNameOkIff(name: string)
    ensures DownloadNameOk(name) <==>
              name != "" &&
              (forall i :: 0 <= i < |name| ==> !IsSeparator(name[i])) &&
              !(exists i :: 0 <= i < |name| - 1 && name[i] == '.' && name[i + 1] == '.')
  {
    NoSeparatorIff(name);
    ContainsDotDot(name);
  }

  /** A name the download guard accepts cannot climb out of the served
      directory. */
  lemma DownloadNameStays(name: string)
    requires DownloadNameOk(name)
    ensures StaysInDirectory(name)
  {
    NoSeparatorIff(name);
  }

  /** Delete and download refuse exactly the same names. */
  lemma DeleteNameOkIsDownloadNameOk(name: string)
    ensures DeleteNameOk(name) <==> DownloadNameOk(name)
  {
  }

  /** The upload guard accepts a base name exactly when it is not empty,
      `.` or `..` and holds no separator. */
  lemma UploadNameOkIff(base: string)
    ensures UploadNameOk(base) <==>
              base !in {"", ".", ".."} &&
              forall i :: 0 <= i < |base| ==> !IsSeparator(base[i])
  {
    NoSeparatorIff(base);
  }

  /** A base name the upload guard accepts cannot climb out of the served
      directory either. */
  lemma UploadNameStays(base: string)
    requires UploadNameOk(base)
    ensures StaysInDirectory(base)
  {
    NoSeparatorIff(base);
  }

  /** Where the two guards differ. On a name the download guard accepts,
      upload accepts it too unless it is `.`; on a name the upload guard
      accepts, download accepts it exactly when it has no `..` inside. */
  lemma DownloadAgainstUpload(name: string)
    ensures DownloadNameOk(name) ==> (UploadNameOk(name) <==> name != ".")
    ensures UploadNameOk(name) ==> (DownloadNameOk(name) <==> !Contains(name, ".."))
  {
  }

  /** `a..b` is a file name upload accepts and download refuses; `.` is one
      download accepts and upload refuses. */
  lemma GuardsDisagree()
    ensures UploadNameOk("a..b") && !DownloadNameOk("a..b")
    ensures DownloadNameOk(".") && !UploadNameOk(".")
  {
    assert HasPrefix("a..b"[1..], "..");
    ContainsChar("a..b", '/');
    ContainsChar("a..b", '\\');
  }
}
