/**
 * Where a resume is saved and what the ledger records for it: the string
 * work of `_getFile` and `_saveToExempted` in ApplicantResume. `dir` stands
 * for PHP's `__DIR__`, the directory of the script.
 */
module ApplicantFiles {
  import opened Wrappers
  import opened PhpStrings
  import opened Records

  /** The object-store bucket every resume is read from. */
  const Bucket := "r24-prod.resourcefull.cc"

  /** The download directory, relative to the script's directory. */
  const TmpDir := "/../tmp/"

  /** `end(explode('.', $resume_file))`: the last piece of the key split on ".". */
  function Extension(resumeFile: string): string
  {
    var pieces := Explode(".", resumeFile);
    pieces[|pieces| - 1]
  }

  /**
   * The extension is the longest suffix of the key that holds no ".": it has
   * no ".", the key ends with it, and it is either the whole key or preceded
   * by a ".".
   */
  lemma ExtensionIsAfterLastDot(f: string)
    ensures '.' !in Extension(f)
    ensures |Extension(f)| <= |f| && f[|f| - |Extension(f)|..] == Extension(f)
    ensures |Extension(f)| == |f| || f[|f| - |Extension(f)| - 1] == '.'
  {
    var pieces := Explode(".", f);
    var ext := pieces[|pieces| - 1];
    ImplodeExplode(".", f);
    ExplodePiecesFreeOfSeparator('.', f);
    if |pieces| >= 2 {
      ImplodeLast(".", pieces);
      var init := Implode(".", pieces[..|pieces| - 1]);
      assert f == init + "." + ext;
      assert f[|f| - |ext|..] == ext;
      assert f[|f| - |ext| - 1] == '.';
    }
  }

  /** A key without "." is its own extension; a key ending in "." has an empty one. */
  lemma ExtensionEdgeCases(f: string)
    ensures '.' !in f ==> Extension(f) == f
    ensures |f| > 0 && f[|f| - 1] == '.' ==> Extension(f) == ""
  {
    ExtensionIsAfterLastDot(f);
  }

  lemma CharOfSuffix(f: string, s: string, k: int)
    requires |s| <= |f| && f[|f| - |s|..] == s && |f| - |s| <= k < |f|
    ensures f[k] in s
  {
    assert f[k] == s[k - (|f| - |s|)];
  }

  /** Whatever precedes the last ".", the extension is the dot-free text after it. */
  lemma ExtensionOfDottedName(x: string, e: string)
    requires '.' !in e
    ensures Extension(x + "." + e) == e
  {
    var f := x + "." + e;
    var ext := Extension(f);
    ExtensionIsAfterLastDot(f);
    assert f[|f| - |e|..] == e;
    if |ext| > |e| {
      CharOfSuffix(f, ext, |x|);
      assert false;
    } else if |ext| < |e| {
      CharOfSuffix(f, e, |f| - |ext| - 1);
      assert false;
    }
    assert f[|f| - |e|..] == e;
  }

  /** `"%s %s %s.%s"` of the three name parts and the extension. */
  function FileName(a: Applicant): string
  {
    a.givenName + " " + a.additionalName + " " + a.familyName + "." + Extension(a.resumeFile)
  }

  /** `sprintf('%s/../tmp/%s %s %s.%s', __DIR__, ...)`: where the resume is saved. */
  function LocalFile(dir: string, a: Applicant): string
  {
    dir + TmpDir + FileName(a)
  }

  /** The saved file keeps the extension of the resume's key. */
  lemma LocalFileKeepsExtension(dir: string, a: Applicant)
    ensures Extension(LocalFile(dir, a)) == Extension(a.resumeFile)
    ensures Extension(FileName(a)) == Extension(a.resumeFile)
  {
    var ext := Extension(a.resumeFile);
    ExtensionIsAfterLastDot(a.resumeFile);
    var stem := a.givenName + " " + a.additionalName + " " + a.familyName;
    assert FileName(a) == stem + "." + ext;
    assert LocalFile(dir, a) == (dir + TmpDir + stem) + "." + ext;
    ExtensionOfDottedName(stem, ext);
    ExtensionOfDottedName(dir + TmpDir + stem, ext);
  }

  /** The `getObject` request `_getFile` issues for an applicant. */
  function DownloadRequest(dir: string, a: Applicant): Download
  {
    Download(Bucket, a.resumeFile, LocalFile(dir, a))
  }

  /**
   * `_getFile`: the local file name when the download succeeded and PHP's
   * `false` (here `None`) when the object store threw. The file returned is
   * the one the request saved to: it lies in the download directory under
   * `dir`, is named after the applicant, and keeps the key's extension.
   */
  function GetFile(dir: string, a: Applicant, downloaded: bool): (r: Option<string>)
    ensures r.Some? <==> downloaded
    ensures r.Some? ==> r.value == DownloadRequest(dir, a).saveAs
    ensures r.Some? ==> StartsWith(dir + TmpDir, r.value) && r.value[|dir + TmpDir|..] == FileName(a)
    ensures r.Some? ==> Extension(r.value) == Extension(a.resumeFile)
  {
    if downloaded then
      LocalFileKeepsExtension(dir, a);
      Some(LocalFile(dir, a))
    else None
  }

  /**
   * `str_replace(__DIR__, '', $applicant['local_file'])`: the local file name
   * with every occurrence of the script's directory removed; PHP turns a
   * `false` subject into the empty string.
   */
  function StoredPath(dir: string, localFile: Option<string>): string
  {
    match localFile
    case None => ""
    case Some(f) => StrReplace(dir, "", f)
  }

  /** A failed download is still recorded, with an empty path. */
  lemma FailedDownloadStoresEmptyPath(dir: string, a: Applicant)
    ensures StoredPath(dir, GetFile(dir, a, false)) == ""
  {
  }

  /**
   * After a successful download the leading directory is removed; what
   * follows it goes through the same replacement, so an occurrence of the
   * directory inside a name part would be removed too.
   */
  lemma StoredPathDropsDirectory(dir: string, a: Applicant)
    requires dir != ""
    ensures StoredPath(dir, GetFile(dir, a, true)) == StrReplace(dir, "", TmpDir + FileName(a))
  {
    var rest := TmpDir + FileName(a);
    assert LocalFile(dir, a) == dir + rest;
    StrReplaceLeading(dir, "", rest);
  }

  /**
   * When the directory does not occur again after the leading one, the
   * stored path is "/../tmp/" followed by the file name.
   */
  lemma StoredPathIsRelative(dir: string, a: Applicant)
    requires dir != "" && !Occurs(dir, TmpDir + FileName(a))
    ensures StoredPath(dir, GetFile(dir, a, true)) == TmpDir + FileName(a)
  {
    StoredPathDropsDirectory(dir, a);
    StrReplaceAbsent(dir, "", TmpDir + FileName(a));
  }

  /**
   * A worked case: "Jane", an empty additional name, "Doe" and the key
   * "a/b.pdf" give "Jane  Doe.pdf", with two spaces. The key is a parameter
   * fixed by the precondition because a literal key in the postcondition
   * makes the verifier unfold `Explode` over it character by character.
   */
  lemma ExampleFileName(key: string)
    requires key == "a/b" + ".pdf"
    ensures FileName(Applicant(1, key, "Jane", "", "Doe")) == "Jane  Doe.pdf"
  {
    assert key == "a/b" + "." + "pdf";
    ExtensionOfDottedName("a/b", "pdf");
    assert "Jane" + " " + "" + " " + "Doe" + "." + "pdf" == "Jane  Doe.pdf";
  }

  /** The key "noext" has no "." and is its own extension. */
  lemma ExampleNoDot()
    ensures Extension("noext") == "noext"
  {
    ExtensionEdgeCases("noext");
  }
}
