/** The pathlib operations the backend uses to name its output files, on
    POSIX paths written without redundant separators: `Path(p).parent / name`,
    `.name`, `.stem`, `.with_suffix(s)`, and the upload location
    `Path("uploads") / filename`. */
module Paths {
  import opened Wrappers
  import opened Strings
  import opened Records

  /** The index just after the last '/', or 0 when there is none. */
  function NameStart(p: string): (i: nat)
    ensures i <= |p|
    ensures i > 0 ==> p[i - 1] == '/'
    ensures forall k :: i <= k < |p| ==> p[k] != '/'
    decreases |p|
  {
    if p == [] then 0
    else if p[|p| - 1] == '/' then |p|
    else NameStart(p[..|p| - 1])
  }

  /** `Path(p).name`: the final component. */
  function Name(p: string): (n: string)
    ensures Lacks(n, '/') && EndsWith(p, n)
  {
    p[NameStart(p)..]
  }

  /** The directory part written so that `Dir(p) + name` is
      `str(Path(p).parent / name)`: empty for a bare file name (parent "."),
      otherwise everything up to and including the last '/'. */
  function Dir(p: string): (d: string)
    ensures d + Name(p) == p
    ensures d == [] || d[|d| - 1] == '/'
  {
    p[..NameStart(p)]
  }

  /** Where a name's suffix starts: at its last '.', provided that dot is
      neither the first nor the last character; otherwise there is no suffix
      and the result is |name|. */
  function SuffixStart(name: string): (i: nat)
    ensures i <= |name|
    ensures i < |name| ==> 0 < i < |name| - 1 && name[i] == '.' && Lacks(name[i + 1..], '.')
    ensures i == |name| ==> Lacks(name, '.') || name[|name| - 1] == '.' || (name[0] == '.' && Lacks(name[1..], '.'))
  {
    var d := LastDot(name);
    if d.Some? && 0 < d.value < |name| - 1 then d.value else |name|
  }

  /** `name.rfind('.')`. */
  function LastDot(s: string): (r: Option<nat>)
    ensures r.Some? ==> r.value < |s| && s[r.value] == '.' && Lacks(s[r.value + 1..], '.')
    ensures r.None? ==> Lacks(s, '.')
    decreases |s|
  {
    if s == [] then None
    else if s[|s| - 1] == '.' then Some(|s| - 1)
    else
      match LastDot(s[..|s| - 1])
      case None => None
      case Some(i) =>
        assert s[i + 1..] == s[..|s| - 1][i + 1..] + [s[|s| - 1]];
        Some(i)
  }

  /** `Path(p).suffix`. */
  function Suffix(name: string): string {
    name[SuffixStart(name)..]
  }

  /** `Path(p).stem`: the name without its suffix. */
  function Stem(name: string): (s: string)
    ensures s + Suffix(name) == name
  {
    name[..SuffixStart(name)]
  }

  /** `Path(p).with_suffix(suffix)`: replaces (or adds) the suffix; raises
      ValueError when the path has an empty name. */
  function WithSuffix(p: string, suffix: string): (r: Result<string, Error>)
    ensures r.Err? <==> Name(p) == []
    ensures r.Err? ==> r.error == ValueError("PosixPath('" + p + "') has an empty name")
    ensures r.Ok? ==> r.value == Dir(p) + Stem(Name(p)) + suffix
  {
    if Name(p) == [] then Err(ValueError("PosixPath('" + p + "') has an empty name"))
    else Ok(Dir(p) + Stem(Name(p)) + suffix)
  }

  // ---------------------------------------------------------------------------
  // The file names pdf_utils.py and main.py derive
  // ---------------------------------------------------------------------------

  const EncryptedPrefix: string := "encrypted_"
  const DecryptedPrefix: string := "decrypted_"
  const RedactedPrefix: string := "redacted_"
  const UploadDir: string := "uploads"

  /** f"encrypted_{Path(original_path).stem}.pdf", next to the original. */
  function EncryptedPdfPath(originalPath: string): (r: string)
    ensures Dir(r) == Dir(originalPath)
    ensures Name(r) == EncryptedPrefix + Stem(Name(originalPath)) + ".pdf"
  {
    var name := EncryptedPrefix + Stem(Name(originalPath)) + ".pdf";
    StemSlashFree(originalPath);
    ConstantsSlashFree();
    LacksConcat3(EncryptedPrefix, Stem(Name(originalPath)), ".pdf", '/');
    NameOfJoin(Dir(originalPath), name);
    Dir(originalPath) + name
  }

  /** The metadata sidecar, `encrypted_path.with_suffix('.json')`. */
  function SidecarPath(encryptedPath: string): (r: Result<string, Error>)
    ensures r.Err? <==> Name(encryptedPath) == []
    ensures r.Ok? ==> Dir(r.value) == Dir(encryptedPath) && Name(r.value) == Stem(Name(encryptedPath)) + ".json"
  {
    if Name(encryptedPath) == [] then WithSuffix(encryptedPath, ".json")
    else
      StemSlashFree(encryptedPath);
      ConstantsSlashFree();
      JoinedName(Dir(encryptedPath), Stem(Name(encryptedPath)), ".json");
      WithSuffix(encryptedPath, ".json")
  }

  /** f"decrypted_{Path(encrypted_path).stem.replace('encrypted_', '')}.pdf",
      next to the encrypted file. */
  function DecryptedPdfPath(encryptedPath: string): (r: string)
    ensures Dir(r) == Dir(encryptedPath)
    ensures Name(r) == DecryptedPrefix + Replace(Stem(Name(encryptedPath)), EncryptedPrefix, "") + ".pdf"
  {
    var core := Replace(Stem(Name(encryptedPath)), EncryptedPrefix, "");
    StemSlashFree(encryptedPath);
    ReplaceKeepsSlashFree(Stem(Name(encryptedPath)), EncryptedPrefix, "");
    ConstantsSlashFree();
    LacksConcat3(DecryptedPrefix, core, ".pdf", '/');
    NameOfJoin(Dir(encryptedPath), DecryptedPrefix + core + ".pdf");
    Dir(encryptedPath) + (DecryptedPrefix + core + ".pdf")
  }

  /** f"redacted_{Path(original_path).name}", next to the original. */
  function RedactedPdfPath(originalPath: string): (r: string)
    ensures Dir(r) == Dir(originalPath)
    ensures Name(r) == RedactedPrefix + Name(originalPath)
  {
    ConstantsSlashFree();
    LacksConcat(RedactedPrefix, Name(originalPath), '/');
    NameOfJoin(Dir(originalPath), RedactedPrefix + Name(originalPath));
    Dir(originalPath) + (RedactedPrefix + Name(originalPath))
  }

  /** `UPLOAD_DIR / filename`: joining an absolute name discards the directory. */
  function UploadPath(filename: string): (r: string)
    ensures StartsWith(filename, "/") ==> r == filename
    ensures !StartsWith(filename, "/") ==> r == UploadDir + "/" + filename
  {
    if StartsWith(filename, "/") then filename else UploadDir + "/" + filename
  }

  // ---------------------------------------------------------------------------
  // Properties
  // ---------------------------------------------------------------------------

  /** Joining a directory and a slash-free name splits back into the two. */
  lemma NameOfJoin(d: string, n: string)
    requires d == [] || d[|d| - 1] == '/'
    requires Lacks(n, '/')
    ensures Name(d + n) == n && Dir(d + n) == d
  {
    var p := d + n;
    NameStartOfJoin(d, n);
  }

  lemma {:induction false} NameStartOfJoin(d: string, n: string)
    requires d == [] || d[|d| - 1] == '/'
    requires Lacks(n, '/')
    ensures NameStart(d + n) == |d|
    decreases |n|
  {
    var p := d + n;
    if n == [] {
      assert p == d;
      if d != [] {
        assert p[|p| - 1] == '/';
      }
    } else {
      assert p[..|p| - 1] == d + n[..|n| - 1];
      assert p[|p| - 1] == n[|n| - 1];
      NameStartOfJoin(d, n[..|n| - 1]);
    }
  }

  /** A stem is part of a name, so it has no '/'. */
  lemma StemSlashFree(p: string)
    ensures Lacks(Stem(Name(p)), '/')
  {
    LacksSlice(Name(p), 0, SuffixStart(Name(p)), '/');
  }

  /** A directory, a slash-free stem and a slash-free suffix split back. */
  lemma JoinedName(d: string, stem: string, suffix: string)
    requires d == [] || d[|d| - 1] == '/'
    requires Lacks(stem, '/') && Lacks(suffix, '/')
    ensures Name(d + stem + suffix) == stem + suffix && Dir(d + stem + suffix) == d
  {
    LacksConcat(stem, suffix, '/');
    NameOfJoin(d, stem + suffix);
    assert d + stem + suffix == d + (stem + suffix);
  }

  lemma ConstantsSlashFree()
    ensures Lacks(EncryptedPrefix, '/') && Lacks(DecryptedPrefix, '/') && Lacks(RedactedPrefix, '/')
    ensures Lacks(".pdf", '/') && Lacks(".json", '/')
  {
  }

  lemma LacksConcat3(a: string, b: string, c: string, x: char)
    requires Lacks(a, x) && Lacks(b, x) && Lacks(c, x)
    ensures Lacks(a + b + c, x)
  {
    LacksConcat(a, b, x);
    LacksConcat(a + b, c, x);
  }

  /** Removing text from a slash-free string keeps it slash-free. */
  lemma {:induction false} ReplaceKeepsSlashFree(s: string, pat: string, rep: string)
    requires Lacks(s, '/') && Lacks(rep, '/') && |pat| > 0
    ensures Lacks(Replace(s, pat, rep), '/')
    decreases |s|
  {
    if StartsWith(s, pat) {
      ReplaceKeepsSlashFree(s[|pat|..], pat, rep);
    } else if s != [] {
      ReplaceKeepsSlashFree(s[1..], pat, rep);
    }
  }

  /** The suffix of "<stem>.pdf" is ".pdf" and its stem is <stem>, for any
      non-empty <stem>. */
  lemma StemOfPdf(stem: string)
    requires |stem| > 0
    ensures Stem(stem + ".pdf") == stem && Suffix(stem + ".pdf") == ".pdf"
  {
    var name := stem + ".pdf";
    assert name[|stem|] == '.';
    assert name[|stem| + 1..] == "pdf";
    LastDotOfSuffixed(stem, "pdf");
  }

  lemma {:induction false} LastDotOfSuffixed(stem: string, ext: string)
    requires Lacks(ext, '.')
    ensures LastDot(stem + "." + ext) == Some(|stem|)
    decreases |ext|
  {
    if ext == [] {
      assert stem + "." + ext == stem + ['.'];
    } else {
      var init := ext[..|ext| - 1];
      var c := ext[|ext| - 1];
      assert c != '.';
      assert stem + "." + ext == (stem + "." + init) + [c];
      LacksSlice(ext, 0, |ext| - 1, '.');
      LastDotOfSuffixed(stem, init);
      LastDotSnoc(stem + "." + init, c);
    }
  }

  /** A last character other than '.' does not move the last dot. */
  lemma LastDotSnoc(s: string, c: char)
    requires c != '.'
    ensures LastDot(s + [c]) == LastDot(s)
  {
    assert (s + [c])[..|s|] == s;
  }

  /** The encrypted PDF never has an empty name, so its sidecar path always
      exists: the encrypted file's own name with ".json" for ".pdf". */
  function EncryptedSidecarPath(originalPath: string): string {
    Dir(originalPath) + (EncryptedPrefix + Stem(Name(originalPath)) + ".json")
  }

  /** The stem of the encrypted copy is "encrypted_<stem>". */
  lemma EncryptedStem(originalPath: string)
    ensures Dir(EncryptedPdfPath(originalPath)) == Dir(originalPath)
    ensures Name(EncryptedPdfPath(originalPath)) == EncryptedPrefix + Stem(Name(originalPath)) + ".pdf"
    ensures Stem(Name(EncryptedPdfPath(originalPath))) == EncryptedPrefix + Stem(Name(originalPath))
  {
    StemOfPdf(EncryptedPrefix + Stem(Name(originalPath)));
  }

  lemma SidecarOfEncrypted(originalPath: string)
    ensures SidecarPath(EncryptedPdfPath(originalPath)) == Ok(EncryptedSidecarPath(originalPath))
    ensures EncryptedSidecarPath(originalPath) != EncryptedPdfPath(originalPath)
  {
    var d := Dir(originalPath);
    var stem := EncryptedPrefix + Stem(Name(originalPath));
    EncryptedStem(originalPath);
    WithSuffixOf(EncryptedPdfPath(originalPath), d, stem, ".json");
    SuffixesDiffer(d, stem);
  }

  /** `with_suffix` of a path with a non-empty name keeps its directory and
      stem. */
  lemma WithSuffixOf(p: string, d: string, stem: string, suffix: string)
    requires Dir(p) == d && Stem(Name(p)) == stem && Name(p) != []
    ensures WithSuffix(p, suffix) == Ok(d + (stem + suffix))
  {
    var r := WithSuffix(p, suffix);
    assert r.Ok? && r.value == d + stem + suffix;
    ConcatAssoc(d, stem, suffix);
  }


  lemma SuffixesDiffer(d: string, stem: string)
    ensures d + (stem + ".json") != d + (stem + ".pdf")
  {
    assert |d + (stem + ".json")| == |d| + |stem| + 5;
  }

  /** Decrypting the encrypted copy of an original names the result after
      the original's stem, provided that stem does not itself contain
      "encrypted_" (every occurrence of which would be removed as well). */
  lemma DecryptedNameOfEncrypted(originalPath: string)
    requires !Contains(Stem(Name(originalPath)), EncryptedPrefix)
    ensures DecryptedPdfPath(EncryptedPdfPath(originalPath))
      == Dir(originalPath) + (DecryptedPrefix + Stem(Name(originalPath)) + ".pdf")
  {
    var stem := Stem(Name(originalPath));
    var e := EncryptedPdfPath(originalPath);
    StemOfPdf(EncryptedPrefix + stem);
    assert Stem(Name(e)) == EncryptedPrefix + stem;
    ReplaceAfterPrefix(EncryptedPrefix, stem, "");
    ReplaceAbsent(stem, EncryptedPrefix, "");
    assert Replace(Stem(Name(e)), EncryptedPrefix, "") == stem;
    assert Dir(e) == Dir(originalPath);
  }

  /** The decrypted file never overwrites the encrypted one, and the
      redacted copy never overwrites its original. */
  lemma OutputsDistinct(originalPath: string)
    ensures DecryptedPdfPath(EncryptedPdfPath(originalPath)) != EncryptedPdfPath(originalPath)
    ensures RedactedPdfPath(originalPath) != originalPath
  {
    DecryptedNotEncrypted(originalPath);
    RedactedNotOriginal(originalPath);
  }

  lemma DecryptedNotEncrypted(originalPath: string)
    ensures DecryptedPdfPath(EncryptedPdfPath(originalPath)) != EncryptedPdfPath(originalPath)
  {
    var e := EncryptedPdfPath(originalPath);
    assert Name(DecryptedPdfPath(e))[0] == 'd' && Name(e)[0] == 'e';
  }

  lemma RedactedNotOriginal(originalPath: string)
    ensures RedactedPdfPath(originalPath) != originalPath
  {
    var d := Dir(originalPath);
    var n := Name(originalPath);
    assert d + n == originalPath;
    assert |RedactedPdfPath(originalPath)| == |d| + |RedactedPrefix| + |n|;
  }
}
