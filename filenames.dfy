/** File-name logic of the document manager: the extension filter applied to
    uploads and listings, the `.docx` normalisation of names given to the
    create form, Python's `os.path.splitext`, and the search for a free name
    when an upload collides with a stored file. */
module FileNames {
  import opened Text

  /** `allowed_file`: the text after the last `.` must be `docx` or `doc`,
      compared case-insensitively; a name without a `.` is refused. */
  predicate AllowedFile(filename: string) {
    '.' in filename
    && Lower(filename[LastIndexOf(filename, '.') + 1..]) in {"docx", "doc"}
  }

  lemma LastDotExists(s: string)
    requires '.' in s
    ensures LastIndexOf(s, '.') >= 0
  {
    var i :| 0 <= i < |s| && s[i] == '.';
  }

  /** A string that lowers to `docx` or `doc` holds no dot. */
  lemma ExtensionHasNoDot(x: string)
    requires Lower(x) in {"docx", "doc"}
    ensures '.' !in x
  {
    forall j | 0 <= j < |x| ensures x[j] != '.' {
      assert 'a' <= Lower(x)[j] <= 'z';
    }
  }

  /** A name with a `.` followed by a tail that lowers to `docx` or `doc`
      has its last dot there. */
  lemma DotSuffix(n: string, p: nat)
    requires p < |n| && n[p] == '.' && Lower(n[p + 1..]) in {"docx", "doc"}
    ensures LastIndexOf(n, '.') == p
  {
    ExtensionHasNoDot(n[p + 1..]);
    forall j | p < j < |n| ensures n[j] != '.' {
      assert n[j] == n[p + 1..][j - p - 1];
    }
    LastIndexOfAt(n, '.', p);
  }

  /** The extension test, stated without `rsplit`: a name is allowed exactly
      when it ends in a `.` followed by `docx` or `doc`, ignoring case. */
  lemma AllowedFileIffSuffix(n: string)
    ensures AllowedFile(n) <==>
      (|n| >= 5 && n[|n| - 5] == '.' && Lower(n[|n| - 4..]) == "docx")
      || (|n| >= 4 && n[|n| - 4] == '.' && Lower(n[|n| - 3..]) == "doc")
  {
    if AllowedFile(n) {
      AllowedFileHasSuffix(n);
    }
    if |n| >= 5 && n[|n| - 5] == '.' && Lower(n[|n| - 4..]) == "docx" {
      DotSuffix(n, |n| - 5);
    } else if |n| >= 4 && n[|n| - 4] == '.' && Lower(n[|n| - 3..]) == "doc" {
      DotSuffix(n, |n| - 4);
    }
  }

  lemma AllowedFileHasSuffix(n: string)
    requires AllowedFile(n)
    ensures (|n| >= 5 && n[|n| - 5] == '.' && Lower(n[|n| - 4..]) == "docx")
      || (|n| >= 4 && n[|n| - 4] == '.' && Lower(n[|n| - 3..]) == "doc")
  {
    LastDotExists(n);
    var k := LastIndexOf(n, '.');
    assert |n[k + 1..]| == |n| - k - 1;
    if Lower(n[k + 1..]) == "docx" {
      assert k == |n| - 5;
    } else {
      assert k == |n| - 4;
    }
  }

  /** Names the extension test accepts, whatever their case. */
  lemma AllowedFileAccepts()
    ensures AllowedFile("A.DOCX") && AllowedFile("report.doc")
  {
    assert "A.DOCX"[1] == '.' && "A.DOCX"[2..] == "DOCX" && Lower("DOCX") == "docx";
    DotSuffix("A.DOCX", 1);
    assert "report.doc"[6] == '.' && "report.doc"[7..] == "doc" && Lower("doc") == "doc";
    DotSuffix("report.doc", 6);
  }

  /** Names the extension test refuses: a later extension, no dot at all,
      and an empty extension. */
  lemma AllowedFileRefuses()
    ensures !AllowedFile("a.docx.exe") && !AllowedFile("noext") && !AllowedFile("file.")
  {
    var a := "a.docx.exe";
    assert a[5] == 'x' && a[7..] == "exe" && Lower("exe")[0] == 'e';
    AllowedFileIffSuffix(a);
    assert forall i | 0 <= i < |"noext"| :: "noext"[i] != '.';
    var f := "file.";
    assert f[0] == 'f' && f[1] == 'i';
    AllowedFileIffSuffix(f);
  }

  /** The name the create form stores under: `.docx` is appended unless the
      name already ends with it (case-sensitively). */
  function CreateName(filename: string): (r: string)
    ensures EndsWith(r, ".docx")
    ensures StartsWith(r, filename)
    ensures r == filename || |r| == |filename| + 5
  {
    if EndsWith(filename, ".docx") then filename else filename + ".docx"
  }

  lemma CreateNameKeepsDocx(filename: string)
    ensures EndsWith(filename, ".docx") <==> CreateName(filename) == filename
  {
  }

  lemma CreateNameIdempotent(filename: string)
    ensures CreateName(CreateName(filename)) == CreateName(filename)
  {
  }

  /** A created name always passes the extension test used by the listing. */
  lemma CreateNameAllowed(filename: string)
    ensures AllowedFile(CreateName(filename))
  {
    DocxEndingAllowed(CreateName(filename));
  }

  /** Every name ending in `.docx` passes the extension test. */
  lemma DocxEndingAllowed(n: string)
    requires EndsWith(n, ".docx")
    ensures AllowedFile(n)
  {
    assert n[|n| - 5..] == ".docx";
    assert n[|n| - 4..] == "docx";
    assert Lower("docx") == "docx";
    AllowedFileIffSuffix(n);
  }

  /** The comparison is case-sensitive, so an upper-case `.DOCX` gains a
      second extension. */
  lemma CreateNameCaseSensitive()
    ensures CreateName("x.DOCX") == "x.DOCX.docx"
  {
    assert "x.DOCX"[1..] != ".docx";
  }

  /** A name split into base and extension. */
  datatype NameParts = NameParts(base: string, ext: string)

  /** `os.path.splitext` on POSIX: the extension starts at the last `.` after
      the last `/`, unless every character between that `/` and the dot is
      itself a dot (so `.docx` and `..docx` have no extension). */
  function SplitExt(p: string): (r: NameParts)
    ensures r.base + r.ext == p
    ensures r.ext != [] ==> r.ext[0] == '.' && '.' !in r.ext[1..] && '/' !in r.ext
    ensures r.ext != [] ==> exists i | 0 <= i < |r.base| :: r.base[i] != '.'
  {
    var sep := LastIndexOf(p, '/');
    var dot := LastIndexOf(p, '.');
    if dot > sep && exists i | sep < i < dot :: p[i] != '.' then
      ExtensionTail(p, sep, dot);
      NameParts(p[..dot], p[dot..])
    else
      NameParts(p, "")
  }

  /** `splitext` finds an extension exactly when the last path component
      has a dot somewhere after a character that is not a dot; the
      extension is then the text from the last dot on. */
  lemma SplitExtFinds(p: string)
    ensures SplitExt(p).ext != "" <==>
      exists i, j | LastIndexOf(p, '/') < i < j < |p| :: p[i] != '.' && p[j] == '.'
    ensures SplitExt(p).ext != "" ==> SplitExt(p).ext == p[LastIndexOf(p, '.')..]
  {
    var sep := LastIndexOf(p, '/');
    var dot := LastIndexOf(p, '.');
    if exists i, j | sep < i < j < |p| :: p[i] != '.' && p[j] == '.' {
      var i, j :| sep < i < j < |p| && p[i] != '.' && p[j] == '.';
      DotAfterNonDot(p, sep, dot, i, j);
    }
  }

  /** A dot after a non-dot character of the last component is at or
      before the last dot. */
  lemma DotAfterNonDot(p: string, sep: int, dot: int, i: int, j: int)
    requires sep == LastIndexOf(p, '/') && dot == LastIndexOf(p, '.')
    requires sep < i < j < |p| && p[i] != '.' && p[j] == '.'
    ensures sep < i < dot && p[i] != '.'
  {
  }

  /** The text from the last dot on, when that dot follows the last `/`,
      holds no other dot and no `/`. */
  lemma ExtensionTail(p: string, sep: int, dot: int)
    requires sep == LastIndexOf(p, '/') && dot == LastIndexOf(p, '.') && dot > sep
    ensures p[dot..] != [] && p[dot..][0] == '.'
    ensures '.' !in p[dot..][1..] && '/' !in p[dot..]
  {
    var ext := p[dot..];
    forall j | 0 <= j < |ext| ensures ext[j] == p[dot + j] {
    }
  }

  /** A name with one dot splits before it. */
  lemma SplitExtPlain()
    ensures SplitExt("report.docx") == NameParts("report", ".docx")
  {
    var r := "report.docx";
    LastIndexOfAt(r, '/', -1);
    LastIndexOfAt(r, '.', 6);
    assert r[0] != '.';
    assert r[..6] == "report" && r[6..] == ".docx";
  }

  /** A leading dot does not start an extension. */
  lemma SplitExtDotOnly()
    ensures SplitExt(".docx") == NameParts(".docx", "")
  {
    LastIndexOfAt(".docx", '/', -1);
    LastIndexOfAt(".docx", '.', 0);
  }

  /** The name tried on the k-th collision: `f"{base_name}_{counter}{ext}"`. */
  function Candidate(base: string, ext: string, k: nat): string {
    base + "_" + Decimal(k) + ext
  }

  /** Different counters give different candidates, and no candidate is the
      original name. */
  lemma CandidatesDistinct(base: string, ext: string, j: nat, k: nat)
    ensures Candidate(base, ext, j) != base + ext
    ensures j != k ==> Candidate(base, ext, j) != Candidate(base, ext, k)
  {
    var cj, ck := Candidate(base, ext, j), Candidate(base, ext, k);
    assert |cj| > |base + ext|;
    if cj == ck {
      var dj, dk := Decimal(j), Decimal(k);
      assert |dj| == |dk|;
      assert cj[|base| + 1..|base| + 1 + |dj|] == dj;
      assert ck[|base| + 1..|base| + 1 + |dk|] == dk;
      DecimalInjective(j, k);
    }
  }

  /** A tail that starts with the only dot in it holds the last dot. */
  lemma LastDotInTail(s: string, t: string)
    requires |t| >= 1 && t[0] == '.' && '.' !in t[1..]
    ensures LastIndexOf(s + t, '.') == |s| && (s + t)[|s| + 1..] == t[1..]
  {
    var n := s + t;
    forall j | |s| < j < |n| ensures n[j] != '.' {
      assert n[j] == t[1..][j - |s| - 1];
    }
    LastIndexOfAt(n, '.', |s|);
  }

  /** When the name has an extension, every candidate keeps it, so a renamed
      upload still passes the extension test. */
  lemma CandidateKeepsAllowed(name: string, k: nat)
    requires AllowedFile(name) && SplitExt(name).ext != ""
    ensures AllowedFile(Candidate(SplitExt(name).base, SplitExt(name).ext, k))
  {
    var parts := SplitExt(name);
    var front := parts.base + "_" + Decimal(k);
    LastDotInTail(parts.base, parts.ext);
    LastDotInTail(front, parts.ext);
    assert Candidate(parts.base, parts.ext, k) == front + parts.ext;
    assert (front + parts.ext)[|front|] == '.';
  }

  /** A name made only of an extension-looking dot-prefix has no extension
      for splitext, so its first candidate loses the `.docx` ending and is
      no longer listed. */
  lemma DotNameCandidateNotAllowed()
    ensures AllowedFile(".docx") && SplitExt(".docx") == NameParts(".docx", "")
    ensures Candidate(".docx", "", 1) == ".docx_1" && !AllowedFile(".docx_1")
  {
    DocxEndingAllowed(".docx");
    SplitExtDotOnly();
    CandidateDigit(".docx", "", 1);
    DotNameCandidateRefused();
  }

  lemma DotNameCandidateRefused()
    ensures !AllowedFile(".docx_1")
  {
    var c := ".docx_1";
    assert c[2] == 'o' && c[3] == 'c';
    AllowedFileIffSuffix(c);
  }

  /** The duplicate-name loop of the upload handler: keep the name if it is
      free, otherwise try `base_1ext`, `base_2ext`, ... and return the first
      free one. `taken` is the set of names in the folder; the loop only
      reads it. */
  method UniqueUploadName(name: string, taken: set<string>) returns (r: string)
    ensures r !in taken
    ensures name !in taken ==> r == name
    ensures name in taken ==>
      exists k | k >= 1 :: r == Candidate(SplitExt(name).base, SplitExt(name).ext, k)
        && forall j | 1 <= j < k :: Candidate(SplitExt(name).base, SplitExt(name).ext, j) in taken
  {
    var parts := SplitExt(name);
    r := name;
    var counter: nat := 1;
    ghost var tried: set<string> := {};
    while r in taken
      invariant counter >= 1
      invariant counter == 1 ==> r == name
      invariant counter > 1 ==> name in taken && r == Candidate(parts.base, parts.ext, counter - 1)
      invariant forall j | 1 <= j < counter - 1 :: Candidate(parts.base, parts.ext, j) in taken
      invariant tried <= taken && r !in tried
      invariant forall x | x in tried ::
        x == name || exists j | 1 <= j < counter - 1 :: x == Candidate(parts.base, parts.ext, j)
      decreases taken - tried
    {
      tried := tried + {r};
      r := Candidate(parts.base, parts.ext, counter);
      counter := counter + 1;
      forall x | x in tried ensures x != r {
        CandidatesDistinct(parts.base, parts.ext, counter - 1, counter - 1);
        if x != name {
          var j :| 1 <= j < counter - 1 && x == Candidate(parts.base, parts.ext, j);
          CandidatesDistinct(parts.base, parts.ext, j, counter - 1);
        }
      }
    }
    if counter > 1 {
      assert r == Candidate(parts.base, parts.ext, counter - 1);
    }
  }

  /** The first collision of `report.docx`. */
  lemma UploadFirstCollision()
    ensures Candidate(SplitExt("report.docx").base, SplitExt("report.docx").ext, 1) == "report_1.docx"
  {
    SplitExtPlain();
    CandidateDigit("report", ".docx", 1);
  }

  /** The second collision of `report.docx`. */
  lemma UploadSecondCollision()
    ensures Candidate(SplitExt("report.docx").base, SplitExt("report.docx").ext, 2) == "report_2.docx"
  {
    SplitExtPlain();
    CandidateDigit("report", ".docx", 2);
  }

  lemma CandidateDigit(base: string, ext: string, d: nat)
    requires d < 10
    ensures Candidate(base, ext, d) == base + ['_', DigitChar(d)] + ext
  {
  }
}
