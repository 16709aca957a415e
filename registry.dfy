/** The document registry: the listing of the storage folder shown on the
    index page and by the JSON endpoint. A scan of the folder gives each
    file's name and modification time; the listing keeps the files that pass
    the extension test and orders them newest first, with files of the same
    second kept in scan order (Python's `sorted` is stable, also with
    `reverse=True`). */
module Registry {
  import opened Text
  import opened FileNames

  /** One entry of the folder scan: a name and its modification time in
      whole seconds. */
  datatype ScanEntry = ScanEntry(name: string, modified: int)

  /** A document record of the listing. */
  datatype Record = Record(name: string, modified: int, path: string)

  /** The storage folder, relative to the working directory. */
  const UploadFolder: string := "documents"

  /** `os.path.join(UPLOAD_FOLDER, name)` on POSIX for a plain name. */
  function PathOf(name: string): string {
    UploadFolder + "/" + name
  }

  function RecordOf(e: ScanEntry): Record {
    Record(e.name, e.modified, PathOf(e.name))
  }

  /** The records the scanning loop collects: one per entry with an allowed
      name, in scan order. */
  function Collected(scan: seq<ScanEntry>): (r: seq<Record>)
    ensures |r| <= |scan|
  {
    if scan == [] then []
    else
      var e := scan[|scan| - 1];
      Collected(scan[..|scan| - 1]) + (if AllowedFile(e.name) then [RecordOf(e)] else [])
  }

  /** A record is collected exactly when it comes from an entry whose name
      passes the extension test. */
  lemma {:induction false} CollectedMember(scan: seq<ScanEntry>, r: Record)
    ensures r in Collected(scan) <==>
      exists i | 0 <= i < |scan| :: AllowedFile(scan[i].name) && r == RecordOf(scan[i])
  {
    if scan != [] {
      var front := scan[..|scan| - 1];
      CollectedMember(front, r);
      assert forall i | 0 <= i < |front| :: front[i] == scan[i];
      if r in Collected(scan) && r !in Collected(front) {
        assert AllowedFile(scan[|scan| - 1].name) && r == RecordOf(scan[|scan| - 1]);
      }
    }
  }

  /** Ordered by modification time, newest first. */
  predicate NewestFirst(s: seq<Record>) {
    forall i, j | 0 <= i < j < |s| :: s[i].modified >= s[j].modified
  }

  /** The records of `s` modified at second `m`, in their order in `s`. */
  function WithModified(s: seq<Record>, m: int): seq<Record> {
    if s == [] then []
    else (if s[0].modified == m then [s[0]] else []) + WithModified(s[1..], m)
  }

  /** Puts `x` before the first record that is not newer than it, so that
      `x` stays ahead of records of the same second that followed it. */
  function Insert(x: Record, t: seq<Record>): (r: seq<Record>)
    ensures |r| == |t| + 1
  {
    if t == [] || t[0].modified <= x.modified then [x] + t
    else [t[0]] + Insert(x, t[1..])
  }

  /** `sorted(records, key=modified, reverse=True)`. */
  function SortNewestFirst(s: seq<Record>): (r: seq<Record>)
    ensures |r| == |s|
  {
    if s == [] then [] else Insert(s[0], SortNewestFirst(s[1..]))
  }

  lemma {:induction false} InsertPermutes(x: Record, t: seq<Record>)
    ensures multiset(Insert(x, t)) == multiset([x] + t)
  {
    if !(t == [] || t[0].modified <= x.modified) {
      InsertPermutes(x, t[1..]);
      assert t == [t[0]] + t[1..];
    }
  }

  lemma NewestFirstCons(a: Record, s: seq<Record>)
    requires NewestFirst(s)
    requires forall y | y in s :: y.modified <= a.modified
    ensures NewestFirst([a] + s)
  {
    var r := [a] + s;
    forall i, j | 0 <= i < j < |r| ensures r[i].modified >= r[j].modified {
      if i == 0 {
        assert r[j] == s[j - 1];
        assert r[j] in s;
      } else {
        assert r[i] == s[i - 1] && r[j] == s[j - 1];
      }
    }
  }

  lemma {:induction false} InsertKeepsOrder(x: Record, t: seq<Record>)
    requires NewestFirst(t)
    ensures NewestFirst(Insert(x, t))
  {
    if t == [] || t[0].modified <= x.modified {
      forall y | y in t ensures y.modified <= x.modified {
        var k :| 0 <= k < |t| && t[k] == y;
        if k > 0 {
          assert t[0].modified >= t[k].modified;
        }
      }
      NewestFirstCons(x, t);
    } else {
      var rest := t[1..];
      RestNewestFirst(t);
      InsertKeepsOrder(x, rest);
      InsertPermutes(x, rest);
      forall y | y in Insert(x, rest) ensures y.modified <= t[0].modified {
        assert y in multiset([x] + rest);
        if y != x {
          assert y in rest;
          var k :| 0 <= k < |rest| && rest[k] == y;
          assert t[k + 1] == y;
        }
      }
      NewestFirstCons(t[0], Insert(x, rest));
    }
  }

  lemma WithModifiedCons(a: Record, s: seq<Record>, m: int)
    ensures WithModified([a] + s, m) == (if a.modified == m then [a] else []) + WithModified(s, m)
  {
    assert ([a] + s)[0] == a && ([a] + s)[1..] == s;
  }

  lemma RestNewestFirst(t: seq<Record>)
    requires NewestFirst(t) && t != []
    ensures NewestFirst(t[1..])
  {
    var rest := t[1..];
    forall i, j | 0 <= i < j < |rest| ensures rest[i].modified >= rest[j].modified {
      assert rest[i] == t[i + 1] && rest[j] == t[j + 1];
    }
  }

  /** Records of the same second keep their relative order across an
      insertion. */
  lemma {:induction false} InsertStable(x: Record, t: seq<Record>, m: int)
    requires NewestFirst(t)
    ensures WithModified(Insert(x, t), m) == (if x.modified == m then [x] else []) + WithModified(t, m)
  {
    if t == [] || t[0].modified <= x.modified {
      WithModifiedCons(x, t, m);
    } else {
      var rest := t[1..];
      RestNewestFirst(t);
      InsertStable(x, rest, m);
      WithModifiedCons(t[0], Insert(x, rest), m);
      WithModifiedCons(t[0], rest, m);
      assert t == [t[0]] + rest;
      // t[0] is newer than x, so at most one of the two is of second m.
      if t[0].modified == m {
        assert x.modified != m;
      }
    }
  }

  /** The sort orders newest first, loses and adds nothing, and keeps the
      scan order among records of the same second. */
  lemma {:induction false} SortSpec(s: seq<Record>)
    ensures NewestFirst(SortNewestFirst(s))
    ensures multiset(SortNewestFirst(s)) == multiset(s)
    ensures forall m :: WithModified(SortNewestFirst(s), m) == WithModified(s, m)
  {
    if s != [] {
      var sorted := SortNewestFirst(s[1..]);
      SortSpec(s[1..]);
      InsertKeepsOrder(s[0], sorted);
      InsertPermutes(s[0], sorted);
      assert s == [s[0]] + s[1..];
      forall m ensures WithModified(SortNewestFirst(s), m) == WithModified(s, m) {
        InsertStable(s[0], sorted, m);
      }
    }
  }

  /** `get_documents`: the loop over the scan collects the allowed entries,
      then the records are sorted newest first. */
  method GetDocuments(scan: seq<ScanEntry>) returns (docs: seq<Record>)
    ensures docs == SortNewestFirst(Collected(scan))
    ensures NewestFirst(docs)
    ensures multiset(docs) == multiset(Collected(scan))
    ensures forall m :: WithModified(docs, m) == WithModified(Collected(scan), m)
    ensures scan == [] ==> docs == []
  {
    var documents: seq<Record> := [];
    for i := 0 to |scan|
      invariant documents == Collected(scan[..i])
    {
      var e := scan[i];
      assert scan[..i + 1][..i] == scan[..i];
      if AllowedFile(e.name) {
        documents := documents + [Record(e.name, e.modified, PathOf(e.name))];
      }
    }
    assert scan[..|scan|] == scan;
    docs := SortNewestFirst(documents);
    SortSpec(documents);
  }

  /** Two documents, the second saved one second after the first, are
      listed newer first. */
  lemma ListingExample()
    ensures SortNewestFirst(Collected([ScanEntry("a.docx", 100), ScanEntry("b.docx", 101)]))
      == [RecordOf(ScanEntry("b.docx", 101)), RecordOf(ScanEntry("a.docx", 100))]
  {
    var a, b := ScanEntry("a.docx", 100), ScanEntry("b.docx", 101);
    assert EndsWith(a.name, ".docx") && EndsWith(b.name, ".docx");
    DocxEndingAllowed(a.name);
    DocxEndingAllowed(b.name);
    CollectedPair(a, b);
    SortPair(RecordOf(a), RecordOf(b));
  }

  /** Of two records, the newer is listed first. */
  lemma SortPair(x: Record, y: Record)
    requires x.modified < y.modified
    ensures SortNewestFirst([x, y]) == [y, x]
  {
    assert [x, y][1..] == [y];
    assert [y][1..] == [];
    assert SortNewestFirst([y]) == Insert(y, []) == [y];
    assert Insert(x, [y]) == [y] + Insert(x, []);
  }

  lemma CollectedPair(a: ScanEntry, b: ScanEntry)
    requires AllowedFile(a.name) && AllowedFile(b.name)
    ensures Collected([a, b]) == [RecordOf(a), RecordOf(b)]
  {
    assert [a, b][..1] == [a];
    assert [a][..0] == [];
  }
}
