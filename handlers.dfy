/** The request handlers of the document manager, over the storage folder.
    The folder is a map from file name to stored file; each handler checks
    what the source checks, in the same order, and changes the folder the
    way the source's file operations do. The route plumbing, the flash
    messages and the rendered pages are not part of this model: a handler
    returns the value the page would show, or the error it flashes. */
module Handlers {
  import opened Text
  import opened FileNames
  import opened Codec
  import opened Registry

  datatype Option<T> = None | Some(value: T)

  /** The errors the handlers flash before redirecting. */
  datatype Error =
    | NotFound          // 'Document not found'
    | NoFileSelected    // 'No file selected'
    | InvalidFileType   // 'Invalid file type. ...'
    | CorruptDocument   // 'Error reading document: ...'

  datatype Result<T> = Ok(value: T) | Err(error: Error)

  /** What a stored file holds as far as the document library can tell: the
      paragraphs of a Word document, or bytes it cannot read (an old `.doc`
      file, a damaged upload). */
  datatype FileContent = Word(paragraphs: seq<Paragraph>) | Unreadable

  /** A file of the folder: its content and its modification time in whole
      seconds. */
  datatype StoredFile = StoredFile(content: FileContent, modified: int)

  /** The file part of an upload form. */
  datatype UploadedFile = UploadedFile(filename: string, content: FileContent)

  /** What the web editor's form is filled with. */
  datatype EditFields = EditFields(title: string, content: string)

  /** The title field of a web-edit save, `request.form.get('title', '')`. */
  function TitleField(title: Option<string>): string {
    if title.Some? then title.value else ""
  }

  /** The paragraphs a web-edit save writes. */
  function EditedDocument(st: Styles, title: string, content: string): seq<Paragraph> {
    HeadingPart(st, title) + BodyParagraphs(st.body, VisibleLines(content))
  }

  /** With a heading style for titles, loading an edited document gives the
      title and the visible lines back. */
  lemma EditedDocumentLoads(st: Styles, title: string, content: string)
    ensures IsHeading(st.title) && !IsHeading(st.body) ==>
      TitleOf(EditedDocument(st, title, content)) == title
      && BodyOf(EditedDocument(st, title, content)) == VisibleLines(content)
  {
    if IsHeading(st.title) && !IsHeading(st.body) {
      SaveThenLoad(st, title, content);
    }
  }

  /** The folder scan the listing reads: the names in `order`, each with its
      file's modification time. */
  function Scan(files: map<string, StoredFile>, order: seq<string>): (r: seq<ScanEntry>)
    requires forall i | 0 <= i < |order| :: order[i] in files
    ensures |r| == |order| && forall i | 0 <= i < |r| :: r[i].name == order[i]
    ensures forall e | e in r :: e.name in files && e.modified == files[e.name].modified
  {
    seq(|order|, i requires 0 <= i < |order| => ScanEntry(order[i], files[order[i]].modified))
  }

  /** When the scanned names are distinct, each collected record occurs
      once. */
  lemma {:induction false} CollectedOnce(scan: seq<ScanEntry>, r: Record)
    requires forall i, j | 0 <= i < j < |scan| :: scan[i].name != scan[j].name
    ensures multiset(Collected(scan))[r] <= 1
  {
    if scan != [] {
      var front := scan[..|scan| - 1];
      var e := scan[|scan| - 1];
      assert forall i | 0 <= i < |front| :: front[i] == scan[i];
      CollectedOnce(front, r);
      if AllowedFile(e.name) && r == RecordOf(e) {
        CollectedMember(front, r);
      }
    }
  }

  /** The stored name of an accepted upload passes the extension test, so
      the upload is listed, whenever its name has an extension for
      splitext. */
  lemma UploadListed(filename: string, stored: string)
    requires AllowedFile(filename) && SplitExt(filename).ext != ""
    requires stored == filename || exists k: nat :: stored == Candidate(SplitExt(filename).base, SplitExt(filename).ext, k)
    ensures AllowedFile(stored)
  {
    if stored != filename {
      var k: nat :| stored == Candidate(SplitExt(filename).base, SplitExt(filename).ext, k);
      CandidateKeepsAllowed(filename, k);
    }
  }

  /** Any permutation of the collected records holds exactly one record
      per allowed file of the folder. */
  lemma ListingContents(files: map<string, StoredFile>, order: seq<string>, docs: seq<Record>)
    requires forall i | 0 <= i < |order| :: order[i] in files
    requires forall name | name in files :: name in order
    requires forall i, j | 0 <= i < j < |order| :: order[i] != order[j]
    requires multiset(docs) == multiset(Collected(Scan(files, order)))
    ensures forall d :: d in docs <==>
      d.name in files && AllowedFile(d.name) && d == Record(d.name, files[d.name].modified, PathOf(d.name))
    ensures forall d | d in docs :: multiset(docs)[d] == 1
  {
    var scan := Scan(files, order);
    forall d ensures d in docs <==>
      d.name in files && AllowedFile(d.name) && d == Record(d.name, files[d.name].modified, PathOf(d.name))
    {
      assert d in docs <==> d in multiset(docs);
      ScanCollects(files, order, d);
    }
    forall d | d in docs ensures multiset(docs)[d] == 1 {
      CollectedOnce(scan, d);
    }
  }

  /** A record is collected from the scan exactly when it describes an
      allowed file of the folder. */
  lemma ScanCollects(files: map<string, StoredFile>, order: seq<string>, d: Record)
    requires forall i | 0 <= i < |order| :: order[i] in files
    requires forall name | name in files :: name in order
    ensures d in Collected(Scan(files, order)) <==>
      d.name in files && AllowedFile(d.name) && d == Record(d.name, files[d.name].modified, PathOf(d.name))
  {
    var scan := Scan(files, order);
    CollectedMember(scan, d);
    if d.name in files && AllowedFile(d.name) && d == Record(d.name, files[d.name].modified, PathOf(d.name)) {
      var i :| 0 <= i < |order| && order[i] == d.name;
      assert d == RecordOf(scan[i]);
    }
  }

  /** The storage folder and the handlers that read and change it. */
  class DocumentFolder {
    /** The files of the folder, by name. */
    var files: map<string, StoredFile>
    /** The style names the document library gives to titles and paragraphs. */
    const styles: Styles

    /** The folder as found at start-up (created empty when missing). */
    constructor(styles: Styles, existing: map<string, StoredFile>)
      ensures this.styles == styles && files == existing
    {
      this.styles := styles;
      files := existing;
    }

    /** `create_document` on a submitted form: the name gets its `.docx`
        ending and the new document is written under it, replacing any file
        of that name. */
    method Create(filename: string, title: string, content: string, now: int) returns (name: string)
      modifies this
      ensures name == CreateName(filename) && AllowedFile(name)
      ensures files == old(files)[name := StoredFile(Word(CreateDocument(styles, title, content)), now)]
    {
      name := filename;
      if !EndsWith(name, ".docx") {
        name := name + ".docx";
      }
      CreateNameAllowed(filename);
      files := files[name := StoredFile(Word(CreateDocument(styles, title, content)), now)];
    }

    /** `upload_document` on a submitted form. A missing or nameless file
        and a refused extension change nothing; an accepted file is stored
        under its own name when that is free, else under the first free
        `base_k.ext`, never replacing a file. */
    method Upload(file: Option<UploadedFile>, now: int) returns (r: Result<string>)
      modifies this
      ensures (file.None? || file.value.filename == "") ==>
        r == Err(NoFileSelected) && files == old(files)
      ensures file.Some? && file.value.filename != "" && !AllowedFile(file.value.filename) ==>
        r == Err(InvalidFileType) && files == old(files)
      ensures file.Some? && file.value.filename != "" && AllowedFile(file.value.filename) ==>
        r.Ok? && r.value !in old(files)
        && files == old(files)[r.value := StoredFile(file.value.content, now)]
      ensures r.Ok? && file.value.filename !in old(files) ==> r.value == file.value.filename
      ensures r.Ok? && file.value.filename in old(files) ==>
        var parts := SplitExt(file.value.filename);
        exists k | k >= 1 :: r.value == Candidate(parts.base, parts.ext, k)
          && forall j | 1 <= j < k :: Candidate(parts.base, parts.ext, j) in old(files)
    {
      if file.None? || file.value.filename == "" {
        return Err(NoFileSelected);
      }
      var f := file.value;
      if !AllowedFile(f.filename) {
        return Err(InvalidFileType);
      }
      var name := UniqueUploadName(f.filename, files.Keys);
      files := files[name := StoredFile(f.content, now)];
      r := Ok(name);
    }

    /** `edit_document` up to the hand-over to the desktop opener: an
        unknown name is refused, otherwise the path to open is returned. */
    method Edit(name: string) returns (r: Result<string>)
      ensures name !in files <==> r == Err(NotFound)
      ensures name in files ==> r == Ok(PathOf(name))
    {
      if name !in files {
        return Err(NotFound);
      }
      r := Ok(PathOf(name));
    }

    /** `download_document`: the stored content, or `NotFound`. */
    method Download(name: string) returns (r: Result<FileContent>)
      ensures name !in files <==> r == Err(NotFound)
      ensures name in files ==> r == Ok(files[name].content)
    {
      if name !in files {
        return Err(NotFound);
      }
      r := Ok(files[name].content);
    }

    /** `delete_document`: removes the named file and nothing else. */
    method Delete(name: string) returns (r: Result<string>)
      modifies this
      ensures name !in old(files) ==> r == Err(NotFound) && files == old(files)
      ensures name in old(files) ==> r == Ok(name) && files == old(files) - {name}
    {
      if name !in files {
        return Err(NotFound);
      }
      files := files - {name};
      r := Ok(name);
    }

    /** `preview_document`: the visible paragraph texts, headings included;
        a file the document library cannot read is reported as such. */
    method Preview(name: string) returns (r: Result<seq<string>>)
      ensures name !in files <==> r == Err(NotFound)
      ensures name in files && files[name].content.Unreadable? ==> r == Err(CorruptDocument)
      ensures name in files && files[name].content.Word? ==>
        r == Ok(PreviewOf(files[name].content.paragraphs))
    {
      if name !in files {
        return Err(NotFound);
      }
      var stored := files[name];
      if stored.content.Unreadable? {
        return Err(CorruptDocument);
      }
      var texts := PreviewTexts(stored.content.paragraphs);
      r := Ok(texts);
    }

    /** `web_edit_document` on GET: the title and body of the stored
        document for the edit form. */
    method WebEditLoad(name: string) returns (r: Result<EditFields>)
      ensures name !in files <==> r == Err(NotFound)
      ensures name in files && files[name].content.Unreadable? ==> r == Err(CorruptDocument)
      ensures name in files && files[name].content.Word? ==>
        var ps := files[name].content.paragraphs;
        r == Ok(EditFields(TitleOf(ps), Join(BodyOf(ps), '\n')))
    {
      if name !in files {
        return Err(NotFound);
      }
      var stored := files[name];
      if stored.content.Unreadable? {
        return Err(CorruptDocument);
      }
      var title, content := LoadForEditing(stored.content.paragraphs);
      r := Ok(EditFields(title, content));
    }

    /** `web_edit_document` on POST: the file is rewritten from the form,
        replacing whatever it held (readable or not). With a heading style
        for titles, the next load gives the title and the visible lines
        back. */
    method WebEditSave(name: string, title: Option<string>, content: string, now: int) returns (r: Result<string>)
      modifies this
      ensures name !in old(files) ==> r == Err(NotFound) && files == old(files)
      ensures name in old(files) ==>
        r == Ok(name)
        && files == old(files)[name := StoredFile(Word(EditedDocument(styles, TitleField(title), content)), now)]
      ensures name in old(files) && IsHeading(styles.title) && !IsHeading(styles.body) ==>
        TitleOf(files[name].content.paragraphs) == TitleField(title)
        && BodyOf(files[name].content.paragraphs) == VisibleLines(content)
    {
      if name !in files {
        return Err(NotFound);
      }
      var t := if title.Some? then title.value else "";
      var doc := BuildEditedDocument(styles, t, content);
      EditedDocumentLoads(styles, t, content);
      files := files[name := StoredFile(Word(doc), now)];
      r := Ok(name);
    }

    /** `get_documents` as the index page and the JSON endpoint call it.
        `order` is the order in which the folder scan meets the names: every
        file once. The listing holds exactly one record per file with an
        allowed name, newest first, ties in scan order. */
    method ListDocuments(order: seq<string>) returns (docs: seq<Record>)
      requires forall i | 0 <= i < |order| :: order[i] in files
      requires forall name | name in files :: name in order
      requires forall i, j | 0 <= i < j < |order| :: order[i] != order[j]
      ensures docs == SortNewestFirst(Collected(Scan(files, order)))
      ensures NewestFirst(docs)
      ensures forall d :: d in docs <==>
        d.name in files && AllowedFile(d.name) && d == Record(d.name, files[d.name].modified, PathOf(d.name))
      ensures forall d | d in docs :: multiset(docs)[d] == 1
    {
      var scan := Scan(files, order);
      docs := GetDocuments(scan);
      ListingContents(files, order, docs);
    }
  }
}
