/** The paragraph logic around the document library. A Word document is seen
    only as its sequence of paragraphs, each with a style name and a text.
    Three blocks of the request handlers work on that sequence: building the
    paragraphs of a saved web edit (or of a new document), reading a title
    and a body back for the web editor, and collecting the texts shown by
    the preview page. */
module Codec {
  import opened Text

  datatype Paragraph = Paragraph(style: string, text: string)

  /** The style names the document library gives to a level-0 heading
      (`add_heading(title, 0)`) and to a plain paragraph (`add_paragraph`).
      They are the library's choice, so the model takes them as a value. */
  datatype Styles = Styles(title: string, body: string)

  /** The style test of the web editor: `style.name.startswith('Heading')`. */
  predicate IsHeading(style: string) {
    StartsWith(style, "Heading")
  }

  /** The test written `if text.strip():`. */
  predicate Visible(s: string) {
    Strip(s) != ""
  }

  /** The strings of `xs` that pass `Visible`, in their order. */
  function KeepVisible(xs: seq<string>): (r: seq<string>)
    ensures |r| <= |xs|
  {
    if xs == [] then []
    else KeepVisible(xs[..|xs| - 1]) + (if Visible(xs[|xs| - 1]) then [xs[|xs| - 1]] else [])
  }

  lemma KeepVisibleSnoc(xs: seq<string>, x: string)
    ensures KeepVisible(xs + [x]) == KeepVisible(xs) + (if Visible(x) then [x] else [])
  {
    assert (xs + [x])[..|xs|] == xs;
  }

  /** Filtering distributes over concatenation, so it keeps the order. */
  lemma {:induction false} KeepVisibleAppend(a: seq<string>, b: seq<string>)
    ensures KeepVisible(a + b) == KeepVisible(a) + KeepVisible(b)
  {
    if b == [] {
      assert a + b == a;
    } else {
      var front := b[..|b| - 1];
      var x := b[|b| - 1];
      assert b == front + [x];
      assert a + b == (a + front) + [x];
      KeepVisibleAppend(a, front);
      KeepVisibleSnoc(a + front, x);
      KeepVisibleSnoc(front, x);
    }
  }

  /** A string survives the filter exactly when it is present and visible. */
  lemma {:induction false} KeepVisibleMember(xs: seq<string>, x: string)
    ensures x in KeepVisible(xs) <==> x in xs && Visible(x)
  {
    if xs != [] {
      var front := xs[..|xs| - 1];
      assert xs == front + [xs[|xs| - 1]];
      KeepVisibleMember(front, x);
    }
  }

  /** Filtering twice is filtering once. */
  lemma {:induction false} KeepVisibleIdempotent(xs: seq<string>)
    ensures KeepVisible(KeepVisible(xs)) == KeepVisible(xs)
  {
    if xs != [] {
      var front := xs[..|xs| - 1];
      var x := xs[|xs| - 1];
      KeepVisibleIdempotent(front);
      var once := KeepVisible(front);
      if Visible(x) {
        KeepVisibleSnoc(once, x);
      } else {
        assert KeepVisible(xs) == once;
      }
    }
  }

  /** The texts of a paragraph sequence. */
  function Texts(ps: seq<Paragraph>): (r: seq<string>)
    ensures |r| == |ps|
  {
    if ps == [] then [] else Texts(ps[..|ps| - 1]) + [ps[|ps| - 1].text]
  }

  lemma TextsSnoc(ps: seq<Paragraph>, p: Paragraph)
    ensures Texts(ps + [p]) == Texts(ps) + [p.text]
  {
    assert (ps + [p])[..|ps|] == ps;
  }

  lemma {:induction false} TextsAppend(a: seq<Paragraph>, b: seq<Paragraph>)
    ensures Texts(a + b) == Texts(a) + Texts(b)
  {
    if b == [] {
      assert a + b == a;
    } else {
      var front := b[..|b| - 1];
      var p := b[|b| - 1];
      assert b == front + [p];
      assert a + b == (a + front) + [p];
      TextsAppend(a, front);
      TextsSnoc(a + front, p);
      TextsSnoc(front, p);
    }
  }

  // ---------------------------------------------------------------------
  // Building documents

  /** The optional heading that starts a new or re-saved document: present
      exactly when the title is not empty (`if title:`). */
  function HeadingPart(st: Styles, title: string): (r: seq<Paragraph>)
    ensures |r| <= 1
  {
    if title != "" then [Paragraph(st.title, title)] else []
  }

  /** One body paragraph per line, in order. */
  function BodyParagraphs(style: string, lines: seq<string>): (r: seq<Paragraph>)
    ensures |r| == |lines|
  {
    if lines == [] then []
    else BodyParagraphs(style, lines[..|lines| - 1]) + [Paragraph(style, lines[|lines| - 1])]
  }

  lemma BodyParagraphsSnoc(style: string, lines: seq<string>, line: string)
    ensures BodyParagraphs(style, lines + [line]) == BodyParagraphs(style, lines) + [Paragraph(style, line)]
  {
    assert (lines + [line])[..|lines|] == lines;
  }

  /** Each line becomes one paragraph of the given style holding that line. */
  lemma {:induction false} BodyParagraphsText(style: string, lines: seq<string>)
    ensures Texts(BodyParagraphs(style, lines)) == lines
    ensures forall i | 0 <= i < |lines| :: BodyParagraphs(style, lines)[i] == Paragraph(style, lines[i])
  {
    if lines != [] {
      var front := lines[..|lines| - 1];
      BodyParagraphsText(style, front);
      TextsSnoc(BodyParagraphs(style, front), Paragraph(style, lines[|lines| - 1]));
      assert lines == front + [lines[|lines| - 1]];
    }
  }

  /** The lines of `content.split('\n')` kept by the web editor's save: those
      with a non-white-space character, unstripped. */
  function VisibleLines(content: string): seq<string> {
    KeepVisible(Split(content, '\n'))
  }

  /** The kept lines are exactly the lines of the content that have a
      character other than white space; none of them holds a line break,
      and a carriage return before a line break stays in its line. */
  lemma VisibleLinesExact(content: string, x: string)
    ensures x in VisibleLines(content) <==> x in Split(content, '\n') && !Blank(x)
    ensures x in VisibleLines(content) ==> '\n' !in x
  {
    KeepVisibleMember(Split(content, '\n'), x);
    StripEmptyIffBlank(x);
  }

  lemma SplitLinesExample()
    ensures Split("one\r\n\n  \ntwo", '\n') == ["one\r", "", "  ", "two"]
  {
    var x1 := "one\r";
    var x2 := x1 + ['\n'] + "";
    var x3 := x2 + ['\n'] + "  ";
    var x4 := x3 + ['\n'] + "two";
    assert x4 == "one\r\n\n  \ntwo";
    SplitNone(x1, '\n');
    SplitLast(x1, '\n', "");
    SplitLast(x2, '\n', "  ");
    SplitLast(x3, '\n', "two");
  }

  /** Blank lines are dropped and a carriage return is kept in its line. */
  lemma VisibleLinesExample()
    ensures VisibleLines("one\r\n\n  \ntwo") == ["one\r", "two"]
  {
    SplitLinesExample();
    NotBlankStrip("one\r", 0);
    NotBlankStrip("two", 0);
    assert Blank("  ");
    StripEmptyIffBlank("  ");
    assert Strip("") == "";
    KeepFirstAndLast("one\r", "", "  ", "two");
  }

  /** Of four lines, only the first and the last are visible. */
  lemma KeepFirstAndLast(w: string, x: string, y: string, z: string)
    requires Visible(w) && !Visible(x) && !Visible(y) && Visible(z)
    ensures KeepVisible([w, x, y, z]) == [w, z]
  {
    var s0: seq<string> := [];
    assert [w, x, y, z] == s0 + [w] + [x] + [y] + [z];
    KeepVisibleSnoc(s0, w);
    KeepVisibleSnoc(s0 + [w], x);
    KeepVisibleSnoc(s0 + [w] + [x], y);
    KeepVisibleSnoc(s0 + [w] + [x] + [y], z);
  }

  /** The document `create_document` stores: the optional heading, then the
      whole content as one paragraph when it is not empty (`if content:`),
      with no splitting into lines. */
  function CreateDocument(st: Styles, title: string, content: string): (r: seq<Paragraph>)
    ensures Texts(r) == (if title != "" then [title] else []) + (if content != "" then [content] else [])
    ensures forall i | 0 <= i < |r| :: r[i].style == (if i == 0 && title != "" then st.title else st.body)
  {
    HeadingPart(st, title) + (if content != "" then [Paragraph(st.body, content)] else [])
  }

  /** One step of the save loop, in terms of the loop's variables. */
  lemma EditStepAt(st: Styles, title: string, lines: seq<string>, i: int, doc: seq<Paragraph>)
    requires 0 <= i < |lines|
    requires doc == HeadingPart(st, title) + BodyParagraphs(st.body, KeepVisible(lines[..i]))
    ensures HeadingPart(st, title) + BodyParagraphs(st.body, KeepVisible(lines[..i + 1]))
      == doc + (if Strip(lines[i]) != "" then [Paragraph(st.body, lines[i])] else [])
  {
    var line := lines[i];
    assert lines[..i + 1] == lines[..i] + [line];
    KeepVisibleSnoc(lines[..i], line);
    var kept := KeepVisible(lines[..i]);
    if Strip(line) != "" {
      assert KeepVisible(lines[..i + 1]) == kept + [line];
      BodyParagraphsSnoc(st.body, kept, line);
      assert HeadingPart(st, title) + (BodyParagraphs(st.body, kept) + [Paragraph(st.body, line)])
        == (HeadingPart(st, title) + BodyParagraphs(st.body, kept)) + [Paragraph(st.body, line)];
    } else {
      assert KeepVisible(lines[..i + 1]) == kept;
      assert doc + [] == doc;
    }
  }

  /** The web editor's save: the optional heading, then one paragraph per
      visible line of the content. */
  method BuildEditedDocument(st: Styles, title: string, content: string) returns (doc: seq<Paragraph>)
    ensures doc == HeadingPart(st, title) + BodyParagraphs(st.body, VisibleLines(content))
  {
    doc := HeadingPart(st, title);
    var lines := Split(content, '\n');
    for i := 0 to |lines|
      invariant doc == HeadingPart(st, title) + BodyParagraphs(st.body, KeepVisible(lines[..i]))
    {
      var line := lines[i];
      EditStepAt(st, title, lines, i, doc);
      if Strip(line) != "" {
        doc := doc + [Paragraph(st.body, line)];
      }
    }
    assert lines[..|lines|] == lines;
  }

  // ---------------------------------------------------------------------
  // Reading documents back

  /** A paragraph the web editor takes as the title while it has none: a
      heading whose text is not empty. */
  predicate ClaimsTitle(p: Paragraph) {
    IsHeading(p.style) && p.text != ""
  }

  /** The position of the paragraph that becomes the title, or -1: a
      heading with a non-empty text (the first one, by `TitleIndexFirst`). */
  function TitleIndex(ps: seq<Paragraph>): (r: int)
    ensures -1 <= r < |ps|
    ensures r >= 0 ==> ClaimsTitle(ps[r])
  {
    if ps == [] then -1
    else
      var t := TitleIndex(ps[..|ps| - 1]);
      if t >= 0 then t
      else if ClaimsTitle(ps[|ps| - 1]) then |ps| - 1
      else -1
  }

  /** No paragraph before the title position claims the title; with no
      title, none does. */
  lemma {:induction false} TitleIndexFirst(ps: seq<Paragraph>)
    ensures forall j | 0 <= j < |ps| && (TitleIndex(ps) < 0 || j < TitleIndex(ps)) :: !ClaimsTitle(ps[j])
  {
    if ps != [] {
      var front := ps[..|ps| - 1];
      TitleIndexFirst(front);
      assert forall j | 0 <= j < |front| :: front[j] == ps[j];
    }
  }

  function TitleOf(ps: seq<Paragraph>): string {
    var t := TitleIndex(ps);
    if t >= 0 then ps[t].text else ""
  }

  /** `ps` without the paragraph at `k` (unchanged when `k` is no position). */
  function RemoveAt(ps: seq<Paragraph>, k: int): (r: seq<Paragraph>)
    ensures 0 <= k < |ps| ==> |r| == |ps| - 1
  {
    if 0 <= k < |ps| then ps[..k] + ps[k + 1..] else ps
  }

  /** The body the web editor shows: every paragraph but the title one whose
      text is visible, in order. */
  function BodyOf(ps: seq<Paragraph>): seq<string> {
    KeepVisible(Texts(RemoveAt(ps, TitleIndex(ps))))
  }

  /** The preview: every visible paragraph text, headings included. */
  function PreviewOf(ps: seq<Paragraph>): seq<string> {
    KeepVisible(Texts(ps))
  }

  /** The title is empty exactly when no paragraph claimed it. */
  lemma TitleOfEmpty(ps: seq<Paragraph>)
    ensures TitleOf(ps) == "" <==> TitleIndex(ps) < 0
  {
  }

  /** One step of the reading loop when the paragraph takes the first
      branch: a heading while the title is still empty. */
  lemma LoadStepHeading(pre: seq<Paragraph>, p: Paragraph)
    requires TitleIndex(pre) < 0 && IsHeading(p.style)
    ensures TitleOf(pre + [p]) == p.text
    ensures BodyOf(pre + [p]) == BodyOf(pre)
  {
    var next := pre + [p];
    assert next[..|pre|] == pre;
    assert RemoveAt(pre, -1) == pre;
    TextsSnoc(pre, p);
    if p.text != "" {
      assert TitleIndex(next) == |pre|;
      assert RemoveAt(next, |pre|) == pre;
    } else {
      assert TitleIndex(next) == -1;
      KeepVisibleSnoc(Texts(pre), p.text);
    }
  }

  /** One step of the reading loop when the paragraph takes the second
      branch: it is body text when visible, and the title is unchanged. */
  lemma LoadStepOther(pre: seq<Paragraph>, p: Paragraph)
    requires TitleIndex(pre) >= 0 || !IsHeading(p.style)
    ensures TitleOf(pre + [p]) == TitleOf(pre)
    ensures BodyOf(pre + [p]) == BodyOf(pre) + (if Visible(p.text) then [p.text] else [])
  {
    var ti := TitleIndex(pre);
    TitleIndexSnocKeep(pre, p);
    if ti >= 0 {
      assert (pre + [p])[ti] == pre[ti];
    }
    RemoveAtSnoc(pre, p, ti);
    var rest := RemoveAt(pre, ti);
    TextsSnoc(rest, p);
    KeepVisibleSnoc(Texts(rest), p.text);
    calc {
      BodyOf(pre + [p]);
      KeepVisible(Texts(RemoveAt(pre + [p], ti)));
      KeepVisible(Texts(rest + [p]));
      KeepVisible(Texts(rest) + [p.text]);
      BodyOf(pre) + (if Visible(p.text) then [p.text] else []);
    }
  }

  lemma TitleIndexSnocKeep(pre: seq<Paragraph>, p: Paragraph)
    requires TitleIndex(pre) >= 0 || !ClaimsTitle(p)
    ensures TitleIndex(pre + [p]) == TitleIndex(pre)
  {
    assert (pre + [p])[..|pre|] == pre;
  }

  lemma RemoveAtSnoc(pre: seq<Paragraph>, p: Paragraph, k: int)
    requires k < |pre|
    ensures RemoveAt(pre + [p], k) == RemoveAt(pre, k) + [p]
  {
    if 0 <= k {
      assert (pre + [p])[..k] == pre[..k];
      assert (pre + [p])[k + 1..] == pre[k + 1..] + [p];
    }
  }

  /** One step of the reading loop, for either branch. */
  lemma LoadStep(pre: seq<Paragraph>, p: Paragraph)
    ensures IsHeading(p.style) && TitleOf(pre) == "" ==>
      TitleOf(pre + [p]) == p.text && BodyOf(pre + [p]) == BodyOf(pre)
    ensures !(IsHeading(p.style) && TitleOf(pre) == "") ==>
      TitleOf(pre + [p]) == TitleOf(pre)
      && BodyOf(pre + [p]) == BodyOf(pre) + (if Visible(p.text) then [p.text] else [])
  {
    TitleOfEmpty(pre);
    if IsHeading(p.style) && TitleOf(pre) == "" {
      LoadStepHeading(pre, p);
    } else {
      LoadStepOther(pre, p);
    }
  }

  /** `LoadStep` at position `i` of a document, in terms of the loop's
      variables. */
  lemma LoadStepAt(ps: seq<Paragraph>, i: int, title: string, body: seq<string>)
    requires 0 <= i < |ps| && title == TitleOf(ps[..i]) && body == BodyOf(ps[..i])
    ensures IsHeading(ps[i].style) && title == "" ==>
      TitleOf(ps[..i + 1]) == ps[i].text && BodyOf(ps[..i + 1]) == body
    ensures !(IsHeading(ps[i].style) && title == "") ==>
      TitleOf(ps[..i + 1]) == title
      && BodyOf(ps[..i + 1]) == body + (if Strip(ps[i].text) != "" then [ps[i].text] else [])
  {
    assert ps[..i + 1] == ps[..i] + [ps[i]];
    LoadStep(ps[..i], ps[i]);
  }

  /** The read side of the web editor: the first heading with text claims
      the title; every other visible paragraph is body, joined by line
      breaks. */
  method LoadForEditing(ps: seq<Paragraph>) returns (title: string, content: string)
    ensures title == TitleOf(ps)
    ensures content == Join(BodyOf(ps), '\n')
  {
    var body: seq<string> := [];
    title := "";
    for i := 0 to |ps|
      invariant title == TitleOf(ps[..i])
      invariant body == BodyOf(ps[..i])
    {
      var p := ps[i];
      LoadStepAt(ps, i, title, body);
      if IsHeading(p.style) && title == "" {
        title := p.text;
      } else {
        if Strip(p.text) != "" {
          body := body + [p.text];
        }
      }
    }
    assert ps[..|ps|] == ps;
    content := Join(body, '\n');
  }

  /** One step of the preview loop, in terms of the loop's variable. */
  lemma PreviewStepAt(ps: seq<Paragraph>, i: int, content: seq<string>)
    requires 0 <= i < |ps| && content == PreviewOf(ps[..i])
    ensures PreviewOf(ps[..i + 1]) == content + (if Strip(ps[i].text) != "" then [ps[i].text] else [])
  {
    assert ps[..i + 1] == ps[..i] + [ps[i]];
    TextsSnoc(ps[..i], ps[i]);
    KeepVisibleSnoc(Texts(ps[..i]), ps[i].text);
  }

  /** The preview page's loop. */
  method PreviewTexts(ps: seq<Paragraph>) returns (content: seq<string>)
    ensures content == PreviewOf(ps)
  {
    content := [];
    for i := 0 to |ps|
      invariant content == PreviewOf(ps[..i])
    {
      var text := ps[i].text;
      PreviewStepAt(ps, i, content);
      if Strip(text) != "" {
        content := content + [text];
      }
    }
    assert ps[..|ps|] == ps;
  }

  // ---------------------------------------------------------------------
  // Properties of reading back

  /** Once a title is claimed, later paragraphs never replace it. */
  lemma TitleStable(ps: seq<Paragraph>, qs: seq<Paragraph>)
    requires TitleIndex(ps) >= 0
    ensures TitleIndex(ps + qs) == TitleIndex(ps)
    ensures TitleOf(ps + qs) == TitleOf(ps)
  {
    var t, u := TitleIndex(ps), TitleIndex(ps + qs);
    TitleIndexFirst(ps);
    TitleIndexFirst(ps + qs);
    assert (ps + qs)[t] == ps[t];
    assert forall j | 0 <= j < t :: (ps + qs)[j] == ps[j];
  }

  /** The body is the preview with the title paragraph taken out: the
      visible paragraphs before the title, then those after it. No
      paragraph is both title and body, and headings after the title are
      body. */
  lemma BodyIsPreviewWithoutTitle(ps: seq<Paragraph>)
    ensures TitleIndex(ps) < 0 ==> BodyOf(ps) == PreviewOf(ps)
    ensures TitleIndex(ps) >= 0 ==>
      BodyOf(ps) == PreviewOf(ps[..TitleIndex(ps)]) + PreviewOf(ps[TitleIndex(ps) + 1..])
  {
    var t := TitleIndex(ps);
    if t >= 0 {
      TextsAppend(ps[..t], ps[t + 1..]);
      KeepVisibleAppend(Texts(ps[..t]), Texts(ps[t + 1..]));
    }
  }

  /** The preview and the editor agree: the preview is the body with the
      title's text put back at its place when it is visible. */
  lemma PreviewSplitsAtTitle(ps: seq<Paragraph>)
    requires TitleIndex(ps) >= 0
    ensures PreviewOf(ps) ==
      PreviewOf(ps[..TitleIndex(ps)])
      + (if Visible(TitleOf(ps)) then [TitleOf(ps)] else [])
      + PreviewOf(ps[TitleIndex(ps) + 1..])
  {
    var t := TitleIndex(ps);
    assert ps == ps[..t] + [ps[t]] + ps[t + 1..];
    TextsAppend(ps[..t] + [ps[t]], ps[t + 1..]);
    TextsAppend(ps[..t], [ps[t]]);
    KeepVisibleAppend(Texts(ps[..t]) + [ps[t].text], Texts(ps[t + 1..]));
    KeepVisibleSnoc(Texts(ps[..t]), ps[t].text);
  }

  /** A paragraph, then a heading with text, then another heading: the
      first heading is the title and the other two are body. */
  lemma LoadThree(p0: Paragraph, p1: Paragraph, p2: Paragraph)
    requires !IsHeading(p0.style) && ClaimsTitle(p1)
    ensures TitleOf([p0, p1, p2]) == p1.text
    ensures BodyOf([p0, p1, p2])
      == (if Visible(p0.text) then [p0.text] else []) + (if Visible(p2.text) then [p2.text] else [])
  {
    var s0: seq<Paragraph> := [];
    var s1, s2, s3 := s0 + [p0], [p0] + [p1], [p0, p1] + [p2];
    assert s1 == [p0] && s2 == [p0, p1] && s3 == [p0, p1, p2];
    assert TitleIndex(s0) == -1 && BodyOf(s0) == [];
    LoadStepOther(s0, p0);
    TitleIndexSnocKeep(s0, p0);
    LoadStepHeading(s1, p1);
    TitleOfEmpty(s2);
    LoadStepOther(s2, p2);
  }

  lemma LoadExample()
    ensures TitleOf([Paragraph("Normal", "intro"), Paragraph("Heading 1", "A"), Paragraph("Heading 2", "B")]) == "A"
    ensures BodyOf([Paragraph("Normal", "intro"), Paragraph("Heading 1", "A"), Paragraph("Heading 2", "B")]) == ["intro", "B"]
  {
    assert !IsHeading("Normal");
    assert IsHeading("Heading 1");
    NotBlankStrip("intro", 0);
    NotBlankStrip("B", 0);
    LoadThree(Paragraph("Normal", "intro"), Paragraph("Heading 1", "A"), Paragraph("Heading 2", "B"));
  }

  // ---------------------------------------------------------------------
  // Saving and reading back

  /** With a heading style for the title and a non-heading body style, the
      web editor reads back the title it saved and the visible lines. */
  lemma SaveThenLoad(st: Styles, title: string, content: string)
    requires IsHeading(st.title) && !IsHeading(st.body)
    ensures TitleOf(HeadingPart(st, title) + BodyParagraphs(st.body, VisibleLines(content))) == title
    ensures BodyOf(HeadingPart(st, title) + BodyParagraphs(st.body, VisibleLines(content))) == VisibleLines(content)
  {
    KeepVisibleIdempotent(Split(content, '\n'));
    SaveThenLoadLines(st, title, VisibleLines(content));
  }

  /** `SaveThenLoad` for any lines the filter keeps. */
  lemma SaveThenLoadLines(st: Styles, title: string, lines: seq<string>)
    requires IsHeading(st.title) && !IsHeading(st.body)
    requires KeepVisible(lines) == lines
    ensures TitleOf(HeadingPart(st, title) + BodyParagraphs(st.body, lines)) == title
    ensures BodyOf(HeadingPart(st, title) + BodyParagraphs(st.body, lines)) == lines
  {
    var body := BodyParagraphs(st.body, lines);
    BodyParagraphsText(st.body, lines);
    if title != "" {
      TitleAtFront(Paragraph(st.title, title), body);
    } else {
      assert HeadingPart(st, title) + body == body;
      NoHeadingNoTitle(body);
    }
  }

  /** A heading with text in front of a document is its title, and the rest
      is what remains. */
  lemma TitleAtFront(h: Paragraph, rest: seq<Paragraph>)
    requires ClaimsTitle(h)
    ensures TitleIndex([h] + rest) == 0 && TitleOf([h] + rest) == h.text
    ensures RemoveAt([h] + rest, 0) == rest
  {
    var ps := [h] + rest;
    TitleIndexFirst(ps);
    assert ps[0] == h;
    assert ps[1..] == rest;
  }

  /** A document without heading-styled paragraphs has no title, and its
      body is its preview. */
  lemma NoHeadingNoTitle(ps: seq<Paragraph>)
    requires forall i | 0 <= i < |ps| :: !IsHeading(ps[i].style)
    ensures TitleOf(ps) == "" && BodyOf(ps) == PreviewOf(ps)
  {
    assert TitleIndex(ps) == -1;
    assert RemoveAt(ps, -1) == ps;
  }

  /** With a title style that is not a heading style, the saved title is
      read back as the first body line (when visible) and the title is
      empty. */
  lemma SaveThenLoadTitleAsBody(st: Styles, title: string, content: string)
    requires !IsHeading(st.title) && !IsHeading(st.body)
    ensures TitleOf(HeadingPart(st, title) + BodyParagraphs(st.body, VisibleLines(content))) == ""
    ensures BodyOf(HeadingPart(st, title) + BodyParagraphs(st.body, VisibleLines(content)))
      == (if Visible(title) then [title] else []) + VisibleLines(content)
  {
    KeepVisibleIdempotent(Split(content, '\n'));
    SaveThenLoadLinesTitleAsBody(st, title, VisibleLines(content));
  }

  /** `SaveThenLoadTitleAsBody` for any lines the filter keeps. */
  lemma SaveThenLoadLinesTitleAsBody(st: Styles, title: string, lines: seq<string>)
    requires !IsHeading(st.title) && !IsHeading(st.body)
    requires KeepVisible(lines) == lines
    ensures TitleOf(HeadingPart(st, title) + BodyParagraphs(st.body, lines)) == ""
    ensures BodyOf(HeadingPart(st, title) + BodyParagraphs(st.body, lines))
      == (if Visible(title) then [title] else []) + lines
  {
    var body := BodyParagraphs(st.body, lines);
    PlainBody(st.body, lines);
    if title == "" {
      assert HeadingPart(st, title) + body == body;
      assert Strip(title) == "";
    } else {
      PlainFront(Paragraph(st.title, title), body);
    }
  }

  /** Body paragraphs of a non-heading style claim no title and read back as
      their kept lines. */
  lemma PlainBody(style: string, lines: seq<string>)
    requires !IsHeading(style) && KeepVisible(lines) == lines
    ensures forall i | 0 <= i < |BodyParagraphs(style, lines)| :: !IsHeading(BodyParagraphs(style, lines)[i].style)
    ensures TitleOf(BodyParagraphs(style, lines)) == "" && BodyOf(BodyParagraphs(style, lines)) == lines
  {
    BodyParagraphsText(style, lines);
    NoHeadingNoTitle(BodyParagraphs(style, lines));
  }

  /** A non-heading paragraph in front of a document without headings is
      read back as body text. */
  lemma PlainFront(p: Paragraph, ps: seq<Paragraph>)
    requires !IsHeading(p.style)
    requires forall i | 0 <= i < |ps| :: !IsHeading(ps[i].style)
    ensures TitleOf([p] + ps) == ""
    ensures BodyOf([p] + ps) == (if Visible(p.text) then [p.text] else []) + PreviewOf(ps)
  {
    var doc := [p] + ps;
    forall i | 0 <= i < |doc| ensures !IsHeading(doc[i].style) {
      if i > 0 {
        assert doc[i] == ps[i - 1];
      }
    }
    NoHeadingNoTitle(doc);
    PreviewCons(p, ps);
  }

  /** The preview of a paragraph in front of a document. */
  lemma PreviewCons(p: Paragraph, ps: seq<Paragraph>)
    ensures PreviewOf([p] + ps) == (if Visible(p.text) then [p.text] else []) + PreviewOf(ps)
  {
    TextsAppend([p], ps);
    assert [p] == [] + [p];
    TextsSnoc([], p);
    KeepVisibleAppend([p.text], Texts(ps));
    assert [p.text] == [] + [p.text];
    KeepVisibleSnoc([], p.text);
  }

  /** With the style names of the library's default template (`Title` for a
      level-0 heading, `Normal` for a paragraph), a saved title is not read
      back as the title: the editor shows an empty title and the old title
      as the first body line. */
  lemma DefaultStylesTitleBecomesBody(title: string, content: string)
    ensures TitleOf(HeadingPart(Styles("Title", "Normal"), title)
      + BodyParagraphs("Normal", VisibleLines(content))) == ""
    ensures BodyOf(HeadingPart(Styles("Title", "Normal"), title)
      + BodyParagraphs("Normal", VisibleLines(content)))
      == (if Visible(title) then [title] else []) + VisibleLines(content)
  {
    assert !IsHeading("Title") && !IsHeading("Normal");
    SaveThenLoadTitleAsBody(Styles("Title", "Normal"), title, content);
  }

  /** The preview of the optional heading is its title when visible. */
  lemma HeadingPartPreview(st: Styles, title: string)
    ensures KeepVisible(Texts(HeadingPart(st, title))) == if Visible(title) then [title] else []
  {
    if title == "" {
      assert Strip(title) == "";
    } else {
      assert HeadingPart(st, title) == [] + [Paragraph(st.title, title)];
      TextsSnoc([], Paragraph(st.title, title));
      KeepVisibleSnoc([], title);
    }
  }

  /** Saving the text the web editor shows gives back the same lines: a
      load-edit-save cycle without changes is stable. */
  lemma EditCycleStable(content: string)
    ensures VisibleLines(Join(VisibleLines(content), '\n')) == VisibleLines(content)
  {
    var lines := VisibleLines(content);
    KeepVisibleIdempotent(Split(content, '\n'));
    if lines == [] {
      assert Split("", '\n') == [""];
      assert KeepVisible([""]) == [];
    } else {
      forall i | 0 <= i < |lines| ensures '\n' !in lines[i] {
        VisibleLinesExact(content, lines[i]);
      }
      SplitJoin(lines, '\n');
    }
  }

  /** `create_document` keeps a multi-line content as one paragraph, where
      a web-edit save of the same content makes one paragraph per line. */
  lemma CreateKeepsContentWhole(st: Styles)
    ensures CreateDocument(st, "", "a\nb") == [Paragraph(st.body, "a\nb")]
    ensures BodyParagraphs(st.body, VisibleLines("a\nb")) == [Paragraph(st.body, "a"), Paragraph(st.body, "b")]
  {
    assert "a\nb" == "a" + ['\n'] + "b";
    NotBlankStrip("a", 0);
    NotBlankStrip("b", 0);
    TwoVisibleLines(st.body, "a", "b");
  }

  /** Two visible lines joined by a line break are saved as two paragraphs. */
  lemma TwoVisibleLines(style: string, a: string, b: string)
    requires '\n' !in a && '\n' !in b && Visible(a) && Visible(b)
    ensures BodyParagraphs(style, VisibleLines(a + ['\n'] + b)) == [Paragraph(style, a), Paragraph(style, b)]
  {
    SplitNone(a, '\n');
    SplitLast(a, '\n', b);
    var s0: seq<string> := [];
    assert [a, b] == s0 + [a] + [b];
    KeepVisibleSnoc(s0, a);
    KeepVisibleSnoc(s0 + [a], b);
    BodyParagraphsText(style, [a, b]);
  }
}
