/** Assembling one deck from one rendered markdown document: `parse_markdown` and
    `FrontIdentifierNote` (markdown_anki_decks/cli.py). */
module Decks {
  import opened Wrappers
  import opened Html
  import opened Segment
  import opened Cloze
  import opened Identity
  import opened Styles

  /** Collaborators whose internals are not modelled: the SHA-256 digest behind
      `integer_hash`, `genanki.guid_for`, `str(tag)` and `tag.prettify(formatter="html5")`. */
  datatype Externals = Externals(
    digest: string -> nat,
    guidFor: (string, int) -> string,
    serialize: Node -> string,
    prettify: Node -> string)

  datatype ModelKind = FrontBack | ClozeKind

  datatype CardTemplate = CardTemplate(name: string, qfmt: string, afmt: string)

  /** A genanki note model: id, name, field names, card templates, stylesheet and kind. */
  datatype NoteModel = NoteModel(
    id: nat, name: string, fields: seq<string>, templates: seq<CardTemplate>, css: string, kind: ModelKind)

  datatype Note = Note(model: NoteModel, fields: seq<string>, guid: string)

  /** A genanki deck. Models are kept by id, as `Deck.add_model` stores them. */
  datatype Deck = Deck(id: nat, name: string, models: map<nat, NoteModel>, notes: seq<Note>)

  /** A source document: its path, its frontmatter, and the root-level nodes of its rendered body. */
  datatype Source = Source(path: string, metadata: map<string, MetaValue>, body: seq<Node>)

  const FieldNames: seq<string> := ["Question", "Answer", "Guid"]
  const TemplateName := "Card 1"
  const PlainQuestionFormat := "<div class=\"card\"><div class=\"question\">{{Question}}</div></div>"
  const PlainAnswerFormat :=
    "<div class=\"card\"><div class=\"question\">{{Question}}</div><hr><div class=\"answer\">{{Answer}}</div></div>"
  const ClozeQuestionFormat := "<div class=\"card\"><div class=\"question\">{{cloze:Question}}</div></div>"
  const ClozeAnswerFormat :=
    "<div class=\"card\"><div class=\"question\">{{cloze:Question}}</div><hr><div class=\"answer\">{{Answer}}</div></div>"

  /** The deck title: the prefix, then the text of the first `h1` in document order when
      it has any text, and otherwise the stem of the file name. */
  function DeckTitle(prefix: string, path: string, roots: seq<Node>): (title: string)
    ensures prefix <= title
    ensures (forall i :: 0 <= i < |Preorder(roots)| ==> !IsNamed(Preorder(roots)[i], "h1")) ==>
      title == prefix + Stem(path)
    ensures forall i :: FirstNamedAt(Preorder(roots), "h1", i) ==>
      title == prefix + (if GetText(Preorder(roots)[i]) != "" then GetText(Preorder(roots)[i]) else Stem(path))
  {
    FirstNamedInPreorder(roots, "h1");
    var heading := FirstNamed(roots, "h1");
    assert forall i :: FirstNamedAt(Preorder(roots), "h1", i) ==> heading == Some(Preorder(roots)[i]) by {
      forall i | FirstNamedAt(Preorder(roots), "h1", i) ensures heading == Some(Preorder(roots)[i]) {
        FindNamedFirst(Preorder(roots), "h1", i);
      }
    }
    var stem := Stem(path);
    var text := if heading.Some? then GetText(heading.value) else "";
    prefix + (if text != "" then text else stem)
  }

  /** A heading whose only text sits inside a `template` does not name the deck: its
      string is a template string, which the heading's `get_text()` skips. */
  lemma TemplateHeadingIgnored(prefix: string, path: string)
    ensures var h1 := Element("h1", map[], [Text("Draft", Contained("template"))]);
      DeckTitle(prefix, path, [Element("template", map[], [h1])]) == prefix + Stem(path)
  {
    var h1 := Element("h1", map[], [Text("Draft", Contained("template"))]);
    var roots := [Element("template", map[], [h1])];
    var draft := [Text("Draft", Contained("template"))];
    assert ParsedKinds(draft, Contained("template"));
    Html.ContainedTextSkipped("h1", "template", map[], map[], draft);
    assert FirstNamed([h1], "h1") == Some(h1);
    assert roots[1..] == [];
    assert FirstNamed(roots, "h1") == Some(h1);
  }

  /** The model name for a deck title: `title + " model"` or `title + " cloze model"`. */
  function ModelName(title: string, kind: ModelKind): string
  {
    match kind
    case FrontBack => title + " model"
    case ClozeKind => title + " cloze model"
  }

  /** The plain or cloze model of a deck; its id is the hash of its name. */
  function MakeModel(ext: Externals, title: string, css: string, kind: ModelKind): (m: NoteModel)
    ensures m.id == IntegerHash(ext.digest, m.name) && m.id < HashModulus
    ensures m.kind == kind && m.fields == FieldNames && m.css == css
    ensures m.name == ModelName(title, kind)
    ensures |m.templates| == 1 && m.templates[0].name == TemplateName
    ensures kind == FrontBack ==>
      m.templates[0].qfmt == PlainQuestionFormat && m.templates[0].afmt == PlainAnswerFormat
    ensures kind == ClozeKind ==>
      m.templates[0].qfmt == ClozeQuestionFormat && m.templates[0].afmt == ClozeAnswerFormat
  {
    var name := ModelName(title, kind);
    var template := match kind
      case FrontBack => CardTemplate(TemplateName, PlainQuestionFormat, PlainAnswerFormat)
      case ClozeKind => CardTemplate(TemplateName, ClozeQuestionFormat, ClozeAnswerFormat);
    NoteModel(IntegerHash(ext.digest, name), name, FieldNames, [template], css, kind)
  }

  /** `FrontIdentifierNote`: the guid is appended as the last field and is also the note's guid. */
  function FrontIdentifierNote(guid: string, model: NoteModel, fields: seq<string>): (n: Note)
    ensures |n.fields| == |fields| + 1 && n.fields[..|fields|] == fields
    ensures n.fields[|fields|] == n.guid == guid
    ensures n.model == model
  {
    Note(model, fields + [guid], guid)
  }

  /** The note for one fragment: the guid comes from the prettified question and the deck
      id; the cloze model is used exactly when cloze mode is on and the question's plain
      text holds a cloze. */
  function MakeNote(ext: Externals, deckId: nat, plain: NoteModel, cloze: NoteModel, clozeMode: bool, f: Fragment): Note
  {
    var guid := ext.guidFor(ext.prettify(f.question), deckId);
    var model := if clozeMode && HasClozes(GetText(f.question)) then cloze else plain;
    FrontIdentifierNote(guid, model, [ext.serialize(f.question), ext.serialize(Answer(f))])
  }

  /** `deck.add_model(model)` then, in cloze mode, `deck.add_model(cloze_model)`. */
  function RegisterModels(plain: NoteModel, cloze: NoteModel, clozeMode: bool): (models: map<nat, NoteModel>)
    ensures !clozeMode ==> models == map[plain.id := plain]
    ensures clozeMode ==> models.Keys == {plain.id, cloze.id} && models[cloze.id] == cloze
    ensures clozeMode && plain.id != cloze.id ==> models[plain.id] == plain
  {
    var models := map[plain.id := plain];
    if clozeMode then models[cloze.id := cloze] else models
  }

  /** `parse_markdown` on an already rendered document: strip comments, name the deck,
      build both models over the merged stylesheet, register them, and add one note per
      root-level question. Fails, with the path, when a user stylesheet cannot be read. */
  function ParseMarkdown(
    ext: Externals, src: Source, prefix: string, clozeMode: bool,
    bundled: Bundled, read: string -> Option<string>): (r: Result<Deck, string>)
    ensures r.Success? <==> ReadCss(bundled, src.metadata, read).Success?
    ensures r.Failure? ==> r.error in CssPaths(src.metadata) && read(r.error).None?
    ensures r.Success? ==>
      && r.value.name == DeckTitle(prefix, src.path, StripComments(src.body))
      && r.value.id == IntegerHash(ext.digest, r.value.name)
      && |r.value.notes| == |Questions(StripComments(src.body))|
  {
    var roots := StripComments(src.body);
    var title := DeckTitle(prefix, src.path, roots);
    var css :- ReadCss(bundled, src.metadata, read);
    var plain := MakeModel(ext, title, css, FrontBack);
    var cloze := MakeModel(ext, title, css, ClozeKind);
    var deckId := IntegerHash(ext.digest, title);
    var fragments := Segments(roots);
    var notes := seq(|fragments|, k requires 0 <= k < |fragments| =>
      MakeNote(ext, deckId, plain, cloze, clozeMode, fragments[k]));
    Success(Deck(deckId, title, RegisterModels(plain, cloze, clozeMode), notes))
  }

  /** The guids of a deck's notes, in order. */
  function Guids(deck: Deck): seq<string>
  {
    seq(|deck.notes|, k requires 0 <= k < |deck.notes| => deck.notes[k].guid)
  }

  /** The `k`-th note comes from the `k`-th root-level question: fields are the question,
      its answer section and the guid; the guid depends only on the prettified question
      and the deck id; the cloze model is chosen exactly when cloze mode is on and the
      question's plain text holds a cloze, and the chosen model is registered on the deck. */
  lemma NoteOfQuestion(
    ext: Externals, src: Source, prefix: string, clozeMode: bool,
    bundled: Bundled, read: string -> Option<string>, k: nat)
    requires ReadCss(bundled, src.metadata, read).Success?
    requires k < |Questions(StripComments(src.body))|
    ensures var deck := ParseMarkdown(ext, src, prefix, clozeMode, bundled, read).value;
      var roots := StripComments(src.body);
      var q := Questions(roots)[k];
      var note := deck.notes[k];
      && note.guid == ext.guidFor(ext.prettify(q), deck.id)
      && note.fields == [ext.serialize(q), ext.serialize(Answer(Segments(roots)[k])), note.guid]
      && (note.model.kind == ClozeKind <==> clozeMode && HasClozes(GetText(q)))
      && note.model.id in deck.models
      && note.model.name == ModelName(deck.name, note.model.kind)
  {
    var roots := StripComments(src.body);
    SegmentsFollowQuestions(roots);
    var f := Segments(roots)[k];
    assert f.question == Questions(roots)[k];
    var note := ParseMarkdown(ext, src, prefix, clozeMode, bundled, read).value.notes[k];
    assert note.fields == [ext.serialize(f.question), ext.serialize(Answer(f))] + [note.guid];
  }

  /** Model registration: the plain model always, the cloze model only in cloze mode;
      ids are the hashes of `title + " model"` and `title + " cloze model"`, and both
      models carry the merged stylesheet. */
  lemma ModelsOfDeck(
    ext: Externals, src: Source, prefix: string, clozeMode: bool,
    bundled: Bundled, read: string -> Option<string>)
    requires ReadCss(bundled, src.metadata, read).Success?
    ensures var deck := ParseMarkdown(ext, src, prefix, clozeMode, bundled, read).value;
      var plainId := IntegerHash(ext.digest, deck.name + " model");
      var clozeId := IntegerHash(ext.digest, deck.name + " cloze model");
      && deck.models.Keys == (if clozeMode then {plainId, clozeId} else {plainId})
      && (clozeMode ==> deck.models[clozeId].kind == ClozeKind)
      && (!clozeMode || plainId != clozeId ==> deck.models[plainId].kind == FrontBack)
      && forall id :: id in deck.models ==>
           deck.models[id].css == ReadCss(bundled, src.metadata, read).value
  {
  }

  /** Guid stability: two documents with the same title and the same root-level questions
      get the same guids, whatever their answers, preamble or frontmatter stylesheets. */
  lemma GuidsIgnoreAnswers(
    ext: Externals, src: Source, src': Source, prefix: string, clozeMode: bool,
    bundled: Bundled, read: string -> Option<string>)
    requires ReadCss(bundled, src.metadata, read).Success?
    requires ReadCss(bundled, src'.metadata, read).Success?
    ensures && DeckTitle(prefix, src.path, StripComments(src.body))
               == DeckTitle(prefix, src'.path, StripComments(src'.body))
            && Questions(StripComments(src.body)) == Questions(StripComments(src'.body))
        ==> Guids(ParseMarkdown(ext, src, prefix, clozeMode, bundled, read).value)
            == Guids(ParseMarkdown(ext, src', prefix, clozeMode, bundled, read).value)
  {
    if && DeckTitle(prefix, src.path, StripComments(src.body))
          == DeckTitle(prefix, src'.path, StripComments(src'.body))
       && Questions(StripComments(src.body)) == Questions(StripComments(src'.body)) {
      SameQuestionsSameGuids(ext, src, src', prefix, clozeMode, bundled, read);
    }
  }

  /** `GuidsIgnoreAnswers` under its hypotheses. */
  lemma SameQuestionsSameGuids(
    ext: Externals, src: Source, src': Source, prefix: string, clozeMode: bool,
    bundled: Bundled, read: string -> Option<string>)
    requires ReadCss(bundled, src.metadata, read).Success?
    requires ReadCss(bundled, src'.metadata, read).Success?
    requires DeckTitle(prefix, src.path, StripComments(src.body))
          == DeckTitle(prefix, src'.path, StripComments(src'.body))
    requires Questions(StripComments(src.body)) == Questions(StripComments(src'.body))
    ensures Guids(ParseMarkdown(ext, src, prefix, clozeMode, bundled, read).value)
         == Guids(ParseMarkdown(ext, src', prefix, clozeMode, bundled, read).value)
  {
    var deck := ParseMarkdown(ext, src, prefix, clozeMode, bundled, read).value;
    var deck' := ParseMarkdown(ext, src', prefix, clozeMode, bundled, read).value;
    assert |deck.notes| == |deck'.notes|;
    forall k | 0 <= k < |deck.notes|
      ensures deck.notes[k].guid == deck'.notes[k].guid
    {
      NoteGuid(ext, src, prefix, clozeMode, bundled, read, k);
      NoteGuid(ext, src', prefix, clozeMode, bundled, read, k);
    }
  }

  /** The guid part of `NoteOfQuestion`. */
  lemma NoteGuid(
    ext: Externals, src: Source, prefix: string, clozeMode: bool,
    bundled: Bundled, read: string -> Option<string>, k: nat)
    requires ReadCss(bundled, src.metadata, read).Success?
    requires k < |Questions(StripComments(src.body))|
    ensures var deck := ParseMarkdown(ext, src, prefix, clozeMode, bundled, read).value;
      deck.notes[k].guid == ext.guidFor(ext.prettify(Questions(StripComments(src.body))[k]), deck.id)
  {
    SegmentsFollowQuestions(StripComments(src.body));
  }
}
