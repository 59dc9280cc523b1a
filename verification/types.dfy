/** The records of the translation tool: translation items, the enumerations
    that classify them, glossary and project settings, persisted history
    records and pages. A page carries its own snapshot history (`history`,
    `historyIndex`), which the application adds on top of the declared page
    shape. */
module Types {
  import opened Wrappers

  /** Classification of a detected text unit. */
  datatype TranslationType = Bubble | Thought | Sfx | Narration | Other

  /** Register of a translated line; user-editable. */
  datatype ToneType = Casual | Formal | Angry | Scared

  /** Genre tag of a project; steers the analysis prompt. */
  datatype ManhuaGenre =
    | Modern | School | Wuxia | Royal | Xianxia | System
    | UrbanCultivation | Romance | Comedy

  /** One detected text unit and its editable translation. `notes` is the
      only optional field; `kind` is the source's `type` field. */
  datatype Item = Item(
    id: int,
    originalText: string,
    translatedText: string,
    kind: TranslationType,
    tone: ToneType,
    notes: Option<string>)

  /** A list of items as it stands at one moment: the unit of undo/redo. */
  type Snapshot = seq<Item>

  datatype GlossaryEntry = GlossaryEntry(id: string, term: string, translation: string)

  datatype Settings = Settings(
    genre: ManhuaGenre,
    glossary: seq<GlossaryEntry>,
    selectedModel: Option<string>)

  /** A persisted translation record: no image, only text. */
  datatype HistoryItem = HistoryItem(
    id: string,
    fileName: string,
    timestamp: int,
    genre: ManhuaGenre,
    translations: Snapshot)

  /** Why an analysis call failed. A missing key is told apart because the
      application reacts to it differently. */
  datatype AnalysisError = MissingApiKey | ServiceError(message: string)

  /** A page: the image handle is reduced to its object URL and file name. */
  datatype Page = Page(
    id: string,
    imageUrl: string,
    fileName: string,
    translations: Snapshot,
    isAnalyzing: bool,
    history: seq<Snapshot>,
    historyIndex: nat)

  /** Most snapshots a page's history keeps. */
  const MaxHistory: nat := 50

  /** The history log invariant: never empty, bounded, cursor in range. */
  predicate WellFormed(p: Page) {
    0 < |p.history| <= MaxHistory && p.historyIndex < |p.history|
  }

  type ValidPage = p: Page | WellFormed(p)
    witness Page("", "", "", [], false, [[]], 0)

  predicate Distinct<T(==)>(s: seq<T>) {
    forall i, j :: 0 <= i < j < |s| ==> s[i] != s[j]
  }

  /** The values of `TranslationType` in declaration order. */
  function AllTranslationTypes(): (r: seq<TranslationType>)
    ensures |r| == 5 && Distinct(r)
    ensures forall t: TranslationType :: t in r
  {
    var r := [Bubble, Thought, Sfx, Narration, Other];
    assert forall t: TranslationType :: t in r by {
      assert forall t: TranslationType :: t in r <==> t.Bubble? || t.Thought? || t.Sfx? || t.Narration? || t.Other?;
    }
    r
  }

  /** The values of `ToneType` in declaration order: the options of the
      editor's tone selector. */
  function AllTones(): (r: seq<ToneType>)
    ensures |r| == 4 && Distinct(r)
    ensures forall t: ToneType :: t in r
  {
    var r := [Casual, Formal, Angry, Scared];
    assert forall t: ToneType :: t in r by {
      assert forall t: ToneType :: t in r <==> t.Casual? || t.Formal? || t.Angry? || t.Scared?;
    }
    r
  }

  /** The values of `ManhuaGenre` in declaration order: the options of the
      settings genre selector. */
  function AllGenres(): (r: seq<ManhuaGenre>)
    ensures |r| == 9 && Distinct(r)
    ensures forall g: ManhuaGenre :: g in r
  {
    var r := [Modern, School, Wuxia, Royal, Xianxia, System, UrbanCultivation, Romance, Comedy];
    assert forall g: ManhuaGenre :: g in r by {
      assert forall g: ManhuaGenre :: g in r <==> g.Modern? || g.School? || g.Wuxia? || g.Royal? || g.Xianxia? || g.System? || g.UrbanCultivation? || g.Romance? || g.Comedy?;
    }
    r
  }
}
