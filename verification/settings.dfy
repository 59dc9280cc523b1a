/** The project settings panel: glossary editing and search, the genre
    selector, and the API-key field with its persisted value, plus the rule
    that picks which key the analysis call uses. Whitespace trimming follows
    `String.prototype.trim` as the ECMAScript language specification
    (ECMA-262) defines it:
    the WhiteSpace and LineTerminator code points. */
module Settings {
  import opened Wrappers
  import opened Types
  import opened Seqs

  /** ECMAScript WhiteSpace (TAB, VT, FF, SP, NBSP, ZWNBSP and the Zs
      category) and LineTerminator (LF, CR, LS, PS) code points. */
  predicate IsSpace(c: char) {
    || c == '\t' || c == '\U{000B}' || c == '\U{000C}' || c == ' ' || c == '\U{00A0}'
    || c == '\U{FEFF}' || c == '\U{1680}' || ('\U{2000}' <= c <= '\U{200A}')
    || c == '\U{202F}' || c == '\U{205F}' || c == '\U{3000}'
    || c == '\n' || c == '\r' || c == '\U{2028}' || c == '\U{2029}'
  }

  predicate AllSpace(s: string) {
    forall k :: 0 <= k < |s| ==> IsSpace(s[k])
  }

  /** How many whitespace code points `s` starts with. */
  function LeadingSpaces(s: string): (n: nat)
    ensures n <= |s|
    ensures forall k :: 0 <= k < n ==> IsSpace(s[k])
    ensures n < |s| ==> !IsSpace(s[n])
    decreases |s|
  {
    if |s| > 0 && IsSpace(s[0]) then
      var n := LeadingSpaces(s[1..]);
      forall k | 1 <= k < n + 1 ensures IsSpace(s[k]) {
        assert s[k] == s[1..][k - 1];
      }
      n + 1
    else 0
  }

  /** Where the whitespace that `s` ends with begins. */
  function TrailingStart(s: string): (e: nat)
    ensures e <= |s|
    ensures forall k :: e <= k < |s| ==> IsSpace(s[k])
    ensures e > 0 ==> !IsSpace(s[e - 1])
    decreases |s|
  {
    if |s| > 0 && IsSpace(s[|s| - 1]) then
      var e := TrailingStart(s[..|s| - 1]);
      forall k | e <= k < |s| - 1 ensures IsSpace(s[k]) {
        assert s[k] == s[..|s| - 1][k];
      }
      e
    else |s|
  }

  /** `s` without leading and trailing whitespace: the part of `s` between
      two all-whitespace margins, beginning and ending with a non-space. */
  function Trim(s: string): (r: string)
    ensures exists i :: OccursAt(s, r, i) && AllSpace(s[..i]) && AllSpace(s[i + |r|..])
    ensures r != "" ==> !IsSpace(r[0]) && !IsSpace(r[|r| - 1])
    ensures r == "" <==> AllSpace(s)
  {
    var t := s[LeadingSpaces(s)..];
    TrimMargins(s, LeadingSpaces(s), t, TrailingStart(t));
    TrimEnds(s, LeadingSpaces(s), t, TrailingStart(t));
    t[..TrailingStart(t)]
  }

  /** The trimmed part sits at the end of the leading whitespace and is
      followed only by whitespace. */
  lemma TrimMargins(s: string, a: nat, t: string, b: nat)
    requires a == LeadingSpaces(s) && t == s[a..] && b == TrailingStart(t)
    ensures OccursAt(s, t[..b], a) && AllSpace(s[..a]) && AllSpace(s[a + b..])
  {
    assert t[..b] == s[a..a + b];
    var tail := s[a + b..];
    forall k | 0 <= k < |tail| ensures IsSpace(tail[k]) {
      assert tail[k] == t[b + k];
    }
  }

  /** The trimmed part starts and ends with a non-space, and it is empty
      exactly when all of `s` is whitespace. */
  lemma TrimEnds(s: string, a: nat, t: string, b: nat)
    requires a == LeadingSpaces(s) && t == s[a..] && b == TrailingStart(t)
    ensures t[..b] != "" ==> !IsSpace(t[..b][0]) && !IsSpace(t[..b][b - 1])
    ensures t[..b] == "" <==> AllSpace(s)
  {
    if b == 0 {
      assert |t| == 0;
      assert s[..a] == s;
    } else {
      assert t[..b][0] == s[a];
    }
  }

  /** Trimming twice is trimming once. */
  lemma TrimIdempotent(s: string)
    ensures Trim(Trim(s)) == Trim(s)
  {
    var r := Trim(s);
    var i :| OccursAt(r, Trim(r), i) && AllSpace(r[..i]) && AllSpace(r[i + |Trim(r)|..]);
  }

  /** The glossary form: the settings plus the two unsaved input fields. */
  datatype GlossaryForm = GlossaryForm(settings: Settings, newTerm: string, newTrans: string)

  /** Add the typed term and translation, trimmed, as a new last entry and
      clear both fields; blank input after trimming changes nothing. */
  function AddGlossary(f: GlossaryForm, id: string): (r: GlossaryForm)
    ensures Trim(f.newTerm) == "" || Trim(f.newTrans) == "" ==> r == f
    ensures Trim(f.newTerm) != "" && Trim(f.newTrans) != "" ==>
      && r.settings.genre == f.settings.genre
      && r.settings.selectedModel == f.settings.selectedModel
      && |r.settings.glossary| == |f.settings.glossary| + 1
      && r.settings.glossary[..|f.settings.glossary|] == f.settings.glossary
      && r.settings.glossary[|f.settings.glossary|] == GlossaryEntry(id, Trim(f.newTerm), Trim(f.newTrans))
      && r.newTerm == "" && r.newTrans == ""
  {
    var term := Trim(f.newTerm);
    var trans := Trim(f.newTrans);
    if term == "" || trans == "" then f
    else
      var glossary := f.settings.glossary + [GlossaryEntry(id, term, trans)];
      GlossaryForm(f.settings.(glossary := glossary), "", "")
  }

  /** A successful add never stores surrounding whitespace. */
  lemma AddedEntryIsTrimmed(f: GlossaryForm, id: string)
    requires Trim(f.newTerm) != "" && Trim(f.newTrans) != ""
    ensures var e := AddGlossary(f, id).settings.glossary[|f.settings.glossary|];
      Trim(e.term) == e.term && Trim(e.translation) == e.translation && e.term != ""
  {
    TrimIdempotent(f.newTerm);
    TrimIdempotent(f.newTrans);
  }

  /** Drop every glossary entry carrying `id`, keeping the rest in order. */
  function RemoveGlossary(s: Settings, id: string): (r: Settings)
    ensures r.genre == s.genre && r.selectedModel == s.selectedModel
    ensures forall e :: e in r.glossary <==> e in s.glossary && e.id != id
    ensures forall e: GlossaryEntry :: e.id != id ==> multiset(r.glossary)[e] == multiset(s.glossary)[e]
    ensures IsSubsequence(r.glossary, s.glossary)
  {
    s.(glossary := Filter(s.glossary, (e: GlossaryEntry) => e.id != id))
  }

  /** Select a genre; nothing else in the settings moves. */
  function ChangeGenre(s: Settings, g: ManhuaGenre): (r: Settings)
    ensures r.genre == g && r.glossary == s.glossary && r.selectedModel == s.selectedModel
  {
    s.(genre := g)
  }

  /** The search rule: the term matches case-insensitively, the translation
      case-sensitively. */
  predicate MatchesQuery(e: GlossaryEntry, query: string, lower: string -> string) {
    Contains(lower(e.term), lower(query)) || Contains(e.translation, query)
  }

  /** The glossary entries shown for a search query, in glossary order. */
  function SearchGlossary(glossary: seq<GlossaryEntry>, query: string, lower: string -> string): (r: seq<GlossaryEntry>)
    ensures forall e :: e in r <==> e in glossary && MatchesQuery(e, query, lower)
    ensures forall e :: MatchesQuery(e, query, lower) ==> multiset(r)[e] == multiset(glossary)[e]
    ensures IsSubsequence(r, glossary)
  {
    Filter(glossary, (e: GlossaryEntry) => MatchesQuery(e, query, lower))
  }

  /** An empty search shows the whole glossary (the empty string occurs in
      every translation, whatever lower-casing does). */
  lemma EmptySearchShowsAll(glossary: seq<GlossaryEntry>, lower: string -> string)
    ensures SearchGlossary(glossary, "", lower) == glossary
  {
    forall i | 0 <= i < |glossary| ensures MatchesQuery(glossary[i], "", lower) {
      assert OccursAt(glossary[i].translation, "", 0);
    }
    FilterAllKept(glossary, (e: GlossaryEntry) => MatchesQuery(e, "", lower));
  }

  /** The API-key field: the persisted key, the text in the field and the
      "saved" badge. */
  datatype KeyField = KeyField(stored: Option<string>, input: string, saved: bool)

  /** Opening the panel: a non-empty persisted key fills the field and shows
      the badge. */
  function OpenKeyField(stored: Option<string>): (r: KeyField)
    ensures r.stored == stored
    ensures r.saved <==> stored.Some? && stored.value != ""
    ensures r.saved ==> r.input == stored.value
    ensures !r.saved ==> r.input == ""
  {
    if stored.Some? && stored.value != "" then KeyField(stored, stored.value, true)
    else KeyField(stored, "", false)
  }

  /** Typing in the field hides the badge. */
  function EditKey(k: KeyField, text: string): (r: KeyField)
    ensures r.input == text && !r.saved && r.stored == k.stored
  {
    k.(input := text, saved := false)
  }

  /** Persist the trimmed key; a blank field saves nothing. */
  function SaveKey(k: KeyField): (r: KeyField)
    ensures Trim(k.input) == "" ==> r == k
    ensures Trim(k.input) != "" ==> r.stored == Some(Trim(k.input)) && r.saved && r.input == k.input
  {
    var key := Trim(k.input);
    if key != "" then k.(stored := Some(key), saved := true) else k
  }

  /** Forget the persisted key and empty the field. */
  function ClearKey(k: KeyField): (r: KeyField)
    ensures r.stored.None? && r.input == "" && !r.saved
  {
    KeyField(None, "", false)
  }

  /** A present, non-empty string (JavaScript truthiness of a string). */
  predicate Truthy(s: Option<string>) {
    s.Some? && s.value != ""
  }

  /** The key an analysis uses: the user's stored key, else the build-time
      environment key, else a missing-key failure. */
  function ResolveApiKey(stored: Option<string>, env: Option<string>): (r: Result<string, AnalysisError>)
    ensures r.Failure? <==> !Truthy(stored) && !Truthy(env)
    ensures r.Failure? ==> r.error == MissingApiKey
    ensures Truthy(stored) ==> r == Success(stored.value)
    ensures !Truthy(stored) && Truthy(env) ==> r == Success(env.value)
  {
    if Truthy(stored) then Success(stored.value)
    else if Truthy(env) then Success(env.value)
    else Failure(MissingApiKey)
  }

  /** A saved key takes precedence over the environment from then on;
      clearing it falls back to the environment. */
  lemma SavedKeyIsUsed(k: KeyField, env: Option<string>)
    requires Trim(k.input) != ""
    ensures ResolveApiKey(SaveKey(k).stored, env) == Success(Trim(k.input))
    ensures ResolveApiKey(ClearKey(SaveKey(k)).stored, env).Success? <==> Truthy(env)
  {
  }
}
