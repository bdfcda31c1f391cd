/** The extraction rules of `parse_dictionary_html`, applied to an abstract
    page: the raw part-of-speech labels in document order, and for every
    normalised label the definition blocks the page's section query returns
    for it. */
module Extraction {
  import opened Wrappers
  import opened Seqs
  import opened Text
  import opened TitleMatch

  /** One `def-block`: the string value of its first `def ddef_d` element,
      if it has one, and the string values of its `examp dexamp` elements. */
  datatype Block = Block(definition: Option<string>, examples: seq<string>)

  /** What extraction reads from a fetched page. `siteTitle` says whether
      the `<title>` contains the generic site title, `hasEntryBody` whether
      an `entry-body__el` element exists, `headword` is the raw text of the
      first `hw dhw` element, `labels` the raw texts of the `pos dpos`
      labels under `pos-header`, and `sections` the blocks found for each
      normalised label (no key: no blocks). */
  datatype Page = Page(
    html: string,
    siteTitle: bool,
    hasEntryBody: bool,
    headword: Option<string>,
    labels: seq<string>,
    sections: map<string, seq<Block>>)

  datatype PosEntry = PosEntry(posType: string, definition: string, example: Option<string>)

  datatype WordEntry = WordEntry(word: string, partsOfSpeech: seq<PosEntry>)

  /** Why a word's lookup fails: every fetch attempt raised, or the page is
      the site's generic "not found" page. */
  datatype LookupError = FetchFailed | NotFound(word: string)

  // ---------------------------------------------------------------------
  // Labels

  /** A label as the crawler compares it: stripped, then lower-cased. */
  function Normalise(pos: string): string {
    Lower(Strip(pos))
  }

  /** A normalised label is trimmed and has no upper-case letter, and
      normalising it again changes nothing. */
  lemma NormaliseShape(pos: string)
    ensures IsTrimmed(Normalise(pos)) && IsLower(Normalise(pos))
    ensures Normalise(Normalise(pos)) == Normalise(pos)
  {
    LowerKeepsTrimmed(Strip(pos));
    StripTrimmed(Normalise(pos));
    LowerIdempotent(Strip(pos));
  }

  /** The part-of-speech types in the order the crawler processes them:
      each label normalised, a label already processed skipped. */
  function DedupLabels(labels: seq<string>): (r: seq<string>)
    ensures NoDuplicates(r)
  {
    DedupIsFirstOccurrences(Map(Normalise, labels));
    FirstOccurrencesElements(Map(Normalise, labels));
    Dedup(Map(Normalise, labels), {})
  }

  /** The processed types are the normalised labels in first-occurrence
      order: each normalised label exactly once, and a label met earlier
      never after one met later. */
  lemma DedupLabelsSpec(labels: seq<string>)
    ensures DedupLabels(labels) == FirstOccurrences(Map(Normalise, labels))
    ensures forall x :: x in DedupLabels(labels) <==> x in Map(Normalise, labels)
    ensures forall i :: 0 <= i <= |labels| ==>
              DedupLabels(labels[..i]) <= DedupLabels(labels)
  {
    DedupIsFirstOccurrences(Map(Normalise, labels));
    FirstOccurrencesElements(Map(Normalise, labels));
    forall i | 0 <= i <= |labels|
      ensures DedupLabels(labels[..i]) <= DedupLabels(labels)
    {
      DedupIsFirstOccurrences(Map(Normalise, labels[..i]));
      assert Map(Normalise, labels[..i]) == Map(Normalise, labels)[..i];
      FirstOccurrencesPrefix(Map(Normalise, labels), i);
    }
  }

  // ---------------------------------------------------------------------
  // Definition blocks

  /** The definition text after clean-up: stripped, then one trailing `:`
      removed. */
  function CleanDefinition(raw: string): (r: string)
    ensures |r| <= |Strip(raw)| && r == Strip(raw)[..|r|] && |Strip(raw)| - |r| <= 1
    ensures |r| == |Strip(raw)| <==> !EndsWith(Strip(raw), ':')
  {
    var t := Strip(raw);
    if EndsWith(t, ':') then t[..|t| - 1] else t
  }

  /** The stripped text of the block's first example, "" without one. */
  function ExampleText(b: Block): string {
    if |b.examples| == 0 then "" else Strip(b.examples[0])
  }

  /** What the block loop computes from one block before it decides
      anything: nothing for a block without a definition element, else the
      cleaned definition and the example text. */
  datatype BlockView = Skipped | Defined(definition: string, example: string)

  function ViewOf(b: Block): BlockView {
    match b.definition
    case None => Skipped
    case Some(raw) => Defined(CleanDefinition(raw), ExampleText(b))
  }

  function Views(blocks: seq<Block>): seq<BlockView> {
    Map(ViewOf, blocks)
  }

  predicate IsDefined(v: BlockView) {
    v.Defined?
  }

  /** A block that can become the preferred one: it has a definition
      element and a non-empty example. */
  predicate HasExample(v: BlockView) {
    v.Defined? && |v.example| > 0
  }

  /** Index of the first view with an example, `|vs|` if none. */
  function FirstExample(vs: seq<BlockView>): (i: nat)
    ensures i <= |vs|
    ensures i < |vs| ==> HasExample(vs[i])
    ensures forall j :: 0 <= j < i ==> !HasExample(vs[j])
  {
    if |vs| == 0 then 0
    else if HasExample(vs[0]) then 0
    else 1 + FirstExample(vs[1..])
  }

  /** Index of the first view with a definition, `|vs|` if none. */
  function FirstDefinition(vs: seq<BlockView>): (i: nat)
    ensures i <= |vs|
    ensures i < |vs| ==> vs[i].Defined?
    ensures forall j :: 0 <= j < i ==> !vs[j].Defined?
  {
    if |vs| == 0 then 0
    else if vs[0].Defined? then 0
    else 1 + FirstDefinition(vs[1..])
  }

  /** A definition with the example recorded alongside it, if any. */
  datatype Candidate = Candidate(definition: string, example: Option<string>)

  /** The pair the block loop carries: the fallback (first definition met)
      and the preferred candidate (first definition with an example). */
  datatype ScanState = ScanState(fallback: Option<Candidate>, preferred: Option<Candidate>)

  const Start := ScanState(None, None)

  /** The block loop: skip blocks without a definition, record the first
      definition as the fallback, and stop at the first block with an
      example, recording it as preferred. */
  function Scan(vs: seq<BlockView>, st: ScanState): ScanState {
    if |vs| == 0 then st
    else
      match vs[0]
      case Skipped => Scan(vs[1..], st)
      case Defined(d, ex) =>
        var fallback :=
          if st.fallback.None? then Some(Candidate(d, if |ex| > 0 then Some(ex) else None))
          else st.fallback;
        if |ex| > 0 && st.preferred.None? then ScanState(fallback, Some(Candidate(d, Some(ex))))
        else Scan(vs[1..], ScanState(fallback, st.preferred))
  }

  /** Resolution: the preferred candidate wins over the fallback; without
      either, the label yields no entry. */
  function Resolve(pos: string, st: ScanState): Option<PosEntry> {
    if st.preferred.Some? then
      Some(PosEntry(pos, st.preferred.value.definition, st.preferred.value.example))
    else if st.fallback.Some? then
      Some(PosEntry(pos, st.fallback.value.definition, st.fallback.value.example))
    else None
  }

  /** The entry produced for label `pos` from the views of its blocks. */
  function ResolveViews(pos: string, vs: seq<BlockView>): (r: Option<PosEntry>)
    ensures r.Some? ==> r.value.posType == pos
  {
    Resolve(pos, Scan(vs, Start))
  }

  /** The entry produced for one part-of-speech label and its blocks. */
  function ResolveLabel(pos: string, blocks: seq<Block>): (r: Option<PosEntry>)
    ensures r.Some? ==> r.value.posType == pos
  {
    ResolveViews(pos, Views(blocks))
  }

  /** The fallback chosen when no block has an example: the first
      definition-bearing block, with no example. */
  function FirstDefinitionCandidate(vs: seq<BlockView>): Option<Candidate> {
    var f := FirstDefinition(vs);
    if f < |vs| then Some(Candidate(vs[f].definition, None)) else None
  }

  lemma {:induction false} ScanSpec(vs: seq<BlockView>, st: ScanState)
    requires st.preferred.None?
    ensures var r := Scan(vs, st); var i := FirstExample(vs);
            && (i < |vs| ==>
                  r.preferred == Some(Candidate(vs[i].definition, Some(vs[i].example))))
            && (i == |vs| ==>
                  r.preferred.None?
                  && r.fallback == (if st.fallback.Some? then st.fallback
                                    else FirstDefinitionCandidate(vs)))
  {
    if |vs| > 0 {
      var rest := vs[1..];
      match vs[0]
      case Skipped =>
        ScanSpec(rest, st);
        assert FirstExample(vs) == 1 + FirstExample(rest);
        assert FirstDefinition(vs) == 1 + FirstDefinition(rest);
      case Defined(d, ex) =>
        if |ex| == 0 {
          var fallback := if st.fallback.None? then Some(Candidate(d, None)) else st.fallback;
          ScanSpec(rest, ScanState(fallback, None));
          assert FirstExample(vs) == 1 + FirstExample(rest);
          assert FirstDefinition(vs) == 0;
        }
    }
  }

  /** The whole selection rule for one label, stated against the first
      block with an example and the first block with a definition. */
  lemma EntrySpec(pos: string, vs: seq<BlockView>)
    ensures var e := ResolveViews(pos, vs);
            var i := FirstExample(vs);
            var f := FirstDefinition(vs);
            && (i < |vs| ==> e == Some(PosEntry(pos, vs[i].definition, Some(vs[i].example))))
            && (i == |vs| && f < |vs| ==> e == Some(PosEntry(pos, vs[f].definition, None)))
            && (f == |vs| ==> e.None?)
  {
    ScanSpec(vs, Start);
  }

  /** Preference law: the first block with an example supplies both the
      definition and the example. */
  lemma PreferenceLaw(pos: string, vs: seq<BlockView>, i: nat)
    requires i < |vs| && HasExample(vs[i])
    requires forall j :: 0 <= j < i ==> !HasExample(vs[j])
    ensures ResolveViews(pos, vs) == Some(PosEntry(pos, vs[i].definition, Some(vs[i].example)))
  {
    EntrySpec(pos, vs);
    assert FirstExample(vs) == i;
  }

  /** Fallback law: with no example anywhere, the first definition-bearing
      block supplies the definition and the entry has no example. */
  lemma FallbackLaw(pos: string, vs: seq<BlockView>, f: nat)
    requires f < |vs| && vs[f].Defined?
    requires forall j :: 0 <= j < f ==> !vs[j].Defined?
    requires forall j :: 0 <= j < |vs| ==> !HasExample(vs[j])
    ensures ResolveViews(pos, vs) == Some(PosEntry(pos, vs[f].definition, None))
  {
    EntrySpec(pos, vs);
    assert FirstDefinition(vs) == f;
  }

  /** The entry carries an example exactly when some definition-bearing
      block has a non-empty example. */
  lemma ExamplePresence(pos: string, vs: seq<BlockView>)
    ensures (ResolveViews(pos, vs).Some? && ResolveViews(pos, vs).value.example.Some?)
            <==> exists j :: 0 <= j < |vs| && HasExample(vs[j])
  {
    EntrySpec(pos, vs);
  }

  /** A label yields an entry exactly when one of its blocks has a
      definition element. */
  lemma LabelDropped(pos: string, vs: seq<BlockView>)
    ensures ResolveViews(pos, vs).Some? <==> exists j :: 0 <= j < |vs| && vs[j].Defined?
  {
    EntrySpec(pos, vs);
  }

  lemma {:induction false} ScanIgnoresSkipped(vs: seq<BlockView>, st: ScanState)
    ensures Scan(vs, st) == Scan(Filter(IsDefined, vs), st)
  {
    if |vs| > 0 {
      var v := vs[0];
      var fv := Filter(IsDefined, vs);
      assert fv == (if IsDefined(v) then [v] else []) + Filter(IsDefined, vs[1..]);
      match v
      case Skipped =>
        assert fv == Filter(IsDefined, vs[1..]);
        ScanIgnoresSkipped(vs[1..], st);
      case Defined(d, ex) =>
        assert fv[0] == v && fv[1..] == Filter(IsDefined, vs[1..]);
        var fallback :=
          if st.fallback.None? then Some(Candidate(d, if |ex| > 0 then Some(ex) else None))
          else st.fallback;
        ScanIgnoresSkipped(vs[1..], ScanState(fallback, st.preferred));
    }
  }

  /** Blocks without a definition element play no part, whatever examples
      they carry. */
  lemma SkippedBlocksIrrelevant(pos: string, vs: seq<BlockView>)
    ensures ResolveViews(pos, vs) == ResolveViews(pos, Filter(IsDefined, vs))
  {
    ScanIgnoresSkipped(vs, Start);
  }

  /** The scan stops at the first block with an example: nothing after it
      can change the entry. */
  lemma NoLaterInspection(pos: string, vs: seq<BlockView>, i: nat, rest: seq<BlockView>)
    requires i < |vs| && HasExample(vs[i])
    requires forall j :: 0 <= j < i ==> !HasExample(vs[j])
    ensures ResolveViews(pos, vs[..i + 1] + rest) == ResolveViews(pos, vs)
  {
    var other := vs[..i + 1] + rest;
    assert forall j :: 0 <= j <= i ==> other[j] == vs[j] by {
      forall j | 0 <= j <= i
        ensures other[j] == vs[j]
      {
        assert other[j] == vs[..i + 1][j];
      }
    }
    PreferenceLaw(pos, vs, i);
    PreferenceLaw(pos, other, i);
  }

  /** A block the loop prefers: it has a definition element and its first
      example strips to non-empty text. */
  predicate HasUsableExample(b: Block) {
    b.definition.Some? && |ExampleText(b)| > 0
  }

  /** Preference law over the blocks themselves: the first block with a
      definition element and a non-empty first example gives the entry its
      cleaned definition and that example, stripped. */
  lemma BlockPreferenceLaw(pos: string, blocks: seq<Block>, i: nat)
    requires i < |blocks| && HasUsableExample(blocks[i])
    requires forall j :: 0 <= j < i ==> !HasUsableExample(blocks[j])
    ensures |blocks[i].examples| > 0
    ensures ResolveLabel(pos, blocks)
            == Some(PosEntry(pos, CleanDefinition(blocks[i].definition.value),
                             Some(Strip(blocks[i].examples[0]))))
  {
    var vs := Views(blocks);
    assert forall j :: 0 <= j < |blocks| ==> (HasExample(vs[j]) <==> HasUsableExample(blocks[j]));
    PreferenceLaw(pos, vs, i);
  }

  /** Fallback law over the blocks themselves: when no block is preferred,
      the first block with a definition element gives the entry its cleaned
      definition and no example. */
  lemma BlockFallbackLaw(pos: string, blocks: seq<Block>, f: nat)
    requires f < |blocks| && blocks[f].definition.Some?
    requires forall j :: 0 <= j < f ==> blocks[j].definition.None?
    requires forall j :: 0 <= j < |blocks| ==> !HasUsableExample(blocks[j])
    ensures ResolveLabel(pos, blocks)
            == Some(PosEntry(pos, CleanDefinition(blocks[f].definition.value), None))
  {
    var vs := Views(blocks);
    assert forall j :: 0 <= j < |blocks| ==> (HasExample(vs[j]) <==> HasUsableExample(blocks[j]));
    assert forall j :: 0 <= j < |blocks| ==> (vs[j].Defined? <==> blocks[j].definition.Some?);
    FallbackLaw(pos, vs, f);
  }

  // ---------------------------------------------------------------------
  // The page

  /** The blocks the section query returns for a normalised label. */
  function BlocksFor(page: Page, pos: string): seq<Block> {
    if pos in page.sections then page.sections[pos] else []
  }

  function Types(entries: seq<PosEntry>): (r: seq<string>)
    ensures |r| == |entries|
    ensures forall k :: 0 <= k < |entries| ==> r[k] == entries[k].posType
  {
    seq(|entries|, k requires 0 <= k < |entries| => entries[k].posType)
  }

  /** A label has a block with a definition element. */
  predicate HasDefinitionBlock(page: Page, pos: string) {
    exists j :: 0 <= j < |BlocksFor(page, pos)| && BlocksFor(page, pos)[j].definition.Some?
  }

  /** The entry, if any, for one normalised label of the page. */
  function EntryOf(page: Page): string -> Option<PosEntry> {
    (pos: string) => ResolveLabel(pos, BlocksFor(page, pos))
  }

  function PosTypeOf(e: PosEntry): string {
    e.posType
  }

  function HasEntry(page: Page): string -> bool {
    (pos: string) => HasDefinitionBlock(page, pos)
  }

  /** A label's entry exists exactly when one of its blocks has a
      definition element. */
  lemma ResolveLabelSome(page: Page, pos: string)
    ensures ResolveLabel(pos, BlocksFor(page, pos)).Some? <==> HasDefinitionBlock(page, pos)
  {
    var blocks := BlocksFor(page, pos);
    LabelDropped(pos, Views(blocks));
    assert forall j :: 0 <= j < |blocks| ==>
             (Views(blocks)[j].Defined? <==> blocks[j].definition.Some?);
  }

  /** Every entry records the label it was made for, and exists exactly
      when the label has a definition-bearing block. */
  lemma EntryOfFacts(page: Page)
    ensures forall pos :: EntryOf(page)(pos).Some? ==> PosTypeOf(EntryOf(page)(pos).value) == pos
    ensures forall pos :: HasEntry(page)(pos) <==> EntryOf(page)(pos).Some?
  {
    forall pos
      ensures HasEntry(page)(pos) <==> EntryOf(page)(pos).Some?
    {
      ResolveLabelSome(page, pos);
    }
  }

  /** The entries emitted for the labels `ls`, in order. */
  function EntriesFor(page: Page, ls: seq<string>): (r: seq<PosEntry>)
    ensures |r| <= |ls|
    ensures forall k :: 0 <= k < |r| ==>
              ResolveLabel(r[k].posType, BlocksFor(page, r[k].posType)) == Some(r[k])
  {
    EntryOfFacts(page);
    FilterMapKeys(EntryOf(page), PosTypeOf, HasEntry(page), ls);
    FilterMap(EntryOf(page), ls)
  }

  /** The emitted types are exactly the processed labels that have a
      definition-bearing block, in processing order. */
  lemma EntriesTypes(page: Page, ls: seq<string>)
    ensures Types(EntriesFor(page, ls)) == Filter(HasEntry(page), ls)
  {
    EntryOfFacts(page);
    FilterMapKeys(EntryOf(page), PosTypeOf, HasEntry(page), ls);
    assert Types(EntriesFor(page, ls)) == Map(PosTypeOf, EntriesFor(page, ls));
  }

  /** The not-found check: the title is the generic site title and there is
      no entry body. */
  predicate IsNotFoundPage(page: Page) {
    page.siteTitle && !page.hasEntryBody
  }

  /** Normalising text without `|` cannot introduce one. */
  lemma NormaliseNoBar(g: string)
    requires NoBar(g)
    ensures NoBar(Normalise(g))
  {
    var t := Strip(g);
    var i := SpacesFrom(g, 0);
    assert forall k :: 0 <= k < |t| ==> t[k] == g[i + k];
  }

  /** The canonical word: the title group, else the headword, each stripped
      and lower-cased; else the input word exactly as given. */
  function CanonicalWord(page: Page, word: string): (r: string)
    ensures TitleGroup(page.html).Some? ==> IsLower(r) && IsTrimmed(r) && NoBar(r)
    ensures TitleGroup(page.html).None? && page.headword.Some? ==> IsLower(r) && IsTrimmed(r)
    ensures TitleGroup(page.html).None? && page.headword.None? ==> r == word
  {
    match TitleGroup(page.html)
    case Some(g) =>
      TitleGroupShape(page.html);
      NormaliseShape(g);
      NormaliseNoBar(g);
      Normalise(g)
    case None =>
      match page.headword
      case Some(h) =>
        NormaliseShape(h);
        Normalise(h)
      case None => word
  }

  /** When the leftmost title match has group `a + t + b`, with `t` trimmed
      and `a`, `b` whitespace, the word is `t` lower-cased. */
  lemma CanonicalWordFromTitle(page: Page, word: string, p: nat, a: string, t: string, b: string)
    requires MatchesAt(page.html, p, a + t + b)
    requires forall q, g :: 0 <= q < p ==> !MatchesAt(page.html, q, g)
    requires AllSpace(a) && AllSpace(b) && IsTrimmed(t)
    ensures CanonicalWord(page, word) == Lower(t)
  {
    TitleGroupOfLeftmost(page.html, p, a + t + b);
    StripUnique(a, t, b);
  }

  /** Without any title match, a headword `a + t + b`, with `t` trimmed and
      `a`, `b` whitespace, gives the word `t` lower-cased. */
  lemma CanonicalWordFromHeadword(page: Page, word: string, a: string, t: string, b: string)
    requires forall p, g :: !MatchesAt(page.html, p, g)
    requires page.headword == Some(a + t + b)
    requires AllSpace(a) && AllSpace(b) && IsTrimmed(t)
    ensures CanonicalWord(page, word) == Lower(t)
  {
    TitleGroupSpec(page.html);
    StripUnique(a, t, b);
  }

  /** `parse_dictionary_html` after the fetch. */
  function Extract(page: Page, word: string): (r: Result<WordEntry, LookupError>)
    ensures r.Failure? <==> IsNotFoundPage(page)
    ensures r.Failure? ==> r.error == NotFound(word)
  {
    if IsNotFoundPage(page) then Failure(NotFound(word))
    else Success(WordEntry(CanonicalWord(page, word), EntriesFor(page, DedupLabels(page.labels))))
  }

  /** A page that passes the not-found check yields one entry per processed
      label with a definition-bearing block, in processing order, and so at
      most one entry per normalised label. */
  lemma ExtractSpec(page: Page, word: string)
    requires !IsNotFoundPage(page)
    ensures Extract(page, word).Success?
    ensures Extract(page, word).value.word == CanonicalWord(page, word)
    ensures var parts := Extract(page, word).value.partsOfSpeech;
            && Types(parts) == Filter(HasEntry(page), DedupLabels(page.labels))
            && NoDuplicates(Types(parts))
            && (forall k :: 0 <= k < |parts| ==> parts[k].posType in Map(Normalise, page.labels))
            && (forall k :: 0 <= k < |parts| ==>
                  ResolveLabel(parts[k].posType, BlocksFor(page, parts[k].posType)) == Some(parts[k]))
  {
    var parts := Extract(page, word).value.partsOfSpeech;
    var ls := DedupLabels(page.labels);
    EntriesTypes(page, ls);
    FilterNoDuplicates(HasEntry(page), ls);
    FilterElements(HasEntry(page), ls);
    DedupLabelsSpec(page.labels);
    forall k | 0 <= k < |parts|
      ensures parts[k].posType in Map(Normalise, page.labels)
    {
      assert Types(parts)[k] in ls;
    }
  }

  /** Clean-up of a definition surrounded by whitespace: the text between
      the whitespace, less one trailing `:`. */
  lemma CleanDefinitionOf(a: string, t: string, b: string)
    requires AllSpace(a) && AllSpace(b) && IsTrimmed(t)
    ensures CleanDefinition(a + t + b) == if EndsWith(t, ':') then t[..|t| - 1] else t
  {
    StripUnique(a, t, b);
  }

  /** Text that starts with a non-space and ends in `:` is trimmed, and
      dropping its last character drops the colon of `tail`. */
  lemma EndsInColon(w: string, tail: string)
    requires |w| > 0 && !IsSpace(w[0])
    requires |tail| > 0 && tail[|tail| - 1] == ':'
    ensures IsTrimmed(w + tail) && EndsWith(w + tail, ':')
    ensures (w + tail)[..|w + tail| - 1] == w + tail[..|tail| - 1]
  {
    assert !IsSpace(':');
  }

  /** Clean-up removes one colon only: `"x::"` becomes `"x:"`. */
  lemma CleanDefinitionOneColon(w: string)
    requires |w| > 0 && !IsSpace(w[0])
    ensures CleanDefinition(w + "::") == w + ":"
  {
    EndsInColon(w, "::");
    StripTrimmed(w + "::");
  }

  /** Clean-up strips before it removes the colon, so whitespace in front of
      the colon survives: `" to run : "` becomes `"to run "`. */
  lemma CleanDefinitionStripsFirst(a: string, w: string, b: string)
    requires AllSpace(a) && AllSpace(b)
    requires |w| > 0 && !IsSpace(w[0])
    ensures CleanDefinition(a + (w + " :") + b) == w + " "
  {
    EndsInColon(w, " :");
    CleanDefinitionOf(a, w + " :", b);
  }
}
