/** The feedback record the tutor is asked to produce, and the rules by which
    the corrections sidebar chooses what to show for it. */
module SidebarFeedback {
  import opened Wrappers
  import opened Json

  datatype Correction = Correction(original: string, corrected: string, explanation: string)

  /** A vocabulary entry; `kanji` is optional. */
  datatype NewVocab = NewVocab(kanji: Option<string>, kana: string, meaning: string)

  datatype ParsedFeedback = ParsedFeedback(reply: string, corrections: seq<Correction>, newVocabulary: seq<NewVocab>)

  /** One correction card: the struck-out original, the correction, the explanation. */
  datatype CorrectionCard = CorrectionCard(struck: string, corrected: string, explanation: string)

  /** One vocabulary card: headword, then the kana reading, then the meaning. */
  datatype VocabCard = VocabCard(headword: string, reading: string, meaning: string)

  datatype CorrectionsSection = CorrectionCards(cards: seq<CorrectionCard>) | PerfectBanner

  /** What the sidebar shows: the "no corrections yet" placeholder, or the
      corrections section and, when there is vocabulary, its section. */
  datatype SidebarView =
    | NoFeedbackYet
    | FeedbackSections(corrections: CorrectionsSection, vocabulary: Option<seq<VocabCard>>)

  /** `v.kanji || v.kana`. */
  function Headword(v: NewVocab): string {
    if v.kanji.Some? && v.kanji.value != [] then v.kanji.value else v.kana
  }

  function CardOf(c: Correction): CorrectionCard {
    CorrectionCard(c.original, c.corrected, c.explanation)
  }

  function VocabCardOf(v: NewVocab): VocabCard {
    VocabCard(Headword(v), v.kana, v.meaning)
  }

  /** `corrections.map(...)`: one card per correction, in list order. */
  function CardsFor(cs: seq<Correction>): (r: seq<CorrectionCard>)
    ensures |r| == |cs|
    ensures forall i :: 0 <= i < |cs| ==> r[i] == CardOf(cs[i])
  {
    if cs == [] then [] else [CardOf(cs[0])] + CardsFor(cs[1..])
  }

  /** `new_vocabulary.map(...)`: one card per entry, in list order. */
  function VocabCardsFor(vs: seq<NewVocab>): (r: seq<VocabCard>)
    ensures |r| == |vs|
    ensures forall i :: 0 <= i < |vs| ==> r[i] == VocabCardOf(vs[i])
  {
    if vs == [] then [] else [VocabCardOf(vs[0])] + VocabCardsFor(vs[1..])
  }

  /** The sidebar for the latest feedback (`None` is `null`). */
  function Sidebar(last: Option<ParsedFeedback>): SidebarView {
    match last
    case None => NoFeedbackYet
    case Some(fb) =>
      FeedbackSections(
        if |fb.corrections| > 0 then CorrectionCards(CardsFor(fb.corrections)) else PerfectBanner,
        if |fb.newVocabulary| > 0 then Some(VocabCardsFor(fb.newVocabulary)) else None)
  }

  /** Without feedback only the placeholder shows. Otherwise the sidebar's
      sections follow the feedback: cards for each correction in
      order or else the "perfect" banner, and a vocabulary section exactly when
      there is vocabulary. */
  lemma SidebarSections(fb: ParsedFeedback)
    ensures Sidebar(None) == NoFeedbackYet
    ensures Sidebar(Some(fb)).FeedbackSections?
    ensures var v := Sidebar(Some(fb));
      && (v.corrections.PerfectBanner? <==> fb.corrections == [])
      && (v.corrections.CorrectionCards? ==>
            |v.corrections.cards| == |fb.corrections|
            && forall i :: 0 <= i < |fb.corrections| ==>
                 v.corrections.cards[i] == CorrectionCard(fb.corrections[i].original, fb.corrections[i].corrected, fb.corrections[i].explanation))
      && (v.vocabulary.Some? <==> fb.newVocabulary != [])
      && (v.vocabulary.Some? ==> |v.vocabulary.value| == |fb.newVocabulary|)
  {
  }

  /** The vocabulary section shows, for each entry in order, the kanji as
      headword when it is given and non-empty and the kana otherwise, then the
      kana reading and the meaning; an entry with a reading never gets a blank
      headword. */
  lemma SidebarVocabulary(fb: ParsedFeedback)
    requires fb.newVocabulary != []
    ensures Sidebar(Some(fb)).vocabulary.Some?
    ensures var cards := Sidebar(Some(fb)).vocabulary.value;
      && |cards| == |fb.newVocabulary|
      && forall i :: 0 <= i < |cards| ==>
           && cards[i].reading == fb.newVocabulary[i].kana
           && cards[i].meaning == fb.newVocabulary[i].meaning
           && (if fb.newVocabulary[i].kanji.Some? && fb.newVocabulary[i].kanji.value != []
               then cards[i].headword == fb.newVocabulary[i].kanji.value
               else cards[i].headword == fb.newVocabulary[i].kana)
           && (fb.newVocabulary[i].kana != [] ==> cards[i].headword != [])
  {
  }

  /** The JSON object the reply is expected to be: the three fields under their
      wire names, `kanji` written only when present. */
  function ToJson(fb: ParsedFeedback): Json {
    JObject(map[
      "reply" := JString(fb.reply),
      "corrections" := JArray(CorrectionsJson(fb.corrections)),
      "new_vocabulary" := JArray(VocabJson(fb.newVocabulary))])
  }

  function CorrectionsJson(cs: seq<Correction>): (r: seq<Json>)
    ensures |r| == |cs|
  {
    if cs == [] then []
    else [JObject(map["original" := JString(cs[0].original), "corrected" := JString(cs[0].corrected),
                       "explanation" := JString(cs[0].explanation)])]
         + CorrectionsJson(cs[1..])
  }

  function VocabJson(vs: seq<NewVocab>): (r: seq<Json>)
    ensures |r| == |vs|
  {
    if vs == [] then []
    else
      var base := map["kana" := JString(vs[0].kana), "meaning" := JString(vs[0].meaning)];
      [JObject(if vs[0].kanji.Some? then base["kanji" := JString(vs[0].kanji.value)] else base)]
      + VocabJson(vs[1..])
  }
}
