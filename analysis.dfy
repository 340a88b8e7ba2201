/** What one call of the transcript analyser produces, as functions of the
    transcript, the reference text and the runtime; and what a sequence of calls
    does to the feedback list. */
module Analysis {
  import opened TextOps
  import opened Rules

  /** The `type` of a feedback item. */
  datatype ErrorType = Pronunciation | Emphasis | Grammar | Dialect | Rhythm

  /** Why a feedback item was raised. The item the app shows is the pair of its
      `Text()` and its `Kind()`; its timestamp is not modelled. */
  datatype Notice =
    | DialectHit(dialect: DialectRule)
    | GrammarHit(grammar: GrammarRule)
    | TooFast
    | TooSlow
    | MissingWord(word: string)
    | NoPauses
    | FlatTone
  {
    function Kind(): ErrorType
    {
      match this
      case DialectHit(_) => Dialect
      case GrammarHit(_) => Grammar
      case TooFast | TooSlow | NoPauses => Rhythm
      case MissingWord(_) => Pronunciation
      case FlatTone => Emphasis
    }

    /** The check of the analyser that raises this item, in the order they run. */
    function Stage(): nat
    {
      match this
      case DialectHit(_) => 0
      case GrammarHit(_) => 1
      case TooFast | TooSlow => 2
      case MissingWord(_) => 3
      case NoPauses => 4
      case FlatTone => 5
    }

    function Text(): string
    {
      match this
      case DialectHit(r) =>
        "Şive tespit edildi: \"" + r.source + "\" yerine \"" + r.correct + "\" kullanın."
      case GrammarHit(r) =>
        // `warning || template`: an empty warning falls through to the template, and
        // a rule without a correction prints it as "undefined".
        (match r.advice
         case Warn(w) => if w != "" then w else GrammarTemplate(r.source, "undefined")
         case Correct(c) => GrammarTemplate(r.source, c))
      case TooFast => "Konuşma hızınız çok yüksek. Daha yavaş ve tane tane konuşmayı deneyin."
      case TooSlow => "Konuşma hızınız çok düşük. Biraz daha akıcı konuşmayı deneyin."
      case MissingWord(w) => "\"" + w + "\" kelimesi eksik veya farklı telaffuz edildi"
      case NoPauses =>
        "Konuşmanızda yeterli durak bulunmuyor. Noktalama işaretlerinde duraklamayı unutmayın."
      case FlatTone =>
        "Konuşmanızda yeterli vurgu ve tonlama yok. Önemli kelimeleri vurgulayarak okuyun."
    }
  }

  function GrammarTemplate(source: string, correct: string): string
  {
    "Dilbilgisi hatası: \"" + source + "\" yerine \"" + correct + "\" kullanın."
  }

  /** The parts of the JavaScript runtime the analyser relies on and this model does
      not define: `test(source, s)` tells whether the case-insensitive regular
      expression with that source matches somewhere in `s`, and `lower` is
      `toLowerCase`. */
  datatype Runtime = Runtime(test: (string, string) -> bool, lower: string -> string)

  // ---------------------------------------------------------------------------
  // One pass over a table
  // ---------------------------------------------------------------------------

  /** The items a `forEach` over `xs` pushes: `item(x)` for every `x` that `keep`
      accepts, in order. */
  function Emit<T>(xs: seq<T>, keep: T -> bool, item: T -> Notice): (r: seq<Notice>)
    ensures |r| <= |xs|
  {
    if xs == [] then []
    else Emit(xs[..|xs| - 1], keep, item) + (if keep(xs[|xs| - 1]) then [item(xs[|xs| - 1])] else [])
  }

  /** An item is emitted exactly when some accepted element of the table yields it. */
  lemma {:induction false} EmitMember<T>(xs: seq<T>, keep: T -> bool, item: T -> Notice, n: Notice)
    ensures n in Emit(xs, keep, item) <==> exists j :: 0 <= j < |xs| && keep(xs[j]) && item(xs[j]) == n
  {
    if xs != [] {
      var init := xs[..|xs| - 1];
      EmitMember(init, keep, item, n);
      assert forall j :: 0 <= j < |init| ==> init[j] == xs[j];
    }
  }

  /** With an injective `item`, every accepted element yields one item per
      occurrence in the table, and a rejected one yields none. */
  lemma {:induction false} EmitCount<T>(xs: seq<T>, keep: T -> bool, item: T -> Notice, x: T)
    requires forall a, b :: item(a) == item(b) ==> a == b
    ensures multiset(Emit(xs, keep, item))[item(x)] == if keep(x) then multiset(xs)[x] else 0
  {
    if xs != [] {
      var init, y := xs[..|xs| - 1], xs[|xs| - 1];
      EmitCount(init, keep, item, x);
      assert xs == init + [y];
    }
  }

  /** Items of a table all come from the same check. */
  lemma {:induction false} EmitStage<T>(xs: seq<T>, keep: T -> bool, item: T -> Notice, stage: nat)
    requires forall x :: item(x).Stage() == stage
    ensures forall k :: 0 <= k < |Emit(xs, keep, item)| ==> Emit(xs, keep, item)[k].Stage() == stage
  {
    if xs != [] {
      EmitStage(xs[..|xs| - 1], keep, item, stage);
    }
  }

  // ---------------------------------------------------------------------------
  // The six checks
  // ---------------------------------------------------------------------------

  function DialectMatches(rt: Runtime, spoken: string): DialectRule -> bool
  {
    (r: DialectRule) => rt.test(r.source, spoken)
  }

  function DialectItem(r: DialectRule): Notice { DialectHit(r) }

  function DialectItems(rt: Runtime, spoken: string): seq<Notice>
  {
    Emit(DialectRules, DialectMatches(rt, spoken), DialectItem)
  }

  function GrammarMatches(rt: Runtime, spoken: string): GrammarRule -> bool
  {
    (r: GrammarRule) => rt.test(r.source, spoken)
  }

  function GrammarItem(r: GrammarRule): Notice { GrammarHit(r) }

  function GrammarItems(rt: Runtime, spoken: string): seq<Notice>
  {
    Emit(GrammarRules, GrammarMatches(rt, spoken), GrammarItem)
  }

  /** The rate check: too fast above 180 words, too slow below 100. */
  function RateItems(spoken: string): seq<Notice>
  {
    var wpm := WordsPerMinute(spoken);
    if wpm > 180 then [TooFast] else if wpm < 100 then [TooSlow] else []
  }

  /** The transcript, lower-cased and split on single spaces. */
  function SpokenWords(rt: Runtime, spoken: string): (r: seq<string>)
    ensures Join(r, ' ') == rt.lower(spoken)
    ensures forall k :: 0 <= k < |r| ==> ' ' !in r[k]
  {
    JoinSplitOn(rt.lower(spoken), ' ');
    SplitOnPiecesFree(rt.lower(spoken), ' ');
    SplitOn(rt.lower(spoken), ' ')
  }

  function IsMissing(rt: Runtime, spoken: string): string -> bool
  {
    w => rt.lower(w) !in SpokenWords(rt, spoken)
  }

  function MissingItem(w: string): Notice { MissingWord(w) }

  /** One item per emphasis word of the reference text that the speaker did not say. */
  function PronunciationItems(rt: Runtime, reference: string, spoken: string): seq<Notice>
  {
    Emit(EmphasisWords(reference), IsMissing(rt, spoken), MissingItem)
  }

  /** A character of `/[,.!?]/`. */
  predicate IsPauseMark(c: char)
  {
    c == ',' || c == '.' || c == '!' || c == '?'
  }

  function HasPauseMark(spoken: string): (r: bool)
    ensures r <==> exists k :: 0 <= k < |spoken| && IsPauseMark(spoken[k])
  {
    Occurs(spoken, IsPauseMark)
  }

  function PauseItems(spoken: string): seq<Notice>
  {
    if HasPauseMark(spoken) then [] else [NoPauses]
  }

  /** A character of the case-sensitive class `/[A-ZĞÜŞİÖÇ]/`. */
  predicate IsCapital(c: char)
  {
    'A' <= c <= 'Z' || c == 'Ğ' || c == 'Ü' || c == 'Ş' || c == 'İ' || c == 'Ö' || c == 'Ç'
  }

  /** A character of `/[,.;:]/`. */
  predicate IsClauseMark(c: char)
  {
    c == ',' || c == '.' || c == ';' || c == ':'
  }

  /** A character that one of the four emphasis patterns looks for. */
  predicate IsEmphasisMark(c: char)
  {
    c == '!' || c == '?' || IsCapital(c) || IsClauseMark(c)
  }

  /** `analyzeEmphasis`: some of `/!/`, `/\?/`, `/[A-ZĞÜŞİÖÇ]+/`, `/[,.;:]/` matches. */
  function AnalyzeEmphasis(spoken: string): (r: bool)
    ensures r <==> exists k :: 0 <= k < |spoken| && IsEmphasisMark(spoken[k])
  {
    Occurs(spoken, c => c == '!') || Occurs(spoken, c => c == '?')
      || Occurs(spoken, IsCapital) || Occurs(spoken, IsClauseMark)
  }

  function ToneItems(spoken: string): seq<Notice>
  {
    if AnalyzeEmphasis(spoken) then [] else [FlatTone]
  }

  /** The items one analysis of `spoken` appends, when `reference` is the catalog
      text whose emphasis words are expected. */
  function Batch(rt: Runtime, reference: string, spoken: string): seq<Notice>
  {
    DialectItems(rt, spoken) + GrammarItems(rt, spoken) + RateItems(spoken)
      + PronunciationItems(rt, reference, spoken) + PauseItems(spoken) + ToneItems(spoken)
  }

  // ---------------------------------------------------------------------------
  // What a batch holds
  // ---------------------------------------------------------------------------

  /** The stage of every item of `s` is `stage`. */
  predicate AllFrom(s: seq<Notice>, stage: nat)
  {
    forall k :: 0 <= k < |s| ==> s[k].Stage() == stage
  }

  /** The items of `s` come in the order of the checks that raised them. */
  predicate InStageOrder(s: seq<Notice>)
  {
    forall i, j :: 0 <= i <= j < |s| ==> s[i].Stage() <= s[j].Stage()
  }

  /** The dialect check raises dialect items only. */
  lemma DialectItemsOnly(rt: Runtime, spoken: string, n: Notice)
    ensures AllFrom(DialectItems(rt, spoken), 0)
    ensures n.Stage() != 0 ==> multiset(DialectItems(rt, spoken))[n] == 0
  {
    EmitStage(DialectRules, DialectMatches(rt, spoken), DialectItem, 0);
  }

  /** The grammar check raises grammar items only. */
  lemma GrammarItemsOnly(rt: Runtime, spoken: string, n: Notice)
    ensures AllFrom(GrammarItems(rt, spoken), 1)
    ensures n.Stage() != 1 ==> multiset(GrammarItems(rt, spoken))[n] == 0
  {
    EmitStage(GrammarRules, GrammarMatches(rt, spoken), GrammarItem, 1);
  }

  /** The pronunciation check raises missing-word items only. */
  lemma PronunciationItemsOnly(rt: Runtime, reference: string, spoken: string, n: Notice)
    ensures AllFrom(PronunciationItems(rt, reference, spoken), 3)
    ensures n.Stage() != 3 ==> multiset(PronunciationItems(rt, reference, spoken))[n] == 0
  {
    EmitStage(EmphasisWords(reference), IsMissing(rt, spoken), MissingItem, 3);
  }

  /** The rate check raises rate items only. */
  lemma RateItemsOnly(spoken: string, n: Notice)
    ensures AllFrom(RateItems(spoken), 2)
    ensures n != TooFast && n != TooSlow ==> multiset(RateItems(spoken))[n] == 0
  {
  }

  /** The pause check raises the pause item only. */
  lemma PauseItemsOnly(spoken: string, n: Notice)
    ensures AllFrom(PauseItems(spoken), 4)
    ensures n != NoPauses ==> multiset(PauseItems(spoken))[n] == 0
  {
  }

  /** The emphasis check raises the emphasis item only. */
  lemma ToneItemsOnly(spoken: string, n: Notice)
    ensures AllFrom(ToneItems(spoken), 5)
    ensures n != FlatTone ==> multiset(ToneItems(spoken))[n] == 0
  {
  }

  /** The items of `spoken` other than those of the table checks. */
  lemma RhythmItemsOnly(spoken: string, n: Notice)
    ensures AllFrom(RateItems(spoken), 2) && AllFrom(PauseItems(spoken), 4) && AllFrom(ToneItems(spoken), 5)
    ensures n != TooFast && n != TooSlow ==> multiset(RateItems(spoken))[n] == 0
    ensures n != NoPauses ==> multiset(PauseItems(spoken))[n] == 0
    ensures n != FlatTone ==> multiset(ToneItems(spoken))[n] == 0
  {
    RateItemsOnly(spoken, n);
    PauseItemsOnly(spoken, n);
    ToneItemsOnly(spoken, n);
  }

  /** The dialect items count each matching entry once per occurrence in the table. */
  lemma DialectCount(rt: Runtime, spoken: string, r: DialectRule)
    ensures multiset(DialectItems(rt, spoken))[DialectHit(r)] ==
      if rt.test(r.source, spoken) then multiset(DialectRules)[r] else 0
  {
    EmitCount(DialectRules, DialectMatches(rt, spoken), DialectItem, r);
  }

  /** The grammar items count each matching entry once per occurrence in the table. */
  lemma GrammarCount(rt: Runtime, spoken: string, r: GrammarRule)
    ensures multiset(GrammarItems(rt, spoken))[GrammarHit(r)] ==
      if rt.test(r.source, spoken) then multiset(GrammarRules)[r] else 0
  {
    EmitCount(GrammarRules, GrammarMatches(rt, spoken), GrammarItem, r);
  }

  /** The missing-word items count each missing emphasis word once per occurrence. */
  lemma PronunciationCount(rt: Runtime, reference: string, spoken: string, w: string)
    ensures multiset(PronunciationItems(rt, reference, spoken))[MissingWord(w)] ==
      if rt.lower(w) !in SpokenWords(rt, spoken) then multiset(EmphasisWords(reference))[w] else 0
  {
    EmitCount(EmphasisWords(reference), IsMissing(rt, spoken), MissingItem, w);
  }

  lemma CountOfParts(a: seq<Notice>, b: seq<Notice>, c: seq<Notice>, d: seq<Notice>, e: seq<Notice>, f: seq<Notice>, n: Notice)
    ensures multiset(a + b + c + d + e + f)[n] ==
      multiset(a)[n] + multiset(b)[n] + multiset(c)[n] + multiset(d)[n] + multiset(e)[n] + multiset(f)[n]
  {}

  /** How often `n` occurs in a batch, check by check. */
  lemma BatchCount(rt: Runtime, reference: string, spoken: string, n: Notice)
    ensures multiset(Batch(rt, reference, spoken))[n] ==
      multiset(DialectItems(rt, spoken))[n] + multiset(GrammarItems(rt, spoken))[n] + multiset(RateItems(spoken))[n]
      + multiset(PronunciationItems(rt, reference, spoken))[n] + multiset(PauseItems(spoken))[n] + multiset(ToneItems(spoken))[n]
  {
    CountOfParts(DialectItems(rt, spoken), GrammarItems(rt, spoken), RateItems(spoken),
      PronunciationItems(rt, reference, spoken), PauseItems(spoken), ToneItems(spoken), n);
  }

  /** Appending items of a later check keeps a list in stage order. */
  lemma OrderedAppend(a: seq<Notice>, b: seq<Notice>, stage: nat)
    requires InStageOrder(a) && forall k :: 0 <= k < |a| ==> a[k].Stage() <= stage
    requires AllFrom(b, stage)
    ensures InStageOrder(a + b) && forall k :: 0 <= k < |a + b| ==> (a + b)[k].Stage() <= stage
  {
    forall i, j | 0 <= i <= j < |a + b| ensures (a + b)[i].Stage() <= (a + b)[j].Stage() {
      if j < |a| {
        assert (a + b)[i] == a[i] && (a + b)[j] == a[j];
      } else if i < |a| {
        assert (a + b)[i] == a[i] && (a + b)[j] == b[j - |a|];
      } else {
        assert (a + b)[i] == b[i - |a|] && (a + b)[j] == b[j - |a|];
      }
    }
    forall k | 0 <= k < |a + b| ensures (a + b)[k].Stage() <= stage {
      if k < |a| { assert (a + b)[k] == a[k]; } else { assert (a + b)[k] == b[k - |a|]; }
    }
  }

  /** Six runs of items from checks 0 to 5, in that order, are in stage order. */
  lemma OrderedRuns(a: seq<Notice>, b: seq<Notice>, c: seq<Notice>, d: seq<Notice>, e: seq<Notice>, f: seq<Notice>)
    requires AllFrom(a, 0) && AllFrom(b, 1) && AllFrom(c, 2) && AllFrom(d, 3) && AllFrom(e, 4) && AllFrom(f, 5)
    ensures InStageOrder(a + b + c + d + e + f)
  {
    OrderedAppend([], a, 0);
    assert [] + a == a;
    OrderedAppend(a, b, 1);
    OrderedAppend(a + b, c, 2);
    OrderedAppend(a + b + c, d, 3);
    OrderedAppend(a + b + c + d, e, 4);
    OrderedAppend(a + b + c + d + e, f, 5);
  }

  /** The items of a batch come in the order of the checks: dialect, grammar,
      rate, pronunciation, pauses, emphasis. */
  lemma BatchOrder(rt: Runtime, reference: string, spoken: string)
    ensures InStageOrder(Batch(rt, reference, spoken))
  {
    DialectItemsOnly(rt, spoken, TooFast);
    GrammarItemsOnly(rt, spoken, TooFast);
    PronunciationItemsOnly(rt, reference, spoken, TooFast);
    RhythmItemsOnly(spoken, TooFast);
    OrderedRuns(DialectItems(rt, spoken), GrammarItems(rt, spoken), RateItems(spoken),
      PronunciationItems(rt, reference, spoken), PauseItems(spoken), ToneItems(spoken));
  }

  /** At most one rate item: "too fast" exactly when the count exceeds 180, "too
      slow" exactly when it is below 100. */
  lemma BatchRate(rt: Runtime, reference: string, spoken: string)
    ensures multiset(Batch(rt, reference, spoken))[TooFast] == if WordsPerMinute(spoken) > 180 then 1 else 0
    ensures multiset(Batch(rt, reference, spoken))[TooSlow] == if WordsPerMinute(spoken) < 100 then 1 else 0
  {
    BatchRateFast(rt, reference, spoken);
    BatchRateSlow(rt, reference, spoken);
  }

  /** A rhythm item comes from none of the table checks nor the pronunciation check. */
  lemma RhythmNotFromWordChecks(rt: Runtime, reference: string, spoken: string, n: Notice)
    requires n == TooFast || n == TooSlow || n == NoPauses || n == FlatTone
    ensures multiset(DialectItems(rt, spoken))[n] == 0
    ensures multiset(GrammarItems(rt, spoken))[n] == 0
    ensures multiset(PronunciationItems(rt, reference, spoken))[n] == 0
  {
    DialectItemsOnly(rt, spoken, n);
    GrammarItemsOnly(rt, spoken, n);
    PronunciationItemsOnly(rt, reference, spoken, n);
  }

  /** The rate check on its own. */
  lemma RateCount(spoken: string)
    ensures multiset(RateItems(spoken))[TooFast] == if WordsPerMinute(spoken) > 180 then 1 else 0
    ensures multiset(RateItems(spoken))[TooSlow] == if WordsPerMinute(spoken) < 100 then 1 else 0
  {
  }

  /** The pause check on its own. */
  lemma PauseCount(spoken: string)
    ensures multiset(PauseItems(spoken))[NoPauses] == if HasPauseMark(spoken) then 0 else 1
  {
  }

  /** The emphasis check on its own. */
  lemma ToneCount(spoken: string)
    ensures multiset(ToneItems(spoken))[FlatTone] == if AnalyzeEmphasis(spoken) then 0 else 1
  {
  }

  lemma BatchRateFast(rt: Runtime, reference: string, spoken: string)
    ensures multiset(Batch(rt, reference, spoken))[TooFast] == if WordsPerMinute(spoken) > 180 then 1 else 0
  {
    RhythmNotFromWordChecks(rt, reference, spoken, TooFast);
    PauseItemsOnly(spoken, TooFast);
    ToneItemsOnly(spoken, TooFast);
    RateCount(spoken);
    BatchCount(rt, reference, spoken, TooFast);
  }

  lemma BatchRateSlow(rt: Runtime, reference: string, spoken: string)
    ensures multiset(Batch(rt, reference, spoken))[TooSlow] == if WordsPerMinute(spoken) < 100 then 1 else 0
  {
    RhythmNotFromWordChecks(rt, reference, spoken, TooSlow);
    PauseItemsOnly(spoken, TooSlow);
    ToneItemsOnly(spoken, TooSlow);
    RateCount(spoken);
    BatchCount(rt, reference, spoken, TooSlow);
  }

  /** A pause item is raised, once, exactly when the transcript has none of `, . ! ?`. */
  lemma BatchPause(rt: Runtime, reference: string, spoken: string)
    ensures multiset(Batch(rt, reference, spoken))[NoPauses] == if HasPauseMark(spoken) then 0 else 1
  {
    RhythmNotFromWordChecks(rt, reference, spoken, NoPauses);
    RateItemsOnly(spoken, NoPauses);
    ToneItemsOnly(spoken, NoPauses);
    PauseCount(spoken);
    BatchCount(rt, reference, spoken, NoPauses);
  }

  /** An emphasis item is raised, once, exactly when none of the emphasis patterns
      matches the transcript. */
  lemma BatchTone(rt: Runtime, reference: string, spoken: string)
    ensures multiset(Batch(rt, reference, spoken))[FlatTone] == if AnalyzeEmphasis(spoken) then 0 else 1
  {
    RhythmNotFromWordChecks(rt, reference, spoken, FlatTone);
    RateItemsOnly(spoken, FlatTone);
    PauseItemsOnly(spoken, FlatTone);
    ToneCount(spoken);
    BatchCount(rt, reference, spoken, FlatTone);
  }

  /** Every pause mark is also an emphasis mark. */
  lemma PauseMarkIsEmphasis(spoken: string)
    ensures HasPauseMark(spoken) ==> AnalyzeEmphasis(spoken)
  {
    if HasPauseMark(spoken) {
      var k :| 0 <= k < |spoken| && IsPauseMark(spoken[k]);
      assert IsEmphasisMark(spoken[k]);
    }
  }

  /** So a batch with an emphasis item also has a pause item. */
  lemma FlatToneHasNoPauses(rt: Runtime, reference: string, spoken: string)
    ensures FlatTone in Batch(rt, reference, spoken) ==> NoPauses in Batch(rt, reference, spoken)
  {
    BatchTone(rt, reference, spoken);
    BatchPause(rt, reference, spoken);
    PauseMarkIsEmphasis(spoken);
  }

  /** Each dialect entry whose pattern matches yields one item, and the others none. */
  lemma BatchDialect(rt: Runtime, reference: string, spoken: string, r: DialectRule)
    ensures multiset(Batch(rt, reference, spoken))[DialectHit(r)] ==
      if rt.test(r.source, spoken) then multiset(DialectRules)[r] else 0
  {
    DialectCount(rt, spoken, r);
    GrammarItemsOnly(rt, spoken, DialectHit(r));
    PronunciationItemsOnly(rt, reference, spoken, DialectHit(r));
    RhythmItemsOnly(spoken, DialectHit(r));
    BatchCount(rt, reference, spoken, DialectHit(r));
  }

  /** Each grammar entry whose pattern matches yields one item, and the others none. */
  lemma BatchGrammar(rt: Runtime, reference: string, spoken: string, r: GrammarRule)
    ensures multiset(Batch(rt, reference, spoken))[GrammarHit(r)] ==
      if rt.test(r.source, spoken) then multiset(GrammarRules)[r] else 0
  {
    GrammarCount(rt, spoken, r);
    DialectItemsOnly(rt, spoken, GrammarHit(r));
    PronunciationItemsOnly(rt, reference, spoken, GrammarHit(r));
    RhythmItemsOnly(spoken, GrammarHit(r));
    BatchCount(rt, reference, spoken, GrammarHit(r));
  }

  /** The table checks raise no missing-word item. */
  lemma MissingWordNotFromTables(rt: Runtime, spoken: string, w: string)
    ensures multiset(DialectItems(rt, spoken))[MissingWord(w)] == 0
    ensures multiset(GrammarItems(rt, spoken))[MissingWord(w)] == 0
  {
    DialectItemsOnly(rt, spoken, MissingWord(w));
    GrammarItemsOnly(rt, spoken, MissingWord(w));
  }

  /** The rhythm checks raise no missing-word item. */
  lemma MissingWordNotFromRhythm(spoken: string, w: string)
    ensures multiset(RateItems(spoken))[MissingWord(w)] == 0
    ensures multiset(PauseItems(spoken))[MissingWord(w)] == 0
    ensures multiset(ToneItems(spoken))[MissingWord(w)] == 0
  {
    RateItemsOnly(spoken, MissingWord(w));
    PauseItemsOnly(spoken, MissingWord(w));
    ToneItemsOnly(spoken, MissingWord(w));
  }

  /** Missing-word items of a batch are those of the pronunciation check. */
  lemma BatchMissingWords(rt: Runtime, reference: string, spoken: string, w: string)
    ensures multiset(Batch(rt, reference, spoken))[MissingWord(w)] ==
      multiset(PronunciationItems(rt, reference, spoken))[MissingWord(w)]
  {
    MissingWordNotFromTables(rt, spoken, w);
    MissingWordNotFromRhythm(spoken, w);
    BatchCount(rt, reference, spoken, MissingWord(w));
  }

  /** Each emphasis word of the reference text that is missing from the spoken words
      yields one item per occurrence in the reference text. */
  lemma BatchPronunciation(rt: Runtime, reference: string, spoken: string, w: string)
    ensures multiset(Batch(rt, reference, spoken))[MissingWord(w)] ==
      if rt.lower(w) !in SpokenWords(rt, spoken) then multiset(EmphasisWords(reference))[w] else 0
  {
    BatchMissingWords(rt, reference, spoken, w);
    PronunciationCount(rt, reference, spoken, w);
  }

  /** A grammar entry of the table reports its own warning when it has one, and the
      "use the correct form" message otherwise. */
  lemma GrammarTexts(k: nat)
    requires k < |GrammarRules|
    ensures GrammarHit(GrammarRules[k]).Text() ==
      match GrammarRules[k].advice
      case Warn(w) => w
      case Correct(c) => GrammarTemplate(GrammarRules[k].source, c)
  {
    assert "Daha spesifik bir kelime kullanmayı deneyin"[0] == 'D';
    assert "Bağlaç olan 'ki' cümleden çıkarılabilir"[0] == 'B';
  }

  // ---------------------------------------------------------------------------
  // Several analyses in a row
  // ---------------------------------------------------------------------------

  /** The state the analyser reads and writes: the feedback list and the last
      transcript analysed. */
  datatype Trace = Trace(errors: seq<Notice>, last: string)

  /** One call of the analyser: a transcript equal to the last one is skipped;
      otherwise its batch is appended and it becomes the last one. */
  function Step(rt: Runtime, reference: string, tr: Trace, spoken: string): (r: Trace)
    ensures tr.errors <= r.errors && r.last == spoken
    ensures tr.last == spoken ==> r == tr
    ensures tr.last != spoken ==> r.errors[|tr.errors|..] == Batch(rt, reference, spoken)
  {
    if tr.last == spoken then tr
    else Trace(tr.errors + Batch(rt, reference, spoken), spoken)
  }

  /** The calls for a sequence of transcripts, in order. */
  function Replay(rt: Runtime, reference: string, tr: Trace, spokens: seq<string>): (r: Trace)
    ensures spokens == [] ==> r == tr
  {
    if spokens == [] then tr
    else Step(rt, reference, Replay(rt, reference, tr, spokens[..|spokens| - 1]), spokens[|spokens| - 1])
  }

  /** Analyses only ever append: the old list is a prefix of the new one, and the
      last transcript is the last one analysed. */
  lemma {:induction false} ReplayAppends(rt: Runtime, reference: string, tr: Trace, spokens: seq<string>)
    ensures tr.errors <= Replay(rt, reference, tr, spokens).errors
    ensures spokens != [] ==> Replay(rt, reference, tr, spokens).last == spokens[|spokens| - 1]
  {
    if spokens != [] {
      ReplayAppends(rt, reference, tr, spokens[..|spokens| - 1]);
    }
  }

  /** Replaying two runs of transcripts is replaying one after the other. */
  lemma {:induction false} ReplayConcat(rt: Runtime, reference: string, tr: Trace, a: seq<string>, b: seq<string>)
    ensures Replay(rt, reference, tr, a + b) == Replay(rt, reference, Replay(rt, reference, tr, a), b)
    decreases |b|
  {
    if b == [] {
      assert a + b == a;
    } else {
      ReplayConcat(rt, reference, tr, a, b[..|b| - 1]);
      assert (a + b)[..|a + b| - 1] == a + b[..|b| - 1];
    }
  }

  /** One more transcript is one more call of the analyser. */
  lemma ReplaySnoc(rt: Runtime, reference: string, tr: Trace, spokens: seq<string>, s: string)
    ensures Replay(rt, reference, tr, spokens + [s]) == Step(rt, reference, Replay(rt, reference, tr, spokens), s)
  {
    assert (spokens + [s])[..|spokens|] == spokens;
  }

  /** The same transcript twice in a row is analysed once. */
  lemma ReplayRepeat(rt: Runtime, reference: string, tr: Trace, spokens: seq<string>, s: string)
    ensures Replay(rt, reference, tr, spokens + [s, s]) == Replay(rt, reference, tr, spokens + [s])
  {
    ReplayConcat(rt, reference, tr, spokens + [s], [s]);
    assert spokens + [s, s] == (spokens + [s]) + [s];
  }
}
