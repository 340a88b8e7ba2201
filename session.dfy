/** The state of the training screen and the handlers that change it: analysing a
    transcript, delivering recognition results, switching the sample text and
    starting or stopping a recording. */
module Sessions {
  import opened TextOps
  import opened Rules
  import opened Analysis

  /** One result of the speech recogniser: its best transcript and whether it is final. */
  datatype Segment = Segment(transcript: string, isFinal: bool)

  /** A result event: all results of the recording so far, and the index of the
      first one that changed. */
  datatype ResultEvent = ResultEvent(resultIndex: nat, results: seq<Segment>)

  /** The transcripts of the final segments, in order. */
  function Finals(segments: seq<Segment>): (r: seq<string>)
    ensures |r| <= |segments|
  {
    if segments == [] then []
    else
      var last := segments[|segments| - 1];
      Finals(segments[..|segments| - 1]) + (if last.isFinal then [last.transcript] else [])
  }

  /** A transcript is among the finals exactly when some final segment carries it. */
  lemma {:induction false} FinalsMember(segments: seq<Segment>, t: string)
    ensures t in Finals(segments) <==>
      exists k :: 0 <= k < |segments| && segments[k].isFinal && segments[k].transcript == t
  {
    if segments != [] {
      var init := segments[..|segments| - 1];
      FinalsMember(init, t);
      assert forall k :: 0 <= k < |init| ==> init[k] == segments[k];
    }
  }

  /** One more segment adds its transcript when it is final. */
  lemma FinalsSnoc(segments: seq<Segment>, last: Segment)
    ensures last.isFinal ==> Finals(segments + [last]) == Finals(segments) + [last.transcript]
    ensures !last.isFinal ==> Finals(segments + [last]) == Finals(segments)
  {
    assert (segments + [last])[..|segments|] == segments;
  }

  /** The strings joined in order. */
  function Concat(parts: seq<string>): (r: string)
    ensures |r| >= if parts == [] then 0 else |parts[|parts| - 1]|
  {
    if parts == [] then "" else Concat(parts[..|parts| - 1]) + parts[|parts| - 1]
  }

  lemma ConcatSnoc(parts: seq<string>, t: string)
    ensures Concat(parts + [t]) == Concat(parts) + t
  {
    assert (parts + [t])[..|parts|] == parts;
  }

  /** The results that the handler looks at: from `resultIndex` to the end. */
  function Pending(ev: ResultEvent): seq<Segment>
  {
    if ev.resultIndex <= |ev.results| then ev.results[ev.resultIndex..] else []
  }

  /** The results the handler has gone through when its index has reached `i`. */
  ghost function Done(ev: ResultEvent, i: nat): seq<Segment>
  {
    if ev.resultIndex <= i <= |ev.results| then ev.results[ev.resultIndex..i] else []
  }

  lemma DoneStep(ev: ResultEvent, i: nat)
    requires ev.resultIndex <= i < |ev.results|
    ensures Done(ev, i + 1) == Done(ev, i) + [ev.results[i]]
  {
    assert ev.results[ev.resultIndex..i + 1] == ev.results[ev.resultIndex..i] + [ev.results[i]];
  }

  /** Before the loop, no result has been gone through. */
  lemma DoneNone(ev: ResultEvent)
    ensures Finals(Done(ev, ev.resultIndex)) == []
  {
  }

  /** When the loop stops, it has gone through every pending result. */
  lemma DoneAll(ev: ResultEvent, i: nat)
    requires ev.resultIndex <= i && |ev.results| <= i
    requires i <= |ev.results| || i == ev.resultIndex
    ensures Done(ev, i) == Pending(ev)
  {
  }

  /** Going through one more result: a final one adds its transcript to the
      recorded text and one analyser call to the trace; any other changes
      neither. */
  lemma DeliverStep(rt: Runtime, reference: string, start: Trace, ev: ResultEvent, i: nat)
    requires ev.resultIndex <= i < |ev.results|
    ensures ev.results[i].isFinal ==>
      Concat(Finals(Done(ev, i + 1))) == Concat(Finals(Done(ev, i))) + ev.results[i].transcript &&
      Replay(rt, reference, start, Finals(Done(ev, i + 1))) ==
        Step(rt, reference, Replay(rt, reference, start, Finals(Done(ev, i))), ev.results[i].transcript)
    ensures !ev.results[i].isFinal ==> Finals(Done(ev, i + 1)) == Finals(Done(ev, i))
  {
    var segment := ev.results[i];
    DoneStep(ev, i);
    FinalsSnoc(Done(ev, i), segment);
    if segment.isFinal {
      ConcatSnoc(Finals(Done(ev, i)), segment.transcript);
      ReplaySnoc(rt, reference, start, Finals(Done(ev, i)), segment.transcript);
    }
  }

  class Session {
    /** The regular-expression engine and lower-casing of the browser. */
    const rt: Runtime
    /** The sample texts the screen cycles through; the constructor sets it to
        `SampleTexts`. */
    const catalog: seq<SampleText>
    var isRecording: bool
    var currentTextIndex: nat
    /** The contents of the text box. */
    var text: string
    var recordedText: string
    var errors: seq<Notice>
    /** The last transcript analysed. */
    var lastAnalysis: string

    ghost predicate Valid()
      reads this
    {
      currentTextIndex < |catalog|
    }

    /** The catalog text whose emphasis words the speaker is expected to say. */
    function Reference(): string
      reads this
      requires Valid()
    {
      catalog[currentTextIndex].Content()
    }

    constructor (rt: Runtime)
      ensures Valid() && this.rt == rt && catalog == SampleTexts
      ensures !isRecording && currentTextIndex == 0 && text == SampleTexts[0].Content()
      ensures recordedText == "" && errors == [] && lastAnalysis == ""
    {
      this.rt := rt;
      catalog := SampleTexts;
      isRecording := false;
      currentTextIndex := 0;
      text := SampleTexts[0].Content();
      recordedText := "";
      errors := [];
      lastAnalysis := "";
    }

    /** `analyzeText` as captured by a render in which the sample text on screen
        was `reference`: a transcript equal to the last one analysed changes
        nothing; any other is analysed against that sample text and its notices
        are appended. */
    method AnalyzeText(spoken: string, reference: string)
      modifies this`errors, this`lastAnalysis
      ensures Trace(errors, lastAnalysis) ==
        Step(rt, reference, Trace(old(errors), old(lastAnalysis)), spoken)
    {
      if lastAnalysis == spoken {
        return;
      }
      lastAnalysis := spoken;
      var newErrors := CollectNotices(reference, spoken);
      errors := errors + newErrors;
    }

    /** The six checks of `analyzeText`, in order, pushing onto one list. */
    method CollectNotices(reference: string, spoken: string) returns (newErrors: seq<Notice>)
      ensures newErrors == Batch(rt, reference, spoken)
    {
      newErrors := DialectPass(spoken);
      var grammar := GrammarPass(spoken);
      newErrors := newErrors + grammar;

      var wordsPerMinute := WordsPerMinute(spoken);
      if wordsPerMinute > 180 {
        newErrors := newErrors + [TooFast];
      } else if wordsPerMinute < 100 {
        newErrors := newErrors + [TooSlow];
      }
      assert newErrors == DialectItems(rt, spoken) + GrammarItems(rt, spoken) + RateItems(spoken);

      var missing := PronunciationPass(reference, spoken);
      newErrors := newErrors + missing;

      if !HasPauseMark(spoken) {
        newErrors := newErrors + [NoPauses];
      }
      assert newErrors == DialectItems(rt, spoken) + GrammarItems(rt, spoken) + RateItems(spoken)
        + PronunciationItems(rt, reference, spoken) + PauseItems(spoken);
      if !AnalyzeEmphasis(spoken) {
        newErrors := newErrors + [FlatTone];
      }
    }

    /** The dialect table, entry by entry. */
    method DialectPass(spoken: string) returns (items: seq<Notice>)
      ensures items == DialectItems(rt, spoken)
    {
      items := [];
      var k := 0;
      while k < |DialectRules|
        invariant k <= |DialectRules|
        invariant items == Emit(DialectRules[..k], DialectMatches(rt, spoken), DialectItem)
      {
        var rule := DialectRules[k];
        if rt.test(rule.source, spoken) {
          items := items + [DialectHit(rule)];
        }
        assert DialectRules[..k + 1][..k] == DialectRules[..k];
        k := k + 1;
      }
      assert DialectRules[..k] == DialectRules;
    }

    /** The grammar table, entry by entry. */
    method GrammarPass(spoken: string) returns (items: seq<Notice>)
      ensures items == GrammarItems(rt, spoken)
    {
      items := [];
      var k := 0;
      while k < |GrammarRules|
        invariant k <= |GrammarRules|
        invariant items == Emit(GrammarRules[..k], GrammarMatches(rt, spoken), GrammarItem)
      {
        var rule := GrammarRules[k];
        if rt.test(rule.source, spoken) {
          items := items + [GrammarHit(rule)];
        }
        assert GrammarRules[..k + 1][..k] == GrammarRules[..k];
        k := k + 1;
      }
      assert GrammarRules[..k] == GrammarRules;
    }

    /** The emphasis words of `reference`, word by word, against the spoken words. */
    method PronunciationPass(reference: string, spoken: string) returns (items: seq<Notice>)
      ensures items == PronunciationItems(rt, reference, spoken)
    {
      var emphasisWords := EmphasisWords(reference);
      var spokenWords := SplitOn(rt.lower(spoken), ' ');
      items := [];
      var k := 0;
      while k < |emphasisWords|
        invariant k <= |emphasisWords|
        invariant items == Emit(emphasisWords[..k], IsMissing(rt, spoken), MissingItem)
      {
        var word := emphasisWords[k];
        if rt.lower(word) !in spokenWords {
          items := items + [MissingWord(word)];
        }
        assert emphasisWords[..k + 1][..k] == emphasisWords[..k];
        k := k + 1;
      }
      assert emphasisWords[..k] == emphasisWords;
    }

    /** `recognition.onresult` with the handler analysing against the sample text
        on screen: every final segment from `resultIndex` on is analysed in order,
        and the recorded text becomes their concatenation. */
    method OnResult(ev: ResultEvent)
      requires Valid()
      modifies this`errors, this`lastAnalysis, this`recordedText
      ensures Trace(errors, lastAnalysis) ==
        Replay(rt, Reference(), Trace(old(errors), old(lastAnalysis)), Finals(Pending(ev)))
      ensures recordedText == Concat(Finals(Pending(ev)))
    {
      DeliverResults(ev, Reference());
    }

    /** `recognition.onresult` as the app installs it: the handler is created once,
        on the first render, so the `analyzeText` it calls always sees the first
        sample text, whichever one is on screen. */
    method OnResultAsWritten(ev: ResultEvent)
      requires Valid()
      modifies this`errors, this`lastAnalysis, this`recordedText
      ensures Trace(errors, lastAnalysis) ==
        Replay(rt, catalog[0].Content(), Trace(old(errors), old(lastAnalysis)), Finals(Pending(ev)))
      ensures recordedText == Concat(Finals(Pending(ev)))
    {
      DeliverResults(ev, catalog[0].Content());
    }

    /** The loop of the result handler, calling the `analyzeText` that sees `reference`. */
    method DeliverResults(ev: ResultEvent, reference: string)
      modifies this`errors, this`lastAnalysis, this`recordedText
      ensures Trace(errors, lastAnalysis) ==
        Replay(rt, reference, Trace(old(errors), old(lastAnalysis)), Finals(Pending(ev)))
      ensures recordedText == Concat(Finals(Pending(ev)))
    {
      ghost var start := Trace(errors, lastAnalysis);
      var finalTranscript := "";
      var i := ev.resultIndex;
      DoneNone(ev);
      while i < |ev.results|
        invariant ev.resultIndex <= i
        invariant i <= |ev.results| || i == ev.resultIndex
        invariant finalTranscript == Concat(Finals(Done(ev, i)))
        invariant Trace(errors, lastAnalysis) == Replay(rt, reference, start, Finals(Done(ev, i)))
      {
        finalTranscript := DeliverSegment(ev, i, reference, start, finalTranscript);
        i := i + 1;
      }
      DoneAll(ev, i);
      recordedText := finalTranscript;
    }

    /** One turn of the result handler's loop. */
    method DeliverSegment(ev: ResultEvent, i: nat, reference: string, ghost start: Trace, soFar: string)
      returns (text: string)
      requires ev.resultIndex <= i < |ev.results|
      requires soFar == Concat(Finals(Done(ev, i)))
      requires Trace(errors, lastAnalysis) == Replay(rt, reference, start, Finals(Done(ev, i)))
      modifies this`errors, this`lastAnalysis
      ensures text == Concat(Finals(Done(ev, i + 1)))
      ensures Trace(errors, lastAnalysis) == Replay(rt, reference, start, Finals(Done(ev, i + 1)))
    {
      var segment := ev.results[i];
      DeliverStep(rt, reference, start, ev, i);
      text := soFar;
      if segment.isFinal {
        text := soFar + segment.transcript;
        AnalyzeText(segment.transcript, reference);
      }
    }

    /** `changeText`: the next sample text, cyclically; the text box shows it and
        the feedback is cleared. The last transcript analysed is kept. */
    method ChangeText()
      requires Valid()
      modifies this`currentTextIndex, this`text, this`errors
      ensures Valid()
      ensures currentTextIndex == (old(currentTextIndex) + 1) % |catalog|
      ensures text == catalog[currentTextIndex].Content()
      ensures errors == []
    {
      var nextIndex := (currentTextIndex + 1) % |catalog|;
      currentTextIndex := nextIndex;
      text := catalog[nextIndex].Content();
      errors := [];
    }

    /** The text box's change handler. The analyser never reads `text`. */
    method EditText(value: string)
      modifies this`text
      ensures text == value
    {
      text := value;
    }

    /** `startRecording`: the feedback is cleared; the last transcript analysed is kept. */
    method StartRecording()
      modifies this`isRecording, this`errors
      ensures isRecording && errors == []
    {
      isRecording := true;
      errors := [];
    }

    method StopRecording()
      modifies this`isRecording
      ensures !isRecording
    {
      isRecording := false;
    }
  }

  /** A runtime in which no table pattern matches and lower-casing changes nothing. */
  function QuietRuntime(): Runtime
  {
    Runtime((source: string, s: string) => false, (s: string) => s)
  }

  /** With the quiet runtime, an emphasis word that is not one of the transcript's
      space-separated words is reported missing as often as the reference lists it. */
  lemma QuietMissing(reference: string, spoken: string, w: string)
    requires w !in SplitOn(spoken, ' ')
    ensures multiset(Batch(QuietRuntime(), reference, spoken))[MissingWord(w)] == multiset(EmphasisWords(reference))[w]
  {
    BatchPronunciation(QuietRuntime(), reference, spoken, w);
  }

  /** Under the quiet runtime one transcript tells two references apart as soon as
      one lists an emphasis word that the other does not and the speaker did not
      say it. */
  lemma QuietBatchesDiffer(first: string, second: string, spoken: string, w: string)
    requires w !in SplitOn(spoken, ' ')
    requires w in EmphasisWords(first) && w !in EmphasisWords(second)
    ensures Batch(QuietRuntime(), first, spoken) != Batch(QuietRuntime(), second, spoken)
  {
    QuietMissing(first, spoken, w);
    QuietMissing(second, spoken, w);
  }

  /** From a state that has analysed nothing, one final transcript that leaves out
      an emphasis word of `first` but not of `second` ends in different states
      depending on which of the two references the analyser sees. */
  lemma QuietReplaysDiffer(first: string, second: string, spoken: string, w: string)
    requires spoken != ""
    requires w !in SplitOn(spoken, ' ')
    requires w in EmphasisWords(first) && w !in EmphasisWords(second)
    ensures Replay(QuietRuntime(), first, Trace([], ""), [spoken]) !=
            Replay(QuietRuntime(), second, Trace([], ""), [spoken])
  {
    QuietBatchesDiffer(first, second, spoken, w);
    ReplaySnoc(QuietRuntime(), first, Trace([], ""), [], spoken);
    ReplaySnoc(QuietRuntime(), second, Trace([], ""), [], spoken);
    assert [] + [spoken] == [spoken];
  }

  /** "merhaba" is one word to the pronunciation check. */
  lemma MerhabaWords()
    ensures SplitOn("merhaba", ' ') == ["merhaba"]
  {
    var s := "merhaba";
    assert forall j | 0 <= j < |s| :: s[j] != ' ';
    FindCharNone(s, ' ', 0);
  }

  /** "erkenden" is a stress word of the first sample text and not of the second. */
  lemma ErkendenOnlyInFirst()
    ensures "erkenden" in BaharSabahi.stress && "erkenden" !in DenizKenarinda.stress
  {
    assert "erkenden"[0] == 'e';
    assert "dalgaların"[0] == 'd' && "süzülürken"[0] == 's' && "ferahlattı"[0] == 'f';
  }

  /** From the initial state, the final transcript "merhaba" analysed against the
      first sample text (`BaharSabahi`, what the handler as written sees) leaves a
      different state from the same transcript analysed against the second
      (`DenizKenarinda`, on screen after one `changeText`): the first reports its
      "erkenden" as missing, the second does not. */
  lemma StaleReferenceCounterexample()
    ensures Replay(QuietRuntime(), BaharSabahi.Content(), Trace([], ""), ["merhaba"]) !=
            Replay(QuietRuntime(), DenizKenarinda.Content(), Trace([], ""), ["merhaba"])
  {
    BaharSabahiStressWords();
    DenizKenarindaStressWords();
    MerhabaWords();
    ErkendenOnlyInFirst();
    assert "erkenden" != "merhaba";
    QuietReplaysDiffer(BaharSabahi.Content(), DenizKenarinda.Content(), "merhaba", "erkenden");
  }
}
