/** The fixed tables of the training app: the dialect and grammar rules that the
    transcript analyser runs, and the catalog of sample texts to read aloud. */
module Rules {
  import opened TextOps

  /** A dialect rule: a case-insensitive regular expression, given by its source
      text, and the standard form the speaker should use instead. */
  datatype DialectRule = DialectRule(source: string, correct: string)

  /** What a grammar rule offers: a corrected form, or a warning of its own. */
  datatype Advice = Correct(form: string) | Warn(warning: string)

  /** A grammar rule: a case-insensitive regular expression, given by its source
      text, and its advice. */
  datatype GrammarRule = GrammarRule(source: string, advice: Advice)

  /** A catalog entry: a title, a passage to read, the words to stress and a note on
      where to pause. */
  datatype SampleText = SampleText(title: string, passage: string, stress: seq<string>, pauses: string)
  {
    /** The text shown to the speaker: the passage, then the stressed words each in
        double quotes and separated by commas, then the pause note. */
    function Content(): string
    {
      Markup(Gaps(), stress)
    }

    /** The text around and between the quoted stress words of `Content`. */
    function Gaps(): (g: seq<string>)
      ensures |g| == |stress| + 1
    {
      if stress == [] then [passage + StressHeading + PauseHeading + pauses]
      else [passage + StressHeading] + Separators(|stress| - 1) + [PauseHeading + pauses]
    }
  }

  const StressHeading := "\n\nVurgulanacak kelimeler: "
  const PauseHeading := "\nDuraklamalar: "

  /** The commas between `n + 1` quoted stress words. */
  function Separators(n: nat): seq<string>
  {
    seq(n, _ => ", ")
  }

  /** Regional and colloquial forms of Istanbul Turkish, each with its standard form. */
  const DialectRules: seq<DialectRule> := [
    DialectRule("geliy(o|e)m", "geliyorum"),
    DialectRule("yapıy(o|e)m", "yapıyorum"),
    DialectRule("gidiy(o|e)m", "gidiyorum"),
    DialectRule("\\b[a-zğüşıöç]+caz\\b", "ğız/eceğiz"),
    DialectRule("\\bnaber\\b", "nasılsın"),
    DialectRule("\\bhadi\\b", "haydi"),
    DialectRule("\\bkıral\\b", "kral"),
    DialectRule("\\btıren\\b", "tren"),
    DialectRule("\\bilazım\\b", "lazım"),
    DialectRule("\\bbuğün\\b", "bugün"),
    DialectRule("\\bheralde\\b", "herhalde"),
    DialectRule("\\byalnış\\b", "yanlış")
  ]

  /** Common misuses, each with a correction or a warning. */
  const GrammarRules: seq<GrammarRule> := [
    GrammarRule("de ki", Correct("deki")),
    GrammarRule("\\bşey\\b", Warn("Daha spesifik bir kelime kullanmayı deneyin")),
    GrammarRule("yalnız ki", Correct("yalnızki")),
    GrammarRule("her hangi", Correct("herhangi")),
    GrammarRule("bir kaç", Correct("birkaç")),
    GrammarRule("hiç bir", Correct("hiçbir")),
    GrammarRule("öyle ki", Correct("öyleki")),
    GrammarRule("\\bki\\b", Warn("Bağlaç olan 'ki' cümleden çıkarılabilir"))
  ]

  // The sample texts, one constant each; long literals are written as joined pieces.

  const BaharSabahi := SampleText(
    "Bahar Sabahı",
    "Sabah erkenden uyandım. " +
    "Pencereyi açtığımda içeriye " +
    "taze bir bahar havası " +
    "doldu! Kuşların cıvıltısı, " +
    "çiçeklerin kokusu beni " +
    "büyüledi.",
    ["erkenden", "taze", "bahar", "büyüledi"],
    "Noktalama işaretlerinde ve " +
    "vurgulu kelimelerin " +
    "öncesinde.")

  const DenizKenarinda := SampleText(
    "Deniz Kenarında",
    "Dalgaların sesi kulağıma " +
    "geliyordu. Martılar " +
    "gökyüzünde süzülürken, " +
    "sahilde yürüyen insanları " +
    "izledim. Denizin kokusu " +
    "içimi ferahlattı.",
    ["dalgaların", "süzülürken", "ferahlattı"],
    "Virgüllerde kısa, " +
    "noktalarda uzun duraklar " +
    "yapın.")

  const SonbaharAksami := SampleText(
    "Sonbahar Akşamı",
    "Rüzgar yaprakları dans " +
    "ettiriyordu. Gökyüzü " +
    "turuncu ve mor renklere " +
    "büründü. Akşamın serinliği " +
    "yavaş yavaş kendini " +
    "hissettirmeye başladı.",
    ["dans", "turuncu", "serinliği", "hissettirmeye"],
    "Her cümle sonunda ve " +
    "vurgulu kelimelerden önce.")

  const YagmurluBirGun := SampleText(
    "Yağmurlu Bir Gün",
    "Yağmur damlaları pencereme " +
    "vuruyor, rüzgar ağaçları " +
    "sallıyordu. Sokakta " +
    "şemsiyeli insanlar telaşla " +
    "yürüyor, arabalar su " +
    "birikintilerinden geçerken " +
    "sıçrayan damlalar " +
    "kaldırımdakileri " +
    "ıslatıyordu.",
    ["vuruyor", "telaşla", "sıçrayan", "ıslatıyordu"],
    "Virgüllerde ve cümle " +
    "sonlarında yapılacak.")

  const KisGecesi := SampleText(
    "Kış Gecesi",
    "Kar taneleri sessizce " +
    "yağarken, sıcacık evimde " +
    "pencereden dışarıyı " +
    "seyrediyordum. Sokak " +
    "lambaları karın " +
    "beyazlığında daha bir " +
    "parlak görünüyordu. Uzaktan " +
    "gelen çocuk sesleri kış " +
    "gecesine ayrı bir neşe " +
    "katıyordu.",
    ["sessizce", "sıcacık", "parlak", "neşe"],
    "Noktalama işaretlerinde ve " +
    "vurgulu kelimelerin " +
    "öncesinde.")

  /** The catalog of texts to read aloud, in the order the app cycles through them. */
  const SampleTexts: seq<SampleText> := [BaharSabahi, DenizKenarinda, SonbaharAksami, YagmurluBirGun, KisGecesi]

  // No part of an entry holds a double quote, so each entry hands the analyser
  // back exactly the words it asks to stress.

  lemma BaharSabahiQuoteFree()
    ensures '"' !in BaharSabahi.passage && '"' !in BaharSabahi.pauses
  {
    var p0, p1, p2, p3, p4, p5 := "Sabah erkenden uyandım. ", "Pencereyi açtığımda içeriye ", "taze bir bahar havası ", "doldu! Kuşların cıvıltısı, ", "çiçeklerin kokusu beni ", "büyüledi.";
    assert forall j | 0 <= j < |p0| :: p0[j] != '"';
    assert forall j | 0 <= j < |p1| :: p1[j] != '"';
    assert forall j | 0 <= j < |p2| :: p2[j] != '"';
    assert forall j | 0 <= j < |p3| :: p3[j] != '"';
    assert forall j | 0 <= j < |p4| :: p4[j] != '"';
    assert forall j | 0 <= j < |p5| :: p5[j] != '"';
    QuoteFreeAppend(p0, p1);
    QuoteFreeAppend(p0 + p1, p2);
    QuoteFreeAppend(p0 + p1 + p2, p3);
    QuoteFreeAppend(p0 + p1 + p2 + p3, p4);
    QuoteFreeAppend(p0 + p1 + p2 + p3 + p4, p5);
    assert BaharSabahi.passage == p0 + p1 + p2 + p3 + p4 + p5;
    var q0, q1, q2 := "Noktalama işaretlerinde ve ", "vurgulu kelimelerin ", "öncesinde.";
    assert forall j | 0 <= j < |q0| :: q0[j] != '"';
    assert forall j | 0 <= j < |q1| :: q1[j] != '"';
    assert forall j | 0 <= j < |q2| :: q2[j] != '"';
    QuoteFreeAppend(q0, q1);
    QuoteFreeAppend(q0 + q1, q2);
    assert BaharSabahi.pauses == q0 + q1 + q2;
  }

  lemma BaharSabahiStressWords()
    ensures EmphasisWords(BaharSabahi.Content()) == BaharSabahi.stress
  {
    BaharSabahiQuoteFree();
    assert forall k :: 0 <= k < |BaharSabahi.stress| ==> BaharSabahi.stress[k] != [] && '"' !in BaharSabahi.stress[k];
    StressWordsOfContent(BaharSabahi);
  }

  lemma DenizKenarindaQuoteFree()
    ensures '"' !in DenizKenarinda.passage && '"' !in DenizKenarinda.pauses
  {
    var p0, p1, p2, p3, p4, p5 := "Dalgaların sesi kulağıma ", "geliyordu. Martılar ", "gökyüzünde süzülürken, ", "sahilde yürüyen insanları ", "izledim. Denizin kokusu ", "içimi ferahlattı.";
    assert forall j | 0 <= j < |p0| :: p0[j] != '"';
    assert forall j | 0 <= j < |p1| :: p1[j] != '"';
    assert forall j | 0 <= j < |p2| :: p2[j] != '"';
    assert forall j | 0 <= j < |p3| :: p3[j] != '"';
    assert forall j | 0 <= j < |p4| :: p4[j] != '"';
    assert forall j | 0 <= j < |p5| :: p5[j] != '"';
    QuoteFreeAppend(p0, p1);
    QuoteFreeAppend(p0 + p1, p2);
    QuoteFreeAppend(p0 + p1 + p2, p3);
    QuoteFreeAppend(p0 + p1 + p2 + p3, p4);
    QuoteFreeAppend(p0 + p1 + p2 + p3 + p4, p5);
    assert DenizKenarinda.passage == p0 + p1 + p2 + p3 + p4 + p5;
    var q0, q1, q2 := "Virgüllerde kısa, ", "noktalarda uzun duraklar ", "yapın.";
    assert forall j | 0 <= j < |q0| :: q0[j] != '"';
    assert forall j | 0 <= j < |q1| :: q1[j] != '"';
    assert forall j | 0 <= j < |q2| :: q2[j] != '"';
    QuoteFreeAppend(q0, q1);
    QuoteFreeAppend(q0 + q1, q2);
    assert DenizKenarinda.pauses == q0 + q1 + q2;
  }

  lemma DenizKenarindaStressWords()
    ensures EmphasisWords(DenizKenarinda.Content()) == DenizKenarinda.stress
  {
    DenizKenarindaQuoteFree();
    assert forall k :: 0 <= k < |DenizKenarinda.stress| ==> DenizKenarinda.stress[k] != [] && '"' !in DenizKenarinda.stress[k];
    StressWordsOfContent(DenizKenarinda);
  }

  lemma SonbaharAksamiQuoteFree()
    ensures '"' !in SonbaharAksami.passage && '"' !in SonbaharAksami.pauses
  {
    var p0, p1, p2, p3, p4, p5 := "Rüzgar yaprakları dans ", "ettiriyordu. Gökyüzü ", "turuncu ve mor renklere ", "büründü. Akşamın serinliği ", "yavaş yavaş kendini ", "hissettirmeye başladı.";
    assert forall j | 0 <= j < |p0| :: p0[j] != '"';
    assert forall j | 0 <= j < |p1| :: p1[j] != '"';
    assert forall j | 0 <= j < |p2| :: p2[j] != '"';
    assert forall j | 0 <= j < |p3| :: p3[j] != '"';
    assert forall j | 0 <= j < |p4| :: p4[j] != '"';
    assert forall j | 0 <= j < |p5| :: p5[j] != '"';
    QuoteFreeAppend(p0, p1);
    QuoteFreeAppend(p0 + p1, p2);
    QuoteFreeAppend(p0 + p1 + p2, p3);
    QuoteFreeAppend(p0 + p1 + p2 + p3, p4);
    QuoteFreeAppend(p0 + p1 + p2 + p3 + p4, p5);
    assert SonbaharAksami.passage == p0 + p1 + p2 + p3 + p4 + p5;
    var q0, q1 := "Her cümle sonunda ve ", "vurgulu kelimelerden önce.";
    assert forall j | 0 <= j < |q0| :: q0[j] != '"';
    assert forall j | 0 <= j < |q1| :: q1[j] != '"';
    QuoteFreeAppend(q0, q1);
    assert SonbaharAksami.pauses == q0 + q1;
  }

  lemma SonbaharAksamiStressWords()
    ensures EmphasisWords(SonbaharAksami.Content()) == SonbaharAksami.stress
  {
    SonbaharAksamiQuoteFree();
    assert forall k :: 0 <= k < |SonbaharAksami.stress| ==> SonbaharAksami.stress[k] != [] && '"' !in SonbaharAksami.stress[k];
    StressWordsOfContent(SonbaharAksami);
  }

  lemma YagmurluBirGunQuoteFree()
    ensures '"' !in YagmurluBirGun.passage && '"' !in YagmurluBirGun.pauses
  {
    var p0, p1, p2, p3, p4, p5, p6, p7, p8 := "Yağmur damlaları pencereme ", "vuruyor, rüzgar ağaçları ", "sallıyordu. Sokakta ", "şemsiyeli insanlar telaşla ", "yürüyor, arabalar su ", "birikintilerinden geçerken ", "sıçrayan damlalar ", "kaldırımdakileri ", "ıslatıyordu.";
    assert forall j | 0 <= j < |p0| :: p0[j] != '"';
    assert forall j | 0 <= j < |p1| :: p1[j] != '"';
    assert forall j | 0 <= j < |p2| :: p2[j] != '"';
    assert forall j | 0 <= j < |p3| :: p3[j] != '"';
    assert forall j | 0 <= j < |p4| :: p4[j] != '"';
    assert forall j | 0 <= j < |p5| :: p5[j] != '"';
    assert forall j | 0 <= j < |p6| :: p6[j] != '"';
    assert forall j | 0 <= j < |p7| :: p7[j] != '"';
    assert forall j | 0 <= j < |p8| :: p8[j] != '"';
    QuoteFreeAppend(p0, p1);
    QuoteFreeAppend(p0 + p1, p2);
    QuoteFreeAppend(p0 + p1 + p2, p3);
    QuoteFreeAppend(p0 + p1 + p2 + p3, p4);
    QuoteFreeAppend(p0 + p1 + p2 + p3 + p4, p5);
    QuoteFreeAppend(p0 + p1 + p2 + p3 + p4 + p5, p6);
    QuoteFreeAppend(p0 + p1 + p2 + p3 + p4 + p5 + p6, p7);
    QuoteFreeAppend(p0 + p1 + p2 + p3 + p4 + p5 + p6 + p7, p8);
    assert YagmurluBirGun.passage == p0 + p1 + p2 + p3 + p4 + p5 + p6 + p7 + p8;
    var q0, q1 := "Virgüllerde ve cümle ", "sonlarında yapılacak.";
    assert forall j | 0 <= j < |q0| :: q0[j] != '"';
    assert forall j | 0 <= j < |q1| :: q1[j] != '"';
    QuoteFreeAppend(q0, q1);
    assert YagmurluBirGun.pauses == q0 + q1;
  }

  lemma YagmurluBirGunStressWords()
    ensures EmphasisWords(YagmurluBirGun.Content()) == YagmurluBirGun.stress
  {
    YagmurluBirGunQuoteFree();
    assert forall k :: 0 <= k < |YagmurluBirGun.stress| ==> YagmurluBirGun.stress[k] != [] && '"' !in YagmurluBirGun.stress[k];
    StressWordsOfContent(YagmurluBirGun);
  }

  lemma KisGecesiQuoteFree()
    ensures '"' !in KisGecesi.passage && '"' !in KisGecesi.pauses
  {
    var p0, p1, p2, p3, p4, p5, p6, p7, p8, p9 := "Kar taneleri sessizce ", "yağarken, sıcacık evimde ", "pencereden dışarıyı ", "seyrediyordum. Sokak ", "lambaları karın ", "beyazlığında daha bir ", "parlak görünüyordu. Uzaktan ", "gelen çocuk sesleri kış ", "gecesine ayrı bir neşe ", "katıyordu.";
    assert forall j | 0 <= j < |p0| :: p0[j] != '"';
    assert forall j | 0 <= j < |p1| :: p1[j] != '"';
    assert forall j | 0 <= j < |p2| :: p2[j] != '"';
    assert forall j | 0 <= j < |p3| :: p3[j] != '"';
    assert forall j | 0 <= j < |p4| :: p4[j] != '"';
    assert forall j | 0 <= j < |p5| :: p5[j] != '"';
    assert forall j | 0 <= j < |p6| :: p6[j] != '"';
    assert forall j | 0 <= j < |p7| :: p7[j] != '"';
    assert forall j | 0 <= j < |p8| :: p8[j] != '"';
    assert forall j | 0 <= j < |p9| :: p9[j] != '"';
    QuoteFreeAppend(p0, p1);
    QuoteFreeAppend(p0 + p1, p2);
    QuoteFreeAppend(p0 + p1 + p2, p3);
    QuoteFreeAppend(p0 + p1 + p2 + p3, p4);
    QuoteFreeAppend(p0 + p1 + p2 + p3 + p4, p5);
    QuoteFreeAppend(p0 + p1 + p2 + p3 + p4 + p5, p6);
    QuoteFreeAppend(p0 + p1 + p2 + p3 + p4 + p5 + p6, p7);
    QuoteFreeAppend(p0 + p1 + p2 + p3 + p4 + p5 + p6 + p7, p8);
    QuoteFreeAppend(p0 + p1 + p2 + p3 + p4 + p5 + p6 + p7 + p8, p9);
    assert KisGecesi.passage == p0 + p1 + p2 + p3 + p4 + p5 + p6 + p7 + p8 + p9;
    var q0, q1, q2 := "Noktalama işaretlerinde ve ", "vurgulu kelimelerin ", "öncesinde.";
    assert forall j | 0 <= j < |q0| :: q0[j] != '"';
    assert forall j | 0 <= j < |q1| :: q1[j] != '"';
    assert forall j | 0 <= j < |q2| :: q2[j] != '"';
    QuoteFreeAppend(q0, q1);
    QuoteFreeAppend(q0 + q1, q2);
    assert KisGecesi.pauses == q0 + q1 + q2;
  }

  lemma KisGecesiStressWords()
    ensures EmphasisWords(KisGecesi.Content()) == KisGecesi.stress
  {
    KisGecesiQuoteFree();
    assert forall k :: 0 <= k < |KisGecesi.stress| ==> KisGecesi.stress[k] != [] && '"' !in KisGecesi.stress[k];
    StressWordsOfContent(KisGecesi);
  }

  lemma QuoteFreeAppend(a: string, b: string)
    requires '"' !in a && '"' !in b
    ensures '"' !in a + b
  {}

  /** The stress words written into an entry are exactly the words the analyser
      extracts from its content again, provided that no part of the entry holds a
      double quote and no stress word is empty. */
  lemma StressWordsOfContent(t: SampleText)
    requires '"' !in t.passage && '"' !in t.pauses
    requires forall k :: 0 <= k < |t.stress| ==> t.stress[k] != [] && '"' !in t.stress[k]
    ensures EmphasisWords(t.Content()) == t.stress
  {
    assert forall j | 0 <= j < |StressHeading| :: StressHeading[j] != '"';
    assert forall j | 0 <= j < |PauseHeading| :: PauseHeading[j] != '"';
    QuoteFreeAppend(t.passage, StressHeading);
    QuoteFreeAppend(PauseHeading, t.pauses);
    var gaps := t.Gaps();
    if t.stress == [] {
      QuoteFreeAppend(t.passage + StressHeading, PauseHeading + t.pauses);
      assert t.passage + StressHeading + PauseHeading + t.pauses == (t.passage + StressHeading) + (PauseHeading + t.pauses);
    } else {
      forall k | 0 <= k < |gaps| ensures '"' !in gaps[k] {
        if 0 < k < |gaps| - 1 {
          assert gaps[k] == ", ";
        }
      }
    }
    EmphasisWordsOfMarkup(gaps, t.stress);
  }

  /** Every catalog entry yields its own stress words to the analyser. */
  lemma CatalogStressWords(i: nat)
    requires i < |SampleTexts|
    ensures EmphasisWords(SampleTexts[i].Content()) == SampleTexts[i].stress
  {
    var t := SampleTexts[i];
    if i == 0 {
      assert t == BaharSabahi;
      BaharSabahiStressWords();
    } else if i == 1 {
      assert t == DenizKenarinda;
      DenizKenarindaStressWords();
    } else if i == 2 {
      assert t == SonbaharAksami;
      SonbaharAksamiStressWords();
    } else if i == 3 {
      assert t == YagmurluBirGun;
      YagmurluBirGunStressWords();
    } else {
      assert t == KisGecesi;
      KisGecesiStressWords();
    }
  }
}
