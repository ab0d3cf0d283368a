/**
 * audio/text_to_speech.py: `TextToSpeech.synthesize` turns bilingual text
 * into one SSML document: a `<speak>` root holding one `<voice>` element per
 * stretch of text, the first language's eSpeak voice for text outside the
 * `<code2>` tags and the second language's voice for text inside them.
 */
module SsmlSynthesis {
  import opened Wrappers
  import opened Seqs
  import opened Strings
  import opened TagScan

  const GENDER_MALE: int := 1
  const GENDER_FEMALE: int := 2

  /** `_espeak_voice`: the eSpeak voice name for a language code and gender. */
  function EspeakVoice(lang: string, gender: int): string
  {
    (if StartsWith(lang, "zh") then "cmn-latn-pinyin" else lang)
    + (if gender == GENDER_FEMALE then "+f1" else "+m1")
  }

  /**
   * `_espeak_voice` as written: collects the language part and the variant
   * suffix in a buffer and joins it.
   */
  method EspeakVoiceOf(lang: string, gender: int) returns (voice: string)
    ensures voice == EspeakVoice(lang, gender)
  {
    var buffer: seq<string> := [];
    if StartsWith(lang, "zh") {
      buffer := buffer + ["cmn-latn-pinyin"];
    } else {
      buffer := buffer + [lang];
    }
    if GENDER_FEMALE == gender {
      buffer := buffer + ["+f1"];
    } else {
      buffer := buffer + ["+m1"];
    }
    ConcatAppend([buffer[0]], [buffer[1]]);
    voice := Concat(buffer);
  }

  /** The variant suffix of a voice name (its last three characters). */
  function VoiceVariant(voice: string): string
  {
    if |voice| < 3 then voice else voice[|voice| - 3..]
  }

  /** The language part of a voice name (all but the variant suffix). */
  function VoiceLanguage(voice: string): string
  {
    if |voice| < 3 then [] else voice[..|voice| - 3]
  }

  /**
   * A voice name splits back into its parts: the variant is "+f1" exactly
   * for the female gender and "+m1" for every other value, and the language
   * part is "cmn-latn-pinyin" for every code starting with "zh" and the code
   * itself otherwise.
   */
  lemma EspeakVoiceParts(lang: string, gender: int)
    ensures VoiceVariant(EspeakVoice(lang, gender)) == "+f1" <==> gender == GENDER_FEMALE
    ensures VoiceVariant(EspeakVoice(lang, gender)) == "+m1" <==> gender != GENDER_FEMALE
    ensures StartsWith(lang, "zh") ==> VoiceLanguage(EspeakVoice(lang, gender)) == "cmn-latn-pinyin"
    ensures !StartsWith(lang, "zh") ==> VoiceLanguage(EspeakVoice(lang, gender)) == lang
  {
    var base := if StartsWith(lang, "zh") then "cmn-latn-pinyin" else lang;
    var variant := if gender == GENDER_FEMALE then "+f1" else "+m1";
    assert EspeakVoice(lang, gender) == base + variant;
    assert (base + variant)[|base + variant| - 3..] == variant;
    assert (base + variant)[..|base + variant| - 3] == base;
  }

  /** Two codes that do not start with "zh" share a voice only when they are equal. */
  lemma EspeakVoiceDistinguishes(lang1: string, lang2: string, gender: int)
    requires !StartsWith(lang1, "zh") && !StartsWith(lang2, "zh")
    ensures EspeakVoice(lang1, gender) == EspeakVoice(lang2, gender) <==> lang1 == lang2
  {
    EspeakVoiceParts(lang1, gender);
    EspeakVoiceParts(lang2, gender);
  }

  /** `<voice lang="VOICE">TEXT</voice>` */
  function VoiceElement(voice: string, text: string): string
  {
    "<voice lang=\"" + voice + "\">" + text + "</voice>"
  }

  /** The `<voice>` element of one piece: its stripped text, in the voice of its language. */
  function Element(p: Piece, voice1: string, voice2: string): string
  {
    VoiceElement(if p.Plain? then voice1 else voice2, Strip(p.text))
  }

  /** The `<voice>` elements of the pieces, in order. */
  function Elements(ps: seq<Piece>, voice1: string, voice2: string): (r: seq<string>)
    ensures |r| == |ps|
  {
    if ps == [] then [] else [Element(ps[0], voice1, voice2)] + Elements(ps[1..], voice1, voice2)
  }

  lemma {:induction false} ElementsAppend(a: seq<Piece>, b: seq<Piece>, voice1: string, voice2: string)
    ensures Elements(a + b, voice1, voice2) == Elements(a, voice1, voice2) + Elements(b, voice1, voice2)
  {
    if a == [] {
      assert a + b == b;
    } else {
      assert (a + b)[0] == a[0];
      assert (a + b)[1..] == a[1..] + b;
      ElementsAppend(a[1..], b, voice1, voice2);
      AppendAssoc([Element(a[0], voice1, voice2)], Elements(a[1..], voice1, voice2), Elements(b, voice1, voice2));
    }
  }

  /** The SSML document for `text`: the specification of `Synthesize`. */
  function Ssml(text: string, lang1: string, lang2: string, gender: int): string
  {
    "<speak>"
    + Concat(Elements(Scan(text, lang2, 0), EspeakVoice(lang1, gender), EspeakVoice(lang2, gender)))
    + "</speak>"
  }

  /**
   * The SSML-building part of `synthesize` (the request it then posts to
   * the speech service is outside this model): opens the list with
   * `<speak>`, adds the `<voice>` elements, closes it and joins it.
   */
  method Synthesize(text: string, lang1: string, lang2: string, gender: int) returns (ssml: string)
    ensures ssml == Ssml(text, lang1, lang2, gender)
  {
    var voice1 := EspeakVoiceOf(lang1, gender);
    var voice2 := EspeakVoiceOf(lang2, gender);
    var parts := AddVoiceElements(text, lang2, voice1, voice2, ["<speak>"]);
    parts := parts + ["</speak>"];
    SsmlJoin(text, lang1, lang2, gender, parts);
    ssml := Concat(parts);
  }

  /**
   * The `finditer` loop of `synthesize` and the remainder after it: appends
   * to `start` the elements for the gap before each match and for its inner
   * text, then the element for the text after the last match.
   */
  method AddVoiceElements(text: string, lang2: string, voice1: string, voice2: string, start: seq<string>)
    returns (parts: seq<string>)
    ensures parts == start + Elements(Scan(text, lang2, 0), voice1, voice2)
  {
    parts := start;
    var lastEnd: nat := 0;
    var next := FindMatch(text, lang2, 0);
    while next.Some?
      invariant lastEnd <= |text|
      invariant next == FindMatch(text, lang2, lastEnd)
      invariant parts + Elements(Scan(text, lang2, lastEnd), voice1, voice2)
                == start + Elements(Scan(text, lang2, 0), voice1, voice2)
      decreases |text| - lastEnd
    {
      var m := next.value;
      ghost var before, gap := parts, [];
      if m.start > lastEnd {
        var text1 := Strip(text[lastEnd..m.start]);
        parts := parts + [VoiceElement(voice1, text1)];
        gap := [VoiceElement(voice1, text1)];
      } else {
        assert parts == before + gap;
      }
      var text2 := Strip(text[m.innerStart..m.innerEnd]);
      parts := parts + [VoiceElement(voice2, text2)];
      AddVoiceElementsStep(text, lang2, voice1, voice2, lastEnd, m, before, gap, parts);
      lastEnd := m.end;
      next := FindMatch(text, lang2, lastEnd);
    }
    SsmlStepRest(text, lang2, voice1, voice2, lastEnd);
    if lastEnd < |text| {
      var text1 := Strip(text[lastEnd..]);
      parts := parts + [VoiceElement(voice1, text1)];
    } else {
      assert parts == parts + Elements(Scan(text, lang2, lastEnd), voice1, voice2);
    }
  }

  /** One turn of the loop in `AddVoiceElements`: the elements of one match replace the scan from its start. */
  lemma AddVoiceElementsStep(text: string, lang2: string, v1: string, v2: string, from: nat, m: Match,
                             before: seq<string>, gap: seq<string>, after: seq<string>)
    requires from <= |text| && FindMatch(text, lang2, from) == Some(m)
    requires gap == (if m.start > from then [VoiceElement(v1, Strip(text[from..m.start]))] else [])
    requires after == before + gap + [VoiceElement(v2, Strip(text[m.innerStart..m.innerEnd]))]
    ensures after + Elements(Scan(text, lang2, m.end), v1, v2) == before + Elements(Scan(text, lang2, from), v1, v2)
  {
    SsmlStepMatch(text, lang2, v1, v2, from, m);
    Shift(before, gap, VoiceElement(v2, Strip(text[m.innerStart..m.innerEnd])),
          Elements(Scan(text, lang2, m.end), v1, v2), after, Elements(Scan(text, lang2, from), v1, v2));
  }

  /** Joining the opening tag, the elements and the closing tag gives the document. */
  lemma SsmlJoin(text: string, lang1: string, lang2: string, gender: int, parts: seq<string>)
    requires parts == ["<speak>"] + Elements(Scan(text, lang2, 0), EspeakVoice(lang1, gender), EspeakVoice(lang2, gender)) + ["</speak>"]
    ensures Concat(parts) == Ssml(text, lang1, lang2, gender)
  {
    var all := Elements(Scan(text, lang2, 0), EspeakVoice(lang1, gender), EspeakVoice(lang2, gender));
    ConcatAppend(["<speak>"] + all, ["</speak>"]);
    ConcatAppend(["<speak>"], all);
  }

  /** The document always opens with `<speak>` and closes with `</speak>`. */
  lemma SsmlEnvelope(text: string, lang1: string, lang2: string, gender: int)
    ensures StartsWith(Ssml(text, lang1, lang2, gender), "<speak>")
    ensures var s := Ssml(text, lang1, lang2, gender);
            |s| >= 15 && s[|s| - 8..] == "</speak>"
  {
    var body := Concat(Elements(Scan(text, lang2, 0), EspeakVoice(lang1, gender), EspeakVoice(lang2, gender)));
    Envelope("<speak>", body, "</speak>");
  }

  /** Empty input gives exactly `<speak></speak>`. */
  lemma SsmlOfEmpty(lang1: string, lang2: string, gender: int)
    ensures Ssml("", lang1, lang2, gender) == "<speak></speak>"
  {
    assert FindMatch("", lang2, 0) == None;
    assert Scan("", lang2, 0) == [];
  }

  /**
   * A whitespace-only gap before a match still yields a `<voice>` element
   * of the first voice, with empty content: the gap is checked before it is
   * stripped.
   */
  lemma {:induction false} BlankGapGivesEmptyElement(text: string, lang1: string, lang2: string, gender: int, m: Match)
    requires FindMatch(text, lang2, 0) == Some(m)
    requires m.start > 0 && All(text[..m.start], IsSpace)
    ensures var elements := Elements(Scan(text, lang2, 0), EspeakVoice(lang1, gender), EspeakVoice(lang2, gender));
            |elements| >= 2
            && elements[0] == VoiceElement(EspeakVoice(lang1, gender), "")
            && elements[1] == VoiceElement(EspeakVoice(lang2, gender), Strip(text[m.innerStart..m.innerEnd]))
  {
    var v1, v2 := EspeakVoice(lang1, gender), EspeakVoice(lang2, gender);
    SsmlStepMatch(text, lang2, v1, v2, 0, m);
    assert text[0..m.start] == text[..m.start];
    assert Strip(text[..m.start]) == "";
    var e1, e2 := VoiceElement(v1, ""), VoiceElement(v2, Strip(text[m.innerStart..m.innerEnd]));
    var rest := Elements(Scan(text, lang2, m.end), v1, v2);
    var elements := Elements(Scan(text, lang2, 0), v1, v2);
    assert elements == [e1] + [e2] + rest;
    FirstTwo(e1, e2, rest);
  }

  /** The first two entries of a sequence that starts with two given ones. */
  lemma FirstTwo<T>(a: T, b: T, rest: seq<T>)
    ensures |[a] + [b] + rest| >= 2 && ([a] + [b] + rest)[0] == a && ([a] + [b] + rest)[1] == b
  {
  }

  /**
   * Each match gives one element in the second voice holding its stripped
   * inner text, preceded by one element in the first voice for the text
   * before it when that text is non-empty.
   */
  lemma SsmlStepMatch(text: string, lang2: string, v1: string, v2: string, from: nat, m: Match)
    requires from <= |text| && FindMatch(text, lang2, from) == Some(m)
    ensures Elements(Scan(text, lang2, from), v1, v2)
              == (if m.start > from then [VoiceElement(v1, Strip(text[from..m.start]))] else [])
                 + [VoiceElement(v2, Strip(text[m.innerStart..m.innerEnd]))]
                 + Elements(Scan(text, lang2, m.end), v1, v2)
  {
    ScanStep(text, lang2, from, m);
    var gap := Gap(text, from, m.start);
    var tagged := [Tagged(text[m.innerStart..m.innerEnd])];
    var rest := Scan(text, lang2, m.end);
    ElementsAppend(gap + tagged, rest, v1, v2);
    ElementsAppend(gap, tagged, v1, v2);
    ElementsOne(tagged[0], v1, v2);
    GapElements(text, from, m.start, v1, v2);
    assert Elements(tagged, v1, v2) == [VoiceElement(v2, Strip(text[m.innerStart..m.innerEnd]))];
  }

  /** The text before a match gives one first-voice element when it is non-empty, none otherwise. */
  lemma GapElements(text: string, from: nat, start: nat, v1: string, v2: string)
    requires from <= start <= |text|
    ensures Elements(Gap(text, from, start), v1, v2)
              == if start > from then [VoiceElement(v1, Strip(text[from..start]))] else []
  {
    if start > from {
      ElementsOne(Plain(text[from..start]), v1, v2);
    }
  }

  lemma ElementsOne(p: Piece, voice1: string, voice2: string)
    ensures Elements([p], voice1, voice2) == [Element(p, voice1, voice2)]
  {
    assert [p][1..] == [];
  }

  /**
   * Text after the last match (all of it when there is no match) gives one
   * element in the first voice, present exactly when that text is non-empty.
   */
  lemma SsmlStepRest(text: string, lang2: string, v1: string, v2: string, from: nat)
    requires from <= |text| && FindMatch(text, lang2, from).None?
    ensures Elements(Scan(text, lang2, from), v1, v2)
              == if from < |text| then [VoiceElement(v1, Strip(text[from..]))] else []
  {
  }
}
