/**
 * service/text_to_speech.py: `TextToSpeech.synthesize` splits bilingual
 * text into `(text, language)` segments and speaks each non-blank one with
 * the Piper voice registered for its language and the requested gender.
 * The voices themselves (model loading, audio samples, phonemes) are
 * outside this model; a voice is named by its model file.
 */
module PiperSynthesis {
  import opened Wrappers
  import opened Seqs
  import opened Strings
  import opened TagScan

  const GENDER_MALE: int := 1
  const GENDER_FEMALE: int := 2

  /** The voice table: the model file registered for each (language, gender) key. */
  const VOICES: map<(string, int), string> := map[
    ("en", GENDER_FEMALE) := "en_US-amy-medium.onnx",
    ("zh", GENDER_FEMALE) := "zh_CN-huayan-x_low.onnx"
  ]

  /** One `(text, language code)` segment. */
  datatype Segment = Segment(text: string, lang: string)

  /** The segments of the pieces: plain text in the first language, tagged text in the second. */
  function Label(ps: seq<Piece>, lang1: string, lang2: string): (segs: seq<Segment>)
    ensures |segs| == |ps|
  {
    if ps == [] then []
    else [Segment(ps[0].text, if ps[0].Plain? then lang1 else lang2)] + Label(ps[1..], lang1, lang2)
  }

  lemma {:induction false} LabelAppend(a: seq<Piece>, b: seq<Piece>, lang1: string, lang2: string)
    ensures Label(a + b, lang1, lang2) == Label(a, lang1, lang2) + Label(b, lang1, lang2)
  {
    if a == [] {
      assert a + b == b;
    } else {
      assert (a + b)[0] == a[0];
      assert (a + b)[1..] == a[1..] + b;
      LabelAppend(a[1..], b, lang1, lang2);
      AppendAssoc([Segment(a[0].text, if a[0].Plain? then lang1 else lang2)], Label(a[1..], lang1, lang2), Label(b, lang1, lang2));
    }
  }

  /** Each segment carries its piece's text and the language of its side of the tags. */
  lemma {:induction false} LabelAt(ps: seq<Piece>, lang1: string, lang2: string, k: nat)
    requires k < |ps|
    ensures Label(ps, lang1, lang2)[k] == Segment(ps[k].text, if ps[k].Plain? then lang1 else lang2)
  {
    if k > 0 {
      LabelAt(ps[1..], lang1, lang2, k - 1);
    }
  }

  /** The segment list `synthesize` builds: the specification of `Segments`. */
  function SegmentsOf(text: string, lang1: string, lang2: string): seq<Segment>
  {
    Label(Scan(text, lang2, 0), lang1, lang2)
  }

  /** A match adds the gap before it (only when non-empty) and then its inner text. */
  lemma SegmentsStepMatch(text: string, lang1: string, lang2: string, from: nat, m: Match)
    requires from <= |text| && FindMatch(text, lang2, from) == Some(m)
    ensures m.end > from
    ensures Label(Scan(text, lang2, from), lang1, lang2)
              == (if m.start > from then [Segment(text[from..m.start], lang1)] else [])
                 + [Segment(text[m.innerStart..m.innerEnd], lang2)]
                 + Label(Scan(text, lang2, m.end), lang1, lang2)
  {
    ScanStep(text, lang2, from, m);
    var gap := Gap(text, from, m.start);
    var tagged := [Tagged(text[m.innerStart..m.innerEnd])];
    LabelAppend(gap + tagged, Scan(text, lang2, m.end), lang1, lang2);
    LabelAppend(gap, tagged, lang1, lang2);
  }

  /** After the last match, the rest of the text is one segment when it is non-empty. */
  lemma SegmentsStepRest(text: string, lang1: string, lang2: string, from: nat)
    requires from <= |text| && FindMatch(text, lang2, from).None?
    ensures Label(Scan(text, lang2, from), lang1, lang2)
              == if from < |text| then [Segment(text[from..], lang1)] else []
  {
  }

  /** The segmentation loop of `synthesize`. */
  method Segments(text: string, lang1: string, lang2: string) returns (segments: seq<Segment>)
    ensures segments == SegmentsOf(text, lang1, lang2)
  {
    segments := [];
    var lastEnd: nat := 0;
    var next := FindMatch(text, lang2, 0);
    while next.Some?
      invariant lastEnd <= |text|
      invariant next == FindMatch(text, lang2, lastEnd)
      invariant segments + Label(Scan(text, lang2, lastEnd), lang1, lang2) == SegmentsOf(text, lang1, lang2)
      decreases |text| - lastEnd
    {
      var m := next.value;
      SegmentsStepMatch(text, lang1, lang2, lastEnd, m);
      ghost var before := segments;
      ghost var gap := if m.start > lastEnd then [Segment(text[lastEnd..m.start], lang1)] else [];
      if m.start > lastEnd {
        segments := segments + [Segment(text[lastEnd..m.start], lang1)];
      }
      segments := segments + [Segment(text[m.innerStart..m.innerEnd], lang2)];
      Shift(before, gap, Segment(text[m.innerStart..m.innerEnd], lang2), Label(Scan(text, lang2, m.end), lang1, lang2),
            segments, Label(Scan(text, lang2, lastEnd), lang1, lang2));
      lastEnd := m.end;
      next := FindMatch(text, lang2, lastEnd);
    }
    SegmentsStepRest(text, lang1, lang2, lastEnd);
    if lastEnd < |text| {
      segments := segments + [Segment(text[lastEnd..], lang1)];
    }
  }

  /** Segments come in input order: the gaps in the first language, the tagged texts in the second. */
  lemma SegmentsLanguages(text: string, lang1: string, lang2: string, k: nat)
    requires k < |SegmentsOf(text, lang1, lang2)|
    ensures var p := Scan(text, lang2, 0)[k];
            SegmentsOf(text, lang1, lang2)[k] == Segment(p.text, if p.Plain? then lang1 else lang2)
  {
    LabelAt(Scan(text, lang2, 0), lang1, lang2, k);
  }

  /** No empty gap segment: an empty segment can only be an empty tag pair's inside. */
  lemma SegmentsNoEmptyGap(text: string, lang1: string, lang2: string)
    ensures forall k :: 0 <= k < |SegmentsOf(text, lang1, lang2)| && SegmentsOf(text, lang1, lang2)[k].text == []
              ==> SegmentsOf(text, lang1, lang2)[k].lang == lang2
  {
    ScanPlainNonEmpty(text, lang2, 0);
    forall k | 0 <= k < |SegmentsOf(text, lang1, lang2)| && SegmentsOf(text, lang1, lang2)[k].text == []
      ensures SegmentsOf(text, lang1, lang2)[k].lang == lang2
    {
      SegmentsLanguages(text, lang1, lang2, k);
    }
  }

  /** Writes segments back out, wrapping those in the second language in its tags. */
  function Restore(segs: seq<Segment>, lang2: string): string
  {
    if segs == [] then []
    else
      (if segs[0].lang == lang2 then Open(lang2) + segs[0].text + Close(lang2) else segs[0].text)
      + Restore(segs[1..], lang2)
  }

  lemma {:induction false} RestoreLabel(ps: seq<Piece>, lang1: string, lang2: string)
    requires lang1 != lang2
    ensures Restore(Label(ps, lang1, lang2), lang2) == Rewrap(ps, lang2)
  {
    if ps != [] {
      RestoreLabel(ps[1..], lang1, lang2);
      assert Label(ps, lang1, lang2)[1..] == Label(ps[1..], lang1, lang2);
    }
  }

  /**
   * Coverage: when the two languages differ, the segments with the
   * second-language ones re-wrapped in their tags give back the text.
   */
  lemma SegmentsCover(text: string, lang1: string, lang2: string)
    requires lang1 != lang2
    ensures Restore(SegmentsOf(text, lang1, lang2), lang2) == text
  {
    RestoreLabel(Scan(text, lang2, 0), lang1, lang2);
    ScanCovers(text, lang2, 0);
  }

  /** One entry of the returned list: the language, the spoken text and the voice that spoke it. */
  datatype AudioEntry = AudioEntry(lang: string, text: string, voice: string)

  /** The message of the `ValueError` raised for a missing voice. */
  function VoiceNotFound(lang: string, gender: int): string
  {
    "Voice not found for " + lang + " and gender " + IntToString(gender)
  }

  /**
   * A segment is spoken when it is not all whitespace, that is (by the
   * contract of `Strip`) when its stripped text is non-empty.
   */
  predicate Spoken(seg: Segment)
  {
    !Seqs.All(seg.text, IsSpace)
  }

  /** The result of speaking the segments: the specification of `Synthesize`'s second loop. */
  function Render(segs: seq<Segment>, voices: map<(string, int), string>, gender: int): Result<seq<AudioEntry>, string>
  {
    if segs == [] then Ok([])
    else if !Spoken(segs[0]) then Render(segs[1..], voices, gender)
    else if (segs[0].lang, gender) !in voices then Err(VoiceNotFound(segs[0].lang, gender))
    else
      match Render(segs[1..], voices, gender)
      case Ok(rest) => Ok([AudioEntry(segs[0].lang, Strip(segs[0].text), voices[(segs[0].lang, gender)])] + rest)
      case Err(e) => Err(e)
  }

  /** Entries already produced, followed by the outcome of the rest. */
  function After(done: seq<AudioEntry>, r: Result<seq<AudioEntry>, string>): Result<seq<AudioEntry>, string>
  {
    match r
    case Ok(rest) => Ok(done + rest)
    case Err(e) => Err(e)
  }

  /** Unfolds `Render` once at position `i`. */
  lemma RenderStep(segs: seq<Segment>, voices: map<(string, int), string>, gender: int, i: nat)
    requires i < |segs|
    ensures Render(segs[i..], voices, gender)
            == if !Spoken(segs[i]) then Render(segs[i + 1..], voices, gender)
               else if (segs[i].lang, gender) !in voices then Err(VoiceNotFound(segs[i].lang, gender))
               else After([AudioEntry(segs[i].lang, Strip(segs[i].text), voices[(segs[i].lang, gender)])],
                          Render(segs[i + 1..], voices, gender))
  {
    assert segs[i..][0] == segs[i];
    assert segs[i..][1..] == segs[i + 1..];
  }

  lemma AfterNothing(r: Result<seq<AudioEntry>, string>)
    ensures After([], r) == r
  {
    if r.Ok? {
      assert [] + r.value == r.value;
    }
  }

  lemma AfterAppend(done: seq<AudioEntry>, x: AudioEntry, r: Result<seq<AudioEntry>, string>)
    ensures After(done + [x], r) == After(done, After([x], r))
  {
    if r.Ok? {
      assert done + [x] + r.value == done + ([x] + r.value);
    }
  }

  /**
   * `synthesize`: segment the text, then speak each non-blank segment with
   * the voice for its language and `gender`, raising a `ValueError` for the
   * first one that has none.
   */
  method Synthesize(text: string, lang1: string, lang2: string, gender: int)
    returns (r: Result<seq<AudioEntry>, string>)
    ensures r == Render(SegmentsOf(text, lang1, lang2), VOICES, gender)
  {
    var segments := Segments(text, lang1, lang2);
    var audios: seq<AudioEntry> := [];
    var i := 0;
    assert segments[i..] == segments;
    AfterNothing(Render(segments, VOICES, gender));
    while i < |segments|
      invariant 0 <= i <= |segments|
      invariant After(audios, Render(segments[i..], VOICES, gender)) == Render(segments, VOICES, gender)
    {
      var segment := segments[i];
      RenderStep(segments, VOICES, gender, i);
      var segmentText := Strip(segment.text);
      if segmentText == [] {
        i := i + 1;
        continue;
      }
      if (segment.lang, gender) !in VOICES {
        assert Render(segments[i..], VOICES, gender).Err?;
        return Err(VoiceNotFound(segment.lang, gender));
      }
      var voice := VOICES[(segment.lang, gender)];
      AfterAppend(audios, AudioEntry(segment.lang, segmentText, voice), Render(segments[i + 1..], VOICES, gender));
      audios := audios + [AudioEntry(segment.lang, segmentText, voice)];
      i := i + 1;
    }
    assert segments[i..] == [];
    assert audios + [] == audios;
    r := Ok(audios);
  }

  /** The table has voices only for English and Chinese, and only female ones. */
  lemma VoiceTable(lang: string, gender: int)
    ensures (lang, gender) in VOICES <==> (lang == "en" || lang == "zh") && gender == GENDER_FEMALE
  {
  }

  /** A successful rendering found a voice for every spoken segment. */
  lemma {:induction false} RenderOkVoiced(segs: seq<Segment>, voices: map<(string, int), string>, gender: int, k: nat)
    requires Render(segs, voices, gender).Ok? && k < |segs| && Spoken(segs[k])
    ensures (segs[k].lang, gender) in voices
  {
    if k > 0 {
      assert segs[1..][k - 1] == segs[k];
      RenderOkVoiced(segs[1..], voices, gender, k - 1);
    }
  }

  /** When every spoken segment has a voice, rendering succeeds. */
  lemma {:induction false} VoicedRenderOk(segs: seq<Segment>, voices: map<(string, int), string>, gender: int)
    requires forall k :: 0 <= k < |segs| && Spoken(segs[k]) ==> (segs[k].lang, gender) in voices
    ensures Render(segs, voices, gender).Ok?
  {
    if segs != [] {
      var tail := segs[1..];
      forall j | 0 <= j < |tail| && Spoken(tail[j]) ensures (tail[j].lang, gender) in voices {
        assert tail[j] == segs[j + 1];
      }
      VoicedRenderOk(tail, voices, gender);
    }
  }

  /** Rendering succeeds exactly when every spoken segment has a voice. */
  lemma RenderOk(segs: seq<Segment>, voices: map<(string, int), string>, gender: int)
    ensures Render(segs, voices, gender).Ok?
            <==> forall k :: 0 <= k < |segs| && Spoken(segs[k]) ==> (segs[k].lang, gender) in voices
  {
    if forall k :: 0 <= k < |segs| && Spoken(segs[k]) ==> (segs[k].lang, gender) in voices {
      VoicedRenderOk(segs, voices, gender);
    } else if Render(segs, voices, gender).Ok? {
      var k :| 0 <= k < |segs| && Spoken(segs[k]) && (segs[k].lang, gender) !in voices;
      RenderOkVoiced(segs, voices, gender, k);
    }
  }

  /** The spoken segments, stripped, in order. */
  function SpokenTexts(segs: seq<Segment>): seq<Segment>
  {
    if segs == [] then []
    else if Spoken(segs[0]) then [Segment(Strip(segs[0].text), segs[0].lang)] + SpokenTexts(segs[1..])
    else SpokenTexts(segs[1..])
  }

  /** On success there is one entry per spoken segment; blank segments produce nothing. */
  lemma {:induction false} RenderLength(segs: seq<Segment>, voices: map<(string, int), string>, gender: int)
    requires Render(segs, voices, gender).Ok?
    ensures |Render(segs, voices, gender).value| == |SpokenTexts(segs)|
  {
    if segs != [] {
      RenderLength(segs[1..], voices, gender);
    }
  }

  /**
   * On success the entry at position `k` belongs to the `k`-th spoken
   * segment: its language, its stripped text and the voice registered for
   * that language and the gender.
   */
  lemma {:induction false} RenderEntryAt(segs: seq<Segment>, voices: map<(string, int), string>, gender: int, k: nat)
    requires Render(segs, voices, gender).Ok? && k < |SpokenTexts(segs)|
    ensures var spoken := SpokenTexts(segs)[k];
            && (spoken.lang, gender) in voices
            && k < |Render(segs, voices, gender).value|
            && Render(segs, voices, gender).value[k] == AudioEntry(spoken.lang, spoken.text, voices[(spoken.lang, gender)])
  {
    RenderLength(segs, voices, gender);
    if segs != [] {
      if !Spoken(segs[0]) {
        assert SpokenTexts(segs) == SpokenTexts(segs[1..]);
        RenderEntryAt(segs[1..], voices, gender, k);
      } else {
        var head := Segment(Strip(segs[0].text), segs[0].lang);
        var rest := Render(segs[1..], voices, gender).value;
        var entry := AudioEntry(segs[0].lang, Strip(segs[0].text), voices[(segs[0].lang, gender)]);
        assert SpokenTexts(segs) == [head] + SpokenTexts(segs[1..]);
        assert Render(segs, voices, gender).value == [entry] + rest;
        if k > 0 {
          RenderEntryAt(segs[1..], voices, gender, k - 1);
          assert ([entry] + rest)[k] == rest[k - 1];
        }
      }
    }
  }

  /** The first spoken segment without a voice decides the error message. */
  lemma {:induction false} RenderErrAt(segs: seq<Segment>, voices: map<(string, int), string>, gender: int, k: nat)
    requires k < |segs| && Spoken(segs[k]) && (segs[k].lang, gender) !in voices
    requires forall j :: 0 <= j < k && Spoken(segs[j]) ==> (segs[j].lang, gender) in voices
    ensures Render(segs, voices, gender) == Err(VoiceNotFound(segs[k].lang, gender))
  {
    if k > 0 {
      var tail := segs[1..];
      assert tail[k - 1] == segs[k];
      forall j | 0 <= j < k - 1 && Spoken(tail[j]) ensures (tail[j].lang, gender) in voices {
        assert tail[j] == segs[j + 1];
      }
      RenderErrAt(tail, voices, gender, k - 1);
      assert !Spoken(segs[0]) || (segs[0].lang, gender) in voices;
    }
  }

  /** No male voice is registered: as soon as one segment is spoken, gender 1 fails. */
  lemma MaleVoiceFails(segs: seq<Segment>, k: nat)
    requires k < |segs| && Spoken(segs[k])
    ensures Render(segs, VOICES, GENDER_MALE).Err?
  {
    RenderOk(segs, VOICES, GENDER_MALE);
  }

  /** Text with only blank segments renders to an empty list whatever the gender. */
  lemma {:induction false} BlankRendersEmpty(segs: seq<Segment>, voices: map<(string, int), string>, gender: int)
    requires forall k :: 0 <= k < |segs| ==> !Spoken(segs[k])
    ensures Render(segs, voices, gender) == Ok([])
  {
    if segs != [] {
      assert forall k :: 0 <= k < |segs[1..]| ==> segs[1..][k] == segs[k + 1];
      BlankRendersEmpty(segs[1..], voices, gender);
    }
  }
}
