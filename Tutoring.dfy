/**
 * service/tutoring_service.py: `TutoringService`. The AI answers with a
 * list of `(lang, text)` fragments; `_convertAiResult` writes them out as
 * bilingual text, wrapping every fragment that is not in the instruction
 * language in `<lang>...</lang>`, which is exactly the markup the speech
 * synthesizers scan for. Before that, the request is resolved through a
 * ladder of lookups, each failing with its own `ValueError`, and errors
 * become HTTP exceptions.
 */
module Tutoring {
  import opened Wrappers
  import opened Seqs
  import opened Strings
  import opened TagScan

  /** `AiResponseFragment`. */
  datatype Fragment = Fragment(lang: string, text: string)

  /** What one fragment adds to the converted text. */
  function Contribution(instLang: string, f: Fragment): string
  {
    if f.lang == instLang then f.text else Open(f.lang) + f.text + Close(f.lang)
  }

  /** The converted text of a fragment list: the specification of `ConvertAiResult`. */
  function Converted(instLang: string, fs: seq<Fragment>): string
  {
    if fs == [] then "" else Contribution(instLang, fs[0]) + Converted(instLang, fs[1..])
  }

  /** `_convertAiResult`: appends each fragment's contribution to `result` in list order. */
  method ConvertAiResult(instLangCode: string, fragments: seq<Fragment>) returns (result: string)
    ensures result == Converted(instLangCode, fragments)
  {
    result := "";
    for i := 0 to |fragments|
      invariant result + Converted(instLangCode, fragments[i..]) == Converted(instLangCode, fragments)
    {
      var fragment := fragments[i];
      ghost var before := result;
      if fragment.lang == instLangCode {
        result := result + fragment.text;
      } else {
        result := result + (Open(fragment.lang) + fragment.text + Close(fragment.lang));
      }
      ConvertedStep(instLangCode, fragments, i, before, result);
    }
    assert fragments[|fragments|..] == [];
  }

  /** One turn of the loop in `ConvertAiResult` keeps its invariant. */
  lemma ConvertedStep(instLang: string, fragments: seq<Fragment>, i: nat, before: string, after: string)
    requires i < |fragments|
    requires before + Converted(instLang, fragments[i..]) == Converted(instLang, fragments)
    requires after == before + Contribution(instLang, fragments[i])
    ensures after + Converted(instLang, fragments[i + 1..]) == Converted(instLang, fragments)
  {
    var step, later := Contribution(instLang, fragments[i]), Converted(instLang, fragments[i + 1..]);
    assert fragments[i..][0] == fragments[i];
    assert fragments[i..][1..] == fragments[i + 1..];
    assert Converted(instLang, fragments[i..]) == step + later;
    AppendAssoc(before, step, later);
  }

  /** Contributions are concatenated in list order. */
  lemma {:induction false} ConvertedAppend(instLang: string, a: seq<Fragment>, b: seq<Fragment>)
    ensures Converted(instLang, a + b) == Converted(instLang, a) + Converted(instLang, b)
  {
    if a == [] {
      assert a + b == b;
    } else {
      assert (a + b)[0] == a[0];
      assert (a + b)[1..] == a[1..] + b;
      ConvertedAppend(instLang, a[1..], b);
      AppendAssoc(Contribution(instLang, a[0]), Converted(instLang, a[1..]), Converted(instLang, b));
    }
  }

  /**
   * An empty list converts to the empty string; a fragment in the
   * instruction language contributes its text verbatim, any other
   * fragment exactly `<lang>text</lang>`.
   */
  lemma ConvertedCases(instLang: string, f: Fragment)
    ensures Converted(instLang, []) == ""
    ensures f.lang == instLang ==> Converted(instLang, [f]) == f.text
    ensures f.lang != instLang ==> Converted(instLang, [f]) == "<" + f.lang + ">" + f.text + "</" + f.lang + ">"
  {
    assert Converted(instLang, [f]) == Contribution(instLang, f) + Converted(instLang, []);
  }

  /** No `<` in `s`. */
  predicate NoAngle(s: string)
  {
    forall i :: 0 <= i < |s| ==> s[i] != '<'
  }

  /** The texts of the tagged pieces, in order. */
  function TaggedTexts(ps: seq<Piece>): seq<string>
  {
    if ps == [] then []
    else (if ps[0].Tagged? then [ps[0].text] else []) + TaggedTexts(ps[1..])
  }

  lemma {:induction false} TaggedTextsAppend(a: seq<Piece>, b: seq<Piece>)
    ensures TaggedTexts(a + b) == TaggedTexts(a) + TaggedTexts(b)
  {
    if a == [] {
      assert a + b == b;
    } else {
      var head: seq<string> := if a[0].Tagged? then [a[0].text] else [];
      assert (a + b)[0] == a[0];
      assert (a + b)[1..] == a[1..] + b;
      assert TaggedTexts(a + b) == head + TaggedTexts(a[1..] + b);
      TaggedTextsAppend(a[1..], b);
      AppendAssoc(head, TaggedTexts(a[1..]), TaggedTexts(b));
    }
  }

  /** The texts of the fragments that are not in the instruction language, in order. */
  function ForeignTexts(instLang: string, fs: seq<Fragment>): seq<string>
  {
    if fs == [] then []
    else (if fs[0].lang != instLang then [fs[0].text] else []) + ForeignTexts(instLang, fs[1..])
  }

  /** The pattern cannot match where the text has no `<`. */
  lemma NoMatchAt(text: string, lang: string, p: nat)
    requires p < |text| && text[p] != '<'
    ensures !MatchesAt(text, lang, p)
  {
    OccursHead(text, Open(lang), p);
  }

  /** A search from a position without `<` finds what the search from the next one finds. */
  lemma FindMatchSkipOne(text: string, lang: string, from: nat)
    requires from < |text| && text[from] != '<'
    ensures FindMatch(text, lang, from) == FindMatch(text, lang, from + 1)
  {
    NoMatchAt(text, lang, from);
  }

  /** A search skips over text without `<`. */
  lemma {:induction false} FindMatchSkip(text: string, lang: string, from: nat, to: nat)
    requires from <= to <= |text|
    requires forall i :: from <= i < to ==> text[i] != '<'
    ensures FindMatch(text, lang, from) == FindMatch(text, lang, to)
    decreases |text| - from
  {
    if from < to {
      FindMatchSkipOne(text, lang, from);
      FindMatchSkip(text, lang, from + 1, to);
    }
  }

  /** Skipping text without `<` skips no tagged piece. */
  lemma TaggedSkip(text: string, lang: string, from: nat, to: nat)
    requires from <= to <= |text|
    requires forall i :: from <= i < to ==> text[i] != '<'
    ensures TaggedTexts(Scan(text, lang, from)) == TaggedTexts(Scan(text, lang, to))
  {
    FindMatchSkip(text, lang, from, to);
    var r := FindMatch(text, lang, from);
    if r.Some? {
      var m := r.value;
      ScanStep(text, lang, from, m);
      ScanStep(text, lang, to, m);
      var tagged := [Tagged(text[m.innerStart..m.innerEnd])];
      TaggedTextsAppend(Gap(text, from, m.start) + tagged, Scan(text, lang, m.end));
      TaggedTextsAppend(Gap(text, from, m.start), tagged);
      TaggedTextsAppend(Gap(text, to, m.start) + tagged, Scan(text, lang, m.end));
      TaggedTextsAppend(Gap(text, to, m.start), tagged);
    }
  }

  /** After text without `<`, the first occurrence of a tag is the one right behind it. */
  lemma FirstTagAfter(text: string, tag: string, from: nat, t: string)
    requires |tag| > 0 && tag[0] == '<'
    requires from + |t| <= |text| && text[from..from + |t|] == t && NoAngle(t)
    requires OccursAt(text, tag, from + |t|)
    ensures FindFrom(text, tag, from) == from + |t|
  {
    FindFromLeast(text, tag, from);
    forall i | from <= i < from + |t| ensures !OccursAt(text, tag, i) {
      assert text[i] == text[from..from + |t|][i - from];
      OccursHead(text, tag, i);
    }
  }

  /** A tag pair around text without `<` is matched right where it starts. */
  lemma TagAt(text: string, lang: string, from: nat, t: string)
    requires from + |Open(lang)| + |t| + |Close(lang)| <= |text|
    requires text[from..from + |Open(lang)|] == Open(lang)
    requires text[from + |Open(lang)|..from + |Open(lang)| + |t|] == t
    requires text[from + |Open(lang)| + |t|..from + |Open(lang)| + |t| + |Close(lang)|] == Close(lang)
    requires NoAngle(t)
    ensures var innerStart := from + |Open(lang)|;
            FindMatch(text, lang, from)
              == Some(Match(from, innerStart, innerStart + |t|, innerStart + |t| + |Close(lang)|))
  {
    var innerStart := from + |Open(lang)|;
    FirstTagAfter(text, Close(lang), innerStart, t);
    FindMatchHere(text, lang, from, innerStart + |t|);
  }

  /** A fragment in the instruction language: its text is skipped without a tagged piece. */
  lemma ScanPastText(text: string, lang: string, from: nat, t: string, rest: string) returns (next: nat)
    requires from <= |text| && text[from..] == t + rest && NoAngle(t)
    ensures next <= |text| && text[next..] == rest
    ensures TaggedTexts(Scan(text, lang, from)) == TaggedTexts(Scan(text, lang, next))
  {
    next := from + |t|;
    assert text[next..] == text[from..][|t|..];
    forall i | from <= i < next ensures text[i] != '<' {
      assert text[i] == text[from..][i - from];
    }
    TaggedSkip(text, lang, from, next);
  }

  /** A wrapped fragment: its text is the next tagged piece. */
  lemma ScanPastTag(text: string, lang: string, from: nat, t: string, to: nat)
    requires to == from + |Open(lang)| + |t| + |Close(lang)| <= |text|
    requires text[from..from + |Open(lang)|] == Open(lang)
    requires text[from + |Open(lang)|..from + |Open(lang)| + |t|] == t
    requires text[from + |Open(lang)| + |t|..from + |Open(lang)| + |t| + |Close(lang)|] == Close(lang)
    requires NoAngle(t)
    ensures TaggedTexts(Scan(text, lang, from))
            == [t] + TaggedTexts(Scan(text, lang, to))
  {
    TagAt(text, lang, from, t);
    var m := FindMatch(text, lang, from).value;
    assert m.end == to;
    ScanStep(text, lang, from, m);
    assert Gap(text, from, m.start) == [];
    assert text[m.innerStart..m.innerEnd] == t;
    var later := Scan(text, lang, to);
    assert Scan(text, lang, from) == [Tagged(t)] + later;
    TaggedTextsAppend([Tagged(t)], later);
    assert TaggedTexts([Tagged(t)]) == [t];
  }

  /**
   * Round trip with the synthesizers' scan: when no fragment text contains
   * `<` and every fragment is either in the instruction language or in
   * `lang`, scanning the converted text for `lang` tags finds exactly the
   * texts of the fragments that are not in the instruction language, in
   * order. Stated for the suffix of `text` from `from`.
   */
  lemma {:induction false} ScanConvertedFrom(text: string, instLang: string, lang: string, from: nat, fs: seq<Fragment>)
    requires from <= |text| && text[from..] == Converted(instLang, fs)
    requires Scannable(instLang, lang, fs)
    ensures TaggedTexts(Scan(text, lang, from)) == ForeignTexts(instLang, fs)
    decreases |fs|
  {
    if fs == [] {
      assert FindMatch(text, lang, from) == None;
    } else {
      ScannableTail(instLang, lang, fs);
      var f, rest := fs[0], Converted(instLang, fs[1..]);
      var next: nat;
      if f.lang == instLang {
        assert text[from..] == f.text + rest;
        next := ScanPastText(text, lang, from, f.text, rest);
      } else {
        assert text[from..] == Open(lang) + f.text + Close(lang) + rest;
        next := ScanConvertedTag(text, lang, from, f.text, rest);
      }
      ScanConvertedFrom(text, instLang, lang, next, fs[1..]);
    }
  }

  /** What the lemmas about the converted text demand of the fragments. */
  predicate Scannable(instLang: string, lang: string, fs: seq<Fragment>)
  {
    forall k :: 0 <= k < |fs| ==> NoAngle(fs[k].text) && (fs[k].lang == instLang || fs[k].lang == lang)
  }

  lemma ScannableTail(instLang: string, lang: string, fs: seq<Fragment>)
    requires fs != [] && Scannable(instLang, lang, fs)
    ensures NoAngle(fs[0].text) && (fs[0].lang == instLang || fs[0].lang == lang)
    ensures Scannable(instLang, lang, fs[1..])
  {
    forall k | 0 <= k < |fs[1..]| ensures NoAngle(fs[1..][k].text) && (fs[1..][k].lang == instLang || fs[1..][k].lang == lang) {
      assert fs[1..][k] == fs[k + 1];
    }
  }

  /** A wrapped fragment followed by `rest`: the scan yields its text, then goes on at `rest`. */
  lemma ScanConvertedTag(text: string, lang: string, from: nat, t: string, rest: string) returns (next: nat)
    requires from <= |text| && text[from..] == Open(lang) + t + Close(lang) + rest && NoAngle(t)
    ensures next <= |text| && text[next..] == rest
    ensures TaggedTexts(Scan(text, lang, from)) == [t] + TaggedTexts(Scan(text, lang, next))
  {
    var open, close := Open(lang), Close(lang);
    Blocks4(text, from, open, t, close, rest);
    next := from + |open| + |t| + |close|;
    ScanPastTag(text, lang, from, t, next);
  }

  lemma ScanConverted(instLang: string, lang: string, fs: seq<Fragment>)
    requires Scannable(instLang, lang, fs)
    ensures TaggedTexts(Scan(Converted(instLang, fs), lang, 0)) == ForeignTexts(instLang, fs)
  {
    ScanConvertedFrom(Converted(instLang, fs), instLang, lang, 0, fs);
  }
}
