/**
 * The bilingual markup shared by the tutoring pipeline: text in the second
 * language is wrapped as `<code>...</code>`. Both synthesizers find these
 * spans with the pattern `<code>(.*?)</code>` (DOTALL) and `finditer`; this
 * module states that search as an explicit left-to-right scan.
 */
module TagScan {
  import opened Wrappers
  import opened Seqs

  function Open(lang: string): string { "<" + lang + ">" }

  function Close(lang: string): string { "</" + lang + ">" }

  /** One regular-expression match: `text[start..end]` is `<lang>inner</lang>`. */
  datatype Match = Match(start: nat, innerStart: nat, innerEnd: nat, end: nat)

  /**
   * The pattern matches at position `p`: the opening tag is there and a
   * closing tag follows somewhere after it.
   */
  predicate MatchesAt(text: string, lang: string, p: nat)
  {
    OccursAt(text, Open(lang), p) && FindFrom(text, Close(lang), p + |Open(lang)|) >= 0
  }

  /** The positions of a match found at or after `from` (MatchTags states the tags). */
  predicate WellFormed(text: string, lang: string, from: nat, m: Match)
  {
    && from <= m.start
    && m.innerStart == m.start + |Open(lang)|
    && m.innerStart <= m.innerEnd
    && m.end == m.innerEnd + |Close(lang)| <= |text|
  }

  /**
   * One `re.search` from position `from`: the leftmost position where the
   * pattern matches, with the lazy group ending at the first closing tag.
   * FindMatchSome and FindMatchNone state that it is the leftmost one.
   */
  function FindMatch(text: string, lang: string, from: nat): (r: Option<Match>)
    requires from <= |text|
    ensures r.Some? ==> WellFormed(text, lang, from, r.value)
    decreases |text| - from
  {
    if MatchesAt(text, lang, from) then
      var innerStart := from + |Open(lang)|;
      var innerEnd := FindFrom(text, Close(lang), innerStart);
      Some(Match(from, innerStart, innerEnd, innerEnd + |Close(lang)|))
    else if from == |text| then None
    else FindMatch(text, lang, from + 1)
  }

  /** Where the opening tag is, the search from there matches right there, up to `innerEnd`. */
  lemma FindMatchHere(text: string, lang: string, p: nat, innerEnd: nat)
    requires p <= |text| && OccursAt(text, Open(lang), p)
    requires innerEnd == FindFrom(text, Close(lang), p + |Open(lang)|) && innerEnd >= 0
    ensures FindMatch(text, lang, p) == Some(Match(p, p + |Open(lang)|, innerEnd, innerEnd + |Close(lang)|))
  {
  }

  /**
   * A found match starts at the leftmost position where the pattern
   * matches, and its inner text ends at the first closing tag after the
   * opening one.
   */
  lemma {:induction false} FindMatchSome(text: string, lang: string, from: nat)
    requires from <= |text| && FindMatch(text, lang, from).Some?
    ensures var m := FindMatch(text, lang, from).value;
            && MatchesAt(text, lang, m.start)
            && m.innerEnd == FindFrom(text, Close(lang), m.innerStart)
            && forall p :: from <= p < m.start ==> !MatchesAt(text, lang, p)
    decreases |text| - from
  {
    if !MatchesAt(text, lang, from) {
      assert FindMatch(text, lang, from) == FindMatch(text, lang, from + 1);
      FindMatchSome(text, lang, from + 1);
      var m := FindMatch(text, lang, from).value;
      forall p | from <= p < m.start ensures !MatchesAt(text, lang, p) {
        if p > from {
          assert from + 1 <= p < m.start;
        }
      }
    }
  }

  /** No match is found exactly when the pattern matches nowhere at or after `from`. */
  lemma {:induction false} FindMatchNone(text: string, lang: string, from: nat)
    requires from <= |text|
    ensures FindMatch(text, lang, from).None? <==> forall p :: from <= p <= |text| ==> !MatchesAt(text, lang, p)
    decreases |text| - from
  {
    if !MatchesAt(text, lang, from) && from < |text| {
      FindMatchNone(text, lang, from + 1);
      forall p | from <= p <= |text| && p != from ensures !MatchesAt(text, lang, p) || FindMatch(text, lang, from).Some? {
      }
    }
  }

  /** A stretch of the text: outside any tag pair, or the inside of one. */
  datatype Piece = Plain(text: string) | Tagged(text: string)

  /**
   * The pieces the `finditer` loop sees from `from` on: for each match, the
   * gap before it (only when non-empty) and its inner text; then whatever
   * follows the last match (only when non-empty).
   */
  function Scan(text: string, lang: string, from: nat): seq<Piece>
    requires from <= |text|
    decreases |text| - from
  {
    match FindMatch(text, lang, from)
    case None => if from < |text| then [Plain(text[from..])] else []
    case Some(m) =>
      (if m.start > from then [Plain(text[from..m.start])] else [])
      + [Tagged(text[m.innerStart..m.innerEnd])]
      + Scan(text, lang, m.end)
  }

  /** Writes the pieces back out, re-wrapping the tagged ones. */
  function Rewrap(ps: seq<Piece>, lang: string): string
  {
    if ps == [] then []
    else
      (match ps[0]
       case Plain(t) => t
       case Tagged(t) => Open(lang) + t + Close(lang))
      + Rewrap(ps[1..], lang)
  }

  lemma {:induction false} RewrapAppend(a: seq<Piece>, b: seq<Piece>, lang: string)
    ensures Rewrap(a + b, lang) == Rewrap(a, lang) + Rewrap(b, lang)
  {
    if a == [] {
      assert a + b == b;
    } else {
      assert (a + b)[0] == a[0];
      assert (a + b)[1..] == a[1..] + b;
      RewrapAppend(a[1..], b, lang);
      var head := match a[0] case Plain(t) => t case Tagged(t) => Open(lang) + t + Close(lang);
      AppendAssoc(head, Rewrap(a[1..], lang), Rewrap(b, lang));
    }
  }

  /**
   * One step of the scan: from `from`, the gap before the next match (if
   * any), the match's inner text, then the scan from the match's end.
   */
  lemma ScanStep(text: string, lang: string, from: nat, m: Match)
    requires from <= |text| && FindMatch(text, lang, from) == Some(m)
    ensures m.end > from
    ensures Scan(text, lang, from) == Gap(text, from, m.start) + [Tagged(text[m.innerStart..m.innerEnd])] + Scan(text, lang, m.end)
  {
  }

  /** A match's text is its inner text between the opening and the closing tag. */
  lemma MatchText(text: string, lang: string, from: nat, m: Match)
    requires from <= |text| && FindMatch(text, lang, from) == Some(m)
    ensures text[m.start..m.innerStart] == Open(lang)
    ensures text[m.innerEnd..m.end] == Close(lang)
    ensures text[m.start..m.end] == Open(lang) + text[m.innerStart..m.innerEnd] + Close(lang)
  {
    FindMatchSome(text, lang, from);
    Slices3(text, m.start, m.innerStart, m.innerEnd, m.end);
  }

  function Gap(text: string, from: nat, start: nat): seq<Piece>
    requires from <= start <= |text|
  {
    if start > from then [Plain(text[from..start])] else []
  }

  /** Coverage: the scan loses and invents nothing; re-wrapping gives back the text. */
  lemma {:induction false} ScanCovers(text: string, lang: string, from: nat)
    requires from <= |text|
    ensures Rewrap(Scan(text, lang, from), lang) == text[from..]
    decreases |text| - from
  {
    var r := FindMatch(text, lang, from);
    if r.Some? {
      var m := r.value;
      ScanStep(text, lang, from, m);
      MatchText(text, lang, from, m);
      var gap := Gap(text, from, m.start);
      var tagged := [Tagged(text[m.innerStart..m.innerEnd])];
      var rest := Scan(text, lang, m.end);
      ScanCovers(text, lang, m.end);
      RewrapAppend(gap, tagged + rest, lang);
      RewrapAppend(tagged, rest, lang);
      assert Rewrap(gap, lang) == text[from..m.start];
      assert Rewrap(tagged, lang) == text[m.start..m.end];
      assert Scan(text, lang, from) == gap + (tagged + rest);
      Glue(text, from, m.start, m.end, Rewrap(gap, lang), Rewrap(tagged, lang), Rewrap(rest, lang));
    } else if from < |text| {
      assert Scan(text, lang, from) == [Plain(text[from..])];
      assert Rewrap([Plain(text[from..])], lang) == text[from..] + Rewrap([], lang);
    } else {
      assert Scan(text, lang, from) == [];
    }
  }

  /** No plain piece is empty. */
  predicate PlainNonEmpty(ps: seq<Piece>)
  {
    forall i :: 0 <= i < |ps| ==> (ps[i].Plain? ==> ps[i].text != [])
  }

  /** No tagged piece contains `close`. */
  predicate TaggedExcludes(ps: seq<Piece>, close: string)
  {
    forall i :: 0 <= i < |ps| ==> (ps[i].Tagged? ==> !Contains(ps[i].text, close))
  }

  /** A gap piece is produced only when the gap is non-empty. */
  lemma {:induction false} ScanPlainNonEmpty(text: string, lang: string, from: nat)
    requires from <= |text|
    ensures PlainNonEmpty(Scan(text, lang, from))
    decreases |text| - from
  {
    var r := FindMatch(text, lang, from);
    if r.Some? {
      ScanStep(text, lang, from, r.value);
      ScanPlainNonEmpty(text, lang, r.value.end);
    }
  }

  /** The inner text of a match never contains the closing tag (the group is lazy). */
  lemma {:induction false} ScanTaggedHasNoClose(text: string, lang: string, from: nat)
    requires from <= |text|
    ensures TaggedExcludes(Scan(text, lang, from), Close(lang))
    decreases |text| - from
  {
    var r := FindMatch(text, lang, from);
    if r.Some? {
      var m := r.value;
      ScanStep(text, lang, from, m);
      FindMatchSome(text, lang, from);
      FindFromLeast(text, Close(lang), m.innerStart);
      ScanTaggedHasNoClose(text, lang, m.end);
      var inner := text[m.innerStart..m.innerEnd];
      forall j | OccursAt(inner, Close(lang), j) ensures false {
        OccursInSlice(text, Close(lang), m.innerStart, m.innerEnd, j);
      }
      TaggedExcludesAppend(Gap(text, from, m.start), [Tagged(inner)], Close(lang));
      TaggedExcludesAppend(Gap(text, from, m.start) + [Tagged(inner)], Scan(text, lang, m.end), Close(lang));
    }
  }

  lemma TaggedExcludesAppend(a: seq<Piece>, b: seq<Piece>, close: string)
    requires TaggedExcludes(a, close) && TaggedExcludes(b, close)
    ensures TaggedExcludes(a + b, close)
  {
    forall i | 0 <= i < |a + b| ensures (a + b)[i].Tagged? ==> !Contains((a + b)[i].text, close) {
      if i >= |a| { assert (a + b)[i] == b[i - |a|]; }
    }
  }
}
