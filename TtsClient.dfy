/**
 * service/tts_client.py: `TTSClient.post`. It sends the request (with "zh"
 * renamed "cmn") to the speech service and takes the multipart reply apart:
 * the boundary comes from the Content-Type header, the content is split at
 * `--boundary`, the JSON part's body becomes the phonemes and every WAV
 * part's body is written at the start of an in-memory byte buffer.
 */
module TtsClient {
  import opened Wrappers
  import opened Seqs
  import Strings
  import Bytes

  const DEFAULT_SPEED: int := 175

  /** The language code as the speech service expects it. */
  function WireLang(lang: string): string
  {
    if lang == "zh" then "cmn" else lang
  }

  /** "zh" is sent as "cmn"; every other code is sent unchanged. */
  lemma WireLangCases(lang: string)
    ensures lang == "zh" ==> WireLang(lang) == "cmn"
    ensures lang != "zh" ==> WireLang(lang) == lang
    ensures WireLang(lang) != "zh"
  {
  }

  /** The JSON body posted to the speech service. */
  datatype Payload = Payload(lang: string, gender: string, speed: int, text: string)

  /** The reply: its Content-Type header (when present) and its raw content. */
  datatype Response = Response(contentType: Option<string>, content: seq<Bytes.byte>)

  /** `bytes` of an ASCII text (what a `b"..."` literal denotes). */
  function Ascii(s: string): (r: seq<Bytes.byte>)
    requires forall i :: 0 <= i < |s| ==> s[i] as int < 128
    ensures |r| == |s|
  {
    seq(|s|, i requires 0 <= i < |s| => s[i] as int)
  }

  const BOUNDARY_MARKER: string := "boundary="
  const JSON_MARKER: seq<Bytes.byte> := Ascii("Content-Type: application/json")
  const WAV_MARKER: seq<Bytes.byte> := Ascii("Content-Type: audio/wav")
  const BLANK_LINE: seq<Bytes.byte> := [13, 10, 13, 10]

  /** The last element of a non-empty list (Python's `xs[-1]`). */
  function Last<T>(xs: seq<T>): T
    requires |xs| > 0
  {
    xs[|xs| - 1]
  }

  /** The boundary: the stripped text after the last "boundary=" of the header ("" when it is missing). */
  function Boundary(contentType: Option<string>): string
  {
    var header := if contentType.Some? then contentType.value else "";
    Strings.Strip(Last(Split(header, BOUNDARY_MARKER)))
  }

  /** The delimiter the content is split at: `--boundary`, UTF-8 encoded. */
  function Delimiter(contentType: Option<string>): (r: seq<Bytes.byte>)
    ensures |r| >= 2
  {
    var d := "--" + Boundary(contentType);
    Bytes.EncodeLength(d);
    Bytes.Encode(d)
  }

  /** The parts of the content: at least one, and joined back with the delimiter they give the content. */
  function Parts(response: Response): (r: seq<seq<Bytes.byte>>)
    ensures |r| >= 1
    ensures Join(r, Delimiter(response.contentType)) == response.content
  {
    SplitJoin(response.content, Delimiter(response.contentType));
    Split(response.content, Delimiter(response.contentType))
  }

  /** A part's body: what follows its first blank line (all of it when there is none), stripped. */
  function Body(part: seq<Bytes.byte>): seq<Bytes.byte>
  {
    Bytes.Strip(AfterFirst(part, BLANK_LINE))
  }

  /**
   * A body is a stripped slice of what follows the part's first blank line:
   * empty, or starting and ending with a non-whitespace byte.
   */
  lemma BodyStripped(part: seq<Bytes.byte>)
    ensures Body(part) == [] || (!Bytes.IsAsciiSpace(Body(part)[0]) && !Bytes.IsAsciiSpace(Body(part)[|Body(part)| - 1]))
    ensures exists a, b :: 0 <= a <= b <= |AfterFirst(part, BLANK_LINE)| && Body(part) == AfterFirst(part, BLANK_LINE)[a..b]
  {
    Bytes.StripEnds(AfterFirst(part, BLANK_LINE));
    Bytes.StripSlice(AfterFirst(part, BLANK_LINE));
  }

  /** A part without a blank line has no header to skip: its body is the whole part, stripped. */
  lemma BodyWithoutBlankLine(part: seq<Bytes.byte>)
    requires !Contains(part, BLANK_LINE)
    ensures Body(part) == Bytes.Strip(part)
  {
  }

  predicate IsJson(part: seq<Bytes.byte>) { Contains(part, JSON_MARKER) }

  /** A WAV part that is not also a JSON part: the JSON test comes first. */
  predicate IsWav(part: seq<Bytes.byte>) { !IsJson(part) && Contains(part, WAV_MARKER) }

  /**
   * `io.BytesIO`: a growable byte buffer with a position. Writing replaces
   * the bytes from the position on and extends the buffer when it runs past
   * the end.
   */
  class BytesIO {
    var data: seq<Bytes.byte>
    var pos: nat

    ghost predicate Valid()
      reads this
    {
      pos <= |data|
    }

    constructor()
      ensures Valid() && data == [] && pos == 0
    {
      data := [];
      pos := 0;
    }

    method Write(b: seq<Bytes.byte>)
      requires Valid()
      modifies this
      ensures Valid()
      ensures data == Overwrite(old(data), old(pos), b) && pos == old(pos) + |b|
    {
      data := Overwrite(data, pos, b);
      pos := pos + |b|;
    }

    method Seek(p: nat)
      requires Valid() && p <= |data|
      modifies this
      ensures Valid() && data == old(data) && pos == p
    {
      pos := p;
    }
  }

  /** The buffer contents after writing `b` at position `pos`. */
  function Overwrite(data: seq<Bytes.byte>, pos: nat, b: seq<Bytes.byte>): seq<Bytes.byte>
    requires pos <= |data|
  {
    data[..pos] + b + (if pos + |b| < |data| then data[pos + |b|..] else [])
  }

  /**
   * A write replaces exactly the bytes it covers: those before the position
   * and those past the written block are kept, and the buffer grows only as
   * far as the block reaches.
   */
  lemma OverwriteSpec(data: seq<Bytes.byte>, pos: nat, b: seq<Bytes.byte>)
    requires pos <= |data|
    ensures var r := Overwrite(data, pos, b);
            && |r| == (if pos + |b| < |data| then |data| else pos + |b|)
            && r[..pos] == data[..pos]
            && r[pos..pos + |b|] == b
            && r[pos + |b|..] == (if pos + |b| < |data| then data[pos + |b|..] else [])
  {
    var r := Overwrite(data, pos, b);
    var tail := if pos + |b| < |data| then data[pos + |b|..] else [];
    assert r == data[..pos] + b + tail;
    assert r[..pos] == data[..pos];
    assert r[pos..pos + |b|] == b;
    assert r[pos + |b|..] == tail;
  }

  /** What the loop over the parts has gathered: the phonemes (None: still the initial "") and the buffer. */
  datatype Gathered = Gathered(phonemes: Option<seq<Bytes.byte>>, audio: seq<Bytes.byte>)

  /** One iteration of the loop; the buffer is always at position 0 when a part is written. */
  function Step(g: Gathered, part: seq<Bytes.byte>): Gathered
  {
    if IsJson(part) then g.(phonemes := Some(Body(part)))
    else if Contains(part, WAV_MARKER) then g.(audio := Overwrite(g.audio, 0, Body(part)))
    else g
  }

  /** The whole loop: the specification of `Post`'s parsing. */
  function Gather(g: Gathered, parts: seq<seq<Bytes.byte>>): Gathered
    decreases |parts|
  {
    if parts == [] then g else Gather(Step(g, parts[0]), parts[1..])
  }

  /**
   * `post`: builds the payload, then parses the service's reply, which is
   * a parameter (the HTTP call itself is outside the model). Returns the
   * phonemes and the buffer, rewound to position 0.
   */
  method Post(lang: string, gender: string, text: string, reply: Response, speed: int := DEFAULT_SPEED)
    returns (payload: Payload, phonemes: Option<seq<Bytes.byte>>, buffer: BytesIO)
    ensures payload == Payload(WireLang(lang), gender, speed, text)
    ensures fresh(buffer) && buffer.Valid() && buffer.pos == 0
    ensures Gathered(phonemes, buffer.data) == Gather(Gathered(None, []), Parts(reply))
  {
    var wireLang := lang;
    if lang == "zh" {
      wireLang := "cmn";
    }
    payload := Payload(wireLang, gender, speed, text);
    var parts := Split(reply.content, Delimiter(reply.contentType));
    phonemes := None;
    buffer := new BytesIO();
    for i := 0 to |parts|
      invariant buffer.Valid() && buffer.pos == 0
      invariant Gather(Gathered(phonemes, buffer.data), parts[i..]) == Gather(Gathered(None, []), parts)
    {
      var part := parts[i];
      assert parts[i..][1..] == parts[i + 1..];
      if Contains(part, JSON_MARKER) {
        var body := Bytes.Strip(AfterFirst(part, BLANK_LINE));
        phonemes := Some(body);
      } else if Contains(part, WAV_MARKER) {
        var body := Bytes.Strip(AfterFirst(part, BLANK_LINE));
        buffer.Write(body);
        buffer.Seek(0);
      }
    }
    assert parts[|parts|..] == [];
  }

  /** Gathering over two lists in a row is gathering over their concatenation. */
  lemma {:induction false} GatherAppend(g: Gathered, a: seq<seq<Bytes.byte>>, b: seq<seq<Bytes.byte>>)
    ensures Gather(g, a + b) == Gather(Gather(g, a), b)
    decreases |a|
  {
    if a == [] {
      assert a + b == b;
    } else {
      assert (a + b)[1..] == a[1..] + b;
      GatherAppend(Step(g, a[0]), a[1..], b);
    }
  }

  /** Parts without the JSON marker leave the phonemes as they were. */
  lemma {:induction false} GatherKeepsPhonemes(g: Gathered, parts: seq<seq<Bytes.byte>>)
    requires forall k :: 0 <= k < |parts| ==> !IsJson(parts[k])
    ensures Gather(g, parts).phonemes == g.phonemes
    decreases |parts|
  {
    if parts != [] {
      GatherKeepsPhonemes(Step(g, parts[0]), parts[1..]);
    }
  }

  /** Parts that are not WAV parts leave the buffer as it was. */
  lemma {:induction false} GatherKeepsAudio(g: Gathered, parts: seq<seq<Bytes.byte>>)
    requires forall k :: 0 <= k < |parts| ==> !IsWav(parts[k])
    ensures Gather(g, parts).audio == g.audio
    decreases |parts|
  {
    if parts != [] {
      GatherKeepsAudio(Step(g, parts[0]), parts[1..]);
    }
  }

  /** The phonemes are the body of the last JSON part; with no JSON part they stay the initial "". */
  lemma {:induction false} LastJsonWins(parts: seq<seq<Bytes.byte>>, k: nat)
    requires k < |parts| && IsJson(parts[k])
    requires forall j :: k < j < |parts| ==> !IsJson(parts[j])
    ensures Gather(Gathered(None, []), parts).phonemes == Some(Body(parts[k]))
  {
    var g := Gathered(None, []);
    Around(parts, k);
    GatherAppend(g, parts[..k], [parts[k]] + parts[k + 1..]);
    var h := Step(Gather(g, parts[..k]), parts[k]);
    assert Gather(Gather(g, parts[..k]), [parts[k]] + parts[k + 1..]) == Gather(h, parts[k + 1..]);
    GatherKeepsPhonemes(h, parts[k + 1..]);
  }

  lemma NoJsonNoPhonemes(parts: seq<seq<Bytes.byte>>)
    requires forall k :: 0 <= k < |parts| ==> !IsJson(parts[k])
    ensures Gather(Gathered(None, []), parts).phonemes == None
  {
    GatherKeepsPhonemes(Gathered(None, []), parts);
  }

  /** The JSON test wins: a part naming both content types never reaches the buffer. */
  lemma JsonPartNotWritten(g: Gathered, part: seq<Bytes.byte>)
    requires IsJson(part)
    ensures Step(g, part).audio == g.audio
    ensures Step(g, part).phonemes == Some(Body(part))
  {
  }

  /** With no WAV part the buffer stays empty. */
  lemma NoWavEmptyBuffer(parts: seq<seq<Bytes.byte>>)
    requires forall k :: 0 <= k < |parts| ==> !IsWav(parts[k])
    ensures Gather(Gathered(None, []), parts).audio == []
  {
    GatherKeepsAudio(Gathered(None, []), parts);
  }

  /** Gathering over a list, split at one of its parts. */
  lemma GatherAt(g: Gathered, parts: seq<seq<Bytes.byte>>, k: nat)
    requires k < |parts|
    ensures Gather(g, parts) == Gather(Step(Gather(g, parts[..k]), parts[k]), parts[k + 1..])
  {
    Around(parts, k);
    GatherAppend(g, parts[..k], [parts[k]] + parts[k + 1..]);
  }

  /** A WAV part written into an empty buffer leaves exactly its body there. */
  lemma WavIntoEmpty(g: Gathered, part: seq<Bytes.byte>)
    requires g.audio == [] && IsWav(part)
    ensures Step(g, part).audio == Body(part)
  {
    OverwriteSpec([], 0, Body(part));
  }

  /** With exactly one WAV part the buffer holds exactly its body. */
  lemma {:induction false} OneWavPart(parts: seq<seq<Bytes.byte>>, k: nat)
    requires k < |parts| && IsWav(parts[k])
    requires forall j :: 0 <= j < |parts| && j != k ==> !IsWav(parts[j])
    ensures Gather(Gathered(None, []), parts).audio == Body(parts[k])
  {
    var g := Gathered(None, []);
    GatherAt(g, parts, k);
    var before, after := parts[..k], parts[k + 1..];
    assert forall j :: 0 <= j < |before| ==> before[j] == parts[j];
    GatherKeepsAudio(g, before);
    var h := Step(Gather(g, before), parts[k]);
    WavIntoEmpty(Gather(g, before), parts[k]);
    assert forall j :: 0 <= j < |after| ==> after[j] == parts[k + 1 + j];
    GatherKeepsAudio(h, after);
  }

  /**
   * A later WAV part overwrites the start of the buffer instead of being
   * appended: its body comes first, and only the bytes of an earlier,
   * longer body past its end survive.
   */
  lemma WavOverwritesStart(g: Gathered, part: seq<Bytes.byte>)
    requires IsWav(part)
    ensures var a := Step(g, part).audio;
            var b := Body(part);
            && |a| == (if |b| < |g.audio| then |g.audio| else |b|)
            && a[..|b|] == b
            && a[|b|..] == (if |b| < |g.audio| then g.audio[|b|..] else [])
  {
    OverwriteSpec(g.audio, 0, Body(part));
  }

  /** Without a Content-Type header the boundary is "". */
  lemma BoundaryWithoutHeader()
    ensures Boundary(None) == ""
  {
    SplitWithout("", BOUNDARY_MARKER);
  }

  /** The boundary never starts or ends with whitespace. */
  lemma BoundaryStripped(contentType: Option<string>)
    ensures var r := Boundary(contentType);
            r == [] || (!Strings.IsSpace(r[0]) && !Strings.IsSpace(r[|r| - 1]))
  {
    var header := if contentType.Some? then contentType.value else "";
    var last := Last(Split(header, BOUNDARY_MARKER));
    assert Boundary(contentType) == Strings.Strip(last);
  }

  /** A header without "boundary=" is taken whole, stripped. */
  lemma {:induction false} BoundaryWithoutMarker(header: string)
    requires !Contains(header, BOUNDARY_MARKER)
    ensures Boundary(Some(header)) == Strings.Strip(header)
  {
    SplitWithout(header, BOUNDARY_MARKER);
  }

  /**
   * Otherwise the boundary is the stripped text after the last
   * "boundary=": after an occurrence, in text that holds no further one.
   */
  lemma {:induction false} BoundaryAfterMarker(header: string)
    requires Contains(header, BOUNDARY_MARKER)
    ensures exists i :: OccursAt(header, BOUNDARY_MARKER, i)
                        && !Contains(header[i + |BOUNDARY_MARKER|..], BOUNDARY_MARKER)
                        && Boundary(Some(header)) == Strings.Strip(header[i + |BOUNDARY_MARKER|..])
  {
    var i := SplitLastAt(header, BOUNDARY_MARKER);
    var after := header[i + |BOUNDARY_MARKER|..];
    assert Last(Split(header, BOUNDARY_MARKER)) == after;
    assert Boundary(Some(header)) == Strings.Strip(after);
  }
}
