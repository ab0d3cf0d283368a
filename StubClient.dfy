/**
 * agent/client/stub_client.py: `StubClient`, an AI client that answers
 * with canned texts chosen by keywords in the first message. The long
 * example texts are parameters of the model; only the short default reply
 * is spelled out.
 */
module StubClient {
  import opened Seqs
  import opened Strings
  import opened Agent

  const DEFAULT_REPLY: string := "Buy Bobby a puppy. <zh>练习中文发音</zh> My mom may know."

  /** The canned answers of `ask_ai`. */
  datatype Examples = Examples(audiExample1: string, example1: string, example2: string)

  /** The canned texts `ask_ai_stream` streams line by line. */
  datatype StreamTexts = StreamTexts(speaking: string, qna2: string, qna1: string)

  /** The keyword test `content.find(keyword) > 0`. */
  predicate Mentions(content: string, keyword: string)
  {
    Find(content, keyword) > 0
  }

  /**
   * A keyword counts only when its first occurrence is past index 0: a
   * message that starts with the keyword does not mention it.
   */
  lemma MentionsIff(content: string, keyword: string)
    ensures Mentions(content, keyword) <==> Contains(content, keyword) && !OccursAt(content, keyword, 0)
  {
    FindLeast(content, keyword);
    var r := Find(content, keyword);
    if Contains(content, keyword) && !OccursAt(content, keyword, 0) {
      assert r != -1 && r != 0;
    }
  }

  /** `ask_ai`: the reply chosen by the keywords of the first message's content. */
  function AskAi(messages: seq<Message>, ex: Examples): (r: string)
    requires |messages| > 0
    ensures r == ex.audiExample1 || r == ex.example1 || r == ex.example2 || r == DEFAULT_REPLY
    ensures Mentions(messages[0].content, "Spanish") || Mentions(messages[0].content, "Japanese") || r == DEFAULT_REPLY
  {
    var content := messages[0].content;
    if Mentions(content, "Spanish") then
      if Mentions(content, "from the same audio input") then ex.audiExample1 else ex.example1
    else if Mentions(content, "Japanese") then ex.example2
    else DEFAULT_REPLY
  }

  /**
   * Only the first message matters; "Spanish" takes precedence over
   * "Japanese"; within it "from the same audio input" picks the audio
   * example; with no keyword the default reply comes back.
   */
  lemma AskAiDispatch(messages: seq<Message>, ex: Examples)
    requires |messages| > 0
    ensures AskAi(messages, ex) == AskAi([messages[0]], ex)
    ensures (Mentions(messages[0].content, "Spanish"))
              ==> AskAi(messages, ex) == (if Mentions(messages[0].content, "from the same audio input") then ex.audiExample1 else ex.example1)
    ensures (!Mentions(messages[0].content, "Spanish") && Mentions(messages[0].content, "Japanese"))
              ==> AskAi(messages, ex) == ex.example2
    ensures (!Mentions(messages[0].content, "Spanish") && !Mentions(messages[0].content, "Japanese"))
              ==> AskAi(messages, ex) == DEFAULT_REPLY
  {
  }

  /** The text `ask_ai_stream` streams, chosen by the keywords of the first message's content. */
  function StreamSource(messages: seq<Message>, texts: StreamTexts): string
    requires |messages| > 0
  {
    var content := messages[0].content;
    if Mentions(content, "speaking exercises") then texts.speaking
    else if Mentions(content, "tab character") then texts.qna2
    else texts.qna1
  }

  /**
   * Only the first message matters, and the speaking example takes
   * precedence over the second question-and-answer example, which takes
   * precedence over the first one.
   */
  lemma StreamSourceDispatch(messages: seq<Message>, texts: StreamTexts)
    requires |messages| > 0
    ensures StreamSource(messages, texts) == StreamSource([messages[0]], texts)
    ensures Mentions(messages[0].content, "speaking exercises") ==> StreamSource(messages, texts) == texts.speaking
    ensures (!Mentions(messages[0].content, "speaking exercises") && Mentions(messages[0].content, "tab character"))
              ==> StreamSource(messages, texts) == texts.qna2
    ensures (!Mentions(messages[0].content, "speaking exercises") && !Mentions(messages[0].content, "tab character"))
              ==> StreamSource(messages, texts) == texts.qna1
  {
  }

  /** A line that `strip()` leaves non-empty. */
  predicate NonBlank(line: string)
  {
    !All(line, IsSpace)
  }

  /** The chunks the loop yields for the lines: each non-blank line stripped, then "\n". */
  function LineChunks(lines: seq<string>): seq<string>
  {
    if lines == [] then []
    else (if NonBlank(lines[0]) then [Strip(lines[0]), "\n"] else []) + LineChunks(lines[1..])
  }

  /** The non-blank lines, stripped, in order. */
  function StrippedLines(lines: seq<string>): (r: seq<string>)
    ensures forall k :: 0 <= k < |r| ==> r[k] != []
  {
    if lines == [] then []
    else (if NonBlank(lines[0]) then [Strip(lines[0])] else []) + StrippedLines(lines[1..])
  }

  /** `ask_ai_stream`: every non-blank line stripped and followed by "\n", then one more "\n". */
  method AskAiStream(messages: seq<Message>, texts: StreamTexts) returns (chunks: seq<string>)
    requires |messages| > 0
    ensures chunks == LineChunks(Split(StreamSource(messages, texts), "\n")) + ["\n"]
  {
    var content := messages[0].content;
    var lines: seq<string>;
    if Find(content, "speaking exercises") > 0 {
      lines := Split(texts.speaking, "\n");
    } else if Find(content, "tab character") > 0 {
      lines := Split(texts.qna2, "\n");
    } else {
      lines := Split(texts.qna1, "\n");
    }
    chunks := StreamLines(lines);
  }

  /** The loop of `ask_ai_stream` over the lines, and the final "\n". */
  method StreamLines(lines: seq<string>) returns (chunks: seq<string>)
    ensures chunks == LineChunks(lines) + ["\n"]
  {
    chunks := [];
    for i := 0 to |lines|
      invariant chunks + LineChunks(lines[i..]) == LineChunks(lines)
    {
      var line := lines[i];
      ghost var before := chunks;
      ghost var step := if NonBlank(line) then [Strip(line), "\n"] else [];
      assert lines[i..][1..] == lines[i + 1..];
      assert LineChunks(lines[i..]) == step + LineChunks(lines[i + 1..]);
      var stripped := Strip(line);
      if stripped != "" {
        assert step == [stripped, "\n"];
        chunks := chunks + [stripped];
        chunks := chunks + ["\n"];
        assert chunks == before + step;
      } else {
        assert step == [];
        assert chunks == before + step;
      }
      AppendAssoc(before, step, LineChunks(lines[i + 1..]));
    }
    assert lines[|lines|..] == [];
    chunks := chunks + ["\n"];
  }

  /** Each element followed by `sep`. */
  function Interleave<T>(xs: seq<T>, sep: T): seq<T>
  {
    if xs == [] then [] else [xs[0], sep] + Interleave(xs[1..], sep)
  }

  /** Element 2k of the interleaving is xs[k] and element 2k+1 is `sep`. */
  lemma {:induction false} InterleaveShape<T>(xs: seq<T>, sep: T)
    ensures |Interleave(xs, sep)| == 2 * |xs|
    ensures forall k :: 0 <= k < |xs| ==> Interleave(xs, sep)[2 * k] == xs[k] && Interleave(xs, sep)[2 * k + 1] == sep
  {
    if xs != [] {
      var w := Interleave(xs[1..], sep);
      InterleaveShape(xs[1..], sep);
      assert Interleave(xs, sep) == [xs[0], sep] + w;
      forall k | 1 <= k < |xs|
        ensures Interleave(xs, sep)[2 * k] == xs[k] && Interleave(xs, sep)[2 * k + 1] == sep
      {
        assert Interleave(xs, sep)[2 * k] == w[2 * (k - 1)];
        assert Interleave(xs, sep)[2 * k + 1] == w[2 * (k - 1) + 1];
      }
    }
  }

  /** The chunks for the lines are the stripped non-blank lines, each followed by "\n". */
  lemma {:induction false} LineChunksInterleave(lines: seq<string>)
    ensures LineChunks(lines) == Interleave(StrippedLines(lines), "\n")
  {
    if lines != [] {
      LineChunksInterleave(lines[1..]);
      var st := StrippedLines(lines[1..]);
      if NonBlank(lines[0]) {
        assert StrippedLines(lines) == [Strip(lines[0])] + st;
        assert ([Strip(lines[0])] + st)[1..] == st;
      } else {
        assert LineChunks(lines) == LineChunks(lines[1..]);
        assert StrippedLines(lines) == st;
      }
    }
  }

  /**
   * The chunks alternate: chunk 2k is the k-th non-blank line, stripped,
   * and chunk 2k+1 is "\n"; so there are exactly two per non-blank line.
   */
  lemma LineChunksShape(lines: seq<string>)
    ensures |LineChunks(lines)| == 2 * |StrippedLines(lines)|
    ensures forall k :: 0 <= k < |StrippedLines(lines)| ==>
              LineChunks(lines)[2 * k] == StrippedLines(lines)[k] && LineChunks(lines)[2 * k + 1] == "\n"
  {
    LineChunksInterleave(lines);
    InterleaveShape(StrippedLines(lines), "\n");
  }

  /** A stream always has an odd number of chunks: two per non-blank line and the final "\n". */
  lemma StreamLength(messages: seq<Message>, texts: StreamTexts)
    requires |messages| > 0
    ensures var lines := Split(StreamSource(messages, texts), "\n");
            |LineChunks(lines) + ["\n"]| == 2 * |StrippedLines(lines)| + 1
  {
    LineChunksShape(Split(StreamSource(messages, texts), "\n"));
  }
}
