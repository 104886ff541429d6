/** text.py: the request sent to the local language model, the decision on its reply
    (fall back to the original text on any failure), and the layout of the Markdown file.
    The HTTP post and `os.path.relpath` are oracles. */
module Text {
  import opened Wrappers
  import opened Strings
  import Image
  import Config

  // ---------------------------------------------------------------- the request

  /** `template.format(text=text)` for a template whose only replacement field is
      `{text}`: every `{text}` is replaced by the text, nothing else changes. */
  function FormatText(template: string, text: string): string
    decreases |template|
  {
    if template == [] then []
    else if HasPrefix(template, "{text}") then text + FormatText(template[6..], text)
    else [template[0]] + FormatText(template[1..], text)
  }

  /** A template piece free of braces: no replacement field and no stray `}`, on which
      `format` would raise. */
  predicate NoBraces(s: string) {
    '{' !in s && '}' !in s
  }

  /** A template piece without braces comes through unchanged. */
  lemma {:induction false} FormatTextVerbatim(s: string, text: string)
    requires NoBraces(s)
    ensures FormatText(s, text) == s
    decreases |s|
  {
    if s != [] {
      assert s[0] != '{';
      assert !HasPrefix(s, "{text}");
      FormatTextVerbatim(s[1..], text);
    }
  }

  /** Formatting distributes over a split that does not cut through `{text}`. */
  lemma {:induction false} FormatTextAppend(head: string, rest: string, text: string)
    requires NoBraces(head)
    ensures FormatText(head + rest, text) == head + FormatText(rest, text)
    decreases |head|
  {
    if head == [] {
      assert head + rest == rest;
    } else {
      assert (head + rest)[0] == head[0] != '{';
      assert !HasPrefix(head + rest, "{text}");
      assert (head + rest)[1..] == head[1..] + rest;
      FormatTextAppend(head[1..], rest, text);
    }
  }

  /** PROMPT_TEMPLATE. */
  const PromptTemplate: string := Config.PromptHead + "{text}" + Config.PromptTail

  /** Filling a `head{text}tail` template puts the text verbatim between head and tail. */
  lemma FillTemplate(head: string, tail: string, text: string)
    requires NoBraces(head) && NoBraces(tail)
    ensures FormatText(head + "{text}" + tail, text) == head + text + tail
  {
    var rest := "{text}" + tail;
    AppendAssoc(head, "{text}", tail);
    FormatTextAppend(head, rest, text);
    assert rest[..6] == "{text}" && rest[6..] == tail;
    assert FormatText(rest, text) == text + FormatText(tail, text);
    FormatTextVerbatim(tail, text);
  }

  /** The configured template has no replacement field besides `{text}`. */
  lemma PromptPiecesHaveNoBraces()
    ensures NoBraces(Config.PromptHead) && NoBraces(Config.PromptTail)
  {
    InstructionHasNoBraces();
    Rule1HasNoBraces();
    Rule2HasNoBraces();
    Rule3HasNoBraces();
    Rule4HasNoBraces();
  }

  lemma InstructionHasNoBraces()
    ensures NoBraces(Config.PromptInstruction)
  {
  }

  lemma Rule1HasNoBraces()
    ensures NoBraces(Config.PromptRule1)
  {
  }

  lemma Rule2HasNoBraces()
    ensures NoBraces(Config.PromptRule2)
  {
  }

  lemma Rule3HasNoBraces()
    ensures NoBraces(Config.PromptRule3)
  {
  }

  lemma Rule4HasNoBraces()
    ensures NoBraces(Config.PromptRule4)
  {
  }

  datatype Message = Message(role: string, content: string)

  /** The JSON body of the chat-completion request. */
  datatype ChatRequest = ChatRequest(messages: seq<Message>, temperature: real, maxTokens: nat)

  /** The request of process_with_local_llm: the role prompt as system message, the filled
      template as user message, and the configured temperature and token limit. The
      transcript sits verbatim inside the user message and can be cut back out of it. */
  function BuildRequest(text: string): (q: ChatRequest)
    ensures |q.messages| == 2
    ensures q.messages[0] == Message("system", Config.RolePrompt)
    ensures q.messages[1] == Message("user", Config.PromptHead + text + Config.PromptTail)
    ensures q.temperature == Config.LlmTemperature && q.maxTokens == Config.LlmMaxTokens
  {
    PromptPiecesHaveNoBraces();
    FillTemplate(Config.PromptHead, Config.PromptTail, text);
    ChatRequest(
      [Message("system", Config.RolePrompt), Message("user", FormatText(PromptTemplate, text))],
      Config.LlmTemperature, Config.LlmMaxTokens)
  }

  /** Different transcripts give different requests: the text can be recovered. */
  lemma BuildRequestInjective(t1: string, t2: string)
    ensures BuildRequest(t1) == BuildRequest(t2) ==> t1 == t2
  {
    if BuildRequest(t1) == BuildRequest(t2) {
      var h, tl := Config.PromptHead, Config.PromptTail;
      var c1, c2 := h + t1 + tl, h + t2 + tl;
      assert c1 == c2;
      assert t1 == c1[|h|..|c1| - |tl|];
      assert t2 == c2[|h|..|c2| - |tl|];
    }
  }

  // ---------------------------------------------------------------- the reply

  /** A decoded JSON value, as Python sees it after `response.json()`. */
  datatype Json = JString(s: string) | JArray(items: seq<Json>) | JObject(fields: map<string, Json>) | JScalar

  datatype Key = Field(name: string) | Position(n: nat)

  /** Python's `v[k]` on decoded JSON; None where it raises (missing key, index out of
      range, wrong type). Indexing a string yields a one-character string. */
  function Index(v: Json, k: Key): Option<Json> {
    match (v, k)
    case (JObject(f), Field(name)) => if name in f then Some(f[name]) else None
    case (JArray(a), Position(n)) => if n < |a| then Some(a[n]) else None
    case (JString(s), Position(n)) => if n < |s| then Some(JString([s[n]])) else None
    case _ => None
  }

  /** `result['choices'][0]['message']['content']`. */
  function ContentOf(body: Json): Option<Json> {
    match Index(body, Field("choices"))
    case None => None
    case Some(cs) =>
      match Index(cs, Position(0))
      case None => None
      case Some(c) =>
        match Index(c, Field("message"))
        case None => None
        case Some(m) => Index(m, Field("content"))
  }

  /** The outcome of `requests.post`: a status with the decoded body (None when the body
      is not JSON), or a raised connection error. */
  datatype Reply = Response(status: int, body: Option<Json>) | ConnectionFailed(reason: string)

  /** The reply carries a completion: status 200, a JSON body, and the content path present. */
  predicate Completed(reply: Reply) {
    reply.Response? && reply.status == 200 && reply.body.Some? && ContentOf(reply.body.value).Some?
  }

  /** The decision of process_with_local_llm: the completion's content on success, and on
      every failure (other status, connection error, malformed body, missing field) the
      original text; it never raises. */
  function Refine(reply: Reply, text: string): (r: Json)
    ensures Completed(reply) ==> r == ContentOf(reply.body.value).value
    ensures !Completed(reply) ==> r == JString(text)
  {
    match reply
    case ConnectionFailed(_) => JString(text)
    case Response(status, body) =>
      if status != 200 then JString(text)
      else match body
        case None => JString(text)
        case Some(b) =>
          match ContentOf(b)
          case None => JString(text)
          case Some(c) => c
  }

  /** process_with_local_llm, with the HTTP post as the oracle `post`. */
  function ProcessWithLocalLlm(post: ChatRequest -> Reply, text: string): (r: Json)
    ensures Completed(post(BuildRequest(text))) ==> r == ContentOf(post(BuildRequest(text)).body.value).value
    ensures !Completed(post(BuildRequest(text))) ==> r == JString(text)
  {
    Refine(post(BuildRequest(text)), text)
  }

  // ---------------------------------------------------------------- the document

  /** Python's `zip`: pairs up to the shorter length, in order. */
  function Zip<A, B>(a: seq<A>, b: seq<B>): (z: seq<(A, B)>)
    ensures |z| == if |a| < |b| then |a| else |b|
    ensures forall i :: 0 <= i < |z| ==> z[i] == (a[i], b[i])
  {
    var n := if |a| < |b| then |a| else |b|;
    seq(n, i requires 0 <= i < n => (a[i], b[i]))
  }

  /** One image reference with its `HH:MM:SS` label. */
  function ImageLine(path: string, pos: nat): string {
    "![关键帧 " + Image.FormatTimestamp(pos) + "](" + path + ")\n\n"
  }

  /** The concatenation of a sequence of lines. */
  function Concat<T>(lines: seq<seq<T>>): seq<T> {
    if lines == [] then [] else Concat(lines[..|lines| - 1]) + lines[|lines| - 1]
  }

  lemma ConcatSnoc<T>(lines: seq<seq<T>>, l: seq<T>)
    ensures Concat(lines + [l]) == Concat(lines) + l
  {
    assert (lines + [l])[..|lines|] == lines;
  }

  /** The concatenation of a sequence is that of its parts, in order. */
  lemma {:induction false} ConcatSplit<T>(lines: seq<seq<T>>, k: nat)
    requires k <= |lines|
    ensures Concat(lines) == Concat(lines[..k]) + Concat(lines[k..])
    decreases |lines|
  {
    if k == |lines| {
      assert lines[..k] == lines;
      assert lines[k..] == [];
    } else {
      var n := |lines|;
      var init, last := lines[..n - 1], lines[n - 1];
      assert lines == init + [last];
      ConcatSplit(init, k);
      assert init[..k] == lines[..k];
      assert lines[k..] == init[k..] + [last];
      ConcatSnoc(init, last);
      ConcatSnoc(init[k..], last);
      AppendAssoc(Concat(init[..k]), Concat(init[k..]), last);
    }
  }

  /** The lines generate_markdown writes for the entries, one per entry, in order. */
  function ImageLines(entries: seq<(string, nat)>): (ls: seq<string>)
    ensures |ls| == |entries|
    ensures forall i :: 0 <= i < |entries| ==> ls[i] == ImageLine(entries[i].0, entries[i].1)
  {
    seq(|entries|, i requires 0 <= i < |entries| => ImageLine(entries[i].0, entries[i].1))
  }

  const KeyFrameHeading: string := "# 关键帧图片\n\n"

  /** The file written by generate_markdown: the body, a blank line, the heading, then
      one line per entry. */
  function Document(body: string, entries: seq<(string, nat)>): string {
    body + "\n\n" + KeyFrameHeading + Concat(ImageLines(entries))
  }

  /** The entries the loop writes: relative image paths zipped with positions. */
  function Entries(imagePaths: seq<string>, positions: seq<nat>, outputMd: string,
                   relpath: (string, string) -> string): (e: seq<(string, nat)>)
    ensures |e| == if |imagePaths| < |positions| then |imagePaths| else |positions|
    ensures forall i :: 0 <= i < |e| ==> e[i] == (relpath(imagePaths[i], Dirname(outputMd)), positions[i])
  {
    var rel := seq(|imagePaths|, i requires 0 <= i < |imagePaths| => relpath(imagePaths[i], Dirname(outputMd)));
    Zip(rel, positions)
  }

  datatype MarkdownError = BodyNotText   // `processed_text + "\n\n"` raises TypeError

  /** The body generate_markdown starts with: refined when LLM_PROCESS is on, raw otherwise. */
  function ProcessedText(text: string, llmProcess: bool, post: ChatRequest -> Reply): Json {
    if llmProcess then ProcessWithLocalLlm(post, text) else JString(text)
  }

  /** What generate_markdown leaves in the output file, or the error it raises. */
  function MarkdownFor(text: string, imagePaths: seq<string>, positions: seq<nat>, outputMd: string,
                       llmProcess: bool, post: ChatRequest -> Reply,
                       relpath: (string, string) -> string): Result<string, MarkdownError>
  {
    match ProcessedText(text, llmProcess, post)
    case JString(body) => Success(Document(body, Entries(imagePaths, positions, outputMd, relpath)))
    case _ => Failure(BodyNotText)
  }

  /** generate_markdown: writes the body, the heading, and one image line per
      `zip(relative_image_paths, positions)` pair, accumulating the file's contents. */
  method GenerateMarkdown(text: string, imagePaths: seq<string>, positions: seq<nat>, outputMd: string,
                          llmProcess: bool, post: ChatRequest -> Reply,
                          relpath: (string, string) -> string) returns (r: Result<string, MarkdownError>)
    ensures r == MarkdownFor(text, imagePaths, positions, outputMd, llmProcess, post, relpath)
  {
    var processed := ProcessedText(text, llmProcess, post);
    var rel := seq(|imagePaths|, i requires 0 <= i < |imagePaths| => relpath(imagePaths[i], Dirname(outputMd)));
    if !processed.JString? {
      return Failure(BodyNotText);
    }
    var out := processed.s + "\n\n";
    out := out + KeyFrameHeading;
    out := WriteImageLines(out, rel, positions);
    return Success(out);
  }

  /** The loop over `zip(relative_image_paths, positions)`: appends one line per pair. */
  method WriteImageLines(out0: string, rel: seq<string>, positions: seq<nat>) returns (out: string)
    ensures out == out0 + Concat(ImageLines(Zip(rel, positions)))
  {
    ghost var lines := ImageLines(Zip(rel, positions));
    out := out0;
    var n := if |rel| < |positions| then |rel| else |positions|;
    var i := 0;
    assert lines[..0] == [];
    assert out == out0 + Concat(lines[..0]);
    while i < n
      invariant 0 <= i <= n == |lines|
      invariant out == out0 + Concat(lines[..i])
    {
      var line := ImageLine(rel[i], positions[i]);
      assert line == lines[i];
      TakeSnoc(lines, i);
      ConcatSnoc(lines[..i], line);
      AppendAssoc(out0, Concat(lines[..i]), line);
      out := out + line;
      i := i + 1;
    }
    assert lines[..n] == lines;
  }

  /** LLM_PROCESS is configured on, so the transcript is always sent for refinement. */
  lemma ConfiguredSwitchRefines(text: string, post: ChatRequest -> Reply)
    ensures ProcessedText(text, Config.LlmProcess, post) == ProcessWithLocalLlm(post, text)
  {
  }

  /** With LLM_PROCESS off, the body is the raw transcript verbatim. */
  lemma RawBodyWhenRefinementOff(text: string, imagePaths: seq<string>, positions: seq<nat>, outputMd: string,
                                 post: ChatRequest -> Reply, relpath: (string, string) -> string)
    ensures MarkdownFor(text, imagePaths, positions, outputMd, false, post, relpath)
            == Success(Document(text, Entries(imagePaths, positions, outputMd, relpath)))
  {
  }

  /** A failed refinement degrades gracefully: the document is written, with the raw
      transcript as its body. */
  lemma RawBodyWhenRefinementFails(text: string, imagePaths: seq<string>, positions: seq<nat>, outputMd: string,
                                   llmProcess: bool, post: ChatRequest -> Reply, relpath: (string, string) -> string)
    requires !Completed(post(BuildRequest(text)))
    ensures MarkdownFor(text, imagePaths, positions, outputMd, llmProcess, post, relpath)
            == Success(Document(text, Entries(imagePaths, positions, outputMd, relpath)))
  {
  }

  /** A completion whose content is a string becomes the body; any other content makes the
      concatenation with "\n\n" raise. */
  lemma RefinedBody(text: string, imagePaths: seq<string>, positions: seq<nat>, outputMd: string,
                    post: ChatRequest -> Reply, relpath: (string, string) -> string)
    requires Completed(post(BuildRequest(text)))
    ensures var c := ContentOf(post(BuildRequest(text)).body.value).value;
            MarkdownFor(text, imagePaths, positions, outputMd, true, post, relpath)
            == if c.JString? then Success(Document(c.s, Entries(imagePaths, positions, outputMd, relpath)))
               else Failure(BodyNotText)
  {
  }

  /** With positions in increasing order and below 100 hours, the labels of the image
      lines increase as strings too. */
  lemma LabelsSorted(entries: seq<(string, nat)>)
    requires forall i, j :: 0 <= i < j < |entries| ==> entries[i].1 <= entries[j].1
    requires forall i :: 0 <= i < |entries| ==> entries[i].1 < 360000
    ensures forall i, j :: 0 <= i < j < |entries| ==>
              LexLe(Image.FormatTimestamp(entries[i].1), Image.FormatTimestamp(entries[j].1))
  {
    forall i, j | 0 <= i < j < |entries|
      ensures LexLe(Image.FormatTimestamp(entries[i].1), Image.FormatTimestamp(entries[j].1))
    {
      Image.TimestampOrder(entries[i].1, entries[j].1);
    }
  }

  /** When every image was saved, image `k` is paired with the position of frame `k`. */
  lemma PairingAlignedWhenAllSaved<F>(frames: seq<F>, positions: seq<nat>, dir: string, raises: (string, F) -> bool)
    requires |positions| == |frames|
    requires forall n :: 1 <= n <= |frames| ==> !raises(Image.ImagePath(dir, n), frames[n - 1])
    ensures var z := Zip(Image.PathsOf(dir, Image.SavedNumbers(frames, dir, raises)), positions);
            |z| == |frames| && forall j :: 0 <= j < |z| ==> z[j] == (Image.ImagePath(dir, j + 1), positions[j])
  {
    Image.AllWritesSaved(frames, dir, raises);
  }

  /** When a write fails, zip pairs the later images with earlier positions: with three
      frames and the write of `2.jpg` raising, `3.jpg` is labelled with the second
      frame's timestamp. */
  lemma FailedWriteShiftsLabels(dir: string, p1: nat, p2: nat, p3: nat)
    ensures var frames := [1, 2, 3];
            var raises := (path: string, f: int) => path == Image.ImagePath(dir, 2);
            Zip(Image.PathsOf(dir, Image.SavedNumbers(frames, dir, raises)), [p1, p2, p3])
            == [(Image.ImagePath(dir, 1), p1), (Image.ImagePath(dir, 3), p2)]
  {
    var frames := [1, 2, 3];
    var raises := (path: string, f: int) => path == Image.ImagePath(dir, 2);
    Image.ImagePathInjective(dir, 1, 2);
    Image.ImagePathInjective(dir, 3, 2);
    assert frames[..2] == [1, 2] && frames[..2][..1] == [1] && frames[..2][..1][..0] == [];
    assert Image.SavedNumbers([1], dir, raises) == [1];
    assert Image.SavedNumbers([1, 2], dir, raises) == [1];
    assert Image.SavedNumbers(frames, dir, raises) == [1, 3];
  }
}
