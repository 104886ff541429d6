/** main.py: the older self-contained pipeline. Artifact names are derived from the run's
    date and the video's MD5 digest; key frames are saved without error handling; the
    transcript is refined with main.py's own prompt and laid out under two fixed headings.
    Hashing, the clock, ffmpeg, Whisper and frame differencing are inputs. */
module Legacy {
  import opened Wrappers
  import opened Strings
  import Config
  import Image
  import Text

  // ---------------------------------------------------------------- artifact names

  /** `datetime.now().strftime('%Y%m%d')`: eight decimal digits. */
  predicate IsDateStamp(date: string) {
    |date| == 8 && AllDigits(date)
  }

  /** `hexdigest()` of an MD5 hash: 32 lower-case hexadecimal digits. */
  predicate IsHexDigest(md5: string) {
    |md5| == 32 && forall i :: 0 <= i < |md5| ==> IsDigit(md5[i]) || 'a' <= md5[i] <= 'f'
  }

  /** The name shared by the audio and Markdown files of one run. */
  function RunName(date: string, md5: string): string {
    date + "-" + md5
  }

  function AudioPath(date: string, md5: string): string {
    Join(Config.AudioDir, RunName(date, md5) + ".wav")
  }

  function MdPath(date: string, md5: string): string {
    Join(Config.MdDir, RunName(date, md5) + ".md")
  }

  function ImageDir(md5: string): string {
    Join(Config.MdDir, md5)
  }

  /** The artifacts of one run live at `audio/{date}-{md5}.wav`, `md/{date}-{md5}.md`
      and `md/{md5}`. */
  lemma ArtifactPaths(date: string, md5: string)
    requires IsDateStamp(date) && IsHexDigest(md5)
    ensures AudioPath(date, md5) == "audio/" + RunName(date, md5) + ".wav"
    ensures MdPath(date, md5) == "md/" + RunName(date, md5) + ".md"
    ensures ImageDir(md5) == "md/" + md5
  {
    assert RunName(date, md5)[0] == date[0];
    assert IsDigit(md5[0]) || 'a' <= md5[0] <= 'f';
    var wav := RunName(date, md5) + ".wav";
    assert wav[0] == date[0] && !HasPrefix(wav, "/");
    assert AudioPath(date, md5) == "audio" + "/" + wav;
    assert "audio" + "/" + wav == "audio/" + wav;
    AppendAssoc("audio/", RunName(date, md5), ".wav");
    AppendAssoc("md/", RunName(date, md5), ".md");
  }

  /** `prefix + x + suffix` determines `x`. */
  lemma EnclosedInjective(prefix: string, x1: string, x2: string, suffix: string)
    requires prefix + x1 + suffix == prefix + x2 + suffix
    ensures x1 == x2
  {
    var s1, s2 := prefix + x1 + suffix, prefix + x2 + suffix;
    assert x1 == s1[|prefix|..|s1| - |suffix|];
    assert x2 == s2[|prefix|..|s2| - |suffix|];
  }

  /** With a fixed-width date, the run name determines the date and the digest. */
  lemma RunNameInjective(d1: string, m1: string, d2: string, m2: string)
    requires |d1| == |d2|
    requires RunName(d1, m1) == RunName(d2, m2)
    ensures d1 == d2 && m1 == m2
  {
    var n1, n2 := RunName(d1, m1), RunName(d2, m2);
    assert d1 == n1[..|d1|] && d2 == n2[..|d2|];
    assert m1 == n1[|d1| + 1..] && m2 == n2[|d2| + 1..];
  }

  /** Two runs share an audio file or a Markdown file exactly when they share the date
      and the digest; their image directories coincide exactly when the digests do. */
  lemma ArtifactNamesInjective(d1: string, m1: string, d2: string, m2: string)
    requires IsDateStamp(d1) && IsHexDigest(m1) && IsDateStamp(d2) && IsHexDigest(m2)
    ensures AudioPath(d1, m1) == AudioPath(d2, m2) <==> d1 == d2 && m1 == m2
    ensures MdPath(d1, m1) == MdPath(d2, m2) <==> d1 == d2 && m1 == m2
    ensures ImageDir(m1) == ImageDir(m2) <==> m1 == m2
  {
    ArtifactPaths(d1, m1);
    ArtifactPaths(d2, m2);
    if AudioPath(d1, m1) == AudioPath(d2, m2) {
      EnclosedInjective("audio/", RunName(d1, m1), RunName(d2, m2), ".wav");
      RunNameInjective(d1, m1, d2, m2);
    }
    if MdPath(d1, m1) == MdPath(d2, m2) {
      EnclosedInjective("md/", RunName(d1, m1), RunName(d2, m2), ".md");
      RunNameInjective(d1, m1, d2, m2);
    }
    if ImageDir(m1) == ImageDir(m2) {
      EnclosedInjective("md/", m1, m2, "");
    }
  }

  /** The image directory of a run is never its Markdown file, whatever the dates. */
  lemma ImageDirIsNotMdPath(date: string, md5: string, md5': string)
    requires IsDateStamp(date) && IsHexDigest(md5) && IsHexDigest(md5')
    ensures ImageDir(md5') != MdPath(date, md5)
  {
    ArtifactPaths(date, md5);
    ArtifactPaths(date, md5');
  }

  // ---------------------------------------------------------------- saving images

  /** `output_dir/1.jpg`, ..., `output_dir/{count}.jpg`. */
  function NumberedPaths(dir: string, count: nat): (ps: seq<string>)
    ensures |ps| == count
    ensures forall i :: 0 <= i < count ==> ps[i] == Image.ImagePath(dir, i + 1)
  {
    seq(count, i requires 0 <= i < count => Image.ImagePath(dir, i + 1))
  }

  /** One more image adds its path at the end. */
  lemma NumberedPathsSnoc(dir: string, count: nat)
    ensures NumberedPaths(dir, count + 1) == NumberedPaths(dir, count) + [Image.ImagePath(dir, count + 1)]
  {
  }

  /** The exception that escapes main.py's save_images: the write of image `n` raised. */
  datatype SaveFailure = WriteRaised(n: nat)

  /** The number of the first image after the first `k` whose write raises, if any. */
  function FirstRaisingWrite<F>(images: seq<F>, dir: string, raises: (string, F) -> bool, k: nat): (r: Option<nat>)
    ensures r.None? <==> forall n :: k < n <= |images| ==> !raises(Image.ImagePath(dir, n), images[n - 1])
    ensures r.Some? ==> && k < r.value <= |images|
                        && raises(Image.ImagePath(dir, r.value), images[r.value - 1])
                        && forall n :: k < n < r.value ==> !raises(Image.ImagePath(dir, n), images[n - 1])
    decreases |images| - k
  {
    if k >= |images| then None
    else if raises(Image.ImagePath(dir, k + 1), images[k]) then Some(k + 1)
    else FirstRaisingWrite(images, dir, raises, k + 1)
  }

  /** main.py's save_images: writes the images to `output_dir/1.jpg` ... in enumeration
      order and returns every name. There is no handler: the first write that raises ends
      the call with its exception. The value `cv2.imwrite` returns is ignored. */
  method SaveImages<F>(images: seq<F>, dir: string, raises: (string, F) -> bool)
    returns (r: Result<seq<string>, SaveFailure>)
    ensures match FirstRaisingWrite(images, dir, raises, 0)
            case None => r == Success(NumberedPaths(dir, |images|))
            case Some(n) => r == Failure(WriteRaised(n))
  {
    var paths: seq<string> := [];
    var idx := 0;
    while idx < |images|
      invariant 0 <= idx <= |images|
      invariant paths == NumberedPaths(dir, idx)
      invariant FirstRaisingWrite(images, dir, raises, 0) == FirstRaisingWrite(images, dir, raises, idx)
    {
      var imgPath := Image.ImagePath(dir, idx + 1);
      if raises(imgPath, images[idx]) {
        assert FirstRaisingWrite(images, dir, raises, idx) == Some(idx + 1);
        return Failure(WriteRaised(idx + 1));
      }
      assert FirstRaisingWrite(images, dir, raises, idx) == FirstRaisingWrite(images, dir, raises, idx + 1);
      NumberedPathsSnoc(dir, idx);
      paths := paths + [imgPath];
      idx := idx + 1;
    }
    assert FirstRaisingWrite(images, dir, raises, idx) == None;
    return Success(paths);
  }

  /** The newer save_images, when no write raises, returns the same paths as the older one. */
  lemma SaveImagesAgree<F>(images: seq<F>, dir: string, raises: (string, F) -> bool)
    requires forall n :: 1 <= n <= |images| ==> !raises(Image.ImagePath(dir, n), images[n - 1])
    ensures FirstRaisingWrite(images, dir, raises, 0).None?
    ensures Image.PathsOf(dir, Image.SavedNumbers(images, dir, raises)) == NumberedPaths(dir, |images|)
  {
    Image.AllWritesSaved(images, dir, raises);
  }

  /** The saved images never overwrite each other. */
  lemma SavedPathsDistinct(dir: string, paths: seq<string>)
    requires forall i :: 0 <= i < |paths| ==> paths[i] == Image.ImagePath(dir, i + 1)
    ensures forall i, j :: 0 <= i < j < |paths| ==> paths[i] != paths[j]
  {
    forall i, j | 0 <= i < j < |paths|
      ensures paths[i] != paths[j]
    {
      Image.ImagePathInjective(dir, i + 1, j + 1);
    }
  }

  // ---------------------------------------------------------------- refinement

  const RolePrompt: string := "你是一个专业的文本处理助手，擅长优化和改进文本内容。"

  /** main.py's PROMPT_TEMPLATE is `PromptHead + "{text}" + PromptTail`. */
  const PromptHead: string := "\n请对以下文本进行处理和优化：\n```\n"
  const PromptTail: string := PromptInstruction + PromptRule1 + PromptRule2 + PromptRule3 + PromptRule4
  const PromptInstruction: string := "\n```\n\n要求：\n"
  const PromptRule1: string := "1. 如果内容不是中文，将内容首先翻译成中文\n"
  const PromptRule2: string := "2. 保持原文的主要内容\n"
  const PromptRule3: string := "3. 优化文本的组织结构\n"
  const PromptRule4: string := "4. 修正可能的语法错误\n"

  /** main.py's template has no replacement field besides `{text}`. */
  lemma PromptPiecesHaveNoBraces()
    ensures Text.NoBraces(PromptHead) && Text.NoBraces(PromptTail)
  {
    HeadHasNoBraces();
    InstructionHasNoBraces();
    Rule1HasNoBraces();
    Rule2HasNoBraces();
    Rule3HasNoBraces();
    Rule4HasNoBraces();
  }

  lemma HeadHasNoBraces()
    ensures Text.NoBraces(PromptHead)
  {
  }

  lemma InstructionHasNoBraces()
    ensures Text.NoBraces(PromptInstruction)
  {
  }

  lemma Rule1HasNoBraces()
    ensures Text.NoBraces(PromptRule1)
  {
  }

  lemma Rule2HasNoBraces()
    ensures Text.NoBraces(PromptRule2)
  {
  }

  lemma Rule3HasNoBraces()
    ensures Text.NoBraces(PromptRule3)
  {
  }

  lemma Rule4HasNoBraces()
    ensures Text.NoBraces(PromptRule4)
  {
  }

  const PromptTemplate: string := PromptHead + "{text}" + PromptTail

  /** The request of main.py's process_with_local_llm: its own role prompt and template,
      temperature 0.7 and at most 2000 tokens, with the transcript verbatim inside. */
  function BuildRequest(text: string): (q: Text.ChatRequest)
    ensures |q.messages| == 2
    ensures q.messages[0] == Text.Message("system", RolePrompt)
    ensures q.messages[1] == Text.Message("user", PromptHead + text + PromptTail)
    ensures q.temperature == 0.7 && q.maxTokens == 2000
  {
    PromptPiecesHaveNoBraces();
    Text.FillTemplate(PromptHead, PromptTail, text);
    Text.ChatRequest(
      [Text.Message("system", RolePrompt), Text.Message("user", Text.FormatText(PromptTemplate, text))],
      0.7, 2000)
  }

  /** main.py's process_with_local_llm: the completion's content, or the original text on
      a non-200 status or any exception. */
  function ProcessWithLocalLlm(post: Text.ChatRequest -> Text.Reply, text: string): (r: Text.Json)
    ensures Text.Completed(post(BuildRequest(text))) ==> r == Text.ContentOf(post(BuildRequest(text)).body.value).value
    ensures !Text.Completed(post(BuildRequest(text))) ==> r == Text.JString(text)
  {
    Text.Refine(post(BuildRequest(text)), text)
  }

  // ---------------------------------------------------------------- the document

  function ImageLine(relPath: string): string {
    "![关键帧](" + relPath + ")\n\n"
  }

  function ImageLines(relPaths: seq<string>): (ls: seq<string>)
    ensures |ls| == |relPaths|
    ensures forall i :: 0 <= i < |relPaths| ==> ls[i] == ImageLine(relPaths[i])
  {
    seq(|relPaths|, i requires 0 <= i < |relPaths| => ImageLine(relPaths[i]))
  }

  const Title: string := "# 视频转录与关键帧\n\n"
  const TranscriptHeading: string := "## 转录文本\n\n"
  const ImagesHeading: string := "## 关键帧图片\n\n"

  /** The layout of main.py's Markdown file. */
  function Document(body: string, relPaths: seq<string>): string {
    Title + TranscriptHeading + body + "\n\n" + ImagesHeading + Text.Concat(ImageLines(relPaths))
  }

  /** `[os.path.relpath(p, os.path.dirname(output_md)) for p in image_paths]`. */
  function RelativePaths(imagePaths: seq<string>, outputMd: string, relpath: (string, string) -> string): (rs: seq<string>)
    ensures |rs| == |imagePaths|
    ensures forall i :: 0 <= i < |rs| ==> rs[i] == relpath(imagePaths[i], Dirname(outputMd))
  {
    seq(|imagePaths|, i requires 0 <= i < |imagePaths| => relpath(imagePaths[i], Dirname(outputMd)))
  }

  /** What main.py's generate_markdown leaves in the output file, or its TypeError. */
  function MarkdownFor(text: string, imagePaths: seq<string>, outputMd: string,
                       post: Text.ChatRequest -> Text.Reply,
                       relpath: (string, string) -> string): Result<string, Text.MarkdownError>
  {
    match ProcessWithLocalLlm(post, text)
    case JString(body) => Success(Document(body, RelativePaths(imagePaths, outputMd, relpath)))
    case _ => Failure(Text.BodyNotText)
  }

  /** main.py's generate_markdown: the title, the transcript heading, the processed text,
      the image heading, then one line per image path, accumulated in order. */
  method GenerateMarkdown(text: string, imagePaths: seq<string>, outputMd: string,
                          post: Text.ChatRequest -> Text.Reply,
                          relpath: (string, string) -> string) returns (r: Result<string, Text.MarkdownError>)
    ensures r == MarkdownFor(text, imagePaths, outputMd, post, relpath)
  {
    var processed := ProcessWithLocalLlm(post, text);
    var rel := RelativePaths(imagePaths, outputMd, relpath);
    var out := Title;
    out := out + TranscriptHeading;
    if !processed.JString? {
      return Failure(Text.BodyNotText);
    }
    out := out + processed.s;
    out := out + "\n\n";
    out := out + ImagesHeading;
    ghost var head := out;
    ghost var lines := ImageLines(rel);
    assert lines[..0] == [];
    assert out == head + Text.Concat(lines[..0]);
    var i := 0;
    while i < |rel|
      invariant 0 <= i <= |rel| == |lines|
      invariant out == head + Text.Concat(lines[..i])
    {
      var line := ImageLine(rel[i]);
      TakeSnoc(lines, i);
      Text.ConcatSnoc(lines[..i], line);
      AppendAssoc(head, Text.Concat(lines[..i]), line);
      out := out + line;
      i := i + 1;
    }
    assert lines[..|rel|] == lines;
    return Success(out);
  }

  /** A failed refinement leaves the raw transcript as the body. */
  lemma RawBodyWhenRefinementFails(text: string, imagePaths: seq<string>, outputMd: string,
                                   post: Text.ChatRequest -> Text.Reply, relpath: (string, string) -> string)
    requires !Text.Completed(post(BuildRequest(text)))
    ensures MarkdownFor(text, imagePaths, outputMd, post, relpath)
            == Success(Document(text, RelativePaths(imagePaths, outputMd, relpath)))
  {
  }

  /** The document splits into the fixed headings, the body, and the image lines, which
      can be read off one at a time in the order of the image paths. */
  lemma DocumentLayout(body: string, relPaths: seq<string>, k: nat)
    requires k <= |relPaths|
    ensures Document(body, relPaths)
            == Title + TranscriptHeading + body + "\n\n" + ImagesHeading
               + Text.Concat(ImageLines(relPaths[..k])) + Text.Concat(ImageLines(relPaths[k..]))
  {
    var ls := ImageLines(relPaths);
    Text.ConcatSplit(ls, k);
    assert ls[..k] == ImageLines(relPaths[..k]);
    assert ls[k..] == ImageLines(relPaths[k..]);
    AppendAssoc(Title + TranscriptHeading + body + "\n\n" + ImagesHeading,
                     Text.Concat(ls[..k]), Text.Concat(ls[k..]));
  }

  // ---------------------------------------------------------------- the pipeline

  datatype StageFailure =
    | AudioExtractionFailed
    | TranscriptionFailed
    | SaveFailed(write: SaveFailure)
    | MarkdownFailed(e: Text.MarkdownError)

  /** What one run leaves behind. */
  datatype Artifacts = Artifacts(audioPath: string, mdPath: string, imagePaths: seq<string>, markdown: string)

  /** main: with the date and digest given, ffmpeg reporting whether it produced the audio,
      Whisper's transcript (None when it raised), the extracted key frames and the image
      writer as inputs. Each modelled stage's exception ends the run; the digest and the
      key-frame stage are inputs, so their exceptions are not modelled. */
  method Run<F>(date: string, md5: string, audioExtracted: bool, transcript: Option<string>,
                keyFrames: seq<F>, raises: (string, F) -> bool, post: Text.ChatRequest -> Text.Reply,
                relpath: (string, string) -> string) returns (r: Result<Artifacts, StageFailure>)
    ensures !audioExtracted ==> r == Failure(AudioExtractionFailed)
    ensures audioExtracted && transcript.None? ==> r == Failure(TranscriptionFailed)
    ensures audioExtracted && transcript.Some? ==>
              match FirstRaisingWrite(keyFrames, ImageDir(md5), raises, 0)
              case Some(n) => r == Failure(SaveFailed(WriteRaised(n)))
              case None =>
                var images := NumberedPaths(ImageDir(md5), |keyFrames|);
                match MarkdownFor(transcript.value, images, MdPath(date, md5), post, relpath)
                case Success(doc) => r == Success(Artifacts(AudioPath(date, md5), MdPath(date, md5), images, doc))
                case Failure(e) => r == Failure(MarkdownFailed(e))
  {
    var audioPath := AudioPath(date, md5);
    var mdPath := MdPath(date, md5);
    if !audioExtracted {
      return Failure(AudioExtractionFailed);
    }
    if transcript.None? {
      return Failure(TranscriptionFailed);
    }
    var imageDir := ImageDir(md5);
    var saved := SaveImages(keyFrames, imageDir, raises);
    if saved.Failure? {
      return Failure(SaveFailed(saved.error));
    }
    var imagePaths := saved.value;
    var doc := GenerateMarkdown(transcript.value, imagePaths, mdPath, post, relpath);
    match doc
    case Success(d) => return Success(Artifacts(audioPath, mdPath, imagePaths, d));
    case Failure(e) => return Failure(MarkdownFailed(e));
  }
}
