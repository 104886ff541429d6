# video2md — a Dafny model of its decision and formatting core

video2md turns a video (a local file, or a YouTube or Bilibili URL) into a Markdown
document. The document holds the transcript of the audio, optionally refined by a local
language model, followed by key-frame images labelled with their timestamps. Around the
external tools (yt_dlp, ffmpeg, OpenCV, a Whisper server and an OpenAI-style chat
server), the program contains a small amount of deciding and formatting logic. This
project models that logic and proves properties of it:

- `Download` (download.py):
  - what counts as a URL, and the host with one leading `www.` removed;
  - choosing a downloader from the ordered domain table by substring match;
  - the YouTube and Bilibili download flows. Both succeed only when the output file
    exists after the download. The YouTube flow lists the formats on every failure. The
    Bilibili flow checks the configured format id against the catalog first, and lists
    the formats only when the catalog could not be fetched or the id is not in it; an
    empty catalog, a failed download and a missing file raise without a listing. yt_dlp
    and the file system are oracles, and each download returns the trace of oracle calls
    it made.
- `Image` (image.py):
  - the `HH:MM:SS` rendering of a position;
  - the sampling loop of `extract_key_frames`, with the frame reader as an oracle;
  - the numbering and error handling of `save_images`, with the image writer as an oracle.
- `Text` (text.py):
  - the chat-completion request;
  - falling back to the original text whenever refinement fails;
  - the layout of the Markdown file, with the `LLM_PROCESS` switch. The HTTP reply is a
    datatype and `os.path.relpath` is an uninterpreted function.
- `Legacy` (main.py):
  - the earlier pipeline: artifact paths derived from the run date and the video's MD5
    digest;
  - its `save_images`, which has no error handling;
  - its own prompt, fallback and two-heading layout;
  - the order of the stages in `main`.
- `Config` holds the settings of config.py as constants. `Strings` holds the small
  pieces of Python string and `os.path` behaviour the code relies on: `str(n)`,
  `f"{n:02d}"`, `in` on strings, string `<=`, POSIX `join` and `dirname`. `Wrappers`
  holds `Option` and `Result`.

Neither downloader retries with another format or picks a format by resolution: after
a failure they raise (download.py:90-94, 134-141).

## Model

| member | source | states |
|---|---|---|
| Download.UrlSplit | download.py:10 | a network location is found only after a `//`; with a scheme too, the string has the form `scheme://host` |
| Download.IsUrl | download.py:7-13 | true exactly when parsing succeeds and both scheme and netloc are non-empty; a parse error means false; a URL has a `scheme://` prefix with a non-empty host |
| Download.LocalPathIsNotUrl | download.py:7-13 | a string without `://` is never a URL |
| Download.StripWww | download.py:19 | a host starting with `www.` loses exactly those four characters; any other host is returned unchanged |
| Download.StripWwwOnce | download.py:19 | only one `www.` label is removed: `www.` + h gives back h, even when h itself starts with `www.` |
| Download.GetDomain | download.py:15-20 | fails (InvalidUrl) exactly when urlparse raises; otherwise the netloc with one leading `www.` removed, as StripWww characterises |
| Download.PlatformNamed | download.py:29-32 | the two platform names get_downloader builds a downloader for; any other name builds none |
| Download.Dispatch | download.py:27-32 | the platform of the first table entry whose key occurs in the domain and whose name is known; its properties are those of DispatchIsFirstMatch |
| Download.Validated | download.py:108-113 | the Bilibili guard: a non-empty catalog, and the id `best` or one of the catalog's format ids |
| Download.DispatchIsFirstMatch | download.py:27-34 | dispatch gives the platform of the first table entry, in order, whose key is a substring of the domain; it gives nothing exactly when no entry matches |
| Download.GetDownloader | download.py:22-34 | the for-loop with early return gives the first-match platform, fails with UnsupportedSite(domain) when nothing matches, and passes on a parse failure |
| Download.ConfiguredTableYoutube | config.py:31-35 | with the configured table, `youtube.com` and `youtu.be` both select YouTube |
| Download.ConfiguredTableBilibili | config.py:31-35 | with the configured table, every host that contains `bilibili.com` and neither YouTube fragment selects Bilibili, a subdomain such as `m.bilibili.com` included |
| Download.ConfiguredTableRefusesOthers | download.py:27-34 | with the configured table, every host that contains none of `youtube.com`, `youtu.be` and `bilibili.com` selects nothing, so there is no default downloader |
| Download.LookalikeHostIsAccepted | download.py:28 | matching is by substring, so every host that contains `youtube.com` or `youtu.be`, whatever else it contains, is dispatched to YouTube |
| Download.MobileBilibiliHost | config.py:31-35 | the instance `m.bilibili.com` selects Bilibili |
| Download.VimeoRefused | download.py:27-34 | the instance `vimeo.com` selects nothing |
| Download.LookalikeExample | download.py:28 | the instance `youtube.com.example.org` selects YouTube |
| Download.DownloadOptions | download.py:38-43 | the download options are quiet, without warnings, with output template `videos/%(title)s.%(ext)s` and the given format |
| Download.FormatIds | download.py:112 | the catalog's format ids, one per entry and in order; an entry without an id gives None |
| Download.YoutubeHandler | download.py:90-94 | the handler lists the formats once and fails with YoutubeFailed(cause); when the listing itself raises, that error (ListingFailed) is raised instead |
| Download.YoutubeDownload | download.py:72-94 | success exactly when the download reports a path and that path exists; the path is then the one returned; the first call is the one download with the configured quality and no later call downloads; formats are listed exactly on failure; a missing file fails with FileMissing(path) and a download error with ToolError, unless the listing raised, which gives ListingFailed |
| Download.BilibiliDownload | download.py:98-141 | success exactly when the catalog was fetched, is non-empty, contains the configured id (or the id is `best`), and the downloaded file exists; the download is reached exactly when that check passes, and only with the configured id; an empty catalog and an unknown id fail with their own causes; formats are listed exactly when the catalog fetch failed or the id was unknown |
| Download.DownloadVideo | download.py:143-151 | a parse failure or an unsupported site fails with no oracle call; otherwise the result is exactly that of the selected downloader with its configured format |
| Image.Clock | image.py:74-76 | hours*3600 + minutes*60 + seconds equals the input, with minutes and seconds below 60 |
| Image.ClockUnique | image.py:74-76 | that split is the only one with minutes and seconds below 60 |
| Image.FormatTimestamp | image.py:72-77 | the result is `H…H:MM:SS`; below 100 hours it is eight characters with colons at positions 2 and 5 |
| Image.TimestampRoundTrip | image.py:72-77 | the seconds can be read back from every rendered timestamp, so rendering loses nothing |
| Image.Pad2Injective | image.py:77 | distinct numbers get distinct zero-padded fields |
| Image.StampOrder | image.py:77 | for fields below 100, comparing two stamps as strings compares their (hours, minutes, seconds) lexicographically, in both directions |
| Image.ClockOrder | image.py:74-76 | s1 <= s2 exactly when the clock reading of s1 is lexicographically at most that of s2 |
| Image.TimestampOrder | image.py:72-77 | below 100 hours, format_timestamp(s1) <= format_timestamp(s2) as strings exactly when s1 <= s2 |
| Image.Trunc | image.py:26 | Python's `int()` on a float: the integer next to x on the zero side, within 1 of x |
| Image.Duration | image.py:9-11 | the video's length in seconds, `total_frames / frame_rate`, defined only for a non-zero frame rate |
| Image.AttemptCount | image.py:23 | the number of iterations of `range(max_images)`: max_images when positive, otherwise none |
| Image.Interval | image.py:18-21 | `duration / (max_images - 1)` with more than one image, the duration otherwise |
| Image.TargetTimes | image.py:23-25 | one target time per attempt; the first is 0, attempt i is at i * interval, and each follows the previous by the interval |
| Image.LastTargetIsDuration | image.py:18-25 | with more than one attempt, the last target time is exactly the duration |
| Image.TargetFrame | image.py:26 | the frame an attempt seeks to, `int(target_time * frame_rate)`, truncated toward zero |
| Image.SeekAll | image.py:23-30 | one read per attempt, attempt i after seeking to the frame of the i-th target time |
| Image.Attempts | image.py:9-30 | the reads of extract_key_frames, spaced by the interval of the video's duration |
| Image.AttemptsSeekTargetTimes | image.py:23-30 | every attempt i reads after seeking to `int(target_time * frame_rate)` for its target time |
| Image.SeekAllSeeksTargetTimes | image.py:23-30 | for any spacing, attempt i reads after seeking to the frame of `i * interval` |
| Image.FirstAttemptAtStart | image.py:23-26 | there are exactly max_images attempts (none when it is not positive), and the first seeks to frame 0 |
| Image.Kept | image.py:32-36 | the (frame, position) pairs of the successful reads in attempt order, never more than there were attempts |
| Image.KeptAreSuccessfulReads | image.py:30-38 | the kept (frame, position) pairs are exactly the successful reads, in increasing attempt order; every failed read is skipped and every successful one is kept |
| Image.KeptSnoc | image.py:32-36 | one more attempt appends its frame and its position together if the read succeeded, and appends nothing otherwise |
| Image.ReadAttempts | image.py:23-40 | the loop keeps, in order, the frame and the second of every attempt that read a frame |
| Image.ExtractKeyFrames | image.py:6-50 | a zero frame rate raises; otherwise the loop returns the kept frames and positions of the attempts, or raises when none was read; frames and positions have equal length, at most max_images |
| Image.ImagePath | image.py:60 | `os.path.join(output_dir, f"{n}.jpg")` |
| Image.ImagePathInjective | image.py:60 | distinct image numbers give distinct paths in the same directory |
| Image.SavedNumbers | image.py:58-65 | the numbers, counted from 1, of the frames whose write did not raise, in order; characterised by SavedNumbersSpec |
| Image.SavedNumbersSpec | image.py:58-65 | the saved numbers lie in 1..len(frames), strictly increase, and n is saved exactly when writing `n.jpg` did not raise |
| Image.AllWritesSaved | image.py:58-65 | when no write raises, the saved numbers are exactly 1, 2, …, len(frames) |
| Image.PathsOf | image.py:60-62 | one path `dir/n.jpg` per saved number, in order |
| Image.SaveImages | image.py:52-70 | the loop returns the paths of the saved numbers, or raises when no image was saved |
| Text.FormatText | text.py:26 | `template.format(text=text)` for a template whose only fields are `{text}`: each is replaced by the text |
| Text.FormatTextVerbatim | text.py:26 | `format` leaves a piece without `{` or `}` unchanged |
| Text.FormatTextAppend | text.py:26 | `format` applies piecewise across a brace-free prefix |
| Text.FillTemplate | text.py:26 | filling a `head{text}tail` template with brace-free head and tail puts the text verbatim between them |
| Text.PromptPiecesHaveNoBraces | config.py:9-20 | the configured prompt has neither a `{` nor a `}` outside its `{text}` field |
| Text.BuildRequest | text.py:18-31 | two messages: the system message with ROLE_PROMPT, then the user message with the prompt filled with the text verbatim; temperature 0.7 and at most 2000 tokens |
| Text.BuildRequestInjective | text.py:18-31 | different transcripts give different requests |
| Text.Index | text.py:40 | Python's `v[k]` on decoded JSON: a key of an object, a position of a list or a string (a string position giving a one-character string), nothing where it would raise |
| Text.ContentOf | text.py:40 | `result['choices'][0]['message']['content']`, nothing where any step would raise |
| Text.Completed | text.py:38-40 | the reply counts as a completion when its status is 200 and its JSON holds `choices[0].message.content` |
| Text.Refine | text.py:33-50 | a 200 reply whose JSON has `choices[0].message.content` gives that content; a non-200 status, a connection failure or a malformed body gives the original text |
| Text.ProcessWithLocalLlm | text.py:6-50 | the content of the completion for the built request, or the original text whenever that reply is not a completion |
| Text.Zip | text.py:73 | pairs up to the shorter length, elementwise and in order |
| Text.ConcatSplit | text.py:73-75 | the concatenated lines are the concatenation of any prefix followed by that of the rest |
| Text.ImageLine | text.py:74-75 | the line `![关键帧 HH:MM:SS](path)` and a blank line for one image and its position |
| Text.ImageLines | text.py:73-75 | one line `![关键帧 HH:MM:SS](path)` followed by a blank line for each entry, in order |
| Text.Document | text.py:70-75 | the body, `"\n\n"`, the heading `# 关键帧图片`, then the image lines; its layout is proved through GenerateMarkdown |
| Text.ProcessedText | text.py:62-65 | the refined text with LLM_PROCESS on, the raw text otherwise |
| Text.MarkdownFor | text.py:62-75 | the document of the processed text and the entries, or the TypeError of a non-string body |
| Text.ConfiguredSwitchRefines | config.py:2 | with the configured LLM_PROCESS, the body is the refined transcript |
| Text.Entries | text.py:68-73 | min(len(image_paths), len(positions)) entries, entry i pairing the relpath of image i (against the Markdown file's directory) with position i |
| Text.GenerateMarkdown | text.py:52-75 | the method writes exactly the document of its inputs: the body, a blank line, the heading, then the image lines, or raises when the body is not a string |
| Text.WriteImageLines | text.py:73-75 | the write loop appends the image lines of the zipped pairs, in order, to what was already written |
| Text.RawBodyWhenRefinementOff | text.py:62-65 | with LLM_PROCESS off, the document is written with the raw transcript as its body |
| Text.RawBodyWhenRefinementFails | text.py:41-50 | a failed refinement still writes the document, with the raw transcript as its body |
| Text.RefinedBody | text.py:63-71 | a successful refinement gives the content as the body; content that is not a string makes the write raise |
| Text.LabelsSorted | text.py:73-75 | with increasing positions below 100 hours, the image labels increase as strings |
| Text.PairingAlignedWhenAllSaved | text.py:73 | when every image was written, image `k.jpg` is paired with the position of frame k |
| Text.FailedWriteShiftsLabels | text.py:73 | when the write of `2.jpg` out of three fails, `3.jpg` is labelled with the second frame's position |
| Legacy.RunName | main.py:153-154 | the shared file stem `f"{current_date}-{video_md5}"` |
| Legacy.AudioPath | main.py:153 | `os.path.join('audio', f"{date}-{md5}.wav")` |
| Legacy.MdPath | main.py:154 | `os.path.join('md', f"{date}-{md5}.md")` |
| Legacy.ImageDir | main.py:162 | `os.path.join('md', md5)` |
| Legacy.ArtifactPaths | main.py:146-162 | the audio file is `audio/{date}-{md5}.wav`, the Markdown file `md/{date}-{md5}.md` and the image directory `md/{md5}` |
| Legacy.RunNameInjective | main.py:153-154 | with a fixed-width date, `{date}-{md5}` determines the date and the digest |
| Legacy.ArtifactNamesInjective | main.py:142-162 | for 8-digit dates and 32-digit hex digests, two runs share an audio file, a Markdown file or an image directory exactly when they share the date and digest (the digest alone for the directory) |
| Legacy.ImageDirIsNotMdPath | main.py:154-162 | the image directory of a run never coincides with a Markdown file |
| Legacy.NumberedPaths | main.py:70-73 | exactly count paths, path i being `output_dir/{i+1}.jpg` |
| Legacy.FirstRaisingWrite | main.py:70-73 | the first image whose write raises: nothing exactly when no write raises, and otherwise a write that raises with none raising before it |
| Legacy.SaveImages | main.py:65-74 | the first write that raises ends the call with its exception; when none raises the result is exactly len(images) paths `output_dir/1.jpg`… in order |
| Legacy.SaveImagesAgree | main.py:69-74 | when no write raises, the newer save_images returns the same paths as this one |
| Legacy.SavedPathsDistinct | main.py:71 | the saved images never overwrite each other |
| Legacy.PromptPiecesHaveNoBraces | main.py:77-88 | main.py's template has neither a `{` nor a `}` outside its `{text}` field |
| Legacy.BuildRequest | main.py:96-109 | the request carries main.py's role prompt and the template filled with the text verbatim, with temperature 0.7 and at most 2000 tokens |
| Legacy.ProcessWithLocalLlm | main.py:90-121 | the content of the completion, or the original text on a non-200 status or any exception |
| Legacy.ImageLine | main.py:137 | the line `![关键帧](path)` and a blank line for one relative path |
| Legacy.ImageLines | main.py:136-137 | one line `![关键帧](path)` followed by a blank line per relative path, in order |
| Legacy.RelativePaths | main.py:129 | one relative path per image path, against the Markdown file's directory |
| Legacy.Document | main.py:131-137 | title, transcript heading, body, `"\n\n"`, image heading, then the image lines |
| Legacy.MarkdownFor | main.py:126-137 | the document of the refined text and the relative paths, or the TypeError of a non-string body |
| Legacy.GenerateMarkdown | main.py:123-137 | the method writes exactly the document: title, transcript heading, processed text, blank line, image heading, then the image lines; or raises for a non-string body |
| Legacy.RawBodyWhenRefinementFails | main.py:111-121 | a failed refinement writes the document with the raw transcript as its body |
| Legacy.DocumentLayout | main.py:131-137 | the document is the fixed headings and body followed by the image lines of any prefix of the paths, then those of the rest |
| Legacy.Run | main.py:139-166 | a failed audio extraction, transcription or image write stops the run with that stage's error; otherwise the images go to `md/{md5}/1.jpg`… and the result is the Markdown document written to `md/{date}-{md5}.md` with the audio at `audio/{date}-{md5}.wav`, or the error that generate_markdown raised |
| Strings.Pad2 | image.py:77 | `f"{n:02d}"`: at least two digits, and exactly the two decimal digits of n below 100 |
| Strings.LexLe | image.py:77 | Python's `<=` on strings, code point by code point, a proper prefix first; the order TimestampOrder is stated in |
| Strings.LexLePad2 | image.py:77 | for numbers below 100, comparing their two-digit forms as strings compares the numbers |
| Strings.NatToString | image.py:60 | `str(n)`: a non-empty string of digits, of one digit exactly below 10 |
| Strings.ParseNatToString | image.py:60 | reading back `str(n)` gives n |
| Strings.Contains | download.py:28 | `needle in hay`, scanning start positions from the left; characterised by ContainsIff |
| Strings.ContainsIff | download.py:28 | `needle in hay` holds exactly when the needle occurs at some position |
| Strings.Join | main.py:153-154 | POSIX `os.path.join`: an absolute second part replaces the first; otherwise the result ends with the second part |
| Strings.JoinInjective | main.py:153-154 | joining relative names onto one directory keeps them apart |
| Strings.Dirname | text.py:68 | POSIX `os.path.dirname`: a prefix of the path |

## Left out

- yt_dlp itself: `extract_info`, `prepare_filename` and the download are oracles in `Download.Host`. The formatted table that `list_formats` prints is not modelled; only the fact that it is called, and that it may raise, is.
- Download.UrlSplit: models only what `is_url` and `get_domain` read from `urlparse`: case-folding of the scheme, the `//netloc` split up to `/`, `?` or `#`, and the ValueError for an unbalanced `[` or `]`. The rest of `urlparse` (stripping of whitespace and control characters, IPv6 bracket validation, the port check) is not modelled.
- Download.BilibiliDownload: the `"formats" not in locals()` test is modelled as "the catalog fetch raised". The printed messages and the text of the exceptions are not modelled.
- `os.makedirs`, `print`, file writes and file encodings: writes are modelled as the string a file ends up holding.
- Image.ExtractKeyFrames: the positions are whole seconds, not the float `POS_MSEC / 1000`. The frame read is an oracle from (attempt, target frame) to an outcome, so the behaviour of OpenCV seeking is not modelled, and the target times are Dafny reals, not IEEE doubles. `cap.release()` is not modelled.
- Image.SaveImages: `cv2.imwrite` reporting failure by its return value rather than by raising is not modelled: the writer oracle only says whether the call raises.
- Text.Refine: an exception raised while decoding the JSON body is modelled as a reply without a body. The request headers and the server URL are not modelled.
- Text.GenerateMarkdown: when the body is not a string, the file is left empty after `open` and the model returns only the TypeError. `os.path.relpath` is an uninterpreted function.
- Legacy.GenerateMarkdown: when the body is not a string, the file already holds the title and the transcript heading when the TypeError is raised; the model returns only the error.
- Legacy.SaveImages: the images written before the raising one stay on disk; the model returns only the exception. The kind of exception `cv2.imwrite` raises is not modelled, only which write raised.
- `str.format` is modelled only for templates whose single replacement field is `{text}`, which covers both templates in the program.
- `save_text` (text.py:77-93) is file I/O only and is not modelled.
- main.py's `get_video_md5`, `datetime.now`, the ffmpeg extraction and the Whisper request are inputs of `Legacy.Run`: the date and digest strings, a flag for whether audio extraction succeeded, an optional transcript, and which image writes raise.
- Legacy.Run: main.py's frame-differencing `extract_key_frames` (main.py:43-63) depends on OpenCV and numpy pixel differences, so the run takes its key frames as an input. The run therefore cannot fail at that stage, although `range(0, frame_count, int(frame_rate))` raises ValueError for a frame rate below 1 (main.py:160). The digest is an input too, so the failure of `get_video_md5` on a missing file (main.py:144) is not modelled either.
- argparse and the `__main__` entry points are not modelled.
- audio.py (audio extraction and transcription) is not part of this model.
