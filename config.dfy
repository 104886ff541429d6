/** The settings of config.py that the modelled code reads, as constants. */
module Config {

  /** Whether generate_markdown sends the transcript to the local language model. */
  const LlmProcess: bool := true
  const LlmTemperature: real := 0.7
  const LlmMaxTokens: nat := 2000

  /** The system message of the refinement request. */
  const RolePrompt: string := "你是一个专业的文本处理助手"

  /** PROMPT_TEMPLATE is `PromptHead + "{text}" + PromptTail`; it has no other braces. */
  const PromptHead: string := "\n```\n"
  const PromptTail: string := PromptInstruction + PromptRule1 + PromptRule2 + PromptRule3 + PromptRule4
  const PromptInstruction: string := "\n```\n \n请对以上文本处理成markdown格式，要求：\n\n"
  const PromptRule1: string := "1. 如果内容不是简体中文，将内容首先忠实地翻译成简体中文\n"
  const PromptRule2: string := "2. 保持原文的主要内容，尽可能多的保持原文细节\n"
  const PromptRule3: string := "3. 除了新增章节标题外，不要新增任何其他内容\n"
  const PromptRule4: string := "4. 修正可能的语法错误\n"

  const AudioDir: string := "audio"
  const MdDir: string := "md"
  const VideoDir: string := "videos"

  /** SUPPORTED_VIDEO_DOMAINS in its insertion order: domain fragment, platform name. */
  const SupportedVideoDomains: seq<(string, string)> := [
    ("youtube.com", "youtube"),
    ("youtu.be", "youtube"),
    ("bilibili.com", "bilibili")
  ]

  const YoutubeDownloadQuality: string := "best"

  /** An exact Bilibili format id, or "best". */
  const BilibiliFormat: string := "30033"
}
