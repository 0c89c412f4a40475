/**
 The request to the chat model built in `chat` (backend.py, lines 71-76):
 the texts of the selected chunks, best first, joined by a blank line,
 appended to a fixed system instruction, followed by the user's message.
 */
module Prompt {
  import opened Text

  /** The roles the request uses. */
  datatype Role = System | User

  /** One entry of the `messages` list: `{"role": ..., "content": ...}`. */
  datatype Message = Message(role: Role, content: string)

  /** The fixed system instruction, up to and including the blank line
      after `Icerik:` that precedes the context. */
  const Preamble: string := "Sen Prolon, longevity, prolon.com.tr hakkında yardımcı bir asistansın. Sadece verilen içerikten faydalanarak yanıt ver. Cok kisa olmayan, Ortalama uzunlukta cevap ver. Eğer içerikte bilgiyi kesinlikle bulamazsan, o zaman kendi bilginle cevapla. Kullanıcının ilgilendiği konuyla yardımcı olduktan sonra, ilgili başka bir konu hakkında da bilgi isteyip istemediğini sor. Icerik: \n\n"

  /** What separates two chunk texts in the context: one blank line. */
  const ChunkSeparator: string := "\n\n"

  /** The text of each selected `(text, score)` pair, in the given order. */
  function ChunkTexts(top: seq<(string, real)>): seq<string> {
    seq(|top|, k requires 0 <= k < |top| => top[k].0)
  }

  /** `"\n\n".join([chunk for chunk, _ in top_chunks])`. */
  function Context(top: seq<(string, real)>): (r: string)
    ensures |top| == 0 ==> r == ""
    ensures |top| == 1 ==> r == top[0].0
    ensures |top| > 0 ==> |r| == JoinedLength(ChunkTexts(top)) + (|top| - 1) * |ChunkSeparator|
  {
    Join(ChunkTexts(top), ChunkSeparator)
  }

  /** Where the `k`-th selected text starts inside the context. */
  function ContextOffset(top: seq<(string, real)>, k: nat): nat
    requires k <= |top|
  {
    JoinOffset(ChunkTexts(top), ChunkSeparator, k)
  }

  /** The context lays the selected texts out in rank order: the `k`-th text
      sits at its offset, a blank line follows it unless it is the last, and
      the next text starts right after that blank line. */
  lemma ContextInRankOrder(top: seq<(string, real)>, k: nat)
    requires k < |top|
    ensures OccursAt(Context(top), top[k].0, ContextOffset(top, k))
    ensures k + 1 < |top| ==> OccursAt(Context(top), ChunkSeparator, ContextOffset(top, k) + |top[k].0|)
    ensures ContextOffset(top, k + 1) == ContextOffset(top, k) + |top[k].0| + |ChunkSeparator|
  {
    var texts := ChunkTexts(top);
    JoinPlacesEach(texts, ChunkSeparator, k);
    JoinOffsetStep(texts, ChunkSeparator, k);
    if k + 1 < |top| {
      JoinSeparatorAfter(texts, ChunkSeparator, k);
    }
  }

  /** The two-message request: the instruction with the context, then the
      user's message unchanged. */
  function BuildPrompt(context: string, query: string): (r: seq<Message>)
    ensures |r| == 2
    ensures r[0].role == System && r[1].role == User
    ensures r[1].content == query
    ensures |r[0].content| == |Preamble| + |context|
    ensures r[0].content[..|Preamble|] == Preamble
    ensures r[0].content[|Preamble|..] == context
  {
    [Message(System, Preamble + context), Message(User, query)]
  }

  /** Reads the context back out of a system message built by `BuildPrompt`. */
  function ContextOf(m: Message): Option<string> {
    if m.role == System && |m.content| >= |Preamble| && m.content[..|Preamble|] == Preamble
    then Some(m.content[|Preamble|..])
    else None
  }

  /** The context and the message can both be recovered from the request:
      nothing is lost or altered in building it. */
  lemma PromptRoundTrip(context: string, query: string)
    ensures ContextOf(BuildPrompt(context, query)[0]) == Some(context)
    ensures BuildPrompt(context, query)[1].content == query
    ensures ContextOf(BuildPrompt(context, query)[1]).None?
  {
  }

  /** With no chunk selected the system message is the bare instruction. */
  lemma EmptySelectionBarePreamble(query: string)
    ensures BuildPrompt(Context([]), query)[0].content == Preamble
  {
  }
}
