/**
  The string logic of the `/chat` endpoint: the fixed apology when the live
  recommender finds nothing, and the extraction of the assistant's answer
  from the decoded model output.
 */
module ChatEndpoint {
  import opened PyStr
  import opened SplitPieces
  import OsmRecommend

  const AssistantTag: string := "<|im_start|>assistant"
  const EndTag: string := "<|im_end|>"
  const Apology: string := "Sorry, I couldn't find any restaurants nearby."

  /**
    `text.split("<|im_start|>assistant")[-1].strip()` when the tag occurs:
    the stripped text after an occurrence of the tag beyond which the tag
    does not occur again, that is, after its last occurrence.
   */
  function AfterAssistantTag(text: string): (r: string)
    ensures !Contains(text, AssistantTag) ==> r == text
    ensures Contains(text, AssistantTag) ==>
      exists i :: OccursAt(text, AssistantTag, i)
        && !Contains(text[i + |AssistantTag|..], AssistantTag)
        && r == Strip(text[i + |AssistantTag|..])
    ensures !Contains(r, AssistantTag)
    ensures Contains(text, r)
  {
    if Contains(text, AssistantTag) then
      StrippedLastPiece(text, AssistantTag);
      LastPieceAfterLastOccurrence(text, AssistantTag);
      Strip(LastPiece(text, AssistantTag))
    else
      ContainsSelf(text);
      text
  }

  /**
    `text.split("<|im_end|>")[0].strip()` when the end tag occurs: the stripped
    text before its first occurrence.
   */
  function BeforeEndTag(text: string): (r: string)
    ensures !Contains(text, EndTag) ==> r == text
    ensures Contains(text, EndTag) ==> r == Strip(text[..Find(text, EndTag).value])
    ensures !Contains(r, EndTag)
    ensures Contains(text, r)
  {
    if Contains(text, EndTag) then
      StrippedFirstPiece(text, EndTag);
      Strip(Split(text, EndTag)[0])
    else
      ContainsSelf(text);
      text
  }

  /**
    The answer returned by `/chat` for a decoded generation: neither tag is
    left in it, it is a contiguous part of the decoded text, and a text with
    neither tag is returned as it is, not even stripped.
   */
  function ExtractResponse(decoded: string): (r: string)
    ensures !Contains(r, AssistantTag) && !Contains(r, EndTag)
    ensures Contains(decoded, r)
    ensures !Contains(decoded, AssistantTag) && !Contains(decoded, EndTag) ==> r == decoded
  {
    var afterStart := AfterAssistantTag(decoded);
    var r := BeforeEndTag(afterStart);
    NotContainedInSubstring(afterStart, r, AssistantTag);
    ContainsTransitive(decoded, afterStart, r);
    r
  }

  /**
    The `response` field of `/chat`: the apology, without any generation,
    when the recommender found nothing; otherwise the answer extracted from
    the decoded generation, which is an input here.
   */
  function ChatResponse(results: seq<OsmRecommend.LiveResult>, decoded: string): (r: string)
    ensures results == [] ==> r == Apology
    ensures results != [] ==> r == ExtractResponse(decoded)
    ensures results != [] ==> !Contains(r, AssistantTag) && !Contains(r, EndTag) && Contains(decoded, r)
  {
    if results == [] then Apology else ExtractResponse(decoded)
  }
}
