/** The text prompt sent with the photo for one decade (App.tsx). The
    initial run and a regeneration build the same text, so both use
    `Prompt`. */
module Prompts {
  import opened Wrappers

  const PROMPT_HEAD := "Reimagine the person in this photo in the style of the "
  const PROMPT_TAIL := ". This includes clothing, hairstyle, photo quality, and the overall aesthetic of that decade. The output must be a photorealistic image showing the person clearly."

  /** The template, parameterised only by the decade label. Each prompt
      names its own decade: reading the label back out gives `decade`. */
  function Prompt(decade: string): (p: string)
    ensures DecadeOf(p) == Some(decade)
  {
    var p := PROMPT_HEAD + decade + PROMPT_TAIL;
    assert p[..|PROMPT_HEAD|] == PROMPT_HEAD;
    assert p[|p| - |PROMPT_TAIL|..] == PROMPT_TAIL;
    assert p[|PROMPT_HEAD|..|p| - |PROMPT_TAIL|] == decade;
    p
  }

  /** Reads the decade label back out of a prompt, if it has the template's shape. */
  function DecadeOf(p: string): Option<string> {
    if |p| >= |PROMPT_HEAD| + |PROMPT_TAIL| && p[..|PROMPT_HEAD|] == PROMPT_HEAD && p[|p| - |PROMPT_TAIL|..] == PROMPT_TAIL
    then Some(p[|PROMPT_HEAD|..|p| - |PROMPT_TAIL|])
    else None
  }

  /** A text with the template's shape is the prompt of the decade it names. */
  lemma PromptOfDecade(p: string, decade: string)
    requires DecadeOf(p) == Some(decade)
    ensures Prompt(decade) == p
  {
    assert p == p[..|PROMPT_HEAD|] + p[|PROMPT_HEAD|..|p| - |PROMPT_TAIL|] + p[|p| - |PROMPT_TAIL|..];
  }

  /** Different decades never share a prompt, so no request can be confused
      with another decade's. */
  lemma PromptInjective(a: string, b: string)
    requires Prompt(a) == Prompt(b)
    ensures a == b
  {
  }
}
