/**
 * `get_model_url`: the avatar shown for a model, chosen by an ordered,
 * case-insensitive substring test where the first matching key wins and
 * Mistral is the default. Icons stand for the image URLs.
 */
module Avatars {
  import opened Text

  /** The avatar images: the user's, and one per model family. */
  datatype Icon = User | Qwen | Claude | Meta | Gemini | Snow | OpenAI | DeepSeek | Grok | Mistral

  /** `get_model_url(model_name)`, its branches in source order. */
  function ModelIcon(modelName: string): (icon: Icon)
    ensures icon != User
  {
    var m := Lower(modelName);
    if Contains(m, "qwen") then Qwen
    else if Contains(m, "claude") then Claude
    else if Contains(m, "llama") then Meta
    else if Contains(m, "gemma") then Gemini
    else if Contains(m, "arctic") then Snow
    else if Contains(m, "gpt") || Contains(m, "o3") then OpenAI
    else if Contains(m, "gemini") then Gemini
    else if Contains(m, "deepseek") then DeepSeek
    else if Contains(m, "grok") then Grok
    else Mistral
  }

  /** The lookup as a table: each key with its icon, in the order they are tried. */
  const IconTable: seq<(string, Icon)> := [
    ("qwen", Qwen), ("claude", Claude), ("llama", Meta), ("gemma", Gemini),
    ("arctic", Snow), ("gpt", OpenAI), ("o3", OpenAI), ("gemini", Gemini),
    ("deepseek", DeepSeek), ("grok", Grok)
  ]

  /** The first table entry at or after `from` whose key occurs in `s`, or
      `|IconTable|` when there is none. */
  function FirstMatch(s: string, from: nat): (k: nat)
    requires from <= |IconTable|
    ensures from <= k <= |IconTable|
    ensures k < |IconTable| ==> Contains(s, IconTable[k].0)
    ensures forall n :: from <= n < k ==> !Contains(s, IconTable[n].0)
    decreases |IconTable| - from
  {
    if from == |IconTable| then from
    else if Contains(s, IconTable[from].0) then from
    else FirstMatch(s, from + 1)
  }

  /** The icon the table gives for an already lower-cased name. */
  function TableIcon(s: string): (icon: Icon) {
    var k := FirstMatch(s, 0);
    if k < |IconTable| then IconTable[k].1 else Mistral
  }

  /** The branches of `get_model_url` are the table read first-match-first on
      the lower-cased name. */
  lemma ModelIconIsFirstMatch(modelName: string)
    ensures ModelIcon(modelName) == TableIcon(Lower(modelName))
  {
    var m := Lower(modelName);
    var k := FirstMatch(m, 0);
    assert IconTable[0] == ("qwen", Qwen) && IconTable[1] == ("claude", Claude);
    assert IconTable[2] == ("llama", Meta) && IconTable[3] == ("gemma", Gemini);
    assert IconTable[4] == ("arctic", Snow) && IconTable[5] == ("gpt", OpenAI);
    assert IconTable[6] == ("o3", OpenAI) && IconTable[7] == ("gemini", Gemini);
    assert IconTable[8] == ("deepseek", DeepSeek) && IconTable[9] == ("grok", Grok);
    if k == 0 {
    } else if k == 1 {
      assert !Contains(m, "qwen");
    } else if k == 2 {
      assert !Contains(m, "qwen") && !Contains(m, "claude");
    } else if k == 3 {
      assert !Contains(m, "qwen") && !Contains(m, "claude") && !Contains(m, "llama");
    } else if k == 4 {
      assert !Contains(m, "qwen") && !Contains(m, "claude") && !Contains(m, "llama") && !Contains(m, "gemma");
    } else {
      assert !Contains(m, "qwen") && !Contains(m, "claude") && !Contains(m, "llama") && !Contains(m, "gemma");
      assert k > 4 ==> !Contains(m, "arctic");
      assert k > 5 ==> !Contains(m, "gpt");
      assert k > 6 ==> !Contains(m, "o3");
      assert k > 7 ==> !Contains(m, "gemini");
      assert k > 8 ==> !Contains(m, "deepseek");
      assert k > 9 ==> !Contains(m, "grok");
    }
  }

  /** The default icon is shown exactly when no key occurs in the lower-cased name. */
  lemma DefaultIconIff(modelName: string)
    ensures ModelIcon(modelName) == Mistral <==>
            forall n :: 0 <= n < |IconTable| ==> !Contains(Lower(modelName), IconTable[n].0)
  {
    ModelIconIsFirstMatch(modelName);
    var k := FirstMatch(Lower(modelName), 0);
    if k < |IconTable| {
      assert IconTable[k].1 != Mistral;
    }
  }

  /** The icon depends only on the lower-cased name. */
  lemma ModelIconCaseInsensitive(modelName: string)
    ensures ModelIcon(Lower(modelName)) == ModelIcon(modelName)
  {
    LowerIdempotent(modelName);
  }

  /** A name in which "claude" occurs, in any case, gets the Claude icon even
      when later keys such as "gpt" occur too; only "qwen" is tried before it.
      "Claude-3-Opus" is such a name. */
  lemma ClaudeNameIsClaude(name: string, i: nat)
    requires OccursAt(Lower(name), "claude", i)
    requires 'q' !in Lower(name)
    ensures ModelIcon(name) == Claude
  {
    ContainsIffOccurs(Lower(name), "claude");
    NotContainsHead(Lower(name), "qwen");
  }

  /** The empty name gets the default icon. */
  lemma EmptyNameIsMistral()
    ensures ModelIcon("") == Mistral
  {
  }
}
