/**
 * Intent-template expansion for one appliance: `generate_intent_sentences(appliance)`
 * of voice-control/main2.py, which voice-control/voice-control.py repeats
 * line for line. `INTENTS` is the JSON dictionary of intent name to
 * sentence patterns, given here as its items in dictionary order; being a
 * value, it cannot be changed by the expansion.
 */
module Templates {
  import opened Text
  import opened Seqs

  /** The items of `INTENTS`: (intent name, its patterns), in dictionary order. */
  type Intents = seq<(string, seq<string>)>

  /** The placeholder patterns use for the appliance name. */
  const Placeholder: string := "{appliance}"

  /**
   * `p.replace("{appliance}", appliance)`: the pieces of the pattern between
   * placeholders, joined by the appliance name; a pattern without a
   * placeholder is copied verbatim.
   */
  function Instantiate(pattern: string, appliance: string): (r: string)
    ensures r == Join(Split(pattern, Placeholder), appliance)
    ensures !Contains(pattern, Placeholder) ==> r == pattern
  {
    ReplaceIsJoinOfSplit(pattern, Placeholder, appliance);
    ReplaceAll(pattern, Placeholder, appliance)
  }

  /** `n` copies of `x`. */
  function Repeat(x: string, n: nat): (r: seq<string>)
    ensures |r| == n
    ensures forall i :: 0 <= i < n ==> r[i] == x
  {
    if n == 0 then [] else Repeat(x, n - 1) + [x]
  }

  /** Two runs of copies make one run. */
  lemma {:induction false} RepeatAdd(x: string, a: nat, b: nat)
    ensures Repeat(x, a) + Repeat(x, b) == Repeat(x, a + b)
    decreases b
  {
    if b > 0 {
      RepeatAdd(x, a, b - 1);
    }
  }

  /** The patterns of one intent, each instantiated for `appliance`, in pattern order. */
  function Fill(patterns: seq<string>, appliance: string): (r: seq<string>)
    ensures |r| == |patterns|
  {
    if patterns == [] then []
    else Fill(patterns[..|patterns| - 1], appliance) + [Instantiate(patterns[|patterns| - 1], appliance)]
  }

  /** Sentence `p` of an intent's block is its pattern `p`, instantiated. */
  lemma {:induction false} FillAt(patterns: seq<string>, appliance: string, p: nat)
    requires p < |patterns|
    ensures Fill(patterns, appliance)[p] == Instantiate(patterns[p], appliance)
    decreases |patterns|
  {
    var n := |patterns| - 1;
    if p < n {
      assert patterns[..n][p] == patterns[p];
      FillAt(patterns[..n], appliance, p);
    }
  }

  /** Instantiating one more pattern appends its sentence. */
  lemma FillSnoc(patterns: seq<string>, appliance: string, p: nat)
    requires p < |patterns|
    ensures Fill(patterns[..p + 1], appliance) == Fill(patterns[..p], appliance) + [Instantiate(patterns[p], appliance)]
  {
    TakeTake(patterns, p + 1, p);
  }

  /** The number of patterns over all intents. */
  function TotalPatterns(intents: Intents): nat {
    if intents == [] then 0
    else TotalPatterns(intents[..|intents| - 1]) + |intents[|intents| - 1].1|
  }

  /** The sentences for one appliance: intent by intent, pattern by pattern. */
  function ExpandFor(intents: Intents, appliance: string): (r: seq<string>)
    ensures |r| == TotalPatterns(intents)
  {
    if intents == [] then []
    else ExpandFor(intents[..|intents| - 1], appliance) + Fill(intents[|intents| - 1].1, appliance)
  }

  /** The label of each sentence: its intent's name, once per pattern. */
  function LabelsFor(intents: Intents): (r: seq<string>)
    ensures |r| == TotalPatterns(intents)
  {
    if intents == [] then []
    else LabelsFor(intents[..|intents| - 1]) + Repeat(intents[|intents| - 1].0, |intents[|intents| - 1].1|)
  }

  /** Patterns of earlier intents come first: pattern `p` of intent `i` sits after all patterns of intents before `i`. */
  lemma {:induction false} TotalPatternsPrefix(intents: Intents, i: nat)
    requires i < |intents|
    ensures TotalPatterns(intents[..i]) + |intents[i].1| <= TotalPatterns(intents)
    decreases |intents|
  {
    var n := |intents| - 1;
    assert intents[..n + 1] == intents;
    if i < n {
      TakeTake(intents, n, i);
      TotalPatternsPrefix(intents[..n], i);
    } else {
      assert intents[..n] == intents[..i];
    }
  }

  /**
   * Order: the sentence at position `TotalPatterns(intents[..i]) + p` is
   * pattern `p` of intent `i` with the appliance substituted.
   */
  lemma {:induction false} ExpandForAt(intents: Intents, appliance: string, i: nat, p: nat)
    requires i < |intents| && p < |intents[i].1|
    ensures TotalPatterns(intents[..i]) + p < TotalPatterns(intents)
    ensures ExpandFor(intents, appliance)[TotalPatterns(intents[..i]) + p] == Instantiate(intents[i].1[p], appliance)
    decreases |intents|
  {
    TotalPatternsPrefix(intents, i);
    var n := |intents| - 1;
    assert intents[..n + 1] == intents;
    if i < n {
      TakeTake(intents, n, i);
      ExpandForAt(intents[..n], appliance, i, p);
    } else {
      assert intents[..n] == intents[..i];
      FillAt(intents[i].1, appliance, p);
    }
  }

  /** Labelling: the sentence at position `TotalPatterns(intents[..i]) + p` is labelled with the name of intent `i`. */
  lemma {:induction false} LabelsForAt(intents: Intents, i: nat, p: nat)
    requires i < |intents| && p < |intents[i].1|
    ensures TotalPatterns(intents[..i]) + p < TotalPatterns(intents)
    ensures LabelsFor(intents)[TotalPatterns(intents[..i]) + p] == intents[i].0
    decreases |intents|
  {
    TotalPatternsPrefix(intents, i);
    var n := |intents| - 1;
    assert intents[..n + 1] == intents;
    if i < n {
      TakeTake(intents, n, i);
      LabelsForAt(intents[..n], i, p);
    } else {
      assert intents[..n] == intents[..i];
    }
  }

  /**
   * The innermost loop of every generator, `for p in patterns:`, appending
   * the instantiated pattern to `sentences` and the intent's name to `labels`.
   */
  method AppendPatterns(sentences: seq<string>, labels: seq<string>, intent: string, patterns: seq<string>, appliance: string)
    returns (sentences': seq<string>, labels': seq<string>)
    ensures sentences' == sentences + Fill(patterns, appliance)
    ensures labels' == labels + Repeat(intent, |patterns|)
  {
    sentences', labels' := sentences, labels;
    for p := 0 to |patterns|
      invariant sentences' == sentences + Fill(patterns[..p], appliance)
      invariant labels' == labels + Repeat(intent, p)
    {
      FillSnoc(patterns, appliance, p);
      var sentence := Instantiate(patterns[p], appliance);
      sentences' := sentences' + [sentence];
      labels' := labels' + [intent];
    }
    assert patterns[..|patterns|] == patterns;
  }

  /**
   * `generate_intent_sentences(appliance)`: for each intent, in dictionary
   * order, one sentence and one label per pattern.
   */
  method GenerateIntentSentences(intents: Intents, appliance: string) returns (sentences: seq<string>, labels: seq<string>)
    ensures sentences == ExpandFor(intents, appliance)
    ensures labels == LabelsFor(intents)
    ensures |sentences| == |labels| == TotalPatterns(intents)
  {
    sentences, labels := [], [];
    for i := 0 to |intents|
      invariant sentences == ExpandFor(intents[..i], appliance)
      invariant labels == LabelsFor(intents[..i])
    {
      sentences, labels := AppendPatterns(sentences, labels, intents[i].0, intents[i].1, appliance);
      TakeTake(intents, i + 1, i);
    }
    assert intents[..|intents|] == intents;
  }
}
