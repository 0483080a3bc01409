/**
 * voice-control/main.py: intent-template expansion over every known
 * appliance (`generate_intent_sentences()`, reading the globals `INTENTS`
 * and `APPLIANCES`, here parameters) and the appliance spotter
 * `extract_appliance`.
 */
module VoiceControl {
  import opened Options
  import opened Text
  import opened Templates
  import opened Seqs

  lemma MulSucc(a: nat, b: nat)
    ensures a * b + b == (a + 1) * b
  {
  }

  lemma MulAdd(a: nat, b: nat, c: nat)
    ensures a * b + a * c == a * (b + c)
  {
  }

  /** The sentences of one intent, appliance by appliance and for each appliance pattern by pattern: one per (appliance, pattern). */
  function ExpandIntent(patterns: seq<string>, appliances: seq<string>): (r: seq<string>)
    ensures |r| == |appliances| * |patterns|
  {
    if appliances == [] then []
    else
      var m := |appliances| - 1;
      MulSucc(m, |patterns|);
      ExpandIntent(patterns, appliances[..m]) + Fill(patterns, appliances[m])
  }

  /** All sentences, intent by intent in dictionary order: `len(APPLIANCES)` times the number of patterns. */
  function ExpandAll(intents: Intents, appliances: seq<string>): (r: seq<string>)
    ensures |r| == |appliances| * TotalPatterns(intents)
  {
    if intents == [] then []
    else
      var n := |intents| - 1;
      MulAdd(|appliances|, TotalPatterns(intents[..n]), |intents[n].1|);
      ExpandAll(intents[..n], appliances) + ExpandIntent(intents[n].1, appliances)
  }

  /** The label of every sentence: its intent's name, once per sentence of that intent; one label per sentence. */
  function LabelsAll(intents: Intents, appliances: seq<string>): (r: seq<string>)
    ensures |r| == |ExpandAll(intents, appliances)|
  {
    if intents == [] then []
    else
      var n := |intents| - 1;
      LabelsAll(intents[..n], appliances) + Repeat(intents[n].0, |ExpandIntent(intents[n].1, appliances)|)
  }

  /** Expanding two lists of intents one after the other is expanding their concatenation. */
  lemma {:induction false} ExpandAllAppend(front: Intents, back: Intents, appliances: seq<string>)
    ensures ExpandAll(front + back, appliances) == ExpandAll(front, appliances) + ExpandAll(back, appliances)
    decreases |back|
  {
    if back == [] {
      assert front + back == front;
    } else {
      var m := |back| - 1;
      TakeAppend(front, back);
      ExpandAllAppend(front, back[..m], appliances);
      AppendAssoc(ExpandAll(front, appliances), ExpandAll(back[..m], appliances), ExpandIntent(back[m].1, appliances));
    }
  }

  /** The labels of a concatenation of intent lists are the labels of each, one after the other. */
  lemma {:induction false} LabelsAllAppend(front: Intents, back: Intents, appliances: seq<string>)
    ensures LabelsAll(front + back, appliances) == LabelsAll(front, appliances) + LabelsAll(back, appliances)
    decreases |back|
  {
    if back == [] {
      assert front + back == front;
    } else {
      var m := |back| - 1;
      TakeAppend(front, back);
      LabelsAllAppend(front, back[..m], appliances);
      AppendAssoc(LabelsAll(front, appliances), LabelsAll(back[..m], appliances),
        Repeat(back[m].0, |ExpandIntent(back[m].1, appliances)|));
    }
  }

  /** The same for the appliances of one intent. */
  lemma {:induction false} ExpandIntentAppend(patterns: seq<string>, front: seq<string>, back: seq<string>)
    ensures ExpandIntent(patterns, front + back) == ExpandIntent(patterns, front) + ExpandIntent(patterns, back)
    decreases |back|
  {
    if back == [] {
      assert front + back == front;
    } else {
      var m := |back| - 1;
      TakeAppend(front, back);
      ExpandIntentAppend(patterns, front, back[..m]);
      AppendAssoc(ExpandIntent(patterns, front), ExpandIntent(patterns, back[..m]), Fill(patterns, back[m]));
    }
  }

  /**
   * Order of `generate_intent_sentences()`, intent by intent: the sentences
   * of intent `i` (each labelled with its name) come after those of the
   * intents before it and before those of the intents after it.
   */
  lemma IntentBlock(intents: Intents, appliances: seq<string>, i: nat)
    requires i < |intents|
    ensures ExpandAll(intents, appliances)
      == ExpandAll(intents[..i], appliances) + ExpandIntent(intents[i].1, appliances) + ExpandAll(intents[i + 1..], appliances)
    ensures LabelsAll(intents, appliances)
      == LabelsAll(intents[..i], appliances) + Repeat(intents[i].0, |ExpandIntent(intents[i].1, appliances)|)
        + LabelsAll(intents[i + 1..], appliances)
  {
    assert intents == intents[..i + 1] + intents[i + 1..];
    ExpandAllAppend(intents[..i + 1], intents[i + 1..], appliances);
    LabelsAllAppend(intents[..i + 1], intents[i + 1..], appliances);
    ExpandAllSnoc(intents, appliances, i);
  }

  /**
   * Order within one intent, appliance by appliance: the sentences for
   * appliance `j` (its patterns in order) come after those for the
   * appliances before it and before those for the appliances after it.
   */
  lemma ApplianceBlock(patterns: seq<string>, appliances: seq<string>, j: nat)
    requires j < |appliances|
    ensures ExpandIntent(patterns, appliances)
      == ExpandIntent(patterns, appliances[..j]) + Fill(patterns, appliances[j]) + ExpandIntent(patterns, appliances[j + 1..])
  {
    assert appliances == appliances[..j + 1] + appliances[j + 1..];
    ExpandIntentAppend(patterns, appliances[..j + 1], appliances[j + 1..]);
    ExpandIntentSnoc(patterns, appliances, j);
  }

  /**
   * With a single known appliance, the expansion of voice-control/main.py
   * coincides with the per-appliance expansion of voice-control/main2.py.
   */
  lemma {:induction false} SingleApplianceAgrees(intents: Intents, appliance: string)
    ensures ExpandAll(intents, [appliance]) == ExpandFor(intents, appliance)
    ensures LabelsAll(intents, [appliance]) == LabelsFor(intents)
    decreases |intents|
  {
    if intents != [] {
      var n := |intents| - 1;
      SingleApplianceAgrees(intents[..n], appliance);
      assert [appliance][..0] == [];
      assert ExpandIntent(intents[n].1, [appliance]) == Fill(intents[n].1, appliance);
    }
  }

  /** Extending the list of appliances by one extends an intent's sentences by that appliance's block. */
  lemma ExpandIntentSnoc(patterns: seq<string>, appliances: seq<string>, j: nat)
    requires j < |appliances|
    ensures ExpandIntent(patterns, appliances[..j + 1]) == ExpandIntent(patterns, appliances[..j]) + Fill(patterns, appliances[j])
    ensures |ExpandIntent(patterns, appliances[..j + 1])| == |ExpandIntent(patterns, appliances[..j])| + |patterns|
  {
    TakeTake(appliances, j + 1, j);
  }

  /** Extending the list of intents by one extends the sentences and labels by that intent's block. */
  lemma ExpandAllSnoc(intents: Intents, appliances: seq<string>, i: nat)
    requires i < |intents|
    ensures ExpandAll(intents[..i + 1], appliances) == ExpandAll(intents[..i], appliances) + ExpandIntent(intents[i].1, appliances)
    ensures LabelsAll(intents[..i + 1], appliances)
      == LabelsAll(intents[..i], appliances) + Repeat(intents[i].0, |ExpandIntent(intents[i].1, appliances)|)
  {
    TakeTake(intents, i + 1, i);
  }

  /**
   * The middle loop of `generate_intent_sentences()`, `for appliance in APPLIANCES:`,
   * running the pattern loop once per appliance.
   */
  method AppendIntent(sentences: seq<string>, labels: seq<string>, intent: string, patterns: seq<string>, appliances: seq<string>)
    returns (sentences': seq<string>, labels': seq<string>)
    ensures sentences' == sentences + ExpandIntent(patterns, appliances)
    ensures labels' == labels + Repeat(intent, |ExpandIntent(patterns, appliances)|)
  {
    sentences', labels' := sentences, labels;
    for j := 0 to |appliances|
      invariant sentences' == sentences + ExpandIntent(patterns, appliances[..j])
      invariant labels' == labels + Repeat(intent, |ExpandIntent(patterns, appliances[..j])|)
    {
      RepeatAdd(intent, |ExpandIntent(patterns, appliances[..j])|, |patterns|);
      sentences', labels' := AppendPatterns(sentences', labels', intent, patterns, appliances[j]);
      ExpandIntentSnoc(patterns, appliances, j);
    }
    assert appliances[..|appliances|] == appliances;
  }

  /**
   * `generate_intent_sentences()`: three nested loops (intent, then
   * appliance in `AppendIntent`, then pattern in `AppendPatterns`)
   * appending one sentence and one label at a time.
   */
  method GenerateIntentSentences(intents: Intents, appliances: seq<string>) returns (sentences: seq<string>, labels: seq<string>)
    ensures sentences == ExpandAll(intents, appliances)
    ensures labels == LabelsAll(intents, appliances)
    ensures |sentences| == |labels| == |appliances| * TotalPatterns(intents)
  {
    sentences, labels := [], [];
    for i := 0 to |intents|
      invariant sentences == ExpandAll(intents[..i], appliances)
      invariant labels == LabelsAll(intents[..i], appliances)
    {
      sentences, labels := AppendIntent(sentences, labels, intents[i].0, intents[i].1, appliances);
      ExpandAllSnoc(intents, appliances, i);
    }
    assert intents[..|intents|] == intents;
  }

  /** The first appliance, in list order, that occurs in `text`. */
  function FirstContained(appliances: seq<string>, text: string): (r: Option<string>)
    ensures r.None? <==> forall i :: 0 <= i < |appliances| ==> !Contains(text, appliances[i])
    ensures r.Some? ==> exists i :: (0 <= i < |appliances| && appliances[i] == r.value && Contains(text, r.value)
      && forall j :: 0 <= j < i ==> !Contains(text, appliances[j]))
  {
    if appliances == [] then None
    else if Contains(text, appliances[0]) then Some(appliances[0])
    else
      var r := FirstContained(appliances[1..], text);
      if r.Some? then
        var i :| (0 <= i < |appliances[1..]| && appliances[1..][i] == r.value && Contains(text, r.value)
          && forall j :: 0 <= j < i ==> !Contains(text, appliances[1..][j]));
        assert appliances[i + 1] == r.value;
        r
      else r
  }

  /**
   * `extract_appliance(text)`: lower-case the text, then return the first
   * appliance that occurs in it, or None when none does.
   */
  function ExtractAppliance(text: string, appliances: seq<string>): (r: Option<string>)
    ensures r.None? <==> forall i :: 0 <= i < |appliances| ==> !Contains(Lower(text), appliances[i])
    ensures r.Some? ==> r.value in appliances && Contains(Lower(text), r.value)
    ensures r.Some? ==> exists i :: (0 <= i < |appliances| && appliances[i] == r.value
      && forall j :: 0 <= j < i ==> !Contains(Lower(text), appliances[j]))
  {
    FirstContained(appliances, Lower(text))
  }

  /** The answer does not depend on the case of the text: `text` and `text.lower()` give the same result. */
  lemma ExtractIgnoresCase(text: string, appliances: seq<string>)
    ensures ExtractAppliance(Lower(text), appliances) == ExtractAppliance(text, appliances)
  {
    LowerIdempotent(text);
  }
}
