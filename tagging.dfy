/**
 * What the tokenizer and part-of-speech tagger hand to both spinning
 * scripts: the article as a sequence of (word, tag) pairs, in text order.
 */
module Tagging {

  datatype Tagged = Tagged(word: string, tag: string)

  /** The words alone, in order. */
  function Words(tagged: seq<Tagged>): (ws: seq<string>)
    ensures |ws| == |tagged|
  {
    seq(|tagged|, i requires 0 <= i < |tagged| => tagged[i].word)
  }

  /** `pos in target_pos`: list membership, so plain string equality with one of the target tags. */
  predicate Targeted(t: Tagged, targetPos: seq<string>)
  {
    t.tag in targetPos
  }
}
