/**
 * The synonym spinner: one file is picked from a directory tree, and every
 * word whose tag is targeted is swapped for the first lemma name of its first
 * WordNet synset. WordNet is an input: a function from a word to the lemma
 * names of each of its synsets, in WordNet's order.
 */
module Spin {
  import opened Strings
  import opened Wrappers
  import opened Paths
  import opened Tagging

  /**
   * `get_random_synonym`: the first lemma name of the first synset, or the word
   * itself when there is no synset or that synset has no lemma. Nothing in it is
   * random: the same lookup data always gives the same answer.
   */
  function Synonym(word: string, synsets: seq<seq<string>>): (r: string)
    ensures |synsets| > 0 && |synsets[0]| > 0 ==> r == synsets[0][0]
    ensures |synsets| == 0 || |synsets[0]| == 0 ==> r == word
  {
    if |synsets| > 0 then
      var words := synsets[0];
      if |words| > 0 then words[0] else word
    else word
  }

  /** The token list of the spun article: targeted words swapped, every other word kept in place. */
  function Spun(tagged: seq<Tagged>, targetPos: seq<string>, wordnet: string -> seq<seq<string>>): (ts: seq<string>)
    ensures |ts| == |tagged|
  {
    seq(|tagged|, i requires 0 <= i < |tagged| =>
      if Targeted(tagged[i], targetPos) then Synonym(tagged[i].word, wordnet(tagged[i].word))
      else tagged[i].word)
  }

  /** `tokenize_article` of the spinner, once the tokenizer and tagger have run. */
  method SpinArticle(tagged: seq<Tagged>, targetPos: seq<string>, wordnet: string -> seq<seq<string>>)
    returns (text: string)
    ensures text == Join(Spun(tagged, targetPos, wordnet), " ")
    ensures (forall i :: 0 <= i < |tagged| && Targeted(tagged[i], targetPos) ==>
               Synonym(tagged[i].word, wordnet(tagged[i].word)) == tagged[i].word)
            ==> text == Join(Words(tagged), " ")
  {
    var newArticleTokens: seq<string> := [];
    for i := 0 to |tagged|
      invariant newArticleTokens == Spun(tagged[..i], targetPos, wordnet)
    {
      ghost var next := Spun(tagged[..i + 1], targetPos, wordnet);
      assert next == Spun(tagged[..i], targetPos, wordnet) + [next[i]];
      assert tagged[..i + 1][i] == tagged[i];
      assert next[i] == if Targeted(tagged[i], targetPos) then Synonym(tagged[i].word, wordnet(tagged[i].word)) else tagged[i].word;
      var word, pos := tagged[i].word, tagged[i].tag;
      if pos in targetPos {
        var replacementWord := Synonym(word, wordnet(word));
        newArticleTokens := newArticleTokens + [replacementWord];
      } else {
        newArticleTokens := newArticleTokens + [word];
      }
    }
    assert tagged[..|tagged|] == tagged;
    text := Join(newArticleTokens, " ");
    if forall i :: 0 <= i < |tagged| && Targeted(tagged[i], targetPos) ==>
         Synonym(tagged[i].word, wordnet(tagged[i].word)) == tagged[i].word {
      assert newArticleTokens == Words(tagged);
    }
  }

  /** Two lookups that agree on the first synonym of every targeted word spin an article the same way. */
  lemma SpinDependsOnlyOnFirstLemma(tagged: seq<Tagged>, targetPos: seq<string>,
                                    wordnet1: string -> seq<seq<string>>, wordnet2: string -> seq<seq<string>>)
    requires forall i :: 0 <= i < |tagged| && Targeted(tagged[i], targetPos) ==>
      Synonym(tagged[i].word, wordnet1(tagged[i].word)) == Synonym(tagged[i].word, wordnet2(tagged[i].word))
    ensures Spun(tagged, targetPos, wordnet1) == Spun(tagged, targetPos, wordnet2)
  {
  }

  datatype PickError = NoFileFound

  /**
   * `pick_random_file`: collects every file of the walk, then `random.choice`,
   * modelled as a choice of any one position. `random.choice` raises on an
   * empty list, which is the error here.
   */
  method PickRandomFile(listing: seq<WalkEntry>) returns (r: Result<string, PickError>)
    ensures r.Err? <==> forall e :: 0 <= e < |listing| ==> |listing[e].files| == 0
    ensures r.Ok? ==> r.value in Walk(listing, None)
  {
    var allFiles: seq<string> := [];
    for e := 0 to |listing|
      invariant allFiles == Walk(listing[..e], None)
    {
      var root, files := listing[e].root, listing[e].files;
      for f := 0 to |files|
        invariant allFiles == Walk(listing[..e], None) + DirPaths(root, files[..f], None)
      {
        allFiles := allFiles + [PathJoin(root, files[f])];
        assert files[..f + 1][..f] == files[..f];
      }
      assert files[..|files|] == files;
      assert listing[..e + 1][..e] == listing[..e];
    }
    assert listing[..|listing|] == listing;
    WalkEmpty(listing);
    if |allFiles| == 0 {
      return Err(NoFileFound);
    }
    var i :| 0 <= i < |allFiles|;
    r := Ok(allFiles[i]);
  }
}
