/**
 * The ad-lib game: words whose tag is targeted become numbered placeholders
 * `{TOKEN1}`, `{TOKEN2}`, ...; the player is asked for one replacement per
 * placeholder; every placeholder is then replaced, in dict order, by the answer.
 */
module AdLib {
  import opened Strings
  import opened Numerals
  import opened Dicts
  import opened Tagging

  /** The placeholder for the `n`-th targeted word: `{TOKEN` + str(n) + `}`. */
  function Placeholder(n: nat): (p: string)
    ensures |p| >= 8 && p[0] == '{' && p[|p| - 1] == '}'
    ensures forall i :: 0 < i < |p| - 1 ==> p[i] != '{' && p[i] != '}'
    ensures ' ' !in p
  {
    var digits := NatToString(n);
    var p := "{TOKEN" + digits + "}";
    assert forall i :: 6 <= i < |p| - 1 ==> p[i] == digits[i - 6];
    p
  }

  /** Different counters give different placeholders. */
  lemma PlaceholderInjective(m: nat, n: nat)
    requires Placeholder(m) == Placeholder(n)
    ensures m == n
  {
    var pm, pn := Placeholder(m), Placeholder(n);
    assert NatToString(m) == pm[6..|pm| - 1];
    assert NatToString(n) == pn[6..|pn| - 1];
    NatToStringInjective(m, n);
  }

  /** No placeholder occurs inside a different one (so `{TOKEN1}` is not found in `{TOKEN10}`). */
  lemma PlaceholderNotInOther(j: nat, k: nat)
    requires j != k
    ensures !Contains(Placeholder(j), Placeholder(k))
  {
    var pj, pk := Placeholder(j), Placeholder(k);
    forall i: nat | i <= |pj| ensures !OccursAt(pj, pk, i) {
      if OccursAt(pj, pk, i) {
        assert pj[i] == pk[0] == '{';
        assert i == 0;
        assert pj[|pk| - 1] == '}';
        assert |pk| == |pj|;
        assert pj == pk;
        PlaceholderInjective(j, k);
      }
    }
  }

  /** The targeted tokens, in text order: what `replacements` records. */
  function Matches(tagged: seq<Tagged>, targetPos: seq<string>): (ms: seq<Tagged>)
    ensures |ms| <= |tagged|
    ensures forall j :: 0 <= j < |ms| ==> Targeted(ms[j], targetPos)
  {
    if |tagged| == 0 then []
    else
      var last := tagged[|tagged| - 1];
      Matches(tagged[..|tagged| - 1], targetPos) + if Targeted(last, targetPos) then [last] else []
  }

  /** Token `i` of the templated article: a placeholder numbered after the targeted tokens before it, or the word. */
  function TemplateToken(tagged: seq<Tagged>, targetPos: seq<string>, i: nat): string
    requires i < |tagged|
  {
    if Targeted(tagged[i], targetPos) then Placeholder(|Matches(tagged[..i], targetPos)| + 1)
    else tagged[i].word
  }

  /** `new_article_tokens` after the whole article has been seen. */
  function Templated(tagged: seq<Tagged>, targetPos: seq<string>): (ts: seq<string>)
    ensures |ts| == |tagged|
  {
    seq(|tagged|, i requires 0 <= i < |tagged| => TemplateToken(tagged, targetPos, i))
  }

  /** The `replacements` dict: placeholder `j + 1` maps to the `j`-th targeted (word, tag). */
  function Replacements(tagged: seq<Tagged>, targetPos: seq<string>): (r: seq<Entry<Tagged>>)
    ensures |r| == |Matches(tagged, targetPos)|
  {
    var ms := Matches(tagged, targetPos);
    seq(|ms|, j requires 0 <= j < |ms| => Entry(Placeholder(j + 1), ms[j]))
  }

  /** How the prefix of length `i + 1` extends the prefix of length `i`. */
  lemma PrefixStep(tagged: seq<Tagged>, targetPos: seq<string>, i: nat)
    requires i < |tagged|
    ensures Matches(tagged[..i + 1], targetPos) ==
      Matches(tagged[..i], targetPos) + if Targeted(tagged[i], targetPos) then [tagged[i]] else []
    ensures Templated(tagged[..i + 1], targetPos) ==
      Templated(tagged[..i], targetPos) + [TemplateToken(tagged, targetPos, i)]
  {
    var s := tagged[..i + 1];
    assert s[..i] == tagged[..i];
    forall j | 0 <= j < i
      ensures TemplateToken(s, targetPos, j) == TemplateToken(tagged[..i], targetPos, j)
    {
      assert s[..j] == tagged[..i][..j];
    }
  }

  /** How `replacements` grows from the prefix of length `i` to that of length `i + 1`. */
  lemma ReplacementsStep(tagged: seq<Tagged>, targetPos: seq<string>, i: nat)
    requires i < |tagged|
    ensures Replacements(tagged[..i + 1], targetPos) ==
      Replacements(tagged[..i], targetPos) +
      if Targeted(tagged[i], targetPos)
      then [Entry(Placeholder(|Matches(tagged[..i], targetPos)| + 1), tagged[i])]
      else []
  {
    PrefixStep(tagged, targetPos, i);
  }

  /** The placeholder keys are `{TOKEN1}`, `{TOKEN2}`, ... with no key twice. */
  lemma ReplacementKeysDistinct(tagged: seq<Tagged>, targetPos: seq<string>)
    ensures DistinctKeys(Replacements(tagged, targetPos))
  {
    var r := Replacements(tagged, targetPos);
    forall i, j | 0 <= i < j < |r| ensures r[i].key != r[j].key {
      if r[i].key == r[j].key {
        PlaceholderInjective(i + 1, j + 1);
      }
    }
  }

  /** The next placeholder is not yet a key. */
  lemma NextPlaceholderFresh(tagged: seq<Tagged>, targetPos: seq<string>)
    ensures Placeholder(|Matches(tagged, targetPos)| + 1) !in Keys(Replacements(tagged, targetPos))
  {
    var r := Replacements(tagged, targetPos);
    var next := Placeholder(|r| + 1);
    forall j | 0 <= j < |r| ensures Keys(r)[j] != next {
      if Keys(r)[j] == next {
        PlaceholderInjective(j + 1, |r| + 1);
      }
    }
  }

  /** One token of the article: a targeted word is stored under the next fresh placeholder, any other is kept. */
  lemma TokenizeStep(tagged: seq<Tagged>, targetPos: seq<string>, i: nat)
    requires i < |tagged|
    ensures DistinctKeys(Replacements(tagged[..i], targetPos))
    ensures Targeted(tagged[i], targetPos) ==>
      Assign(Replacements(tagged[..i], targetPos), Placeholder(|Replacements(tagged[..i], targetPos)| + 1), tagged[i]) ==
      Replacements(tagged[..i + 1], targetPos)
    ensures !Targeted(tagged[i], targetPos) ==> Replacements(tagged[..i + 1], targetPos) == Replacements(tagged[..i], targetPos)
    ensures |Replacements(tagged[..i + 1], targetPos)| ==
      |Replacements(tagged[..i], targetPos)| + if Targeted(tagged[i], targetPos) then 1 else 0
    ensures Templated(tagged[..i + 1], targetPos) == Templated(tagged[..i], targetPos) +
      [if Targeted(tagged[i], targetPos) then Placeholder(|Replacements(tagged[..i], targetPos)| + 1) else tagged[i].word]
  {
    PrefixStep(tagged, targetPos, i);
    ReplacementsStep(tagged, targetPos, i);
    ReplacementKeysDistinct(tagged[..i], targetPos);
    NextPlaceholderFresh(tagged[..i], targetPos);
  }

  /**
   * `tokenize_article`, once the tokenizer and tagger have run: returns the
   * templated text (tokens joined by single spaces) and the `replacements` dict.
   */
  method TokenizeArticle(tagged: seq<Tagged>, targetPos: seq<string>)
    returns (text: string, replacements: seq<Entry<Tagged>>)
    ensures text == Join(Templated(tagged, targetPos), " ")
    ensures replacements == Replacements(tagged, targetPos)
  {
    replacements := [];
    var newArticleTokens: seq<string> := [];
    var tokenCount := 1;
    for i := 0 to |tagged|
      invariant newArticleTokens == Templated(tagged[..i], targetPos)
      invariant replacements == Replacements(tagged[..i], targetPos)
      invariant tokenCount == |replacements| + 1
    {
      TokenizeStep(tagged, targetPos, i);
      var word, pos := tagged[i].word, tagged[i].tag;
      if pos in targetPos {
        var token := Placeholder(tokenCount);
        replacements := Assign(replacements, token, Tagged(word, pos));
        newArticleTokens := newArticleTokens + [token];
        tokenCount := tokenCount + 1;
      } else {
        newArticleTokens := newArticleTokens + [word];
      }
    }
    assert tagged[..|tagged|] == tagged;
    text := Join(newArticleTokens, " ");
  }


  /** The `pos_descriptions` table: exact tags only. */
  const PosDescriptions: map<string, string> := map["NN" := "noun", "JJ" := "adjective", "VB" := "verb"]

  /**
   * `pos_descriptions.get(pos, "word")`: the category named in the prompt.
   * Only the exact tags NN, JJ and VB have a name; NNS, VBD and every other tag are a "word".
   */
  function Describe(tag: string): (d: string)
    ensures d == "noun" <==> tag == "NN"
    ensures d == "adjective" <==> tag == "JJ"
    ensures d == "verb" <==> tag == "VB"
    ensures d == "word" <==> tag !in {"NN", "JJ", "VB"}
  {
    if tag in PosDescriptions then PosDescriptions[tag] else "word"
  }

  /** The prompt shown for one placeholder. */
  function Prompt(description: string, originalWord: string, token: string): string
  {
    "Please provide a replacement for the " + description + " '" + originalWord + "' (" + token + "): "
  }

  /** One prompt per entry of `replacements`, in dict order. */
  function Prompts(replacements: seq<Entry<Tagged>>): (ps: seq<string>)
    ensures |ps| == |replacements|
  {
    seq(|replacements|, i requires 0 <= i < |replacements| =>
      Prompt(Describe(replacements[i].value.tag), replacements[i].value.word, replacements[i].key))
  }

  /** The `user_inputs` dict: each placeholder paired with the answer given at its prompt. */
  function UserInputs(replacements: seq<Entry<Tagged>>, answers: seq<string>): (u: seq<Entry<string>>)
    requires |answers| == |replacements|
    ensures Keys(u) == Keys(replacements)
  {
    var u := seq(|replacements|, i requires 0 <= i < |replacements| => Entry(replacements[i].key, answers[i]));
    assert forall i :: 0 <= i < |u| ==> Keys(u)[i] == Keys(replacements)[i];
    u
  }

  /** How the dict and the prompts grow by one entry of `replacements`. */
  lemma CollectStep(replacements: seq<Entry<Tagged>>, answers: seq<string>, i: nat)
    requires |answers| == |replacements| && i < |replacements|
    requires DistinctKeys(replacements)
    ensures replacements[i].key !in Keys(UserInputs(replacements[..i], answers[..i]))
    ensures UserInputs(replacements[..i + 1], answers[..i + 1]) ==
      UserInputs(replacements[..i], answers[..i]) + [Entry(replacements[i].key, answers[i])]
    ensures Prompts(replacements[..i + 1]) ==
      Prompts(replacements[..i]) + [Prompt(Describe(replacements[i].value.tag), replacements[i].value.word, replacements[i].key)]
  {
    var ks := Keys(UserInputs(replacements[..i], answers[..i]));
    assert forall j :: 0 <= j < i ==> ks[j] == replacements[j].key;
  }

  /**
   * `collect_user_inputs`: the answers the player types, in prompt order, are
   * an input; the prompts that were shown are returned beside the dict.
   */
  method CollectUserInputs(replacements: seq<Entry<Tagged>>, answers: seq<string>)
    returns (userInputs: seq<Entry<string>>, prompts: seq<string>)
    requires DistinctKeys(replacements)
    requires |answers| == |replacements|
    ensures userInputs == UserInputs(replacements, answers)
    ensures Keys(userInputs) == Keys(replacements)
    ensures prompts == Prompts(replacements)
  {
    userInputs, prompts := [], [];
    for i := 0 to |replacements|
      invariant userInputs == UserInputs(replacements[..i], answers[..i])
      invariant prompts == Prompts(replacements[..i])
    {
      var token, originalWord, pos := replacements[i].key, replacements[i].value.word, replacements[i].value.tag;
      var description := Describe(pos);
      CollectStep(replacements, answers, i);
      prompts := prompts + [Prompt(description, originalWord, token)];
      userInputs := Assign(userInputs, token, answers[i]);
    }
    assert replacements[..|replacements|] == replacements;
    assert answers[..|answers|] == answers;
  }

  /** The article after replacing every key of `userInputs`, one key after the other, in dict order. */
  function ApplyAll(text: string, userInputs: seq<Entry<string>>): string
  {
    if |userInputs| == 0 then text
    else
      var last := userInputs[|userInputs| - 1];
      ReplaceAll(ApplyAll(text, userInputs[..|userInputs| - 1]), last.key, last.value)
  }

  /** `generate_new_article`: `new_article = new_article.replace(token, user_input)` for each entry in order. */
  method GenerateNewArticle(tokenizedArticle: string, userInputs: seq<Entry<string>>) returns (newArticle: string)
    ensures newArticle == ApplyAll(tokenizedArticle, userInputs)
    ensures |userInputs| == 0 ==> newArticle == tokenizedArticle
  {
    newArticle := tokenizedArticle;
    for i := 0 to |userInputs|
      invariant newArticle == ApplyAll(tokenizedArticle, userInputs[..i])
    {
      assert userInputs[..i + 1][..i] == userInputs[..i];
      newArticle := ReplaceAll(newArticle, userInputs[i].key, userInputs[i].value);
    }
    assert userInputs[..|userInputs|] == userInputs;
  }

  /** The targeted tokens of a prefix are a prefix of the targeted tokens. */
  lemma {:induction false} MatchesPrefix(tagged: seq<Tagged>, targetPos: seq<string>, n: nat)
    requires n <= |tagged|
    ensures Matches(tagged[..n], targetPos) <= Matches(tagged, targetPos)
    decreases |tagged| - n
  {
    if n < |tagged| {
      MatchesPrefix(tagged, targetPos, n + 1);
      PrefixStep(tagged, targetPos, n);
    } else {
      assert tagged[..n] == tagged;
    }
  }

  /** A targeted token at `i` is the targeted token numbered by how many come before it. */
  lemma MatchAt(tagged: seq<Tagged>, targetPos: seq<string>, i: nat)
    requires i < |tagged| && Targeted(tagged[i], targetPos)
    ensures |Matches(tagged[..i], targetPos)| < |Matches(tagged, targetPos)|
    ensures Matches(tagged, targetPos)[|Matches(tagged[..i], targetPos)|] == tagged[i]
  {
    PrefixStep(tagged, targetPos, i);
    MatchesPrefix(tagged, targetPos, i + 1);
  }

  /**
   * Each position of the templated article holds either its own word (tag not
   * targeted) or the key of the `replacements` entry that records the (word, tag)
   * it displaced.
   */
  lemma PlaceholderDisplaces(tagged: seq<Tagged>, targetPos: seq<string>, i: nat)
    requires i < |tagged|
    ensures !Targeted(tagged[i], targetPos) ==> Templated(tagged, targetPos)[i] == tagged[i].word
    ensures Targeted(tagged[i], targetPos) ==>
      var c := |Matches(tagged[..i], targetPos)|;
      c < |Replacements(tagged, targetPos)| &&
      Replacements(tagged, targetPos)[c] == Entry(Templated(tagged, targetPos)[i], tagged[i])
  {
    if Targeted(tagged[i], targetPos) {
      MatchAt(tagged, targetPos, i);
    }
  }

  /** The positions whose tag is targeted. */
  function MatchPositions(tagged: seq<Tagged>, targetPos: seq<string>): set<nat>
  {
    set i: nat | i < |tagged| && Targeted(tagged[i], targetPos)
  }

  /** There are as many placeholders as tokens whose tag is exactly one of the targets. */
  lemma {:induction false} PlaceholderCount(tagged: seq<Tagged>, targetPos: seq<string>)
    ensures |Replacements(tagged, targetPos)| == |MatchPositions(tagged, targetPos)|
    decreases |tagged|
  {
    if |tagged| > 0 {
      var n := |tagged| - 1;
      var init := tagged[..n];
      PlaceholderCount(init, targetPos);
      PrefixStep(tagged, targetPos, n);
      assert tagged[..n + 1] == tagged;
      assert n !in MatchPositions(init, targetPos);
      if Targeted(tagged[n], targetPos) {
        assert MatchPositions(tagged, targetPos) == MatchPositions(init, targetPos) + {n};
      } else {
        assert MatchPositions(tagged, targetPos) == MatchPositions(init, targetPos);
      }
    }
  }

  /** With no targeted tag there are no placeholders and the text is the words joined by spaces. */
  lemma NoMatchKeepsText(tagged: seq<Tagged>, targetPos: seq<string>)
    requires forall i :: 0 <= i < |tagged| ==> !Targeted(tagged[i], targetPos)
    ensures Replacements(tagged, targetPos) == []
    ensures Join(Templated(tagged, targetPos), " ") == Join(Words(tagged), " ")
  {
    PlaceholderCount(tagged, targetPos);
    assert MatchPositions(tagged, targetPos) == {};
    assert Templated(tagged, targetPos) == Words(tagged);
  }

  /** The words the player would type to get the original article back. */
  function MatchedWords(tagged: seq<Tagged>, targetPos: seq<string>): (ws: seq<string>)
    ensures |ws| == |Matches(tagged, targetPos)|
  {
    var ms := Matches(tagged, targetPos);
    seq(|ms|, j requires 0 <= j < |ms| => ms[j].word)
  }

  /** No word of the article contains any of the placeholders that will be generated. */
  predicate NoPlaceholderInWords(tagged: seq<Tagged>, targetPos: seq<string>)
  {
    forall i, k :: 0 <= i < |tagged| && 1 <= k <= |Matches(tagged, targetPos)| ==>
      !Contains(tagged[i].word, Placeholder(k))
  }

  /** The tokens once the first `m` placeholders have been replaced by their own words. */
  function Restored(tagged: seq<Tagged>, targetPos: seq<string>, m: nat): (ts: seq<string>)
    ensures |ts| == |tagged|
  {
    seq(|tagged|, i requires 0 <= i < |tagged| =>
      if Targeted(tagged[i], targetPos) && |Matches(tagged[..i], targetPos)| < m then tagged[i].word
      else TemplateToken(tagged, targetPos, i))
  }

  /** Replacing placeholder `m + 1` by its own word, inside one token, restores that token only if it is that placeholder. */
  lemma RestoreToken(tagged: seq<Tagged>, targetPos: seq<string>, m: nat, i: nat)
    requires m < |Matches(tagged, targetPos)| && i < |tagged|
    requires NoPlaceholderInWords(tagged, targetPos)
    ensures ReplaceAll(Restored(tagged, targetPos, m)[i], Placeholder(m + 1), MatchedWords(tagged, targetPos)[m])
      == Restored(tagged, targetPos, m + 1)[i]
  {
    var pat, rep := Placeholder(m + 1), MatchedWords(tagged, targetPos)[m];
    var c := |Matches(tagged[..i], targetPos)|;
    if !Targeted(tagged[i], targetPos) || c < m {
      ReplaceAbsent(tagged[i].word, pat, rep);
    } else if c == m {
      MatchAt(tagged, targetPos, i);
      ReplaceWhole(pat, rep);
    } else {
      PlaceholderNotInOther(c + 1, m + 1);
      ReplaceAbsent(Placeholder(c + 1), pat, rep);
    }
  }

  /** Replacing placeholder `m + 1` by its own word restores exactly that one more token. */
  lemma RestoreStep(tagged: seq<Tagged>, targetPos: seq<string>, m: nat)
    requires m < |Matches(tagged, targetPos)|
    requires NoPlaceholderInWords(tagged, targetPos)
    ensures ReplaceAll(Join(Restored(tagged, targetPos, m), " "), Placeholder(m + 1), MatchedWords(tagged, targetPos)[m])
      == Join(Restored(tagged, targetPos, m + 1), " ")
  {
    var pat, rep := Placeholder(m + 1), MatchedWords(tagged, targetPos)[m];
    var before := Restored(tagged, targetPos, m);
    ReplaceJoin(before, ' ', pat, rep);
    forall i | 0 <= i < |tagged|
      ensures ReplaceEach(before, pat, rep)[i] == Restored(tagged, targetPos, m + 1)[i]
    {
      RestoreToken(tagged, targetPos, m, i);
    }
    assert ReplaceEach(before, pat, rep) == Restored(tagged, targetPos, m + 1);
  }

  /** After `m` answers the article is the templated one with the first `m` placeholders restored. */
  lemma {:induction false} RestorePrefix(tagged: seq<Tagged>, targetPos: seq<string>, m: nat)
    requires m <= |Matches(tagged, targetPos)|
    requires NoPlaceholderInWords(tagged, targetPos)
    ensures
      var inputs := UserInputs(Replacements(tagged, targetPos), MatchedWords(tagged, targetPos));
      ApplyAll(Join(Templated(tagged, targetPos), " "), inputs[..m]) == Join(Restored(tagged, targetPos, m), " ")
  {
    var inputs := UserInputs(Replacements(tagged, targetPos), MatchedWords(tagged, targetPos));
    if m == 0 {
      assert Restored(tagged, targetPos, 0) == Templated(tagged, targetPos);
    } else {
      RestorePrefix(tagged, targetPos, m - 1);
      assert inputs[..m][..m - 1] == inputs[..m - 1];
      RestoreStep(tagged, targetPos, m - 1);
    }
  }

  /**
   * Round trip: answering every prompt with the word its placeholder displaced
   * gives back the words joined by single spaces, provided no word contains a
   * placeholder's text.
   */
  lemma RoundTrip(tagged: seq<Tagged>, targetPos: seq<string>)
    requires NoPlaceholderInWords(tagged, targetPos)
    ensures
      var inputs := UserInputs(Replacements(tagged, targetPos), MatchedWords(tagged, targetPos));
      ApplyAll(Join(Templated(tagged, targetPos), " "), inputs) == Join(Words(tagged), " ")
  {
    var inputs := UserInputs(Replacements(tagged, targetPos), MatchedWords(tagged, targetPos));
    var n := |Matches(tagged, targetPos)|;
    RestorePrefix(tagged, targetPos, n);
    assert inputs[..n] == inputs;
    forall i | 0 <= i < |tagged| ensures Restored(tagged, targetPos, n)[i] == tagged[i].word {
      if Targeted(tagged[i], targetPos) {
        MatchAt(tagged, targetPos, i);
      }
    }
    assert Restored(tagged, targetPos, n) == Words(tagged);
  }

  /** `input(...).split(',')`: the target tags as typed, pieces kept verbatim. */
  function TargetTags(answer: string): (tags: seq<string>)
    ensures |tags| >= 1
  {
    Split(answer, ',')
  }

  /**
   * Tags typed with a space after each comma, as in the prompt's own example
   * "NN, JJ, VB", keep that space: the answer targets "NN", " JJ" and " VB", so
   * a token tagged exactly JJ (or any later tag without its space) is not targeted.
   */
  lemma SpaceAfterCommaIsKept(first: string, second: string, third: string, word: string)
    requires ',' !in first && ',' !in second && ',' !in third
    ensures TargetTags(first + ", " + second + ", " + third) == [first, " " + second, " " + third]
    ensures second != first && ' ' !in second ==>
      !Targeted(Tagged(word, second), TargetTags(first + ", " + second + ", " + third))
  {
    var tail := " " + second + ", " + third;
    assert first + ", " + second + ", " + third == first + [','] + tail;
    assert tail == (" " + second) + [','] + (" " + third);
    SplitWithoutSeparator(" " + third, ',');
    SplitAtFirstSeparator(" " + second, ',', " " + third);
    SplitAtFirstSeparator(first, ',', tail);
    if ' ' !in second {
      assert second != " " + second && second != " " + third by {
        assert (" " + second)[0] == ' ' && (" " + third)[0] == ' ';
      }
    }
  }
}
