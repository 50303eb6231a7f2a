/**
 * The `Analyzer` object: its public fields, the setup that fills them, and the
 * loops that score a sentence. Each method is proved against the pure
 * definitions of module `Sentiment`.
 *
 * The word lists that setup reads from the data files come in through
 * `wordsFor` (the list for a class label, or for "ignore" and "negation"), and
 * `stripcslashes` through `unescape`.
 */
module Analyzers {
  import opened PhpStrings
  import opened PhpArrays
  import opened Sentiment

  class Analyzer {
    var classes: seq<string>
    var dictionary: Dictionary
    var ignoreList: seq<string>
    var negationList: seq<string>
    var minTokenLength: int
    var maxTokenLength: int

    /** `__construct`: the default classes and bounds, an empty dictionary,
        then `setup`. */
    constructor (wordsFor: string -> seq<string>, unescape: string -> string)
      ensures classes == DefaultClasses
      ensures minTokenLength == DefaultMinTokenLength && maxTokenLength == DefaultMaxTokenLength
      ensures dictionary == SeedAll(map[], DefaultClasses, wordsFor)
      ensures CountsAreOne(dictionary)
      ensures ignoreList == LoadWordsForList(wordsFor("ignore"), unescape)
      ensures negationList == LoadWordsForList(wordsFor("negation"), unescape)
    {
      classes := DefaultClasses;
      dictionary := map[];
      ignoreList := [];
      negationList := [];
      minTokenLength := DefaultMinTokenLength;
      maxTokenLength := DefaultMaxTokenLength;
      new;
      assert CountsAreOne(dictionary);
      Setup(wordsFor, unescape);
    }

    /** `setup`: seed the dictionary for every class, then load the ignore and
        negation lists. */
    method Setup(wordsFor: string -> seq<string>, unescape: string -> string)
      modifies this`dictionary, this`ignoreList, this`negationList
      ensures dictionary == SeedAll(old(dictionary), classes, wordsFor)
      ensures CountsAreOne(old(dictionary)) ==> CountsAreOne(dictionary)
      ensures ignoreList == LoadWordsForList(wordsFor("ignore"), unescape)
      ensures negationList == LoadWordsForList(wordsFor("negation"), unescape)
    {
      LoadAllClassesDictionary(wordsFor);
      ignoreList := LoadWordsForList(wordsFor("ignore"), unescape);
      negationList := LoadWordsForList(wordsFor("negation"), unescape);
    }

    /** `loadAllClassesDictionary`: `loadDictionaryFor` for each class in turn. */
    method LoadAllClassesDictionary(wordsFor: string -> seq<string>)
      modifies this`dictionary
      ensures dictionary == SeedAll(old(dictionary), classes, wordsFor)
      ensures CountsAreOne(old(dictionary)) ==> CountsAreOne(dictionary)
    {
      for i := 0 to |classes|
        invariant SeedAll(dictionary, classes[i..], wordsFor) == SeedAll(old(dictionary), classes, wordsFor)
      {
        assert classes[i..][1..] == classes[i + 1..];
        LoadDictionaryFor(classes[i], wordsFor(classes[i]));
      }
      if CountsAreOne(old(dictionary)) {
        SeedAllCountsOne(old(dictionary), classes, wordsFor);
      }
    }

    /** `loadDictionaryFor(cls)` with the class's word list given: each
        trimmed word gets the count 1 for `cls` unless it already has one. */
    method LoadDictionaryFor(cls: string, words: seq<string>)
      modifies this`dictionary
      ensures dictionary == Seed(old(dictionary), cls, words)
    {
      for i := 0 to |words|
        invariant Seed(dictionary, cls, words[i..]) == Seed(old(dictionary), cls, words)
      {
        assert words[i..][1..] == words[i + 1..];
        var word := Trim(words[i]);
        if !(word in dictionary && cls in dictionary[word]) {
          var entries := if word in dictionary then dictionary[word] else map[];
          dictionary := dictionary[word := entries[cls := 1]];
        }
      }
    }

    /** `removeSpaceFromNegationWords`: the fusion loop over the negation list.
        The result is the sentence with some spaces deleted. */
    method RemoveSpaceFromNegationWords(sentence: string) returns (r: string)
      ensures r == FuseNegations(sentence, negationList)
      ensures DeletesOnly(r, sentence, ' ') && |r| <= |sentence|
    {
      r := sentence;
      for i := 0 to |negationList|
        invariant FuseNegations(r, negationList[i..]) == FuseNegations(sentence, negationList)
      {
        assert negationList[i..][1..] == negationList[i + 1..];
        var w := negationList[i];
        if Occurs(w, r) {
          r := Replace(r, w + " ", w);
        }
      }
    }

    /** `tokensScore` without the multiplication by the prior: the product,
        over the valid tokens, of count + 1. */
    method TokensScore(tokens: seq<string>, cls: string) returns (score: nat)
      ensures score == Product(tokens, cls, dictionary, ignoreList, minTokenLength, maxTokenLength)
      ensures score >= 1
    {
      score := 1;
      for i := 0 to |tokens|
        invariant score == Product(tokens[..i], cls, dictionary, ignoreList, minTokenLength, maxTokenLength)
      {
        assert tokens[..i + 1][..i] == tokens[..i];
        var token := tokens[i];
        if !IsValidToken(token, ignoreList, minTokenLength, maxTokenLength) {
          continue;
        }
        var count := DictionaryValue(dictionary, token, cls);
        score := score * (count + 1);
      }
      assert tokens[..|tokens|] == tokens;
    }

    /** `scores` up to normalisation: fuse negations, tokenize, and record each
        class's integer score in a table with one entry per class, in class order. */
    method Scores(sentence: string) returns (table: Table<nat>)
      ensures Keys(table) == Dedup(classes)
      ensures forall i :: 0 <= i < |table| ==>
        table[i].1 == Product(Tokenize(FuseNegations(sentence, negationList)), table[i].0,
                              dictionary, ignoreList, minTokenLength, maxTokenLength)
    {
      var fused := RemoveSpaceFromNegationWords(sentence);
      table := ClassScores(Tokenize(fused));
    }

    /** The `foreach` of `scores` over the classes: `$scores[$class]` is set to
        the class's score of the tokens, class after class. */
    method ClassScores(tokens: seq<string>) returns (table: Table<nat>)
      ensures Keys(table) == Dedup(classes)
      ensures forall i :: 0 <= i < |table| ==>
        table[i].1 == Product(tokens, table[i].0, dictionary, ignoreList, minTokenLength, maxTokenLength)
    {
      table := [];
      for i := 0 to |classes|
        invariant DistinctKeys(table)
        invariant Keys(table) == Dedup(classes[..i])
        invariant forall k :: 0 <= k < |table| ==>
          table[k].1 == Product(tokens, table[k].0, dictionary, ignoreList, minTokenLength, maxTokenLength)
      {
        assert classes[..i + 1][..i] == classes[..i];
        var score := TokensScore(tokens, classes[i]);
        table := Put(table, classes[i], score);
      }
      assert classes[..|classes|] == classes;
    }
  }
}
