/**
 * The pure part of the sentiment analyzer: negation fusion, tokenisation, the
 * token filter, the total dictionary lookup, the integer part of a class
 * score, dictionary seeding and the choice of the top class. The `Analyzer`
 * class (module `Analyzers`) runs these step by step on its own fields.
 */
module Sentiment {
  import opened PhpStrings
  import opened PhpArrays

  /** Token -> class label -> count. A missing pair reads as count 0. */
  type Dictionary = map<string, map<string, nat>>

  const DefaultClasses: seq<string> := ["positive", "negative", "neutral"]
  const DefaultMinTokenLength: int := 1
  const DefaultMaxTokenLength: int := 15

  // ---------------------------------------------------------------------------
  // Negation fusion
  // ---------------------------------------------------------------------------

  /** One round of the fusion loop for the negation word `w`: when `w` occurs
      in the sentence, every `w + " "` becomes `w`. Raw substring matching:
      `w` need not start or end a word, and the match is case-sensitive. The
      `strpos` guard changes nothing: where `w` does not occur, neither does
      `w + " "`. This holds for the empty word too, which is always found. */
  function FuseNegation(s: string, w: string): (r: string)
    ensures r == Replace(s, w + " ", w)
  {
    if Occurs(w, s) then Replace(s, w + " ", w)
    else
      assert !Occurs(w + " ", s) by {
        if Occurs(w + [' '], s) { OccursExtended(w, ' ', s); }
      }
      s
  }

  /** All rounds, one negation word after another in list order, each on the
      output of the one before. The whole fusion only deletes spaces, so it
      never lengthens the sentence. */
  function FuseNegations(s: string, negations: seq<string>): (r: string)
    ensures DeletesOnly(r, s, ' ')
    ensures |r| <= |s|
    decreases |negations|
  {
    if negations == [] then
      DeletesOnlyRefl(s, ' ');
      s
    else
      var s1 := FuseNegation(s, negations[0]);
      var r := FuseNegations(s1, negations[1..]);
      FuseNegationDeletesSpaces(s, negations[0]);
      DeletesOnlyTrans(r, s1, s, ' ');
      r
  }

  /** One round deletes exactly one space per fused occurrence and keeps every
      other character, in order. */
  lemma FuseNegationDeletesSpaces(s: string, w: string)
    ensures DeletesOnly(FuseNegation(s, w), s, ' ')
    ensures |FuseNegation(s, w)| == |s| - Count(s, w + " ")
  {
    ReplaceDropsLast(s, w, ' ');
  }

  /** Where one round deletes: the space of the first `w + " "` goes, gluing
      `w` to the word after it; everything before it is kept, and the round
      resumes after that space. */
  lemma FuseNegationFirst(s: string, w: string, p: nat)
    requires p + |w| + 1 <= |s| && MatchAt(s, w + " ", p)
    requires forall i :: 0 <= i < p ==> !MatchAt(s, w + " ", i)
    ensures FuseNegation(s, w) == s[..p] + w + FuseNegation(s[p + |w| + 1..], w)
  {
    var pat := w + " ";
    var rest := s[p + |w| + 1..];
    assert |pat| == |w| + 1;
    assert s[p + |pat|..] == rest;
    ReplaceFirst(s, pat, w, p);
    assert FuseNegation(rest, w) == Replace(rest, pat, w);
  }

  /** A sentence in which no `w + " "` occurs, for any negation word `w`,
      comes back unchanged. */
  lemma {:induction false} FuseNegationsNoMatch(s: string, negations: seq<string>)
    requires forall w :: w in negations ==> !Occurs(w + " ", s)
    ensures FuseNegations(s, negations) == s
    decreases |negations|
  {
    if negations != [] {
      ReplaceAbsent(s, negations[0] + " ", negations[0]);
      FuseNegationsNoMatch(s, negations[1..]);
    }
  }

  // ---------------------------------------------------------------------------
  // Tokenisation
  // ---------------------------------------------------------------------------

  /** `str_replace("\r\n", ' ', $sentence)`. A lone "\n" or "\r" stays. */
  function CrlfToSpace(s: string): (r: string)
    ensures |r| == |s| - Count(s, "\r\n")
  {
    Replace(s, "\r\n", " ")
  }

  /** `tokenize`: CRLF to space, lower-case, split on single spaces. Empty
      tokens are kept. */
  function Tokenize(s: string): (tokens: seq<string>)
    ensures |tokens| == CountChar(CrlfToSpace(s), ' ') + 1
    ensures forall i :: 0 <= i < |tokens| ==> ' ' !in tokens[i]
    ensures Join(tokens) == ToLower(CrlfToSpace(s))
  {
    Split(ToLower(CrlfToSpace(s)))
  }

  /** Tokens are lower-case. */
  lemma TokensAreLowerCase(s: string, i: nat, k: nat)
    requires i < |Tokenize(s)| && k < |Tokenize(s)[i]|
    ensures !IsAsciiUpper(Tokenize(s)[i][k])
  {
    var l := ToLower(CrlfToSpace(s));
    SplitPiecesFromSource(l, i, k);
  }

  // ---------------------------------------------------------------------------
  // Token filter and dictionary lookup
  // ---------------------------------------------------------------------------

  /** `isValidToken`: byte length within the bounds and not on the ignore list. */
  function IsValidToken(token: string, ignoreList: seq<string>, minLength: int, maxLength: int): (valid: bool)
    ensures valid <==> minLength <= |token| <= maxLength && token !in ignoreList
  {
    if |token| < minLength then false
    else if |token| > maxLength then false
    else token !in ignoreList
  }

  /** With a minimum length of at least 1, the empty token is never valid. */
  lemma EmptyTokenInvalid(ignoreList: seq<string>, minLength: int, maxLength: int)
    requires minLength >= 1
    ensures !IsValidToken("", ignoreList, minLength, maxLength)
  {
  }

  /** `dictionary[token][cls]` is set. */
  predicate Has(d: Dictionary, token: string, cls: string)
  {
    token in d && cls in d[token]
  }

  /** `getDictionaryValue`: total; an absent pair reads as 0. */
  function DictionaryValue(d: Dictionary, token: string, cls: string): (count: nat)
    ensures Has(d, token, cls) ==> count == d[token][cls]
    ensures !Has(d, token, cls) ==> count == 0
  {
    if !Has(d, token, cls) then 0 else d[token][cls]
  }

  // ---------------------------------------------------------------------------
  // The integer part of a class score
  // ---------------------------------------------------------------------------

  /** What one token multiplies the score by: count + 1 if it is valid, and
      nothing (a factor 1) if it is not. */
  function Factor(token: string, cls: string, d: Dictionary, ignoreList: seq<string>, minLength: int, maxLength: int): (f: nat)
    ensures f >= 1
    ensures !IsValidToken(token, ignoreList, minLength, maxLength) ==> f == 1
  {
    if IsValidToken(token, ignoreList, minLength, maxLength) then DictionaryValue(d, token, cls) + 1 else 1
  }

  /** The running product of `tokensScore`, over the tokens from first to
      last. It is at least 1: no token can zero it. */
  function Product(tokens: seq<string>, cls: string, d: Dictionary, ignoreList: seq<string>, minLength: int, maxLength: int): (p: nat)
    ensures p >= 1
    decreases |tokens|
  {
    if tokens == [] then 1
    else
      var a := Product(tokens[..|tokens| - 1], cls, d, ignoreList, minLength, maxLength);
      var f := Factor(tokens[|tokens| - 1], cls, d, ignoreList, minLength, maxLength);
      assert a * f >= a * 1 >= 1;
      a * f
  }

  /** The product over a concatenation is the product of the products. */
  lemma {:induction false} ProductAppend(a: seq<string>, b: seq<string>, cls: string, d: Dictionary, ignoreList: seq<string>, minLength: int, maxLength: int)
    ensures Product(a + b, cls, d, ignoreList, minLength, maxLength)
         == Product(a, cls, d, ignoreList, minLength, maxLength) * Product(b, cls, d, ignoreList, minLength, maxLength)
    decreases |b|
  {
    if b == [] {
      assert a + b == a;
    } else {
      var b' := b[..|b| - 1];
      var t := b[|b| - 1];
      ProductAppend(a, b', cls, d, ignoreList, minLength, maxLength);
      var ab := a + b;
      assert ab[..|ab| - 1] == a + b';
      assert ab[|ab| - 1] == t;
      var pa := Product(a, cls, d, ignoreList, minLength, maxLength);
      var pb := Product(b', cls, d, ignoreList, minLength, maxLength);
      var f := Factor(t, cls, d, ignoreList, minLength, maxLength);
      assert Product(ab, cls, d, ignoreList, minLength, maxLength) == Product(a + b', cls, d, ignoreList, minLength, maxLength) * f;
      assert Product(b, cls, d, ignoreList, minLength, maxLength) == pb * f;
      MulAssoc(pa, pb, f);
    }
  }

  /** Regrouping a product of three counts. Kept apart so that the nonlinear
      step is proved without the surrounding context. */
  lemma MulAssoc(x: nat, y: nat, z: nat)
    ensures x * y * z == x * (y * z)
    ensures x * z * y == x * y * z
  {
  }

  /** An invalid token anywhere in the sequence leaves the product unchanged. */
  lemma InvalidTokenNeutral(a: seq<string>, t: string, b: seq<string>, cls: string, d: Dictionary, ignoreList: seq<string>, minLength: int, maxLength: int)
    requires !IsValidToken(t, ignoreList, minLength, maxLength)
    ensures Product(a + [t] + b, cls, d, ignoreList, minLength, maxLength)
         == Product(a + b, cls, d, ignoreList, minLength, maxLength)
  {
    ProductAppend(a + [t], b, cls, d, ignoreList, minLength, maxLength);
    ProductAppend(a, b, cls, d, ignoreList, minLength, maxLength);
    assert (a + [t])[..|a + [t]| - 1] == a;
    assert Factor(t, cls, d, ignoreList, minLength, maxLength) == 1;
    assert Product(a + [t], cls, d, ignoreList, minLength, maxLength) == Product(a, cls, d, ignoreList, minLength, maxLength);
  }

  /** The product is the factor of any one token times the product of the rest. */
  lemma ProductExtract(t: seq<string>, k: nat, cls: string, d: Dictionary, ignoreList: seq<string>, minLength: int, maxLength: int)
    requires k < |t|
    ensures Product(t, cls, d, ignoreList, minLength, maxLength)
         == Product(t[..k] + t[k + 1..], cls, d, ignoreList, minLength, maxLength) * Factor(t[k], cls, d, ignoreList, minLength, maxLength)
  {
    var a := t[..k];
    var b := t[k + 1..];
    assert t == a + [t[k]] + b;
    ProductAppend(a + [t[k]], b, cls, d, ignoreList, minLength, maxLength);
    ProductAppend(a, b, cls, d, ignoreList, minLength, maxLength);
    assert (a + [t[k]])[..|a|] == a;
    var pa := Product(a, cls, d, ignoreList, minLength, maxLength);
    var f := Factor(t[k], cls, d, ignoreList, minLength, maxLength);
    var pb := Product(b, cls, d, ignoreList, minLength, maxLength);
    MulAssoc(pa, f, pb);
  }

  lemma MultisetRemoveAt(t: seq<string>, k: nat)
    requires k < |t|
    ensures multiset(t[..k] + t[k + 1..]) == multiset(t) - multiset{t[k]}
  {
    assert t == t[..k] + [t[k]] + t[k + 1..];
  }

  /** The product does not depend on the order of the tokens. */
  lemma {:induction false} ProductPermutation(s: seq<string>, t: seq<string>, cls: string, d: Dictionary, ignoreList: seq<string>, minLength: int, maxLength: int)
    requires multiset(s) == multiset(t)
    ensures Product(s, cls, d, ignoreList, minLength, maxLength) == Product(t, cls, d, ignoreList, minLength, maxLength)
    decreases |s|
  {
    if s == [] {
      assert |t| == |multiset(t)| == 0;
    } else {
      var s' := s[..|s| - 1];
      var x := s[|s| - 1];
      assert s == s' + [x];
      assert multiset(s') == multiset(s) - multiset{x};
      assert x in multiset(t);
      var k :| 0 <= k < |t| && t[k] == x;
      MultisetRemoveAt(t, k);
      ProductPermutation(s', t[..k] + t[k + 1..], cls, d, ignoreList, minLength, maxLength);
      ProductExtract(t, k, cls, d, ignoreList, minLength, maxLength);
    }
  }

  // ---------------------------------------------------------------------------
  // Dictionary seeding
  // ---------------------------------------------------------------------------

  /** The words of a list, each trimmed. */
  function TrimAll(words: seq<string>): (r: seq<string>)
    ensures |r| == |words|
    ensures forall i :: 0 <= i < |words| ==> r[i] == Trim(words[i])
  {
    if words == [] then [] else [Trim(words[0])] + TrimAll(words[1..])
  }

  /** One iteration of `loadDictionaryFor`: set the count of `(w, cls)` to 1
      unless that pair is already present. Only `w` may gain a key or an
      entry, and every entry already present keeps its count. */
  function SeedWord(d: Dictionary, cls: string, w: string): (r: Dictionary)
    ensures forall v :: v in r <==> v in d || v == w
    ensures forall v :: v in d && v != w ==> r[v] == d[v]
    ensures forall v, c :: Has(r, v, c) <==> Has(d, v, c) || (c == cls && v == w)
    ensures forall v, c :: Has(r, v, c) ==> r[v][c] == if Has(d, v, c) then d[v][c] else 1
  {
    if Has(d, w, cls) then d
    else d[w := (if w in d then d[w] else map[])[cls := 1]]
  }

  /** `loadDictionaryFor(cls)` over the word list `words`, first word first.
      Every trimmed word of the list ends up with an entry for `cls`, and no
      entry already present is overwritten. */
  function Seed(d: Dictionary, cls: string, words: seq<string>): (r: Dictionary)
    ensures forall i :: 0 <= i < |words| ==> Has(r, Trim(words[i]), cls)
    ensures forall w, c :: Has(d, w, c) ==> Has(r, w, c) && r[w][c] == d[w][c]
    decreases |words|
  {
    if words == [] then d
    else
      var t := Trim(words[0]);
      var d1 := SeedWord(d, cls, t);
      var r := Seed(d1, cls, words[1..]);
      assert forall i :: 0 <= i < |words| ==> Has(r, Trim(words[i]), cls) by {
        forall i | 0 <= i < |words| ensures Has(r, Trim(words[i]), cls) {
          if i == 0 {
            assert Has(d1, t, cls);
          } else {
            assert words[i] == words[1..][i - 1];
            assert Has(r, Trim(words[1..][i - 1]), cls);
          }
        }
      }
      r
  }

  /** `loadAllClassesDictionary`: every class in order, each with its list.
      Every trimmed word of every class's list ends up with an entry for
      that class, and no entry already present is overwritten. */
  function SeedAll(d: Dictionary, classes: seq<string>, wordsFor: string -> seq<string>): (r: Dictionary)
    ensures forall i, j :: 0 <= i < |classes| && 0 <= j < |wordsFor(classes[i])| ==> Has(r, Trim(wordsFor(classes[i])[j]), classes[i])
    ensures forall w, c :: Has(d, w, c) ==> Has(r, w, c) && r[w][c] == d[w][c]
    decreases |classes|
  {
    if classes == [] then d
    else
      var d1 := Seed(d, classes[0], wordsFor(classes[0]));
      var r := SeedAll(d1, classes[1..], wordsFor);
      assert forall i :: 1 <= i < |classes| ==> classes[i] == classes[1..][i - 1];
      r
  }

  /** Exactly what seeding does: the trimmed words get an entry for `cls`
      with count 1 where they had none; nothing else changes. */
  lemma {:induction false} SeedEffect(d: Dictionary, cls: string, words: seq<string>)
    ensures var r := Seed(d, cls, words);
      && (forall w :: w in r <==> w in d || w in TrimAll(words))
      && (forall w :: w in d && w !in TrimAll(words) ==> r[w] == d[w])
      && (forall w, c :: Has(r, w, c) <==> Has(d, w, c) || (c == cls && w in TrimAll(words)))
      && (forall w, c :: Has(r, w, c) ==> r[w][c] == if Has(d, w, c) then d[w][c] else 1)
    decreases |words|
  {
    if words != [] {
      var t := Trim(words[0]);
      var d1 := SeedWord(d, cls, t);
      var r := Seed(d1, cls, words[1..]);
      assert r == Seed(d, cls, words);
      SeedEffect(d1, cls, words[1..]);
      var rest := TrimAll(words[1..]);
      assert TrimAll(words) == [t] + rest;
      assert forall w :: w in TrimAll(words) <==> w == t || w in rest;
      forall w, c | Has(r, w, c)
        ensures r[w][c] == if Has(d, w, c) then d[w][c] else 1
      {
        if Has(d1, w, c) {
          assert r[w][c] == d1[w][c];
        }
      }
    }
  }

  /** Entries of other classes, and of words not on the list, are unchanged. */
  lemma SeedFrame(d: Dictionary, cls: string, words: seq<string>, w: string, c: string)
    requires c != cls || w !in TrimAll(words)
    ensures Has(Seed(d, cls, words), w, c) <==> Has(d, w, c)
    ensures Has(d, w, c) ==> Seed(d, cls, words)[w][c] == d[w][c]
  {
    SeedEffect(d, cls, words);
  }

  /** Seeding words that all have an entry for `cls` already changes nothing. */
  lemma {:induction false} SeedPresent(d: Dictionary, cls: string, words: seq<string>)
    requires forall i :: 0 <= i < |words| ==> Has(d, Trim(words[i]), cls)
    ensures Seed(d, cls, words) == d
    decreases |words|
  {
    if words != [] {
      assert Has(d, Trim(words[0]), cls);
      SeedPresent(d, cls, words[1..]);
    }
  }

  /** Seeding twice with the same list is seeding once. */
  lemma SeedIdempotent(d: Dictionary, cls: string, words: seq<string>)
    ensures Seed(Seed(d, cls, words), cls, words) == Seed(d, cls, words)
  {
    SeedPresent(Seed(d, cls, words), cls, words);
  }

  /** Every stored count is 1. */
  ghost predicate CountsAreOne(d: Dictionary)
  {
    forall w, c :: Has(d, w, c) ==> d[w][c] == 1
  }

  /** Seeding only ever stores the count 1. */
  lemma {:induction false} SeedAllCountsOne(d: Dictionary, classes: seq<string>, wordsFor: string -> seq<string>)
    requires CountsAreOne(d)
    ensures CountsAreOne(SeedAll(d, classes, wordsFor))
    decreases |classes|
  {
    if classes != [] {
      SeedEffect(d, classes[0], wordsFor(classes[0]));
      SeedAllCountsOne(Seed(d, classes[0], wordsFor(classes[0])), classes[1..], wordsFor);
    }
  }

  /** For a dictionary built from nothing by seeding, every valid token
      multiplies a class score by 1 or 2. */
  lemma SeededFactor(classes: seq<string>, wordsFor: string -> seq<string>, token: string, cls: string, ignoreList: seq<string>, minLength: int, maxLength: int)
    ensures var f := Factor(token, cls, SeedAll(map[], classes, wordsFor), ignoreList, minLength, maxLength);
      f == 1 || f == 2
  {
    SeedAllCountsOne(map[], classes, wordsFor);
  }

  // ---------------------------------------------------------------------------
  // The ignore and negation lists
  // ---------------------------------------------------------------------------

  /** `loadWordsForList` over a given list: each word trimmed, then unescaped
      by `unescape` (standing for `stripcslashes`). One entry per word, in order. */
  function LoadWordsForList(words: seq<string>, unescape: string -> string): (r: seq<string>)
    ensures |r| == |words|
    ensures forall i :: 0 <= i < |words| ==> r[i] == unescape(Trim(words[i]))
  {
    if words == [] then [] else [unescape(Trim(words[0]))] + LoadWordsForList(words[1..], unescape)
  }

  // ---------------------------------------------------------------------------
  // Classification
  // ---------------------------------------------------------------------------

  /** `classify`: `arsort` the score table, then take its first key with
      `key()`, which gives no key (PHP's null) on an empty table. The label is
      that of the earliest entry holding the largest score. */
  function Classify(scores: Table<real>): (top: Option<string>)
    ensures top.None? <==> scores == []
    ensures top.Some? ==> exists m :: IsFirstMax(scores, m) && top.value == scores[m].0
  {
    if scores == [] then None
    else
      ArSortHead(scores);
      Some(ArSort(scores)[0].0)
  }

  /** For a score table with one entry per class, in class order, holding each
      class's score: the label chosen is a class with the top score, and it is
      the earliest class in `classes` that has that score. No class means no label. */
  lemma ClassifyPicksEarliestTop(classes: seq<string>, scores: Table<real>, score: string -> real)
    requires Keys(scores) == Dedup(classes)
    requires forall i :: 0 <= i < |scores| ==> scores[i].1 == score(scores[i].0)
    ensures Classify(scores).None? <==> classes == []
    ensures Classify(scores).Some? ==>
      var c := Classify(scores).value;
      && c in classes
      && (forall j :: 0 <= j < |classes| ==> score(classes[j]) <= score(c))
      && (forall j :: 0 <= j < |classes| && score(classes[j]) == score(c) ==> c in classes[..j + 1])
  {
    var keys := Keys(scores);
    if classes == [] {
      assert |scores| == |keys| == 0;
    } else {
      assert classes[0] in keys;
      assert scores != [];
      var m := FirstMaxIndex(scores);
      var m' :| IsFirstMax(scores, m') && Classify(scores).value == scores[m'].0;
      FirstMaxUnique(scores, m, m');
      ClassifyTop(classes, scores, score, m);
    }
  }

  lemma ClassifyTop(classes: seq<string>, scores: Table<real>, score: string -> real, m: nat)
    requires Keys(scores) == Dedup(classes)
    requires forall i :: 0 <= i < |scores| ==> scores[i].1 == score(scores[i].0)
    requires IsFirstMax(scores, m)
    ensures scores[m].0 in classes
    ensures forall j :: 0 <= j < |classes| ==> score(classes[j]) <= score(scores[m].0)
    ensures forall j :: 0 <= j < |classes| && score(classes[j]) == score(scores[m].0) ==> scores[m].0 in classes[..j + 1]
  {
    var keys := Keys(scores);
    var c := scores[m].0;
    assert keys[m] == c;
    forall j | 0 <= j < |classes|
      ensures score(classes[j]) <= score(c)
      ensures score(classes[j]) == score(c) ==> c in classes[..j + 1]
    {
      var x := classes[j];
      assert x in keys;
      var i :| 0 <= i < |keys| && keys[i] == x;
      assert scores[i].0 == x;
      if c !in classes[..j + 1] {
        DedupOrder(classes, j, i, m);
      }
    }
  }

  /** In first-occurrence order, `s[j]` comes before every element that does
      not occur in `s[..j + 1]`. */
  lemma DedupOrder(s: seq<string>, j: nat, a: nat, b: nat)
    requires j < |s| && a < |Dedup(s)| && b < |Dedup(s)|
    requires Dedup(s)[a] == s[j] && Dedup(s)[b] !in s[..j + 1]
    ensures a < b
  {
    var p := Dedup(s[..j + 1]);
    DedupPrefix(s, j + 1);
    assert s[j] in s[..j + 1];
    var ip :| 0 <= ip < |p| && p[ip] == s[j];
    assert Dedup(s)[ip] == s[j];
    assert a == ip;
  }

  // ---------------------------------------------------------------------------
  // Worked cases
  // ---------------------------------------------------------------------------

  /** An empty sentence yields the single empty token, which is invalid, so
      every class keeps the product 1 and only the priors (left out) differ. */
  lemma EmptySentenceScoresOne(negations: seq<string>, cls: string, d: Dictionary, ignoreList: seq<string>, minLength: int, maxLength: int)
    requires minLength >= 1
    ensures Tokenize(FuseNegations("", negations)) == [""]
    ensures Product(Tokenize(FuseNegations("", negations)), cls, d, ignoreList, minLength, maxLength) == 1
  {
    var tokens := Tokenize("");
    assert tokens == [""];
    assert tokens[..0] == [];
  }

  /** Without a carriage return there is no CRLF to replace. */
  lemma CrlfAbsent(s: string)
    requires '\r' !in s
    ensures CrlfToSpace(s) == s
  {
    FirstCharMissing("\r\n", s);
    ReplaceAbsent(s, "\r\n", " ");
  }

  /** A sentence without carriage returns and capitals tokenizes by splitting alone. */
  lemma TokenizePlain(s: string)
    requires '\r' !in s
    requires forall i :: 0 <= i < |s| ==> !IsAsciiUpper(s[i])
    ensures Tokenize(s) == Split(s)
  {
    CrlfAbsent(s);
    ToLowerNoUpper(s);
  }

  /** One negation word: the fusion is one `str_replace`. */
  lemma FuseOneWord(s: string, w: string)
    ensures FuseNegations(s, [w]) == Replace(s, w + " ", w)
  {
    assert [w][1..] == [];
  }

  /** A space-free sentence without carriage returns and capitals is one token. */
  lemma TokenizeWord(s: string)
    requires ' ' !in s && '\r' !in s
    requires forall i :: 0 <= i < |s| ==> !IsAsciiUpper(s[i])
    ensures Tokenize(s) == [s]
  {
    TokenizePlain(s);
    SplitNoSpace(s);
  }

  /** "not good" with the negation word "not" gives the single token "notgood". */
  lemma FusionExample(s: string)
    requires s == "not good"
    ensures FuseNegations(s, ["not"]) == "notgood"
    ensures Tokenize(FuseNegations(s, ["not"])) == ["notgood"]
  {
    FuseOneWord(s, "not");
    assert "not" + " " == "not ";
    NotGoodReplace(s, "not ");
    TokenizeNotgood(FuseNegations(s, ["not"]));
  }

  lemma NotGoodReplace(s: string, pat: string)
    requires s == "not good" && pat == "not "
    ensures Replace(s, pat, "not") == "notgood"
  {
    assert pat <= s;
    var rest := s[|pat|..];
    assert rest == "good";
    assert !(pat <= rest) by { assert rest[0] != pat[0]; }
    assert rest[1..] == "ood";
    assert Replace(rest, pat, "not") == "good";
  }

  lemma TokenizeNotgood(f: string)
    requires f == "notgood"
    ensures Tokenize(f) == [f]
  {
    assert ' ' !in f && '\r' !in f;
    assert forall i :: 0 <= i < |f| ==> !IsAsciiUpper(f[i]);
    TokenizeWord(f);
  }

  /** Fusion is case-sensitive and runs before lower-casing: "Not good" keeps
      its space, and tokenizing it then gives two tokens. */
  lemma CaseSensitiveFusionExample(s: string)
    requires s == "Not good"
    ensures FuseNegations(s, ["not"]) == s
  {
    assert 'n' !in s;
    FirstCharMissing("not ", s);
    assert forall w :: w in ["not"] ==> w + " " == "not ";
    FuseNegationsNoMatch(s, ["not"]);
  }

  /** Tokenizing lower-cases: "Not good" gives "not" and "good". */
  lemma TokenizeExample(s: string)
    requires s == "Not good"
    ensures Tokenize(s) == ["not", "good"]
  {
    assert '\r' !in s;
    CrlfAbsent(s);
    LowerNotGood(s);
    NotGoodSplit(["not", "good"]);
  }

  lemma NotGoodSplit(ts: seq<string>)
    requires ts == ["not", "good"]
    ensures Split("not good") == ts
  {
    assert Join(ts) == "not good" by { assert ts[1..] == ["good"]; }
    assert ' ' !in ts[0] && ' ' !in ts[1];
    SplitJoin(ts);
  }

  lemma LowerNotGood(s: string)
    requires s == "Not good"
    ensures ToLower(s) == "not good"
  {
    var l := ToLower(s);
    var e := "not good";
    assert l[0] == e[0];
    forall i | 1 <= i < |s| ensures l[i] == e[i] {
      assert s[i] == e[i];
    }
  }

  /** Ties on the top score go to the class listed first. */
  lemma ClassifyTieExample(t: Table<real>)
    requires t == [("positive", 0.333), ("negative", 0.333), ("neutral", 0.333)]
    ensures Classify(t) == Some("positive")
  {
    assert IsFirstMax(t, 0);
    var m :| IsFirstMax(t, m) && Classify(t).value == t[m].0;
    FirstMaxUnique(t, 0, m);
  }

  /** A strictly larger score wins wherever it stands. */
  lemma ClassifyTopExample(t: Table<real>)
    requires t == [("positive", 1.0), ("negative", 2.0), ("neutral", 1.0)]
    ensures Classify(t) == Some("negative")
  {
    assert IsFirstMax(t, 1);
    var m :| IsFirstMax(t, m) && Classify(t).value == t[m].0;
    FirstMaxUnique(t, 1, m);
  }
}
