/**
  Maven's qualifier ladder (app/core/versions.py), on version texts: a number followed by a word.
*/
module MavenLadder {
  import opened Prelude
  import opened Text
  import opened Maven

  /** From the lowest rung to the highest; a release stands on the sixth, any other word above them all. */
  const RUNGS: seq<set<string>> := [
    {"alpha", "a"}, {"beta", "b"}, {"milestone", "m"}, {"rc", "cr"}, {"snapshot"}, {"ga", "final", "release"}, {"sp"}]

  predicate IsNumber(s: string) {
    s != "" && All(s, IsDigit)
  }

  /** A word in lower case. */
  predicate IsWord(s: string) {
    s != "" && forall i :: 0 <= i < |s| ==> 'a' <= s[i] <= 'z'
  }

  predicate IsListed(word: string) {
    exists i :: 0 <= i < |RUNGS| && word in RUNGS[i]
  }

  function Qualified(number: string, word: string): string {
    number + ['-'] + word
  }

  // ---------- ranks ----------

  lemma RungIsRank(i: nat, word: string)
    requires i < |RUNGS| && word in RUNGS[i]
    ensures Rank(word) == i && IsWord(word)
  {
  }

  lemma UnlistedRank(word: string)
    requires IsWord(word) && !IsListed(word)
    ensures Rank(word) == UNKNOWN_RANK
  {
    assert forall i :: 0 <= i < |RUNGS| ==> word !in RUNGS[i];
    assert word !in RUNGS[0] && word !in RUNGS[1] && word !in RUNGS[2] && word !in RUNGS[3];
    assert word !in RUNGS[4] && word !in RUNGS[5] && word !in RUNGS[6];
  }

  // ---------- keys ----------

  lemma WordIsRun(word: string)
    requires IsWord(word)
    ensures IsRun(word) && RunToken(word) == [Qualifier(word)]
  {
  }

  lemma NumberIsRun(number: string)
    requires IsNumber(number)
    ensures IsRun(number) && RunToken(number) == [Number(Text.Number(number))]
  {
  }

  /** The key of a number followed by a word: a word on the release's rung stands for nothing. */
  function QualifiedKey(n: nat, word: string): seq<Token> {
    if Rank(word) == RELEASE_RANK then NumberKey(n) else [Number(n), Qualifier(word)]
  }

  function NumberKey(n: nat): seq<Token> {
    if n == 0 then [] else [Number(n)]
  }

  lemma KeyOfNumberText(number: string)
    requires IsNumber(number)
    ensures Key(number) == NumberKey(Text.Number(number))
  {
    NumberIsRun(number);
    PlainTokens(number);
    OneRun(number);
    TrimmedNumber(Text.Number(number));
  }

  lemma TrimmedNumber(n: nat)
    ensures Trim([Number(n)]) == NumberKey(n)
  {
    assert [Number(n)][..0] == [];
  }

  lemma KeyOfQualified(number: string, word: string)
    requires IsNumber(number) && IsWord(word)
    ensures Key(Qualified(number, word)) == QualifiedKey(Text.Number(number), word)
  {
    NumberIsRun(number);
    WordIsRun(word);
    OneRun(number);
    TokensOfTwoRuns(number, '-', word);
    var n := Text.Number(number);
    assert [Number(n)] + [Qualifier(word)] == [Number(n), Qualifier(word)];
    assert [Number(n), Qualifier(word)][..1] == [Number(n)];
    TrimmedNumber(n);
  }

  /** Two words after one number compare by rung, and on one rung, other than the release's, as text. */
  lemma QualifiedOrder(n: nat, p: string, q: string)
    requires p != "" && q != ""
    ensures Order(QualifiedKey(n, p), QualifiedKey(n, q)) ==
      if Rank(p) != Rank(q) then CompareInt(Rank(p), Rank(q))
      else if Rank(p) == RELEASE_RANK then 0
      else CompareText(p, q)
  {
    var a, b := QualifiedKey(n, p), QualifiedKey(n, q);
    CompareTextMirrors(p, q);
    if a != [] && b != [] {
      assert CompareFronts(a, b) == 0;
      AfterNumber(n, p, q);
    } else {
      ZeroNumber(p, q);
    }
  }

  lemma AfterNumber(n: nat, p: string, q: string)
    requires p != "" && q != "" && QualifiedKey(n, p) != [] && QualifiedKey(n, q) != []
    ensures Order(QualifiedKey(n, p), QualifiedKey(n, q))
         == Order(Rest(QualifiedKey(n, p)), Rest(QualifiedKey(n, q)))
    ensures Rest(QualifiedKey(n, p)) == (if Rank(p) == RELEASE_RANK then [] else [Qualifier(p)])
    ensures Rest(QualifiedKey(n, q)) == (if Rank(q) == RELEASE_RANK then [] else [Qualifier(q)])
  {
  }

  /** After the number zero the release's key is empty. */
  lemma ZeroNumber(p: string, q: string)
    requires p != "" && q != ""
    ensures Rank(p) == RELEASE_RANK && Rank(q) != RELEASE_RANK ==>
      Order(QualifiedKey(0, p), QualifiedKey(0, q)) == CompareInt(RELEASE_RANK, Rank(q))
    ensures Rank(p) != RELEASE_RANK && Rank(q) == RELEASE_RANK ==>
      Order(QualifiedKey(0, p), QualifiedKey(0, q)) == CompareInt(Rank(p), RELEASE_RANK)
  {
    if Rank(q) != RELEASE_RANK {
      assert QualifiedKey(0, q)[1..] == [Qualifier(q)] && [Qualifier(q)][1..] == [];
    }
    if Rank(p) != RELEASE_RANK {
      assert QualifiedKey(0, p)[1..] == [Qualifier(p)] && [Qualifier(p)][1..] == [];
    }
  }

  // ---------- the ladder ----------

  /** A word on a lower rung makes a lower version. */
  lemma LadderAscends(number: string, i: nat, j: nat, p: string, q: string)
    requires IsNumber(number) && i < j < |RUNGS| && p in RUNGS[i] && q in RUNGS[j]
    ensures Order(Key(Qualified(number, p)), Key(Qualified(number, q))) < 0
  {
    RungIsRank(i, p);
    RungIsRank(j, q);
    KeyOfQualified(number, p);
    KeyOfQualified(number, q);
    QualifiedOrder(Text.Number(number), p, q);
  }

  /** The bare number is the release: above alpha to snapshot, equal to ga, final and release, below sp. */
  lemma ReleaseOnLadder(number: string, i: nat, p: string)
    requires IsNumber(number) && i < |RUNGS| && p in RUNGS[i]
    ensures
      var c := Order(Key(Qualified(number, p)), Key(number));
      (c < 0 <==> i < 5) && (c == 0 <==> i == 5) && (c > 0 <==> i == 6)
    ensures i == 5 ==> Key(Qualified(number, p)) == Key(number)
  {
    RungIsRank(i, p);
    KeyOfQualified(number, p);
    KeyOfNumberText(number);
    RungIsRank(5, "ga");
    QualifiedOrder(Text.Number(number), p, "ga");
  }

  /** Any other word is above the whole ladder. */
  lemma UnlistedIsHighest(number: string, i: nat, p: string, q: string)
    requires IsNumber(number) && i < |RUNGS| && p in RUNGS[i] && IsWord(q) && !IsListed(q)
    ensures Order(Key(Qualified(number, p)), Key(Qualified(number, q))) < 0
    ensures Order(Key(number), Key(Qualified(number, q))) < 0
  {
    RungIsRank(i, p);
    RungIsRank(5, "ga");
    UnlistedRank(q);
    KeyOfQualified(number, p);
    KeyOfQualified(number, q);
    KeyOfNumberText(number);
    QualifiedOrder(Text.Number(number), p, q);
    QualifiedOrder(Text.Number(number), "ga", q);
  }

  /** Two such words compare as text. */
  lemma UnlistedCompareAsText(number: string, p: string, q: string)
    requires IsNumber(number) && IsWord(p) && IsWord(q) && !IsListed(p) && !IsListed(q)
    ensures Order(Key(Qualified(number, p)), Key(Qualified(number, q))) < 0 <==> Before(p, q)
  {
    UnlistedRank(p);
    UnlistedRank(q);
    KeyOfQualified(number, p);
    KeyOfQualified(number, q);
    QualifiedOrder(Text.Number(number), p, q);
    CompareTextIff(p, q);
  }

  /** So do two spellings of one rung, except the release's: 1-a is below 1-alpha, 1-cr below 1-rc. */
  lemma SpellingsCompareAsText(number: string, i: nat, p: string, q: string)
    requires IsNumber(number) && i < |RUNGS| && i != 5 && p in RUNGS[i] && q in RUNGS[i]
    ensures Order(Key(Qualified(number, p)), Key(Qualified(number, q))) < 0 <==> Before(p, q)
    ensures Order(Key(Qualified(number, p)), Key(Qualified(number, q))) == 0 <==> p == q
  {
    RungIsRank(i, p);
    RungIsRank(i, q);
    KeyOfQualified(number, p);
    KeyOfQualified(number, q);
    QualifiedOrder(Text.Number(number), p, q);
    CompareTextIff(p, q);
  }

  // ---------- numbers and case ----------

  /** Numbers compare by value, leading zeros and all. */
  lemma NumbersCompareByValue(a: string, b: string)
    requires IsNumber(a) && IsNumber(b)
    ensures Order(Key(a), Key(b)) < 0 <==> Text.Number(a) < Text.Number(b)
    ensures Order(Key(a), Key(b)) == 0 <==> Text.Number(a) == Text.Number(b)
  {
    KeyOfNumberText(a);
    KeyOfNumberText(b);
  }

  /** A further number outranks any word: 1-jre and 1-sp are below 1.1. */
  lemma NumberOutranksWord(number: string, word: string, further: string)
    requires IsNumber(number) && IsWord(word) && IsNumber(further) && Text.Number(further) > 0
    ensures Order(Key(Qualified(number, word)), Key(number + ['.'] + further)) < 0
  {
    var n, m := Text.Number(number), Text.Number(further);
    NumberIsRun(number);
    NumberIsRun(further);
    OneRun(number);
    TokensOfTwoRuns(number, '.', further);
    KeyOfQualified(number, word);
    assert [Number(n)] + [Number(m)] == [Number(n), Number(m)];
    KeyFromTokens(number + ['.'] + further, [Number(n), Number(m)]);
    FurtherNumber(n, word, m);
  }

  lemma FurtherNumber(n: nat, word: string, m: nat)
    requires word != "" && m > 0
    ensures Order(QualifiedKey(n, word), [Number(n), Number(m)]) < 0
  {
    assert [Number(n), Number(m)][1..] == [Number(m)];
  }

  lemma KeyFromTokens(value: string, tokens: seq<Token>)
    requires Tokens(value) == tokens && Trimmed(tokens)
    ensures Key(value) == tokens
  {
  }

  lemma NoSpaces(s: string)
    requires s != "" && forall i :: 0 <= i < |s| ==> !IsSpace(s[i])
    ensures Strip(s) == s
  {
    StripDrops("", s, "");
    assert "" + s + "" == s;
  }

  lemma QualifiedChar(number: string, word: string, i: nat)
    requires IsNumber(number) && i < |Qualified(number, word)|
    ensures Qualified(number, word)[i] ==
      if i < |number| then number[i] else if i == |number| then '-' else word[i - |number| - 1]
  {
  }

  lemma FoldedChar(number: string, word: string, i: nat)
    requires IsNumber(number) && IsWord(word) && i < |Qualified(number, word)|
    ensures
      var shout, quiet := Qualified(number, Upper(word))[i], Qualified(number, word)[i];
      !IsSpace(shout) && !IsSpace(quiet) && LowerChar(shout) == LowerChar(quiet)
  {
    QualifiedChar(number, word, i);
    QualifiedChar(number, Upper(word), i);
  }

  /** Capitals change nothing: 1-RC is 1-rc. */
  lemma CaseIsFolded(number: string, word: string)
    requires IsNumber(number) && IsWord(word)
    ensures Key(Qualified(number, Upper(word))) == Key(Qualified(number, word))
  {
    var shout, quiet := Qualified(number, Upper(word)), Qualified(number, word);
    forall i | 0 <= i < |shout|
      ensures !IsSpace(shout[i]) && !IsSpace(quiet[i]) && LowerChar(shout[i]) == LowerChar(quiet[i])
    {
      FoldedChar(number, word, i);
    }
    NoSpaces(shout);
    NoSpaces(quiet);
    assert Lower(shout) == Lower(quiet);
  }
}
