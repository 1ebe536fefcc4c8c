/** `reverse_words` of reverseWords.py: every word spelled backwards, words
    kept in order and joined by single spaces. */
module ReverseWords {
  import opened Strings

  /** Spelling a string backwards twice gives it back. */
  lemma ReverseTwice(s: string)
    ensures Reverse(Reverse(s)) == s
  {
  }

  /** A reversed word is still a non-empty word without a space. */
  lemma ReverseWord(w: string)
    ensures w != [] && NoSpace(w) ==> Reverse(w) != [] && NoSpace(Reverse(w))
  {
    if w != [] && NoSpace(w) {
      forall i | 0 <= i < |w| ensures !IsSpace(Reverse(w)[i]) {
        assert Reverse(w)[i] == w[|w| - 1 - i];
      }
    }
  }

  /** Every word of `ws` spelled backwards. */
  function ReverseEach(ws: seq<string>): (rs: seq<string>)
    ensures |rs| == |ws|
    ensures forall i :: 0 <= i < |ws| ==> rs[i] == Reverse(ws[i])
  {
    if ws == [] then [] else [Reverse(ws[0])] + ReverseEach(ws[1..])
  }

  /** `reverse_words(input)`: the words of `input.split()` are reversed in
      place, one index at a time, and joined by `" "`; the string printed is
      returned. */
  method ReverseWords(input: string) returns (output: string)
    ensures output == Join(ReverseEach(Words(input)), " ")
    ensures |Words(output)| == |Words(input)|
    ensures forall i :: 0 <= i < |Words(input)| ==> Words(output)[i] == Reverse(Words(input)[i])
  {
    var original := Words(input);
    var words := original;
    for i := 0 to |words|
      invariant |words| == |original|
      invariant forall k :: 0 <= k < i ==> words[k] == Reverse(original[k])
      invariant forall k :: i <= k < |words| ==> words[k] == original[k]
    {
      words := words[i := Reverse(words[i])];
    }
    assert words == ReverseEach(original);
    output := Join(words, " ");
    forall k | 0 <= k < |words| ensures words[k] != [] && NoSpace(words[k]) {
      ReverseWord(original[k]);
    }
    WordsOfJoin(words);
  }

  /** Reversing the words twice gives the words of the input back, with the
      white space between them normalised to single spaces. */
  method ReverseWordsTwice(input: string) returns (output: string)
    ensures output == Join(Words(input), " ")
  {
    var once := ReverseWords(input);
    output := ReverseWords(once);
    var ws := ReverseEach(Words(once));
    forall i | 0 <= i < |ws| ensures ws[i] == Words(input)[i] {
      ReverseTwice(Words(input)[i]);
    }
    assert ws == Words(input);
  }

  /** `t` is `s` spelled backwards when it matches `s` read from the end. */
  lemma Backwards(s: string, t: string)
    requires |t| == |s| && forall i :: 0 <= i < |s| ==> t[i] == s[|s| - 1 - i]
    ensures Reverse(s) == t
  {
  }

  /** Two words joined by one space come back reversed in place. */
  lemma ReversePair(a: string, b: string, ra: string, rb: string)
    requires a != [] && NoSpace(a) && b != [] && NoSpace(b)
    requires Reverse(a) == ra && Reverse(b) == rb
    ensures Join(ReverseEach(Words(a + " " + b)), " ") == ra + " " + rb
  {
    assert Join([a, b], " ") == a + " " + b;
    WordsOfJoin([a, b]);
    assert ReverseEach([a, b]) == [ra, rb];
  }

  lemma HelloWord()
    ensures "Hello" != [] && NoSpace("Hello") && Reverse("Hello") == "olleH"
  {
    Backwards("Hello", "olleH");
  }

  lemma WorldWord()
    ensures "World" != [] && NoSpace("World") && Reverse("World") == "dlroW"
  {
    Backwards("World", "dlroW");
  }

  lemma CodingWord()
    ensures "Coding" != [] && NoSpace("Coding") && Reverse("Coding") == "gnidoC"
  {
    Backwards("Coding", "gnidoC");
  }

  lemma ChallengeWord()
    ensures "Challenge" != [] && NoSpace("Challenge") && Reverse("Challenge") == "egnellahC"
  {
    Backwards("Challenge", "egnellahC");
  }

  lemma HelloWorldSpelling()
    ensures "Hello" + " " + "World" == "Hello World"
    ensures "olleH" + " " + "dlroW" == "olleH dlroW"
  {
  }

  lemma HelloWorld()
    ensures Join(ReverseEach(Words("Hello World")), " ") == "olleH dlroW"
  {
    HelloWord();
    WorldWord();
    HelloWorldSpelling();
    ReversePair("Hello", "World", "olleH", "dlroW");
  }

  lemma CodingChallengeSpelling()
    ensures "Coding" + " " + "Challenge" == "Coding Challenge"
    ensures "gnidoC" + " " + "egnellahC" == "gnidoC egnellahC"
  {
  }

  lemma CodingChallenge()
    ensures Join(ReverseEach(Words("Coding Challenge")), " ") == "gnidoC egnellahC"
  {
    CodingWord();
    ChallengeWord();
    CodingChallengeSpelling();
    ReversePair("Coding", "Challenge", "gnidoC", "egnellahC");
  }
}
