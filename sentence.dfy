/**
 The operation over its fixed reference sentence: the ten words of line 18,
 the dictionary lines 20-32 leave behind, the characters it encodes, and
 worked examples of `EncodeString`.
 */
module SentenceFacts {
  import opened Text
  import opened CodeTable
  import opened Encoder

  const Words: seq<string> := ["The", "quick", "and", "brown", "fox", "jumps", "over", "the", "Lazy", "Dog"]

  /** The dictionary, one line per word that contributes new keys (word 7,
      "the", brings only lower-case `t`). */
  const SentenceCodes: CodeMap := map[
    'T' := "01", 'h' := "02", 'e' := "03",
    'q' := "11", 'u' := "12", 'i' := "13", 'c' := "14", 'k' := "15",
    'a' := "21", 'n' := "22", 'd' := "23",
    'b' := "31", 'r' := "32", 'o' := "33", 'w' := "34",
    'f' := "41", 'x' := "43",
    'j' := "51", 'm' := "53", 'p' := "54", 's' := "55",
    'v' := "62",
    't' := "71",
    'L' := "81", 'z' := "83", 'y' := "84",
    'D' := "91", 'g' := "93"
  ]

  /** `c` is a key of `m` and carries `code`. */
  ghost predicate Has(m: CodeMap, c: char, code: string)
  {
    c in m && m[c] == code
  }

  /** The words joined back with single spaces, as the nest of concatenations
      `Nest()`. */
  lemma JoinWords()
    ensures Join(Words, ' ') == Nest()
  {
    JoinTen(Words);
  }

  /** Ten pieces joined with spaces, written out as a nest. */
  lemma JoinTen(w: seq<string>)
    requires |w| == 10
    ensures Join(w, ' ') == w[0] + " " + (w[1] + " " + (w[2] + " " + (w[3] + " " + (w[4] + " " + (w[5] + " " + (w[6] + " " + (w[7] + " " + (w[8] + " " + w[9]))))))))
  {
    assert w[9..] == [w[9]];
    assert w[8..] == [w[8]] + w[9..];
    JoinCons(w[8], w[9..], ' ');
    assert w[7..] == [w[7]] + w[8..];
    JoinCons(w[7], w[8..], ' ');
    assert w[6..] == [w[6]] + w[7..];
    JoinCons(w[6], w[7..], ' ');
    assert w[5..] == [w[5]] + w[6..];
    JoinCons(w[5], w[6..], ' ');
    assert w[4..] == [w[4]] + w[5..];
    JoinCons(w[4], w[5..], ' ');
    assert w[3..] == [w[3]] + w[4..];
    JoinCons(w[3], w[4..], ' ');
    assert w[2..] == [w[2]] + w[3..];
    JoinCons(w[2], w[3..], ' ');
    assert w[1..] == [w[1]] + w[2..];
    JoinCons(w[1], w[2..], ' ');
    assert w[0..] == [w[0]] + w[1..];
    JoinCons(w[0], w[1..], ' ');
    assert w[0..] == w;
  }

  /** The ten words with a space between each neighbouring pair, nested from
      the right as `Join` builds them. */
  function Nest(): string
  {
    Words[0] + " " + (Words[1] + " " + (Words[2] + " " + (Words[3] + " " + (Words[4] + " " + (Words[5] + " " + (Words[6] + " " + (Words[7] + " " + (Words[8] + " " + Words[9]))))))))
  }

  /** The same nest is the sentence of line 17, compared in blocks of
      characters. */
  lemma NestedIsSentence()
    ensures Sentence == Nest()
  {
    assert |Sentence| == |Nest()| == 47;
    SentenceChars0();
    SentenceChars1();
    SentenceChars2();
    SentenceChars3();
    SentenceChars4();
    SentenceChars5();
    SentenceChars6();
    SentenceChars7();
    assert forall k | 0 <= k < 47 :: Sentence[k] == Nest()[k];
  }

  lemma SentenceChars0()
    ensures |Nest()| == 47 && forall k | 0 <= k < 6 :: Sentence[k] == Nest()[k]
  {
    var t := Nest();
    forall k | 0 <= k < 6 ensures Sentence[k] == t[k] {
    }
  }

  lemma SentenceChars1()
    ensures |Nest()| == 47 && forall k | 6 <= k < 12 :: Sentence[k] == Nest()[k]
  {
    var t := Nest();
    forall k | 6 <= k < 12 ensures Sentence[k] == t[k] {
    }
  }

  lemma SentenceChars2()
    ensures |Nest()| == 47 && forall k | 12 <= k < 18 :: Sentence[k] == Nest()[k]
  {
    var t := Nest();
    forall k | 12 <= k < 18 ensures Sentence[k] == t[k] {
    }
  }

  lemma SentenceChars3()
    ensures |Nest()| == 47 && forall k | 18 <= k < 24 :: Sentence[k] == Nest()[k]
  {
    var t := Nest();
    forall k | 18 <= k < 24 ensures Sentence[k] == t[k] {
    }
  }

  lemma SentenceChars4()
    ensures |Nest()| == 47 && forall k | 24 <= k < 30 :: Sentence[k] == Nest()[k]
  {
    var t := Nest();
    forall k | 24 <= k < 30 ensures Sentence[k] == t[k] {
    }
  }

  lemma SentenceChars5()
    ensures |Nest()| == 47 && forall k | 30 <= k < 36 :: Sentence[k] == Nest()[k]
  {
    var t := Nest();
    forall k | 30 <= k < 36 ensures Sentence[k] == t[k] {
    }
  }

  lemma SentenceChars6()
    ensures |Nest()| == 47 && forall k | 36 <= k < 42 :: Sentence[k] == Nest()[k]
  {
    var t := Nest();
    forall k | 36 <= k < 42 ensures Sentence[k] == t[k] {
    }
  }

  lemma SentenceChars7()
    ensures |Nest()| == 47 && forall k | 42 <= k < 47 :: Sentence[k] == Nest()[k]
  {
    var t := Nest();
    forall k | 42 <= k < 47 ensures Sentence[k] == t[k] {
    }
  }

  lemma WordsHaveNoSpace()
    ensures forall k :: 0 <= k < |Words| ==> ' ' !in Words[k]
  {
  }

  /** Line 18: the sentence splits into ten words. */
  lemma SentenceWordsValue()
    ensures SentenceWords() == Words
  {
    JoinWords();
    NestedIsSentence();
    WordsHaveNoSpace();
    SplitJoin(Words, ' ');
  }

  /** The keys: every character of the sentence but the space, in its own case. */
  lemma SentenceKeys(c: char)
    ensures c in BuildMap(Words) <==> c in SentenceCodes
  {
    BuildMapKeys(Words, c);
    OccursIn(Words, c);
    if c in SentenceCodes {
      CodeKeyInWords(c);
    }
    forall i | 0 <= i < |Words| && c in Words[i] ensures c in SentenceCodes {
      WordCharIsCodeKey(c, i);
    }
  }

  lemma CodeKeyInWords(c: char)
    requires c in SentenceCodes
    ensures exists i :: 0 <= i < |Words| && c in Words[i]
  {
    assert c == 'T' || c == 'h' || c == 'e' || c == 'q' || c == 'u' || c == 'i' || c == 'c' || c == 'k' || c == 'a' || c == 'n' || c == 'd' || c == 'b' || c == 'r' || c == 'o' || c == 'w' || c == 'f' || c == 'x' || c == 'j' || c == 'm' || c == 'p' || c == 's' || c == 'v' || c == 't' || c == 'L' || c == 'z' || c == 'y' || c == 'D' || c == 'g';
    assert c in Words[0] || c in Words[1] || c in Words[2] || c in Words[3] || c in Words[4] || c in Words[5] || c in Words[6] || c in Words[7] || c in Words[8] || c in Words[9];
  }

  lemma WordCharIsCodeKey(c: char, i: int)
    requires 0 <= i < |Words| && c in Words[i]
    ensures c in SentenceCodes
  {
  }

  lemma FirstsInWord0()
    ensures IsFirst(Words, 'T', 0, 0) && IsFirst(Words, 'h', 0, 1) && IsFirst(Words, 'e', 0, 2)
  {
    FirstIn(Words, 'T', 0, 0);
    FirstIn(Words, 'h', 0, 1);
    FirstIn(Words, 'e', 0, 2);
  }

  /** The keys first met in word 0, "The", with their codes. */
  lemma CodesOfWord0()
    ensures Has(BuildMap(Words), 'T', "01") && Has(BuildMap(Words), 'h', "02") && Has(BuildMap(Words), 'e', "03")
  {
    FirstsInWord0();
    BuildMapFirst(Words, 'T', 0, 0);
    assert CodeOf(0, 0) == "01";
    BuildMapFirst(Words, 'h', 0, 1);
    assert CodeOf(0, 1) == "02";
    BuildMapFirst(Words, 'e', 0, 2);
    assert CodeOf(0, 2) == "03";
  }

  lemma FirstsInWord1()
    ensures IsFirst(Words, 'q', 1, 0) && IsFirst(Words, 'u', 1, 1) && IsFirst(Words, 'i', 1, 2) && IsFirst(Words, 'c', 1, 3) && IsFirst(Words, 'k', 1, 4)
  {
    FirstIn(Words, 'q', 1, 0);
    FirstIn(Words, 'u', 1, 1);
    FirstIn(Words, 'i', 1, 2);
    FirstIn(Words, 'c', 1, 3);
    FirstIn(Words, 'k', 1, 4);
  }

  /** The keys first met in word 1, "quick", with their codes. */
  lemma CodesOfWord1()
    ensures Has(BuildMap(Words), 'q', "11") && Has(BuildMap(Words), 'u', "12") && Has(BuildMap(Words), 'i', "13") && Has(BuildMap(Words), 'c', "14") && Has(BuildMap(Words), 'k', "15")
  {
    FirstsInWord1();
    BuildMapFirst(Words, 'q', 1, 0);
    assert CodeOf(1, 0) == "11";
    BuildMapFirst(Words, 'u', 1, 1);
    assert CodeOf(1, 1) == "12";
    BuildMapFirst(Words, 'i', 1, 2);
    assert CodeOf(1, 2) == "13";
    BuildMapFirst(Words, 'c', 1, 3);
    assert CodeOf(1, 3) == "14";
    BuildMapFirst(Words, 'k', 1, 4);
    assert CodeOf(1, 4) == "15";
  }

  lemma FirstsInWord2()
    ensures IsFirst(Words, 'a', 2, 0) && IsFirst(Words, 'n', 2, 1) && IsFirst(Words, 'd', 2, 2)
  {
    FirstIn(Words, 'a', 2, 0);
    FirstIn(Words, 'n', 2, 1);
    FirstIn(Words, 'd', 2, 2);
  }

  /** The keys first met in word 2, "and", with their codes. */
  lemma CodesOfWord2()
    ensures Has(BuildMap(Words), 'a', "21") && Has(BuildMap(Words), 'n', "22") && Has(BuildMap(Words), 'd', "23")
  {
    FirstsInWord2();
    BuildMapFirst(Words, 'a', 2, 0);
    assert CodeOf(2, 0) == "21";
    BuildMapFirst(Words, 'n', 2, 1);
    assert CodeOf(2, 1) == "22";
    BuildMapFirst(Words, 'd', 2, 2);
    assert CodeOf(2, 2) == "23";
  }

  lemma FirstsInWord3()
    ensures IsFirst(Words, 'b', 3, 0) && IsFirst(Words, 'r', 3, 1) && IsFirst(Words, 'o', 3, 2) && IsFirst(Words, 'w', 3, 3)
  {
    FirstIn(Words, 'b', 3, 0);
    FirstIn(Words, 'r', 3, 1);
    FirstIn(Words, 'o', 3, 2);
    FirstIn(Words, 'w', 3, 3);
  }

  /** The keys first met in word 3, "brown", with their codes. */
  lemma CodesOfWord3()
    ensures Has(BuildMap(Words), 'b', "31") && Has(BuildMap(Words), 'r', "32") && Has(BuildMap(Words), 'o', "33") && Has(BuildMap(Words), 'w', "34")
  {
    FirstsInWord3();
    BuildMapFirst(Words, 'b', 3, 0);
    assert CodeOf(3, 0) == "31";
    BuildMapFirst(Words, 'r', 3, 1);
    assert CodeOf(3, 1) == "32";
    BuildMapFirst(Words, 'o', 3, 2);
    assert CodeOf(3, 2) == "33";
    BuildMapFirst(Words, 'w', 3, 3);
    assert CodeOf(3, 3) == "34";
  }

  lemma FirstsInWord4()
    ensures IsFirst(Words, 'f', 4, 0) && IsFirst(Words, 'x', 4, 2)
  {
    FirstIn(Words, 'f', 4, 0);
    FirstIn(Words, 'x', 4, 2);
  }

  /** The keys first met in word 4, "fox", with their codes. */
  lemma CodesOfWord4()
    ensures Has(BuildMap(Words), 'f', "41") && Has(BuildMap(Words), 'x', "43")
  {
    FirstsInWord4();
    BuildMapFirst(Words, 'f', 4, 0);
    assert CodeOf(4, 0) == "41";
    BuildMapFirst(Words, 'x', 4, 2);
    assert CodeOf(4, 2) == "43";
  }

  lemma FirstsInWord5()
    ensures IsFirst(Words, 'j', 5, 0) && IsFirst(Words, 'm', 5, 2) && IsFirst(Words, 'p', 5, 3) && IsFirst(Words, 's', 5, 4)
  {
    FirstIn(Words, 'j', 5, 0);
    FirstIn(Words, 'm', 5, 2);
    FirstIn(Words, 'p', 5, 3);
    FirstIn(Words, 's', 5, 4);
  }

  /** The keys first met in word 5, "jumps", with their codes. */
  lemma CodesOfWord5()
    ensures Has(BuildMap(Words), 'j', "51") && Has(BuildMap(Words), 'm', "53") && Has(BuildMap(Words), 'p', "54") && Has(BuildMap(Words), 's', "55")
  {
    FirstsInWord5();
    BuildMapFirst(Words, 'j', 5, 0);
    assert CodeOf(5, 0) == "51";
    BuildMapFirst(Words, 'm', 5, 2);
    assert CodeOf(5, 2) == "53";
    BuildMapFirst(Words, 'p', 5, 3);
    assert CodeOf(5, 3) == "54";
    BuildMapFirst(Words, 's', 5, 4);
    assert CodeOf(5, 4) == "55";
  }

  lemma FirstsInWord6()
    ensures IsFirst(Words, 'v', 6, 1)
  {
    FirstIn(Words, 'v', 6, 1);
  }

  /** The keys first met in word 6, "over", with their codes. */
  lemma CodesOfWord6()
    ensures Has(BuildMap(Words), 'v', "62")
  {
    FirstsInWord6();
    BuildMapFirst(Words, 'v', 6, 1);
    assert CodeOf(6, 1) == "62";
  }

  lemma FirstsInWord7()
    ensures IsFirst(Words, 't', 7, 0)
  {
    FirstIn(Words, 't', 7, 0);
  }

  /** The keys first met in word 7, "the", with their codes. */
  lemma CodesOfWord7()
    ensures Has(BuildMap(Words), 't', "71")
  {
    FirstsInWord7();
    BuildMapFirst(Words, 't', 7, 0);
    assert CodeOf(7, 0) == "71";
  }

  lemma FirstsInWord8()
    ensures IsFirst(Words, 'L', 8, 0) && IsFirst(Words, 'z', 8, 2) && IsFirst(Words, 'y', 8, 3)
  {
    FirstIn(Words, 'L', 8, 0);
    FirstIn(Words, 'z', 8, 2);
    FirstIn(Words, 'y', 8, 3);
  }

  /** The keys first met in word 8, "Lazy", with their codes. */
  lemma CodesOfWord8()
    ensures Has(BuildMap(Words), 'L', "81") && Has(BuildMap(Words), 'z', "83") && Has(BuildMap(Words), 'y', "84")
  {
    FirstsInWord8();
    BuildMapFirst(Words, 'L', 8, 0);
    assert CodeOf(8, 0) == "81";
    BuildMapFirst(Words, 'z', 8, 2);
    assert CodeOf(8, 2) == "83";
    BuildMapFirst(Words, 'y', 8, 3);
    assert CodeOf(8, 3) == "84";
  }

  lemma FirstsInWord9()
    ensures IsFirst(Words, 'D', 9, 0) && IsFirst(Words, 'g', 9, 2)
  {
    FirstIn(Words, 'D', 9, 0);
    FirstIn(Words, 'g', 9, 2);
  }

  /** The keys first met in word 9, "Dog", with their codes. */
  lemma CodesOfWord9()
    ensures Has(BuildMap(Words), 'D', "91") && Has(BuildMap(Words), 'g', "93")
  {
    FirstsInWord9();
    BuildMapFirst(Words, 'D', 9, 0);
    assert CodeOf(9, 0) == "91";
    BuildMapFirst(Words, 'g', 9, 2);
    assert CodeOf(9, 2) == "93";
  }

  lemma CodesAgree0()
    ensures forall c :: (c == 'T' || c == 'h' || c == 'e') ==> Has(BuildMap(Words), c, SentenceCodes[c])
  {
    CodesOfWord0();
  }

  lemma CodesAgree1a()
    ensures forall c :: (c == 'q' || c == 'u' || c == 'i') ==> Has(BuildMap(Words), c, SentenceCodes[c])
  {
    CodesOfWord1();
  }

  lemma CodesAgree1b()
    ensures forall c :: (c == 'c' || c == 'k') ==> Has(BuildMap(Words), c, SentenceCodes[c])
  {
    CodesOfWord1();
  }

  lemma CodesAgree2()
    ensures forall c :: (c == 'a' || c == 'n' || c == 'd') ==> Has(BuildMap(Words), c, SentenceCodes[c])
  {
    CodesOfWord2();
  }

  lemma CodesAgree3a()
    ensures forall c :: (c == 'b' || c == 'r') ==> Has(BuildMap(Words), c, SentenceCodes[c])
  {
    CodesOfWord3();
  }

  lemma CodesAgree3b()
    ensures forall c :: (c == 'o' || c == 'w') ==> Has(BuildMap(Words), c, SentenceCodes[c])
  {
    CodesOfWord3();
  }

  lemma CodesAgree4()
    ensures forall c :: (c == 'f' || c == 'x') ==> Has(BuildMap(Words), c, SentenceCodes[c])
  {
    CodesOfWord4();
  }

  lemma CodesAgree5a()
    ensures forall c :: (c == 'j' || c == 'm') ==> Has(BuildMap(Words), c, SentenceCodes[c])
  {
    CodesOfWord5();
  }

  lemma CodesAgree5b()
    ensures forall c :: (c == 'p' || c == 's') ==> Has(BuildMap(Words), c, SentenceCodes[c])
  {
    CodesOfWord5();
  }

  lemma CodesAgree6()
    ensures forall c :: (c == 'v') ==> Has(BuildMap(Words), c, SentenceCodes[c])
  {
    CodesOfWord6();
  }

  lemma CodesAgree7()
    ensures forall c :: (c == 't') ==> Has(BuildMap(Words), c, SentenceCodes[c])
  {
    CodesOfWord7();
  }

  lemma CodesAgree8()
    ensures forall c :: (c == 'L' || c == 'z' || c == 'y') ==> Has(BuildMap(Words), c, SentenceCodes[c])
  {
    CodesOfWord8();
  }

  lemma CodesAgree9()
    ensures forall c :: (c == 'D' || c == 'g') ==> Has(BuildMap(Words), c, SentenceCodes[c])
  {
    CodesOfWord9();
  }

  /** Lines 20-32 over the ten words leave exactly `SentenceCodes`. */
  lemma WordsMap()
    ensures BuildMap(Words) == SentenceCodes
  {
    CodesAgree0();
    CodesAgree1a();
    CodesAgree1b();
    CodesAgree2();
    CodesAgree3a();
    CodesAgree3b();
    CodesAgree4();
    CodesAgree5a();
    CodesAgree5b();
    CodesAgree6();
    CodesAgree7();
    CodesAgree8();
    CodesAgree9();
    var b := BuildMap(Words);
    forall c | c in b ensures c in SentenceCodes {
      SentenceKeys(c);
    }
  }

  /** The dictionary `EncodeString` builds. */
  lemma SentenceMap()
    ensures BuildMap(SentenceWords()) == SentenceCodes
  {
    SentenceWordsValue();
    WordsMap();
  }

  /** `EncodeString` is the transform over `SentenceCodes`. */
  lemma EncodingBySentenceCodes(input: string)
    ensures Encoding(input) == Encode(SentenceCodes, input)
  {
    SentenceMap();
  }

  /** A character is encoded exactly when it is an ASCII letter other than `l`
      and `L`: the keys `T`, `L` and `D` are never looked up, and lower-case
      `l` has no key of its own. */
  lemma EncodedLetters(c: char)
    ensures ToLower(c) in SentenceCodes <==> (IsUpper(c) || IsLower(c)) && c != 'l' && c != 'L'
  {
  }

  /** Everything but an ASCII letter other than `l` and `L` is emitted as it is. */
  lemma SentencePassThrough(c: char)
    requires !(IsUpper(c) || IsLower(c)) || c == 'l' || c == 'L'
    ensures EncodeChar(BuildMap(SentenceWords()), c) == [c]
  {
    SentenceMap();
    EncodedLetters(c);
  }

  /** Over the sentence every code has two digits. */
  lemma SentenceTwoCharCodes()
    ensures TwoCharCodes(BuildMap(SentenceWords()))
    ensures DigitCodes(BuildMap(SentenceWords()))
    ensures '-' !in BuildMap(SentenceWords())
  {
    SentenceMap();
    SentenceCodesShape();
    BuildMapDigitCodes(SentenceWords());
  }

  lemma SentenceCodesShape()
    ensures TwoCharCodes(SentenceCodes) && '-' !in SentenceCodes
  {
  }

  /** Hyphens of `EncodeString`: one for every space of the input and one for
      every hyphen it passes through; and never a space. */
  lemma SentenceSeparators(input: string)
    ensures Count(Encoding(input), '-') == Count(input, ' ') + Count(input, '-')
    ensures ' ' !in Encoding(input)
  {
    SentenceTwoCharCodes();
    HyphenCount(BuildMap(SentenceWords()), input);
    NoSpace(BuildMap(SentenceWords()), input);
  }

  /** `a b` and `a-b` cannot be told apart from their output. */
  lemma SentenceHyphenAmbiguity()
    ensures Encoding("a b") == Encoding("a-b")
  {
    var a, b := "a", "b";
    var spaced, hyphened := "a b", "a-b";
    assert spaced == a + " " + b && hyphened == a + "-" + b;
    SentenceTwoCharCodes();
    HyphenAmbiguity(BuildMap(SentenceWords()), a, b);
  }

  // ---------------------------------------------------------------------------
  // Worked examples
  // ---------------------------------------------------------------------------

  /** `EncodeString` is the transform over the dictionary of the ten words. */
  lemma EncodingByWords(input: string)
    ensures Encoding(input) == Encode(BuildMap(Words), input)
  {
    SentenceWordsValue();
  }

  /** Lower-case `l` occurs in none of the words. */
  lemma NoLowerL()
    ensures 'l' !in BuildMap(Words)
  {
    BuildMapKeys(Words, 'l');
    OccursIn(Words, 'l');
  }

  /** The empty input is one empty piece and encodes to the empty string. */
  lemma EncodeEmpty()
    ensures Encoding("") == ""
  {
  }

  /** A three-character piece whose characters are looked up, through their
      lower-case forms, as `x`, `y` and `z`. */
  lemma EncodeWord3(m: CodeMap, w: string, x: string, y: string, z: string)
    requires |w| == 3
    requires Has(m, ToLower(w[0]), x) && Has(m, ToLower(w[1]), y) && Has(m, ToLower(w[2]), z)
    ensures EncodeWord(m, w) == x + y + z
  {
    assert w[..2][..1] == w[..1] && w[..1][..0] == [];
    assert EncodeWord(m, w[..1]) == x;
    assert EncodeWord(m, w[..2]) == x + y;
  }

  /** Capital `L` is looked up as `l`, which is not a key. */
  lemma EncodeWordLazy(m: CodeMap)
    requires 'l' !in m && Has(m, 'a', "21") && Has(m, 'z', "83") && Has(m, 'y', "84")
    ensures EncodeWord(m, "Lazy") == "L218384"
  {
    assert "Lazy"[..3] == "Laz" && "Laz"[..2] == "La" && "La"[..1] == "L" && "L"[..0] == "";
  }

  lemma EncodeDogWith(m: CodeMap, input: string)
    requires Has(m, 'd', "23") && Has(m, 'o', "33") && Has(m, 'g', "93")
    requires input == "dog"
    ensures Encode(m, input) == "233393"
  {
    EncodeOneWord(m, input);
    EncodeWord3(m, input, "23", "33", "93");
  }

  /** `dog`: `d` from "and", `o` from "brown", `g` from "Dog". */
  lemma EncodeDog()
    ensures Encoding("dog") == "233393"
  {
    var input := "dog";
    EncodingByWords(input);
    CodesOfWord2();
    CodesOfWord3();
    CodesOfWord9();
    EncodeDogWith(BuildMap(Words), input);
  }

  lemma EncodeTheDogWith(m: CodeMap, input: string, a: string, b: string)
    requires Has(m, 't', "71") && Has(m, 'h', "02") && Has(m, 'e', "03")
    requires Has(m, 'd', "23") && Has(m, 'o', "33") && Has(m, 'g', "93")
    requires a == "the" && b == "dog" && input == a + " " + b
    ensures Encode(m, input) == "710203-233393"
  {
    EncodeTwoWords(m, a, b);
    EncodeWord3(m, a, "71", "02", "03");
    EncodeWord3(m, b, "23", "33", "93");
    JoinedCodes("710203", "233393", "710203-233393");
  }

  /** `the dog`: lower-case `t` comes from the second "the", `h` and `e` from
      "The"; one hyphen between the two pieces. */
  lemma EncodeTheDog()
    ensures Encoding("the dog") == "710203-233393"
  {
    var input, a, b := "the dog", "the", "dog";
    assert input == a + " " + b;
    EncodingByWords(input);
    CodesOfWord0();
    CodesOfWord2();
    CodesOfWord3();
    CodesOfWord7();
    CodesOfWord9();
    EncodeTheDogWith(BuildMap(Words), input, a, b);
  }

  lemma EncodeTheLazyWith(m: CodeMap, input: string, a: string, b: string)
    requires Has(m, 't', "71") && Has(m, 'h', "02") && Has(m, 'e', "03")
    requires 'l' !in m && Has(m, 'a', "21") && Has(m, 'z', "83") && Has(m, 'y', "84")
    requires a == "The" && b == "Lazy" && input == a + " " + b
    ensures Encode(m, input) == "710203-L218384"
  {
    EncodeTwoWords(m, a, b);
    EncodeWord3(m, a, "71", "02", "03");
    EncodeWordLazy(m);
    JoinedCodes("710203", "L218384", "710203-L218384");
  }

  /** `The Lazy`: the key `T` is never looked up, so capital `T` gets the code
      of lower-case `t` from the second "the"; `L` has no lower-case key and is
      kept as it is. */
  lemma EncodeTheLazy()
    ensures Encoding("The Lazy") == "710203-L218384"
  {
    var input, a, b := "The Lazy", "The", "Lazy";
    assert input == a + " " + b;
    EncodingByWords(input);
    CodesOfWord0();
    CodesOfWord2();
    CodesOfWord7();
    CodesOfWord8();
    NoLowerL();
    EncodeTheLazyWith(BuildMap(Words), input, a, b);
  }

  /** Two encoded pieces with the separator between them. */
  lemma JoinedCodes(x: string, y: string, r: string)
    requires |r| == |x| + 1 + |y| && r[..|x|] == x && r[|x|] == '-' && r[|x| + 1..] == y
    ensures x + "-" + y == r
  {
    assert r == r[..|x|] + [r[|x|]] + r[|x| + 1..];
  }
}
