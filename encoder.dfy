/**
 The transform phase of `EncodeString` (TestNow.cs, lines 34-59) and the whole
 operation over the fixed reference sentence. The input is split on spaces;
 every character is looked up by its lower-case form and replaced by the code
 found there, or kept as it is; the rewritten pieces are joined with `-`.
 */
module Encoder {
  import opened Text
  import opened CodeTable

  /** Lines 42-50: the output for one input character. The lookup key is
      lower-cased; a character that is passed through keeps its own case. */
  function EncodeChar(m: CodeMap, c: char): string
  {
    if ToLower(c) in m then m[ToLower(c)] else [c]
  }

  /** Lines 40-51: the outputs of the characters of `w`, in order. */
  function EncodeWord(m: CodeMap, w: string): (r: string)
    decreases |w|
  {
    if w == [] then "" else EncodeWord(m, w[..|w| - 1]) + EncodeChar(m, w[|w| - 1])
  }

  /** Every piece, rewritten. */
  function EncodeWords(m: CodeMap, ws: seq<string>): seq<string>
  {
    seq(|ws|, k requires 0 <= k < |ws| => EncodeWord(m, ws[k]))
  }

  /** Lines 34-57: split on spaces, rewrite each piece, join with hyphens. */
  function Encode(m: CodeMap, input: string): string
  {
    Join(EncodeWords(m, Split(input, ' ')), '-')
  }

  const Sentence: string := "The quick and brown fox jumps over the Lazy Dog"

  /** Line 18: the reference words. */
  function SentenceWords(): seq<string>
  {
    Split(Sentence, ' ')
  }

  /** What `EncodeString(input)` returns. */
  function Encoding(input: string): string
  {
    Encode(BuildMap(SentenceWords()), input)
  }

  // ---------------------------------------------------------------------------
  // The imperative model
  // ---------------------------------------------------------------------------

  /** The output once `i` of the `|outs|` rewritten pieces have been
      appended, each but the last followed by its separator. */
  function JoinedPrefix(outs: seq<string>, i: nat): string
    requires i <= |outs|
  {
    if i == 0 then "" else Join(outs[..i], '-') + (if i < |outs| then "-" else "")
  }

  /** Appending the next piece, and its separator unless it is the last,
      extends the prefix by one piece. */
  lemma JoinedPrefixStep(outs: seq<string>, i: nat)
    requires i < |outs|
    ensures JoinedPrefix(outs, i + 1)
         == JoinedPrefix(outs, i) + outs[i] + (if i < |outs| - 1 then "-" else "")
  {
    assert outs[..i + 1] == outs[..i] + [outs[i]];
    if i > 0 {
      JoinSnoc(outs[..i], outs[i], '-');
    } else {
      assert outs[..1] == [outs[0]];
    }
  }

  /** One more character of a piece adds that character's output. */
  lemma EncodeWordStep(m: CodeMap, w: string, j: nat)
    requires j < |w|
    ensures EncodeWord(m, w[..j + 1]) == EncodeWord(m, w[..j]) + EncodeChar(m, w[j])
  {
    assert w[..j + 1][..j] == w[..j];
  }

  /** Lines 40-51: the inner loop, appending the output of every character
      of `word` to the accumulator. */
  method AppendWord(m: CodeMap, word: string, acc: string) returns (encoded: string)
    ensures encoded == acc + EncodeWord(m, word)
  {
    encoded := acc;
    for j := 0 to |word|
      invariant encoded == acc + EncodeWord(m, word[..j])
    {
      var c := word[j];
      EncodeWordStep(m, word, j);
      if ToLower(c) in m {
        encoded := encoded + m[ToLower(c)];
      } else {
        encoded := encoded + [c];
      }
    }
    assert word[..|word|] == word;
  }

  /** Lines 34-57: the loop over the input pieces, with the hyphen appended
      after every piece but the last. */
  method EncodeWith(m: CodeMap, input: string) returns (encoded: string)
    ensures encoded == Encode(m, input)
  {
    var inputWords := Split(input, ' ');
    ghost var outs := EncodeWords(m, inputWords);
    encoded := "";
    for i := 0 to |inputWords|
      invariant encoded == JoinedPrefix(outs, i)
    {
      encoded := AppendWord(m, inputWords[i], encoded);
      if i < |inputWords| - 1 {
        encoded := encoded + "-";
      }
      JoinedPrefixStep(outs, i);
    }
    assert outs[..|inputWords|] == outs;
  }

  /** Lines 15-60: build the map from the reference sentence, then encode. */
  method EncodeString(input: string) returns (encoded: string)
    ensures encoded == Encoding(input)
  {
    var words := Split(Sentence, ' ');
    var charCodeMap := BuildCodeMap(words);
    encoded := EncodeWith(charCodeMap, input);
  }

  // ---------------------------------------------------------------------------
  // Properties of the encoding
  // ---------------------------------------------------------------------------

  /** Encoding a word is encoding its parts one after the other. */
  lemma {:induction false} EncodeWordAppend(m: CodeMap, u: string, v: string)
    ensures EncodeWord(m, u + v) == EncodeWord(m, u) + EncodeWord(m, v)
    decreases |v|
  {
    if v == [] {
      assert u + v == u;
    } else {
      var v' := v[..|v| - 1];
      assert (u + v)[..|u + v| - 1] == u + v';
      EncodeWordAppend(m, u, v');
    }
  }

  /** A character is encoded exactly when its lower-case form occurs, in that
      exact case, in the reference words; it is then replaced by the code of
      that first occurrence and otherwise passed through unchanged. */
  lemma EncodeCharSpec(words: seq<string>, c: char)
    ensures Occurs(words, ToLower(c)) ==>
              exists i, j :: IsFirst(words, ToLower(c), i, j) && EncodeChar(BuildMap(words), c) == CodeOf(i, j)
    ensures !Occurs(words, ToLower(c)) ==> EncodeChar(BuildMap(words), c) == [c]
  {
    BuildMapKeys(words, ToLower(c));
    if Occurs(words, ToLower(c)) {
      BuildMapValue(words, ToLower(c));
    }
  }

  /** Codes are never a single character, so an encoded character can be told
      from a passed-through one by the length of its output. */
  lemma EncodedIffLong(words: seq<string>, c: char)
    ensures Occurs(words, ToLower(c)) <==> |EncodeChar(BuildMap(words), c)| >= 2
  {
    BuildMapKeys(words, ToLower(c));
    if Occurs(words, ToLower(c)) {
      BuildMapDigits(words, ToLower(c));
    }
  }

  /** The codes of the map are digit strings. */
  ghost predicate DigitCodes(m: CodeMap)
  {
    forall c :: c in m ==> AllDigits(m[c])
  }

  lemma BuildMapDigitCodes(words: seq<string>)
    ensures DigitCodes(BuildMap(words))
  {
    forall c | c in BuildMap(words) ensures AllDigits(BuildMap(words)[c]) {
      BuildMapDigits(words, c);
    }
  }

  lemma AllDigitsCount(s: string, c: char)
    requires AllDigits(s) && !IsDigit(c)
    ensures Count(s, c) == 0
  {
  }

  /** A character that is neither a digit nor a key keeps its count: codes only
      add digits. */
  lemma {:induction false} EncodeWordCount(m: CodeMap, w: string, c: char)
    requires DigitCodes(m) && !IsDigit(c) && ToLower(c) !in m
    ensures Count(EncodeWord(m, w), c) == Count(w, c)
    decreases |w|
  {
    if w != [] {
      var w' := w[..|w| - 1];
      var x := w[|w| - 1];
      EncodeWordCount(m, w', c);
      CountAppend(EncodeWord(m, w'), EncodeChar(m, x), c);
      CountAppend(w', [x], c);
      assert w' + [x] == w;
      if ToLower(x) in m {
        AllDigitsCount(m[ToLower(x)], c);
        assert x != c;
      }
      assert [x][1..] == [];
    }
  }

  lemma {:induction false} EncodeWordsCount(m: CodeMap, ws: seq<string>, c: char)
    requires DigitCodes(m) && !IsDigit(c) && ToLower(c) !in m
    ensures CountAll(EncodeWords(m, ws), c) == CountAll(ws, c)
    decreases |ws|
  {
    if ws != [] {
      EncodeWordCount(m, ws[0], c);
      EncodeWordsCount(m, ws[1..], c);
      assert EncodeWords(m, ws)[1..] == EncodeWords(m, ws[1..]);
    }
  }

  /** The occurrences of `c` in a string are those of the pieces of any split. */
  lemma CountSplit(s: string, sep: char, c: char)
    requires c != sep
    ensures CountAll(Split(s, sep), c) == Count(s, c)
  {
    JoinSplit(s, sep);
    CountJoin(Split(s, sep), sep, c);
  }

  /** One separator between each pair of neighbouring pieces: the output has a
      hyphen for every space of the input (n pieces give n - 1 separators) and
      for every hyphen the input already had, which passes through. */
  lemma HyphenCount(m: CodeMap, input: string)
    requires DigitCodes(m) && '-' !in m
    ensures Count(Encode(m, input), '-') == Count(input, ' ') + Count(input, '-')
  {
    var parts := Split(input, ' ');
    CountJoin(EncodeWords(m, parts), '-', '-');
    EncodeWordsCount(m, parts, '-');
    CountSplit(input, ' ', '-');
    SplitCount(input, ' ');
  }

  /** The output has no space: spaces are consumed by the split, codes are
      digits and the separator is a hyphen. */
  lemma NoSpace(m: CodeMap, input: string)
    requires DigitCodes(m)
    ensures ' ' !in Encode(m, input)
  {
    var parts := Split(input, ' ');
    var outs := EncodeWords(m, parts);
    forall k | 0 <= k < |outs| ensures ' ' !in outs[k] {
      NoSpaceWord(m, parts[k]);
    }
    NoSpaceInPieces(outs);
    CountJoin(outs, '-', ' ');
  }

  /** A piece without spaces is rewritten without spaces. */
  lemma {:induction false} NoSpaceWord(m: CodeMap, w: string)
    requires DigitCodes(m) && ' ' !in w
    ensures ' ' !in EncodeWord(m, w)
    decreases |w|
  {
    if w != [] {
      var x := w[|w| - 1];
      NoSpaceWord(m, w[..|w| - 1]);
      if ToLower(x) in m {
        assert AllDigits(m[ToLower(x)]);
      }
    }
  }

  lemma {:induction false} NoSpaceInPieces(parts: seq<string>)
    requires forall k :: 0 <= k < |parts| ==> ' ' !in parts[k]
    ensures CountAll(parts, ' ') == 0
    decreases |parts|
  {
    if parts != [] {
      NoSpaceInPieces(parts[1..]);
    }
  }

  /** When the input has no hyphen, splitting the output on hyphens recovers
      the rewritten pieces one for one. */
  lemma SegmentsRecoverable(m: CodeMap, input: string)
    requires DigitCodes(m) && '-' !in m && '-' !in input
    ensures Split(Encode(m, input), '-') == EncodeWords(m, Split(input, ' '))
  {
    var parts := Split(input, ' ');
    var outs := EncodeWords(m, parts);
    forall k | 0 <= k < |outs| ensures '-' !in outs[k] {
      EncodeWordCount(m, parts[k], '-');
      assert Count(parts[k], '-') == 0 by {
        PieceCount(parts, k, '-');
        CountSplit(input, ' ', '-');
      }
    }
    SplitJoin(outs, '-');
  }

  /** A piece holds no more occurrences than all pieces together. */
  lemma {:induction false} PieceCount(parts: seq<string>, k: nat, c: char)
    requires k < |parts|
    ensures Count(parts[k], c) <= CountAll(parts, c)
    decreases k
  {
    if k > 0 {
      PieceCount(parts[1..], k - 1, c);
    }
  }

  /** Looking up an upper-case letter is looking up its lower-case form. */
  lemma CaseInsensitive(m: CodeMap, c: char)
    ensures EncodeChar(m, c) == if ToLower(c) in m then EncodeChar(m, ToLower(c)) else [c]
  {
    ToLowerIdempotent(c);
  }

  /** The characters of `w` whose lower-case form is a key. */
  function EncodableCount(m: CodeMap, w: string): nat
    decreases |w|
  {
    if w == [] then 0
    else EncodableCount(m, w[..|w| - 1]) + (if ToLower(w[|w| - 1]) in m then 1 else 0)
  }

  /** The codes of the map all have two characters. */
  ghost predicate TwoCharCodes(m: CodeMap)
  {
    forall c :: c in m ==> |m[c]| == 2
  }

  /** With two-character codes a piece grows by one character for every
      character that is encoded; passed-through characters keep their length. */
  lemma {:induction false} EncodeWordLength(m: CodeMap, w: string)
    requires TwoCharCodes(m)
    ensures |EncodeWord(m, w)| == |w| + EncodableCount(m, w)
    decreases |w|
  {
    if w != [] {
      EncodeWordLength(m, w[..|w| - 1]);
    }
  }

  /** An input without spaces is a single piece and gets no hyphen. */
  lemma EncodeOneWord(m: CodeMap, w: string)
    requires ' ' !in w
    ensures Encode(m, w) == EncodeWord(m, w)
  {
    SplitPiece(w, "", ' ');
    assert w + "" == w;
  }

  /** An input of two pieces gets exactly one hyphen, between them. */
  lemma EncodeTwoWords(m: CodeMap, a: string, b: string)
    requires ' ' !in a && ' ' !in b
    ensures Encode(m, a + " " + b) == EncodeWord(m, a) + "-" + EncodeWord(m, b)
  {
    JoinCons(a, [b], ' ');
    assert [a] + [b] == [a, b];
    assert Join([a, b], ' ') == a + " " + b;
    SplitJoin([a, b], ' ');
    var outs := EncodeWords(m, [a, b]);
    assert outs == [EncodeWord(m, a)] + [EncodeWord(m, b)];
    JoinCons(EncodeWord(m, a), [EncodeWord(m, b)], '-');
  }

  /** The separator cannot be told from a hyphen of the input when `-` is not
      a key: two pieces joined by a space and the same two pieces joined by a
      hyphen give the same output. */
  lemma HyphenAmbiguity(m: CodeMap, a: string, b: string)
    requires '-' !in m && ' ' !in a && ' ' !in b
    ensures Encode(m, a + " " + b) == Encode(m, a + "-" + b)
  {
    EncodeTwoWords(m, a, b);
    var h := a + "-" + b;
    assert ' ' !in h by {
      assert forall k :: 0 <= k < |h| ==> h[k] == (if k < |a| then a[k] else if k == |a| then '-' else b[k - |a| - 1]);
    }
    EncodeOneWord(m, h);
    EncodeWordAppend(m, a + "-", b);
    EncodeWordAppend(m, a, "-");
    assert "-"[..0] == "";
  }
}
