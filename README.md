# Positional character encoder

A Dafny model of `EncodeString` in `TestNow.cs`. The function substitutes the
characters of a line of text with positional codes taken from the fixed sentence
"The quick and brown fox jumps over the Lazy Dog", and it proves properties of
that model.

The function has two phases:

1. **Build** (`TestNow.cs:17-32`). The sentence is split on spaces into ten
   words. A dictionary then maps every character to
   `i.ToString() + (j + 1).ToString()`. Here `i` is the 0-based word index and
   `j` the 0-based position of the character's *first* occurrence. Words are
   scanned left to right, and each word left to right. Keys are the
   characters exactly as they occur; nothing is lower-cased here.
2. **Transform** (`TestNow.cs:34-59`). The input is split on spaces. Each
   character is looked up by `char.ToLower(c)`. A found code replaces the
   character; otherwise the character is kept with its own case. The
   rewritten pieces are joined with one `-` between neighbours.

Because keys keep their case while lookups are lower-cased:

- the keys `T`, `L` and `D` can never be reached by a lookup;
- `t` takes `71` from the second "the", not a code from "The";
- `o` takes `33` from "brown", and `d` takes `23` from "and";
- `l` and `L` are the only ASCII letters that pass through
  (`EncodedLetters`); every non-ASCII character passes through as well,
  because the model lower-cases ASCII only (see "## Left out");
- `dog` encodes to `233393` and `the dog` to `710203-233393`.

Modules:

- `Text` (`text.dfy`) covers the string primitives:
  - ASCII lower-casing;
  - decimal numerals, with their read-back;
  - splitting and joining on one separator character, with both round trips.
- `CodeTable` (`code_table.dfy`) covers the build phase:
  - the map as the state after each step of the two loops (`ScanWord`,
    `ScanWords`, `BuildMap`);
  - the method `BuildCodeMap`, whose nested loops fill a `map` in place;
  - a declarative description of the map by first occurrences (`IsFirst`),
    proved equal to it through the loop invariant `Scanned`.
- `Encoder` (`encoder.dfy`) covers the transform:
  - the reference function `Encode`;
  - the methods `AppendWord` (inner loop), `EncodeWith` (outer loop, with the
    conditional hyphen) and `EncodeString` (the whole function), each proved
    equal to the reference function;
  - general properties: the hyphen count, no space in the output, the pieces
    recovered by splitting on `-`, case-insensitive lookup, output length, and
    the hyphen ambiguity.
- `SentenceFacts` (`sentence.dfy`) covers the fixed sentence:
  - its ten words;
  - the complete 28-entry dictionary;
  - the characters that are encoded;
  - worked examples: `dog` gives `233393`, `the dog` gives `710203-233393`,
    `The Lazy` gives `710203-L218384`, and the empty input gives the empty
    string.

## Model

| member | source | states |
|---|---|---|
| Text.ToLower | TestNow.cs:43 | the result is never an upper-case letter; an upper-case letter becomes the lower-case letter at the same place in the alphabet; every other character is unchanged |
| Text.ToLowerIdempotent | TestNow.cs:43 | lower-casing twice is lower-casing once |
| Text.Decimal | TestNow.cs:29 | `int.ToString` of a natural number: at least one character, digits only, a leading `0` only for zero, a single digit exactly below ten |
| Text.ParseDecimalOfDecimal | TestNow.cs:29 | reading the numeral back as a number gives the number it was written from |
| Text.DecimalInjective | TestNow.cs:29 | different numbers get different numerals |
| Text.Split | TestNow.cs:18 | `String.Split(' ')`: at least one piece, and no piece contains the separator |
| Text.SplitCount | TestNow.cs:34 | a split has exactly one piece more than the string has separators (empty pieces included) |
| Text.JoinSplit | TestNow.cs:34 | joining the pieces of a split with the separator gives back the string, so the split loses nothing |
| Text.SplitJoin | TestNow.cs:18 | splitting a join of separator-free pieces gives back exactly those pieces |
| Text.Join | TestNow.cs:53-56 | definition: the pieces with one separator between neighbours, none before the first or after the last; its properties are `JoinSplit`, `SplitJoin` and `CountJoin` |
| Text.CountJoin | TestNow.cs:53-56 | a join holds the pieces' occurrences of a character, plus one separator fewer than there are pieces |
| CodeTable.CodeOf | TestNow.cs:29 | a code is a string of digits of length at least two |
| CodeTable.CodeOfSmall | TestNow.cs:29 | with fewer than ten words of at most nine characters, a code is the word digit followed by the position digit |
| CodeTable.CodeOfSmallInjective | TestNow.cs:29 | in that range, two positions never share a code |
| CodeTable.Insert | TestNow.cs:27-30 | one iteration of the inner loop: the keys grow by the character, existing entries keep their codes, and a new character gets the given code |
| CodeTable.ScanWord | TestNow.cs:24-31 | the map after the inner loop has read `j` characters of a word: every earlier entry is kept with its code, and each of those `j` characters is a key |
| CodeTable.ScanWords | TestNow.cs:22-32 | definition: the map after the outer loop has read `i` whole words; its meaning is `ScanWordsScanned` |
| CodeTable.BuildMap | TestNow.cs:20-32 | definition: the finished dictionary; its meaning is `BuildMapKeys`, `BuildMapFirst` and `BuildMapValue` |
| CodeTable.InsertScanned | TestNow.cs:24-31 | one step of the inner loop keeps `Scanned`: keys are the characters seen so far, and each first occurrence seen so far holds its own code |
| CodeTable.NextWordScanned | TestNow.cs:22-24 | the state after the last character of a word is the state before the first character of the next word |
| CodeTable.ScanWordScanned | TestNow.cs:24-31 | the map after `j` characters of word `i` satisfies `Scanned` at that position |
| CodeTable.ScanWordsScanned | TestNow.cs:22-32 | the map after `i` whole words satisfies `Scanned` at the start of word `i` |
| CodeTable.FirstExists | TestNow.cs:22-31 | every occurrence of a character has a first occurrence at or before it |
| CodeTable.BuildMapKeys | TestNow.cs:22-31 | a character is a key exactly when it occurs, in that exact case, in one of the words |
| CodeTable.BuildMapFirst | TestNow.cs:27-29 | the first occurrence of a character puts its code under that character, and later occurrences never overwrite it |
| CodeTable.BuildMapValue | TestNow.cs:27-29 | every key carries the code of its character's first occurrence |
| CodeTable.BuildMapDigits | TestNow.cs:29 | every stored code is a string of at least two digits |
| CodeTable.BuildCodeMap | TestNow.cs:20-32 | the nested loops build `BuildMap(words)`, whose keys are exactly the characters occurring in the words |
| Encoder.EncodeChar | TestNow.cs:42-50 | definition: the output for one character; its meaning is `EncodeCharSpec`, `CaseInsensitive` and `EncodedIffLong` |
| Encoder.EncodeWord | TestNow.cs:40-51 | definition: the outputs of a piece's characters in order; its meaning is `EncodeWordStep`, `EncodeWordAppend` and `EncodeWordLength` |
| Encoder.Encode | TestNow.cs:34-57 | definition: split on spaces, rewrite every piece, join with hyphens; `EncodeWith` is proved equal to it, and its properties are `HyphenCount`, `NoSpace` and `SegmentsRecoverable` |
| Encoder.SentenceWords | TestNow.cs:17-18 | definition: the sentence split on spaces; its value is `SentenceFacts.SentenceWordsValue` |
| Encoder.Encoding | TestNow.cs:15-60 | definition: `Encode` over the dictionary built from the sentence's words; `EncodeString` is proved equal to it |
| Encoder.JoinedPrefix | TestNow.cs:35-57 | definition: the value of `encodedString` after `i` pieces; its meaning is `JoinedPrefixStep` |
| Encoder.EncodeWordStep | TestNow.cs:40-50 | one more character of a piece appends that character's output |
| Encoder.AppendWord | TestNow.cs:40-51 | the inner loop appends exactly the rewriting of the piece to the accumulator |
| Encoder.JoinedPrefixStep | TestNow.cs:53-56 | appending a piece, and a hyphen unless it is the last, extends the partial output by one piece of the join |
| Encoder.EncodeWith | TestNow.cs:34-57 | the outer loop's output equals `Encode(m, input)`: the pieces rewritten and joined with single hyphens, none first or last |
| Encoder.EncodeString | TestNow.cs:15-60 | the whole function builds the dictionary from the split sentence and returns `Encoding(input)` |
| Encoder.EncodeWordAppend | TestNow.cs:40-51 | a piece is rewritten character by character, so rewriting distributes over concatenation |
| Encoder.EncodeCharSpec | TestNow.cs:43-50 | a character is replaced by the code of the first occurrence of its lower-case form when that form occurs in the words; otherwise it is emitted as it is |
| Encoder.EncodedIffLong | TestNow.cs:43-50 | a character is encoded exactly when its output is at least two characters long, so replaced and kept characters can be told apart |
| Encoder.BuildMapDigitCodes | TestNow.cs:29 | all codes in the built map are digit strings |
| Encoder.EncodeWordCount | TestNow.cs:45-49 | rewriting a piece keeps its count of any non-digit character that is not looked up successfully, since codes are digits |
| Encoder.HyphenCount | TestNow.cs:53-56 | for digit codes and no `-` key, the output has one hyphen per space of the input plus one per hyphen the input already had |
| Encoder.NoSpace | TestNow.cs:34-57 | for digit codes, the output never contains a space |
| Encoder.NoSpaceWord | TestNow.cs:40-51 | a piece without spaces is rewritten without spaces |
| Encoder.SegmentsRecoverable | TestNow.cs:34-57 | when the input has no hyphen, splitting the output on `-` gives back the rewritten pieces one for one |
| Encoder.CaseInsensitive | TestNow.cs:43-45 | looking up a character is looking up its lower-case form; both cases of a letter get the same code |
| Encoder.EncodeWordLength | TestNow.cs:40-51 | with two-character codes, a piece's output is one character longer than the piece for every encoded character |
| Encoder.EncodeOneWord | TestNow.cs:34-57 | an input without spaces is one piece and gets no hyphen |
| Encoder.EncodeTwoWords | TestNow.cs:34-57 | an input of two pieces gets exactly one hyphen, between their rewritings |
| Encoder.HyphenAmbiguity | TestNow.cs:49-55 | when `-` is not a key, `a b` and `a-b` give the same output, so the separator cannot be told from a hyphen of the input |
| SentenceFacts.SentenceWordsValue | TestNow.cs:17-18 | the sentence splits into the ten words "The" … "Dog" |
| SentenceFacts.SentenceKeys | TestNow.cs:17-31 | the keys are exactly the 28 distinct characters of the sentence other than the space, each in its own case |
| SentenceFacts.CodesOfWord0 | TestNow.cs:22-31 | "The" contributes `T`→01, `h`→02, `e`→03 |
| SentenceFacts.CodesOfWord1 | TestNow.cs:22-31 | "quick" contributes `q`→11, `u`→12, `i`→13, `c`→14, `k`→15 |
| SentenceFacts.CodesOfWord2 | TestNow.cs:22-31 | "and" contributes `a`→21, `n`→22, `d`→23 |
| SentenceFacts.CodesOfWord3 | TestNow.cs:22-31 | "brown" contributes `b`→31, `r`→32, `o`→33, `w`→34 |
| SentenceFacts.CodesOfWord4 | TestNow.cs:22-31 | "fox" contributes `f`→41, `x`→43; its `o` keeps 33 |
| SentenceFacts.CodesOfWord5 | TestNow.cs:22-31 | "jumps" contributes `j`→51, `m`→53, `p`→54, `s`→55 |
| SentenceFacts.CodesOfWord6 | TestNow.cs:22-31 | "over" contributes only `v`→62 |
| SentenceFacts.CodesOfWord7 | TestNow.cs:22-31 | "the" contributes only lower-case `t`→71 |
| SentenceFacts.CodesOfWord8 | TestNow.cs:22-31 | "Lazy" contributes `L`→81, `z`→83, `y`→84 |
| SentenceFacts.CodesOfWord9 | TestNow.cs:22-31 | "Dog" contributes `D`→91, `g`→93 |
| SentenceFacts.WordsMap | TestNow.cs:20-32 | the loops over the ten words leave exactly the 28-entry dictionary `SentenceCodes` |
| SentenceFacts.SentenceMap | TestNow.cs:17-32 | the dictionary `EncodeString` builds is `SentenceCodes` |
| SentenceFacts.EncodingBySentenceCodes | TestNow.cs:15-60 | `EncodeString` is the transform over `SentenceCodes` |
| SentenceFacts.EncodedLetters | TestNow.cs:26-45 | a character is encoded exactly when it is an ASCII letter other than `l` and `L` |
| SentenceFacts.SentencePassThrough | TestNow.cs:47-50 | every character that is not an ASCII letter, and `l` and `L`, is emitted as it is |
| SentenceFacts.SentenceTwoCharCodes | TestNow.cs:29 | over the sentence every code is exactly two digits, and `-` is not a key |
| SentenceFacts.SentenceSeparators | TestNow.cs:34-57 | `EncodeString`'s output has one hyphen per input space plus one per input hyphen, and no space |
| SentenceFacts.SentenceHyphenAmbiguity | TestNow.cs:49-55 | `EncodeString("a b") == EncodeString("a-b")` |
| SentenceFacts.NoLowerL | TestNow.cs:17 | lower-case `l` occurs in none of the words |
| SentenceFacts.EncodeEmpty | TestNow.cs:34-59 | the empty input is one empty piece and encodes to the empty string |
| SentenceFacts.EncodeWord3 | TestNow.cs:40-51 | a three-character piece whose characters' lower-case forms carry codes `x`, `y`, `z` is rewritten as `x + y + z`; with it "dog" gives `233393`, and both "the" and "The" give `710203` |
| SentenceFacts.EncodeWordLazy | TestNow.cs:40-51 | given `a`→21, `z`→83, `y`→84 and no key `l`, "Lazy" is rewritten as `L218384`, since `L` is looked up as `l` |
| SentenceFacts.EncodeDog | TestNow.cs:15-60 | `EncodeString("dog") == "233393"` |
| SentenceFacts.EncodeTheDog | TestNow.cs:15-60 | `EncodeString("the dog") == "710203-233393"` |
| SentenceFacts.EncodeTheLazy | TestNow.cs:15-60 | `EncodeString("The Lazy") == "710203-L218384"` |

## Left out

- `Main` (`TestNow.cs:6-13`) is console input and output and is not modelled.
  The input is a parameter. A `null` from `ReadLine` at end of input, which
  would make `input.Split` throw, is outside the model; the input is always a
  string.
- `2FA_EmailSender.cs` is not part of this model. It is a tutorial document
  whose only logic is a call to a third-party e-mail service over the network.
- `char.ToLower` is modelled as ASCII lower-casing: every non-ASCII character
  is its own lower-case form here. The .NET method depends on the culture and
  lower-cases non-ASCII characters too, and some of them have an ASCII letter
  as their lower-case form. U+212A KELVIN SIGN lower-cases to `k`, which is a
  key, so the program encodes it as `15`; the model passes it through. A
  culture such as Turkish, which maps `I` to a dotless `ı` (no key), would make
  the program pass `I` through where the model gives `13`.
- `int.ToString` is modelled as the plain decimal numeral of a natural number.
  The indices are never negative, so culture does not arise.
- `char` here is a Unicode scalar value, while a .NET `char` is a UTF-16 code
  unit. A character outside the Basic Multilingual Plane is one character here
  and two units there. Neither form is a key, so it passes through unchanged
  in both.
- The strings are values. The quadratic cost of repeated `+=` on an immutable
  .NET string is a performance detail and is not modelled.
- The `Dictionary<char, string>` is a `map`. Its capacity and enumeration order
  are not modelled; the source never enumerates it.
- The single body of `EncodeString` is modelled as three methods with the same
  loops: `BuildCodeMap` (`TestNow.cs:20-32`), `EncodeWith` (`TestNow.cs:34-57`)
  and `AppendWord`, which is the inner loop at `TestNow.cs:40-51`.
