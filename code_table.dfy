/**
 The build phase of `EncodeString` (TestNow.cs, lines 17-32): every character
 of the reference words is given the code "<word index><1-based position>" of
 its first occurrence, scanning the words left to right and each word left to
 right. Keys are the characters exactly as they occur: no lower-casing happens
 here.
 */
module CodeTable {
  import opened Text

  type CodeMap = map<char, string>

  /** The code of the character at 0-based position `j` of word `i`:
      `i.ToString() + (j + 1).ToString()`. */
  function CodeOf(i: nat, j: nat): (code: string)
    ensures AllDigits(code) && |code| >= 2
  {
    Decimal(i) + Decimal(j + 1)
  }

  /** With fewer than ten words of at most nine characters every code is two
      digits, the word index followed by the position. */
  lemma CodeOfSmall(i: nat, j: nat)
    requires i < 10 && j < 9
    ensures CodeOf(i, j) == [Digit(i), Digit(j + 1)]
  {
  }

  /** Two positions in that range never share a code. */
  lemma CodeOfSmallInjective(i: nat, j: nat, i': nat, j': nat)
    requires i < 10 && j < 9 && i' < 10 && j' < 9
    requires CodeOf(i, j) == CodeOf(i', j')
    ensures i == i' && j == j'
  {
    CodeOfSmall(i, j);
    CodeOfSmall(i', j');
    assert CodeOf(i, j)[0] == CodeOf(i', j')[0];
    assert CodeOf(i, j)[1] == CodeOf(i', j')[1];
  }

  /** One step of the inner loop: `c` gets `code` only if it is not yet a key,
      so an entry, once made, is never changed. */
  function Insert(m: CodeMap, c: char, code: string): (r: CodeMap)
    ensures r.Keys == m.Keys + {c}
    ensures forall d :: d in m ==> r[d] == m[d]
    ensures c !in m ==> r[c] == code
  {
    if c in m then m else m[c := code]
  }

  /** `m` after the inner loop has scanned the first `j` characters of word
      `w`, which has index `i`. */
  function ScanWord(m: CodeMap, w: string, i: nat, j: nat): (r: CodeMap)
    requires j <= |w|
    ensures forall d :: d in m ==> d in r && r[d] == m[d]
    ensures forall k :: 0 <= k < j ==> w[k] in r
    decreases j
  {
    if j == 0 then m else Insert(ScanWord(m, w, i, j - 1), w[j - 1], CodeOf(i, j - 1))
  }

  /** The map after the outer loop has scanned the first `i` words. */
  function ScanWords(words: seq<string>, i: nat): CodeMap
    requires i <= |words|
    decreases i
  {
    if i == 0 then map[] else ScanWord(ScanWords(words, i - 1), words[i - 1], i - 1, |words[i - 1]|)
  }

  /** The finished map. */
  function BuildMap(words: seq<string>): CodeMap
  {
    ScanWords(words, |words|)
  }

  // ---------------------------------------------------------------------------
  // The first-occurrence characterisation
  // ---------------------------------------------------------------------------

  ghost predicate ValidPos(words: seq<string>, i: int, j: int)
  {
    0 <= i < |words| && 0 <= j < |words[i]|
  }

  /** Position (i', j') is scanned before position (i, j). */
  predicate Before(i': int, j': int, i: int, j: int)
  {
    i' < i || (i' == i && j' < j)
  }

  ghost predicate Occurs(words: seq<string>, c: char)
  {
    exists i, j :: ValidPos(words, i, j) && words[i][j] == c
  }

  ghost predicate OccursBefore(words: seq<string>, c: char, i: int, j: int)
  {
    exists i', j' :: ValidPos(words, i', j') && Before(i', j', i, j) && words[i'][j'] == c
  }

  /** (i, j) holds the first occurrence of `c`. */
  ghost predicate IsFirst(words: seq<string>, c: char, i: int, j: int)
  {
    ValidPos(words, i, j) && words[i][j] == c && !OccursBefore(words, c, i, j)
  }

  /** What `m` is once every position before (i, j) has been scanned: its keys
      are the characters seen so far, and each first occurrence seen so far
      has put its own code under its character. */
  ghost predicate Scanned(m: CodeMap, words: seq<string>, i: int, j: int)
  {
    && (forall c :: c in m <==> OccursBefore(words, c, i, j))
    && (forall i', j' ::
          ValidPos(words, i', j') && Before(i', j', i, j) && IsFirst(words, words[i'][j'], i', j')
          ==> words[i'][j'] in m && m[words[i'][j']] == CodeOf(i', j'))
  }

  /** The inner loop body keeps `Scanned`, moving it one position on. */
  lemma InsertScanned(m: CodeMap, words: seq<string>, i: nat, j: nat)
    requires ValidPos(words, i, j)
    requires Scanned(m, words, i, j)
    ensures Scanned(Insert(m, words[i][j], CodeOf(i, j)), words, i, j + 1)
  {
    var c := words[i][j];
    var m' := Insert(m, c, CodeOf(i, j));
    forall d
      ensures d in m' <==> OccursBefore(words, d, i, j + 1)
    {
      if d == c {
        assert ValidPos(words, i, j) && Before(i, j, i, j + 1) && words[i][j] == d;
      }
      if OccursBefore(words, d, i, j + 1) {
        var i', j' :| ValidPos(words, i', j') && Before(i', j', i, j + 1) && words[i'][j'] == d;
        if Before(i', j', i, j) {
          assert OccursBefore(words, d, i, j);
        }
      }
    }
    forall i', j' |
      ValidPos(words, i', j') && Before(i', j', i, j + 1) && IsFirst(words, words[i'][j'], i', j')
      ensures words[i'][j'] in m' && m'[words[i'][j']] == CodeOf(i', j')
    {
      if Before(i', j', i, j) {
        assert words[i'][j'] in m;
      }
    }
  }

  /** Finishing a word is the same as standing at the start of the next. */
  lemma NextWordScanned(m: CodeMap, words: seq<string>, i: nat)
    requires i < |words|
    requires Scanned(m, words, i, |words[i]|)
    ensures Scanned(m, words, i + 1, 0)
  {
    forall d
      ensures OccursBefore(words, d, i, |words[i]|) <==> OccursBefore(words, d, i + 1, 0)
    {
      if OccursBefore(words, d, i + 1, 0) {
        var i', j' :| ValidPos(words, i', j') && Before(i', j', i + 1, 0) && words[i'][j'] == d;
        assert Before(i', j', i, |words[i]|);
      }
    }
  }

  /** The state after scanning `j` characters of word `i` is `Scanned`. */
  lemma {:induction false} ScanWordScanned(words: seq<string>, i: nat, j: nat)
    requires i < |words| && j <= |words[i]|
    ensures Scanned(ScanWord(ScanWords(words, i), words[i], i, j), words, i, j)
    decreases i, 1, j
  {
    if j == 0 {
      ScanWordsScanned(words, i);
    } else {
      var before := ScanWord(ScanWords(words, i), words[i], i, j - 1);
      assert ScanWord(ScanWords(words, i), words[i], i, j) == Insert(before, words[i][j - 1], CodeOf(i, j - 1));
      ScanWordScanned(words, i, j - 1);
      InsertScanned(before, words, i, j - 1);
    }
  }

  /** The state after scanning `i` whole words is `Scanned`. */
  lemma {:induction false} ScanWordsScanned(words: seq<string>, i: nat)
    requires i <= |words|
    ensures Scanned(ScanWords(words, i), words, i, 0)
    decreases i, 0, 0
  {
    if i > 0 {
      var done := ScanWord(ScanWords(words, i - 1), words[i - 1], i - 1, |words[i - 1]|);
      assert ScanWords(words, i) == done;
      ScanWordScanned(words, i - 1, |words[i - 1]|);
      NextWordScanned(done, words, i - 1);
    }
  }

  /** Every occurrence has a first occurrence at or before it. */
  lemma {:induction false} FirstExists(words: seq<string>, c: char, i: nat, j: nat)
    requires ValidPos(words, i, j) && words[i][j] == c
    ensures exists i', j' :: IsFirst(words, c, i', j')
    decreases i, j
  {
    if !IsFirst(words, c, i, j) {
      var i', j' :| ValidPos(words, i', j') && Before(i', j', i, j) && words[i'][j'] == c;
      FirstExists(words, c, i', j');
    }
  }

  /** A character occurs exactly when one of the words contains it. */
  lemma OccursIn(words: seq<string>, c: char)
    ensures Occurs(words, c) <==> exists i :: 0 <= i < |words| && c in words[i]
  {
    if exists i :: 0 <= i < |words| && c in words[i] {
      var i :| 0 <= i < |words| && c in words[i];
      var j :| 0 <= j < |words[i]| && words[i][j] == c;
      assert ValidPos(words, i, j);
    }
  }

  /** (i, j) is the first occurrence of `c` when no earlier word contains `c`
      and neither does the part of word `i` before position `j`. */
  lemma FirstIn(words: seq<string>, c: char, i: nat, j: nat)
    requires ValidPos(words, i, j) && words[i][j] == c
    requires forall i' :: 0 <= i' < i ==> c !in words[i']
    requires c !in words[i][..j]
    ensures IsFirst(words, c, i, j)
  {
  }

  /** A character is a key exactly when it occurs, in that exact case, in one
      of the words. */
  lemma BuildMapKeys(words: seq<string>, c: char)
    ensures c in BuildMap(words) <==> Occurs(words, c)
  {
    ScanWordsScanned(words, |words|);
    if Occurs(words, c) {
      var i, j :| ValidPos(words, i, j) && words[i][j] == c;
      assert Before(i, j, |words|, 0);
    }
  }

  /** The code under a character is the code of its first occurrence. */
  lemma BuildMapFirst(words: seq<string>, c: char, i: nat, j: nat)
    requires IsFirst(words, c, i, j)
    ensures c in BuildMap(words) && BuildMap(words)[c] == CodeOf(i, j)
  {
    ScanWordsScanned(words, |words|);
    assert Before(i, j, |words|, 0);
  }

  /** Every key carries the code of its character's first occurrence. */
  lemma BuildMapValue(words: seq<string>, c: char)
    requires c in BuildMap(words)
    ensures exists i, j :: IsFirst(words, c, i, j) && BuildMap(words)[c] == CodeOf(i, j)
  {
    BuildMapKeys(words, c);
    var i0, j0 :| ValidPos(words, i0, j0) && words[i0][j0] == c;
    FirstExists(words, c, i0, j0);
    var i, j :| IsFirst(words, c, i, j);
    BuildMapFirst(words, c, i, j);
  }

  /** Every code in the map is a string of at least two digits. */
  lemma BuildMapDigits(words: seq<string>, c: char)
    requires c in BuildMap(words)
    ensures AllDigits(BuildMap(words)[c]) && |BuildMap(words)[c]| >= 2
  {
    BuildMapValue(words, c);
  }

  /** Lines 20-32: the nested loops filling the dictionary in place. */
  method BuildCodeMap(words: seq<string>) returns (m: CodeMap)
    ensures m == BuildMap(words)
    ensures forall c :: c in m <==> Occurs(words, c)
  {
    m := map[];
    for i := 0 to |words|
      invariant m == ScanWords(words, i)
    {
      var w := words[i];
      for j := 0 to |w|
        invariant m == ScanWord(ScanWords(words, i), w, i, j)
      {
        var c := w[j];
        if c !in m {
          m := m[c := Decimal(i) + Decimal(j + 1)];
        }
      }
    }
    forall c ensures c in m <==> Occurs(words, c) {
      BuildMapKeys(words, c);
    }
  }
}
