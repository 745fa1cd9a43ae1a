/**
 * The search-text normaliser (transform_query.go). One pass over the code
 * points of the text fills three lanes of the same length as the text: ASCII
 * letters, digits, and CJK / kana / Hangul characters; every slot a code point
 * does not fill holds a space. The letter lane is cut into words, each word is
 * stemmed and, when four or more characters long, cut into overlapping
 * three-character shingles. The output is the shingled words, then every slot
 * of the ideograph lane, then the whole digit lane, joined by single spaces.
 * The same function produces the index rows and the match expressions of
 * queries.
 *
 * The Porter stemmer is a library outside the program: it is the parameter
 * `stem`, about which nothing is assumed.
 */
module Tokenizer {
  import opened Text

  /** isAlpha: an ASCII letter. */
  predicate IsAlpha(c: char)
  {
    'a' <= c <= 'z' || 'A' <= c <= 'Z'
  }

  /** unicode.IsDigit, restricted to the ASCII digits. */
  predicate IsDigit(c: char)
  {
    IsAsciiDigit(c)
  }

  /** isCJK: the union of the CJK ideograph, radical, symbol and compatibility blocks, Hiragana, Katakana and Hangul syllables. */
  predicate IsCJK(c: char)
    ensures IsCJK(c) ==> !IsAlpha(c) && !IsDigit(c) && c != ' '
  {
    var n := c as int;
    || 0x4E00 <= n <= 0x9FFF    // CJK Unified Ideographs
    || 0x3400 <= n <= 0x4DBF    // Extension A
    || 0x20000 <= n <= 0x2A6DF  // Extension B
    || 0x2A700 <= n <= 0x2B73F  // Extension C
    || 0x2B740 <= n <= 0x2B81F  // Extension D
    || 0x2E80 <= n <= 0x2EFF    // CJK Radicals Supplement
    || 0x2F00 <= n <= 0x2FDF    // Kangxi Radicals
    || 0x2FF0 <= n <= 0x2FFF    // Ideographic Description Characters
    || 0x3000 <= n <= 0x303F    // CJK Symbols and Punctuation
    || 0x31C0 <= n <= 0x31EF    // CJK Strokes
    || 0x3200 <= n <= 0x32FF    // Enclosed CJK Letters and Months
    || 0x3300 <= n <= 0x33FF    // CJK Compatibility
    || 0xF900 <= n <= 0xFAFF    // CJK Compatibility Ideographs
    || 0xFE30 <= n <= 0xFE4F    // CJK Compatibility Forms
    || 0x2F800 <= n <= 0x2FA1F  // CJK Compatibility Ideographs Supplement
    || 0x3040 <= n <= 0x309F    // Hiragana
    || 0x30A0 <= n <= 0x30FF    // Katakana
    || 0xAC00 <= n <= 0xD7A3    // Hangul Syllables
  }

  // The slot a code point fills in each lane. The classes are tried in the
  // order letter, digit, CJK, as the switch does; the first that holds wins.

  function AlphaSlot(c: char): char
  {
    if IsAlpha(c) then c else ' '
  }

  function DigitSlot(c: char): char
  {
    if !IsAlpha(c) && IsDigit(c) then c else ' '
  }

  function IdeographSlot(c: char): string
  {
    if !IsAlpha(c) && !IsDigit(c) && IsCJK(c) then [c] else " "
  }

  function AlphaLane(q: string): (lane: string)
  {
    seq(|q|, i requires 0 <= i < |q| => AlphaSlot(q[i]))
  }

  function DigitLane(q: string): (lane: string)
  {
    seq(|q|, i requires 0 <= i < |q| => DigitSlot(q[i]))
  }

  function IdeographLane(q: string): (lane: seq<string>)
  {
    seq(|q|, i requires 0 <= i < |q| => IdeographSlot(q[i]))
  }

  /** Overlapping three-character windows of `t`, left to right. */
  function Trigrams(t: string): (r: seq<string>)
    ensures |r| == if |t| < 3 then 0 else |t| - 2
    ensures forall k :: 0 <= k < |r| ==> r[k] == t[k..k + 3]
  {
    if |t| < 3 then [] else [t[..3]] + Trigrams(t[1..])
  }

  /** What toTrigram returns: short words unchanged, longer ones as their space-joined trigrams. */
  function Shingle(t: string): string
  {
    if |t| < 4 then t else Join(Trigrams(t), " ")
  }

  function Shingles(stem: string -> string, words: seq<string>): (r: seq<string>)
  {
    seq(|words|, i requires 0 <= i < |words| => Shingle(stem(words[i])))
  }

  /** The parts transformQueryText joins: shingled stemmed words, every ideograph slot, then the digit lane. */
  function Tokens(stem: string -> string, q: string): seq<string>
  {
    Shingles(stem, Words(AlphaLane(q))) + IdeographLane(q) + [DigitLane(q)]
  }

  /** What transformQueryText returns. */
  function Normalize(stem: string -> string, q: string): string
  {
    Join(Tokens(stem, q), " ")
  }

  /** toTrigram: collects the windows text[i-2..i+1] for i from 2 and joins them. */
  method ToTrigram(text: string) returns (r: string)
    ensures r == Shingle(text)
  {
    if |text| < 4 {
      return text;
    }
    var trigrams: seq<string> := [];
    var i := 2;
    while i < |text|
      invariant 2 <= i <= |text|
      invariant |trigrams| == i - 2
      invariant forall k :: 0 <= k < i - 2 ==> trigrams[k] == text[k..k + 3]
    {
      trigrams := trigrams + [text[i - 2..i + 1]];
      i := i + 1;
    }
    ghost var expected := Trigrams(text);
    assert |trigrams| == |expected| && forall k :: 0 <= k < |trigrams| ==> trigrams[k] == expected[k];
    assert trigrams == expected;
    r := Join(trigrams, " ");
  }

  /** The first loop of transformQueryText: one slot per code point in each lane, blank unless the code point belongs there. */
  method FillLanes(query: string) returns (letter: seq<string>, alpha: string, num: string)
    ensures alpha == AlphaLane(query) && num == DigitLane(query) && letter == IdeographLane(query)
  {
    letter, alpha, num := [], [], [];
    var i := 0;
    while i < |query|
      invariant 0 <= i <= |query|
      invariant |letter| == |alpha| == |num| == i
      invariant forall j :: 0 <= j < i ==> alpha[j] == AlphaSlot(query[j])
      invariant forall j :: 0 <= j < i ==> num[j] == DigitSlot(query[j])
      invariant forall j :: 0 <= j < i ==> letter[j] == IdeographSlot(query[j])
    {
      var c := query[i];
      letter := letter + [" "];
      alpha := alpha + [' '];
      num := num + [' '];
      if IsAlpha(c) {
        alpha := alpha[i := c];
      } else if IsDigit(c) {
        num := num[i := c];
      } else if IsCJK(c) {
        letter := letter[i := [c]];
      }
      assert alpha[i] == AlphaSlot(c) && num[i] == DigitSlot(c) && letter[i] == IdeographSlot(c);
      i := i + 1;
    }
  }

  /** The second loop of transformQueryText: each word stemmed, then cut into shingles. */
  method StemWords(stem: string -> string, words: seq<string>) returns (result: seq<string>)
    ensures result == Shingles(stem, words)
  {
    result := [];
    var k := 0;
    while k < |words|
      invariant 0 <= k <= |words|
      invariant |result| == k
      invariant forall j :: 0 <= j < k ==> result[j] == Shingle(stem(words[j]))
    {
      var porter := stem(words[k]);
      var trigram := ToTrigram(porter);
      result := result + [trigram];
      k := k + 1;
    }
  }

  /**
   * transformQueryText: the lane-filling pass over the code points, then the
   * word scanner feeding the stemmer and toTrigram, then the join.
   */
  method TransformQueryText(stem: string -> string, query: string) returns (r: string)
    ensures r == Normalize(stem, query)
  {
    var letter, alpha, num := FillLanes(query);
    var words := ScanWords(alpha);
    var result := StemWords(stem, words);
    result := result + letter;
    result := result + [num];
    r := Join(result, " ");
  }

  /** Each lane has one slot per code point, and a code point fills at most one slot: that of its first matching class. */
  lemma LanesPartitionInput(q: string, i: int)
    requires 0 <= i < |q|
    ensures |AlphaLane(q)| == |DigitLane(q)| == |IdeographLane(q)| == |q|
    ensures AlphaLane(q)[i] == (if IsAlpha(q[i]) then q[i] else ' ')
    ensures DigitLane(q)[i] == (if IsDigit(q[i]) then q[i] else ' ')
    ensures IdeographLane(q)[i] == (if IsCJK(q[i]) then [q[i]] else " ")
    ensures (AlphaLane(q)[i] != ' ' ==> DigitLane(q)[i] == ' ' && IdeographLane(q)[i] == " ")
    ensures (DigitLane(q)[i] != ' ' ==> IdeographLane(q)[i] == " ")
  {
  }

  /** toTrigram leaves words shorter than four characters alone and cuts longer ones into n - 2 pieces, each overlapping the next by two characters. */
  lemma ShinglePieces(t: string)
    requires ' ' !in t
    ensures |t| < 4 ==> Shingle(t) == t
    ensures |t| >= 4 ==>
      var pieces := Split(Shingle(t), ' ');
      && |pieces| == |t| - 2
      && (forall k :: 0 <= k < |pieces| ==> pieces[k] == t[k..k + 3])
      && (forall k :: 0 <= k < |pieces| - 1 ==> pieces[k][1..] == pieces[k + 1][..2])
  {
    if |t| >= 4 {
      var tg := Trigrams(t);
      forall k | 0 <= k < |tg|
        ensures ' ' !in tg[k]
      {
        assert tg[k] == [t[k], t[k + 1], t[k + 2]];
      }
      SplitJoin(tg, ' ');
    }
  }

  /** The number of maximal runs of ASCII letters in `q`. */
  function LetterRuns(q: string): nat
  {
    if q == [] then 0
    else LetterRuns(q[..|q| - 1]) + (if IsAlpha(q[|q| - 1]) && (|q| == 1 || !IsAlpha(q[|q| - 2])) then 1 else 0)
  }

  lemma {:induction false} AlphaLaneRuns(q: string)
    ensures Runs(AlphaLane(q)) == LetterRuns(q)
  {
    if q != [] {
      var t := q[..|q| - 1];
      AlphaLaneRuns(t);
      assert AlphaLane(q)[..|q| - 1] == AlphaLane(t);
    }
  }

  /** One word reaches the stemmer per maximal run of ASCII letters in the input, and each is made of ASCII letters only. */
  lemma StemmerInput(q: string)
    ensures |Words(AlphaLane(q))| == LetterRuns(q)
    ensures forall w, c :: w in Words(AlphaLane(q)) && c in w ==> IsAlpha(c)
  {
    WordsCountRuns(AlphaLane(q));
    AlphaLaneRuns(q);
    forall w, c | w in Words(AlphaLane(q)) && c in w
      ensures IsAlpha(c)
    {
      WordsFromText(AlphaLane(q), w, c);
    }
  }

  /** The output is made of one part per stemmed word, one per code point, and the digit lane. */
  lemma TokenCount(stem: string -> string, q: string)
    ensures |Tokens(stem, q)| == LetterRuns(q) + |q| + 1
  {
    StemmerInput(q);
  }

  /** The output ends with the digit lane, spaces and all. */
  lemma NormalizeEndsWithDigitLane(stem: string -> string, q: string)
    ensures |Normalize(stem, q)| >= |q|
    ensures Normalize(stem, q)[|Normalize(stem, q)| - |q|..] == DigitLane(q)
  {
    var ts := Tokens(stem, q);
    var init := Shingles(stem, Words(AlphaLane(q))) + IdeographLane(q);
    assert ts == init + [DigitLane(q)];
    if |init| == 0 {
      assert ts == [DigitLane(q)];
    } else {
      JoinSnoc(init, DigitLane(q), " ");
    }
  }

  /** The characters of `s` other than spaces, in order. */
  function WithoutSpaces(s: string): string
  {
    if s == [] then [] else WithoutSpaces(s[..|s| - 1]) + (if s[|s| - 1] == ' ' then [] else [s[|s| - 1]])
  }

  /** The digits of `q`, in order. */
  function DigitsOf(q: string): string
  {
    if q == [] then [] else DigitsOf(q[..|q| - 1]) + (if IsDigit(q[|q| - 1]) then [q[|q| - 1]] else [])
  }

  /** The ideograph slots that hold a character, in order. */
  function FilledSlots(lane: seq<string>): seq<string>
  {
    if lane == [] then [] else FilledSlots(lane[..|lane| - 1]) + (if lane[|lane| - 1] == " " then [] else [lane[|lane| - 1]])
  }

  /** The CJK characters of `q`, each as a one-character token, in order. */
  function IdeographsOf(q: string): seq<string>
  {
    if q == [] then [] else IdeographsOf(q[..|q| - 1]) + (if IsCJK(q[|q| - 1]) then [[q[|q| - 1]]] else [])
  }

  /** Digits reach the output verbatim, in input order, and nothing else fills the digit lane. */
  lemma {:induction false} DigitLaneKeepsDigits(q: string)
    ensures WithoutSpaces(DigitLane(q)) == DigitsOf(q)
  {
    if q != [] {
      DigitLaneKeepsDigits(q[..|q| - 1]);
      assert DigitLane(q)[..|q| - 1] == DigitLane(q[..|q| - 1]);
    }
  }

  /** CJK characters reach the output verbatim, one token each, in input order, and nothing else fills the ideograph lane. */
  lemma {:induction false} IdeographLaneKeepsIdeographs(q: string)
    ensures FilledSlots(IdeographLane(q)) == IdeographsOf(q)
  {
    if q != [] {
      IdeographLaneKeepsIdeographs(q[..|q| - 1]);
      assert IdeographLane(q)[..|q| - 1] == IdeographLane(q[..|q| - 1]);
    }
  }
}
