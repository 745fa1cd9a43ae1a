/** Worked examples of the query normalisation on a Latin and a CJK query. */
module TokenizerExamples {
  import opened Text
  import opened Tokenizer

  lemma PoniesLetters()
    ensures AlphaLane("Running ponies") == "Running ponies"
  {
  }

  lemma PoniesSplit()
    ensures Split("Running ponies", ' ') == ["Running", "ponies"]
  {
    PoniesHalves();
    SplitAtSeparator("Running", ' ', "ponies");
    SplitWithoutSeparator("ponies", ' ');
  }

  lemma PoniesHalves()
    ensures "Running ponies" == "Running" + [' '] + "ponies"
    ensures ' ' !in "Running" && ' ' !in "ponies"
  {
  }

  /** "Running ponies" has no other characters than letters and a space, so ScanWords sees its two words. */
  lemma PoniesWords()
    ensures Words(AlphaLane("Running ponies")) == ["Running", "ponies"]
  {
    PoniesLetters();
    PoniesSplit();
    assert NonEmpty(["ponies"]) == ["ponies"];
    assert NonEmpty(["Running", "ponies"]) == ["Running"] + NonEmpty(["ponies"]);
  }

  lemma PoniesShingles(stem: string -> string)
    requires stem("Running") == "run" && stem("ponies") == "poni"
    ensures Shingles(stem, ["Running", "ponies"]) == ["run", "pon oni"]
  {
    var r := Trigrams("poni");
    assert r[0] == "poni"[0..3] == "pon";
    assert r[1] == "poni"[1..4] == "oni";
    assert r[1..] == ["oni"];
    assert Shingle("poni") == "pon oni";
    assert Shingle("run") == "run";
  }

  /** Two leading parts and at least one more: the join opens with the two and a separator after each. */
  lemma JoinTwoThenMore(x: string, y: string, lanes: seq<string>, sep: string)
    requires |lanes| >= 1
    ensures x + sep + y + sep <= Join([x, y] + lanes, sep)
  {
    JoinAppend([x, y], lanes, sep);
    assert [x, y][1..] == [y];
  }

  lemma PoniesJoin(lanes: seq<string>)
    requires |lanes| >= 1
    ensures "run pon oni " <= Join(["run", "pon oni"] + lanes, " ")
  {
    JoinTwoThenMore("run", "pon oni", lanes, " ");
    PoniesPrefix();
  }

  lemma PoniesPrefix()
    ensures "run" + " " + "pon oni" + " " == "run pon oni "
  {
  }

  /** The worked example of a Latin query: with the stems "run" and "poni", the output opens with "run pon oni". */
  lemma RunningPonies(stem: string -> string)
    requires stem("Running") == "run" && stem("ponies") == "poni"
    ensures "run pon oni " <= Normalize(stem, "Running ponies")
  {
    PoniesWords();
    PoniesShingles(stem);
    PoniesNormalize(stem, "Running ponies");
  }

  lemma PoniesNormalize(stem: string -> string, q: string)
    requires Shingles(stem, Words(AlphaLane(q))) == ["run", "pon oni"]
    ensures "run pon oni " <= Normalize(stem, q)
  {
    var lanes := IdeographLane(q) + [DigitLane(q)];
    assert Tokens(stem, q) == ["run", "pon oni"] + lanes;
    PoniesJoin(lanes);
  }

  /** The query "魔法1" has no letters, so no word reaches the stemmer. */
  lemma KanjiNoWords()
    ensures Words(AlphaLane("魔法1")) == []
  {
    assert AlphaLane("魔法1") == "   ";
    assert Split("   ", ' ') == ["", "", "", ""] by {
      assert Split("", ' ') == [""];
      assert Split(" ", ' ') == [""] + Split("", ' ');
      assert Split("  ", ' ') == [""] + Split(" ", ' ');
      assert Split("   ", ' ') == [""] + Split("  ", ' ');
    }
    assert NonEmpty(["", "", "", ""]) == [];
  }

  lemma KanjiLanes()
    ensures IdeographLane("魔法1") == ["魔", "法", " "]
    ensures DigitLane("魔法1") == "  1"
  {
  }

  lemma KanjiTokens(stem: string -> string)
    ensures Tokens(stem, "魔法1") == ["魔", "法", " ", "  1"]
  {
    KanjiNoWords();
    KanjiLanes();
    assert Shingles(stem, []) == [];
  }

  lemma JoinFour(a: string, b: string, c: string, d: string, sep: string)
    ensures Join([a, b, c, d], sep) == a + sep + b + sep + c + sep + d
  {
    var ts := [a, b, c, d];
    assert ts[1..] == [b, c, d] && ts[2..] == [c, d] && ts[3..] == [d];
    assert Join(ts[3..], sep) == d;
    assert Join(ts[2..], sep) == c + sep + d;
    assert Join(ts[1..], sep) == b + sep + (c + sep + d);
  }

  /** The worked example of a CJK query: each ideograph is a token of its own and the digit lane comes last. */
  lemma KanjiAndDigit(stem: string -> string)
    ensures Normalize(stem, "魔法1") == "魔 法     1"
  {
    KanjiTokens(stem);
    JoinFour("魔", "法", " ", "  1", " ");
    KanjiText();
  }

  lemma KanjiText()
    ensures "魔" + " " + "法" + " " + " " + " " + "  1" == "魔 法     1"
  {
  }
}
