/**
 * The string operations of Go's standard library that the server relies on:
 * strings.Join, strings.Split, bufio.ScanWords, strings.Replace, an unanchored
 * regular-expression match, filepath.Ext, byte-wise string order, fmt.Sprint of
 * an int and strconv.Atoi.
 */
module Text {
  import opened Wrappers

  /** strings.Join: the parts with `sep` between neighbours. */
  function Join(parts: seq<string>, sep: string): string
  {
    if |parts| == 0 then ""
    else if |parts| == 1 then parts[0]
    else parts[0] + sep + Join(parts[1..], sep)
  }

  /** Joining one more part adds the separator and that part at the end. */
  lemma {:induction false} JoinSnoc(parts: seq<string>, last: string, sep: string)
    requires |parts| >= 1
    ensures Join(parts + [last], sep) == Join(parts, sep) + sep + last
  {
    if |parts| > 1 {
      assert (parts + [last])[1..] == parts[1..] + [last];
      JoinSnoc(parts[1..], last, sep);
    }
  }

  /** Joining two non-empty lists of parts puts one separator between their joins. */
  lemma {:induction false} JoinAppend(a: seq<string>, b: seq<string>, sep: string)
    requires |a| >= 1 && |b| >= 1
    ensures Join(a + b, sep) == Join(a, sep) + sep + Join(b, sep)
    decreases |a|
  {
    if |a| > 1 {
      assert (a + b)[1..] == a[1..] + b;
      JoinAppend(a[1..], b, sep);
    } else {
      assert (a + b)[1..] == b;
    }
  }

  /** strings.Split with a one-character separator: the pieces between separators, empty pieces included. */
  function Split(s: string, sep: char): (pieces: seq<string>)
    ensures |pieces| >= 1
    ensures forall i :: 0 <= i < |pieces| ==> sep !in pieces[i]
  {
    if s == [] then [""]
    else
      var rest := Split(s[1..], sep);
      if s[0] == sep then [""] + rest
      else [[s[0]] + rest[0]] + rest[1..]
  }

  /** Every character of every piece comes from the split text. */
  lemma {:induction false} SplitFromText(s: string, sep: char, i: nat, c: char)
    requires i < |Split(s, sep)| && c in Split(s, sep)[i]
    ensures c in s
  {
    if s != [] {
      var rest := Split(s[1..], sep);
      if s[0] == sep {
        SplitFromText(s[1..], sep, i - 1, c);
      } else if i == 0 {
        if c != s[0] {
          SplitFromText(s[1..], sep, 0, c);
        }
      } else {
        SplitFromText(s[1..], sep, i, c);
      }
    }
  }

  lemma {:induction false} SplitWithoutSeparator(p: string, sep: char)
    requires sep !in p
    ensures Split(p, sep) == [p]
  {
    if p != [] {
      SplitWithoutSeparator(p[1..], sep);
      assert [p[0]] + p[1..] == p;
    }
  }

  lemma {:induction false} SplitAtSeparator(p: string, sep: char, rest: string)
    requires sep !in p
    ensures Split(p + [sep] + rest, sep) == [p] + Split(rest, sep)
  {
    var s := p + [sep] + rest;
    if p == [] {
      assert s[1..] == rest;
    } else {
      assert s[1..] == p[1..] + [sep] + rest;
      SplitAtSeparator(p[1..], sep, rest);
      assert [p[0]] + p[1..] == p;
    }
  }

  /** Splitting a join undoes it when no part holds the separator. */
  lemma {:induction false} SplitJoin(parts: seq<string>, sep: char)
    requires |parts| >= 1
    requires forall i :: 0 <= i < |parts| ==> sep !in parts[i]
    ensures Split(Join(parts, [sep]), sep) == parts
  {
    if |parts| == 1 {
      SplitWithoutSeparator(parts[0], sep);
    } else {
      SplitJoin(parts[1..], sep);
      SplitAtSeparator(parts[0], sep, Join(parts[1..], [sep]));
      assert parts == [parts[0]] + parts[1..];
    }
  }

  /** The pieces after one more character: a new empty piece after a separator, else the last piece extended. */
  function SplitExtended(ps: seq<string>, sep: char, x: char): seq<string>
    requires |ps| >= 1
  {
    if x == sep then ps + [""] else ps[..|ps| - 1] + [ps[|ps| - 1] + [x]]
  }

  lemma {:induction false} SplitExtendedAfterEmpty(pt: seq<string>, sep: char, x: char)
    requires |pt| >= 1
    ensures SplitExtended([""] + pt, sep, x) == [""] + SplitExtended(pt, sep, x)
  {
    if x != sep {
      assert ([""] + pt)[..|pt|] == [""] + pt[..|pt| - 1];
    }
  }

  lemma {:induction false} SplitExtendedAfterChar(c: char, pt: seq<string>, sep: char, x: char)
    requires |pt| >= 1
    ensures var r := SplitExtended(pt, sep, x);
            SplitExtended([[c] + pt[0]] + pt[1..], sep, x) == [[c] + r[0]] + r[1..]
  {
    var r := SplitExtended(pt, sep, x);
    if x == sep {
      assert r[0] == pt[0] && r[1..] == pt[1..] + [""];
    } else if |pt| == 1 {
      assert r == [pt[0] + [x]];
      assert [c] + (pt[0] + [x]) == ([c] + pt[0]) + [x];
    } else {
      assert r[0] == pt[0] && r[1..] == pt[1..|pt| - 1] + [pt[|pt| - 1] + [x]];
      assert ([[c] + pt[0]] + pt[1..])[..|pt| - 1] == [[c] + pt[0]] + pt[1..|pt| - 1];
    }
  }

  /** Appending one character either opens a new empty piece or extends the last one. */
  lemma {:induction false} SplitSnoc(s: string, sep: char, x: char)
    ensures Split(s + [x], sep) == SplitExtended(Split(s, sep), sep, x)
  {
    if s == [] {
      assert s + [x] == [x] && [x][1..] == [];
      assert [x] + "" == "" + [x];
    } else {
      assert (s + [x])[1..] == s[1..] + [x];
      SplitSnoc(s[1..], sep, x);
      if s[0] == sep {
        SplitExtendedAfterEmpty(Split(s[1..], sep), sep, x);
      } else {
        SplitExtendedAfterChar(s[0], Split(s[1..], sep), sep, x);
      }
    }
  }

  /** The non-empty pieces, in order. */
  function NonEmpty(ps: seq<string>): (r: seq<string>)
    ensures |r| <= |ps|
    ensures forall i :: 0 <= i < |r| ==> r[i] != "" && r[i] in ps
  {
    if ps == [] then []
    else (if ps[0] == "" then [] else [ps[0]]) + NonEmpty(ps[1..])
  }

  lemma {:induction false} NonEmptyAppend(a: seq<string>, b: seq<string>)
    ensures NonEmpty(a + b) == NonEmpty(a) + NonEmpty(b)
  {
    if a == [] {
      assert a + b == b;
    } else {
      assert (a + b)[0] == a[0] && (a + b)[1..] == a[1..] + b;
      NonEmptyAppend(a[1..], b);
      var head := if a[0] == "" then [] else [a[0]];
      assert NonEmpty(a + b) == head + (NonEmpty(a[1..]) + NonEmpty(b));
      assert head + (NonEmpty(a[1..]) + NonEmpty(b)) == (head + NonEmpty(a[1..])) + NonEmpty(b);
    }
  }

  /** The non-empty pieces of all but the last piece, then the last if it is non-empty. */
  lemma {:induction false} NonEmptySnoc(ps: seq<string>)
    requires |ps| >= 1
    ensures NonEmpty(ps) == NonEmpty(ps[..|ps| - 1]) + (if ps[|ps| - 1] == "" then [] else [ps[|ps| - 1]])
  {
    assert ps == ps[..|ps| - 1] + [ps[|ps| - 1]];
    NonEmptyAppend(ps[..|ps| - 1], [ps[|ps| - 1]]);
  }

  /**
   * bufio.ScanWords over text whose only space character is ' ': the maximal
   * runs of non-space characters, in order.
   */
  function Words(s: string): (ws: seq<string>)
    ensures forall i :: 0 <= i < |ws| ==> ws[i] != "" && ' ' !in ws[i]
  {
    NonEmpty(Split(s, ' '))
  }

  /** Every character of a word comes from the scanned text and is not a space. */
  lemma WordsFromText(s: string, w: string, c: char)
    requires w in Words(s) && c in w
    ensures c in s && c != ' '
  {
    var ps := Split(s, ' ');
    var i :| 0 <= i < |ps| && ps[i] == w;
    SplitFromText(s, ' ', i, c);
  }

  /** The scanner loop: reads `s` one character at a time and emits each word when it ends. */
  method ScanWords(s: string) returns (words: seq<string>)
    ensures words == Words(s)
  {
    words := [];
    var word := "";
    ghost var pieces := [""];
    var i := 0;
    while i < |s|
      invariant 0 <= i <= |s|
      invariant pieces == Split(s[..i], ' ')
      invariant word == pieces[|pieces| - 1]
      invariant words == NonEmpty(pieces[..|pieces| - 1])
    {
      SplitSnoc(s[..i], ' ', s[i]);
      assert s[..i + 1] == s[..i] + [s[i]];
      if s[i] == ' ' {
        NonEmptySnoc(pieces);
        if word != "" {
          words := words + [word];
        }
        assert (pieces + [""])[..|pieces|] == pieces;
        pieces := pieces + [""];
        word := "";
      } else {
        var n := |pieces|;
        assert (pieces[..n - 1] + [word + [s[i]]])[..n - 1] == pieces[..n - 1];
        pieces := pieces[..n - 1] + [word + [s[i]]];
        word := word + [s[i]];
      }
      i := i + 1;
    }
    NonEmptySnoc(pieces);
    assert s[..|s|] == s;
    if word != "" {
      words := words + [word];
    }
  }

  /** The number of maximal runs of non-space characters: positions that hold a non-space after a space or the start. */
  function Runs(s: string): nat
  {
    if s == [] then 0
    else Runs(s[..|s| - 1]) + (if s[|s| - 1] != ' ' && (|s| == 1 || s[|s| - 2] == ' ') then 1 else 0)
  }

  /** The last piece of a split is empty exactly when the text is empty or ends with the separator. */
  lemma {:induction false} SplitLastPiece(s: string)
    ensures var ps := Split(s, ' '); (ps[|ps| - 1] == "") == (s == [] || s[|s| - 1] == ' ')
  {
    if s != [] {
      var t, x := s[..|s| - 1], s[|s| - 1];
      assert s == t + [x];
      SplitSnoc(t, ' ', x);
    }
  }

  /** One more character adds a word exactly when it is no space and the last piece was empty. */
  lemma {:induction false} WordsStep(pt: seq<string>, x: char)
    requires |pt| >= 1
    ensures |NonEmpty(SplitExtended(pt, ' ', x))| == |NonEmpty(pt)| + (if x != ' ' && pt[|pt| - 1] == "" then 1 else 0)
  {
    var r := SplitExtended(pt, ' ', x);
    NonEmptySnoc(pt);
    NonEmptySnoc(r);
    assert r[..|r| - 1] == if x == ' ' then pt else pt[..|pt| - 1];
  }

  /** One more character adds a word exactly when it is no space and starts the text or follows a space. */
  lemma {:induction false} WordsSnoc(t: string, x: char)
    ensures |Words(t + [x])| == |Words(t)| + (if x != ' ' && (t == [] || t[|t| - 1] == ' ') then 1 else 0)
  {
    var ps := Split(t, ' ');
    SplitLastPiece(t);
    SplitSnoc(t, ' ', x);
    WordsStep(ps, x);
    assert Words(t + [x]) == NonEmpty(SplitExtended(ps, ' ', x));
    assert (ps[|ps| - 1] == "") == (t == [] || t[|t| - 1] == ' ');
  }

  /** The scanner yields one word per maximal run of non-space characters. */
  lemma {:induction false} WordsCountRuns(s: string)
    ensures |Words(s)| == Runs(s)
  {
    if s != [] {
      var t, x := s[..|s| - 1], s[|s| - 1];
      WordsCountRuns(t);
      WordsSnoc(t, x);
      assert s == t + [x];
    }
  }

  /** `sub` occurs in `s` starting at position i. */
  ghost predicate OccursAt(s: string, sub: string, i: nat)
  {
    i + |sub| <= |s| && s[i..i + |sub|] == sub
  }

  /** Whether `sub` occurs somewhere in `s`: what the unanchored regular expression `.*sub` matches. */
  predicate Contains(s: string, sub: string)
    decreases |s|
  {
    |s| >= |sub| && (s[..|sub|] == sub || Contains(s[1..], sub))
  }

  lemma {:induction false} ContainsIff(s: string, sub: string)
    ensures Contains(s, sub) <==> exists i: nat :: OccursAt(s, sub, i)
    decreases |s|
  {
    if |s| >= |sub| {
      if s[..|sub|] == sub {
        assert OccursAt(s, sub, 0);
      } else {
        ContainsIff(s[1..], sub);
        if Contains(s[1..], sub) {
          var j: nat :| OccursAt(s[1..], sub, j);
          assert s[1..][j..j + |sub|] == s[j + 1..j + 1 + |sub|];
          assert OccursAt(s, sub, j + 1);
        }
        if i: nat :| OccursAt(s, sub, i) {
          assert i != 0;
          assert s[1..][i - 1..i - 1 + |sub|] == s[i..i + |sub|];
          assert OccursAt(s[1..], sub, i - 1);
        }
      }
    }
  }

  /** strings.Replace(s, pat, rep, -1): every non-overlapping occurrence of `pat`, scanning left to right, becomes `rep`. */
  function ReplaceAll(s: string, pat: string, rep: string): (r: string)
    requires pat != []
    ensures |pat| == |rep| ==> |r| == |s|
    decreases |s|
  {
    if |s| < |pat| then s
    else if s[..|pat|] == pat then rep + ReplaceAll(s[|pat|..], pat, rep)
    else [s[0]] + ReplaceAll(s[1..], pat, rep)
  }

  /** A text that contains `sub` is still contained after anything is put in front of it. */
  lemma {:induction false} ContainsAfterPrefix(prefix: string, s: string, sub: string)
    requires Contains(s, sub)
    ensures Contains(prefix + s, sub)
    decreases |prefix|
  {
    if prefix != [] {
      ContainsAfterPrefix(prefix[1..], s, sub);
      assert (prefix + s)[1..] == prefix[1..] + s;
      assert |prefix + s| >= |sub|;
      assert Contains((prefix + s)[1..], sub);
    } else {
      assert prefix + s == s;
    }
  }

  /** An occurrence of `sub` lies past any leading characters that differ from its first one. */
  lemma {:induction false} ContainsPastMismatch(s: string, sub: string, k: nat)
    requires sub != [] && Contains(s, sub) && k <= |s|
    requires forall j :: 0 <= j < k ==> s[j] != sub[0]
    ensures Contains(s[k..], sub)
    decreases k
  {
    if k > 0 {
      assert s[..|sub|][0] == s[0];
      ContainsPastMismatch(s[1..], sub, k - 1);
      assert s[1..][k - 1..] == s[k..];
    }
  }

  /**
   * Replacing `pat` by `rep` turns an occurrence of `c` followed by `pat` into
   * `c` followed by `rep`, when `c` is not part of `pat`: the left-to-right
   * scan cannot have consumed the `c` in an earlier match.
   */
  lemma {:induction false} ReplaceAllAfterChar(s: string, c: char, pat: string, rep: string)
    requires pat != [] && c !in pat
    requires Contains(s, [c] + pat)
    ensures Contains(ReplaceAll(s, pat, rep), [c] + rep)
    decreases |s|
  {
    var sub := [c] + pat;
    if s[..|pat|] == pat {
      forall j | 0 <= j < |pat| ensures s[j] != sub[0] {
        assert s[j] == pat[j];
      }
      ContainsPastMismatch(s, sub, |pat|);
      ReplaceAllAfterChar(s[|pat|..], c, pat, rep);
      ContainsAfterPrefix(rep, ReplaceAll(s[|pat|..], pat, rep), [c] + rep);
    } else if s[..|sub|] == sub {
      assert s[1..][..|pat|] == pat;
      assert s[0] == c && pat[0] != c;
      assert s[..|pat|] != pat by {
        assert s[..|pat|][0] == c;
      }
      var r := ReplaceAll(s, pat, rep);
      assert r == [s[0]] + ReplaceAll(s[1..], pat, rep);
      assert ReplaceAll(s[1..], pat, rep) == rep + ReplaceAll(s[1..][|pat|..], pat, rep);
      assert r == [c] + (rep + ReplaceAll(s[1..][|pat|..], pat, rep));
      assert r[..|rep| + 1] == [c] + rep;
    } else {
      ReplaceAllAfterChar(s[1..], c, pat, rep);
      ContainsAfterPrefix([s[0]], ReplaceAll(s[1..], pat, rep), [c] + rep);
    }
  }

  /** Replacing never removes a character that is not part of the pattern. */
  lemma {:induction false} ReplaceAllKeepsOthers(s: string, pat: string, rep: string, c: char)
    requires pat != [] && c in s && c !in pat
    ensures c in ReplaceAll(s, pat, rep)
    decreases |s|
  {
    if |s| >= |pat| {
      if s[..|pat|] == pat {
        assert s == s[..|pat|] + s[|pat|..];
        ReplaceAllKeepsOthers(s[|pat|..], pat, rep, c);
      } else if s[0] != c {
        var i :| 0 <= i < |s| && s[i] == c;
        assert s[1..][i - 1] == c;
        ReplaceAllKeepsOthers(s[1..], pat, rep, c);
      }
    }
  }

  /** Replacing brings in no character that the replacement does not carry. */
  lemma {:induction false} ReplaceAllAddsOnlyRep(s: string, pat: string, rep: string, c: char)
    requires pat != [] && c !in rep && c in ReplaceAll(s, pat, rep)
    ensures c in s
    decreases |s|
  {
    if |s| >= |pat| {
      if s[..|pat|] == pat {
        var t := ReplaceAll(s[|pat|..], pat, rep);
        assert c in t by {
          var i :| 0 <= i < |rep + t| && (rep + t)[i] == c;
          assert i >= |rep|;
          assert t[i - |rep|] == c;
        }
        ReplaceAllAddsOnlyRep(s[|pat|..], pat, rep, c);
        var j :| 0 <= j < |s[|pat|..]| && s[|pat|..][j] == c;
        assert s[|pat| + j] == c;
      } else if s[0] != c {
        var t := ReplaceAll(s[1..], pat, rep);
        assert c in t by {
          var i :| 0 <= i < |[s[0]] + t| && ([s[0]] + t)[i] == c;
          assert t[i - 1] == c;
        }
        ReplaceAllAddsOnlyRep(s[1..], pat, rep, c);
        var j :| 0 <= j < |s[1..]| && s[1..][j] == c;
        assert s[1 + j] == c;
      }
    }
  }

  /** A text in which `pat` does not occur is left as it is. */
  lemma {:induction false} ReplaceAllAbsent(s: string, pat: string, rep: string)
    requires pat != [] && !Contains(s, pat)
    ensures ReplaceAll(s, pat, rep) == s
    decreases |s|
  {
    if |s| >= |pat| {
      ReplaceAllAbsent(s[1..], pat, rep);
      assert [s[0]] + s[1..] == s;
    }
  }

  /** filepath.Ext: the suffix from the last '.' of the final path element, or "" when that element has none. */
  function Ext(path: string): (e: string)
    ensures e == [] || (e[0] == '.' && '.' !in e[1..] && '/' !in e)
    ensures |e| <= |path| && path[|path| - |e|..] == e
  {
    if path == [] then []
    else
      var c := path[|path| - 1];
      if c == '/' then []
      else if c == '.' then ['.']
      else
        var e := Ext(path[..|path| - 1]);
        if e == [] then [] else e + [c]
  }

  /** filepath.Ext of a path one character longer. */
  lemma ExtSnoc(path: string, c: char)
    ensures Ext(path + [c]) == if c == '/' then [] else if c == '.' then ['.']
                               else if Ext(path) == [] then [] else Ext(path) + [c]
  {
    assert (path + [c])[..|path|] == path;
  }

  /** A name ending in an extension (a '.' followed by no further '.' or '/') has exactly that extension. */
  lemma {:induction false} ExtOfSuffix(name: string, ext: string)
    requires ext != [] && ext[0] == '.' && '.' !in ext[1..] && '/' !in ext
    ensures Ext(name + ext) == ext
  {
    var c := ext[|ext| - 1];
    if |ext| == 1 {
      assert ext == ['.'];
      ExtSnoc(name, c);
    } else {
      var e := ext[..|ext| - 1];
      assert ext == e + [c];
      assert ext[1..] == e[1..] + [c];
      ExtOfSuffix(name, e);
      assert name + ext == (name + e) + [c];
      ExtSnoc(name + e, c);
    }
  }

  /** Go's `<` on strings: byte-wise order, which for UTF-8 text is code-point order. */
  predicate LexLess(a: string, b: string)
  {
    if a == [] then b != []
    else if b == [] then false
    else if a[0] != b[0] then a[0] < b[0]
    else LexLess(a[1..], b[1..])
  }

  lemma {:induction false} LexLessIrreflexive(a: string)
    ensures !LexLess(a, a)
  {
    if a != [] {
      LexLessIrreflexive(a[1..]);
    }
  }

  lemma {:induction false} LexLessTransitive(a: string, b: string, c: string)
    requires LexLess(a, b) && LexLess(b, c)
    ensures LexLess(a, c)
  {
    if a != [] && b != [] && c != [] && a[0] == b[0] && b[0] == c[0] {
      LexLessTransitive(a[1..], b[1..], c[1..]);
    }
  }

  lemma {:induction false} LexLessTotal(a: string, b: string)
    requires a != b
    ensures LexLess(a, b) || LexLess(b, a)
  {
    if a != [] && b != [] && a[0] == b[0] {
      assert a == [a[0]] + a[1..] && b == [b[0]] + b[1..];
      LexLessTotal(a[1..], b[1..]);
    }
  }

  predicate IsAsciiDigit(c: char)
  {
    '0' <= c <= '9'
  }

  function DigitChar(d: nat): (c: char)
    requires d < 10
    ensures IsAsciiDigit(c) && c as int - '0' as int == d
  {
    ('0' as int + d) as char
  }

  /** fmt.Sprint of a non-negative int: decimal digits, most significant first, no leading zeros. */
  function NatToString(n: nat): (s: string)
    ensures |s| >= 1 && forall i :: 0 <= i < |s| ==> IsAsciiDigit(s[i])
  {
    if n < 10 then [DigitChar(n)] else NatToString(n / 10) + [DigitChar(n % 10)]
  }

  /** fmt.Sprint of an int. */
  function IntToString(n: int): string
  {
    if n < 0 then "-" + NatToString(-n) else NatToString(n)
  }

  predicate AllAsciiDigits(s: string)
  {
    forall i :: 0 <= i < |s| ==> IsAsciiDigit(s[i])
  }

  /** The value of a string of ASCII digits, read left to right. */
  function DigitsValue(s: string): nat
    requires AllAsciiDigits(s)
  {
    if s == [] then 0
    else
      assert IsAsciiDigit(s[|s| - 1]);
      DigitsValue(s[..|s| - 1]) * 10 + (s[|s| - 1] as int - '0' as int)
  }

  const MinInt64: int := -0x8000_0000_0000_0000
  const MaxInt64: int := 0x7FFF_FFFF_FFFF_FFFF

  /** strconv.Atoi on a 64-bit platform: an optional sign, at least one ASCII digit, and a value that fits in 64 bits. */
  function ParseInt(s: string): (r: Option<int>)
    ensures r.Some? ==> MinInt64 <= r.value <= MaxInt64
    ensures r.Some? ==> s != [] && (IsAsciiDigit(s[0]) || s[0] == '+' || s[0] == '-')
  {
    var signed := |s| > 0 && (s[0] == '+' || s[0] == '-');
    var digits := if signed then s[1..] else s;
    if digits == [] || !AllAsciiDigits(digits) then None
    else
      var magnitude: int := DigitsValue(digits);
      var v := if signed && s[0] == '-' then -magnitude else magnitude;
      if MinInt64 <= v <= MaxInt64 then Some(v) else None
  }

  /** What Atoi accepts is made of ASCII digits, but for a sign in front. */
  lemma ParseIntCharacters(s: string, c: char)
    requires ParseInt(s).Some? && c in s
    ensures IsAsciiDigit(c) || c == '+' || c == '-'
  {
    var signed := |s| > 0 && (s[0] == '+' || s[0] == '-');
    var digits := if signed then s[1..] else s;
    var i :| 0 <= i < |s| && s[i] == c;
    if !(i == 0 && signed) {
      var j := if signed then i - 1 else i;
      assert digits[j] == c;
    }
  }

  lemma {:induction false} DigitsValueOfNatToString(n: nat)
    ensures DigitsValue(NatToString(n)) == n
  {
    if n >= 10 {
      DigitsValueOfNatToString(n / 10);
      var s := NatToString(n);
      assert s[..|s| - 1] == NatToString(n / 10);
    }
  }

  /** Atoi reads back every 64-bit integer that Sprint prints. */
  lemma ParseIntOfIntToString(n: int)
    requires MinInt64 <= n <= MaxInt64
    ensures ParseInt(IntToString(n)) == Some(n)
  {
    var s := IntToString(n);
    if n < 0 {
      DigitsValueOfNatToString(-n);
      assert s[0] == '-' && s[1..] == NatToString(-n);
    } else {
      DigitsValueOfNatToString(n);
      assert s == NatToString(n) && IsAsciiDigit(s[0]);
      assert s[0] != '+' && s[0] != '-';
    }
  }

  /** The integer a printed numeral denotes, with no bound on its size; 0 for text that is not a numeral. */
  function NumeralValue(s: string): int
  {
    if |s| > 0 && s[0] == '-' && AllAsciiDigits(s[1..]) then -(DigitsValue(s[1..]) as int)
    else if AllAsciiDigits(s) then DigitsValue(s)
    else 0
  }

  /** Reading back what Sprint prints gives the number, whatever its size. */
  lemma NumeralValueOfIntToString(n: int)
    ensures NumeralValue(IntToString(n)) == n
  {
    if n < 0 {
      assert IntToString(n)[1..] == NatToString(-n);
      DigitsValueOfNatToString(-n);
    } else {
      DigitsValueOfNatToString(n);
    }
  }

  /** Sprint prints a minus sign first exactly for negative numbers. */
  lemma IntToStringSign(n: int)
    ensures |IntToString(n)| >= 1
    ensures n < 0 <==> IntToString(n)[0] == '-'
  {
    if n >= 0 {
      assert IsAsciiDigit(NatToString(n)[0]);
    }
  }

  /** Sprint never prints two integers the same way. */
  lemma IntToStringInjective(a: int, b: int)
    requires IntToString(a) == IntToString(b)
    ensures a == b
  {
    NumeralValueOfIntToString(a);
    NumeralValueOfIntToString(b);
  }
}
