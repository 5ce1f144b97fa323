/** FROM lines of Dockerfiles: what the audit's pattern recognises and what it takes from a line. */
module FromLines {
  import opened Common
  import opened Text

  // ----- words -----

  predicate IsWord(s: string) {
    s != "" && forall i | 0 <= i < |s| :: !IsSpace(s[i])
  }

  function FirstWord(s: string): (w: string)
    ensures w <= s && (forall i | 0 <= i < |w| :: !IsSpace(w[i])) && (|w| < |s| ==> IsSpace(s[|w|]))
  {
    if s == "" || IsSpace(s[0]) then "" else [s[0]] + FirstWord(s[1..])
  }

  /** The maximal runs of non-space characters. */
  function Words(s: string): seq<string>
    decreases |s|
  {
    if s == "" then []
    else if IsSpace(s[0]) then Words(s[1..])
    else [FirstWord(s)] + Words(s[|FirstWord(s)|..])
  }

  /** Words written with the given white space around and between them. */
  function Written(gaps: seq<string>, words: seq<string>): string
    requires |gaps| == |words| + 1
  {
    if words == [] then gaps[0] else gaps[0] + (words[0] + Written(gaps[1..], words[1..]))
  }

  predicate IsWriting(gaps: seq<string>, words: seq<string>) {
    && |gaps| == |words| + 1
    && (forall i | 0 <= i < |gaps| :: IsBlank(gaps[i]))
    && (forall i | 0 < i < |words| :: gaps[i] != "")
    && (forall i | 0 <= i < |words| :: IsWord(words[i]))
  }

  lemma {:induction false} WordsAfterBlank(gap: string, s: string)
    requires IsBlank(gap)
    ensures Words(gap + s) == Words(s)
  {
    if gap == "" {
      assert gap + s == s;
    } else {
      assert (gap + s)[1..] == gap[1..] + s;
      WordsAfterBlank(gap[1..], s);
    }
  }

  lemma {:induction false} FirstWordOf(w: string, s: string)
    requires (forall i | 0 <= i < |w| :: !IsSpace(w[i])) && (s == "" || IsSpace(s[0]))
    ensures FirstWord(w + s) == w
  {
    if w == "" {
      assert w + s == s;
    } else {
      assert (w + s)[1..] == w[1..] + s;
      FirstWordOf(w[1..], s);
    }
  }

  /** Splitting a line into words undoes writing it. */
  lemma {:induction false} WordsOfWritten(gaps: seq<string>, words: seq<string>)
    requires IsWriting(gaps, words)
    ensures Words(Written(gaps, words)) == words
    decreases |words|
  {
    if words == [] {
      assert gaps[0] + "" == gaps[0];
      WordsAfterBlank(gaps[0], "");
    } else {
      var w, rest := words[0], Written(gaps[1..], words[1..]);
      RestOfWriting(gaps, words);
      WordsOfWritten(gaps[1..], words[1..]);
      WordsAfterBlank(gaps[0], w + rest);
      FirstWordOf(w, rest);
      assert (w + rest)[|w|..] == rest;
    }
  }

  lemma RestOfWriting(gaps: seq<string>, words: seq<string>)
    requires IsWriting(gaps, words) && words != []
    ensures IsWriting(gaps[1..], words[1..])
    ensures var rest := Written(gaps[1..], words[1..]); rest == "" || IsSpace(rest[0])
  {
    if |words| > 1 {
      assert gaps[1..][0] == gaps[1] != "" && IsBlank(gaps[1]);
    } else {
      assert IsBlank(gaps[1]);
    }
  }

  lemma LongerGap(gaps: seq<string>, words: seq<string>, c: char)
    requires IsWriting(gaps, words) && IsSpace(c)
    ensures var more := [[c] + gaps[0]] + gaps[1..];
      IsWriting(more, words) && Written(more, words) == [c] + Written(gaps, words)
  {
    var more := [[c] + gaps[0]] + gaps[1..];
    assert more[1..] == gaps[1..];
    if words != [] {
      Associates([c], gaps[0], words[0] + Written(gaps[1..], words[1..]));
    }
  }

  lemma LongerLine(gaps: seq<string>, words: seq<string>, w: string)
    requires IsWriting(gaps, words) && IsWord(w) && (words != [] ==> gaps[0] != "")
    ensures IsWriting([""] + gaps, [w] + words)
    ensures Written([""] + gaps, [w] + words) == w + Written(gaps, words)
  {
    assert ([""] + gaps)[1..] == gaps && ([w] + words)[1..] == words;
    assert "" + (w + Written(gaps, words)) == w + Written(gaps, words);
  }

  /** Every line is a writing of its words. */
  lemma {:induction false} EveryLineWritten(s: string) returns (gaps: seq<string>)
    ensures IsWriting(gaps, Words(s)) && Written(gaps, Words(s)) == s
    ensures s != "" && IsSpace(s[0]) ==> gaps[0] != ""
    decreases |s|
  {
    if s == "" {
      gaps := [""];
    } else if IsSpace(s[0]) {
      var rest := EveryLineWritten(s[1..]);
      LongerGap(rest, Words(s[1..]), s[0]);
      gaps := [[s[0]] + rest[0]] + rest[1..];
    } else {
      var w := FirstWord(s);
      var rest := EveryLineWritten(s[|w|..]);
      assert s == w + s[|w|..];
      hide IsSpace, FirstWord;
      assert s[|w|..] != "" || Words(s[|w|..]) == [];
      LongerLine(rest, Words(s[|w|..]), w);
      gaps := [""] + rest;
    }
  }

  // ----- the parser -----

  function Upper(c: char): char {
    if 'a' <= c <= 'z' then (c as int - 32) as char else c
  }

  /** Equality up to letter case; the long s is a lower-case form of S. */
  predicate SameLetters(s: string, upper: string) {
    |s| == |upper| && forall i | 0 <= i < |s| :: Upper(s[i]) == upper[i] || (s[i] == '\U{17F}' && upper[i] == 'S')
  }

  datatype From = From(image: string, alias: Option<string>)

  predicate IsPlatform(word: string) {
    |word| > 11 && SameLetters(word[..11], "--PLATFORM=")
  }

  /** A FROM line: an optional platform, the image, an optional alias. */
  function ParseFrom(line: string): Option<From> {
    var words := Words(line);
    if |words| < 2 || !SameLetters(words[0], "FROM") then None
    else
      var k := if IsPlatform(words[1]) && |words| > 2 then 2 else 1;
      if |words| > k + 2 && SameLetters(words[k + 1], "AS") then Some(From(words[k], Some(words[k + 2])))
      else Some(From(words[k], None))
  }

  // ----- what it recognises -----

  predicate IsFromKeyword(w: string) {
    |w| == 4 && w[0] in {'F', 'f'} && w[1] in {'R', 'r'} && w[2] in {'O', 'o'} && w[3] in {'M', 'm'}
  }

  predicate IsAsKeyword(w: string) {
    |w| == 2 && w[0] in {'A', 'a'} && w[1] in {'S', 's', '\U{17F}'}
  }

  /** `--platform=` in any letter case, and a value. */
  predicate IsPlatformOption(w: string) {
    && |w| >= 12 && w[0] == w[1] == '-' && w[2] in {'P', 'p'} && w[3] in {'L', 'l'} && w[4] in {'A', 'a'}
    && w[5] in {'T', 't'} && w[6] in {'F', 'f'} && w[7] in {'O', 'o'} && w[8] in {'R', 'r'} && w[9] in {'M', 'm'}
    && w[10] == '='
  }

  /** The words of a FROM line; `more` is what follows the image and the alias. */
  datatype FromLine = FromLine(
    keyword: string, platform: Option<string>, image: string, alias: Option<(string, string)>, more: seq<string>)
  {
    function Operands(): seq<string> {
      [image] + ((match alias case None => [] case Some((keyword, name)) => [keyword, name]) + more)
    }

    function Line(): seq<string> {
      [keyword] + ((match platform case None => [] case Some(option) => [option]) + Operands())
    }

    /** A platform option is the image only when nothing follows it, and the word AS begins an alias
        whenever a word follows it. */
    predicate Valid() {
      && IsFromKeyword(keyword)
      && (match platform
          case Some(option) => IsPlatformOption(option)
          case None => IsPlatformOption(image) ==> alias == None && more == [])
      && (match alias
          case Some((keyword, _)) => IsAsKeyword(keyword)
          case None => |more| >= 2 ==> !IsAsKeyword(more[0]))
    }

    function Parsed(): From {
      From(image, match alias case None => None case Some((_, name)) => Some(name))
    }
  }

  lemma LettersExactly(c: char, lower: char, upper: char)
    requires 'a' <= lower <= 'z' && upper as int == lower as int - 32
    ensures Upper(c) == upper <==> c == upper || c == lower
  {
  }

  lemma FromKeywordExactly(w: string)
    ensures SameLetters(w, "FROM") <==> IsFromKeyword(w)
  {
    if |w| == 4 {
      LettersExactly(w[0], 'f', 'F');
      LettersExactly(w[1], 'r', 'R');
      LettersExactly(w[2], 'o', 'O');
      LettersExactly(w[3], 'm', 'M');
      hide Upper;
      var upper := "FROM";
      assert upper[0] == 'F' && upper[1] == 'R' && upper[2] == 'O' && upper[3] == 'M';
    }
  }

  lemma AsKeywordExactly(w: string)
    ensures SameLetters(w, "AS") <==> IsAsKeyword(w)
  {
    if |w| == 2 {
      LettersExactly(w[0], 'a', 'A');
      LettersExactly(w[1], 's', 'S');
      hide Upper;
      var upper := "AS";
      assert upper[0] == 'A' && upper[1] == 'S';
    }
  }

  lemma PlatformExactly(w: string)
    ensures IsPlatform(w) <==> IsPlatformOption(w)
  {
    if |w| > 11 {
      LettersExactly(w[2], 'p', 'P');
      LettersExactly(w[3], 'l', 'L');
      LettersExactly(w[4], 'a', 'A');
      LettersExactly(w[5], 't', 'T');
      LettersExactly(w[6], 'f', 'F');
      LettersExactly(w[7], 'o', 'O');
      LettersExactly(w[8], 'r', 'R');
      LettersExactly(w[9], 'm', 'M');
      SignsExactly(w[0], '-');
      SignsExactly(w[1], '-');
      SignsExactly(w[10], '=');
      hide Upper;
      PlatformLetters(w[..11]);
    }
  }

  lemma SignsExactly(c: char, sign: char)
    requires sign == '-' || sign == '='
    ensures Upper(c) == sign <==> c == sign
  {
  }

  lemma PlatformLetters(s: string)
    requires |s| == 11
    ensures SameLetters(s, "--PLATFORM=") <==>
            && Upper(s[0]) == Upper(s[1]) == '-' && Upper(s[2]) == 'P' && Upper(s[3]) == 'L' && Upper(s[4]) == 'A'
            && Upper(s[5]) == 'T' && Upper(s[6]) == 'F' && Upper(s[7]) == 'O' && Upper(s[8]) == 'R'
            && Upper(s[9]) == 'M' && Upper(s[10]) == '='
  {
    hide Upper;
    var upper := "--PLATFORM=";
    assert upper[0] == upper[1] == '-' && upper[2] == 'P' && upper[3] == 'L' && upper[4] == 'A' && upper[5] == 'T';
    assert upper[6] == 'F' && upper[7] == 'O' && upper[8] == 'R' && upper[9] == 'M' && upper[10] == '=';
  }

  lemma KeywordsExactly(w: string)
    ensures SameLetters(w, "FROM") <==> IsFromKeyword(w)
    ensures SameLetters(w, "AS") <==> IsAsKeyword(w)
    ensures IsPlatform(w) <==> IsPlatformOption(w)
  {
    hide SameLetters, IsPlatform, IsFromKeyword, IsAsKeyword, IsPlatformOption;
    FromKeywordExactly(w);
    AsKeywordExactly(w);
    PlatformExactly(w);
  }

  /** Whatever the white space, the letter case and the words that follow, a FROM line is read as its
      image and alias. */
  lemma FromRead(gaps: seq<string>, f: FromLine)
    requires f.Valid() && IsWriting(gaps, f.Line())
    ensures ParseFrom(Written(gaps, f.Line())) == Some(f.Parsed())
  {
    WordsOfWritten(gaps, f.Line());
    forall w ensures SameLetters(w, "FROM") <==> IsFromKeyword(w)
             ensures SameLetters(w, "AS") <==> IsAsKeyword(w)
             ensures IsPlatform(w) <==> IsPlatformOption(w)
    {
      KeywordsExactly(w);
    }
    hide SameLetters, IsPlatform, IsFromKeyword, IsAsKeyword, IsPlatformOption, Words, Written, IsWriting;
  }

  predicate IsFromLine(line: string, gaps: seq<string>, f: FromLine) {
    f.Valid() && IsWriting(gaps, f.Line()) && Written(gaps, f.Line()) == line
  }

  /** Nothing else is recognised: a line that is read at all is written so. */
  lemma ReadIsFromLine(line: string) returns (gaps: seq<string>, f: FromLine)
    requires ParseFrom(line).Some?
    ensures IsFromLine(line, gaps, f) && ParseFrom(line) == Some(f.Parsed())
  {
    gaps := EveryLineWritten(line);
    var ws := Words(line);
    KeywordsExactly(ws[0]);
    KeywordsExactly(ws[1]);
    var k := if IsPlatform(ws[1]) && |ws| > 2 then 2 else 1;
    if |ws| > k + 1 {
      KeywordsExactly(ws[k + 1]);
    }
    KeywordsExactly(ws[k]);
    hide SameLetters, IsPlatform, IsFromKeyword, IsAsKeyword, IsPlatformOption, Words, Written, IsWriting;
    var platform := if k == 2 then Some(ws[1]) else None;
    var alias := ParseFrom(line).value.alias;
    if alias.Some? {
      f := FromLine(ws[0], platform, ws[k], Some((ws[k + 1], ws[k + 2])), ws[k + 3..]);
    } else {
      f := FromLine(ws[0], platform, ws[k], None, ws[k + 1..]);
    }
    LineOf(f, ws, k);
  }

  lemma LineOf(f: FromLine, words: seq<string>, k: nat)
    requires 1 <= k <= 2 && k < |words| && f.keyword == words[0] && f.image == words[k]
    requires if f.alias == None then f.more == words[k + 1..]
             else |words| > k + 2 && f.alias == Some((words[k + 1], words[k + 2])) && f.more == words[k + 3..]
    requires f.platform == if k == 2 then Some(words[1]) else None
    ensures f.Line() == words
  {
    assert f.Operands() == words[k..];
  }

  lemma FromLinesExactly(line: string)
    ensures ParseFrom(line).Some? <==> exists gaps, f :: IsFromLine(line, gaps, f)
  {
    if ParseFrom(line).Some? {
      var gaps, f := ReadIsFromLine(line);
    }
    if gaps, f :| IsFromLine(line, gaps, f) {
      FromRead(gaps, f);
    }
  }
}
