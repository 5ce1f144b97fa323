// String operations shared by the checks on text.
module Text {
  import opened Common

  /** The characters that the source language strips and that its patterns call white space. */
  predicate IsSpace(c: char) {
    || '\t' <= c <= '\r' || '\U{1C}' <= c <= ' ' || c == '\U{85}' || c == '\U{A0}' || c == '\U{1680}'
    || '\U{2000}' <= c <= '\U{200A}' || c == '\U{2028}' || c == '\U{2029}' || c == '\U{202F}'
    || c == '\U{205F}' || c == '\U{3000}'
  }

  function TrimLeft(s: string): string {
    if s != "" && IsSpace(s[0]) then TrimLeft(s[1..]) else s
  }

  function TrimRight(s: string): string {
    if s != "" && IsSpace(s[|s| - 1]) then TrimRight(s[..|s| - 1]) else s
  }

  function Trim(s: string): string {
    TrimRight(TrimLeft(s))
  }

  predicate StartsWith(s: string, prefix: string) {
    prefix <= s
  }

  predicate EndsWith(s: string, suffix: string) {
    |suffix| <= |s| && s[|s| - |suffix|..] == suffix
  }

  predicate Contains(s: string, part: string) {
    exists i | 0 <= i <= |s| :: part <= s[i..]
  }

  predicate IsHexDigit(c: char) {
    '0' <= c <= '9' || 'a' <= c <= 'f'
  }

  /** The whole of s is `sha256:` and 64 lower-case hexadecimal digits. */
  predicate IsSha256(s: string) {
    |s| == 71 && "sha256:" <= s && forall i | 7 <= i < |s| :: IsHexDigit(s[i])
  }

  predicate IsHexText(s: string) {
    forall i | 0 <= i < |s| ::
      s[i] in {'0', '1', '2', '3', '4', '5', '6', '7', '8', '9', 'a', 'b', 'c', 'd', 'e', 'f'}
  }

  ghost predicate IsDigestText(s: string) {
    exists hex :: s == "sha256:" + hex && |hex| == 64 && IsHexText(hex)
  }

  lemma Sha256Exactly(s: string)
    ensures IsSha256(s) <==> IsDigestText(s)
  {
    if IsSha256(s) {
      assert s == "sha256:" + s[7..] && IsHexText(s[7..]);
    }
    if hex :| s == "sha256:" + hex && |hex| == 64 && IsHexText(hex) {
      assert forall i | 7 <= i < |s| :: s[i] == hex[i - 7];
    }
  }

  // ----- what the operations mean -----

  /** The white space of the Unicode standard, with the four information separators. */
  lemma SpacesListed(c: char)
    ensures IsSpace(c) <==>
            c in {'\t', '\n', '\U{B}', '\U{C}', '\r', '\U{1C}', '\U{1D}', '\U{1E}', '\U{1F}', ' ', '\U{85}', '\U{A0}',
                  '\U{1680}', '\U{2000}', '\U{2001}', '\U{2002}', '\U{2003}', '\U{2004}', '\U{2005}', '\U{2006}',
                  '\U{2007}', '\U{2008}', '\U{2009}', '\U{200A}', '\U{2028}', '\U{2029}', '\U{202F}', '\U{205F}',
                  '\U{3000}'}
  {
  }

  predicate IsBlank(s: string) {
    forall i | 0 <= i < |s| :: IsSpace(s[i])
  }

  lemma {:induction false} TrimLeftExactly(s: string)
    ensures var t := TrimLeft(s);
      |t| <= |s| && s[|s| - |t|..] == t && IsBlank(s[..|s| - |t|]) && (t != "" ==> !IsSpace(t[0]))
  {
    if s != "" && IsSpace(s[0]) {
      TrimLeftExactly(s[1..]);
      var t := TrimLeft(s[1..]);
      assert s[..|s| - |t|] == [s[0]] + s[1..][..|s| - 1 - |t|];
    }
  }

  lemma {:induction false} TrimRightExactly(s: string)
    ensures var t := TrimRight(s);
      t <= s && IsBlank(s[|t|..]) && (t != "" ==> !IsSpace(t[|t| - 1]))
  {
    if s != "" && IsSpace(s[|s| - 1]) {
      var init := s[..|s| - 1];
      TrimRightExactly(init);
      var t := TrimRight(init);
      assert s[|t|..] == init[|t|..] + [s[|s| - 1]];
    }
  }

  lemma Halves(s: string, n: nat)
    requires n <= |s|
    ensures s == s[..n] + s[n..]
  {
  }

  /** Trimming takes away all white space at both ends and nothing else. */
  lemma TrimExactly(s: string) returns (before: string, after: string)
    ensures s == before + Trim(s) + after && IsBlank(before) && IsBlank(after)
    ensures Trim(s) != "" ==> !IsSpace(Trim(s)[0]) && !IsSpace(Trim(s)[|Trim(s)| - 1])
  {
    var t := TrimLeft(s);
    TrimLeftExactly(s);
    TrimRightExactly(t);
    hide IsSpace, IsBlank, TrimLeft, TrimRight;
    Halves(s, |s| - |t|);
    Halves(t, |TrimRight(t)|);
    before, after := s[..|s| - |t|], t[|TrimRight(t)|..];
    Associates(before, TrimRight(t), after);
  }

  lemma ContainsExactly(s: string, part: string)
    ensures Contains(s, part) <==> exists a, b :: s == a + part + b
  {
    if Contains(s, part) {
      var i :| 0 <= i <= |s| && part <= s[i..];
      assert s == s[..i] + part + s[i + |part|..];
    }
    if a, b :| s == a + part + b {
      assert s[|a|..] == part + b;
    }
  }
}
