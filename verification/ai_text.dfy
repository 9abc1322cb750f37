/**
 The post-processing applied to the text of the language model's reply in the
 `AI` branch: `.replace(/[^a-zA-Z ]/g, "").trim().split(" ")[0]`.
 */
module AiText {
  import opened Seqs

  predicate IsAsciiLetter(c: char) {
    'a' <= c <= 'z' || 'A' <= c <= 'Z'
  }

  /** The characters the pattern `[^a-zA-Z ]` does not match, so the replacement keeps them. */
  predicate IsKept(c: char) {
    IsAsciiLetter(c) || c == ' '
  }

  /** ECMAScript's WhiteSpace and LineTerminator characters, the ones `trim` removes. */
  predicate IsJsWhitespace(c: char) {
    || c == '\t' || c == '\n' || c == '\U{B}' || c == '\U{C}' || c == '\r' || c == ' '
    || c == '\U{A0}' || c == '\U{1680}' || '\U{2000}' <= c <= '\U{200A}'
    || c == '\U{2028}' || c == '\U{2029}' || c == '\U{202F}' || c == '\U{205F}'
    || c == '\U{3000}' || c == '\U{FEFF}'
  }

  /** Where `trim` starts: the first index at or after `i` that does not hold whitespace, or `|s|`. */
  function TrimStart(s: string, i: nat): (k: nat)
    requires i <= |s|
    ensures i <= k <= |s|
    ensures forall j :: i <= j < k ==> IsJsWhitespace(s[j])
    ensures k < |s| ==> !IsJsWhitespace(s[k])
    decreases |s| - i
  {
    if i < |s| && IsJsWhitespace(s[i]) then TrimStart(s, i + 1) else i
  }

  /** Where `trim` ends: the largest `e` in `k..n` with no whitespace just before it, or `k`. */
  function TrimEnd(s: string, k: nat, n: nat): (e: nat)
    requires k <= n <= |s|
    ensures k <= e <= n
    ensures forall j :: e <= j < n ==> IsJsWhitespace(s[j])
    ensures e > k ==> !IsJsWhitespace(s[e - 1])
    decreases n
  {
    if n > k && IsJsWhitespace(s[n - 1]) then TrimEnd(s, k, n - 1) else n
  }

  /**
   `String.prototype.trim`: the result is the unbroken stretch of `s` between
   its longest whitespace prefix and a whitespace suffix; it neither starts nor
   ends with whitespace, keeps every other character of `s`, and leaves
   unpadded text as it is.
   */
  function Trim(s: string): (t: string)
    ensures var k := TrimStart(s, 0);
      && k + |t| <= |s|
      && t == s[k..k + |t|]
      && forall j :: k + |t| <= j < |s| ==> IsJsWhitespace(s[j])
    ensures t != [] ==> !IsJsWhitespace(t[0]) && !IsJsWhitespace(t[|t| - 1])
    ensures forall c :: c in s && !IsJsWhitespace(c) ==> c in t
    ensures s == [] || (!IsJsWhitespace(s[0]) && !IsJsWhitespace(s[|s| - 1])) ==> t == s
  {
    var k := TrimStart(s, 0);
    var e := TrimEnd(s, k, |s|);
    var t := s[k..e];
    Stretch(s, k, e, t);
    t
  }

  /**
   The stretch `t == s[k..e]` with whitespace on both sides of it and none at
   its own ends keeps every other character of `s`.
   */
  lemma Stretch(s: string, k: nat, e: nat, t: string)
    requires k <= e <= |s| && t == s[k..e]
    requires forall i :: 0 <= i < k ==> IsJsWhitespace(s[i])
    requires forall i :: e <= i < |s| ==> IsJsWhitespace(s[i])
    requires k < |s| ==> !IsJsWhitespace(s[k])
    requires e > k ==> !IsJsWhitespace(s[e - 1])
    ensures k + |t| <= |s| && t == s[k..k + |t|]
    ensures forall j :: k + |t| <= j < |s| ==> IsJsWhitespace(s[j])
    ensures t != [] ==> !IsJsWhitespace(t[0]) && !IsJsWhitespace(t[|t| - 1])
    ensures forall c :: c in s && !IsJsWhitespace(c) ==> c in t
    ensures s == [] || (!IsJsWhitespace(s[0]) && !IsJsWhitespace(s[|s| - 1])) ==> t == s
  {
    assert t != [] ==> t[0] == s[k] && t[|t| - 1] == s[e - 1];
    forall c | c in s && !IsJsWhitespace(c)
      ensures c in t
    {
      var p :| 0 <= p < |s| && s[p] == c;
      assert t[p - k] == c;
    }
  }

  /**
   `trim` is the only stretch of `s` that has whitespace on both sides of it
   and none at its own ends: any such `s[i..j]` is `Trim(s)`.
   */
  lemma TrimIsTheStretch(s: string, i: nat, j: nat)
    requires i <= j <= |s|
    requires forall p :: 0 <= p < i ==> IsJsWhitespace(s[p])
    requires forall p :: j <= p < |s| ==> IsJsWhitespace(s[p])
    requires i < j ==> !IsJsWhitespace(s[i]) && !IsJsWhitespace(s[j - 1])
    requires i == j ==> forall p :: 0 <= p < |s| ==> IsJsWhitespace(s[p])
    ensures Trim(s) == s[i..j]
  {
    var t := Trim(s);
    var k := TrimStart(s, 0);
    var e := k + |t|;
    assert t != [] ==> t[0] == s[k] && t[|t| - 1] == s[e - 1];
    if i < j {
      assert k == i;
      assert e == j;
    }
  }

  /** Where `split(" ")` cuts first: the index of the first space, or the length when there is none. */
  function SpaceIndex(s: string): (k: nat)
    ensures k <= |s|
    ensures forall i :: 0 <= i < k ==> s[i] != ' '
    ensures k < |s| ==> s[k] == ' '
  {
    if s == [] || s[0] == ' ' then 0 else 1 + SpaceIndex(s[1..])
  }

  /** `split(" ")[0]`: the longest prefix of `s` that holds no space. */
  function FirstSegment(s: string): (w: string)
    ensures w <= s && ' ' !in w
    ensures |w| == |s| || s[|w|] == ' '
  {
    s[..SpaceIndex(s)]
  }

  /** The text after the replacement and the trim, from which the first word is taken. */
  function Cleaned(text: string): (r: string)
    ensures forall c :: c in r ==> IsKept(c) && c in text
    ensures r == [] || (r[0] != ' ' && r[|r| - 1] != ' ')
  {
    Trim(Filter(IsKept, text))
  }

  /** The word the `AI` branch answers with. */
  function Normalize(text: string): (w: string)
    ensures forall c :: c in w ==> IsAsciiLetter(c) && c in text
  {
    var t := Cleaned(text);
    var w := FirstSegment(t);
    assert forall i :: 0 <= i < |w| ==> w[i] == t[i] && t[i] in t;
    w
  }

  /**
   The answer holds only ASCII letters, is the longest space-free prefix of the
   cleaned text, and is empty exactly when the reply holds no ASCII letter.
   */
  lemma NormalizeSpec(text: string)
    ensures forall c :: c in Normalize(text) ==> IsAsciiLetter(c)
    ensures Normalize(text) <= Cleaned(text) && ' ' !in Normalize(text)
    ensures |Normalize(text)| == |Cleaned(text)| || Cleaned(text)[|Normalize(text)|] == ' '
    ensures Normalize(text) == [] <==> forall c :: c in text ==> !IsAsciiLetter(c)
  {
    if exists c :: c in text && IsAsciiLetter(c) {
      var c :| c in text && IsAsciiLetter(c);
      LetterGivesWord(text, c);
    }
  }

  /** A letter anywhere in the reply survives the cleaning, so the first word is not empty. */
  lemma LetterGivesWord(text: string, c: char)
    requires c in text && IsAsciiLetter(c)
    ensures Normalize(text) != []
  {
    var f := Filter(IsKept, text);
    var t := Cleaned(text);
    assert c in f;
    assert c in t;
    assert t[0] != ' ';
  }
}
