/**
 * Character-level string helpers behind the name accessors, the search form
 * normalisation and the case-insensitive airport match. Strings are sequences
 * of Unicode scalar values; case mapping covers the ASCII letters only.
 */
module Text {

  /** Python's `str.isspace()` for a single character. */
  predicate IsSpace(c: char) {
    || c == ' '
    || '\t' <= c <= '\r'
    || '\U{1c}' <= c <= '\U{1f}'
    || c == '\U{85}' || c == '\U{a0}' || c == '\U{1680}'
    || '\U{2000}' <= c <= '\U{200a}'
    || c == '\U{2028}' || c == '\U{2029}' || c == '\U{202f}'
    || c == '\U{205f}' || c == '\U{3000}'
  }

  predicate NoSpace(s: string) {
    forall i :: 0 <= i < |s| ==> !IsSpace(s[i])
  }

  /** One element of `str.split()`: a non-empty run of non-whitespace characters. */
  predicate IsToken(w: string) {
    |w| > 0 && NoSpace(w)
  }

  /** The characters of `s` that are not whitespace, in order. */
  function NonSpace(s: string): string {
    if s == [] then []
    else if IsSpace(s[0]) then NonSpace(s[1..])
    else [s[0]] + NonSpace(s[1..])
  }

  // ---------------------------------------------------------------- strip

  function TrimLeft(s: string): (r: string)
    ensures |r| <= |s| && r == s[|s| - |r|..]
    ensures forall i :: 0 <= i < |s| - |r| ==> IsSpace(s[i])
    ensures r == [] || !IsSpace(r[0])
  {
    if |s| > 0 && IsSpace(s[0]) then TrimLeft(s[1..]) else s
  }

  function TrimRight(s: string): (r: string)
    ensures |r| <= |s| && r == s[..|r|]
    ensures forall i :: |r| <= i < |s| ==> IsSpace(s[i])
    ensures r == [] || !IsSpace(r[|r| - 1])
  {
    if |s| > 0 && IsSpace(s[|s| - 1]) then TrimRight(s[..|s| - 1]) else s
  }

  /**
   * Python's `str.strip()`: the slice of `s` left after removing the leading
   * and trailing whitespace, and nothing else.
   */
  function Strip(s: string): (r: string)
    ensures r == [] || (!IsSpace(r[0]) && !IsSpace(r[|r| - 1]))
    ensures var k := |s| - |TrimLeft(s)|;
      && k + |r| <= |s| && r == s[k..k + |r|]
      && (forall i :: 0 <= i < k ==> IsSpace(s[i]))
      && (forall i :: k + |r| <= i < |s| ==> IsSpace(s[i]))
  {
    TrimRight(TrimLeft(s))
  }

  // ----------------------------------------------------------- case mapping

  function UpperChar(c: char): char {
    if 'a' <= c <= 'z' then (c as int - 32) as char else c
  }

  function LowerChar(c: char): char {
    if 'A' <= c <= 'Z' then (c as int + 32) as char else c
  }

  /** `str.upper()` restricted to ASCII letters. */
  function Upper(s: string): (r: string)
    ensures |r| == |s|
    ensures forall i :: 0 <= i < |s| ==> r[i] == UpperChar(s[i])
  {
    seq(|s|, i requires 0 <= i < |s| => UpperChar(s[i]))
  }

  /** SQL `lower()` restricted to ASCII letters. */
  function Lower(s: string): (r: string)
    ensures |r| == |s|
    ensures forall i :: 0 <= i < |s| ==> r[i] == LowerChar(s[i])
  {
    seq(|s|, i requires 0 <= i < |s| => LowerChar(s[i]))
  }

  /** Upper-casing first loses nothing that a later lower-casing would keep. */
  lemma LowerOfUpper(s: string)
    ensures Lower(Upper(s)) == Lower(s)
    ensures forall i :: 0 <= i < |s| ==> !('a' <= Upper(s)[i] <= 'z')
  {
  }

  // -------------------------------------------------------------- substring

  /** `sub` occurs in `s` starting at index `i`. */
  predicate OccursAt(s: string, sub: string, i: int) {
    0 <= i && i + |sub| <= |s| && s[i..i + |sub|] == sub
  }

  /** Substring test, the meaning of SQL `LIKE '%sub%'` without wildcards in `sub`. */
  predicate Contains(s: string, sub: string)
    decreases |s|
  {
    if |sub| > |s| then false
    else if s[..|sub|] == sub then true
    else |s| > 0 && Contains(s[1..], sub)
  }

  lemma {:induction false} ContainsIffOccurs(s: string, sub: string)
    ensures Contains(s, sub) <==> exists i :: OccursAt(s, sub, i)
    decreases |s|
  {
    if |sub| > |s| {
      forall i | OccursAt(s, sub, i) ensures false { }
    } else if s[..|sub|] == sub {
      assert OccursAt(s, sub, 0);
    } else {
      ContainsIffOccurs(s[1..], sub);
      if Contains(s[1..], sub) {
        var i :| OccursAt(s[1..], sub, i);
        assert s[1..][i..i + |sub|] == s[i + 1..i + 1 + |sub|];
        assert OccursAt(s, sub, i + 1);
      }
      forall i | OccursAt(s, sub, i) ensures Contains(s[1..], sub) {
        assert i != 0;
        assert s[1..][i - 1..i - 1 + |sub|] == s[i..i + |sub|];
        assert OccursAt(s[1..], sub, i - 1);
      }
    }
  }

  /** SQL `lower(column) LIKE lower('%pattern%')`, the translation of `ilike` for a pattern without wildcards. */
  predicate ILikeContains(column: string, pattern: string) {
    Contains(Lower(column), Lower(pattern))
  }

  // ------------------------------------------------------------------ split

  /** The leading run of non-whitespace characters of `s`. */
  function TakeWord(s: string): (w: string)
    ensures |w| <= |s| && w == s[..|w|]
    ensures NoSpace(w)
    ensures |w| == |s| || IsSpace(s[|w|])
  {
    if s == [] || IsSpace(s[0]) then [] else [s[0]] + TakeWord(s[1..])
  }

  /** Python's `str.split()` with no separator: the maximal whitespace-free runs, in order. */
  function Split(s: string): seq<string>
    decreases |s|
  {
    if s == [] then []
    else if IsSpace(s[0]) then Split(s[1..])
    else
      var w := TakeWord(s);
      [w] + Split(s[|w|..])
  }

  /** Every element of `Split(s)` is a token. */
  lemma {:induction false} SplitTokens(s: string)
    ensures forall k :: 0 <= k < |Split(s)| ==> IsToken(Split(s)[k])
    decreases |s|
  {
    if s == [] {
    } else if IsSpace(s[0]) {
      SplitTokens(s[1..]);
    } else {
      var w := TakeWord(s);
      assert s[0] == w[0];
      SplitTokens(s[|w|..]);
      assert Split(s) == [w] + Split(s[|w|..]);
    }
  }

  /** `' '.join(tokens)`. */
  function Join(tokens: seq<string>): string {
    if tokens == [] then ""
    else if |tokens| == 1 then tokens[0]
    else tokens[0] + " " + Join(tokens[1..])
  }

  function Concat(tokens: seq<string>): string {
    if tokens == [] then "" else tokens[0] + Concat(tokens[1..])
  }

  lemma {:induction false} TakeWordOfToken(w: string, rest: string)
    requires NoSpace(w)
    requires rest == [] || IsSpace(rest[0])
    ensures TakeWord(w + rest) == w
  {
    if w == [] {
      assert w + rest == rest;
    } else {
      assert (w + rest)[1..] == w[1..] + rest;
      TakeWordOfToken(w[1..], rest);
    }
  }

  /** A token followed by whitespace (or nothing) is split off as the first element. */
  lemma SplitToken(w: string, rest: string)
    requires IsToken(w)
    requires rest == [] || IsSpace(rest[0])
    ensures Split(w + rest) == [w] + Split(rest)
  {
    assert (w + rest)[0] == w[0];
    TakeWordOfToken(w, rest);
    assert (w + rest)[|w|..] == rest;
  }

  lemma SplitSingle(w: string)
    requires IsToken(w)
    ensures Split(w) == [w]
  {
    TakeWordOfToken(w, []);
    assert w + [] == w;
    assert w[|w|..] == [];
  }

  lemma SplitSpace(c: char, s: string)
    requires IsSpace(c)
    ensures Split([c] + s) == Split(s)
  {
    assert ([c] + s)[1..] == s;
  }

  lemma SplitTokenBeforeSpace(w: string, rest: string)
    requires IsToken(w)
    ensures Split(w + ([' '] + rest)) == [w] + Split([' '] + rest)
  {
    var spaced := [' '] + rest;
    assert spaced[0] == ' ';
    SplitToken(w, spaced);
  }

  /** A token, one blank, then anything: the token comes first and the blank vanishes. */
  lemma SplitTokenSpace(w: string, rest: string)
    requires IsToken(w)
    ensures Split(w + ([' '] + rest)) == [w] + Split(rest)
  {
    SplitTokenBeforeSpace(w, rest);
    SplitSpace(' ', rest);
  }

  /** Splitting undoes joining: `' '.join(ts).split() == ts` for any list of tokens. */
  lemma {:induction false} SplitJoin(tokens: seq<string>)
    requires forall k :: 0 <= k < |tokens| ==> IsToken(tokens[k])
    ensures Split(Join(tokens)) == tokens
  {
    if tokens == [] {
    } else if |tokens| == 1 {
      SplitSingle(tokens[0]);
      assert tokens == [tokens[0]];
    } else {
      var w, rest := tokens[0], Join(tokens[1..]);
      assert Join(tokens) == w + ([' '] + rest);
      SplitTokenSpace(w, rest);
      SplitJoin(tokens[1..]);
      assert tokens == [w] + tokens[1..];
    }
  }

  lemma {:induction false} NonSpaceOfWord(s: string)
    ensures NonSpace(s) == TakeWord(s) + NonSpace(s[|TakeWord(s)|..])
  {
    if s != [] && !IsSpace(s[0]) {
      NonSpaceOfWord(s[1..]);
      assert s[1..][|TakeWord(s[1..])|..] == s[|TakeWord(s)|..];
    }
  }

  /** The tokens hold every non-whitespace character of `s`, in order, and nothing else. */
  lemma {:induction false} ConcatSplit(s: string)
    ensures Concat(Split(s)) == NonSpace(s)
    decreases |s|
  {
    if s == [] {
    } else if IsSpace(s[0]) {
      ConcatSplit(s[1..]);
    } else {
      var w := TakeWord(s);
      NonSpaceOfWord(s);
      ConcatSplit(s[|w|..]);
      assert Split(s) == [w] + Split(s[|w|..]);
    }
  }

  /** When the first token is absent, `s` is all whitespace. */
  lemma {:induction false} SplitEmpty(s: string)
    ensures Split(s) == [] <==> forall i :: 0 <= i < |s| ==> IsSpace(s[i])
    decreases |s|
  {
    if s != [] && IsSpace(s[0]) {
      SplitEmpty(s[1..]);
      assert forall i :: 1 <= i < |s| ==> s[i] == s[1..][i - 1];
    }
  }

  /** The first token is the leading word once the leading whitespace is gone. */
  lemma {:induction false} SplitFirst(s: string)
    ensures Split(s) == [] <==> TrimLeft(s) == []
    ensures Split(s) != [] ==> Split(s)[0] == TakeWord(TrimLeft(s))
    decreases |s|
  {
    if s != [] && IsSpace(s[0]) {
      SplitFirst(s[1..]);
    }
  }
}
