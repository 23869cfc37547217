/**
 * Text normalisation of the bag-of-words client: lower-casing, splitting on
 * whitespace and stripping everything that is not a letter or a digit. The
 * character classes are the ASCII ones of the C locale.
 */
module Text {

  /** isspace: blank, tab, newline, vertical tab, form feed, carriage return. */
  predicate IsSpace(c: char)
  {
    c == ' ' || c == '\t' || c == '\n' || c == '\U{B}' || c == '\U{C}' || c == '\r'
  }

  predicate IsUpper(c: char) { 'A' <= c <= 'Z' }

  predicate IsLower(c: char) { 'a' <= c <= 'z' }

  predicate IsDigit(c: char) { '0' <= c <= '9' }

  /** isalnum */
  predicate IsAlnum(c: char)
  {
    IsUpper(c) || IsLower(c) || IsDigit(c)
  }

  /** tolower: an upper-case letter becomes its lower-case letter; anything else is unchanged. */
  function ToLower(c: char): (d: char)
    ensures !IsUpper(d)
    ensures IsAlnum(d) == IsAlnum(c)
    ensures IsUpper(c) ==> IsLower(d) && d as int - c as int == 'a' as int - 'A' as int
    ensures !IsUpper(c) ==> d == c
  {
    if IsUpper(c) then (c as int + ('a' as int - 'A' as int)) as char else c
  }

  /** toLowerCase: every character through `ToLower`. */
  function ToLowerCase(s: string): (r: string)
    ensures |r| == |s|
    ensures forall i :: 0 <= i < |s| ==> r[i] == ToLower(s[i])
  {
    if s == [] then [] else [ToLower(s[0])] + ToLowerCase(s[1..])
  }

  /** Lower-casing leaves no upper-case letter and is idempotent. */
  lemma LowerCaseIdempotent(s: string)
    ensures forall c :: c in ToLowerCase(s) ==> !IsUpper(c)
    ensures ToLowerCase(ToLowerCase(s)) == ToLowerCase(s)
  {
  }

  /** The letters and digits of `w`, in order (the remove_if/erase idiom). */
  function KeepAlnum(w: string): (r: string)
    ensures |r| <= |w|
    ensures forall c :: c in r <==> c in w && IsAlnum(c)
  {
    if w == [] then []
    else if IsAlnum(w[0]) then [w[0]] + KeepAlnum(w[1..])
    else KeepAlnum(w[1..])
  }

  /** Every letter and digit is kept as often as it occurs, and nothing else is kept. */
  lemma {:induction false} KeepAlnumCounts(w: string)
    ensures forall c :: multiset(KeepAlnum(w))[c] == if IsAlnum(c) then multiset(w)[c] else 0
  {
    if w != [] {
      KeepAlnumCounts(w[1..]);
      assert w == [w[0]] + w[1..];
    }
  }

  /** Length of the longest prefix of `s` without whitespace. */
  function WordLength(s: string): (n: nat)
    ensures n <= |s|
    ensures forall i :: 0 <= i < n ==> !IsSpace(s[i])
    ensures n < |s| ==> IsSpace(s[n])
  {
    if s == [] || IsSpace(s[0]) then 0 else 1 + WordLength(s[1..])
  }

  /** A whitespace-free prefix ending at whitespace or at the end is the longest one. */
  lemma {:induction false} WordLengthUnique(s: string, n: nat)
    requires n <= |s|
    requires forall i :: 0 <= i < n ==> !IsSpace(s[i])
    requires n < |s| ==> IsSpace(s[n])
    ensures WordLength(s) == n
  {
    if n > 0 {
      WordLengthUnique(s[1..], n - 1);
    }
  }

  /** A non-empty run of non-whitespace characters. */
  predicate IsWord(w: string)
  {
    |w| > 0 && forall i :: 0 <= i < |w| ==> !IsSpace(w[i])
  }

  /** The whitespace-separated words of `s`, as extracted by `stream >> word`. */
  function Words(s: string): (ws: seq<string>)
    ensures forall i :: 0 <= i < |ws| ==> IsWord(ws[i])
    decreases |s|
  {
    if s == [] then []
    else if IsSpace(s[0]) then Words(s[1..])
    else
      var n := WordLength(s);
      [s[..n]] + Words(s[n..])
  }

  /** Words joined by single blanks. */
  function Join(ws: seq<string>): string
  {
    if ws == [] then []
    else if |ws| == 1 then ws[0]
    else ws[0] + [' '] + Join(ws[1..])
  }

  /** A word followed by whitespace or by nothing is read as that word. */
  lemma WordsOfWordThen(w: string, rest: string)
    requires IsWord(w)
    requires rest == [] || IsSpace(rest[0])
    ensures Words(w + rest) == [w] + Words(rest)
  {
    var s := w + rest;
    WordLengthUnique(s, |w|);
    assert s[..|w|] == w;
    assert s[|w|..] == rest;
  }

  /** Splitting undoes joining: words separated by blanks are read back as they were. */
  lemma {:induction false} WordsOfJoin(ws: seq<string>)
    requires forall i :: 0 <= i < |ws| ==> IsWord(ws[i])
    ensures Words(Join(ws)) == ws
  {
    if |ws| == 1 {
      assert Join(ws) == ws[0] + [];
      WordsOfWordThen(ws[0], []);
    } else if |ws| > 1 {
      var rest := Join(ws[1..]);
      assert Join(ws) == ws[0] + ([' '] + rest);
      assert Words(Join(ws)) == [ws[0]] + Words(rest) by {
        WordsOfWordThen(ws[0], [' '] + rest);
        assert ([' '] + rest)[1..] == rest;
      }
      WordsOfJoin(ws[1..]);
      assert ws == [ws[0]] + ws[1..];
    }
  }

  /** A token: non-empty, only lower-case letters and digits. */
  predicate IsToken(t: string)
  {
    |t| > 0 && forall i :: 0 <= i < |t| ==> IsAlnum(t[i]) && !IsUpper(t[i])
  }

  /** The token a word yields: its letters and digits, lower-cased. */
  function CleanWord(w: string): string
  {
    ToLowerCase(KeepAlnum(w))
  }

  /** Whether a word still has a letter or digit. */
  predicate HasAlnum(w: string)
  {
    exists i :: 0 <= i < |w| && IsAlnum(w[i])
  }

  /** What one word contributes: its token, or nothing when no letter or digit is left. */
  function TokenOfWord(w: string): (ts: seq<string>)
    ensures |ts| <= 1
    ensures forall i :: 0 <= i < |ts| ==> IsToken(ts[i])
  {
    var kept := KeepAlnum(w);
    if kept == [] then [] else [ToLowerCase(kept)]
  }

  /** One token per word that has a letter or digit; words without one are dropped. */
  function TokensOf(ws: seq<string>): (ts: seq<string>)
    ensures |ts| <= |ws|
    ensures forall i :: 0 <= i < |ts| ==> IsToken(ts[i])
  {
    if ws == [] then [] else TokenOfWord(ws[0]) + TokensOf(ws[1..])
  }

  /** tokenize, as a function of the text. */
  function Tokens(text: string): (ts: seq<string>)
    ensures forall i :: 0 <= i < |ts| ==> IsToken(ts[i])
  {
    TokensOf(Words(text))
  }

  /** Number of words that have a letter or digit. */
  function CountWithAlnum(ws: seq<string>): nat
  {
    if ws == [] then 0 else (if HasAlnum(ws[0]) then 1 else 0) + CountWithAlnum(ws[1..])
  }

  lemma KeptIffHasAlnum(w: string)
    ensures KeepAlnum(w) != [] <==> HasAlnum(w)
  {
    if HasAlnum(w) {
      var i :| 0 <= i < |w| && IsAlnum(w[i]);
      assert w[i] in KeepAlnum(w);
    }
  }

  /**
   * Tokens follow their words: there is one token per word with a letter or
   * digit, and the token of word `i` comes after those of the earlier words.
   */
  lemma {:induction false} TokensFollowWords(ws: seq<string>)
    ensures |TokensOf(ws)| == CountWithAlnum(ws)
    ensures forall i :: 0 <= i < |ws| && HasAlnum(ws[i]) ==>
      CountWithAlnum(ws[..i]) < |TokensOf(ws)| && TokensOf(ws)[CountWithAlnum(ws[..i])] == CleanWord(ws[i])
  {
    if ws != [] {
      TokensFollowWords(ws[1..]);
      KeptIffHasAlnum(ws[0]);
      forall i | 0 <= i < |ws| && HasAlnum(ws[i])
        ensures CountWithAlnum(ws[..i]) < |TokensOf(ws)| && TokensOf(ws)[CountWithAlnum(ws[..i])] == CleanWord(ws[i])
      {
        if i == 0 {
          assert ws[..0] == [];
        } else {
          assert ws[..i][1..] == ws[1..][..i - 1];
          assert ws[..i][0] == ws[0];
          assert ws[1..][i - 1] == ws[i];
        }
      }
    }
  }

  /** All characters of the token sequence, in order. */
  function Concat(ts: seq<string>): string
  {
    if ts == [] then [] else ts[0] + Concat(ts[1..])
  }

  /** Stripping a concatenation strips each part in turn, so the kept characters stay in order. */
  lemma {:induction false} KeepAlnumAppend(a: string, b: string)
    ensures KeepAlnum(a + b) == KeepAlnum(a) + KeepAlnum(b)
  {
    if a == [] {
      assert a + b == b;
    } else {
      assert (a + b)[1..] == a[1..] + b;
      KeepAlnumAppend(a[1..], b);
    }
  }

  lemma ToLowerCaseAppend(a: string, b: string)
    ensures ToLowerCase(a + b) == ToLowerCase(a) + ToLowerCase(b)
  {
  }

  /** Splitting loses only whitespace, which holds no letter or digit. */
  lemma {:induction false} WordsKeepAlnum(s: string)
    ensures KeepAlnum(Concat(Words(s))) == KeepAlnum(s)
    decreases |s|
  {
    if s != [] {
      if IsSpace(s[0]) {
        WordsKeepAlnum(s[1..]);
      } else {
        var n := WordLength(s);
        var ws := Words(s);
        assert ws[0] == s[..n] && ws[1..] == Words(s[n..]);
        WordsKeepAlnum(s[n..]);
        KeepAlnumAppend(s[..n], Concat(Words(s[n..])));
        KeepAlnumAppend(s[..n], s[n..]);
        assert s[..n] + s[n..] == s;
      }
    }
  }

  lemma {:induction false} TokensOfConcat(ws: seq<string>)
    ensures Concat(TokensOf(ws)) == ToLowerCase(KeepAlnum(Concat(ws)))
  {
    if ws != [] {
      TokensOfConcat(ws[1..]);
      KeepAlnumAppend(ws[0], Concat(ws[1..]));
      ToLowerCaseAppend(KeepAlnum(ws[0]), KeepAlnum(Concat(ws[1..])));
      ConcatAppend(TokenOfWord(ws[0]), TokensOf(ws[1..]));
    }
  }

  lemma {:induction false} ConcatAppend(a: seq<string>, b: seq<string>)
    ensures Concat(a + b) == Concat(a) + Concat(b)
  {
    if a == [] {
      assert a + b == b;
    } else {
      assert (a + b)[1..] == a[1..] + b;
      ConcatAppend(a[1..], b);
    }
  }

  /** The tokens, laid end to end, are the text's letters and digits, lower-cased, in order. */
  lemma TokensSpellText(text: string)
    ensures Concat(Tokens(text)) == ToLowerCase(KeepAlnum(text))
  {
    TokensOfConcat(Words(text));
    WordsKeepAlnum(text);
  }

  /** Whitespace at position `i` yields no token. */
  lemma TokensAtSpace(text: string, i: nat)
    requires i < |text| && IsSpace(text[i])
    ensures Tokens(text[i..]) == Tokens(text[i + 1..])
  {
    assert text[i..][1..] == text[i + 1..];
  }

  /** The word at positions `i` to `j` yields its own token, if any, before the rest. */
  lemma TokensAtWord(text: string, i: nat, j: nat)
    requires i < |text| && !IsSpace(text[i])
    requires i <= j <= |text| && j - i == WordLength(text[i..])
    ensures Tokens(text[i..]) == TokenOfWord(text[i..j]) + Tokens(text[j..])
  {
    var s := text[i..];
    var ws := Words(s);
    assert s[..j - i] == text[i..j];
    assert s[j - i..] == text[j..];
    assert ws[0] == text[i..j] && ws[1..] == Words(text[j..]);
  }

  /** The end of the whitespace-free run starting at `i`, as `stream >> word` finds it. */
  method ScanWord(text: string, i: nat) returns (j: nat)
    requires i <= |text|
    ensures j - i == WordLength(text[i..]) && i <= j <= |text|
  {
    j := i;
    while j < |text| && !IsSpace(text[j])
      invariant i <= j <= |text|
      invariant forall m :: i <= m < j ==> !IsSpace(text[m])
    {
      j := j + 1;
    }
    WordLengthUnique(text[i..], j - i);
  }

  /**
   * tokenize: reads whitespace-separated words left to right, strips each of
   * everything but letters and digits, and keeps the lower-cased remainder
   * when it is not empty.
   */
  method Tokenize(text: string) returns (words: seq<string>)
    ensures words == Tokens(text)
    ensures forall k :: 0 <= k < |words| ==> IsToken(words[k])
  {
    words := [];
    var i := 0;
    while i < |text|
      invariant 0 <= i <= |text|
      invariant Tokens(text) == words + Tokens(text[i..])
    {
      if IsSpace(text[i]) {
        TokensAtSpace(text, i);
        i := i + 1;
      } else {
        var j := ScanWord(text, i);
        TokensAtWord(text, i, j);
        words := words + TokenOfWord(text[i..j]);
        i := j;
      }
    }
    assert text[i..] == [];
  }
}
