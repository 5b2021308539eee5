// The quoting of base/string/utils.c, on strings ended by a NUL.
module Quoting {

  const NUL := '\0'

  /** a holds the string s, and its terminator. */
  ghost predicate IsString(a: array<char>, s: seq<char>)
    reads a
  {
    NUL !in s && |s| < a.Length && a[|s|] == NUL && forall i :: 0 <= i < |s| ==> a[i] == s[i]
  }

  predicate Quotes(c: char, orig: char, quote: char, quoteQuote: bool) {
    c == orig || (c == quote && quoteQuote)
  }

  function Quote(s: seq<char>, orig: char, quote: char, quoteQuote: bool): seq<char> {
    if s == [] then []
    else
      (if Quotes(s[0], orig, quote, quoteQuote) then [quote, s[0]] else [s[0]]) + Quote(s[1..], orig, quote, quoteQuote)
  }

  // Two characters that stand for the second.
  predicate IsPair(s: seq<char>, i: nat, orig: char, quote: char) {
    i + 1 < |s| && s[i] == quote && (s[i + 1] == orig || s[i + 1] == quote)
  }

  function Unquote(s: seq<char>, orig: char, quote: char): (r: seq<char>)
    ensures |r| <= |s|
  {
    if s == [] then []
    else if IsPair(s, 0, orig, quote) then [s[1]] + Unquote(s[2..], orig, quote)
    else [s[0]] + Unquote(s[1..], orig, quote)
  }

  /** Unquoting undoes quoting, on every string. */
  lemma {:induction false} QuotedIsUnquoted(s: seq<char>, orig: char, quote: char)
    ensures Unquote(Quote(s, orig, quote, true), orig, quote) == s
  {
    if s != [] {
      var rest := Quote(s[1..], orig, quote, true);
      QuotedIsUnquoted(s[1..], orig, quote);
      if Quotes(s[0], orig, quote, true) {
        var t := [quote, s[0]] + rest;
        assert t[2..] == rest;
      } else {
        var t := [s[0]] + rest;
        assert t[1..] == rest;
      }
    }
  }

  /** Exactly the strings without a pair are left as they are; the others get
      shorter. */
  lemma {:induction false} UnquoteShortens(s: seq<char>, orig: char, quote: char)
    ensures |Unquote(s, orig, quote)| == |s| <==> Unquote(s, orig, quote) == s
    ensures Unquote(s, orig, quote) == s <==>
      forall i: nat :: i + 1 < |s| && s[i] == quote ==> s[i + 1] != orig && s[i + 1] != quote
  {
    UnquoteKeeps(s, orig, quote);
    if Unquote(s, orig, quote) != s {
      var i: nat :| IsPair(s, i, orig, quote);
      assert i + 1 < |s| && s[i] == quote;
    } else {
      forall i: nat | i + 1 < |s| && s[i] == quote ensures s[i + 1] != orig && s[i + 1] != quote {
        assert !IsPair(s, i, orig, quote);
      }
    }
  }

  /** The first pair gives its second character, and unquoting goes on behind it. */
  lemma {:induction false} UnquoteFirst(a: seq<char>, c: char, b: seq<char>, orig: char, quote: char)
    requires c == orig || c == quote
    requires forall i: nat :: i < |a| && a[i] == quote ==>
      (a + [quote])[i + 1] != orig && (a + [quote])[i + 1] != quote
    ensures Unquote(a + [quote, c] + b, orig, quote) == a + [c] + Unquote(b, orig, quote)
  {
    var s := a + [quote, c] + b;
    if a == [] {
      assert s[2..] == b;
    } else {
      assert s[1..] == a[1..] + [quote, c] + b;
      assert s[1] == (a + [quote])[1];
      assert !IsPair(s, 0, orig, quote);
      forall i: nat | i < |a[1..]| && a[1..][i] == quote
        ensures (a[1..] + [quote])[i + 1] != orig && (a[1..] + [quote])[i + 1] != quote
      {
        assert a[i + 1] == quote && (a + [quote])[i + 2] == (a[1..] + [quote])[i + 1];
      }
      UnquoteFirst(a[1..], c, b, orig, quote);
      assert a == [a[0]] + a[1..];
    }
  }

  lemma {:induction false} UnquoteKeeps(s: seq<char>, orig: char, quote: char)
    ensures |Unquote(s, orig, quote)| == |s| <==> Unquote(s, orig, quote) == s
    ensures Unquote(s, orig, quote) == s <==> forall i: nat :: !IsPair(s, i, orig, quote)
  {
    if s != [] {
      if IsPair(s, 0, orig, quote) {
        assert |Unquote(s, orig, quote)| < |s|;
      } else {
        UnquoteKeeps(s[1..], orig, quote);
        forall i: nat ensures IsPair(s, i + 1, orig, quote) <==> IsPair(s[1..], i, orig, quote) {
        }
        if forall i: nat :: !IsPair(s[1..], i, orig, quote) {
          forall i: nat ensures !IsPair(s, i, orig, quote) {
            if i > 0 {
              assert IsPair(s, i, orig, quote) <==> IsPair(s[1..], i - 1, orig, quote);
            }
          }
        } else {
          var i: nat :| IsPair(s[1..], i, orig, quote);
          assert IsPair(s, i + 1, orig, quote);
        }
      }
    }
  }

  function Count(s: seq<char>, c1: char, c2: char): nat {
    if s == [] then 0 else Count(s[..|s| - 1], c1, c2) + if s[|s| - 1] == c1 || s[|s| - 1] == c2 then 1 else 0
  }

  lemma {:induction false} CountFirst(s: seq<char>, c1: char, c2: char)
    requires s != []
    ensures Count(s, c1, c2) == (if s[0] == c1 || s[0] == c2 then 1 else 0) + Count(s[1..], c1, c2)
  {
    if |s| > 1 {
      var init := s[..|s| - 1];
      CountFirst(init, c1, c2);
      assert s[1..][..|s| - 2] == init[1..];
    } else {
      assert s[1..] == [] && s[..0] == [];
    }
  }

  /** The length of the quoted string. */
  lemma {:induction false} QuotedLength(s: seq<char>, orig: char, quote: char)
    ensures |Quote(s, orig, quote, true)| == |s| + Count(s, orig, quote)
  {
    if s != [] {
      QuotedLength(s[1..], orig, quote);
      CountFirst(s, orig, quote);
    }
  }

  lemma QuotedHasNoNul(s: seq<char>, orig: char, quote: char, quoteQuote: bool)
    requires NUL !in s && quote != NUL
    ensures NUL !in Quote(s, orig, quote, quoteQuote)
  {
  }

  /** _count_chars */
  method CountChars(str: array<char>, ghost s: seq<char>, len: nat, count: nat, c1: char, c2: char)
    returns (len': nat, count': nat)
    requires IsString(str, s)
    ensures len' == len + |s| && count' == count + Count(s, c1, c2)
  {
    len', count' := len, count;
    var i := 0;
    while str[i] != NUL
      invariant i <= |s| && len' == len + i && count' == count + Count(s[..i], c1, c2)
      decreases |s| - i
    {
      assert s[..i + 1][..i] == s[..i];
      if str[i] == c1 || str[i] == c2 {
        count' := count' + 1;
      }
      len' := len' + 1;
      i := i + 1;
    }
    assert s[..i] == s;
  }

  /** dm_escaped_len: exactly the room that dm_escape_double_quotes takes. */
  method EscapedLen(str: array<char>, ghost s: seq<char>) returns (n: nat)
    requires IsString(str, s)
    ensures n == |Quote(s, '\"', '\\', true)| + 1
  {
    QuotedLength(s, '\"', '\\');
    var len, count := CountChars(str, s, 1, 0, '\"', '\\');
    n := count + len;
  }

  lemma {:induction false} QuoteJoin(s: seq<char>, t: seq<char>, orig: char, quote: char, quoteQuote: bool)
    ensures Quote(s + t, orig, quote, quoteQuote) == Quote(s, orig, quote, quoteQuote) + Quote(t, orig, quote, quoteQuote)
  {
    if s == [] {
      assert s + t == t;
    } else {
      QuoteJoin(s[1..], t, orig, quote, quoteQuote);
      var first := if Quotes(s[0], orig, quote, quoteQuote) then [quote, s[0]] else [s[0]];
      var a, b := Quote(s[1..], orig, quote, quoteQuote), Quote(t, orig, quote, quoteQuote);
      assert (s + t)[1..] == s[1..] + t;
      assert first + (a + b) == (first + a) + b;
    }
  }

  /** Each character is copied; orig has quote before it, and so has quote itself
      if that is asked for. */
  lemma QuotedEach(s: seq<char>, c: char, t: seq<char>, orig: char, quote: char, quoteQuote: bool)
    ensures Quote(s + [c] + t, orig, quote, quoteQuote) == Quote(s, orig, quote, quoteQuote)
      + (if c == orig || (c == quote && quoteQuote) then [quote, c] else [c]) + Quote(t, orig, quote, quoteQuote)
    ensures Quote([], orig, quote, quoteQuote) == []
  {
    QuoteJoin(s + [c], t, orig, quote, quoteQuote);
    QuoteJoin(s, [c], orig, quote, quoteQuote);
    assert Quote([c][1..], orig, quote, quoteQuote) == [];
  }

  // The part of s that ends with its character i.
  lemma QuoteNext(s: seq<char>, i: nat, orig: char, quote: char, quoteQuote: bool)
    requires i < |s|
    ensures Quote(s[..i + 1], orig, quote, quoteQuote) ==
      Quote(s[..i], orig, quote, quoteQuote) + (if Quotes(s[i], orig, quote, quoteQuote) then [quote, s[i]] else [s[i]])
    ensures |Quote(s[..i + 1], orig, quote, quoteQuote)| <= |Quote(s, orig, quote, quoteQuote)|
  {
    assert s[..i + 1] == s[..i] + [s[i]] && s == s[..i + 1] + s[i + 1..];
    QuoteJoin(s[..i], [s[i]], orig, quote, quoteQuote);
    QuoteJoin(s[..i + 1], s[i + 1..], orig, quote, quoteQuote);
    assert Quote([s[i]][1..], orig, quote, quoteQuote) == [];
  }

  lemma QuoteNothing(orig: char, quote: char, quoteQuote: bool)
    ensures Quote([], orig, quote, quoteQuote) == []
  {
  }

  /** _quote_characters, from out[0] on: at is where *out is left. */
  method QuoteCharacters(out: array<char>, src: array<char>, ghost s: seq<char>, orig: char, quote: char,
      quoteQuote: bool)
    returns (at: nat)
    requires IsString(src, s) && out != src && |Quote(s, orig, quote, quoteQuote)| <= out.Length
    modifies out
    ensures at == |Quote(s, orig, quote, quoteQuote)| && out[..at] == Quote(s, orig, quote, quoteQuote)
    ensures forall i :: at <= i < out.Length ==> out[i] == old(out[i])
  {
    hide Quote;
    at := 0;
    var i := 0;
    QuoteNothing(orig, quote, quoteQuote);
    assert s[..0] == [] && out[..0] == [];
    while src[i] != NUL
      invariant i <= |s| && at <= out.Length && out[..at] == Quote(s[..i], orig, quote, quoteQuote)
      invariant forall k :: at <= k < out.Length ==> out[k] == old(out[k])
      decreases |s| - i
    {
      QuoteNext(s, i, orig, quote, quoteQuote);
      ghost var before := out[..at];
      if src[i] == orig || (src[i] == quote && quoteQuote) {
        out[at] := quote;
        at := at + 1;
      }
      out[at] := src[i];
      at := at + 1;
      assert out[..at] == before + if Quotes(s[i], orig, quote, quoteQuote) then [quote, s[i]] else [s[i]];
      i := i + 1;
    }
    assert s[..i] == s;
  }

  /** dm_escape_double_quotes: writes dm_escaped_len bytes and no more. */
  method EscapeDoubleQuotes(out: array<char>, src: array<char>, ghost s: seq<char>)
    requires IsString(src, s) && out != src && |Quote(s, '\"', '\\', true)| + 1 <= out.Length
    modifies out
    ensures IsString(out, Quote(s, '\"', '\\', true))
    ensures forall i :: |Quote(s, '\"', '\\', true)| + 1 <= i < out.Length ==> out[i] == old(out[i])
  {
    QuotedHasNoNul(s, '\"', '\\', true);
    var at := QuoteCharacters(out, src, s, '\"', '\\', true);
    out[at] := NUL;
    assert forall i :: 0 <= i < at ==> out[i] == out[..at][i];
  }

  // done is the unquoted form of s up to i, and a pair does not cross i.
  ghost predicate IsDone(s: seq<char>, i: nat, done: seq<char>, orig: char, quote: char) {
    i <= |s| && done + Unquote(s[i..], orig, quote) == Unquote(s, orig, quote)
  }

  lemma UnquoteNext(s: seq<char>, i: nat, done: seq<char>, orig: char, quote: char)
    requires IsDone(s, i, done, orig, quote) && i < |s|
    ensures if IsPair(s, i, orig, quote) then IsDone(s, i + 2, done + [s[i + 1]], orig, quote)
            else IsDone(s, i + 1, done + [s[i]], orig, quote)
  {
    var rest := s[i..];
    assert rest[1..] == s[i + 1..];
    if IsPair(s, i, orig, quote) {
      assert rest[2..] == s[i + 2..] && IsPair(rest, 0, orig, quote);
      assert (done + [s[i + 1]]) + Unquote(s[i + 2..], orig, quote) == done + Unquote(rest, orig, quote);
    } else {
      assert (done + [s[i]]) + Unquote(s[i + 1..], orig, quote) == done + Unquote(rest, orig, quote);
    }
  }

  lemma UnquoteEnds(s: seq<char>, done: seq<char>, orig: char, quote: char)
    ensures IsDone(s, 0, [], orig, quote)
    ensures IsDone(s, |s|, done, orig, quote) ==> done == Unquote(s, orig, quote)
  {
    assert s[0..] == s && s[|s|..] == [];
  }

  lemma UnquotedHasNoNul(s: seq<char>, orig: char, quote: char)
    requires NUL !in s
    ensures NUL !in Unquote(s, orig, quote)
  {
  }

  // src holds done, and from i on what is left of s.
  ghost predicate Holds(src: array<char>, s: seq<char>, i: nat, done: seq<char>)
    reads src
  {
    && |done| <= i <= |s| < src.Length && src[|s|] == NUL && NUL !in s
    && (forall k :: 0 <= k < |done| ==> src[k] == done[k])
    && (forall k :: i <= k < |s| ==> src[k] == s[k])
  }

  // The inner loop of _unquote_one_character.
  method Compact(src: array<char>, ghost s: seq<char>, at: nat, i: nat, ghost done: seq<char>, orig: char, quote: char)
    requires orig != NUL && quote != NUL && at < i && at == |done|
    requires Holds(src, s, i, done) && IsDone(s, i, done, orig, quote)
    modifies src
    ensures IsString(src, Unquote(s, orig, quote))
  {
    hide Unquote, IsDone;
    var at, i := at, i;
    ghost var done := done;
    while src[i] != NUL
      invariant at == |done| < i && Holds(src, s, i, done) && IsDone(s, i, done, orig, quote)
      decreases |s| - i
    {
      UnquoteNext(s, i, done, orig, quote);
      var c := src[i];
      i := i + 1;
      if c == quote && (src[i] == orig || src[i] == quote) {
        c := src[i];
        i := i + 1;
      }
      src[at] := c;
      at := at + 1;
      done := done + [c];
    }
    UnquoteEnds(s, done, orig, quote);
    UnquotedHasNoNul(s, orig, quote);
    src[at] := NUL;
  }

  /** _unquote_one_character, in place */
  method UnquoteOneCharacter(src: array<char>, ghost s: seq<char>, orig: char, quote: char)
    requires IsString(src, s) && orig != NUL && quote != NUL
    modifies src
    ensures IsString(src, Unquote(s, orig, quote))
  {
    hide Unquote, IsDone;
    var i := 0;
    UnquoteEnds(s, s, orig, quote);
    ghost var done: seq<char> := [];
    while src[i] != NUL
      invariant i <= |s| && IsString(src, s) && done == s[..i] && IsDone(s, i, done, orig, quote)
      decreases |s| - i
    {
      UnquoteNext(s, i, done, orig, quote);
      if src[i] == quote && (src[i + 1] == orig || src[i + 1] == quote) {
        var n := src[i + 1];
        src[i] := n;
        Compact(src, s, i + 1, i + 2, done + [n], orig, quote);
        return;
      }
      i := i + 1;
      done := s[..i];
      assert done == s[..i - 1] + [s[i - 1]];
    }
    assert s[..i] == s;
  }

  /** dm_unescape_double_quotes after dm_escape_double_quotes gives every string
      back, in the buffer that held its escaped form. */
  method EscapeThenUnescape(out: array<char>, src: array<char>, ghost s: seq<char>)
    requires IsString(src, s) && out != src && |Quote(s, '\"', '\\', true)| + 1 <= out.Length
    modifies out
    ensures IsString(out, s)
  {
    EscapeDoubleQuotes(out, src, s);
    QuotedIsUnquoted(s, '\"', '\\');
    UnquoteOneCharacter(out, Quote(s, '\"', '\\', true), '\"', '\\');
  }
}
