/** Normalisation of the free-text asset list: the input is split on commas
    and every token is trimmed and upper-cased (app.py, line 21). Characters
    are treated as ASCII: see README for what that leaves out. */
module Tickers {

  /** Whether Python's `str.strip()` removes the ASCII character `c`: tab,
      line feed, vertical tab, form feed, carriage return, the four
      information separators 0x1C-0x1F, and space. */
  predicate IsSpace(c: char)
  {
    var n := c as int;
    (9 <= n <= 13) || (28 <= n <= 32)
  }

  predicate IsLower(c: char)
  {
    'a' <= c <= 'z'
  }

  predicate AllSpace(s: string)
  {
    forall i :: 0 <= i < |s| ==> IsSpace(s[i])
  }

  /** Neither the first nor the last character is whitespace. */
  predicate IsStripped(s: string)
  {
    |s| == 0 || (!IsSpace(s[0]) && !IsSpace(s[|s| - 1]))
  }

  /** No ASCII lower-case letter occurs. */
  predicate IsUpper(s: string)
  {
    forall i :: 0 <= i < |s| ==> !IsLower(s[i])
  }

  /** What a normalised ticker looks like: trimmed, upper-case, comma-free. */
  predicate IsTicker(t: string)
  {
    IsStripped(t) && IsUpper(t) && ',' !in t
  }

  function Occurrences(s: string, c: char): nat
  {
    if |s| == 0 then 0
    else (if s[0] == c then 1 else 0) + Occurrences(s[1..], c)
  }

  // ---------------------------------------------------------------------
  // str.split(sep) and its inverse sep.join(parts)
  // ---------------------------------------------------------------------

  /** `s.split(sep)`: the maximal separator-free pieces between separators.
      There is always one more piece than separators, so even the empty
      string gives one (empty) piece. */
  function Split(s: string, sep: char): (parts: seq<string>)
    ensures |parts| == Occurrences(s, sep) + 1
    ensures forall i :: 0 <= i < |parts| ==> sep !in parts[i]
    decreases |s|
  {
    if |s| == 0 then [""]
    else
      var rest := Split(s[1..], sep);
      if s[0] == sep then [""] + rest
      else [[s[0]] + rest[0]] + rest[1..]
  }

  /** `sep.join(parts)`. */
  function Join(parts: seq<string>, sep: char): string
    requires |parts| > 0
  {
    if |parts| == 1 then parts[0]
    else parts[0] + [sep] + Join(parts[1..], sep)
  }

  /** Joining the pieces of a split with the same separator gives back the text. */
  lemma {:induction false} JoinSplit(s: string, sep: char)
    ensures Join(Split(s, sep), sep) == s
    decreases |s|
  {
    if |s| > 0 {
      JoinSplit(s[1..], sep);
      var rest := Split(s[1..], sep);
      if s[0] == sep {
        assert Split(s, sep) == [""] + rest;
        assert ([""] + rest)[1..] == rest;
      } else {
        var parts := Split(s, sep);
        assert parts == [[s[0]] + rest[0]] + rest[1..];
        if |rest| == 1 {
          assert Join(parts, sep) == [s[0]] + rest[0];
        } else {
          assert parts[1..] == rest[1..];
          assert Join(parts, sep) == ([s[0]] + rest[0]) + [sep] + Join(rest[1..], sep);
          assert Join(rest, sep) == rest[0] + [sep] + Join(rest[1..], sep);
        }
        assert s == [s[0]] + s[1..];
      }
    }
  }

  /** A separator-free piece splits to itself. */
  lemma {:induction false} SplitSeparatorFree(a: string, sep: char)
    requires sep !in a
    ensures Split(a, sep) == [a]
    decreases |a|
  {
    if |a| > 0 {
      assert sep !in a[1..];
      SplitSeparatorFree(a[1..], sep);
      assert a == [a[0]] + a[1..];
    }
  }

  /** Splitting `a + sep + b` where `a` has no separator puts `a` in front of
      the pieces of `b`. */
  lemma {:induction false} SplitAfterPiece(a: string, b: string, sep: char)
    requires sep !in a
    ensures Split(a + [sep] + b, sep) == [a] + Split(b, sep)
    decreases |a|
  {
    if |a| == 0 {
      assert a + [sep] + b == [sep] + b;
      assert ([sep] + b)[1..] == b;
    } else {
      assert sep !in a[1..];
      SplitAfterPiece(a[1..], b, sep);
      var s := a + [sep] + b;
      assert s[0] == a[0] && s[1..] == a[1..] + [sep] + b;
      var rest := Split(s[1..], sep);
      assert rest == [a[1..]] + Split(b, sep);
      assert [a[0]] + rest[0] == a;
    }
  }

  /** Splitting the join of separator-free pieces gives back the pieces. */
  lemma {:induction false} SplitJoin(parts: seq<string>, sep: char)
    requires |parts| > 0
    requires forall i :: 0 <= i < |parts| ==> sep !in parts[i]
    ensures Split(Join(parts, sep), sep) == parts
    decreases |parts|
  {
    if |parts| == 1 {
      SplitSeparatorFree(parts[0], sep);
    } else {
      SplitJoin(parts[1..], sep);
      SplitAfterPiece(parts[0], Join(parts[1..], sep), sep);
      assert parts == [parts[0]] + parts[1..];
    }
  }

  // ---------------------------------------------------------------------
  // str.strip() and str.upper(), restricted to ASCII
  // ---------------------------------------------------------------------

  /** How many whitespace characters `s` starts with: `s.lstrip()` is
      `s[LeadingSpaces(s)..]`. */
  function LeadingSpaces(s: string): (n: nat)
    ensures n <= |s| && AllSpace(s[..n])
    ensures n == |s| || !IsSpace(s[n])
    decreases |s|
  {
    if |s| == 0 || !IsSpace(s[0]) then 0
    else
      var m := LeadingSpaces(s[1..]);
      assert s[..m + 1] == [s[0]] + s[1..][..m];
      1 + m
  }

  /** How many whitespace characters `s` ends with: `s.rstrip()` is
      `s[..|s| - TrailingSpaces(s)]`. */
  function TrailingSpaces(s: string): (n: nat)
    ensures n <= |s| && AllSpace(s[|s| - n..])
    ensures n == |s| || !IsSpace(s[|s| - n - 1])
    decreases |s|
  {
    if |s| == 0 || !IsSpace(s[|s| - 1]) then 0
    else
      var init := s[..|s| - 1];
      var m := TrailingSpaces(init);
      assert s[|s| - (m + 1)..] == init[|init| - m..] + [s[|s| - 1]];
      1 + m
  }

  /** `s.strip()`: `s` without its leading and trailing whitespace. */
  function Strip(s: string): (r: string)
    ensures IsStripped(r) && |r| <= |s|
  {
    var t := s[LeadingSpaces(s)..];
    t[..|t| - TrailingSpaces(t)]
  }

  /** What `strip` removes is a whitespace prefix and a whitespace suffix:
      the result is a contiguous part of the input. */
  lemma StripCutsOnlyWhitespace(s: string)
    ensures exists i :: 0 <= i <= |s| - |Strip(s)| && Strip(s) == s[i..i + |Strip(s)|]
                        && AllSpace(s[..i]) && AllSpace(s[i + |Strip(s)|..])
  {
    var i := LeadingSpaces(s);
    var t := s[i..];
    var j := TrailingSpaces(t);
    var r := Strip(s);
    assert r == t[..|t| - j];
    assert r == s[i..i + |r|];
    assert AllSpace(s[..i]);
    assert s[i + |r|..] == t[|t| - j..];
    assert AllSpace(s[i + |r|..]);
  }

  /** Whitespace in front of a string is counted with its leading spaces. */
  lemma {:induction false} LeadingSpacesPadded(pad: string, t: string)
    requires AllSpace(pad)
    ensures LeadingSpaces(pad + t) == |pad| + LeadingSpaces(t)
    decreases |pad|
  {
    if |pad| > 0 {
      assert (pad + t)[0] == pad[0] && IsSpace(pad[0]);
      assert (pad + t)[1..] == pad[1..] + t;
      LeadingSpacesPadded(pad[1..], t);
    } else {
      assert pad + t == t;
    }
  }

  /** Whitespace after a string is counted with its trailing spaces. */
  lemma {:induction false} TrailingSpacesPadded(t: string, pad: string)
    requires AllSpace(pad)
    ensures TrailingSpaces(t + pad) == |pad| + TrailingSpaces(t)
    decreases |pad|
  {
    if |pad| > 0 {
      var p := pad[..|pad| - 1];
      assert (t + pad)[|t + pad| - 1] == pad[|pad| - 1] && IsSpace(pad[|pad| - 1]);
      assert (t + pad)[..|t + pad| - 1] == t + p;
      TrailingSpacesPadded(t, p);
    } else {
      assert t + pad == t;
    }
  }

  /** Stripping a word surrounded by whitespace gives the word back; in
      particular a string that is already stripped is left as it is. */
  lemma StripPadded(pre: string, word: string, post: string)
    requires AllSpace(pre) && AllSpace(post) && IsStripped(word)
    ensures Strip(pre + word + post) == word
  {
    var s := pre + word + post;
    assert s == pre + (word + post);
    LeadingSpacesPadded(pre, word + post);
    if |word| == 0 {
      assert word + post == post + "";
      LeadingSpacesPadded(post, "");
    } else {
      assert (word + post)[0] == word[0];
      TrailingSpacesPadded(word, post);
      assert s[|pre|..] == word + post;
      assert (word + post)[|word| - 1] == word[|word| - 1];
    }
  }

  /** `c.upper()` for ASCII: lower-case letters become upper-case. */
  function UpperChar(c: char): (u: char)
    ensures !IsLower(u)
    ensures IsLower(c) ==> 'A' <= u <= 'Z' && u as int - 'A' as int == c as int - 'a' as int
    ensures !IsLower(c) ==> u == c
  {
    if IsLower(c) then (c as int - 32) as char else c
  }

  /** `s.upper()` for ASCII: letter by letter, the length is unchanged. */
  function Upper(s: string): (r: string)
    ensures |r| == |s| && IsUpper(r)
    ensures forall i :: 0 <= i < |s| ==> r[i] == UpperChar(s[i])
  {
    seq(|s|, i requires 0 <= i < |s| => UpperChar(s[i]))
  }

  /** Upper-casing a string that has no lower-case letter leaves it unchanged. */
  lemma UpperUpper(s: string)
    requires IsUpper(s)
    ensures Upper(s) == s
  {
  }

  // ---------------------------------------------------------------------
  // The ticker list
  // ---------------------------------------------------------------------

  /** `t.strip().upper()`. */
  function NormalizeTicker(t: string): (r: string)
    ensures IsStripped(r) && IsUpper(r)
    ensures |r| <= |t|
    ensures ',' !in t ==> ',' !in r
  {
    var s := Strip(t);
    var r := Upper(s);
    assert forall i :: 0 <= i < |s| ==> IsSpace(r[i]) == IsSpace(s[i]);
    assert ',' in r ==> ',' in s;
    r
  }

  /** `[t.strip().upper() for t in tokens]`: one entry per token, in token
      order, each stripped and upper-case, and comma-free when its token is. */
  function NormalizeAll(tokens: seq<string>): (r: seq<string>)
    ensures |r| == |tokens|
    ensures forall i :: 0 <= i < |tokens| ==> r[i] == NormalizeTicker(tokens[i])
    ensures forall i :: 0 <= i < |r| ==> IsStripped(r[i]) && IsUpper(r[i])
    ensures forall i :: 0 <= i < |r| && ',' !in tokens[i] ==> ',' !in r[i]
  {
    seq(|tokens|, i requires 0 <= i < |tokens| => NormalizeTicker(tokens[i]))
  }

  /** The ticker list of app.py line 21: one entry per comma-separated token,
      in input order, with empty tokens and duplicates kept. It is never
      empty, so the `len(tickers) > 0` guard of line 57 always holds. */
  function ParseTickers(input: string): (tickers: seq<string>)
    ensures |tickers| == Occurrences(input, ',') + 1
    ensures |tickers| > 0
    ensures forall i :: 0 <= i < |tickers| ==> IsTicker(tickers[i])
  {
    NormalizeAll(Split(input, ','))
  }

  /** The normalised form of a token is the upper-cased word it holds,
      whatever whitespace surrounds that word. */
  lemma NormalizePadded(pre: string, word: string, post: string)
    requires AllSpace(pre) && AllSpace(post) && IsStripped(word)
    ensures NormalizeTicker(pre + word + post) == Upper(word)
  {
    StripPadded(pre, word, post);
  }

  /** Normalising a token twice is the same as normalising it once. */
  lemma NormalizeTickerIdempotent(t: string)
    ensures NormalizeTicker(NormalizeTicker(t)) == NormalizeTicker(t)
  {
    var r := NormalizeTicker(t);
    StripPadded("", r, "");
    assert "" + r + "" == r;
    UpperUpper(r);
  }

  /** Re-normalising a normalised ticker list changes nothing. */
  lemma ParseTickersStable(input: string)
    ensures NormalizeAll(ParseTickers(input)) == ParseTickers(input)
  {
    var ts := Split(input, ',');
    forall i | 0 <= i < |ts| ensures NormalizeTicker(NormalizeTicker(ts[i])) == NormalizeTicker(ts[i]) {
      NormalizeTickerIdempotent(ts[i]);
    }
  }

  /** Writing the parsed list back as comma-separated text and parsing it
      again gives the same list. */
  lemma ParseJoinParse(input: string)
    ensures ParseTickers(Join(ParseTickers(input), ',')) == ParseTickers(input)
  {
    var tickers := ParseTickers(input);
    SplitJoin(tickers, ',');
    ParseTickersStable(input);
  }

  /** Normalising a concatenation of token lists normalises each list. */
  lemma NormalizeAllAppend(a: seq<string>, b: seq<string>)
    ensures NormalizeAll(a + b) == NormalizeAll(a) + NormalizeAll(b)
  {
    var l, na, nb := NormalizeAll(a + b), NormalizeAll(a), NormalizeAll(b);
    forall i | 0 <= i < |l| ensures l[i] == (na + nb)[i] {
      if i < |a| {
        calc {
          l[i];
          NormalizeTicker((a + b)[i]);
          { assert (a + b)[i] == a[i]; }
          NormalizeTicker(a[i]);
          na[i];
        }
      } else {
        calc {
          l[i];
          NormalizeTicker((a + b)[i]);
          { assert (a + b)[i] == b[i - |a|]; }
          NormalizeTicker(b[i - |a|]);
          nb[i - |a|];
        }
      }
    }
  }

  /** A separator at the end of the text adds one final piece, which is empty. */
  lemma {:induction false} SplitTrailingSeparator(s: string, sep: char)
    ensures Split(s + [sep], sep) == Split(s, sep) + [""]
    decreases |s|
  {
    if |s| == 0 {
      assert s + [sep] == [sep] + "";
    } else {
      SplitTrailingSeparator(s[1..], sep);
      assert (s + [sep])[0] == s[0] && (s + [sep])[1..] == s[1..] + [sep];
    }
  }

  /** Parsing text that ends in a comma yields a final empty ticker: empty
      tokens are kept, not dropped. */
  lemma ParseTrailingComma(input: string)
    ensures ParseTickers(input + [',']) == ParseTickers(input) + [""]
  {
    SplitTrailingSeparator(input, ',');
    NormalizeAllAppend(Split(input, ','), [""]);
    StripPadded("", "", "");
    assert "" + "" + "" == "";
    assert NormalizeAll([""]) == [NormalizeTicker("")];
  }

  /** The first comma-free token of the text becomes the first ticker, ahead
      of the tickers of the rest: order is kept and nothing is de-duplicated. */
  lemma ParseFirstToken(token: string, rest: string)
    requires ',' !in token
    ensures ParseTickers(token + [','] + rest) == [NormalizeTicker(token)] + ParseTickers(rest)
  {
    SplitAfterPiece(token, rest, ',');
    NormalizeAllAppend([token], Split(rest, ','));
    assert NormalizeAll([token]) == [NormalizeTicker(token)];
  }

  /** A token repeated around a comma gives the same ticker twice. */
  lemma ParseKeepsDuplicates(token: string)
    requires ',' !in token
    ensures ParseTickers(token + [','] + token) == [NormalizeTicker(token), NormalizeTicker(token)]
  {
    ParseFirstToken(token, token);
    SplitSeparatorFree(token, ',');
  }
}
