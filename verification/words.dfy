/**
 Python's argument-less `str.strip()` and `str.split()` over the ASCII
 whitespace class of module Ascii.
 */
module Words {
  import opened Ascii
  import Seqs

  /** Every character of `s` is whitespace, stated character by character
      from the front. */
  predicate AllSpace(s: string)
    decreases |s|
  {
    s == [] || (IsSpace(s[0]) && AllSpace(s[1..]))
  }

  /** Whitespace followed by one more whitespace character is whitespace. */
  lemma {:induction false} AllSpaceSnoc(s: string, c: char)
    requires AllSpace(s) && IsSpace(c)
    ensures AllSpace(s + [c])
    decreases |s|
  {
    if s == [] {
      assert ([] + [c])[1..] == [];
    } else {
      assert (s + [c])[1..] == s[1..] + [c];
      AllSpaceSnoc(s[1..], c);
    }
  }

  /** No character of `s` is whitespace. */
  predicate NoSpace(s: string) {
    forall i :: 0 <= i < |s| ==> !IsSpace(s[i])
  }

  /** A string that `strip()` leaves alone: it neither starts nor ends with whitespace. */
  predicate IsStripped(s: string) {
    s == [] || (!IsSpace(s[0]) && !IsSpace(s[|s| - 1]))
  }

  /** `lstrip()`: drops the leading whitespace and nothing else. */
  function TrimLeft(s: string): (r: string)
    ensures |r| <= |s| && r == s[|s| - |r|..]
    ensures AllSpace(s[..|s| - |r|])
    ensures r == [] || !IsSpace(r[0])
    decreases |s|
  {
    if s != [] && IsSpace(s[0]) then
      var r := TrimLeft(s[1..]);
      assert s[1..][|s| - 1 - |r|..] == s[|s| - |r|..];
      assert s[..|s| - |r|] == [s[0]] + s[1..][..|s| - 1 - |r|];
      assert ([s[0]] + s[1..][..|s| - 1 - |r|])[1..] == s[1..][..|s| - 1 - |r|];
      r
    else s
  }

  /** `rstrip()`: drops the trailing whitespace and nothing else. */
  function TrimRight(s: string): (r: string)
    ensures |r| <= |s| && r == s[..|r|]
    ensures AllSpace(s[|r|..])
    ensures r == [] || !IsSpace(r[|r| - 1])
    decreases |s|
  {
    if s != [] && IsSpace(s[|s| - 1]) then
      var r := TrimRight(s[..|s| - 1]);
      assert s[..|s| - 1][..|r|] == s[..|r|];
      assert s[|r|..] == s[..|s| - 1][|r|..] + [s[|s| - 1]];
      AllSpaceSnoc(s[..|s| - 1][|r|..], s[|s| - 1]);
      r
    else s
  }

  /** `strip()`: `lstrip()` followed by `rstrip()`. */
  function Strip(s: string): (r: string)
    ensures IsStripped(r)
    ensures |r| <= |s|
  {
    TrimRight(TrimLeft(s))
  }

  /** What `strip()` removes is whitespace only: the input is some
      whitespace, then the stripped input, then some whitespace. */
  lemma {:induction false} StripSlice(s: string)
    ensures exists a, b :: AllSpace(a) && AllSpace(b) && s == a + Strip(s) + b
  {
    var t := TrimLeft(s);
    var u := TrimRight(t);
    var a := s[..|s| - |t|];
    var b := t[|u|..];
    Decompose(s, t, u);
    Surrounded(s, a, Strip(s), b);
  }

  lemma {:induction false} Surrounded(s: string, a: string, m: string, b: string)
    requires AllSpace(a) && AllSpace(b) && s == a + m + b
    ensures exists a', b' :: AllSpace(a') && AllSpace(b') && s == a' + m + b'
  {
  }

  /** A prefix `u` of a suffix `t` of `s` splits `s` into three parts. */
  lemma {:induction false} Decompose(s: string, t: string, u: string)
    requires |t| <= |s| && t == s[|s| - |t|..]
    requires |u| <= |t| && u == t[..|u|]
    ensures s == s[..|s| - |t|] + u + t[|u|..]
  {
    assert s == s[..|s| - |t|] + t;
    assert t == u + t[|u|..];
  }

  /** Stripping a string that is already stripped changes nothing; in
      particular `strip()` is idempotent. */
  lemma StripStripped(s: string)
    requires IsStripped(s)
    ensures Strip(s) == s
  {
  }

  /** Length of the maximal whitespace-free prefix of `s`. */
  function WordLength(s: string): (n: nat)
    ensures n <= |s|
    ensures NoSpace(s[..n])
    ensures n == |s| || IsSpace(s[n])
    decreases |s|
  {
    if s == [] || IsSpace(s[0]) then 0 else 1 + WordLength(s[1..])
  }

  /** `split()` with no separator: the maximal runs of non-whitespace
      characters, left to right; runs of whitespace separate words and
      leading or trailing whitespace yields no empty word. */
  function Split(s: string): seq<string>
    decreases |s|
  {
    if s == [] then []
    else if IsSpace(s[0]) then Split(s[1..])
    else
      var n := WordLength(s);
      [s[..n]] + Split(s[n..])
  }

  /** Every word `split()` returns is non-empty and free of whitespace. */
  lemma {:induction false} SplitWords(s: string)
    ensures forall k :: 0 <= k < |Split(s)| ==> Split(s)[k] != [] && NoSpace(Split(s)[k])
    decreases |s|
  {
    if s != [] && IsSpace(s[0]) {
      SplitWords(s[1..]);
    } else if s != [] {
      var n := WordLength(s);
      SplitWords(s[n..]);
      var ws := [s[..n]] + Split(s[n..]);
      forall k | 0 <= k < |ws| ensures ws[k] != [] && NoSpace(ws[k]) {
        if k > 0 {
          assert ws[k] == Split(s[n..])[k - 1];
        }
      }
    }
  }

  /** An independent, one-pass count of the words of `s`: the positions that
      hold a non-whitespace character and follow whitespace (or, when
      `afterSpace` holds, the start of the string). */
  function CountStarts(s: string, afterSpace: bool): nat
    decreases |s|
  {
    if s == [] then 0
    else (if afterSpace && !IsSpace(s[0]) then 1 else 0) + CountStarts(s[1..], IsSpace(s[0]))
  }

  lemma {:induction false} CountStartsSkipWord(s: string, k: nat)
    requires k <= |s| && NoSpace(s[..k])
    ensures CountStarts(s, false) == CountStarts(s[k..], false)
    decreases k
  {
    if k > 0 {
      assert !IsSpace(s[0]);
      assert NoSpace(s[1..][..k - 1]) by {
        assert s[1..][..k - 1] == s[1..k];
      }
      CountStartsSkipWord(s[1..], k - 1);
      assert s[1..][k - 1..] == s[k..];
    }
  }

  /** A word of length `n` at the front of `t` contributes exactly one start. */
  lemma {:induction false} CountStartsWord(t: string, n: nat)
    requires 0 < n <= |t| && NoSpace(t[..n]) && (n == |t| || IsSpace(t[n]))
    ensures CountStarts(t, true) == 1 + CountStarts(t[n..], true)
  {
    assert !IsSpace(t[0]);
    assert CountStarts(t, true) == 1 + CountStarts(t[1..], false);
    assert NoSpace(t[1..][..n - 1]) by {
      assert t[1..][..n - 1] == t[1..n];
    }
    CountStartsSkipWord(t[1..], n - 1);
    assert t[1..][n - 1..] == t[n..];
  }

  /** The number of words `split()` returns is the number of word starts. */
  lemma {:induction false} SplitCount(s: string)
    ensures |Split(s)| == CountStarts(s, true)
    decreases |s|
  {
    if s != [] && IsSpace(s[0]) {
      SplitCount(s[1..]);
    } else if s != [] {
      var n := WordLength(s);
      SplitCount(s[n..]);
      CountStartsWord(s, n);
    }
  }

  /** The non-whitespace characters of `s`, in order. */
  function NonSpace(s: string): string
    decreases |s|
  {
    if s == [] then [] else (if IsSpace(s[0]) then [] else [s[0]]) + NonSpace(s[1..])
  }

  /** The words of `ws` written one after the other. */
  function Concat(ws: seq<string>): string
  {
    if ws == [] then [] else ws[0] + Concat(ws[1..])
  }

  /** `' '.join(ws)`: the words separated by single spaces. */
  function JoinSpaced(ws: seq<string>): string
  {
    if ws == [] then []
    else if |ws| == 1 then ws[0]
    else ws[0] + [' '] + JoinSpaced(ws[1..])
  }

  lemma {:induction false} NonSpaceAppend(a: string, b: string)
    ensures NonSpace(a + b) == NonSpace(a) + NonSpace(b)
    decreases |a|
  {
    if a != [] {
      assert (a + b)[0] == a[0];
      assert (a + b)[1..] == a[1..] + b;
      NonSpaceAppend(a[1..], b);
    } else {
      assert a + b == b;
    }
  }

  lemma {:induction false} NonSpaceNoSpace(s: string)
    requires NoSpace(s)
    ensures NonSpace(s) == s
    decreases |s|
  {
    if s != [] {
      assert NoSpace(s[1..]) by {
        forall i | 0 <= i < |s| - 1 ensures !IsSpace(s[1..][i]) {
          assert s[1..][i] == s[i + 1];
        }
      }
      NonSpaceNoSpace(s[1..]);
      assert s == [s[0]] + s[1..];
    }
  }

  /** `split()` loses nothing but whitespace: the words, written one after
      the other, are exactly the non-whitespace characters of `s` in order. */
  lemma {:induction false} SplitConcat(s: string)
    ensures Concat(Split(s)) == NonSpace(s)
    decreases |s|
  {
    if s != [] && IsSpace(s[0]) {
      SplitConcat(s[1..]);
    } else if s != [] {
      var n := WordLength(s);
      assert s == s[..n] + s[n..];
      NonSpaceAppend(s[..n], s[n..]);
      NonSpaceNoSpace(s[..n]);
      SplitConcat(s[n..]);
      ConcatCons(s[..n], Split(s[n..]));
    }
  }

  lemma {:induction false} ConcatCons(w: string, rest: seq<string>)
    ensures Concat([w] + rest) == w + Concat(rest)
  {
    assert ([w] + rest)[1..] == rest;
  }

  /** The leading run of a word followed by whitespace (or nothing) is the
      word itself. */
  lemma {:induction false} WordLengthWord(w: string, rest: string)
    requires NoSpace(w)
    requires rest == [] || IsSpace(rest[0])
    ensures WordLength(w + rest) == |w|
    decreases |w|
  {
    if w == [] {
      assert w + rest == rest;
    } else {
      assert (w + rest)[0] == w[0];
      assert (w + rest)[1..] == w[1..] + rest;
      assert NoSpace(w[1..]) by {
        forall i | 0 <= i < |w| - 1 ensures !IsSpace(w[1..][i]) {
          assert w[1..][i] == w[i + 1];
        }
      }
      WordLengthWord(w[1..], rest);
    }
  }

  /** A leading space separates nothing: it is dropped like any leading
      whitespace. */
  lemma {:induction false} SplitLeadingSpace(r: string)
    ensures Split([' '] + r) == Split(r)
  {
    assert ([' '] + r)[1..] == r;
  }

  /** A word at the front, followed by whitespace or nothing, is split off
      whole. */
  lemma {:induction false} SplitWord(w: string, rest: string)
    requires w != [] && NoSpace(w)
    requires rest == [] || IsSpace(rest[0])
    ensures Split(w + rest) == [w] + Split(rest)
  {
    var s := w + rest;
    assert s[0] == w[0];
    WordLengthWord(w, rest);
    assert s[..|w|] == w && s[|w|..] == rest;
  }

  /** Any whitespace character cuts: `split()` of `a`, one whitespace
      character and `b` is the words of `a` followed by the words of `b`.
      With `SplitWord` this fixes every cut `split()` makes, whatever the
      runs of whitespace between the words. */
  lemma {:induction false} SplitAtSpace(a: string, c: char, b: string)
    requires IsSpace(c)
    ensures Split(a + [c] + b) == Split(a) + Split(b)
    decreases |a|
  {
    var s := a + [c] + b;
    if a == [] {
      assert s == [c] + b;
      assert s[1..] == b;
    } else if IsSpace(a[0]) {
      assert s[0] == a[0];
      assert s[1..] == a[1..] + [c] + b;
      SplitAtSpace(a[1..], c, b);
    } else {
      var n := WordLength(a);
      var w, r := a[..n], a[n..];
      var t := r + [c] + b;
      assert a == w + r;
      assert s == w + t;
      assert t[0] == (if r == [] then c else r[0]);
      SplitWord(w, t);
      SplitAtSpace(r, c, b);
      assert Split(a) == [w] + Split(r);
      Seqs.ConcatAssoc([w], Split(r), Split(b));
    }
  }

  /** Two spaces between words cut once: `"ab  cd".split()` is `["ab", "cd"]`. */
  lemma {:induction false} SplitExample()
    ensures Split("ab  cd") == ["ab", "cd"]
  {
    assert "ab  cd" == "ab" + [' '] + " cd";
    SplitAtSpace("ab", ' ', " cd");
    SplitWord("ab", []);
    assert "ab" + [] == "ab";
    assert " cd"[1..] == "cd";
    SplitWord("cd", []);
    assert "cd" + [] == "cd";
  }

  /** `' '.join(ws).split() == ws` for words that are non-empty and free of
      whitespace: `split()` cuts exactly at the word boundaries, so each
      word it returns is a maximal run of non-whitespace. */
  lemma {:induction false} SplitJoin(ws: seq<string>)
    requires forall k :: 0 <= k < |ws| ==> ws[k] != [] && NoSpace(ws[k])
    ensures Split(JoinSpaced(ws)) == ws
    decreases |ws|
  {
    if |ws| == 1 {
      assert ws == [ws[0]];
      SplitJoinOne(ws[0]);
    } else if |ws| > 1 {
      assert ws == [ws[0]] + ws[1..];
      SplitJoin(ws[1..]);
      SplitJoinCons(ws[0], ws[1..]);
    }
  }

  lemma {:induction false} SplitJoinOne(w: string)
    requires w != [] && NoSpace(w)
    ensures Split(JoinSpaced([w])) == [w]
  {
    assert JoinSpaced([w]) == w + [];
    SplitWord(w, []);
  }

  lemma {:induction false} SplitJoinCons(w: string, rest: seq<string>)
    requires w != [] && NoSpace(w) && rest != []
    requires Split(JoinSpaced(rest)) == rest
    ensures Split(JoinSpaced([w] + rest)) == [w] + rest
  {
    var r := JoinSpaced(rest);
    assert ([w] + rest)[1..] == rest;
    assert JoinSpaced([w] + rest) == w + ([' '] + r);
    SplitWord(w, [' '] + r);
    SplitLeadingSpace(r);
  }

  /** Two strings with whitespace at exactly the same positions. */
  predicate SameSpacing(a: string, b: string) {
    |a| == |b| && forall i :: 0 <= i < |a| ==> (IsSpace(a[i]) <==> IsSpace(b[i]))
  }

  /** `split()` only looks at where the whitespace is: strings with the same
      spacing split into the same number of words. */
  lemma {:induction false} SplitCountSameSpacing(a: string, b: string)
    requires SameSpacing(a, b)
    ensures |Split(a)| == |Split(b)|
  {
    SplitCount(a);
    SplitCount(b);
    CountStartsSameSpacing(a, b, true);
  }

  lemma {:induction false} CountStartsSameSpacing(a: string, b: string, afterSpace: bool)
    requires SameSpacing(a, b)
    ensures CountStarts(a, afterSpace) == CountStarts(b, afterSpace)
    decreases |a|
  {
    if a != [] {
      assert SameSpacing(a[1..], b[1..]) by {
        forall i | 0 <= i < |a| - 1
          ensures IsSpace(a[1..][i]) <==> IsSpace(b[1..][i])
        {
          assert a[1..][i] == a[i + 1] && b[1..][i] == b[i + 1];
        }
      }
      CountStartsSameSpacing(a[1..], b[1..], IsSpace(a[0]));
    }
  }

  /** Being stripped also depends on the spacing alone. */
  lemma SameSpacingStripped(a: string, b: string)
    requires SameSpacing(a, b) && IsStripped(a)
    ensures IsStripped(b)
  {
  }
}
