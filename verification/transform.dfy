/**
 `transform_text`: strip the input, refuse fewer than three words, otherwise
 alternate the case of the letters, starting with upper case. The alternation
 runs over the letters only: whitespace, digits and punctuation are copied
 and do not take a turn.
 */
module Transform {
  import opened Options
  import opened Seqs
  import opened Ascii
  import opened Words

  const MinWordsMessage: string := "Please input a minimum of 3 words."
  const ErrorMessage: string := "An error occurred during transformation."

  /** Number of letters in `s`. */
  function LetterCount(s: string): nat
  {
    if s == [] then 0 else (if IsAlpha(s[0]) then 1 else 0) + LetterCount(s[1..])
  }

  /** The character the alternation produces for `c` when the flag is `capitalize`. */
  function Cased(c: char, capitalize: bool): char
  {
    if capitalize then Upper(c) else Lower(c)
  }

  /** The character loop, with the flag `capitalizeNext` threaded through:
      a letter is cased by the flag and flips it, any other character is
      copied and leaves it alone. */
  function Alternate(s: string, capitalizeNext: bool): string
  {
    if s == [] then []
    else if IsAlpha(s[0]) then [Cased(s[0], capitalizeNext)] + Alternate(s[1..], !capitalizeNext)
    else [s[0]] + Alternate(s[1..], capitalizeNext)
  }

  /** The alternation keeps the length, keeps letters letters and
      non-letters non-letters, copies every non-letter unchanged, and
      therefore keeps the whitespace where it was. */
  lemma {:induction false} AlternateShape(s: string, capitalizeNext: bool)
    ensures |Alternate(s, capitalizeNext)| == |s|
    ensures forall i :: 0 <= i < |s| ==> (IsAlpha(Alternate(s, capitalizeNext)[i]) <==> IsAlpha(s[i]))
    ensures forall i :: 0 <= i < |s| && !IsAlpha(s[i]) ==> Alternate(s, capitalizeNext)[i] == s[i]
    ensures SameSpacing(s, Alternate(s, capitalizeNext))
  {
    if s != [] {
      var next := if IsAlpha(s[0]) then !capitalizeNext else capitalizeNext;
      AlternateShape(s[1..], next);
      AlternateStep(s, capitalizeNext);
    }
  }

  /** Whether `s` holds an even number of letters. */
  function EvenLetters(s: string): bool
  {
    if s == [] then true
    else if IsAlpha(s[0]) then !EvenLetters(s[1..])
    else EvenLetters(s[1..])
  }

  lemma {:induction false} EvenLettersCount(s: string)
    ensures EvenLetters(s) == (LetterCount(s) % 2 == 0)
  {
    if s != [] {
      EvenLettersCount(s[1..]);
    }
  }

  /** The character at position `i` of the alternation: a letter is
      upper-cased exactly when the letters before it leave the flag true. */
  lemma {:induction false} AlternateAt(s: string, capitalizeNext: bool, i: nat)
    requires i < |s|
    ensures |Alternate(s, capitalizeNext)| == |s|
    ensures Alternate(s, capitalizeNext)[i]
            == (if IsAlpha(s[i]) then Cased(s[i], EvenLetters(s[..i]) == capitalizeNext) else s[i])
    decreases i
  {
    AlternateShape(s, capitalizeNext);
    if i > 0 {
      var next := if IsAlpha(s[0]) then !capitalizeNext else capitalizeNext;
      AlternateStep(s, capitalizeNext);
      assert Alternate(s, capitalizeNext)[i] == Alternate(s[1..], next)[i - 1];
      AlternateAt(s[1..], next, i - 1);
      assert s[..i][1..] == s[1..][..i - 1];
      assert s[1..][i - 1] == s[i];
    }
  }

  /** One step of the alternation: the first character, then the rest with the updated flag. */
  lemma {:induction false} AlternateStep(s: string, capitalizeNext: bool)
    requires s != []
    ensures Alternate(s, capitalizeNext)
            == [if IsAlpha(s[0]) then Cased(s[0], capitalizeNext) else s[0]]
               + Alternate(s[1..], if IsAlpha(s[0]) then !capitalizeNext else capitalizeNext)
  {
  }

  /** The same alternation as the Python loop: a running result string
      extended one character at a time and a boolean flag. */
  method AlternateLoop(s: string) returns (transformed: string)
    ensures transformed == Alternate(s, true)
  {
    transformed := "";
    var capitalizeNext := true;
    var i := 0;
    while i < |s|
      invariant 0 <= i <= |s|
      invariant transformed + Alternate(s[i..], capitalizeNext) == Alternate(s, true)
    {
      var c := s[i];
      ghost var before := capitalizeNext;
      AlternateStep(s[i..], capitalizeNext);
      assert s[i..][1..] == s[i + 1..];
      var emitted := c;
      if IsAlpha(c) {
        emitted := if capitalizeNext then Upper(c) else Lower(c);
        capitalizeNext := !capitalizeNext;
      }
      ghost var rest := Alternate(s[i + 1..], capitalizeNext);
      assert Alternate(s[i..], before) == [emitted] + rest;
      ConcatAssoc(transformed, [emitted], rest);
      transformed := transformed + [emitted];
      i := i + 1;
    }
    assert s[i..] == [];
  }

  /** Alternation applied to its own output reproduces it: each letter keeps
      its position among the letters and is re-cased the same way. */
  lemma {:induction false} AlternateIdempotent(s: string)
    ensures Alternate(Alternate(s, true), true) == Alternate(s, true)
  {
    var r := Alternate(s, true);
    AlternateShape(s, true);
    AlternateShape(r, true);
    forall i | 0 <= i < |s|
      ensures Alternate(r, true)[i] == r[i]
    {
      AlternateAt(s, true, i);
      AlternateAt(r, true, i);
      EvenLettersSamePositions(s, r, i);
      CaseRoundTrip(s[i]);
    }
  }

  /** Strings whose letters sit at the same positions agree on the parity
      of the letters in every prefix. */
  lemma {:induction false} EvenLettersSamePositions(a: string, b: string, i: nat)
    requires |a| == |b| && i <= |a|
    requires forall k :: 0 <= k < |a| ==> (IsAlpha(a[k]) <==> IsAlpha(b[k]))
    ensures EvenLetters(a[..i]) == EvenLetters(b[..i])
    decreases i
  {
    if i > 0 {
      assert a[..i][1..] == a[1..][..i - 1];
      assert b[..i][1..] == b[1..][..i - 1];
      EvenLettersSamePositions(a[1..], b[1..], i - 1);
    }
  }

  /** Whether `transform_text` gets past its word-count check. */
  predicate Accepted(s: string) {
    |Split(Strip(s))| >= 3
  }

  /** `transform_text`. `None` stands for a missing argument: calling
      `strip` on it raises, and the handler returns the error message. */
  function TransformText(input: Option<string>): (r: string)
    ensures input.None? ==> r == ErrorMessage
    ensures input.Some? && !Accepted(input.value) ==> r == MinWordsMessage
    ensures input.Some? && Accepted(input.value) ==>
              var t := Strip(input.value);
              |r| == |t|
              && (forall i :: 0 <= i < |t| ==> (IsAlpha(r[i]) <==> IsAlpha(t[i])))
              && (forall i :: 0 <= i < |t| && !IsAlpha(t[i]) ==> r[i] == t[i])
  {
    match input
    case None => ErrorMessage
    case Some(s) =>
      var t := Strip(s);
      if |Split(t)| < 3 then MinWordsMessage
      else
        AlternateShape(t, true);
        Alternate(t, true)
  }

  /** For an accepted input, the letter at position `i` of the stripped
      input is upper-cased when an even number of letters precede it and
      lower-cased when an odd number do, whatever lies between them. */
  lemma {:induction false} TransformLetterParity(s: string, i: nat)
    requires Accepted(s) && i < |Strip(s)| && IsAlpha(Strip(s)[i])
    ensures |TransformText(Some(s))| == |Strip(s)|
    ensures TransformText(Some(s))[i]
            == (if LetterCount(Strip(s)[..i]) % 2 == 0 then Upper(Strip(s)[i]) else Lower(Strip(s)[i]))
  {
    AlternateAt(Strip(s), true, i);
    EvenLettersCount(Strip(s)[..i]);
  }

  /** The output for an accepted input is itself accepted, and transforming
      it again returns it unchanged. */
  lemma {:induction false} TransformIdempotent(s: string)
    requires Accepted(s)
    ensures Accepted(TransformText(Some(s)))
    ensures TransformText(Some(TransformText(Some(s)))) == TransformText(Some(s))
  {
    var t := Strip(s);
    var r := Alternate(t, true);
    assert TransformText(Some(s)) == r;
    AlternateShape(t, true);
    SameSpacingStripped(t, r);
    StripStripped(r);
    SplitCountSameSpacing(t, r);
    AlternateIdempotent(t);
  }
}
