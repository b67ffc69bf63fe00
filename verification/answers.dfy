/**
 * The answer check of the quiz trainer: both the stored answer and the
 * user's answer are lower-cased, stripped of surrounding white space and
 * compared for equality. The `test` and `play` commands use the same rule.
 */
module Answers {

  /** The code points that ECMAScript's `String.prototype.trim` strips:
      WhiteSpace (TAB, VT, FF, ZWNBSP and every space separator) and
      LineTerminator (LF, CR, LS, PS). */
  predicate IsSpace(c: char) {
    || ('\t' <= c <= '\r')
    || c == ' ' || c == '\U{00A0}' || c == '\U{1680}'
    || ('\U{2000}' <= c <= '\U{200A}')
    || c == '\U{2028}' || c == '\U{2029}' || c == '\U{202F}' || c == '\U{205F}'
    || c == '\U{3000}' || c == '\U{FEFF}'
  }

  /** Upper-case letters of Basic Latin and Latin-1 (this covers the accented
      capitals of Spanish); each has its lower-case form 32 code points higher. */
  predicate IsUpper(c: char) {
    ('A' <= c <= 'Z') || ('\U{00C0}' <= c <= '\U{00DE}' && c != '\U{00D7}')
  }

  /** Lower-case letters of Basic Latin and Latin-1 that have a capital in
      the same range: 'a'..'z' and U+00E0..U+00FE except the division sign. */
  predicate IsLower(c: char) {
    ('a' <= c <= 'z') || ('\U{00E0}' <= c <= '\U{00FE}' && c != '\U{00F7}')
  }

  /** The capital of a lower-case letter; every other character is its own
      capital. This is the reference that `LowerChar` is checked against. */
  function UpperChar(c: char): char {
    if IsLower(c) then (c as int - 32) as char else c
  }

  /** Two strings of the same length whose characters agree position by
      position, up to a letter and its capital. */
  predicate SameUpToCase(a: string, b: string) {
    && |a| == |b|
    && forall i :: 0 <= i < |a| ==>
         || a[i] == b[i]
         || (IsLower(a[i]) && UpperChar(a[i]) == b[i])
         || (IsLower(b[i]) && UpperChar(b[i]) == a[i])
  }

  predicate AllSpace(s: string) {
    forall i :: 0 <= i < |s| ==> IsSpace(s[i])
  }

  /** A string with no white space at either end: what `trim` leaves. */
  predicate Trimmed(s: string) {
    s == [] || (!IsSpace(s[0]) && !IsSpace(s[|s| - 1]))
  }

  function LowerChar(c: char): (d: char)
    ensures !IsUpper(d)
    ensures IsUpper(c) ==> IsLower(d) && UpperChar(d) == c
    ensures IsSpace(d) <==> IsSpace(c)
    ensures !IsUpper(c) ==> d == c
  {
    if IsUpper(c) then (c as int + 32) as char else c
  }

  /** `toLowerCase`: maps every character to its lower-case form. */
  function ToLower(s: string): (r: string)
    ensures |r| == |s|
    ensures forall i :: 0 <= i < |s| ==> r[i] == LowerChar(s[i])
  {
    seq(|s|, i requires 0 <= i < |s| => LowerChar(s[i]))
  }

  /** The first position at or after `i` that does not hold white space
      (|s| when there is none). */
  function SkipSpaceForward(s: string, i: nat): (j: nat)
    requires i <= |s|
    ensures i <= j <= |s|
    ensures forall k :: i <= k < j ==> IsSpace(s[k])
    ensures j == |s| || !IsSpace(s[j])
    decreases |s| - i
  {
    if i < |s| && IsSpace(s[i]) then SkipSpaceForward(s, i + 1) else i
  }

  /** The end of `s[..j]` once the white space in front of `j` is skipped. */
  function SkipSpaceBackward(s: string, j: nat): (i: nat)
    requires j <= |s|
    ensures i <= j
    ensures forall k :: i <= k < j ==> IsSpace(s[k])
    ensures i == 0 || !IsSpace(s[i - 1])
  {
    if j > 0 && IsSpace(s[j - 1]) then SkipSpaceBackward(s, j - 1) else j
  }

  /** `trim`: the slice of `s` from its first to its last character that is
      not white space (empty when there is none). */
  function Trim(s: string): (r: string)
    ensures |r| <= |s|
    ensures Trimmed(r)
  {
    var i := SkipSpaceForward(s, 0);
    var j := SkipSpaceBackward(s, |s|);
    if i == |s| then [] else s[i..j]
  }

  /** What `trim` removes is white space only: every string is the white
      space `trim` strips at its front, the trimmed result, and the white
      space stripped at its back. */
  lemma {:induction false} TrimSplit(s: string) returns (front: string, back: string)
    ensures AllSpace(front) && AllSpace(back)
    ensures s == front + Trim(s) + back
  {
    var i := SkipSpaceForward(s, 0);
    var j := SkipSpaceBackward(s, |s|);
    if i == |s| {
      front, back := s, [];
      assert s == front + [] + back;
    } else {
      front, back := s[..i], s[j..];
      assert s == s[..i] + s[i..j] + s[j..];
    }
  }

  /** The form both answers are brought to before comparison
      (`x.toLowerCase().trim()`). */
  function Normalize(s: string): string {
    Trim(ToLower(s))
  }

  /** The verdict on a typed answer against the stored one. */
  predicate AnswerMatches(given: string, stored: string) {
    Normalize(given) == Normalize(stored)
  }

  /** Trim is determined by the shape of its input: white space, then a
      trimmed core, then white space, trims to exactly that core. */
  lemma {:induction false} TrimOfPadded(w1: string, t: string, w2: string)
    requires AllSpace(w1) && AllSpace(w2) && Trimmed(t)
    ensures Trim(w1 + t + w2) == t
  {
    var s := w1 + t + w2;
    var i := SkipSpaceForward(s, 0);
    var j := SkipSpaceBackward(s, |s|);
    assert forall k :: 0 <= k < |w1| ==> IsSpace(s[k]);
    assert forall k :: |w1| + |t| <= k < |s| ==> IsSpace(s[k]);
    if t == [] {
      assert AllSpace(s);
      assert i == |s|;
    } else {
      assert !IsSpace(s[|w1|]) && !IsSpace(s[|w1| + |t| - 1]);
      assert i == |w1|;
      assert j == |w1| + |t|;
      assert s[i..j] == t;
    }
  }

  lemma {:induction false} Regroup(w1: string, a: string, t: string, b: string, w2: string)
    ensures w1 + (a + t + b) + w2 == (w1 + a) + t + (b + w2)
  {
  }

  lemma {:induction false} AllSpaceAppend(x: string, y: string)
    requires AllSpace(x) && AllSpace(y)
    ensures AllSpace(x + y)
  {
    forall k | 0 <= k < |x + y| ensures IsSpace((x + y)[k]) {
      if k < |x| {
        assert (x + y)[k] == x[k];
      } else {
        assert (x + y)[k] == y[k - |x|];
      }
    }
  }

  /** Surrounding white space never changes what `trim` returns. */
  lemma {:induction false} TrimIgnoresPadding(w1: string, s: string, w2: string)
    requires AllSpace(w1) && AllSpace(w2)
    ensures Trim(w1 + s + w2) == Trim(s)
  {
    var t := Trim(s);
    var a, b := TrimSplit(s);
    Regroup(w1, a, t, b, w2);
    AllSpaceAppend(w1, a);
    AllSpaceAppend(b, w2);
    TrimOfPadded(w1 + a, t, b + w2);
  }

  /** Trimming a trimmed string changes nothing. */
  lemma {:induction false} TrimIdempotent(s: string)
    ensures Trim(Trim(s)) == Trim(s)
  {
    var t := Trim(s);
    assert [] + t + [] == t;
    TrimOfPadded([], t, []);
  }

  lemma {:induction false} ToLowerAppend(a: string, b: string)
    ensures ToLower(a + b) == ToLower(a) + ToLower(b)
  {
  }

  /** Lower-casing neither creates nor removes white space, so it commutes
      with trimming: `x.toLowerCase().trim()` equals `x.trim().toLowerCase()`. */
  lemma {:induction false} LowerCommutesWithTrim(s: string)
    ensures Trim(ToLower(s)) == ToLower(Trim(s))
  {
    var t := Trim(s);
    var a, b := TrimSplit(s);
    ToLowerAppend(a + t, b);
    ToLowerAppend(a, t);
    assert ToLower(s) == ToLower(a) + ToLower(t) + ToLower(b);
    assert AllSpace(ToLower(a)) && AllSpace(ToLower(b));
    assert Trimmed(ToLower(t));
    TrimOfPadded(ToLower(a), ToLower(t), ToLower(b));
  }

  /** Lower-casing twice is lower-casing once. */
  lemma {:induction false} ToLowerIdempotent(s: string)
    ensures ToLower(ToLower(s)) == ToLower(s)
  {
  }

  /** A normalized answer is its own normal form. */
  lemma {:induction false} NormalizeIdempotent(s: string)
    ensures Normalize(Normalize(s)) == Normalize(s)
  {
    var n := Normalize(s);
    LowerCommutesWithTrim(ToLower(s));
    ToLowerIdempotent(s);
    TrimIdempotent(ToLower(s));
  }

  /** The answer check, stated without normal forms: two answers match
      exactly when, once trimmed, they are equal up to letter case. */
  lemma {:induction false} AnswerMatchesCharacterization(given: string, stored: string)
    ensures AnswerMatches(given, stored) <==> ToLower(Trim(given)) == ToLower(Trim(stored))
  {
    LowerCommutesWithTrim(given);
    LowerCommutesWithTrim(stored);
  }

  /** White space typed before or after an answer never changes the verdict. */
  lemma {:induction false} AnswerMatchesIgnoresPadding(w1: string, given: string, w2: string, stored: string)
    requires AllSpace(w1) && AllSpace(w2)
    ensures AnswerMatches(w1 + given + w2, stored) <==> AnswerMatches(given, stored)
  {
    ToLowerAppend(w1 + given, w2);
    ToLowerAppend(w1, given);
    assert AllSpace(ToLower(w1)) && AllSpace(ToLower(w2));
    TrimIgnoresPadding(ToLower(w1), ToLower(given), ToLower(w2));
  }

  /** A lower-case letter and its capital lower-case to the same character. */
  lemma {:induction false} LowerCharOfCapital(c: char)
    requires IsLower(c)
    ensures LowerChar(UpperChar(c)) == LowerChar(c) == c
  {
  }

  /** Letter case never changes the verdict: answers that differ only in the
      case of their letters ("PARIS", "Paris", "paris") get the same verdict
      against every stored answer. */
  lemma {:induction false} AnswerMatchesIgnoresCase(given: string, other: string, stored: string)
    requires SameUpToCase(given, other)
    ensures AnswerMatches(given, stored) <==> AnswerMatches(other, stored)
  {
    forall i | 0 <= i < |given| ensures LowerChar(given[i]) == LowerChar(other[i]) {
      if IsLower(given[i]) && UpperChar(given[i]) == other[i] {
        LowerCharOfCapital(given[i]);
      } else if IsLower(other[i]) && UpperChar(other[i]) == given[i] {
        LowerCharOfCapital(other[i]);
      }
    }
    assert ToLower(given) == ToLower(other);
  }

  /** `toUpperCase` on the letters of Basic Latin and Latin-1 that have a
      capital there. */
  function ToUpper(s: string): string {
    seq(|s|, i requires 0 <= i < |s| => UpperChar(s[i]))
  }

  /** Typing an answer in capitals never makes it wrong. */
  lemma {:induction false} CapitalizedAnswerMatches(s: string)
    ensures AnswerMatches(ToUpper(s), s)
  {
    assert SameUpToCase(ToUpper(s), s);
    AnswerMatchesIgnoresCase(ToUpper(s), s, s);
    AnswerMatchesIsEquivalence(s, s, s);
  }

  /** The check is an equivalence: reflexive, symmetric and transitive. */
  lemma {:induction false} AnswerMatchesIsEquivalence(a: string, b: string, c: string)
    ensures AnswerMatches(a, a)
    ensures AnswerMatches(a, b) <==> AnswerMatches(b, a)
    ensures AnswerMatches(a, b) && AnswerMatches(b, c) ==> AnswerMatches(a, c)
  {
  }

  /** " Paris " is accepted for the stored answer "paris". */
  lemma {:induction false} PaddedCapitalizedAnswerMatches()
    ensures AnswerMatches(" Paris ", "paris")
  {
    var lowered := ToLower(" Paris ");
    assert lowered == " paris " by {
      assert lowered[1] == LowerChar('P') == 'p';
    }
    assert ToLower("paris") == "paris";
    assert " paris " == " " + "paris" + " ";
    TrimOfPadded(" ", "paris", " ");
    assert "paris" == [] + "paris" + [];
    TrimOfPadded([], "paris", []);
  }
}
