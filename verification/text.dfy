/** The pieces of Python's `str` behaviour the dashboard relies on: ordering
    of strings (used by `sort_values`) and the `upper` / `title` case mappings
    (used to grade the quiz). Case mappings cover ASCII letters only. */
module Text {

  /** Python's `a <= b` on strings: lexicographic by code point, a proper
      prefix ordered before the longer string. */
  predicate LexLeq(a: string, b: string)
    ensures a <= b ==> LexLeq(a, b)
  {
    |a| == 0 || (|b| > 0 && (a[0] < b[0] || (a[0] == b[0] && LexLeq(a[1..], b[1..]))))
  }

  /** Every string is at most itself. */
  lemma {:induction false} LexLeqRefl(a: string)
    ensures LexLeq(a, a)
  {
    if |a| > 0 {
      LexLeqRefl(a[1..]);
    }
  }

  /** Any two strings are comparable. */
  lemma {:induction false} LexLeqTotal(a: string, b: string)
    ensures LexLeq(a, b) || LexLeq(b, a)
  {
    if |a| > 0 && |b| > 0 && a[0] == b[0] {
      LexLeqTotal(a[1..], b[1..]);
    }
  }

  /** The order is transitive. */
  lemma {:induction false} LexLeqTrans(a: string, b: string, c: string)
    requires LexLeq(a, b) && LexLeq(b, c)
    ensures LexLeq(a, c)
  {
    if |a| > 0 && a[0] == b[0] && b[0] == c[0] {
      LexLeqTrans(a[1..], b[1..], c[1..]);
    }
  }

  /** The order is antisymmetric: equal strings are the only ones ordered both ways. */
  lemma {:induction false} LexLeqAntisymmetric(a: string, b: string)
    requires LexLeq(a, b) && LexLeq(b, a)
    ensures a == b
  {
    if |a| > 0 {
      LexLeqAntisymmetric(a[1..], b[1..]);
      assert a == [a[0]] + a[1..] && b == [b[0]] + b[1..];
    }
  }

  predicate IsLower(c: char) { 'a' <= c <= 'z' }

  predicate IsUpper(c: char) { 'A' <= c <= 'Z' }

  /** A letter that has an upper- and a lower-case form. */
  predicate IsCased(c: char) { IsLower(c) || IsUpper(c) }

  function UpperChar(c: char): (u: char)
    ensures IsCased(c) ==> IsUpper(u) && LowerChar(u) == LowerChar(c)
    ensures !IsCased(c) ==> u == c
  {
    if IsLower(c) then (c as int - 32) as char else c
  }

  function LowerChar(c: char): (l: char)
    ensures IsCased(c) ==> IsLower(l)
  {
    if IsUpper(c) then (c as int + 32) as char else c
  }

  /** Either case mapping keeps a character's lower-case form; `upper`
      leaves no lower-case letter and `lower` no upper-case one. */
  lemma CaseMapsFold(c: char)
    ensures LowerChar(UpperChar(c)) == LowerChar(c) && LowerChar(LowerChar(c)) == LowerChar(c)
    ensures !IsLower(UpperChar(c)) && !IsUpper(LowerChar(c))
  {
  }

  /** Python's `s.upper()`. */
  function Upper(s: string): (r: string)
    ensures |r| == |s|
    ensures forall i :: 0 <= i < |s| ==> !IsLower(r[i])
    ensures forall i :: 0 <= i < |s| ==> LowerChar(r[i]) == LowerChar(s[i])
  {
    seq(|s|, i requires 0 <= i < |s| => UpperChar(s[i]))
  }

  /** Python's `s.title()`: a character is upper-cased when it starts the
      string or follows an uncased character, and lower-cased otherwise. */
  function Title(s: string): (r: string)
    ensures |r| == |s|
    // only the case of letters changes
    ensures forall i :: 0 <= i < |s| ==> LowerChar(r[i]) == LowerChar(s[i])
    // a word starts upper-case and continues lower-case
    ensures forall i :: 0 <= i < |s| && (i == 0 || !IsCased(s[i - 1])) ==> !IsLower(r[i])
    ensures forall i :: 0 < i < |s| && IsCased(s[i - 1]) ==> !IsUpper(r[i])
  {
    var r := seq(|s|, i requires 0 <= i < |s| =>
      if i == 0 || !IsCased(s[i - 1]) then UpperChar(s[i]) else LowerChar(s[i]));
    forall i | 0 <= i < |s|
      ensures LowerChar(r[i]) == LowerChar(s[i])
      ensures (i == 0 || !IsCased(s[i - 1])) ==> !IsLower(r[i])
      ensures (0 < i && IsCased(s[i - 1])) ==> !IsUpper(r[i])
    {
      CaseMapsFold(s[i]);
    }
    r
  }

  /** A word of lower-case letters title-cases to its first letter upper-cased. */
  lemma TitleOfLowerWord(w: string)
    requires |w| > 0 && forall i :: 0 <= i < |w| ==> IsLower(w[i])
    ensures Title(w) == [UpperChar(w[0])] + w[1..]
  {
    forall i | 0 < i < |w| ensures Title(w)[i] == w[i] {
      assert IsLower(w[i - 1]);
    }
  }

  /** `s` and `w` spell the same text up to the case of letters. */
  predicate EqualsIgnoringCase(s: string, w: string)
  {
    |s| == |w| && forall i :: 0 <= i < |s| ==> LowerChar(s[i]) == LowerChar(w[i])
  }

  /** Two characters upper-case alike exactly when they lower-case alike. */
  lemma CaseFoldAgree(a: char, b: char)
    ensures UpperChar(a) == UpperChar(b) <==> LowerChar(a) == LowerChar(b)
  {
  }

  /** `upper` sends exactly the case variants of `w` to `w.upper()`. */
  lemma UpperMatchesIff(s: string, w: string)
    ensures Upper(s) == Upper(w) <==> EqualsIgnoringCase(s, w)
  {
    if |s| == |w| {
      forall i | 0 <= i < |s| ensures UpperChar(s[i]) == UpperChar(w[i]) <==> LowerChar(s[i]) == LowerChar(w[i]) {
        CaseFoldAgree(s[i], w[i]);
      }
      if EqualsIgnoringCase(s, w) {
        assert forall i :: 0 <= i < |s| ==> Upper(s)[i] == Upper(w)[i];
      }
      if Upper(s) == Upper(w) {
        assert forall i :: 0 <= i < |s| ==> UpperChar(s[i]) == Upper(s)[i] == Upper(w)[i] == UpperChar(w[i]);
      }
    }
  }

  /** For a word `w` made only of letters, `title` sends exactly the case
      variants of `w` to `w.title()`. */
  lemma TitleMatchesIff(s: string, w: string)
    requires forall i :: 0 <= i < |w| ==> IsCased(w[i])
    ensures Title(s) == Title(w) <==> EqualsIgnoringCase(s, w)
  {
    if |s| == |w| {
      if EqualsIgnoringCase(s, w) {
        forall i | 0 <= i < |s| ensures Title(s)[i] == Title(w)[i] {
          assert IsCased(s[i]);
          if i == 0 {
            CaseFoldAgree(s[i], w[i]);
          } else {
            assert IsCased(s[i - 1]);
          }
        }
      }
      if Title(s) == Title(w) {
        forall i | 0 <= i < |s| ensures LowerChar(s[i]) == LowerChar(w[i]) {
          assert Title(s)[i] == Title(w)[i];
        }
      }
    }
  }
}
