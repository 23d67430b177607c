/** The confirmation gate in front of `clear_all_data`: the operator's answer
    passes only when `answer.strip().upper() == "YES"`. Python's `strip` and
    `upper` are modelled on ASCII: `strip` removes the characters for which
    `str.isspace` holds (space, `\t` `\n` `\v` `\f` `\r`, and the separators
    U+001C..U+001F) and `upper` maps `a`..`z` to `A`..`Z`. */
module Confirmation {

  predicate IsSpace(c: char)
  {
    c == ' ' || ('\t' <= c <= '\r') || ('\U{1C}' <= c <= '\U{1F}')
  }

  function StripLeading(s: string): string
  {
    if |s| > 0 && IsSpace(s[0]) then StripLeading(s[1..]) else s
  }

  function StripTrailing(s: string): string
  {
    if |s| > 0 && IsSpace(s[|s| - 1]) then StripTrailing(s[..|s| - 1]) else s
  }

  /** `s.strip()` */
  function Strip(s: string): string
  {
    StripTrailing(StripLeading(s))
  }

  function UpperChar(c: char): char
  {
    if 'a' <= c <= 'z' then (c as int - 32) as char else c
  }

  /** `s.upper()` */
  function Upper(s: string): string
  {
    seq(|s|, i requires 0 <= i < |s| => UpperChar(s[i]))
  }

  /** The answer passes the gate. */
  predicate Confirmed(answer: string)
  {
    Upper(Strip(answer)) == "YES"
  }

  // ------------------------------------------ an independent description

  predicate AllSpace(s: string)
  {
    forall i :: 0 <= i < |s| ==> IsSpace(s[i])
  }

  /** `w` is "yes" in any mix of upper and lower case. */
  predicate IsYes(w: string)
  {
    |w| == 3 && w[0] in "yY" && w[1] in "eE" && w[2] in "sS"
  }

  /** `answer` is whitespace, then "yes" in any case between positions `i` and `j`, then whitespace. */
  predicate PaddedYes(answer: string, i: int, j: int)
  {
    0 <= i <= j <= |answer| && AllSpace(answer[..i]) && IsYes(answer[i..j]) && AllSpace(answer[j..])
  }

  lemma {:induction false} StripLeadingSplit(s: string) returns (i: nat)
    ensures i <= |s| && StripLeading(s) == s[i..] && AllSpace(s[..i])
    ensures i < |s| ==> !IsSpace(s[i])
  {
    if |s| > 0 && IsSpace(s[0]) {
      var k := StripLeadingSplit(s[1..]);
      i := k + 1;
      assert s[..i] == [s[0]] + s[1..][..k];
    } else {
      i := 0;
    }
  }

  lemma {:induction false} StripTrailingSplit(s: string) returns (j: nat)
    ensures j <= |s| && StripTrailing(s) == s[..j] && AllSpace(s[j..])
    ensures 0 < j ==> !IsSpace(s[j - 1])
  {
    if |s| > 0 && IsSpace(s[|s| - 1]) {
      var front := s[..|s| - 1];
      j := StripTrailingSplit(front);
      assert s[j..] == front[j..] + [s[|s| - 1]];
    } else {
      j := |s|;
    }
  }

  lemma {:induction false} StripLeadingPadded(p: string, m: string)
    requires AllSpace(p)
    requires |m| > 0 && !IsSpace(m[0])
    ensures StripLeading(p + m) == m
  {
    if |p| > 0 {
      assert (p + m)[1..] == p[1..] + m;
      StripLeadingPadded(p[1..], m);
    }
  }

  lemma {:induction false} StripTrailingPadded(m: string, q: string)
    requires AllSpace(q)
    requires |m| > 0 && !IsSpace(m[|m| - 1])
    ensures StripTrailing(m + q) == m
  {
    if |q| > 0 {
      assert (m + q)[..|m + q| - 1] == m + q[..|q| - 1];
      StripTrailingPadded(m, q[..|q| - 1]);
    } else {
      assert m + q == m;
    }
  }

  lemma UpperIsYes(w: string)
    ensures Upper(w) == "YES" <==> IsYes(w)
  {
    if IsYes(w) {
      assert Upper(w) == [UpperChar(w[0]), UpperChar(w[1]), UpperChar(w[2])];
    }
    if Upper(w) == "YES" {
      assert |w| == 3;
      assert Upper(w)[0] == UpperChar(w[0]) && Upper(w)[1] == UpperChar(w[1]) && Upper(w)[2] == UpperChar(w[2]);
      assert "YES"[0] == 'Y' && "YES"[1] == 'E' && "YES"[2] == 'S';
      assert UpperChar(w[0]) == 'Y' && UpperChar(w[1]) == 'E' && UpperChar(w[2]) == 'S';
    }
  }

  /** The gate passes exactly for "yes", in any case, with any surrounding whitespace. */
  lemma ConfirmedIff(answer: string)
    ensures Confirmed(answer) <==> exists i, j :: PaddedYes(answer, i, j)
  {
    if Confirmed(answer) {
      var i := StripLeadingSplit(answer);
      var rest := answer[i..];
      var j := StripTrailingSplit(rest);
      UpperIsYes(Strip(answer));
      assert rest[..j] == answer[i..i + j];
      assert rest[j..] == answer[i + j..];
      assert PaddedYes(answer, i, i + j);
    }
    if exists i, j :: PaddedYes(answer, i, j) {
      var i, j :| PaddedYes(answer, i, j);
      var w := answer[i..j];
      assert answer == answer[..i] + (w + answer[j..]);
      StripLeadingPadded(answer[..i], w + answer[j..]);
      StripTrailingPadded(w, answer[j..]);
      UpperIsYes(w);
    }
  }
}
