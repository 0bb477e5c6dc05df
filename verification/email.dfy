/**
 * The e-mail shape test that both the form and the server apply:
 * the regular expression `^[^\s@]+@[^\s@]+\.[^\s@]+$`.
 */
module Email {
  import opened JsText

  /** `[^\s@]` */
  predicate IsPlain(c: char) {
    !IsWhitespace(c) && c != '@'
  }

  /** `[^\s@]*` (non-emptiness is stated where it is needed). */
  predicate AllPlain(s: string) {
    forall k :: 0 <= k < |s| ==> IsPlain(s[k])
  }

  /** What the regular expression matches, read off its structure: a
      non-empty run of plain characters, '@', a non-empty run, '.', and a
      final non-empty run. */
  ghost predicate MatchesEmailPattern(s: string) {
    exists i, j :: 0 < i && i + 1 < j && j + 1 < |s| && s[i] == '@' && s[j] == '.'
                   && AllPlain(s[..i]) && AllPlain(s[i + 1..j]) && AllPlain(s[j + 1..])
  }

  /** The index of the first occurrence of c in s, or |s| when there is none. */
  function IndexOf(s: string, c: char): (i: nat)
    ensures i <= |s|
    ensures i < |s| ==> s[i] == c
    ensures forall k :: 0 <= k < i ==> s[k] != c
  {
    if s == [] then 0
    else if s[0] == c then 0
    else 1 + IndexOf(s[1..], c)
  }

  /** The domain part has a '.' that is neither its first nor its last character. */
  predicate HasInnerDot(d: string) {
    |d| >= 3 && '.' in d[1..|d| - 1]
  }

  /** `re.test(email)` in `validateEmail`, and the server's `emailRegex.test(email)`:
      split at the first '@', then check both sides. */
  function ValidEmail(s: string): (r: bool)
    ensures r ==> |s| >= 5
  {
    var i := IndexOf(s, '@');
    0 < i < |s| && AllPlain(s[..i]) && AllPlain(s[i + 1..]) && HasInnerDot(s[i + 1..])
  }

  /** Every string ValidEmail accepts is matched by the regular expression. */
  lemma ValidEmailSound(s: string)
    requires ValidEmail(s)
    ensures MatchesEmailPattern(s)
  {
    var i := IndexOf(s, '@');
    var d := s[i + 1..];
    var m :| 0 <= m < |d| - 2 && d[1..|d| - 1][m] == '.';
    var j := i + 2 + m;
    assert s[j] == '.';
    assert s[i + 1..j] == d[..m + 1];
    assert s[j + 1..] == d[m + 2..];
  }

  /** Two plain runs joined by a plain character make a plain run. */
  lemma AllPlainJoin(x: string, c: char, y: string)
    requires AllPlain(x) && IsPlain(c) && AllPlain(y)
    ensures AllPlain(x + [c] + y)
  {
    var z := x + [c] + y;
    forall k | 0 <= k < |z| ensures IsPlain(z[k]) {
      if k < |x| {
        assert z[k] == x[k];
      } else if k > |x| {
        assert z[k] == y[k - |x| - 1];
      }
    }
  }

  /** The three runs around '@' and '.' that the pattern names make an
      address ValidEmail accepts. */
  lemma ValidEmailFromParts(s: string, i: nat, j: nat)
    requires 0 < i && i + 1 < j && j + 1 < |s| && s[i] == '@' && s[j] == '.'
    requires AllPlain(s[..i]) && AllPlain(s[i + 1..j]) && AllPlain(s[j + 1..])
    ensures ValidEmail(s)
  {
    FirstAt(s, i);
    var d := s[i + 1..];
    assert d == s[i + 1..j] + [s[j]] + s[j + 1..];
    AllPlainJoin(s[i + 1..j], s[j], s[j + 1..]);
    assert d[1..|d| - 1][j - i - 2] == '.';
  }

  /** Every string the regular expression matches is accepted by ValidEmail. */
  lemma ValidEmailComplete(s: string)
    requires MatchesEmailPattern(s)
    ensures ValidEmail(s)
  {
    var i, j :| 0 < i && i + 1 < j && j + 1 < |s| && s[i] == '@' && s[j] == '.'
                && AllPlain(s[..i]) && AllPlain(s[i + 1..j]) && AllPlain(s[j + 1..]);
    ValidEmailFromParts(s, i, j);
  }

  /** ValidEmail decides exactly the language of the regular expression. */
  lemma ValidEmailMatchesPattern(s: string)
    ensures ValidEmail(s) <==> MatchesEmailPattern(s)
  {
    if ValidEmail(s) {
      ValidEmailSound(s);
    }
    if MatchesEmailPattern(s) {
      ValidEmailComplete(s);
    }
  }

  /** An '@' preceded only by plain characters is the first '@'. */
  lemma FirstAt(s: string, i: nat)
    requires i < |s| && s[i] == '@' && AllPlain(s[..i])
    ensures IndexOf(s, '@') == i
  {
    forall k | 0 <= k < i ensures s[k] != '@' {
      assert s[k] == s[..i][k];
    }
  }

  /** The address splits as L + "@" + R, with L non-empty and free of
      whitespace and '@', R free of whitespace and '@', and a '.' inside R
      that is neither R's first nor its last character. */
  lemma ValidEmailSplit(s: string)
    ensures ValidEmail(s) <==>
      exists i :: 0 < i < |s| && s[i] == '@' && AllPlain(s[..i]) && AllPlain(s[i + 1..])
                  && HasInnerDot(s[i + 1..])
  {
    if exists i :: 0 < i < |s| && s[i] == '@' && AllPlain(s[..i]) && AllPlain(s[i + 1..])
                   && HasInnerDot(s[i + 1..]) {
      var i :| 0 < i < |s| && s[i] == '@' && AllPlain(s[..i]) && AllPlain(s[i + 1..])
               && HasInnerDot(s[i + 1..]);
      FirstAt(s, i);
    }
  }

  /** In an accepted address every character but the one '@' is plain. */
  lemma ValidEmailPlainElsewhere(s: string)
    ensures ValidEmail(s) ==>
      forall k :: 0 <= k < |s| && k != IndexOf(s, '@') ==> IsPlain(s[k])
  {
    var i := IndexOf(s, '@');
    if 0 < i < |s| {
      forall k | 0 <= k < |s| && k != i && AllPlain(s[..i]) && AllPlain(s[i + 1..])
        ensures IsPlain(s[k])
      {
        if k < i {
          assert s[k] == s[..i][k];
        } else {
          assert s[k] == s[i + 1..][k - i - 1];
        }
      }
    }
  }

  /** An address containing whitespace anywhere is refused. */
  lemma ValidEmailRejectsWhitespace(s: string, k: nat)
    requires k < |s| && IsWhitespace(s[k])
    ensures !ValidEmail(s)
  {
    ValidEmailPlainElsewhere(s);
  }

  /** An address containing more than one '@' is refused. */
  lemma ValidEmailRejectsTwoAts(s: string, k1: nat, k2: nat)
    requires k1 < k2 < |s| && s[k1] == '@' && s[k2] == '@'
    ensures !ValidEmail(s)
  {
    ValidEmailPlainElsewhere(s);
  }
}
