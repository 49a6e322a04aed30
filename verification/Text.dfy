/** Strings as Python compares them: lexicographically, by code point. */
module Text {

  // `s < t` on Python strings.
  predicate StringLess(s: string, t: string) {
    if t == "" then false
    else if s == "" then true
    else if s[0] != t[0] then s[0] < t[0]
    else StringLess(s[1..], t[1..])
  }

  lemma {:induction false} StringLessIrreflexive(s: string)
    ensures !StringLess(s, s)
  {
    if s != "" {
      StringLessIrreflexive(s[1..]);
    }
  }

  lemma {:induction false} StringLessTransitive(s: string, t: string, u: string)
    requires StringLess(s, t) && StringLess(t, u)
    ensures StringLess(s, u)
  {
    if s != "" && s[0] == t[0] == u[0] {
      StringLessTransitive(s[1..], t[1..], u[1..]);
    }
  }

  lemma StringLessAsymmetric(s: string, t: string)
    requires StringLess(s, t)
    ensures !StringLess(t, s)
  {
    if StringLess(t, s) {
      StringLessTransitive(s, t, s);
      StringLessIrreflexive(s);
    }
  }

  // Any two strings are comparable, so the order is total.
  lemma {:induction false} StringLessTotal(s: string, t: string)
    ensures s == t || StringLess(s, t) || StringLess(t, s)
  {
    if s != "" && t != "" && s[0] == t[0] {
      StringLessTotal(s[1..], t[1..]);
      assert s == [s[0]] + s[1..] && t == [t[0]] + t[1..];
    }
  }

  // The first difference decides by code point, and what begins a text is less than it.
  lemma {:induction false} StringLessIff(s: string, t: string)
    ensures StringLess(s, t) <==>
            s < t || exists k :: 0 <= k < |s| && k < |t| && s[..k] == t[..k] && s[k] < t[k]
  {
    if s != "" && t != "" {
      var s', t' := s[1..], t[1..];
      assert s == [s[0]] + s' && t == [t[0]] + t';
      if s[0] == t[0] {
        StringLessIff(s', t');
        assert s < t <==> s' < t';
        if k :| 0 <= k < |s'| && k < |t'| && s'[..k] == t'[..k] && s'[k] < t'[k] {
          assert s[..k + 1] == [s[0]] + s'[..k] && t[..k + 1] == [t[0]] + t'[..k];
          assert s[k + 1] < t[k + 1];
        }
        if k :| 0 <= k < |s| && k < |t| && s[..k] == t[..k] && s[k] < t[k] {
          assert k > 0 && s'[..k - 1] == s[1..k] && t'[..k - 1] == t[1..k];
          assert s[1..k] == s[..k][1..] && t[1..k] == t[..k][1..];
          assert s'[k - 1] < t'[k - 1];
        }
      } else if s[0] < t[0] {
        assert s[..0] == t[..0];
      } else {
        forall k | 0 < k < |s| && k < |t| ensures s[..k] != t[..k] {
          assert s[..k][0] != t[..k][0];
        }
      }
    }
  }
}
