/**
  The display-name clean-up applied to station names: the JavaScript call
  `name.replace(/\.profinet.*$/, '')`.

  The regular expression has no flags, so `.` matches any character except a
  line terminator and `$` matches only at the very end of the input. The
  leftmost position at which the literal ".profinet" starts AND from which
  the rest of the input holds no line terminator is the match; without the
  `g` flag only that match is replaced, and since it runs to the end of the
  input the result is the part before it.
*/
module StationName {
  import opened Wrappers

  const Suffix: string := ".profinet"

  /** The characters that the JavaScript `.` does not match. */
  predicate IsLineTerminator(c: char) {
    c == '\n' || c == '\r' || c == '\U{2028}' || c == '\U{2029}'
  }

  predicate NoLineTerminator(s: string) {
    forall i :: 0 <= i < |s| ==> !IsLineTerminator(s[i])
  }

  /** `s` holds the literal ".profinet" starting at position `i`. */
  predicate OccursAt(s: string, i: nat) {
    i + |Suffix| <= |s| && s[i..i + |Suffix|] == Suffix
  }

  /** The regular expression matches when started at position `i`. */
  predicate MatchesAt(s: string, i: nat) {
    OccursAt(s, i) && NoLineTerminator(s[i + |Suffix|..])
  }

  /** The leftmost match at or after `i`, if any. */
  function FirstMatchFrom(s: string, i: nat): (r: Option<nat>)
    requires i <= |s|
    decreases |s| - i
    ensures r.Some? ==> i <= r.value < |s| && MatchesAt(s, r.value)
    ensures r.Some? ==> forall j :: i <= j < r.value ==> !MatchesAt(s, j)
    ensures r.None? ==> forall j :: i <= j <= |s| ==> !MatchesAt(s, j)
  {
    if MatchesAt(s, i) then Some(i)
    else if i == |s| then None
    else FirstMatchFrom(s, i + 1)
  }

  /**
    `s.replace(/\.profinet.*$/, '')`. The result is a prefix of `s`; it is
    `s` itself exactly when the expression does not match; otherwise the
    expression matches where the result ends, and nowhere before.
  */
  function StripProfinet(s: string): (r: string)
    ensures |r| <= |s| && r == s[..|r|]
    ensures r == s <==> forall j :: 0 <= j <= |s| ==> !MatchesAt(s, j)
    ensures r != s ==> MatchesAt(s, |r|)
    ensures forall j :: 0 <= j < |r| ==> !MatchesAt(s, j)
  {
    match FirstMatchFrom(s, 0)
    case None => s
    case Some(i) => s[..i]
  }

  lemma NoLineTerminatorAppend(a: string, b: string)
    requires NoLineTerminator(a) && NoLineTerminator(b)
    ensures NoLineTerminator(a + b)
  {
    forall i | 0 <= i < |a + b|
      ensures !IsLineTerminator((a + b)[i])
    {
      if i < |a| {
        assert (a + b)[i] == a[i];
      } else {
        assert (a + b)[i] == b[i - |a|];
      }
    }
  }

  lemma NoLineTerminatorSuffix(s: string, k: nat)
    requires NoLineTerminator(s) && k <= |s|
    ensures NoLineTerminator(s[k..])
  {
    forall i | 0 <= i < |s[k..]|
      ensures !IsLineTerminator(s[k..][i])
    {
      assert s[k..][i] == s[k + i];
    }
  }

  lemma NoLineTerminatorPrefix(s: string, k: nat)
    requires NoLineTerminator(s) && k <= |s|
    ensures NoLineTerminator(s[..k])
  {
    forall i | 0 <= i < k
      ensures !IsLineTerminator(s[..k][i])
    {
      assert s[..k][i] == s[i];
    }
  }

  /** A match that ends before a later match is a match of the part before that later match, and back. */
  lemma MatchBeforeMatch(s: string, i: nat, j: nat)
    requires MatchesAt(s, i) && j + |Suffix| <= i
    ensures MatchesAt(s[..i], j) <==> MatchesAt(s, j)
  {
    var n := |Suffix|;
    var r := s[..i];
    assert r[j..j + n] == s[j..j + n];
    assert s[j + n..] == r[j + n..] + s[i..];
    assert s[i..] == s[i..i + n] + s[i + n..];
    assert NoLineTerminator(s[i..i + n]) by {
      assert s[i..i + n] == Suffix;
    }
    NoLineTerminatorAppend(s[i..i + n], s[i + n..]);
    if MatchesAt(r, j) {
      NoLineTerminatorAppend(r[j + n..], s[i..]);
    }
    if MatchesAt(s, j) {
      assert r[j + n..] == s[j + n..i];
      NoLineTerminatorPrefix(s[j + n..], i - j - n);
    }
  }

  /** Stripping twice is stripping once: what is left never matches again. */
  lemma StripIdempotent(s: string)
    ensures StripProfinet(StripProfinet(s)) == StripProfinet(s)
  {
    var r := StripProfinet(s);
    if r != s {
      forall j | 0 <= j <= |r|
        ensures !MatchesAt(r, j)
      {
        if j + |Suffix| <= |r| {
          MatchBeforeMatch(s, |r|, j);
        }
      }
    }
  }

  /**
    For a name without line terminators (every CSV field here) the strip
    cuts at the first occurrence of ".profinet": the result holds no
    occurrence, and when something was removed it starts with ".profinet".
  */
  lemma StripCutsAtFirstOccurrence(s: string)
    requires NoLineTerminator(s)
    ensures var r := StripProfinet(s);
      && (forall j :: 0 <= j <= |r| ==> !OccursAt(r, j))
      && (r != s ==> OccursAt(s, |r|))
      && (r == s <==> forall j :: 0 <= j <= |s| ==> !OccursAt(s, j))
  {
    var r := StripProfinet(s);
    forall j | 0 <= j <= |s| && OccursAt(s, j)
      ensures MatchesAt(s, j)
    {
      NoLineTerminatorSuffix(s, j + |Suffix|);
    }
    forall j | 0 <= j <= |r| && OccursAt(r, j)
      ensures false
    {
      assert r[j..j + |Suffix|] == s[j..j + |Suffix|];
      assert OccursAt(s, j);
    }
  }

  /** The station name of the two-device scenario loses its suffix. */
  lemma StripExample()
    ensures StripProfinet("fo1.profinet.x") == "fo1"
    ensures StripProfinet("sw1") == "sw1"
  {
    var s := "fo1.profinet.x";
    assert MatchesAt(s, 3) by {
      assert s[3..12] == Suffix;
      assert s[12..] == ".x";
    }
    assert !MatchesAt(s, 0) by { assert s[0] != '.'; }
    assert !MatchesAt(s, 1) by { assert s[1] != '.'; }
    assert !MatchesAt(s, 2) by { assert s[2] != '.'; }
  }
}
