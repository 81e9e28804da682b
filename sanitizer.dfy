/** The substitution `syncData` applies to every weather file:
    `content.replace(/\$WEATHER/g, '*WEATHER')`, a global left-to-right replacement of
    the literal `$WEATHER` by `*WEATHER`. */
module Sanitizer {
  import opened Text

  const Placeholder := "$WEATHER"
  const Replacement := "*WEATHER"

  /** `s` starts with `$WEATHER`. */
  predicate StartsWithPlaceholder(s: string) {
    OccursAt(s, Placeholder, 0)
  }

  /** The replacement as the regular-expression engine performs it: scan left to
      right; at a match, emit the replacement and resume after the match. */
  function SanitizeWeather(s: string): (r: string)
    ensures |r| == |s|
    decreases |s|
  {
    if StartsWithPlaceholder(s) then Replacement + SanitizeWeather(s[|Placeholder|..])
    else if s == [] then []
    else [s[0]] + SanitizeWeather(s[1..])
  }

  /** Each match only turns its leading '$' into '*', so the result is `s` with a '*'
      at every position where `$WEATHER` starts, and unchanged elsewhere. */
  lemma {:induction false} SanitizeMarksOccurrences(s: string)
    ensures forall i :: 0 <= i < |s| ==>
      SanitizeWeather(s)[i] == if OccursAt(s, Placeholder, i) then '*' else s[i]
    decreases |s|
  {
    var r := SanitizeWeather(s);
    if StartsWithPlaceholder(s) {
      var k := |Placeholder|;
      SanitizeMarksOccurrences(s[k..]);
      ShiftOccurrences(s, k);
      forall i | 0 <= i < |s|
        ensures r[i] == if OccursAt(s, Placeholder, i) then '*' else s[i]
      {
        if i == 0 {
        } else if i < k {
          NoOccurrenceInside(s, i);
        } else {
          assert r[i] == SanitizeWeather(s[k..])[i - k];
          assert s[k..][i - k] == s[i];
        }
      }
    } else if s != [] {
      SanitizeMarksOccurrences(s[1..]);
      ShiftOccurrences(s, 1);
      forall i | 0 <= i < |s|
        ensures r[i] == if OccursAt(s, Placeholder, i) then '*' else s[i]
      {
        if i > 0 {
          assert r[i] == SanitizeWeather(s[1..])[i - 1];
          assert s[1..][i - 1] == s[i];
        }
      }
    }
  }

  /** `$WEATHER` cannot start inside another `$WEATHER`: its only '$' is its first
      character. */
  lemma NoOccurrenceInside(s: string, i: nat)
    requires StartsWithPlaceholder(s) && 0 < i < |Placeholder|
    ensures !OccursAt(s, Placeholder, i)
  {
    assert s[..|Placeholder|] == Placeholder;
    assert s[i] == Placeholder[i];
    assert Placeholder[i] in "WEATHER" by {
      assert Placeholder == ['$'] + Replacement[1..];
    }
  }

  /** An occurrence in a suffix is an occurrence in the whole text, shifted. */
  lemma ShiftOccurrences(s: string, k: nat)
    requires k <= |s|
    ensures forall i :: 0 <= i < |s| - k ==> (OccursAt(s[k..], Placeholder, i) <==> OccursAt(s, Placeholder, i + k))
  {
    forall i | 0 <= i < |s| - k
      ensures OccursAt(s[k..], Placeholder, i) <==> OccursAt(s, Placeholder, i + k)
    {
      if i + |Placeholder| <= |s| - k {
        assert s[k..][i..i + |Placeholder|] == s[i + k..i + k + |Placeholder|];
      }
    }
  }

  /** No `$WEATHER` is left: every occurrence had its '$' replaced, and the scan
      creates no new one. */
  lemma NoPlaceholderLeft(s: string)
    ensures !Contains(SanitizeWeather(s), Placeholder)
  {
    var r := SanitizeWeather(s);
    var k := |Placeholder|;
    SanitizeMarksOccurrences(s);
    forall i | 0 <= i <= |r|
      ensures !OccursAt(r, Placeholder, i)
    {
      if i + k > |r| {
      } else if OccursAt(s, Placeholder, i) {
        assert r[i..i + k][0] == '*';
      } else {
        assert s[i..i + k] != Placeholder;
        var j :| 0 <= j < k && s[i..i + k][j] != Placeholder[j];
        assert r[i..i + k][j] != Placeholder[j] by {
          assert r[i + j] == '*' || r[i + j] == s[i + j];
          PlaceholderHasNoStar(j);
        }
      }
    }
  }

  /** The replacement character never occurs in `$WEATHER`. */
  lemma PlaceholderHasNoStar(j: int)
    requires 0 <= j < |Placeholder|
    ensures Placeholder[j] != '*'
  {
    assert '*' !in Placeholder;
  }

  /** Text without `$WEATHER` is left as it is. */
  lemma UnchangedWithoutPlaceholder(s: string)
    requires !Contains(s, Placeholder)
    ensures SanitizeWeather(s) == s
  {
    var r := SanitizeWeather(s);
    SanitizeMarksOccurrences(s);
    forall i | 0 <= i < |s|
      ensures r[i] == s[i]
    {
      assert !OccursAt(s, Placeholder, i);
    }
  }

  /** Sanitizing a sanitized file changes nothing more. */
  lemma SanitizeIdempotent(s: string)
    ensures SanitizeWeather(SanitizeWeather(s)) == SanitizeWeather(s)
  {
    NoPlaceholderLeft(s);
    UnchangedWithoutPlaceholder(SanitizeWeather(s));
  }

  /** Only '$' ever changes, and only to '*'. */
  lemma OnlyDollarChanges(s: string, i: nat)
    requires i < |s|
    ensures SanitizeWeather(s)[i] != s[i] ==> s[i] == '$' && SanitizeWeather(s)[i] == '*'
  {
    SanitizeMarksOccurrences(s);
    if OccursAt(s, Placeholder, i) {
      assert s[i] == s[i..i + |Placeholder|][0];
    }
  }
}
