/** UserValidator.java: the text forms a user may type for an identifier. */
module UserValidator {
  import opened Text
  import opened Wrappers
  import opened UserIds

  predicate AllHex(s: string) {
    forall i :: 0 <= i < |s| ==> IsHexChar(s[i])
  }

  /** The lower-case hexadecimal digits `[0-9a-f]`. */
  predicate IsLowerHex(c: char) { '0' <= c <= '9' || 'a' <= c <= 'f' }

  /** `[0-9a-f]{g0}-[0-9a-f]{g1}-...` with CASE_INSENSITIVE, as a whole-string match. */
  predicate MatchesGroups(s: string, groups: seq<nat>)
    decreases groups
  {
    if groups == [] then s == []
    else
      var n := groups[0];
      |s| >= n && AllHex(s[..n]) &&
      if |groups| == 1 then |s| == n
      else |s| > n && s[n] == '-' && MatchesGroups(s[n + 1..], groups[1..])
  }

  const UUID_GROUPS: seq<nat> := [8, 4, 4, 4, 12]

  /** isValidUuid: non-null and matching the 8-4-4-4-12 pattern in either case. */
  predicate IsValidUuid(s: Option<string>) {
    s.Some? && MatchesGroups(s.value, UUID_GROUPS)
  }

  /** isValidShortId: non-null, at least eight characters, each a lower-case hexadecimal digit. */
  predicate IsValidShortId(s: Option<string>) {
    s.Some? && |s.value| >= SHORT_ID_LENGTH && forall i :: 0 <= i < |s.value| ==> IsLowerHex(s.value[i])
  }

  /** One group of n hex digits followed by a dash, read positionally. */
  lemma GroupStep(s: string, n: nat, rest: seq<nat>)
    requires rest != []
    ensures MatchesGroups(s, [n] + rest) <==>
              |s| > n && AllHex(s[..n]) && s[n] == '-' && MatchesGroups(s[n + 1..], rest)
  {
    assert ([n] + rest)[1..] == rest;
  }

  /** The pattern accepts exactly the canonical 36-character text form, in either case. */
  lemma {:induction false} UuidPatternIsCanonical(s: string)
    ensures IsValidUuid(Some(s)) <==> IsCanonicalUuidText(s)
    ensures IsValidUuid(Some(s)) ==> |s| == UUID_TEXT_LENGTH
  {
    assert UUID_GROUPS == [8] + [4, 4, 4, 12];
    GroupStep(s, 8, [4, 4, 4, 12]);
    if |s| > 8 {
      var s1 := s[9..];
      assert [4, 4, 4, 12] == [4] + [4, 4, 12];
      GroupStep(s1, 4, [4, 4, 12]);
      if |s1| > 4 {
        var s2 := s1[5..];
        assert [4, 4, 12] == [4] + [4, 12];
        GroupStep(s2, 4, [4, 12]);
        if |s2| > 4 {
          var s3 := s2[5..];
          assert [4, 12] == [4] + [12];
          GroupStep(s3, 4, [12]);
          if |s3| > 4 {
            var s4 := s3[5..];
            assert MatchesGroups(s4, [12]) <==> |s4| == 12 && AllHex(s4);
            assert s4 == s[24..] && s3 == s[19..] && s2 == s[14..];
            if IsCanonicalUuidText(s) {
              assert AllHex(s[..8]) && AllHex(s1[..4]) && AllHex(s2[..4]) && AllHex(s3[..4]) && AllHex(s4);
            }
            if IsValidUuid(Some(s)) {
              forall k | 0 <= k < |s| && !IsDashPosition(k) ensures IsHexChar(s[k]) {
                if k < 8 { assert s[k] == s[..8][k]; }
                else if k < 13 { assert s[k] == s1[..4][k - 9]; }
                else if k < 18 { assert s[k] == s2[..4][k - 14]; }
                else if k < 23 { assert s[k] == s3[..4][k - 19]; }
                else { assert s[k] == s4[k - 24]; }
              }
            }
          }
        }
      }
    }
  }

  /** Every id's canonical string and short id pass the validator. */
  lemma AcceptsOwnForms(u: UserId)
    ensures IsValidUuid(Some(ToString(u)))
    ensures IsValidShortId(Some(ShortId(u)))
  {
    UuidPatternIsCanonical(ToString(u));
  }

  /** The text forms the validator accepts are exactly the ones the canonical-only UserIds.FromString parses. */
  lemma ValidUuidParses(s: string)
    ensures IsValidUuid(Some(s)) <==> FromString(s).Ok?
  {
    UuidPatternIsCanonical(s);
  }

  /** A valid short id of at most 36 characters that is a prefix of an id's string matches that id. */
  lemma ValidShortIdMatches(u: UserId, s: string)
    requires IsValidShortId(Some(s)) && StartsWith(ToString(u), s)
    ensures MatchesShortId(u, Some(s))
  {
    assert forall k :: 0 <= k < |s| ==> ToLowerChar(s[k]) == s[k] == ToString(u)[k];
  }

  /** Upper-case hex is refused here, although UserId.matchesShortId accepts it. */
  lemma UpperCaseShortIdRejected(u: UserId)
    requires u.value[0] == 10
    ensures var s := ['A'] + ShortId(u)[1..];
            !IsValidShortId(Some(s)) && MatchesShortId(u, Some(s))
  {
    var s := ['A'] + ShortId(u)[1..];
    assert ShortId(u)[0] == 'a' && s[0] == 'A';
    assert forall k :: 1 <= k < |s| ==> s[k] == ShortId(u)[k];
    MatchesIgnoresCase(u, s);
  }
}
