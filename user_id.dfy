/** UserId.java: a user identifier wrapping a 128-bit UUID, with its 8-character short id. */
module UserIds {
  import opened Text
  import opened Errors
  import opened Wrappers

  newtype Nibble = x: int | 0 <= x < 16

  /** The 128 bits of a UUID as 32 hexadecimal digits, most significant first. */
  type Uuid = s: seq<Nibble> | |s| == 32 witness seq(32, i => 0)

  /** Equality is by the underlying UUID value. */
  datatype UserId = UserId(value: Uuid)

  const UUID_TEXT_LENGTH: nat := 36
  const SHORT_ID_LENGTH: nat := 8

  /** The positions of the four dashes in the 8-4-4-4-12 form. */
  predicate IsDashPosition(k: int) { k == 8 || k == 13 || k == 18 || k == 23 }

  /** The nibble shown at text position k of the canonical form (k not a dash position). */
  function NibbleIndex(k: nat): (i: nat)
    requires k < UUID_TEXT_LENGTH && !IsDashPosition(k)
    ensures i < 32
  {
    if k < 8 then k else if k < 13 then k - 1 else if k < 18 then k - 2 else if k < 23 then k - 3 else k - 4
  }

  /** Lower-case hexadecimal digit, as UUID.toString writes it. */
  function HexDigit(n: Nibble): (c: char)
    ensures IsHexChar(c) && ToLowerChar(c) == c
  {
    if n < 10 then '0' + n as char else 'a' + (n - 10) as char
  }

  predicate IsHexChar(c: char) { '0' <= c <= '9' || 'a' <= c <= 'f' || 'A' <= c <= 'F' }

  function HexValue(c: char): (n: Nibble)
    requires IsHexChar(c)
  {
    if c <= '9' then (c - '0') as Nibble
    else if c <= 'F' then (c - 'A') as Nibble + 10
    else (c - 'a') as Nibble + 10
  }

  lemma HexRoundTrip(n: Nibble)
    ensures HexValue(HexDigit(n)) == n
  {
  }

  /** UUID.toString: lower-case hex in groups 8-4-4-4-12 separated by '-'. */
  function ToString(u: UserId): (s: string)
    ensures |s| == UUID_TEXT_LENGTH
    ensures forall k :: 0 <= k < |s| && IsDashPosition(k) ==> s[k] == '-'
    ensures forall k :: 0 <= k < |s| && !IsDashPosition(k) ==> s[k] == HexDigit(u.value[NibbleIndex(k)])
  {
    seq(UUID_TEXT_LENGTH, k requires 0 <= k < UUID_TEXT_LENGTH =>
      if IsDashPosition(k) then '-' else HexDigit(u.value[NibbleIndex(k)]))
  }

  /** The 8-4-4-4-12 hexadecimal syntax of section 3 of RFC 4122, either case. */
  predicate IsCanonicalUuidText(s: string) {
    |s| == UUID_TEXT_LENGTH &&
    forall k :: 0 <= k < |s| ==> if IsDashPosition(k) then s[k] == '-' else IsHexChar(s[k])
  }

  /** The text position at which nibble i is written. */
  function TextPosition(i: nat): (k: nat)
    requires i < 32
    ensures k < UUID_TEXT_LENGTH && !IsDashPosition(k) && NibbleIndex(k) == i
  {
    if i < 8 then i else if i < 12 then i + 1 else if i < 16 then i + 2 else if i < 20 then i + 3 else i + 4
  }

  /**
   * UserId.fromString over the canonical text form (upper- or lower-case hex);
   * anything else is refused with IllegalArgumentException.
   */
  function FromString(s: string): (r: Result<UserId>)
    ensures r.Ok? <==> IsCanonicalUuidText(s)
    ensures r.Err? ==> r.error == IllegalArgument(InvalidUuid)
    ensures r.Ok? ==> ToString(r.value) == ToLower(s)
  {
    if !IsCanonicalUuidText(s) then Err(IllegalArgument(InvalidUuid))
    else
      var nibbles := seq(32, i requires 0 <= i < 32 => HexValue(s[TextPosition(i)]));
      var u := UserId(nibbles);
      assert forall k :: 0 <= k < UUID_TEXT_LENGTH && !IsDashPosition(k) ==>
        ToString(u)[k] == HexDigit(HexValue(s[k])) == ToLowerChar(s[k]) by {
        forall k | 0 <= k < UUID_TEXT_LENGTH && !IsDashPosition(k)
          ensures HexDigit(HexValue(s[k])) == ToLowerChar(s[k])
        {
          assert TextPosition(NibbleIndex(k)) == k;
        }
      }
      Ok(u)
  }

  /** Parsing the canonical string of an id gives the same id back. */
  lemma FromStringToString(u: UserId)
    ensures FromString(ToString(u)) == Ok(u)
  {
    var s := ToString(u);
    var v := FromString(s).value;
    assert ToString(v) == ToLower(s) == s;
    forall i | 0 <= i < 32 ensures v.value[i] == u.value[i] {
      var k := TextPosition(i);
      HexRoundTrip(u.value[i]);
      HexRoundTrip(v.value[i]);
      assert HexDigit(v.value[i]) == s[k] == HexDigit(u.value[i]);
    }
    assert v.value == u.value;
  }

  /** UserId.shortId: the first eight characters of the canonical string. */
  function ShortId(u: UserId): (s: string)
    ensures |s| == SHORT_ID_LENGTH && StartsWith(ToString(u), s)
    ensures forall k :: 0 <= k < |s| ==> s[k] == HexDigit(u.value[k])
  {
    ToString(u)[..SHORT_ID_LENGTH]
  }

  /**
   * UserId.matchesShortId: non-null, at least eight characters, and its lower-case form
   * a prefix of the (already lower-case) canonical string.
   */
  function MatchesShortId(u: UserId, s: Option<string>): (r: bool)
    ensures r <==> s.Some? && SHORT_ID_LENGTH <= |s.value| <= UUID_TEXT_LENGTH &&
                   forall k :: 0 <= k < |s.value| ==> ToLowerChar(s.value[k]) == ToString(u)[k]
  {
    s.Some? && |s.value| >= SHORT_ID_LENGTH && StartsWith(ToLower(ToString(u)), ToLower(s.value))
  }

  /** The canonical string is already lower case. */
  lemma ToStringIsLowerCase(u: UserId)
    ensures ToLower(ToString(u)) == ToString(u)
  {
  }

  /** An id matches its own short id and its own full string. */
  lemma MatchesOwnForms(u: UserId)
    ensures MatchesShortId(u, Some(ShortId(u)))
    ensures MatchesShortId(u, Some(ToString(u)))
  {
  }

  /** Matching ignores case: an upper-cased short id matches too. */
  lemma MatchesIgnoresCase(u: UserId, s: string)
    requires |s| == SHORT_ID_LENGTH
    requires forall k :: 0 <= k < |s| ==> ToLowerChar(s[k]) == ShortId(u)[k]
    ensures MatchesShortId(u, Some(s))
  {
  }
}
