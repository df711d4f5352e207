/** Url.java: the value object for a destination URL, normalised once at construction. */
module Urls {
  import opened Text
  import opened Errors
  import opened Wrappers

  /** The longest raw input the constructor accepts (checked before normalisation). */
  const MAX_RAW_LENGTH: nat := 2048

  /** A character matched by `[\p{Cntrl}\s]`, which normalisation deletes everywhere. */
  predicate IsStripped(c: char) { IsCntrl(c) || IsRegexSpace(c) }

  predicate NoLineTerminator(s: string) {
    forall i :: 0 <= i < |s| ==> !IsLineTerminator(s[i])
  }

  /** `replaceAll("[\\p{Cntrl}\\s]+", "")`. */
  function RemoveStripped(s: string): (r: string)
    ensures |r| <= |s|
    ensures forall i :: 0 <= i < |r| ==> !IsStripped(r[i])
    ensures NoLineTerminator(s) ==> NoLineTerminator(r)
    ensures (forall i :: 0 <= i < |s| ==> !IsStripped(s[i])) ==> r == s
  {
    if s == [] then []
    else (if IsStripped(s[0]) then [] else [s[0]]) + RemoveStripped(s[1..])
  }

  /** A single character is deleted exactly when it is a stripped one. */
  lemma RemoveStrippedOne(c: char)
    ensures RemoveStripped([c]) == if IsStripped(c) then [] else [c]
  {
    assert [c][1..] == [];
  }

  /** Deletion works character by character: the kept characters stay, in order. */
  lemma {:induction false} RemoveStrippedAppend(a: string, b: string)
    ensures RemoveStripped(a + b) == RemoveStripped(a) + RemoveStripped(b)
  {
    if a == [] {
      assert a + b == b;
    } else {
      assert (a + b)[0] == a[0];
      assert (a + b)[1..] == a[1..] + b;
      RemoveStrippedAppend(a[1..], b);
    }
  }

  /** So a stripped character inside the text simply disappears, e.g. "exa mple.com" becomes "example.com". */
  lemma RemoveStrippedDeletes(a: string, c: char, b: string)
    requires IsStripped(c)
    ensures RemoveStripped(a + [c] + b) == RemoveStripped(a) + RemoveStripped(b)
  {
    RemoveStrippedAppend(a + [c], b);
    RemoveStrippedAppend(a, [c]);
    RemoveStrippedOne(c);
  }

  predicate StartsWithScheme(s: string) {
    StartsWith(s, "http://") || StartsWith(s, "https://") || StartsWith(s, "ftp://")
  }

  /** `url.matches("^(http|https|ftp)://.*")`: a scheme prefix, and no character that `.` refuses. */
  predicate MatchesSchemePattern(s: string) {
    StartsWithScheme(s) && NoLineTerminator(s)
  }

  /** Url.normalize: trim, delete control and whitespace characters, prefix https:// when the pattern fails. */
  function Normalize(raw: string): (r: string)
    ensures StartsWithScheme(r)
    ensures forall i :: 0 <= i < |r| ==> !IsStripped(r[i])
    ensures |r| <= |raw| + 8
    ensures NoLineTerminator(raw) ==> NoLineTerminator(r)
  {
    TrimKeepsNoLineTerminator(raw);
    var url := RemoveStripped(Trim(raw));
    if !MatchesSchemePattern(url) then
      PrefixHttps(url);
      "https://" + url
    else url
  }

  /** Trimming only removes characters, so it keeps the absence of line terminators. */
  lemma TrimKeepsNoLineTerminator(raw: string)
    ensures NoLineTerminator(raw) ==> NoLineTerminator(Trim(raw))
  {
    var a := TrimStart(raw);
    var t := Trim(raw);
    assert t == raw[|raw| - |a|..][..|t|];
  }

  /** Prefixing https:// gives a scheme and adds no stripped character and no line terminator. */
  lemma PrefixHttps(url: string)
    ensures var r := "https://" + url;
            StartsWithScheme(r) && |r| == |url| + 8 &&
            ((forall i :: 0 <= i < |url| ==> !IsStripped(url[i])) ==> forall i :: 0 <= i < |r| ==> !IsStripped(r[i])) &&
            (NoLineTerminator(url) ==> NoLineTerminator(r))
  {
    var r := "https://" + url;
    assert r[..8] == "https://";
    assert forall i :: 8 <= i < |r| ==> r[i] == url[i - 8];
  }

  datatype Url = Url(value: string)

  /** The constructor `new Url(value)`: validate, then normalise; null is None. */
  function MakeUrl(raw: Option<string>): (r: Result<Url>)
    ensures r.Ok? <==> raw.Some? && !IsBlank(raw.value) && |raw.value| <= MAX_RAW_LENGTH
    ensures r.Err? ==> r.error == IllegalArgument(if raw.None? || IsBlank(raw.value) then BlankUrl else UrlTooLong)
    ensures r.Ok? ==> StartsWithScheme(r.value.value) && |r.value.value| <= MAX_RAW_LENGTH + 8
    ensures r.Ok? ==> forall i :: 0 <= i < |r.value.value| ==> !IsStripped(r.value.value[i])
  {
    if raw.None? || IsBlank(raw.value) then Err(IllegalArgument(BlankUrl))
    else if |raw.value| > MAX_RAW_LENGTH then Err(IllegalArgument(UrlTooLong))
    else Ok(Url(Normalize(raw.value)))
  }

  /** On a string without control or whitespace characters, Normalize only decides about the prefix. */
  lemma NormalizeClean(v: string)
    requires forall i :: 0 <= i < |v| ==> !IsStripped(v[i])
    ensures Normalize(v) == if MatchesSchemePattern(v) then v else "https://" + v
  {
    TrimNoop(v);
    assert RemoveStripped(Trim(v)) == v;
  }

  /** A normalised value without line terminators is a fixed point of Normalize. */
  lemma NormalizeFixedPoint(v: string)
    requires StartsWithScheme(v)
    requires forall i :: 0 <= i < |v| ==> !IsStripped(v[i])
    requires NoLineTerminator(v)
    ensures Normalize(v) == v
  {
    NormalizeClean(v);
  }

  /** Idempotence of normalisation, for inputs without line terminators. */
  lemma NormalizeIdempotent(raw: string)
    requires NoLineTerminator(raw)
    ensures Normalize(Normalize(raw)) == Normalize(raw)
  {
    NormalizeFixedPoint(Normalize(raw));
  }

  /** Rebuilding a Url from its own value gives it back, unless the value outgrew the raw-length limit. */
  lemma {:induction false} Reconstruct(raw: string, u: Url)
    requires MakeUrl(Some(raw)) == Ok(u)
    requires NoLineTerminator(raw)
    ensures MakeUrl(Some(u.value)) == if |u.value| <= MAX_RAW_LENGTH then Ok(u) else Err(IllegalArgument(UrlTooLong))
  {
    BlankIff(u.value);
    assert !IsTrimmable(u.value[0]);
    if |u.value| <= MAX_RAW_LENGTH {
      NormalizeFixedPoint(u.value);
    }
  }

  /** A raw input of 2048 characters without a scheme is accepted and stored with 2056 characters. */
  lemma StoredValueCanExceedLimit()
    ensures var raw := seq(MAX_RAW_LENGTH, i => 'a');
            MakeUrl(Some(raw)).Ok? && |MakeUrl(Some(raw)).value.value| == MAX_RAW_LENGTH + 8
  {
    var raw := seq(MAX_RAW_LENGTH, i => 'a');
    assert !IsTrimmable(raw[0]);
    BlankIff(raw);
    TrimNoop(raw);
    assert RemoveStripped(Trim(raw)) == raw;
    assert !StartsWith(raw, "http://") && !StartsWith(raw, "https://") && !StartsWith(raw, "ftp://") by {
      assert raw[0] == 'a';
    }
  }

  /**
   * A line terminator anywhere (U+2028 after "http://a", say) defeats the pattern, so every
   * normalisation prefixes https:// once more.
   */
  lemma {:induction false} LineTerminatorNotIdempotent(v: string, k: nat)
    requires forall i :: 0 <= i < |v| ==> !IsStripped(v[i])
    requires k < |v| && IsLineTerminator(v[k])
    ensures Normalize(v) == "https://" + v
    ensures Normalize(Normalize(v)) == "https://" + Normalize(v) != Normalize(v)
  {
    NormalizeClean(v);
    var once := "https://" + v;
    PrefixHttps(v);
    assert once[k + 8] == v[k];
    NormalizeClean(once);
  }

  /** A clean scheme-less host is accepted and gets https:// in front. */
  lemma MakeUrlAddsScheme(v: string)
    requires v != [] && |v| <= MAX_RAW_LENGTH
    requires forall i :: 0 <= i < |v| ==> !IsStripped(v[i])
    requires !StartsWithScheme(v)
    ensures MakeUrl(Some(v)) == Ok(Url("https://" + v))
  {
    NormalizeClean(v);
    assert !IsTrimmable(v[0]);
    BlankIff(v);
  }

  /** A clean value that already matches the pattern is accepted unchanged. */
  lemma MakeUrlKeepsNormalized(b: string)
    requires |b| <= MAX_RAW_LENGTH
    requires MatchesSchemePattern(b)
    requires forall i :: 0 <= i < |b| ==> !IsStripped(b[i])
    ensures MakeUrl(Some(b)) == Ok(Url(b))
  {
    NormalizeClean(b);
    assert b[0] == b[..|"ftp://"|][0];
    assert !IsTrimmable(b[0]);
    BlankIff(b);
  }

  /** Equality is by normalised value: a clean host without a scheme and the same host after https:// give equal Urls. */
  lemma {:induction false} SchemeIsOptional(v: string)
    requires v != [] && |v| + 8 <= MAX_RAW_LENGTH
    requires forall i :: 0 <= i < |v| ==> !IsStripped(v[i]) && !IsLineTerminator(v[i])
    requires !StartsWithScheme(v)
    ensures MakeUrl(Some(v)) == MakeUrl(Some("https://" + v)) == Ok(Url("https://" + v))
  {
    assert NoLineTerminator(v);
    PrefixHttps(v);
    MakeUrlAddsScheme(v);
    MakeUrlKeepsNormalized("https://" + v);
  }
}
