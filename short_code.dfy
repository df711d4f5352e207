/** ShortCode.java: the value object for the code part of a short link. */
module ShortCodes {
  import opened Text
  import opened Errors
  import opened Wrappers

  const MIN_CODE_LENGTH: nat := 3
  const MAX_CODE_LENGTH: nat := 10

  /** A code that passed validation; equality and hashing are by this string. */
  datatype ShortCode = ShortCode(value: string)

  /** Every character in [A-Za-z0-9]. */
  predicate AllAsciiAlnum(s: string) {
    forall i :: 0 <= i < |s| ==> IsAsciiAlnum(s[i])
  }

  /** The textual form validation accepts. */
  predicate IsValidCode(s: string) {
    MIN_CODE_LENGTH <= |s| <= MAX_CODE_LENGTH && AllAsciiAlnum(s)
  }

  /**
   * `new ShortCode(value)`: blank (or null) first, then the 3..10 length range,
   * then the `^[A-Za-z0-9]+$` pattern.
   */
  function MakeShortCode(raw: Option<string>): (r: Result<ShortCode>)
    ensures r.Ok? <==> raw.Some? && IsValidCode(raw.value)
    ensures r.Ok? ==> r.value.value == raw.value
    ensures r.Err? ==> r.error.IllegalArgument?
    ensures r.Err? && (raw.None? || IsBlank(raw.value)) ==> r.error.why == BlankCode
    ensures r.Err? && raw.Some? && !IsBlank(raw.value) ==>
              r.error.why == (if MIN_CODE_LENGTH <= |raw.value| <= MAX_CODE_LENGTH then CodeNotAlphanumeric
                              else CodeLengthOutOfRange)
  {
    if raw.None? || IsBlank(raw.value) then
      Err(IllegalArgument(BlankCode))
    else if |raw.value| < MIN_CODE_LENGTH || |raw.value| > MAX_CODE_LENGTH then
      Err(IllegalArgument(CodeLengthOutOfRange))
    else if !AllAsciiAlnum(raw.value) then
      Err(IllegalArgument(CodeNotAlphanumeric))
    else
      BlankIff(raw.value);
      assert !IsTrimmable(raw.value[0]);
      Ok(ShortCode(raw.value))
  }

  /** The part of s before its first '/' and then before its first '?'. */
  function CutAtSeparators(s: string): (r: string)
    ensures StartsWith(s, r)
    ensures '/' !in r && '?' !in r
    ensures |r| == |s| || s[|r|] == '/' || s[|r|] == '?'
  {
    var i := IndexOf(s, '/');
    var a := if i >= 0 then s[..i] else s;
    var j := IndexOf(a, '?');
    var b := if j >= 0 then a[..j] else a;
    assert a == s[..|a|];
    b
  }

  /** ShortCode.fromShortUrl: strip the base, cut at '/' then at '?', and validate the rest. */
  function FromShortUrl(shortUrl: string, baseUrl: string): (r: Result<ShortCode>)
    ensures !StartsWith(shortUrl, baseUrl) ==> r == Err(IllegalArgument(NotUnderBaseUrl))
    ensures r.Ok? ==> StartsWith(shortUrl, baseUrl + r.value.value) && IsValidCode(r.value.value)
    ensures r.Ok? ==> var n := |baseUrl| + |r.value.value|;
                      n == |shortUrl| || shortUrl[n] == '/' || shortUrl[n] == '?'
    ensures r.Ok? ==> '/' !in r.value.value && '?' !in r.value.value
  {
    if !StartsWith(shortUrl, baseUrl) then Err(IllegalArgument(NotUnderBaseUrl))
    else
      var rest := shortUrl[|baseUrl|..];
      var code := CutAtSeparators(rest);
      assert shortUrl == baseUrl + rest;
      assert StartsWith(shortUrl, baseUrl + code) by {
        assert (baseUrl + rest)[..|baseUrl| + |code|] == baseUrl + rest[..|code|];
      }
      MakeShortCode(Some(code))
  }

  /** The cut is determined by its three properties: any separator-free prefix ending at a separator is it. */
  lemma {:induction false} CutAtSeparatorsUnique(s: string, v: string)
    requires StartsWith(s, v) && '/' !in v && '?' !in v
    requires |v| == |s| || s[|v|] == '/' || s[|v|] == '?'
    ensures CutAtSeparators(s) == v
  {
    var r := CutAtSeparators(s);
    assert r == s[..|r|] && v == s[..|v|];
  }

  /** A code followed by a path or a query still yields exactly that code. */
  lemma {:induction false} FromShortUrlStopsAtSeparator(baseUrl: string, code: ShortCode, tail: string)
    requires IsValidCode(code.value)
    requires tail == [] || tail[0] == '/' || tail[0] == '?'
    ensures FromShortUrl(baseUrl + code.value + tail, baseUrl) == Ok(code)
  {
    var s := baseUrl + code.value + tail;
    var v := code.value;
    assert s[..|baseUrl|] == baseUrl;
    assert s[|baseUrl|..] == v + tail;
    assert (v + tail)[..|v|] == v;
    CutAtSeparatorsUnique(v + tail, v);
  }
}
