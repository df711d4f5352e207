/** UrlValidatorImpl.java: normalisation, the cheap checks at the head of isValid, and the local-host rule. */
module UrlValidator {
  import opened Text
  import opened Errors
  import opened Wrappers
  import opened Urls

  /** normalize: refuses null or blank text, otherwise the same rewriting as the Url constructor. */
  function NormalizeText(url: Option<string>): (r: Result<string>)
    ensures r.Ok? <==> url.Some? && !IsBlank(url.value)
    ensures r.Err? ==> r.error == IllegalArgument(BlankUrl)
    ensures r.Ok? ==> StartsWithScheme(r.value)
    ensures r.Ok? ==> forall i :: 0 <= i < |r.value| ==> !IsStripped(r.value[i])
  {
    if url.None? || IsBlank(url.value) then Err(IllegalArgument(BlankUrl))
    else Ok(Normalize(url.value))
  }

  /** Wherever the Url constructor accepts its input, the validator's normalize yields the same value. */
  lemma NormalizeAgreesWithUrl(s: string)
    requires MakeUrl(Some(s)).Ok?
    ensures NormalizeText(Some(s)) == Ok(MakeUrl(Some(s)).value.value)
  {
  }

  /** The result is never blank, so normalize can be applied again; for text without line terminators it is then a no-op. */
  lemma {:induction false} NormalizeTextIdempotent(s: string)
    requires NormalizeText(Some(s)).Ok? && NoLineTerminator(s)
    ensures NormalizeText(Some(NormalizeText(Some(s)).value)) == NormalizeText(Some(s))
  {
    var v := Normalize(s);
    assert !IsTrimmable(v[0]);
    BlankIff(v);
    NormalizeIdempotent(s);
  }

  /** The head of isValid: null, blank and over-long text are refused before any parsing. */
  predicate PassesPrechecks(url: Option<string>) {
    url.Some? && !IsBlank(url.value) && |url.value| <= MAX_RAW_LENGTH
  }

  /**
   * isValid, with the URL_PATTERN match and the java.net.URL parsing given as `parses`
   * (they are not part of this model).
   */
  predicate IsValid(url: Option<string>, parses: string -> bool) {
    PassesPrechecks(url) && parses(url.value)
  }

  /** Whatever the parsing part decides, text that isValid accepts can be made into a Url. */
  lemma ValidTextMakesUrl(url: Option<string>, parses: string -> bool)
    requires IsValid(url, parses)
    ensures MakeUrl(url).Ok?
  {
  }

  /**
   * The service validates the stored value, which can be longer than the raw input: a Url
   * whose value outgrew 2048 characters is always refused, whatever the parsing part says.
   */
  lemma LongStoredValueInvalid(u: Url, parses: string -> bool)
    requires |u.value| > MAX_RAW_LENGTH
    ensures !IsValid(Some(u.value), parses)
  {
  }

  /** isSecure: valid, and the protocol of the normalised text is https. */
  predicate IsSecure(url: Option<string>, parses: string -> bool) {
    IsValid(url, parses) && StartsWith(NormalizeText(url).value, "https://")
  }

  /** A valid URL is secure exactly when it does not normalise to an http:// or ftp:// URL. */
  lemma SecureUnlessHttpOrFtp(url: Option<string>, parses: string -> bool)
    requires IsValid(url, parses)
    ensures var v := NormalizeText(url).value;
            IsSecure(url, parses) <==> !StartsWith(v, "http://") && !StartsWith(v, "ftp://")
  {
    SchemesExclusive(NormalizeText(url).value);
  }

  /** Of the three scheme prefixes, https:// is present exactly when the other two are not. */
  lemma SchemesExclusive(v: string)
    requires StartsWithScheme(v)
    ensures StartsWith(v, "https://") <==> !StartsWith(v, "http://") && !StartsWith(v, "ftp://")
  {
    if StartsWith(v, "https://") {
      assert v[..8][0] == 'h' && v[..8][4] == 's';
    } else if StartsWith(v, "http://") {
      assert v[..7][4] == ':';
    } else {
      assert v[..6][0] == 'f';
    }
  }

  /**
   * isLocal: valid, and the host of the normalised text satisfies the host rule; the host is
   * what java.net.URL would extract, given as `hostOf`.
   */
  predicate IsLocal(url: Option<string>, parses: string -> bool, hostOf: string -> string) {
    IsValid(url, parses) && IsLocalHost(hostOf(NormalizeText(url).value))
  }

  /** `172\.(1[6-9]|2[0-9]|3[0-1])\..*` as a whole-string match (`.` refuses line terminators). */
  predicate IsPrivate172(host: string) {
    |host| >= 7 && host[..4] == "172." && host[6] == '.' && NoLineTerminator(host[7..]) &&
    ((host[4] == '1' && '6' <= host[5] <= '9') ||
     (host[4] == '2' && IsAsciiDigit(host[5])) ||
     (host[4] == '3' && '0' <= host[5] <= '1'))
  }

  /** The host rule of isLocal, on the host in lower case. */
  predicate IsLocalHost(host: string) {
    var h := ToLower(host);
    h == "localhost" || h == "127.0.0.1" || h == "::1" || h == "0.0.0.0" ||
    StartsWith(h, "192.168.") || StartsWith(h, "10.") || IsPrivate172(h) ||
    EndsWith(h, ".local") || EndsWith(h, ".internal")
  }

  /** For a host 172.N.rest with a two-digit N, the rule holds exactly for N in 16..31. */
  lemma {:induction false} Private172Range(n: nat, rest: string)
    requires 10 <= n < 100 && NoLineTerminator(rest)
    ensures var h := "172." + Decimal(n) + "." + rest;
            IsPrivate172(h) <==> 16 <= n <= 31
  {
    var d := Decimal(n);
    assert Decimal(n / 10) == ['0' + (n / 10) as char] by {
      assert n / 10 < 10 && (n / 10) % 10 == n / 10;
    }
    assert d == ['0' + (n / 10) as char] + ['0' + (n % 10) as char];
    var h := "172." + d + "." + rest;
    assert h[..4] == "172." && h[4] == d[0] && h[5] == d[1] && h[6] == '.';
    assert h[7..] == rest;
  }

  /** A name under .local or .internal is local in any letter case. */
  lemma LocalSuffixAnyCase(name: string)
    ensures IsLocalHost(name + ".LOCAL") && IsLocalHost(name + ".Internal")
  {
    var a := ToLower(name + ".LOCAL");
    assert a[|a| - 6..] == ".local";
    var b := ToLower(name + ".Internal");
    assert b[|b| - 9..] == ".internal";
  }
}
