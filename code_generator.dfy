/**
 * CodeGeneratorImpl.java: short codes from a digest of the URL, the owner and the clock,
 * made more readable and perturbed on collisions with the owner's own codes.
 */
module CodeGenerator {
  import opened Text
  import opened Errors
  import opened Wrappers
  import opened JavaInts
  import opened Urls
  import opened ShortCodes
  import opened UserIds

  /** A Java `byte`: signed, -128..127. */
  newtype JavaByte = x: int | -128 <= x < 128

  /** `n` consecutive characters starting at `lo`. */
  function Range(lo: char, n: nat): (r: string)
    requires lo as int + n <= 0x7F
    ensures |r| == n && forall i :: 0 <= i < n ==> r[i] == lo + i as char
  {
    seq(n, i requires 0 <= i < n => lo + i as char)
  }

  /** BASE62_ALPHABET: A-Z, a-z, 0-9. */
  const BASE62: string := Range('A', 26) + Range('a', 26) + Range('0', 10)

  /** READABLE_ALPHABET: 2-9, A-H, J-N, P-Z, a-h, j-k, m-n, p-z (no 0, 1, I, O, i, l, o). */
  const READABLE: string :=
    Range('2', 8) + Range('A', 8) + Range('J', 5) + Range('P', 11) +
    Range('a', 8) + Range('j', 2) + Range('m', 2) + Range('p', 11)

  const MIN_GENERATED_LENGTH: int := 4
  const MAX_GENERATED_LENGTH: int := 10
  const DEFAULT_LENGTH: int := 6
  const MAX_ATTEMPTS: nat := 10

  lemma AlphabetFacts()
    ensures |BASE62| == 62 && forall d :: 0 <= d < 62 ==> IsAsciiAlnum(BASE62[d])
    ensures |READABLE| == 55 && forall j :: 0 <= j < 55 ==> IsAsciiAlnum(READABLE[j])
  {
  }

  // ---------------------------------------------------------------------------------------
  // validateLength

  /** CodeGeneratorImpl.validateLength: 4..10. */
  function ValidateLength(length: int): (r: Outcome)
    ensures r.Pass? <==> MIN_GENERATED_LENGTH <= length <= MAX_GENERATED_LENGTH
    ensures r.Fail? ==> r.error == IllegalArgument(GeneratedLengthOutOfRange)
  {
    if length < MIN_GENERATED_LENGTH || length > MAX_GENERATED_LENGTH then
      Fail(IllegalArgument(GeneratedLengthOutOfRange))
    else Pass
  }

  // ---------------------------------------------------------------------------------------
  // bytesToBase62

  /** `b & 0xFF`. */
  function Unsigned(b: JavaByte): (r: int)
    ensures 0 <= r < 256 && (b >= 0 ==> r == b as int)
  {
    if b < 0 then b as int + 256 else b as int
  }

  /** `Math.abs` of a byte promoted to int. */
  function AbsByte(b: JavaByte): (r: nat)
    ensures r <= 128
  {
    if b < 0 then -(b as int) else b as int
  }

  /** The big-endian unsigned value of some bytes. */
  function BigEndian(bs: seq<JavaByte>): nat
  {
    if bs == [] then 0 else BigEndian(bs[..|bs| - 1]) * 256 + Unsigned(bs[|bs| - 1])
  }

  function Pow256(n: nat): (r: nat)
    ensures r >= 1
  {
    if n == 0 then 1 else 256 * Pow256(n - 1)
  }

  /** `number = (number << 8) | (b & 0xFF)` in `long` arithmetic, over all of bs. */
  function Fold(bs: seq<JavaByte>): (r: int)
    ensures IsLong(r)
  {
    if bs == [] then 0 else Wrap64(Fold(bs[..|bs| - 1]) * 256 + Unsigned(bs[|bs| - 1]))
  }

  lemma {:induction false} BigEndianBound(bs: seq<JavaByte>)
    ensures BigEndian(bs) < Pow256(|bs|)
  {
    if bs != [] {
      BigEndianBound(bs[..|bs| - 1]);
    }
  }

  /** Fewer than eight bytes fold to their unsigned value, which is non-negative. */
  lemma {:induction false} FoldShort(bs: seq<JavaByte>)
    requires |bs| < 8
    ensures Fold(bs) == BigEndian(bs)
  {
    if bs != [] {
      var p := bs[..|bs| - 1];
      FoldShort(p);
      BigEndianBound(p);
      assert Pow256(|p|) <= Pow256(6) by { Pow256Mono(|p|, 6); }
      assert Pow256(6) == 0x1_0000_0000_0000;
    }
  }

  lemma {:induction false} Pow256Mono(a: nat, b: nat)
    requires a <= b
    ensures Pow256(a) <= Pow256(b)
    decreases b
  {
    if a < b {
      Pow256Mono(a, b - 1);
    }
  }

  /**
   * Eight bytes fold to the signed `long` reading of their big-endian value: a first byte
   * of 0x80 or more gives a negative number.
   */
  lemma FoldEight(bs: seq<JavaByte>)
    requires |bs| == 8
    ensures Fold(bs) == Wrap64(BigEndian(bs))
    ensures Fold(bs) < 0 <==> bs[0] < 0
  {
    var p := bs[..7];
    FoldShort(p);
    assert Fold(bs) == Wrap64(BigEndian(p) * 256 + Unsigned(bs[7]));
    BigEndianBound(bs);
    assert Pow256(8) == TWO_64;
    TopByte(bs);
  }

  /** The top byte decides whether a 64-bit big-endian value reaches 2^63. */
  lemma TopByte(bs: seq<JavaByte>)
    requires |bs| == 8
    ensures BigEndian(bs) > LONG_MAX <==> bs[0] < 0
  {
    var lo := bs[1..];
    assert BigEndian(bs) == Unsigned(bs[0]) * Pow256(7) + BigEndian(lo) by {
      SplitFirst(bs);
    }
    BigEndianBound(lo);
    assert Pow256(7) == 0x100_0000_0000_0000;
  }

  lemma {:induction false} SplitFirst(bs: seq<JavaByte>)
    requires bs != []
    ensures BigEndian(bs) == Unsigned(bs[0]) * Pow256(|bs| - 1) + BigEndian(bs[1..])
  {
    if |bs| > 1 {
      var p := bs[..|bs| - 1];
      var q := bs[1..];
      SplitFirst(p);
      assert p[1..] == q[..|q| - 1];
      assert q[|q| - 1] == bs[|bs| - 1] && p[0] == bs[0];
      Regroup(Unsigned(bs[0]), Pow256(|bs| - 2), BigEndian(p[1..]), Unsigned(bs[|bs| - 1]));
    } else {
      assert bs[..0] == [];
    }
  }

  lemma Regroup(u0: int, pw: int, x: int, l: int)
    ensures (u0 * pw + x) * 256 + l == u0 * (256 * pw) + (x * 256 + l)
  {
  }

  /** The base-62 digits of n, least significant first, at most k of them; none when n <= 0. */
  function Digits(n: int, k: nat): (r: string)
    ensures |r| <= k && (n <= 0 ==> r == [])
    ensures forall i :: 0 <= i < |r| ==> r[i] in BASE62
    decreases k
  {
    AlphabetFacts();
    if n <= 0 || k == 0 then [] else [BASE62[n % 62]] + Digits(n / 62, k - 1)
  }

  /** The padding character for position k: the alphabet letter picked by byte k mod |bytes|. */
  function PadChar(bytes: seq<JavaByte>, k: nat): (c: char)
    requires |bytes| > 0
    ensures c in BASE62
  {
    AlphabetFacts();
    BASE62[AbsByte(bytes[k % |bytes|]) % 62]
  }

  /** Padding characters for positions from .. to - 1. */
  function Padding(bytes: seq<JavaByte>, from: nat, to: nat): (r: string)
    requires |bytes| > 0 && from <= to
    ensures |r| == to - from && forall i :: 0 <= i < |r| ==> r[i] == PadChar(bytes, from + i)
  {
    seq(to - from, i requires 0 <= i < to - from => PadChar(bytes, from + i))
  }

  /** What bytesToBase62 computes: digits of the fold, padded to length, reversed. */
  function Base62Spec(bytes: seq<JavaByte>, length: nat): (r: string)
    requires |bytes| > 0
    ensures |r| == length
    ensures forall i :: 0 <= i < |r| ==> r[i] in BASE62
  {
    var n := Fold(bytes[..if |bytes| < 8 then |bytes| else 8]);
    var d := Digits(n, length);
    Reverse(d + Padding(bytes, |d|, length))
  }

  /** When the fold is not positive every character comes from the padding. */
  lemma AllPaddingWhenNotPositive(bytes: seq<JavaByte>, length: nat)
    requires |bytes| >= 8 && bytes[0] < 0
    ensures Base62Spec(bytes, length) == Reverse(Padding(bytes, 0, length))
  {
    var e := bytes[..8];
    FoldEight(e);
    assert e[0] == bytes[0];
    assert [] + Padding(bytes, 0, length) == Padding(bytes, 0, length);
  }

  /**
   * CodeGeneratorImpl.bytesToBase62: fold the first (up to) eight bytes into a long, emit its
   * base-62 digits while it is positive, pad from the bytes, and reverse.
   */
  method BytesToBase62(bytes: seq<JavaByte>, length: nat) returns (r: string)
    requires |bytes| > 0
    ensures r == Base62Spec(bytes, length)
    ensures |r| == length && forall i :: 0 <= i < |r| ==> r[i] in BASE62
  {
    var number := FoldLeading(bytes);
    var result := EmitDigits(number, length);
    result := PadFromBytes(bytes, result, length);
    r := Reverse(result);
  }

  /** The first loop of bytesToBase62: fold min(8, |bytes|) bytes into a long. */
  method FoldLeading(bytes: seq<JavaByte>) returns (number: int)
    ensures number == Fold(bytes[..if |bytes| < 8 then |bytes| else 8])
  {
    number := 0;
    var m := if |bytes| < 8 then |bytes| else 8;
    for i := 0 to m
      invariant number == Fold(bytes[..i])
    {
      assert bytes[..i + 1][..i] == bytes[..i];
      number := Wrap64(number * 256 + Unsigned(bytes[i]));
    }
  }

  /** The second loop of bytesToBase62: base-62 digits, least significant first, while positive. */
  method EmitDigits(n0: int, length: nat) returns (result: string)
    ensures result == Digits(n0, length)
  {
    result := [];
    var number := n0;
    while number > 0 && |result| < length
      invariant |result| <= length
      invariant result + Digits(number, length - |result|) == Digits(n0, length)
      decreases length - |result|
    {
      DigitsStep(number, length - |result|);
      var c := BASE62[number % 62];
      assert result + Digits(number, length - |result|) == (result + [c]) + Digits(number / 62, length - |result| - 1);
      result := result + [c];
      number := number / 62;
    }
  }

  /** One step of Digits on a positive number with room left: its last base-62 digit comes first. */
  lemma DigitsStep(n: int, k: nat)
    requires n > 0 && k > 0
    ensures |BASE62| == 62 && Digits(n, k) == [BASE62[n % 62]] + Digits(n / 62, k - 1)
  {
    AlphabetFacts();
  }

  /** The third loop of bytesToBase62: pad from the bytes up to length. */
  method PadFromBytes(bytes: seq<JavaByte>, d: string, length: nat) returns (result: string)
    requires |bytes| > 0 && |d| <= length
    ensures result == d + Padding(bytes, |d|, length)
  {
    result := d;
    AlphabetFacts();
    while |result| < length
      invariant |d| <= |result| <= length
      invariant result == d + Padding(bytes, |d|, |result|)
    {
      result := result + [BASE62[AbsByte(bytes[|result| % |bytes|]) % 62]];
    }
  }

  // ---------------------------------------------------------------------------------------
  // makeReadable

  /** The keys of SIMILAR_CHARS. */
  predicate IsSimilarKey(c: char) {
    c == '0' || c == 'O' || c == '1' || c == 'I' || c == 'l' || c == '5' || c == 'S' || c == '8' || c == 'B'
  }

  /** One character of makeReadable: a key is replaced by READABLE[c mod 55]. */
  function ReadableChar(c: char): (r: char)
    ensures !IsSimilarKey(c) ==> r == c
    ensures IsSimilarKey(c) ==>
              r != '0' && r != 'O' && r != '1' && r != 'I' && r != 'l' && r != '5' && r != '8' && r != 'B'
    ensures IsAsciiAlnum(c) ==> IsAsciiAlnum(r)
  {
    AlphabetFacts();
    if IsSimilarKey(c) then READABLE[c as int % 55] else c
  }

  /** The replacement table: 0→t, O→S, 1→u, I→L, l→y, 5→y, S→W, 8→3, B→D. */
  lemma ReadableTable()
    ensures ReadableChar('0') == 't' && ReadableChar('O') == 'S' && ReadableChar('1') == 'u'
    ensures ReadableChar('I') == 'L' && ReadableChar('l') == 'y' && ReadableChar('5') == 'y'
    ensures ReadableChar('S') == 'W' && ReadableChar('8') == '3' && ReadableChar('B') == 'D'
  {
  }

  /** What makeReadable computes. */
  function Readable(code: string): (r: string)
    ensures |r| == |code|
    ensures forall i :: 0 <= i < |code| ==> r[i] == ReadableChar(code[i])
  {
    seq(|code|, i requires 0 <= i < |code| => ReadableChar(code[i]))
  }

  /**
   * Readable output never holds 0, O, 1, I, l, 5, 8 or B, and keeps every other character;
   * S survives only as the replacement of O.
   */
  lemma ReadableAvoidsConfusables(code: string, i: int)
    requires 0 <= i < |code|
    ensures var c := Readable(code)[i];
            c != '0' && c != 'O' && c != '1' && c != 'I' && c != 'l' && c != '5' && c != '8' && c != 'B'
    ensures Readable(code)[i] == 'S' ==> code[i] == 'O'
  {
    ReadableTable();
    var c := code[i];
    if !IsSimilarKey(c) {
      assert Readable(code)[i] == c;
    }
  }

  /** CodeGeneratorImpl.makeReadable: rewrites the keys of SIMILAR_CHARS in a char array. */
  method MakeReadable(code: string) returns (r: string)
    ensures r == Readable(code)
  {
    var chars := new char[|code|](i requires 0 <= i < |code| => code[i]);
    for i := 0 to chars.Length
      invariant forall j :: 0 <= j < i ==> chars[j] == ReadableChar(code[j])
      invariant forall j :: i <= j < chars.Length ==> chars[j] == code[j]
    {
      var c := chars[i];
      if IsSimilarKey(c) {
        AlphabetFacts();
        chars[i] := READABLE[c as int % 55];
      }
    }
    r := chars[..];
  }

  // ---------------------------------------------------------------------------------------
  // padCode

  /** What padCode computes: append READABLE[abs(hash) % 55] until long enough; a negative index throws. */
  function PadSpec(code: string, length: int): (r: Result<string>)
    ensures r.Ok? ==> StartsWith(r.value, code) && |r.value| == if |code| < length then length else |code|
    ensures r.Ok? ==> forall i :: |code| <= i < |r.value| ==> r.value[i] in READABLE
    ensures r.Err? ==> r.error == IndexOutOfBounds
    decreases length - |code|
  {
    if |code| >= length then Ok(code)
    else
      var index := Rem(AbsInt(StringHash(code)), 55);
      if index < 0 then Err(IndexOutOfBounds)
      else
        AlphabetFacts();
        var next := code + [READABLE[index]];
        var r := PadSpec(next, length);
        if r.Ok? then PadStep(code, READABLE[index], r.value); r else r
  }

  /** What one padding step adds carries over to the shorter prefix. */
  lemma PadStep(code: string, c: char, v: string)
    requires c in READABLE
    requires StartsWith(v, code + [c])
    requires forall i :: |code| + 1 <= i < |v| ==> v[i] in READABLE
    ensures StartsWith(v, code)
    ensures forall i :: |code| <= i < |v| ==> v[i] in READABLE
  {
    assert v[..|code|] == (code + [c])[..|code|];
    assert v[|code|] == (code + [c])[|code|];
  }

  /** Padding fails only on a prefix hashing to Integer.MIN_VALUE, whose abs stays negative. */
  lemma PadFailsOnlyOnMinHash(code: string, length: int)
    requires |code| < length && StringHash(code) != INT_MIN
    ensures PadSpec(code, length) == PadSpec(code + [READABLE[Rem(AbsInt(StringHash(code)), 55)]], length)
  {
    AlphabetFacts();
  }

  /** CodeGeneratorImpl.padCode. */
  method PadCode(code: string, length: int) returns (r: Result<string>)
    ensures r == PadSpec(code, length)
  {
    var padded := code;
    AlphabetFacts();
    while |padded| < length
      invariant PadSpec(padded, length) == PadSpec(code, length)
      decreases length - |padded|
    {
      var index := Rem(AbsInt(StringHash(padded)), 55);
      if index < 0 {
        return Err(IndexOutOfBounds);
      }
      padded := padded + [READABLE[index]];
    }
    return Ok(padded);
  }

  // ---------------------------------------------------------------------------------------
  // addSuffix

  /** The character addSuffix puts last: `last` moved forward by attempt + 1 in READABLE (indexOf gives -1 when absent). */
  function RotatedChar(last: char, attempt: nat): (c: char)
    ensures c in READABLE && IsAsciiAlnum(c)
    ensures last !in READABLE ==> c == READABLE[attempt % 55]
    ensures c == READABLE[(ReadableIndex(last) + attempt + 1) % 55]
  {
    READABLE[(ReadableIndex(last) + attempt + 1) % 55]
  }

  /** `READABLE_ALPHABET.indexOf(c)`: the position of c, or -1 when c is not in the alphabet. */
  function ReadableIndex(c: char): (r: int)
    ensures |READABLE| == 55 && -1 <= r < 55
    ensures r == -1 <==> c !in READABLE
    ensures r >= 0 ==> READABLE[r] == c && c !in READABLE[..r]
    ensures r == IndexOf(READABLE, c)
  {
    AlphabetFacts();
    IndexOf(READABLE, c)
  }

  /** The character addSuffix appends: `READABLE_ALPHABET.charAt(attempt % 55)`. */
  function SuffixChar(attempt: nat): (c: char)
    ensures |READABLE| == 55 && c == READABLE[attempt % 55]
    ensures c in READABLE && IsAsciiAlnum(c)
  {
    AlphabetFacts();
    READABLE[attempt % 55]
  }

  /** The char-array branch of addSuffix: only the last character changes, to RotatedChar. */
  function RotateLast(s: string, attempt: nat): (t: string)
    requires IsValidCode(s)
    ensures |t| == |s| && t[..|s| - 1] == s[..|s| - 1] && t[|s| - 1] == RotatedChar(s[|s| - 1], attempt)
    ensures IsValidCode(t)
  {
    var t := s[|s| - 1 := RotatedChar(s[|s| - 1], attempt)];
    assert t[..|s| - 1] == s[..|s| - 1];
    t
  }

  /** The StringBuilder branch of addSuffix: `new ShortCode(code + suffix)`, refused once it is too long. */
  function AppendSuffix(s: string, attempt: nat): (r: Result<ShortCode>)
    requires IsValidCode(s)
    ensures r.Ok? <==> |s| < MAX_CODE_LENGTH
    ensures r.Ok? ==> r.value.value == s + [SuffixChar(attempt)] && IsValidCode(r.value.value)
  {
    var t := s + [SuffixChar(attempt)];
    assert forall i :: 0 <= i < |s| ==> t[i] == s[i];
    MakeShortCode(Some(t))
  }

  /**
   * CodeGeneratorImpl.addSuffix: append READABLE[attempt % 55] while shorter than maxLength,
   * otherwise rotate the last character forward in READABLE by attempt + 1.
   */
  function AddSuffix(code: ShortCode, attempt: nat, maxLength: int): (r: Result<ShortCode>)
    requires IsValidCode(code.value)
    ensures maxLength <= MAX_CODE_LENGTH ==> r.Ok?
    ensures r.Ok? ==> IsValidCode(r.value.value)
    ensures r.Ok? && |code.value| < maxLength ==>
              r.value.value == code.value + [READABLE[attempt % 55]]
    ensures r.Ok? && |code.value| >= maxLength ==>
              var last := code.value[|code.value| - 1];
              |r.value.value| == |code.value| &&
              r.value.value[..|code.value| - 1] == code.value[..|code.value| - 1] &&
              r.value.value[|code.value| - 1] == RotatedChar(last, attempt) &&
              (last !in READABLE ==> r.value.value[|code.value| - 1] == READABLE[attempt % 55])
  {
    var s := code.value;
    if |s| < maxLength then AppendSuffix(s, attempt)
    else MakeShortCode(Some(RotateLast(s, attempt)))
  }

  /**
   * The code generateForUser holds after k perturbations of g: addSuffix applied with
   * attempts 0, 1, .., k - 1 at the given length.
   */
  function Perturbed(g: ShortCode, k: nat, length: int): (c: ShortCode)
    requires IsValidCode(g.value) && length <= MAX_CODE_LENGTH
    ensures IsValidCode(c.value)
    ensures |g.value| >= length ==> |c.value| == |g.value|
    decreases k
  {
    if k == 0 then g
    else
      var prev := Perturbed(g, k - 1, length);
      var next := AddSuffix(prev, k - 1, length);
      next.value
  }

  /** A code already at the length only ever has its last character perturbed. */
  lemma {:induction false} PerturbedKeepsPrefix(g: ShortCode, k: nat, length: int)
    requires IsValidCode(g.value) && length <= |g.value| && length <= MAX_CODE_LENGTH
    ensures Perturbed(g, k, length).value[..|g.value| - 1] == g.value[..|g.value| - 1]
  {
    if k > 0 {
      var prev := Perturbed(g, k - 1, length);
      PerturbedKeepsPrefix(g, k - 1, length);
      assert |prev.value| == |g.value| >= length;
      var next := AddSuffix(prev, k - 1, length);
      assert Perturbed(g, k, length) == next.value;
      assert next.value.value[..|prev.value| - 1] == prev.value[..|prev.value| - 1];
    }
  }

  // ---------------------------------------------------------------------------------------
  // fallbackGenerate

  /** The text hashed by fallbackGenerate: URL, owner and nanoTime concatenated. */
  function FallbackSeed(url: Url, userId: UserId, nanoTime: int): string {
    url.value + ToString(userId) + SignedDecimal(nanoTime)
  }

  /** `(hash + i * 31) % 55` in int arithmetic; may be negative. */
  function FallbackIndexAsWritten(hash: int, i: nat): int
    requires IsInt(hash) && i < MAX_GENERATED_LENGTH
  {
    Rem(Wrap32(hash + i * 31), 55)
  }

  /** No index of the first length characters is negative. */
  predicate IndicesInRange(hash: int, length: nat)
    requires IsInt(hash) && length <= MAX_GENERATED_LENGTH
  {
    forall i :: 0 <= i < length ==> FallbackIndexAsWritten(hash, i) >= 0
  }

  /**
   * fallbackGenerate as written: `hash = Math.abs(seed.hashCode())`; a negative index makes
   * `charAt` throw.
   */
  function FallbackAsWritten(seed: string, length: nat): (r: Result<string>)
    requires length <= MAX_GENERATED_LENGTH
    ensures r.Ok? <==> IndicesInRange(AbsInt(StringHash(seed)), length)
    ensures r.Err? ==> r.error == IndexOutOfBounds
    ensures r.Ok? ==> |r.value| == length && forall i :: 0 <= i < length ==> r.value[i] in READABLE
  {
    var hash := AbsInt(StringHash(seed));
    if !IndicesInRange(hash, length) then Err(IndexOutOfBounds)
    else
      AlphabetFacts();
      Ok(seq(length, i requires 0 <= i < length => READABLE[FallbackIndexAsWritten(hash, i)]))
  }

  /** A seed hashing to Integer.MIN_VALUE makes the first index negative. */
  lemma FallbackFailsOnMinHash(seed: string, length: nat)
    requires 0 < length <= MAX_GENERATED_LENGTH && StringHash(seed) == INT_MIN
    ensures FallbackAsWritten(seed, length) == Err(IndexOutOfBounds)
  {
    assert FallbackIndexAsWritten(INT_MIN, 0) < 0;
  }

  /** A seed hashing to Integer.MAX_VALUE overflows at the second character. */
  lemma FallbackFailsOnOverflow(seed: string, length: nat)
    requires 1 < length <= MAX_GENERATED_LENGTH && StringHash(seed) == INT_MAX
    ensures FallbackAsWritten(seed, length) == Err(IndexOutOfBounds)
  {
    OverflowIndex();
    assert !IndicesInRange(INT_MAX, length);
  }

  /** At i = 1, INT_MAX + 31 wraps to -2147483618, whose truncated remainder by 55 is -38. */
  lemma OverflowIndex()
    ensures FallbackIndexAsWritten(INT_MAX, 1) == -38
  {
    assert Wrap32(INT_MAX + 1 * 31) == -2147483618;
    assert Rem(-2147483618, 55) == -38;
  }

  /** The intended index: `(|hash| + 31 i) mod 55` without overflow or sign trouble. */
  function FallbackIndex(seed: string, i: nat): (k: nat)
    ensures k < 55
  {
    var h := StringHash(seed);
    ((if h < 0 then -h else h) + 31 * i) % 55
  }

  /** Away from the two ends of the int range the code as written computes the intended characters. */
  lemma FallbackAgreesInRange(seed: string, length: nat)
    requires length <= MAX_GENERATED_LENGTH
    requires INT_MIN < StringHash(seed) && AbsInt(StringHash(seed)) <= INT_MAX - 31 * 9
    ensures FallbackAsWritten(seed, length).Ok?
    ensures forall i :: 0 <= i < length ==>
              FallbackAsWritten(seed, length).value[i] == READABLE[FallbackIndex(seed, i)]
  {
    var hash := AbsInt(StringHash(seed));
    forall i | 0 <= i < length ensures FallbackIndexAsWritten(hash, i) == FallbackIndex(seed, i) {
      assert Wrap32(hash + i * 31) == hash + 31 * i;
    }
  }

  /** The intended fallbackGenerate: length characters of READABLE, one per index. */
  method FallbackGenerate(url: Url, userId: UserId, length: int, nanoTime: int) returns (r: ShortCode)
    requires MIN_GENERATED_LENGTH <= length <= MAX_GENERATED_LENGTH
    ensures |r.value| == length && IsValidCode(r.value)
    ensures forall i :: 0 <= i < length ==> r.value[i] == READABLE[FallbackIndex(FallbackSeed(url, userId, nanoTime), i)]
  {
    var seed := FallbackSeed(url, userId, nanoTime);
    AlphabetFacts();
    var code: string := [];
    for i := 0 to length
      invariant |code| == i
      invariant forall j :: 0 <= j < i ==> code[j] == READABLE[FallbackIndex(seed, j)]
    {
      code := code + [READABLE[FallbackIndex(seed, i)]];
    }
    r := ShortCode(code);
  }

  // ---------------------------------------------------------------------------------------
  // generate, generateForUser, isValid

  /**
   * CodeGeneratorImpl.generate: validate the length, then readable base-62 of the digest
   * (None when SHA-256 is unavailable, which selects the corrected fallback).
   */
  method Generate(url: Url, userId: UserId, length: int, digest: Option<seq<JavaByte>>, nanoTime: int)
    returns (r: Result<ShortCode>)
    requires digest.Some? ==> |digest.value| > 0
    ensures r.Ok? <==> MIN_GENERATED_LENGTH <= length <= MAX_GENERATED_LENGTH
    ensures r.Err? ==> r.error == IllegalArgument(GeneratedLengthOutOfRange)
    ensures r.Ok? ==> |r.value.value| == length && IsValidCode(r.value.value)
    ensures r.Ok? && digest.Some? ==> r.value.value == Readable(Base62Spec(digest.value, length))
    ensures r.Ok? && digest.None? ==>
              forall i :: 0 <= i < length ==>
                r.value.value[i] == READABLE[FallbackIndex(FallbackSeed(url, userId, nanoTime), i)]
  {
    var check := ValidateLength(length);
    if check.Fail? {
      return Err(check.error);
    }
    if digest.None? {
      var c := FallbackGenerate(url, userId, length, nanoTime);
      return Ok(c);
    }
    var code := BytesToBase62(digest.value, length);
    code := MakeReadable(code);
    // The length is already exact, so generate's truncate and pad branches are never taken.
    assert |code| == length;
    AlphabetFacts();
    assert forall i :: 0 <= i < |code| ==> IsAsciiAlnum(code[i]) by {
      forall i | 0 <= i < |code| ensures IsAsciiAlnum(code[i]) {
        var b := Base62Spec(digest.value, length)[i];
        assert b in BASE62;
      }
    }
    var sc := MakeShortCode(Some(code));
    return sc;
  }

  /** `generate(url, userId)`: the default length of 6. */
  method GenerateDefault(url: Url, userId: UserId, digest: Option<seq<JavaByte>>, nanoTime: int)
    returns (r: ShortCode)
    requires digest.Some? ==> |digest.value| > 0
    ensures |r.value| == DEFAULT_LENGTH && IsValidCode(r.value)
    ensures digest.Some? ==> r.value == Readable(Base62Spec(digest.value, DEFAULT_LENGTH))
    ensures digest.None? ==>
              forall i :: 0 <= i < DEFAULT_LENGTH ==>
                r.value[i] == READABLE[FallbackIndex(FallbackSeed(url, userId, nanoTime), i)]
  {
    var g := Generate(url, userId, DEFAULT_LENGTH, digest, nanoTime);
    r := g.value;
  }

  /**
   * CodeGeneratorImpl.generateForUser: while the code is taken and fewer than ten attempts
   * were made, perturb it when it is the same owner's code, and stop when another owner's.
   * The ghost `first` is generate's code and `attempts` the number of perturbations.
   */
  method GenerateForUser(url: Url, userId: UserId, length: int, existingCodes: map<string, string>,
                         digest: Option<seq<JavaByte>>, nanoTime: int)
    returns (r: Result<ShortCode>, ghost first: Result<ShortCode>, ghost attempts: nat)
    requires digest.Some? ==> |digest.value| > 0
    ensures r.Ok? <==> MIN_GENERATED_LENGTH <= length <= MAX_GENERATED_LENGTH
    ensures r.Err? ==> r.error == IllegalArgument(GeneratedLengthOutOfRange)
    ensures r.Ok? ==> |r.value.value| == length && IsValidCode(r.value.value)
    ensures r.Ok? == first.Ok? && (r.Ok? ==> |first.value.value| == length && IsValidCode(first.value.value))
    ensures first.Ok? && digest.Some? ==> first.value.value == Readable(Base62Spec(digest.value, length))
    ensures first.Ok? && digest.None? ==>
              forall i :: 0 <= i < length ==>
                first.value.value[i] == READABLE[FallbackIndex(FallbackSeed(url, userId, nanoTime), i)]
    ensures attempts <= MAX_ATTEMPTS
    ensures r.Ok? ==> r.value == Perturbed(first.value, attempts, length)
    ensures r.Ok? ==> forall k :: 0 <= k < attempts ==>
              Perturbed(first.value, k, length).value in existingCodes &&
              existingCodes[Perturbed(first.value, k, length).value] == ToString(userId)
    ensures r.Ok? && r.value.value in existingCodes && existingCodes[r.value.value] == ToString(userId) ==>
              attempts == MAX_ATTEMPTS
  {
    attempts := 0;
    var g := Generate(url, userId, length, digest, nanoTime);
    first := g;
    if g.Err? {
      return g, first, attempts;
    }
    var code := g.value;
    var n: nat := 0;
    while code.value in existingCodes && n < MAX_ATTEMPTS
      invariant n <= MAX_ATTEMPTS
      invariant code == Perturbed(g.value, n, length)
      invariant forall k :: 0 <= k < n ==>
                  Perturbed(g.value, k, length).value in existingCodes &&
                  existingCodes[Perturbed(g.value, k, length).value] == ToString(userId)
    {
      if existingCodes[code.value] == ToString(userId) {
        HeldPrefixStep(g.value, n, length, existingCodes, ToString(userId));
        var next := AddSuffix(code, n, length);
        code := next.value;
      } else {
        break;
      }
      n := n + 1;
    }
    return Ok(code), first, n;
  }

  /** If the first n perturbations and the n-th too are the owner's, so are the first n + 1. */
  lemma HeldPrefixStep(g: ShortCode, n: nat, length: int, existingCodes: map<string, string>, owner: string)
    requires IsValidCode(g.value) && length <= MAX_CODE_LENGTH
    requires forall k :: 0 <= k < n ==>
               Perturbed(g, k, length).value in existingCodes && existingCodes[Perturbed(g, k, length).value] == owner
    requires Perturbed(g, n, length).value in existingCodes && existingCodes[Perturbed(g, n, length).value] == owner
    ensures forall k :: 0 <= k < n + 1 ==>
              Perturbed(g, k, length).value in existingCodes && existingCodes[Perturbed(g, k, length).value] == owner
  {
  }

  /** Character.isLetterOrDigit on ASCII, Latin-1 letters and the basic Cyrillic block. */
  predicate IsLetterOrDigit(c: char) {
    IsAsciiAlnum(c) || c == '\U{AA}' || c == '\U{B5}' || c == '\U{BA}' ||
    ('\U{C0}' <= c <= '\U{FF}' && c != '\U{D7}' && c != '\U{F7}') ||
    ('\U{400}' <= c <= '\U{45F}')
  }

  /** CodeGeneratorImpl.isValid: non-null, non-blank, 3..10 characters, all letters or digits. */
  function IsValid(code: Option<string>): (r: bool)
    ensures r <==> code.Some? && MIN_CODE_LENGTH <= |code.value| <= MAX_CODE_LENGTH &&
                   forall i :: 0 <= i < |code.value| ==> IsLetterOrDigit(code.value[i])
  {
    if code.None? || IsBlank(code.value) then false
    else if |code.value| < MIN_CODE_LENGTH || |code.value| > MAX_CODE_LENGTH then false
    else
      BlankIff(code.value);
      forall i :: 0 <= i < |code.value| ==> IsLetterOrDigit(code.value[i])
  }

  /** A three-letter Cyrillic word: letters to Character.isLetterOrDigit, not to `[A-Za-z0-9]`. */
  const CYRILLIC_WORD: string := "\U{434}\U{430}\U{43D}"

  /** Every ShortCode-valid string passes isValid, but not the other way round. */
  lemma IsValidIsLaxer(s: string)
    requires IsValidCode(s)
    ensures IsValid(Some(s))
    ensures IsValid(Some(CYRILLIC_WORD)) && !IsValidCode(CYRILLIC_WORD)
  {
    ValidCodePassesIsValid(s);
    CyrillicWordIsLaxCode();
  }

  lemma ValidCodePassesIsValid(s: string)
    requires IsValidCode(s)
    ensures IsValid(Some(s))
  {
    assert forall i :: 0 <= i < |s| ==> IsLetterOrDigit(s[i]);
  }

  lemma CyrillicWordIsLaxCode()
    ensures IsValid(Some(CYRILLIC_WORD)) && !IsValidCode(CYRILLIC_WORD)
  {
    var w := CYRILLIC_WORD;
    assert |w| == 3 && forall i :: 0 <= i < 3 ==> '\U{400}' <= w[i] <= '\U{45F}';
    assert !IsAsciiAlnum(w[0]);
  }
}
