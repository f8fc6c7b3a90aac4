/** The text form of an identity: "b3:" and unpadded lower-case base32 (section 6 of RFC 4648). */
module TextIds {
  import opened Wire

  const PREFIX := "b3:"

  // ----- one quantum: five bytes, eight digits -----

  /** The base-32 alphabet, A-Z then 2-7. */
  function Symbol(d: int): char
    requires 0 <= d < 32
  {
    if d < 26 then (0x41 + d) as char else (0x32 + (d - 26)) as char
  }

  function DigitOf(c: char): (r: Option<int>)
    ensures r.Some? ==> 0 <= r.value < 32
  {
    if 'A' <= c <= 'Z' then Some(c as int - 0x41)
    else if '2' <= c <= '7' then Some(c as int - 0x32 + 26)
    else None
  }

  function Upper(c: char): char {
    if 'a' <= c <= 'z' then (c as int - 0x20) as char else c
  }

  function Lower(c: char): char {
    if 'A' <= c <= 'Z' then (c as int + 0x20) as char else c
  }

  function UpperAll(s: string): (t: string)
    ensures |t| == |s| && forall i :: 0 <= i < |s| ==> t[i] == Upper(s[i])
  {
    seq(|s|, i requires 0 <= i < |s| => Upper(s[i]))
  }

  function LowerAll(s: string): (t: string)
    ensures |t| == |s| && forall i :: 0 <= i < |s| ==> t[i] == Lower(s[i])
  {
    seq(|s|, i requires 0 <= i < |s| => Lower(s[i]))
  }

  /** `int.from_bytes(g, "big")`. */
  function FromBe(g: Bytes): nat {
    if |g| == 0 then 0 else FromBe(g[..|g| - 1]) * 256 + g[|g| - 1]
  }

  /** `n.to_bytes(width, "big")`, for an `n` that fits. */
  function ToBe(n: nat, width: nat): (b: Bytes)
    ensures |b| == width
    decreases width
  {
    if width == 0 then [] else ToBe(n / 256, width - 1) + [n % 256]
  }

  /** The `k` low base-32 digits of `n`, most significant first. */
  function Digits(n: nat, k: nat): (s: string)
    ensures |s| == k
    decreases k
  {
    if k == 0 then "" else Digits(n / 32, k - 1) + [Symbol(n % 32)]
  }

  /** The number a digit string spells, if all its characters are digits. */
  function Number(s: string): Option<nat> {
    if |s| == 0 then Some(0) else
      match (Number(s[..|s| - 1]), DigitOf(s[|s| - 1]))
      case (Some(high), Some(low)) => Some(high * 32 + low)
      case _ => None
  }

  lemma {:induction false} ToFromBe(g: Bytes)
    ensures ToBe(FromBe(g), |g|) == g
  {
    if |g| != 0 {
      ToFromBe(g[..|g| - 1]);
      assert FromBe(g) / 256 == FromBe(g[..|g| - 1]) && FromBe(g) % 256 == g[|g| - 1];
      assert g == g[..|g| - 1] + [g[|g| - 1]];
    }
  }

  function Pow32(k: nat): nat {
    if k == 0 then 1 else 32 * Pow32(k - 1)
  }

  /** `n >> 5 * k` and `n << 5 * k`. */
  function Shr(n: nat, k: nat): nat
    decreases k
  {
    if k == 0 then n else Shr(n / 32, k - 1)
  }

  function Shl(n: nat, k: nat): nat
    decreases k
  {
    if k == 0 then n else Shl(n * 32, k - 1)
  }

  lemma {:induction false} NumberOfDigits(n: nat, k: nat)
    requires n < Pow32(k)
    ensures Number(Digits(n, k)) == Some(n)
    decreases k
  {
    if k != 0 {
      NumberOfDigits(n / 32, k - 1);
      assert Digits(n, k)[..k - 1] == Digits(n / 32, k - 1);
    }
  }

  // ----- strings of quanta -----

  /** Digits that carry `k` bytes of a last, partial quantum. */
  function CharsFor(k: nat): nat
    requires k < 5
  {
    match k
    case 0 => 0
    case 1 => 2
    case 2 => 4
    case 3 => 5
    case 4 => 7
  }

  function Repeat(c: char, n: nat): (s: string)
    ensures |s| == n && forall i :: 0 <= i < n ==> s[i] == c
  {
    seq(n, _ => c)
  }

  function Zeros(n: nat): (b: Bytes)
    ensures |b| == n
    decreases n
  {
    if n == 0 then [] else Zeros(n - 1) + [0]
  }

  /** `base64.b32encode`. */
  function B32Encode(data: Bytes): string {
    if |data| == 0 then ""
    else if |data| < 5 then
      var c := CharsFor(|data|);
      Digits(FromBe(data + Zeros(5 - |data|)), 8)[..c] + Repeat('=', 8 - c)
    else Digits(FromBe(data[..5]), 8) + B32Encode(data[5..])
  }

  /** `s.rstrip("=")`. */
  function StripPad(s: string): (t: string)
    ensures |t| <= |s|
  {
    if |s| != 0 && s[|s| - 1] == '=' then StripPad(s[..|s| - 1]) else s
  }

  /** The quanta of a string without padding; a last one of fewer than eight digits is shifted
    * up by what is missing and keeps as many bytes as it can carry. */
  function DecodeQuanta(s: string): Option<Bytes> {
    if |s| == 0 then Some([])
    else if |s| < 8 then
      var pad := 8 - |s|;
      match Number(s)
      case None => None
      case Some(n) => if 43 - 5 * pad < 0 then None else Some(ToBe(Shl(n, pad), 5)[..(43 - 5 * pad) / 8])
    else
      match (Number(s[..8]), DecodeQuanta(s[8..]))
      case (Some(n), Some(rest)) => Some(ToBe(n, 5) + rest)
      case _ => None
  }

  /** `base64.b32decode`. */
  function B32Decode(s: string): Option<Bytes> {
    var stripped := StripPad(s);
    var pad := |s| - |stripped|;
    if |s| % 8 != 0 || pad !in {0, 1, 3, 4, 6} then None else DecodeQuanta(stripped)
  }

  /** `_encode_base32_lower_nopad`. */
  function EncodeText(data: Bytes): string {
    LowerAll(StripPad(B32Encode(data)))
  }

  /** `_decode_base32_lower_nopad`; Python's `%` on a negative left side, like Dafny's, is not negative. */
  function DecodeText(text: string): Option<Bytes> {
    B32Decode(UpperAll(text) + Repeat('=', -|text| % 8))
  }

  lemma {:induction false} DigitsPrefix(n: nat, k: nat, j: nat)
    requires j <= k
    ensures Digits(n, k)[..j] == Digits(Shr(n, k - j), j)
    decreases k
  {
    if j < k {
      DigitsPrefix(n / 32, k - 1, j);
      assert Digits(n, k)[..j] == Digits(n / 32, k - 1)[..j];
    }
  }

  lemma {:induction false} ShlOut(n: nat, k: nat)
    requires k > 0
    ensures Shl(n, k) == Shl(n, k - 1) * 32
    decreases k
  {
    if k > 1 {
      ShlOut(n * 32, k - 1);
    }
  }

  lemma {:induction false} ShrShl(n: nat, k: nat)
    ensures Shr(Shl(n, k), k) == n
  {
    if k != 0 {
      ShlOut(n, k);
      ShrShl(n, k - 1);
    }
  }

  /** Bits added when `k` bytes are spread over `CharsFor(k)` digits. */
  function Spread(k: nat): nat
    requires 1 <= k <= 4
  {
    match k
    case 1 => 4
    case 2 => 16
    case 3 => 2
    case 4 => 8
  }

  lemma SpreadShifts(v: nat, k: nat)
    requires 1 <= k <= 4
    ensures Shl(v * Spread(k), 8 - CharsFor(k)) == v * Bound(5 - k)
    ensures v < Bound(k) ==> v * Spread(k) < Pow32(CharsFor(k))
  {
    if k == 1 {
      assert Bound(1) == 0x100 && Pow32(2) == 0x400;
      assert Shl(v * 4, 6) == v * 0x1_0000_0000;
    } else if k == 2 {
      assert Bound(2) == 0x10000 && Pow32(4) == 0x100000;
      assert Shl(v * 16, 4) == v * 0x100_0000;
    } else if k == 3 {
      assert Bound(3) == 0x1000000 && Pow32(5) == 0x2000000;
      assert Shl(v * 2, 3) == v * 0x1_0000;
    } else {
      assert Bound(4) == 0x100000000 && Pow32(7) == 0x800000000;
      assert Shl(v * 8, 1) == v * 0x100;
    }
  }

  /** A partial quantum keeps all its bytes: what the dropped digits would say is zero. */
  lemma PartialNumber(data: Bytes)
    requires 1 <= |data| <= 4
    ensures var n, pad := FromBe(data + Zeros(5 - |data|)), 8 - CharsFor(|data|);
            Shr(n, pad) < Pow32(8 - pad) && Shl(Shr(n, pad), pad) == n
  {
    hide Shl, Shr, Pow32, Bound, FromBe, Zeros;
    FromBeZeros(data, 5 - |data|);
    FromBeBound(data);
    var v, k := FromBe(data), |data|;
    SpreadShifts(v, k);
    ShrShl(v * Spread(k), 8 - CharsFor(k));
  }

  lemma {:induction false} FromBeZeros(data: Bytes, n: nat)
    ensures FromBe(data + Zeros(n)) == FromBe(data) * Bound(n)
  {
    if n == 0 {
      assert data + [] == data;
    } else {
      FromBeZeros(data, n - 1);
      var longer := data + Zeros(n);
      assert longer[..|longer| - 1] == data + Zeros(n - 1) && longer[|longer| - 1] == 0;
    }
  }

  lemma {:induction false} FromBeBound(data: Bytes)
    ensures FromBe(data) < Bound(|data|)
  {
    if |data| != 0 {
      FromBeBound(data[..|data| - 1]);
    }
  }

  // ----- the round trip -----

  /** The digits of an encoding, without the padding. */
  function Body(data: Bytes): string {
    if |data| == 0 then ""
    else if |data| < 5 then Digits(FromBe(data + Zeros(5 - |data|)), 8)[..CharsFor(|data|)]
    else Digits(FromBe(data[..5]), 8) + Body(data[5..])
  }

  function PadFor(n: nat): (pad: nat)
    ensures pad < 8
  {
    if n % 5 == 0 then 0 else 8 - CharsFor(n % 5)
  }

  predicate AllDigits(s: string) {
    forall i :: 0 <= i < |s| ==> DigitOf(s[i]).Some?
  }

  lemma {:induction false} DigitsAreDigits(n: nat, k: nat)
    ensures AllDigits(Digits(n, k))
    decreases k
  {
    if k != 0 {
      DigitsAreDigits(n / 32, k - 1);
    }
  }

  /** An encoding is its digits and just the padding that completes the last quantum. */
  lemma {:induction false} EncodingShape(data: Bytes)
    ensures B32Encode(data) == Body(data) + Repeat('=', PadFor(|data|))
    ensures AllDigits(Body(data))
    ensures (|Body(data)| + PadFor(|data|)) % 8 == 0
  {
    hide FromBe, Digits, Zeros, DigitOf;
    if |data| == 0 {
    } else if |data| < 5 {
      DigitsAreDigits(FromBe(data + Zeros(5 - |data|)), 8);
    } else {
      DigitsAreDigits(FromBe(data[..5]), 8);
      EncodingShape(data[5..]);
      assert |data[5..]| % 5 == |data| % 5;
      var head := Digits(FromBe(data[..5]), 8);
      assert head + (Body(data[5..]) + Repeat('=', PadFor(|data|))) == (head + Body(data[5..])) + Repeat('=', PadFor(|data|));
    }
  }

  lemma {:induction false} StripPadShape(s: string, n: nat)
    requires AllDigits(s)
    ensures StripPad(s + Repeat('=', n)) == s
    decreases n
  {
    var t := s + Repeat('=', n);
    if n == 0 {
      assert t == s;
    } else {
      assert t[..|t| - 1] == s + Repeat('=', n - 1);
      StripPadShape(s, n - 1);
    }
  }

  lemma QuantumBound()
    ensures Bound(5) == Pow32(8)
  {
  }

  lemma {:induction false} BodyDecodes(data: Bytes)
    ensures DecodeQuanta(Body(data)) == Some(data)
  {
    hide FromBe, ToBe, Digits, Number, Zeros, Shl, Shr, Pow32;
    if |data| == 0 {
    } else if |data| < 5 {
      var padded, pad := data + Zeros(5 - |data|), 8 - CharsFor(|data|);
      PartialNumber(data);
      DigitsPrefix(FromBe(padded), 8, 8 - pad);
      NumberOfDigits(Shr(FromBe(padded), pad), 8 - pad);
      ToFromBe(padded);
      assert padded[..|data|] == data;
    } else {
      var head := data[..5];
      FromBeBound(head);
      QuantumBound();
      NumberOfDigits(FromBe(head), 8);
      ToFromBe(head);
      BodyDecodes(data[5..]);
      assert Body(data)[..8] == Digits(FromBe(head), 8) && Body(data)[8..] == Body(data[5..]);
      assert data == head + data[5..];
    }
  }

  lemma UpperLower(s: string)
    requires AllDigits(s)
    ensures UpperAll(LowerAll(s)) == s
  {
    forall i | 0 <= i < |s|
      ensures Upper(Lower(s[i])) == s[i]
    {
      assert DigitOf(s[i]).Some?;
    }
  }

  lemma Repad(length: int, pad: int)
    requires 0 <= pad < 8 && (length + pad) % 8 == 0
    ensures -length % 8 == pad
  {
  }

  /** For byte strings of every length: re-padding restores what was stripped, and decoding
    * inverts the lower-case unpadded encoding. */
  lemma TextRoundTrip(data: Bytes)
    ensures var text := EncodeText(data);
            && UpperAll(text) + Repeat('=', -|text| % 8) == B32Encode(data)
            && DecodeText(text) == Some(data)
  {
    hide DecodeQuanta, Body, AllDigits, UpperAll, LowerAll, StripPad, Repeat, B32Encode;
    var body, pad := Body(data), PadFor(|data|);
    EncodingShape(data);
    StripPadShape(body, pad);
    UpperLower(body);
    Repad(|body|, pad);
    BodyDecodes(data);
  }

  // ----- identities -----

  /** `DropId.to_text` and `ManifestRoot.to_text`. */
  function ToText(id: Digest): string {
    PREFIX + EncodeText(id)
  }

  /** `DropId.parse_text`; `None` stands for the errors. */
  function ParseText(text: string): Option<Digest> {
    if !(PREFIX <= text) then None else
    match DecodeText(text[3..])
    case None => None
    case Some(b) => if |b| == 32 then Some(b) else None
  }

  lemma IdRoundTrip(id: Digest)
    ensures ParseText(ToText(id)) == Some(id)
  {
    hide DecodeText, EncodeText;
    TextRoundTrip(id);
    assert ToText(id)[3..] == EncodeText(id);
  }

  /** Distinct identities have distinct texts. */
  lemma TextInjective(a: Digest, b: Digest)
    requires ToText(a) == ToText(b)
    ensures a == b
  {
    hide ToText, ParseText;
    IdRoundTrip(a);
    IdRoundTrip(b);
  }

  // ----- exactly which texts parse -----

  lemma {:induction false} NumberExact(s: string)
    ensures Number(s).Some? <==> AllDigits(s)
    ensures Number(s).Some? ==> Number(s).value < Pow32(|s|) && Digits(Number(s).value, |s|) == s
  {
    if |s| != 0 {
      var high, last := s[..|s| - 1], s[|s| - 1];
      NumberExact(high);
      assert s == high + [last];
      if Number(s).Some? {
        var low := DigitOf(last).value;
        assert Symbol(low) == last;
        assert Number(s).value / 32 == Number(high).value && Number(s).value % 32 == low;
      }
    }
  }

  lemma {:induction false} FromToBe(n: nat, width: nat)
    requires n < Bound(width)
    ensures FromBe(ToBe(n, width)) == n
    decreases width
  {
    if width != 0 {
      FromToBe(n / 256, width - 1);
      assert ToBe(n, width)[..width - 1] == ToBe(n / 256, width - 1);
    }
  }

  /** Equal digits, but for the part of the last one below `spare`. */
  predicate SameBits(s: string, t: string, spare: nat)
    requires spare > 0
  {
    && |s| == |t| && AllDigits(s) && AllDigits(t)
    && (|s| != 0 ==> && s[..|s| - 1] == t[..|t| - 1]
                     && DigitOf(s[|s| - 1]).value / spare == DigitOf(t[|t| - 1]).value / spare)
  }

  /** One more than the largest value of the bits the last digit does not need. */
  function Spare(n: nat): (spare: nat)
    ensures spare > 0
  {
    if n % 5 == 0 then 1 else Spread(n % 5)
  }

  lemma SameDigit(c: char, d: char)
    requires DigitOf(c).Some? && DigitOf(c) == DigitOf(d)
    ensures c == d
  {
  }

  lemma WholeSameBits(s: string, t: string)
    requires AllDigits(t)
    ensures SameBits(s, t, 1) <==> s == t
  {
    if SameBits(s, t, 1) && |s| != 0 {
      SameDigit(s[|s| - 1], t[|t| - 1]);
      assert s == s[..|s| - 1] + [s[|s| - 1]] && t == t[..|t| - 1] + [t[|t| - 1]];
    }
  }

  lemma SameBitsAfter(a: string, b: string, x: string, y: string, spare: nat)
    requires |a| == |x| && |b| == |y| && |b| > 0 && spare > 0
    ensures SameBits(a + b, x + y, spare) <==> AllDigits(x) && a == x && SameBits(b, y, spare)
  {
    hide DigitOf, AllDigits;
    var s, t := a + b, x + y;
    DigitsAfter(a, b);
    DigitsAfter(x, y);
    assert s[|s| - 1] == b[|b| - 1] && t[|t| - 1] == y[|y| - 1];
    assert s[..|s| - 1] == a + b[..|b| - 1] && t[..|t| - 1] == x + y[..|y| - 1];
    if a + b[..|b| - 1] == x + y[..|y| - 1] {
      assert a == (a + b[..|b| - 1])[..|a|] == (x + y[..|y| - 1])[..|a|] == x;
      assert b[..|b| - 1] == (a + b[..|b| - 1])[|a|..] == (x + y[..|y| - 1])[|a|..] == y[..|y| - 1];
    }
  }

  lemma DigitsAfter(a: string, b: string)
    ensures AllDigits(a + b) <==> AllDigits(a) && AllDigits(b)
  {
    if AllDigits(a + b) {
      assert forall i :: 0 <= i < |a| ==> (a + b)[i] == a[i];
      assert forall i :: 0 <= i < |b| ==> (a + b)[|a| + i] == b[i];
    }
  }

  /** The bytes of `n` without the `k` low ones. */
  function DropBytes(n: nat, k: nat): nat
    decreases k
  {
    if k == 0 then n else DropBytes(n / 256, k - 1)
  }

  lemma {:induction false} ToBePrefix(n: nat, width: nat, k: nat)
    requires k <= width
    ensures ToBe(n, width)[..k] == ToBe(DropBytes(n, width - k), k)
    decreases width
  {
    if k < width {
      ToBePrefix(n / 256, width - 1, k);
      assert ToBe(n, width)[..k] == ToBe(n / 256, width - 1)[..k];
    }
  }

  /** What a partial quantum carries is its number without the spare bits. */
  lemma KeptBits(n: nat, k: nat)
    requires 1 <= k <= 4
    ensures DropBytes(Shl(n, 8 - CharsFor(k)), 5 - k) == n / Spread(k)
    ensures n < Pow32(CharsFor(k)) ==> n / Spread(k) < Bound(k)
    ensures (43 - 5 * (8 - CharsFor(k))) / 8 == k
  {
    if k == 1 {
      assert Shl(n, 6) == n * 0x4000_0000 && DropBytes(n * 0x4000_0000, 4) == n / 4;
    } else if k == 2 {
      assert Shl(n, 4) == n * 0x10_0000 && DropBytes(n * 0x10_0000, 3) == n / 16;
    } else if k == 3 {
      assert Shl(n, 3) == n * 0x8000 && DropBytes(n * 0x8000, 2) == n / 2;
    } else {
      assert Shl(n, 1) == n * 32 && DropBytes(n * 32, 1) == n / 8;
    }
    assert Pow32(2) == 0x400 && Pow32(4) == 0x10_0000 && Pow32(5) == 0x200_0000 && Pow32(7) == 0x8_0000_0000;
    assert Bound(1) == 0x100 && Bound(2) == 0x1_0000 && Bound(3) == 0x100_0000 && Bound(4) == 0x1_0000_0000;
  }

  lemma ToBeExact(n: nat, b: Bytes)
    requires n < Bound(|b|)
    ensures ToBe(n, |b|) == b <==> n == FromBe(b)
  {
    FromToBe(n, |b|);
    ToFromBe(b);
  }

  /** The digits of a partial quantum spell its value above zero spare bits. */
  lemma PartialBody(data: Bytes)
    requires 1 <= |data| <= 4
    ensures |Body(data)| == CharsFor(|data|) && AllDigits(Body(data))
    ensures Number(Body(data)) == Some(FromBe(data) * Spread(|data|))
  {
    hide FromBe, Digits, Number, Zeros, Shl, Shr, Pow32, Bound, DigitOf;
    var k := |data|;
    var n, pad := FromBe(data + Zeros(5 - k)), 8 - CharsFor(k);
    EncodingShape(data);
    PartialNumber(data);
    DigitsPrefix(n, 8, 8 - pad);
    NumberOfDigits(Shr(n, pad), 8 - pad);
    FromBeZeros(data, 5 - k);
    SpreadShifts(FromBe(data), k);
    ShrShl(FromBe(data) * Spread(k), pad);
  }

  /** Two numbers agree above the spare bits when their last digits do and the others are equal. */
  lemma LastDigitSplit(m: nat, n: nat, spare: nat)
    requires spare in {1, 2, 4, 8, 16}
    ensures m / spare == n / spare <==> m / 32 == n / 32 && m % 32 / spare == n % 32 / spare
  {
    OverSpare(m, spare);
    OverSpare(n, spare);
  }

  lemma OverSpare(n: nat, spare: nat)
    requires spare in {1, 2, 4, 8, 16}
    ensures n / spare / (32 / spare) == n / 32 && n / spare % (32 / spare) == n % 32 / spare
  {
    if spare == 2 {
      OverOne(n);
    } else if spare == 4 {
      OverTwo(n);
    } else if spare == 8 {
      OverThree(n);
    } else if spare == 16 {
      OverFour(n);
    }
  }

  lemma OverOne(n: nat)
    ensures n / 2 / 16 == n / 32 && n / 2 % 16 == n % 32 / 2
  {
  }

  lemma OverTwo(n: nat)
    ensures n / 4 / 8 == n / 32 && n / 4 % 8 == n % 32 / 4
  {
  }

  lemma OverThree(n: nat)
    ensures n / 8 / 4 == n / 32 && n / 8 % 4 == n % 32 / 8
  {
  }

  lemma OverFour(n: nat)
    ensures n / 16 / 2 == n / 32 && n / 16 % 2 == n % 32 / 16
  {
  }

  lemma SameBitsNumber(s: string, t: string, spare: nat)
    requires |s| == |t| > 0 && AllDigits(s) && AllDigits(t) && spare in {1, 2, 4, 8, 16}
    ensures Number(s).Some? && Number(t).Some?
    ensures SameBits(s, t, spare) <==> Number(s).value / spare == Number(t).value / spare
  {
    hide Digits, Pow32, DigitOf;
    var n := |s| - 1;
    NumberExact(s);
    NumberExact(t);
    NumberExact(s[..n]);
    NumberExact(t[..n]);
    LastDigit(s);
    LastDigit(t);
    LastDigitSplit(Number(s).value, Number(t).value, spare);
  }

  lemma LastDigit(s: string)
    requires |s| > 0 && Number(s).Some?
    ensures Number(s[..|s| - 1]) == Some(Number(s).value / 32)
    ensures DigitOf(s[|s| - 1]) == Some(Number(s).value % 32)
  {
    hide DigitOf;
    NumberLast(s);
    DivMod32(Number(s[..|s| - 1]).value, DigitOf(s[|s| - 1]).value);
  }

  lemma NumberLast(s: string)
    requires |s| > 0 && Number(s).Some?
    ensures Number(s[..|s| - 1]).Some? && DigitOf(s[|s| - 1]).Some?
    ensures Number(s).value == Number(s[..|s| - 1]).value * 32 + DigitOf(s[|s| - 1]).value
  {
    hide DigitOf;
  }

  lemma DivMod32(high: nat, low: int)
    requires 0 <= low < 32
    ensures (high * 32 + low) / 32 == high && (high * 32 + low) % 32 == low
  {
  }

  /** A last quantum of fewer than eight digits. */
  lemma PartialExact(s: string, data: Bytes)
    requires |s| in {2, 4, 5, 7}
    ensures DecodeQuanta(s) == Some(data)
       <==> 1 <= |data| <= 4 && SameBits(s, Body(data), Spare(|data|))
  {
    hide Number, ToBe, Shl, Body, SameBits, Bound, Pow32, Digits, DigitOf, FromBe, DropBytes;
    var k := if |s| == 2 then 1 else if |s| == 4 then 2 else if |s| == 5 then 3 else 4;
    NumberExact(s);
    if 1 <= |data| <= 4 {
      PartialBody(data);
    }
    if AllDigits(s) {
      var n := Number(s).value;
      KeptBits(n, k);
      ToBePrefix(Shl(n, 8 - |s|), 5, k);
      assert DecodeQuanta(s) == Some(ToBe(n / Spread(k), k));
      if |data| == k {
        ToBeExact(n / Spread(k), data);
        SameBitsNumber(s, Body(data), Spread(k));
        assert FromBe(data) * Spread(k) / Spread(k) == FromBe(data);
      }
    }
    SameBitsShape(s, Body(data), Spare(|data|));
  }

  lemma SameBitsShape(s: string, t: string, spare: nat)
    requires spare > 0
    ensures SameBits(s, t, spare) ==> |s| == |t| && AllDigits(s)
  {
  }

  /** A full quantum of eight digits. */
  lemma QuantumExact(s: string, g: Bytes)
    requires |s| == 8 && |g| == 5
    ensures Number(s).Some? && ToBe(Number(s).value, 5) == g <==> s == Digits(FromBe(g), 8)
  {
    hide ToBe, FromBe, Digits, Number, Bound, Pow32, DigitOf;
    NumberExact(s);
    QuantumBound();
    FromBeBound(g);
    NumberOfDigits(FromBe(g), 8);
    if Number(s).Some? {
      ToBeExact(Number(s).value, g);
    }
  }

  /** Without padding: a string of a possible length decodes to `data` exactly when it has the
    * bits of its digits. */
  lemma {:induction false} QuantaExact(s: string, data: Bytes)
    requires |s| % 8 in {0, 2, 4, 5, 7}
    ensures DecodeQuanta(s) == Some(data) <==> SameBits(s, Body(data), Spare(|data|))
  {
    hide Body, SameBits, Spare, DecodeQuanta, Number, ToBe, Digits, FromBe, AllDigits, DigitOf;
    SameBitsShape(s, Body(data), Spare(|data|));
    BodyWidth(data);
    if |s| == 0 {
      NothingExact(data);
      assert s == "";
    } else if |s| < 8 {
      PartialExact(s, data);
    } else if |data| < 5 {
      if DecodeQuanta(s).Some? {
        DecodedWidth(s);
      }
    } else {
      QuantaExact(s[8..], data[5..]);
      QuantumSplit(s, data);
      QuantumExact(s[..8], data[..5]);
      BodySplit(data);
      BodyWidth(data[5..]);
      SameBitsQuantum(s[..8], s[8..], Digits(FromBe(data[..5]), 8), Body(data[5..]), Spare(|data|));
      assert s == s[..8] + s[8..];
    }
  }

  lemma NothingExact(data: Bytes)
    ensures DecodeQuanta("") == Some(data) <==> SameBits("", Body(data), Spare(|data|))
  {
    hide DigitOf, AllDigits;
    BodyWidth(data);
    if |data| == 0 {
      WholeSameBits("", Body(data));
    }
  }

  lemma DecodedWidth(s: string)
    requires |s| >= 8 && DecodeQuanta(s).Some?
    ensures |DecodeQuanta(s).value| >= 5
  {
    hide Number;
  }

  lemma BodySplit(data: Bytes)
    requires |data| >= 5
    ensures Body(data) == Digits(FromBe(data[..5]), 8) + Body(data[5..])
    ensures AllDigits(Digits(FromBe(data[..5]), 8))
    ensures Spare(|data|) == Spare(|data[5..]|) && (|data[5..]| == 0 ==> Spare(|data|) == 1)
  {
    hide Digits, FromBe, Zeros, DigitOf;
    DigitsAreDigits(FromBe(data[..5]), 8);
    assert |data| % 5 == |data[5..]| % 5;
  }

  /** Digits of one quantum and then of the rest. */
  lemma SameBitsQuantum(a: string, b: string, x: string, y: string, spare: nat)
    requires |a| == |x| && AllDigits(x) && AllDigits(y) && spare > 0 && (|y| == 0 ==> spare == 1)
    ensures SameBits(a + b, x + y, spare) <==> a == x && SameBits(b, y, spare)
  {
    hide SameBits, DigitOf;
    SameBitsShape(a + b, x + y, spare);
    SameBitsShape(b, y, spare);
    if |b| == |y| {
      if |b| == 0 {
        WholeSameBits(a, x);
        WholeSameBits(b, y);
        assert a + b == a && x + y == x && b == y;
      } else {
        SameBitsAfter(a, b, x, y, spare);
      }
    }
  }

  lemma QuantumSplit(s: string, data: Bytes)
    requires |s| >= 8 && |data| >= 5
    ensures DecodeQuanta(s) == Some(data)
       <==> Number(s[..8]).Some? && ToBe(Number(s[..8]).value, 5) == data[..5] && DecodeQuanta(s[8..]) == Some(data[5..])
  {
    hide Number, ToBe;
    if Number(s[..8]).Some? && DecodeQuanta(s[8..]).Some? {
      var head, rest := ToBe(Number(s[..8]).value, 5), DecodeQuanta(s[8..]).value;
      assert (head + rest)[..5] == head && (head + rest)[5..] == rest;
      assert data == data[..5] + data[5..];
    }
  }

  lemma {:induction false} BodyWidth(data: Bytes)
    ensures |Body(data)| == 8 * (|data| / 5) + CharsFor(|data| % 5)
    ensures |Body(data)| % 8 in {0, 2, 4, 5, 7} && (|Body(data)| + PadFor(|data|)) % 8 == 0
    ensures AllDigits(Body(data))
  {
    hide Body, Digits, FromBe, AllDigits;
    EncodingShape(data);
    if |data| >= 5 {
      BodySplit(data);
      BodyWidth(data[5..]);
      assert |data| / 5 == 1 + |data[5..]| / 5 && |data| % 5 == |data[5..]| % 5;
    } else {
      ShortBodyWidth(data);
    }
  }

  lemma ShortBodyWidth(data: Bytes)
    requires |data| < 5
    ensures |Body(data)| == CharsFor(|data|)
  {
    hide FromBe, Zeros;
  }

  lemma {:induction false} StripPadSplit(s: string)
    ensures var t := StripPad(s);
            && s == t + Repeat('=', |s| - |t|)
            && (|t| != 0 ==> t[|t| - 1] != '=')
  {
    if |s| != 0 && s[|s| - 1] == '=' {
      StripPadSplit(s[..|s| - 1]);
      assert s == s[..|s| - 1] + ['='];
    }
  }

  /** The digits of `data` in either case with any spare bits, and at most the padding of a
    * complete last quantum. */
  predicate Spells(text: string, data: Bytes) {
    var n := |Body(data)|;
    && n <= |text| <= n + PadFor(|data|)
    && (forall i :: n <= i < |text| ==> text[i] == '=')
    && SameBits(UpperAll(text[..n]), Body(data), Spare(|data|))
  }

  lemma UpperSplit(text: string, n: nat, pad: nat)
    requires n <= |text|
    ensures UpperAll(text) + Repeat('=', pad) == UpperAll(text[..n]) + (UpperAll(text[n..]) + Repeat('=', pad))
    ensures (forall i :: n <= i < |text| ==> text[i] == '=')
       <==> UpperAll(text[n..]) + Repeat('=', pad) == Repeat('=', |text| - n + pad)
  {
    var tail := UpperAll(text[n..]) + Repeat('=', pad);
    assert forall i :: n <= i < |text| ==> tail[i - n] == Upper(text[i]);
    if tail == Repeat('=', |text| - n + pad) {
      forall i | n <= i < |text|
        ensures text[i] == '='
      {
        assert tail[i - n] == '=';
      }
    }
  }

  /** Decoding succeeds with `data` exactly on its spellings. */
  lemma DecodeTextExact(text: string, data: Bytes)
    ensures DecodeText(text) == Some(data) <==> Spells(text, data)
  {
    BodyWidth(data);
    if Spells(text, data) {
      SpellingDecodes(text, data);
    }
    if DecodeText(text) == Some(data) {
      DecodedIsSpelling(text, data);
    }
  }

  lemma SpellingDecodes(text: string, data: Bytes)
    requires Spells(text, data)
    ensures DecodeText(text) == Some(data)
  {
    hide Body, SameBits, DecodeQuanta, UpperAll, Repeat, StripPad, AllDigits;
    var n, pad := |Body(data)|, -|text| % 8;
    var s := UpperAll(text[..n]);
    BodyWidth(data);
    Repad(|text|, n + PadFor(|data|) - |text|);
    UpperSplit(text, n, pad);
    SameBitsShape(s, Body(data), Spare(|data|));
    StripPadShape(s, PadFor(|data|));
    QuantaExact(s, data);
  }

  lemma DecodedIsSpelling(text: string, data: Bytes)
    requires DecodeText(text) == Some(data)
    ensures Spells(text, data)
  {
    hide Body, SameBits, DecodeQuanta, AllDigits, UpperAll, Repeat, StripPad, Spare;
    var padded := UpperAll(text) + Repeat('=', -|text| % 8);
    var s := StripPad(padded);
    var n := |s|;
    QuantaExact(s, data);
    SameBitsShape(s, Body(data), Spare(|data|));
    BodyWidth(data);
    Stripped(text, -|text| % 8);
    Repad(|text|, |padded| - |text|);
    Repad(n, |padded| - n);
    Repad(n, PadFor(|data|));
  }

  /** What stripping leaves lies inside the text, and the text goes on with padding only. */
  lemma Stripped(text: string, pad: nat)
    ensures var s := StripPad(UpperAll(text) + Repeat('=', pad));
            && |s| <= |text| && UpperAll(text[..|s|]) == s
            && forall i :: |s| <= i < |text| ==> text[i] == '='
  {
    var padded := UpperAll(text) + Repeat('=', pad);
    var s := StripPad(padded);
    StripPadSplit(padded);
    assert |s| <= |text| by {
      assert |s| != 0 ==> s[|s| - 1] == padded[|s| - 1];
    }
    assert UpperAll(text[..|s|]) == padded[..|s|] == s;
    forall i | |s| <= i < |text|
      ensures text[i] == '='
    {
      assert padded[i] == Upper(text[i]);
    }
  }

  /** The texts that parse to an identity: 52 digits, in either case and with any of the last
    * one's four spare bits, then up to four '='. */
  lemma TextsExactly(text: string, id: Digest)
    ensures ParseText(text) == Some(id)
       <==> && PREFIX <= text && 55 <= |text| <= 59
            && (forall i :: 55 <= i < |text| ==> text[i] == '=')
            && SameBits(UpperAll(text[3..55]), Body(id), 16)
  {
    hide DecodeText, Body, SameBits, UpperAll;
    BodyWidth(id);
    if PREFIX <= text {
      var rest := text[3..];
      DecodeTextExact(rest, id);
      if 55 <= |text| {
        assert rest[..52] == text[3..55];
        assert forall i :: 52 <= i < |rest| ==> rest[i] == text[i + 3];
        assert forall i :: 55 <= i < |text| ==> text[i] == rest[i - 3];
      }
    }
  }

  /** The spare bits of an encoding are zero. */
  lemma {:induction false} BodyTail(data: Bytes)
    requires |data| != 0
    ensures |Body(data)| != 0 && DigitOf(Body(data)[|Body(data)| - 1]).Some?
    ensures DigitOf(Body(data)[|Body(data)| - 1]).value % Spare(|data|) == 0
  {
    hide Body, DigitOf, Digits, FromBe, Spare;
    BodyWidth(data);
    if |data| < 5 {
      PartialTail(data);
    } else {
      BodySplit(data);
      if |data| > 5 {
        BodyTail(data[5..]);
      } else {
        FullTail(Body(data));
      }
    }
  }

  lemma PartialTail(data: Bytes)
    requires 1 <= |data| <= 4 && |Body(data)| != 0 && AllDigits(Body(data))
    ensures DigitOf(Body(data)[|Body(data)| - 1]).value % Spare(|data|) == 0
  {
    hide Body, DigitOf, Number, FromBe;
    PartialBody(data);
    LastDigit(Body(data));
    TailBits(FromBe(data), Spread(|data|));
  }

  lemma FullTail(s: string)
    requires |s| != 0 && AllDigits(s)
    ensures DigitOf(s[|s| - 1]).Some? && DigitOf(s[|s| - 1]).value % 1 == 0
  {
  }

  lemma TailBits(v: nat, spare: nat)
    requires spare in {2, 4, 8, 16}
    ensures v * spare % 32 % spare == 0
  {
    var q := v * spare / 32;
    if spare == 2 {
      assert v * 2 % 32 == 2 * (v - 16 * q);
    } else if spare == 4 {
      assert v * 4 % 32 == 4 * (v - 8 * q);
    } else if spare == 8 {
      assert v * 8 % 32 == 8 * (v - 4 * q);
    } else {
      assert v * 16 % 32 == 16 * (v - 2 * q);
    }
  }

  lemma EncodeTextIsBody(data: Bytes)
    ensures EncodeText(data) == LowerAll(Body(data))
  {
    hide Body, LowerAll, AllDigits;
    EncodingShape(data);
    StripPadShape(Body(data), PadFor(|data|));
  }

  lemma LowerUpper(text: string)
    requires LowerAll(text) == text
    ensures LowerAll(UpperAll(text)) == text
  {
    forall i | 0 <= i < |text|
      ensures Lower(Upper(text[i])) == text[i]
    {
      assert Lower(text[i]) == text[i];
    }
  }

  /** Among the spellings of `data`, its encoding is the one in lower case, without padding and
    * with no spare bit set. */
  lemma CanonicalSpelling(text: string, data: Bytes)
    requires Spells(text, data)
    ensures text == EncodeText(data)
       <==> && |text| == |Body(data)| && LowerAll(text) == text
            && (|text| != 0 ==> DigitOf(Upper(text[|text| - 1])).value % Spare(|data|) == 0)
  {
    hide Body, DigitOf, Spells, SameBits, Spare, LowerAll, EncodeText, AllDigits, UpperAll;
    var body := Body(data);
    EncodeTextIsBody(data);
    BodyWidth(data);
    UpperLower(body);
    if |data| != 0 {
      BodyTail(data);
    }
    if text == LowerAll(body) {
      LowerTwice(body);
      assert |text| != 0 ==> Upper(text[|text| - 1]) == UpperAll(text)[|text| - 1] == body[|text| - 1];
    }
    if |text| == |body| && LowerAll(text) == text {
      assert text[..|body|] == text;
      SpelledBits(text, data);
      if |text| == 0 {
        assert text == body;
      } else {
        SpelledDigit(text, data);
      }
      if |text| != 0 && DigitOf(Upper(text[|text| - 1])).value % Spare(|data|) == 0 {
        NoSpareBits(UpperAll(text), body, Spare(|data|));
        LowerUpper(text);
      }
    }
  }

  lemma SpelledBits(text: string, data: Bytes)
    requires Spells(text, data) && |text| == |Body(data)|
    ensures SameBits(UpperAll(text), Body(data), Spare(|data|))
  {
    hide Body, SameBits, UpperAll;
    assert text[..|text|] == text;
  }

  lemma LowerTwice(s: string)
    ensures LowerAll(LowerAll(s)) == LowerAll(s)
  {
  }

  /** With no spare bit set, to have the same bits is to be equal. */
  lemma NoSpareBits(s: string, t: string, spare: nat)
    requires spare > 0 && SameBits(s, t, spare) && |s| != 0
    requires DigitOf(s[|s| - 1]).value % spare == 0 && DigitOf(t[|t| - 1]).value % spare == 0
    ensures s == t
  {
    hide DigitOf;
    var c, d := s[|s| - 1], t[|t| - 1];
    SameMultiple(DigitOf(c).value, DigitOf(d).value, spare);
    SameDigit(c, d);
    assert s == s[..|s| - 1] + [c] && t == t[..|t| - 1] + [d];
  }

  lemma SameMultiple(m: nat, n: nat, spare: nat)
    requires spare > 0 && m / spare == n / spare && m % spare == 0 && n % spare == 0
    ensures m == n
  {
  }

  /** A text that parses is the text of what it parses to exactly when it has no padding, is in
    * lower case, and ends in 'a' or 'q'. */
  lemma CanonicalText(text: string)
    requires ParseText(text).Some?
    ensures text == ToText(ParseText(text).value)
       <==> |text| == 55 && LowerAll(text) == text && text[54] in {'a', 'q'}
  {
    hide DecodeText, Body, EncodeText, Spells, LowerAll, DigitOf;
    var id, rest := ParseText(text).value, text[3..];
    DecodeTextExact(rest, id);
    CanonicalSpelling(rest, id);
    BodyWidth(id);
    assert text == PREFIX + rest;
    LowerPrefixed(rest);
    assert text == ToText(id) <==> rest == EncodeText(id) by {
      assert (PREFIX + EncodeText(id))[3..] == EncodeText(id);
    }
    if |text| == 55 {
      assert text[54] == rest[51];
      SpelledDigit(rest, id);
      if LowerAll(rest) == rest {
        LowerAt(rest, 51);
        LastOfFour(text[54]);
      }
    }
  }

  lemma LowerPrefixed(rest: string)
    ensures LowerAll(PREFIX + rest) == PREFIX + rest <==> LowerAll(rest) == rest
  {
    assert LowerAll(PREFIX + rest) == PREFIX + LowerAll(rest);
    assert (PREFIX + rest)[3..] == rest && (PREFIX + LowerAll(rest))[3..] == LowerAll(rest);
  }

  lemma LowerAt(s: string, i: nat)
    requires i < |s| && LowerAll(s) == s
    ensures Lower(s[i]) == s[i]
  {
  }

  /** A lower-case digit with no spare bit set among four. */
  lemma LastOfFour(c: char)
    ensures Lower(c) == c && DigitOf(Upper(c)).Some? ==> (DigitOf(Upper(c)).value % 16 == 0 <==> c in {'a', 'q'})
  {
  }

  lemma SpelledDigit(text: string, data: Bytes)
    requires Spells(text, data) && |text| == |Body(data)| != 0
    ensures DigitOf(Upper(text[|text| - 1])).Some?
  {
    hide Body, DigitOf;
    SpelledBits(text, data);
  }

  /** So texts are not unique: the upper-case spelling of an identity is another text, and
    * parses to it too. */
  lemma UpperCaseParses(id: Digest)
    ensures var upper := PREFIX + UpperAll(EncodeText(id));
            upper != ToText(id) && ParseText(upper) == Some(id)
  {
    hide B32Decode, EncodeText, UpperAll;
    var text := EncodeText(id);
    TextRoundTrip(id);
    UpperTwice(text);
    assert (PREFIX + UpperAll(text))[3..] == UpperAll(text);
    LastIsLetter(id);
    UpperAt(text, 51);
    assert (PREFIX + UpperAll(text))[54] == UpperAll(text)[51] && ToText(id)[54] == text[51];
  }

  lemma UpperTwice(s: string)
    ensures UpperAll(UpperAll(s)) == UpperAll(s)
  {
  }

  lemma UpperAt(s: string, i: nat)
    requires i < |s|
    ensures |UpperAll(s)| == |s| && UpperAll(s)[i] == Upper(s[i])
  {
  }

  lemma LastIsLetter(id: Digest)
    ensures |EncodeText(id)| == 52 && EncodeText(id)[51] in {'a', 'q'}
  {
    hide ParseText, EncodeText;
    IdRoundTrip(id);
    CanonicalText(ToText(id));
    assert ToText(id)[54] == EncodeText(id)[51];
  }

  /** Nor does padding matter: with up to four '=' the text of an identity still parses to it. */
  lemma PaddedTextParses(id: Digest, pad: nat)
    ensures ParseText(ToText(id) + Repeat('=', pad)) == Some(id) <==> pad <= 4
  {
    hide ParseText, Body, EncodeText;
    var text, padded := ToText(id), ToText(id) + Repeat('=', pad);
    IdRoundTrip(id);
    CanonicalText(text);
    TextsExactly(text, id);
    TextsExactly(padded, id);
    assert padded[3..55] == text[3..55];
  }

  // ----- the alphabet and the bits -----

  /** The alphabet of section 6 of RFC 4648. */
  lemma Alphabet(d: int, c: char)
    ensures 0 <= d < 32 ==> Symbol(d) == "ABCDEFGHIJKLMNOPQRSTUVWXYZ234567"[d]
    ensures DigitOf(c) == Some(d) <==> 0 <= d < 32 && "ABCDEFGHIJKLMNOPQRSTUVWXYZ234567"[d] == c
  {
    SymbolDigit(d, c);
  }

  lemma SymbolDigit(d: int, c: char)
    ensures DigitOf(c) == Some(d) <==> 0 <= d < 32 && Symbol(d) == c
  {
  }

  /** Upper case takes the letters of the one row to those of the other and leaves the rest. */
  lemma UpperCase(d: nat, c: char)
    ensures d < 26 ==> Upper("abcdefghijklmnopqrstuvwxyz"[d]) == "ABCDEFGHIJKLMNOPQRSTUVWXYZ"[d]
    ensures c !in "abcdefghijklmnopqrstuvwxyz" ==> Upper(c) == c
  {
    if 'a' <= c <= 'z' {
      assert "abcdefghijklmnopqrstuvwxyz"[c as int - 0x61] == c;
    }
  }

  /** Lower case goes the other way. */
  lemma LowerCase(d: nat, c: char)
    ensures d < 26 ==> Lower("ABCDEFGHIJKLMNOPQRSTUVWXYZ"[d]) == "abcdefghijklmnopqrstuvwxyz"[d]
    ensures c !in "ABCDEFGHIJKLMNOPQRSTUVWXYZ" ==> Lower(c) == c
  {
    if 'A' <= c <= 'Z' {
      assert "ABCDEFGHIJKLMNOPQRSTUVWXYZ"[c as int - 0x41] == c;
    }
  }

  lemma DigitsStep(n: nat, k: nat)
    requires k > 0
    ensures Digits(n, k) == Digits(n / 32, k - 1) + [Symbol(n % 32)]
  {
  }

  lemma PushDigit(n: nat, d: nat, k: nat)
    requires d < 32
    ensures Digits(n * 32 + d, k + 1) == Digits(n, k) + [Symbol(d)]
  {
    hide Digits, Symbol;
    DigitsStep(n * 32 + d, k + 1);
    DivMod32(n, d);
  }

  lemma EightDigits(high: nat, n: nat, a: nat, b: nat, c: nat, d: nat, e: nat, f: nat, g: nat, h: nat)
    requires a < 32 && b < 32 && c < 32 && d < 32 && e < 32 && f < 32 && g < 32 && h < 32
    requires high == ((a * 32 + b) * 32 + c) * 32 + d
    requires n == (((high * 32 + e) * 32 + f) * 32 + g) * 32 + h
    ensures Digits(n, 8) == [Symbol(a), Symbol(b), Symbol(c), Symbol(d)] + [Symbol(e), Symbol(f), Symbol(g), Symbol(h)]
  {
    hide Digits, Symbol;
    NoDigits(0);
    FourDigits(0, 0, a, b, c, d);
    assert Digits(high, 4) == [Symbol(a), Symbol(b), Symbol(c), Symbol(d)];
    FourDigits(high, 4, e, f, g, h);
  }

  lemma FourDigits(n: nat, k: nat, a: nat, b: nat, c: nat, d: nat)
    requires a < 32 && b < 32 && c < 32 && d < 32
    ensures Digits((((n * 32 + a) * 32 + b) * 32 + c) * 32 + d, k + 4)
         == Digits(n, k) + [Symbol(a), Symbol(b), Symbol(c), Symbol(d)]
  {
    hide Digits, Symbol;
    var n1 := n * 32 + a;
    var n2 := n1 * 32 + b;
    var n3 := n2 * 32 + c;
    PushDigit(n, a, k);
    PushDigit(n1, b, k + 1);
    PushDigit(n2, c, k + 2);
    PushDigit(n3, d, k + 3);
  }

  lemma NoDigits(n: nat)
    ensures Digits(n, 0) == ""
  {
  }

  lemma FiveBytes(p: u8, q: u8, r: u8, s: u8, t: u8)
    ensures FromBe([p, q, r, s, t]) == (((p * 256 + q) * 256 + r) * 256 + s) * 256 + t
  {
    FromBeStep([p, q, r, s], t);
    FromBeStep([p, q, r], s);
    FromBeStep([p, q], r);
    FromBeStep([p], q);
    FromBeStep([], p);
    assert [p, q, r, s, t] == [p, q, r, s] + [t] && [p, q, r, s] == [p, q, r] + [s] && [p, q, r] == [p, q] + [r];
  }

  lemma FromBeStep(g: Bytes, b: u8)
    ensures FromBe(g + [b]) == FromBe(g) * 256 + b
  {
    assert (g + [b])[..|g|] == g;
  }

  /** Five bytes are eight digits, five bits to a digit from the left. */
  lemma QuantumBits(p: u8, q: u8, r: u8, s: u8, t: u8)
    ensures Digits(FromBe([p, q, r, s, t]), 8)
         == [Symbol(p / 8), Symbol(p % 8 * 4 + q / 64), Symbol(q / 2 % 32), Symbol(q % 2 * 16 + r / 16),
             Symbol(r % 16 * 2 + s / 128), Symbol(s / 4 % 32), Symbol(s % 4 * 8 + t / 32), Symbol(t % 32)]
  {
    hide Digits, FromBe;
    FiveBytes(p, q, r, s, t);
    HighBits(p, q, r);
    LowBits(r, s, t);
    EightDigits((p * 256 + q) * 16 + r / 16, FromBe([p, q, r, s, t]), p / 8, p % 8 * 4 + q / 64, q / 2 % 32, q % 2 * 16 + r / 16,
                r % 16 * 2 + s / 128, s / 4 % 32, s % 4 * 8 + t / 32, t % 32);
  }

  lemma HighBits(p: u8, q: u8, r: u8)
    ensures (p * 256 + q) * 16 + r / 16
         == ((p / 8 * 32 + (p % 8 * 4 + q / 64)) * 32 + q / 2 % 32) * 32 + (q % 2 * 16 + r / 16)
  {
    assert q / 64 * 64 + q / 2 % 32 * 2 + q % 2 == q;
  }

  lemma LowBits(r: u8, s: u8, t: u8)
    ensures (r % 16 * 256 + s) * 256 + t
         == (((r % 16 * 2 + s / 128) * 32 + s / 4 % 32) * 32 + (s % 4 * 8 + t / 32)) * 32 + t % 32
  {
    assert s / 128 * 128 + s / 4 % 32 * 4 + s % 4 == s;
  }

  /** The encoder in full: eight digits for every five bytes, and for what is left over the
    * digits that hold its bits, completed by '='. */
  lemma EncoderSpelledOut(p: u8, q: u8, r: u8, s: u8, t: u8, rest: Bytes)
    ensures B32Encode([]) == ""
    ensures B32Encode([p]) == [Symbol(p / 8), Symbol(p % 8 * 4)] + "======"
    ensures B32Encode([p, q])
         == [Symbol(p / 8), Symbol(p % 8 * 4 + q / 64), Symbol(q / 2 % 32), Symbol(q % 2 * 16)] + "===="
    ensures B32Encode([p, q, r])
         == [Symbol(p / 8), Symbol(p % 8 * 4 + q / 64), Symbol(q / 2 % 32), Symbol(q % 2 * 16 + r / 16),
             Symbol(r % 16 * 2)] + "==="
    ensures B32Encode([p, q, r, s])
         == [Symbol(p / 8), Symbol(p % 8 * 4 + q / 64), Symbol(q / 2 % 32), Symbol(q % 2 * 16 + r / 16),
             Symbol(r % 16 * 2 + s / 128), Symbol(s / 4 % 32), Symbol(s % 4 * 8)] + "="
    ensures B32Encode([p, q, r, s, t] + rest)
         == [Symbol(p / 8), Symbol(p % 8 * 4 + q / 64), Symbol(q / 2 % 32), Symbol(q % 2 * 16 + r / 16),
             Symbol(r % 16 * 2 + s / 128), Symbol(s / 4 % 32), Symbol(s % 4 * 8 + t / 32), Symbol(t % 32)]
            + B32Encode(rest)
  {
    hide Digits, FromBe, Symbol;
    TailSpelledOut([p], [0, 0, 0, 0]);
    TailSpelledOut([p, q], [0, 0, 0]);
    TailSpelledOut([p, q, r], [0, 0]);
    TailSpelledOut([p, q, r, s], [0]);
    QuantumBits(p, 0, 0, 0, 0);
    QuantumBits(p, q, 0, 0, 0);
    QuantumBits(p, q, r, 0, 0);
    QuantumBits(p, q, r, s, 0);
    QuantumBits(p, q, r, s, t);
    assert [p] + [0, 0, 0, 0] == [p, 0, 0, 0, 0] && [p, q] + [0, 0, 0] == [p, q, 0, 0, 0];
    assert [p, q, r] + [0, 0] == [p, q, r, 0, 0] && [p, q, r, s] + [0] == [p, q, r, s, 0];
    assert Repeat('=', 6) == "======" && Repeat('=', 4) == "====" && Repeat('=', 3) == "===" && Repeat('=', 1) == "=";
    var data := [p, q, r, s, t] + rest;
    assert data[..5] == [p, q, r, s, t] && data[5..] == rest;
  }

  lemma TailSpelledOut(data: Bytes, zeros: Bytes)
    requires 1 <= |data| <= 4 && |data| + |zeros| == 5 && forall i :: 0 <= i < |zeros| ==> zeros[i] == 0
    ensures B32Encode(data) == Digits(FromBe(data + zeros), 8)[..CharsFor(|data|)] + Repeat('=', 8 - CharsFor(|data|))
  {
    hide Digits, FromBe;
    ZerosAreZero(|zeros|);
    assert zeros == Zeros(|zeros|);
  }

  lemma {:induction false} ZerosAreZero(n: nat)
    ensures forall i :: 0 <= i < n ==> Zeros(n)[i] == 0
  {
    if n != 0 {
      ZerosAreZero(n - 1);
    }
  }

  /** The text of an identity is "b3:" and the lower-case digits, without '='. */
  lemma ToTextSpelledOut(id: Digest)
    ensures |B32Encode(id)| == 56
    ensures ToText(id) == "b3:" + LowerAll(B32Encode(id)[..52]) && B32Encode(id)[52..] == "===="
  {
    hide Body, LowerAll;
    EncodingShape(id);
    BodyWidth(id);
    EncodeTextIsBody(id);
    assert Repeat('=', 4) == "====";
  }
}
