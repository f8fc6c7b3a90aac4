/** Strict UTF-8, as `bytes.decode("utf-8")` and `str.encode("utf-8")` apply it
  * (section 3 of RFC 3629), and the order of strings. */
module Utf8 {
  import opened Wire

  type CodePoint = c: int | 0 <= c < 0xD800 || 0xE000 <= c < 0x110000
  type Text = seq<CodePoint>

  /** The characters are the Unicode scalar values, all of them. */
  lemma ScalarValues(n: int, d: CodePoint) returns (c: CodePoint)
    requires 0 <= n <= 0x10FFFF && !(0xD800 <= n <= 0xDFFF)
    ensures c == n
    ensures 0 <= d <= 0x10FFFF && !(0xD800 <= d <= 0xDFFF)
  {
    c := n;
  }

  function EncodeChar(c: CodePoint): (b: Bytes)
    ensures 1 <= |b| <= 4
  {
    if c < 0x80 then [c]
    else if c < 0x800 then [0xC0 + c / 0x40, 0x80 + c % 0x40]
    else if c < 0x10000 then [0xE0 + c / 0x1000, 0x80 + c / 0x40 % 0x40, 0x80 + c % 0x40]
    else [0xF0 + c / 0x40000, 0x80 + c / 0x1000 % 0x40, 0x80 + c / 0x40 % 0x40, 0x80 + c % 0x40]
  }

  function EncodeUtf8(t: Text): Bytes {
    EncodeAll(EncodeChar, t)
  }

  predicate Tail(b: u8) {
    0x80 <= b < 0xC0
  }

  /** The payload bits of a byte whose marker bits are `marker`. */
  function Payload(b: u8, marker: int): int {
    b - marker
  }

  /** The first character of `b`, with the ranges of section 4 of RFC 3629: no overlong
    * forms, no surrogates, nothing above U+10FFFF. */
  function DecodeChar(b: Bytes): Option<CodePoint> {
    if |b| == 0 then None
    else if b[0] < 0x80 then Some(b[0])
    else if 0xC2 <= b[0] < 0xE0 && |b| >= 2 && Tail(b[1]) then
      Some(Payload(b[0], 0xC0) * 0x40 + Payload(b[1], 0x80))
    else if 0xE0 <= b[0] < 0xF0 && |b| >= 3 && Tail(b[1]) && Tail(b[2])
            && (b[0] == 0xE0 ==> b[1] >= 0xA0) && (b[0] == 0xED ==> b[1] < 0xA0) then
      Some(Payload(b[0], 0xE0) * 0x1000 + Payload(b[1], 0x80) * 0x40 + Payload(b[2], 0x80))
    else if 0xF0 <= b[0] < 0xF5 && |b| >= 4 && Tail(b[1]) && Tail(b[2]) && Tail(b[3])
            && (b[0] == 0xF0 ==> b[1] >= 0x90) && (b[0] == 0xF4 ==> b[1] < 0x90) then
      Some(Payload(b[0], 0xF0) * 0x40000 + Payload(b[1], 0x80) * 0x1000 + Payload(b[2], 0x80) * 0x40 + Payload(b[3], 0x80))
    else None
  }

  /** How many bytes a character takes, by its first. */
  function CharWidth(b: u8): nat {
    if b < 0x80 then 1 else if b < 0xE0 then 2 else if b < 0xF0 then 3 else 4
  }

  /** The table of section 3 of RFC 3629: a character below 0x80 is its own byte, and above that
    * its bits, six to a byte from the right, stand in two, three or four bytes by its range. */
  lemma EncodingTable(c: CodePoint, w: nat, z: nat, y: nat, x: nat)
    requires c == w * 0x4_0000 + z * 0x1000 + y * 0x40 + x && z < 0x40 && y < 0x40 && x < 0x40
    ensures c <= 0x7F ==> EncodeChar(c) == [c]
    ensures 0x80 <= c <= 0x7FF ==> w == z == 0 && y < 0x20 && EncodeChar(c) == [0xC0 + y, 0x80 + x]
    ensures 0x800 <= c <= 0xFFFF ==> w == 0 && z < 0x10 && EncodeChar(c) == [0xE0 + z, 0x80 + y, 0x80 + x]
    ensures 0x1_0000 <= c ==> w < 8 && EncodeChar(c) == [0xF0 + w, 0x80 + z, 0x80 + y, 0x80 + x]
  {
    SixBits(w * 0x1000 + z * 0x40 + y, x);
    SixBits(w * 0x40 + z, y);
    SixBits(w, z);
    assert c / 0x40 == w * 0x1000 + z * 0x40 + y;
    assert c / 0x1000 == c / 0x40 / 0x40 == w * 0x40 + z;
    assert c / 0x4_0000 == c / 0x1000 / 0x40 == w;
  }

  lemma SixBits(high: nat, low: int)
    requires 0 <= low < 0x40
    ensures (high * 0x40 + low) / 0x40 == high && (high * 0x40 + low) % 0x40 == low
  {
  }

  lemma DecodeCharSound(b: Bytes)
    requires DecodeChar(b).Some?
    ensures EncodeChar(DecodeChar(b).value) <= b
  {
    var c := DecodeChar(b).value;
    var e := EncodeChar(c);
    if 0xC2 <= b[0] < 0xE0 {
      SixBits(Payload(b[0], 0xC0), Payload(b[1], 0x80));
      assert e == b[..2];
    } else if 0xE0 <= b[0] < 0xF0 {
      var high := Payload(b[0], 0xE0) * 0x40 + Payload(b[1], 0x80);
      SixBits(Payload(b[0], 0xE0), Payload(b[1], 0x80));
      SixBits(high, Payload(b[2], 0x80));
      assert c / 0x40 == high && c / 0x1000 == high / 0x40;
      assert e == b[..3];
    } else if 0xF0 <= b[0] {
      DecodeLongCharSound(b);
    }
  }

  lemma DecodeLongCharSound(b: Bytes)
    requires DecodeChar(b).Some? && 0xF0 <= b[0]
    ensures EncodeChar(DecodeChar(b).value) == b[..4]
  {
    var c := DecodeChar(b).value;
    var top := Payload(b[0], 0xF0) * 0x40 + Payload(b[1], 0x80);
    var high := top * 0x40 + Payload(b[2], 0x80);
    SixBits(Payload(b[0], 0xF0), Payload(b[1], 0x80));
    SixBits(top, Payload(b[2], 0x80));
    SixBits(high, Payload(b[3], 0x80));
    assert c / 0x40 == high && c / 0x1000 == top && c / 0x40000 == top / 0x40;
  }

  lemma DecodeCharWidth(b: Bytes)
    requires DecodeChar(b).Some?
    ensures CharWidth(b[0]) == |EncodeChar(DecodeChar(b).value)| <= |b|
  {
    DecodeCharSound(b);
  }

  lemma DecodeCharComplete(c: CodePoint, rest: Bytes)
    ensures DecodeChar(EncodeChar(c) + rest) == Some(c) && CharWidth(EncodeChar(c)[0]) == |EncodeChar(c)|
  {
    assert c / 0x1000 == c / 0x40 / 0x40 && c / 0x40000 == c / 0x1000 / 0x40;
  }

  function DecodeUtf8(b: Bytes): Option<Text> {
    if |b| == 0 then Some([]) else
      match DecodeChar(b)
      case None => None
      case Some(c) =>
        match DecodeUtf8(b[CharWidth(b[0])..])
        case None => None
        case Some(t) => Some([c] + t)
  }

  /** Decoding succeeds precisely on encodings, and inverts them. */
  lemma {:induction false} Utf8Exact(b: Bytes, t: Text)
    ensures DecodeUtf8(b) == Some(t) <==> b == EncodeUtf8(t)
    decreases |b| + |t|
  {
    if |t| != 0 {
      var c, tail := t[0], t[1..];
      if b == EncodeUtf8(t) {
        DecodeCharComplete(c, EncodeUtf8(tail));
        assert b[|EncodeChar(c)|..] == EncodeUtf8(tail);
        Utf8Exact(EncodeUtf8(tail), tail);
        assert t == [c] + tail;
      }
      if DecodeUtf8(b) == Some(t) {
        DecodeCharSound(b);
        DecodeCharWidth(b);
        var rest := b[|EncodeChar(c)|..];
        assert DecodeUtf8(rest).Some? && t == [c] + DecodeUtf8(rest).value;
        assert DecodeUtf8(rest).value == tail;
        Utf8Exact(rest, tail);
        assert b == EncodeChar(c) + rest;
      }
    }
  }

  lemma DecodeEncode(t: Text)
    ensures DecodeUtf8(EncodeUtf8(t)) == Some(t)
  {
    Utf8Exact(EncodeUtf8(t), t);
  }

  // ----- order -----

  /** Strict lexicographic order: Python's `<` on `str` and on `bytes`. */
  predicate Less(a: seq<int>, b: seq<int>) {
    |b| != 0 && (|a| == 0 || a[0] < b[0] || (a[0] == b[0] && Less(a[1..], b[1..])))
  }

  /** `b` goes on where `a` ends, or they first differ where `a` has the smaller element. */
  ghost predicate Precedes(a: seq<int>, b: seq<int>) {
    a < b || exists k :: 0 <= k < |a| && k < |b| && a[..k] == b[..k] && a[k] < b[k]
  }

  /** What the recursion decides is lexicographic order, a proper prefix coming first. */
  lemma {:induction false} LessMeans(a: seq<int>, b: seq<int>)
    ensures Less(a, b) <==> Precedes(a, b)
  {
    if a < b {
      LessPrefix(a, b);
    }
    if k :| 0 <= k < |a| && k < |b| && a[..k] == b[..k] && a[k] < b[k] {
      LessAt(a, b, k);
    }
    if Less(a, b) {
      LessIsPreceding(a, b);
    }
  }

  lemma {:induction false} LessPrefix(a: seq<int>, b: seq<int>)
    requires a < b
    ensures Less(a, b)
  {
    if |a| != 0 {
      LessPrefix(a[1..], b[1..]);
    }
  }

  lemma {:induction false} LessIsPreceding(a: seq<int>, b: seq<int>)
    requires Less(a, b)
    ensures Precedes(a, b)
  {
    if |a| != 0 {
      if a[0] < b[0] {
        assert a[..0] == b[..0];
      } else {
        LessIsPreceding(a[1..], b[1..]);
        if k :| 0 <= k < |a| - 1 && k < |b| - 1 && a[1..][..k] == b[1..][..k] && a[1..][k] < b[1..][k] {
          assert a[..k + 1] == [a[0]] + a[1..][..k] && b[..k + 1] == [b[0]] + b[1..][..k];
          assert a[k + 1] < b[k + 1];
        } else {
          assert a == [a[0]] + a[1..] && b == [b[0]] + b[1..];
        }
      }
    }
  }

  lemma {:induction false} LessTransitive(a: seq<int>, b: seq<int>, c: seq<int>)
    requires Less(a, b) && Less(b, c)
    ensures Less(a, c)
  {
    if |a| != 0 && a[0] == b[0] == c[0] {
      LessTransitive(a[1..], b[1..], c[1..]);
    }
  }

  lemma {:induction false} LessIrreflexive(a: seq<int>)
    ensures !Less(a, a)
  {
    if |a| != 0 {
      LessIrreflexive(a[1..]);
    }
  }

  lemma {:induction false} LessCommonPrefix(p: seq<int>, a: seq<int>, b: seq<int>)
    ensures Less(p + a, p + b) <==> Less(a, b)
  {
    if |p| == 0 {
      assert p + a == a && p + b == b;
    } else {
      LessCommonPrefix(p[1..], a, b);
      assert (p + a)[1..] == p[1..] + a && (p + b)[1..] == p[1..] + b;
    }
  }

  /** `a` and `b` first differ at index `k`, where `a` is smaller. */
  lemma {:induction false} LessAt(a: seq<int>, b: seq<int>, k: nat)
    requires k < |a| && k < |b| && a[..k] == b[..k] && a[k] < b[k]
    ensures Less(a, b) && !Less(b, a)
  {
    if k != 0 {
      assert a[0] == a[..k][0] == b[..k][0] == b[0];
      assert a[1..][..k - 1] == a[..k][1..] == b[..k][1..] == b[1..][..k - 1];
      LessAt(a[1..], b[1..], k - 1);
    }
  }

  /** Encodings of different characters differ first at an index inside both, the smaller
    * character having the smaller byte there. */
  lemma CharsDiffer(c: CodePoint, d: CodePoint) returns (k: nat)
    requires c < d
    ensures var a, b := EncodeChar(c), EncodeChar(d);
            k < |a| && k < |b| && a[..k] == b[..k] && a[k] < b[k]
  {
    var a, b := EncodeChar(c), EncodeChar(d);
    if |a| != |b| || c < 0x80 {
      k := 0;
    } else if c < 0x800 {
      k := if a[0] != b[0] then 0 else 1;
    } else if c < 0x10000 {
      assert c / 0x1000 == c / 0x40 / 0x40 && d / 0x1000 == d / 0x40 / 0x40;
      k := if a[0] != b[0] then 0 else if a[1] != b[1] then 1 else 2;
    } else {
      k := LongCharsDiffer(c, d);
    }
  }

  lemma LongCharsDiffer(c: CodePoint, d: CodePoint) returns (k: nat)
    requires 0x10000 <= c < d
    ensures var a, b := EncodeChar(c), EncodeChar(d);
            k < |a| && k < |b| && a[..k] == b[..k] && a[k] < b[k]
  {
    var a, b := EncodeChar(c), EncodeChar(d);
    var c1, d1 := c / 0x40, d / 0x40;
    var c2, d2 := c1 / 0x40, d1 / 0x40;
    assert c / 0x1000 == c2 && c / 0x40000 == c2 / 0x40;
    assert d / 0x1000 == d2 && d / 0x40000 == d2 / 0x40;
    k := if c2 / 0x40 != d2 / 0x40 then 0 else if c2 != d2 then 1 else if c1 != d1 then 2 else 3;
  }

  lemma CharOrder(c: CodePoint, d: CodePoint, x: Bytes, y: Bytes)
    requires c < d
    ensures Less(EncodeChar(c) + x, EncodeChar(d) + y)
    ensures !Less(EncodeChar(d) + y, EncodeChar(c) + x)
  {
    hide EncodeChar, Less;
    var a, b := EncodeChar(c), EncodeChar(d);
    var k := CharsDiffer(c, d);
    assert (a + x)[..k] == a[..k] && (b + y)[..k] == b[..k];
    LessAt(a + x, b + y, k);
  }

  /** Byte order of the encodings is the order of the strings (section 1 of RFC 3629). */
  lemma {:induction false} Utf8Order(s: Text, t: Text)
    ensures Less(s, t) <==> Less(EncodeUtf8(s), EncodeUtf8(t))
  {
    if |s| != 0 && |t| != 0 {
      var x, y := EncodeUtf8(s[1..]), EncodeUtf8(t[1..]);
      if s[0] < t[0] {
        CharOrder(s[0], t[0], x, y);
      } else if t[0] < s[0] {
        CharOrder(t[0], s[0], y, x);
      } else {
        LessCommonPrefix(EncodeChar(s[0]), x, y);
        Utf8Order(s[1..], t[1..]);
      }
    }
  }

  /** An ASCII byte occurs in an encoding only for that ASCII character. */
  lemma {:induction false} AsciiByte(t: Text, c: u8)
    requires c < 0x80
    ensures c in EncodeUtf8(t) <==> c in t
  {
    if |t| != 0 {
      AsciiByte(t[1..], c);
      assert c in EncodeChar(t[0]) <==> c == t[0];
      assert t == [t[0]] + t[1..];
    }
  }
}
