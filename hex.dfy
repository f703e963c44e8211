/** Fixed-width lowercase hexadecimal, as .NET's `ToString ("x2")`, `"x4"`, `"x8"`, `"x16"` write it. */
module HexFormat {

  function Pow16(w: nat): (p: nat)
    ensures p > 0
  {
    if w == 0 then 1 else 16 * Pow16(w - 1)
  }

  /** The lowercase digit for `d`: '0'..'9', then 'a'..'f'. */
  function HexChar(d: nat): char
    requires d < 16
  {
    if d < 10 then ('0' as int + d) as char else ('a' as int + d - 10) as char
  }

  predicate IsHexChar(c: char)
  {
    '0' <= c <= '9' || 'a' <= c <= 'f'
  }

  /** The value of one lowercase hex digit (0 for any other character). */
  function HexValue(c: char): nat
  {
    if '0' <= c <= '9' then c as int - '0' as int
    else if 'a' <= c <= 'f' then c as int - 'a' as int + 10
    else 0
  }

  /** The low `width` hex digits of `v`, most significant first, padded with zeros. */
  function Hex(v: nat, width: nat): (s: string)
    ensures |s| == width
  {
    if width == 0 then "" else Hex(v / 16, width - 1) + [HexChar(v % 16)]
  }

  /** Every character written is a lowercase hex digit. */
  lemma {:induction false} HexDigits(v: nat, width: nat)
    ensures forall k :: 0 <= k < width ==> IsHexChar(Hex(v, width)[k])
  {
    if width > 0 {
      HexDigits(v / 16, width - 1);
      var s := Hex(v, width);
      assert s == Hex(v / 16, width - 1) + [HexChar(v % 16)];
    }
  }

  /** Reads a string of hex digits back into a number. */
  function ParseHex(s: string): nat
  {
    if |s| == 0 then 0 else ParseHex(s[..|s| - 1]) * 16 + HexValue(s[|s| - 1])
  }

  /** A value that fits in `width` digits is read back exactly from its rendering. */
  lemma {:induction false} ParseHexOfHex(v: nat, width: nat)
    requires v < Pow16(width)
    ensures ParseHex(Hex(v, width)) == v
  {
    if width > 0 {
      var s := Hex(v, width);
      var init := Hex(v / 16, width - 1);
      assert s == init + [HexChar(v % 16)];
      assert s[..|s| - 1] == init && s[|s| - 1] == HexChar(v % 16);
      ParseHexOfHex(v / 16, width - 1);
      HexValueOfChar(v % 16);
    }
  }

  lemma HexValueOfChar(d: nat)
    requires d < 16
    ensures HexValue(HexChar(d)) == d
  {
  }

  /** Values that fit in `width` digits render to distinct strings. */
  lemma HexInjective(v: nat, u: nat, width: nat)
    requires v < Pow16(width) && u < Pow16(width)
    requires Hex(v, width) == Hex(u, width)
    ensures v == u
  {
    ParseHexOfHex(v, width);
    ParseHexOfHex(u, width);
  }

  /** `a` followed by `k` zero digits. */
  function Shifted(a: nat, k: nat): nat
  {
    if k == 0 then a else 16 * Shifted(a, k - 1)
  }

  lemma {:induction false} ShiftedIsProduct(a: nat, k: nat)
    ensures Shifted(a, k) == a * Pow16(k)
  {
    if k > 0 {
      ShiftedIsProduct(a, k - 1);
      ScaleBy16(a, Pow16(k - 1));
    }
  }

  /** Writing `a` in `w` digits followed by `b` in `k` digits is writing `a * 16^k + b` in `w + k` digits. */
  lemma {:induction false} HexConcat(a: nat, b: nat, w: nat, k: nat)
    requires b < Pow16(k)
    ensures Hex(Shifted(a, k) + b, w + k) == Hex(a, w) + Hex(b, k)
  {
    if k > 0 {
      var q := Shifted(a, k - 1) + b / 16;
      var v := Shifted(a, k) + b;
      assert v == 16 * q + b % 16;
      DivMod16(q, b % 16);
      assert b / 16 < Pow16(k - 1);
      HexConcat(a, b / 16, w, k - 1);
      assert Hex(v, w + k) == Hex(q, w + k - 1) + [HexChar(b % 16)];
      assert Hex(b, k) == Hex(b / 16, k - 1) + [HexChar(b % 16)];
      AppendAssoc(Hex(a, w), Hex(b / 16, k - 1), [HexChar(b % 16)]);
    }
  }

  lemma AppendAssoc(x: string, y: string, z: string)
    ensures x + y + z == x + (y + z)
  {
  }

  lemma DivMod16(q: nat, r: nat)
    requires r < 16
    ensures (16 * q + r) / 16 == q && (16 * q + r) % 16 == r
  {
  }

  lemma ScaleBy16(a: nat, p: nat)
    ensures a * (16 * p) == 16 * (a * p)
  {
  }

  /** The hex of a byte sequence, two digits per byte in order (`b.ToString ("x2")` per byte). */
  function BytesHex(bytes: seq<nat>): (s: string)
    ensures |s| == 2 * |bytes|
  {
    if |bytes| == 0 then "" else BytesHex(bytes[..|bytes| - 1]) + Hex(bytes[|bytes| - 1], 2)
  }

  /** Reads pairs of hex digits back into bytes. */
  function ParseBytes(s: string): seq<nat>
  {
    if |s| < 2 then [] else ParseBytes(s[..|s| - 2]) + [ParseHex(s[|s| - 2..])]
  }

  /** Every byte's two digits sit at its own position. */
  lemma {:induction false} BytesHexAt(bytes: seq<nat>, i: nat)
    requires i < |bytes|
    ensures BytesHex(bytes)[2 * i..2 * i + 2] == Hex(bytes[i], 2)
  {
    var n := |bytes|;
    var init := bytes[..n - 1];
    var prefix, last := BytesHex(init), Hex(bytes[n - 1], 2);
    assert BytesHex(bytes) == prefix + last;
    if i < n - 1 {
      BytesHexAt(init, i);
      assert init[i] == bytes[i];
      SliceOfLeft(prefix, last, 2 * i, 2 * i + 2);
    } else {
      SliceOfLeft(prefix, last, |prefix|, |prefix|);
    }
  }

  /** A slice within the left operand of a concatenation; the right operand follows the left. */
  lemma SliceOfLeft(x: string, y: string, lo: nat, hi: nat)
    requires lo <= hi <= |x|
    ensures (x + y)[lo..hi] == x[lo..hi]
    ensures (x + y)[|x|..] == y
  {
  }

  /** The blob rendering can be read back exactly when every element is a byte. */
  lemma {:induction false} ParseBytesHex(bytes: seq<nat>)
    requires forall k :: 0 <= k < |bytes| ==> bytes[k] < 256
    ensures ParseBytes(BytesHex(bytes)) == bytes
  {
    var n := |bytes|;
    if n > 0 {
      var init, last := bytes[..n - 1], bytes[n - 1];
      assert bytes == init + [last];
      ParseBytesHex(init);
      assert Pow16(2) == 256;
      ParseHexOfHex(last, 2);
      ParseBytesSnoc(BytesHex(init), Hex(last, 2));
    }
  }

  /** Two more digits read as one more byte. */
  lemma ParseBytesSnoc(s: string, pair: string)
    requires |pair| == 2
    ensures ParseBytes(s + pair) == ParseBytes(s) + [ParseHex(pair)]
  {
    var t := s + pair;
    assert t[..|t| - 2] == s && t[|t| - 2..] == pair;
  }
}
