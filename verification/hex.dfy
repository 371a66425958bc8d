/**
 * The hex helpers of `Utils`: `bytes_to_str` writes `0x` followed by the
 * lower-case hex of a byte sequence; `str_to_bytes` removes every `0x` from a
 * string and hands the rest to Python's `bytes.fromhex`.
 */
module Hex {
  import opened Wrappers

  /** One element of a Python `bytes` object. */
  type uint8 = x: int | 0 <= x < 256

  /** The digits `bytes.fromhex` accepts, in either case. */
  predicate IsHexDigit(c: char) {
    '0' <= c <= '9' || 'a' <= c <= 'f' || 'A' <= c <= 'F'
  }

  /** The digits `binascii.hexlify` writes. */
  predicate IsLowerHexDigit(c: char) {
    '0' <= c <= '9' || 'a' <= c <= 'f'
  }

  /** The whitespace `bytes.fromhex` skips between byte pairs (ASCII only, Python 3.7 and later). */
  predicate IsAsciiSpace(c: char) {
    c == ' ' || '\t' <= c <= '\r'
  }

  function DigitValue(c: char): (v: int)
    requires IsHexDigit(c)
    ensures 0 <= v < 16
  {
    if '0' <= c <= '9' then c as int - '0' as int
    else if 'a' <= c <= 'f' then c as int - 'a' as int + 10
    else c as int - 'A' as int + 10
  }

  /** `hi` and `lo` are the two digits of the byte `v`, high nibble first. */
  predicate EncodesByte(hi: char, lo: char, v: int) {
    IsHexDigit(hi) && IsHexDigit(lo) && 16 * DigitValue(hi) + DigitValue(lo) == v
  }

  /** The lower-case digit of a nibble; `DigitValue` reads it back. */
  function DigitChar(n: int): (c: char)
    requires 0 <= n < 16
    ensures IsLowerHexDigit(c) && DigitValue(c) == n
  {
    if n < 10 then ('0' as int + n) as char else ('a' as int + n - 10) as char
  }

  /** `binascii.hexlify`: two lower-case digits per byte, high nibble first. */
  function Hexlify(b: seq<uint8>): (h: string)
    ensures |h| == 2 * |b|
    ensures forall i :: 0 <= i < |h| ==> IsLowerHexDigit(h[i])
  {
    if |b| == 0 then ""
    else [DigitChar(b[0] / 16), DigitChar(b[0] % 16)] + Hexlify(b[1..])
  }

  /** Digits `2i` and `2i + 1` of `Hexlify(b)` spell out byte `i`. */
  lemma {:induction false} HexlifyEncodes(b: seq<uint8>)
    ensures forall i :: 0 <= i < |b| ==> EncodesByte(Hexlify(b)[2 * i], Hexlify(b)[2 * i + 1], b[i])
    decreases |b|
  {
    if |b| > 0 {
      var h, t := Hexlify(b), Hexlify(b[1..]);
      HexlifyEncodes(b[1..]);
      forall i | 0 <= i < |b| ensures EncodesByte(h[2 * i], h[2 * i + 1], b[i]) {
        if i > 0 {
          assert h[2 * i] == t[2 * (i - 1)] && h[2 * i + 1] == t[2 * (i - 1) + 1];
          assert b[i] == b[1..][i - 1];
        }
      }
    }
  }

  /** `Utils.bytes_to_str`. */
  function BytesToStr(b: seq<uint8>): (s: string)
    ensures |s| == 2 + 2 * |b| && s[..2] == "0x"
    ensures forall i :: 2 <= i < |s| ==> IsLowerHexDigit(s[i])
  {
    "0x" + Hexlify(b)
  }

  /** `s.replace("0x", "")`: every occurrence, scanned left to right, is removed. */
  function Remove0x(s: string): (r: string)
    ensures |r| <= |s|
    ensures 'x' !in s ==> r == s
  {
    if |s| >= 2 && s[0] == '0' && s[1] == 'x' then Remove0x(s[2..])
    else if |s| == 0 then ""
    else [s[0]] + Remove0x(s[1..])
  }

  /** No `0x` occurs anywhere in the text. */
  predicate NoZeroX(s: string) {
    forall i :: 0 <= i < |s| - 1 ==> !(s[i] == '0' && s[i + 1] == 'x')
  }

  /**
   * An occurrence of `0x` is removed and the text on either side is treated
   * on its own: no occurrence can straddle the removed pair.
   */
  lemma Remove0xSplit(a: string, b: string)
    ensures Remove0x(a + "0x" + b) == Remove0x(a) + Remove0x(b)
  {
    assert a + "0x" + b == a + ("0x" + b);
    Remove0xAppend(a, "0x" + b);
    assert ("0x" + b)[2..] == b;
    Remove0xDrop("0x" + b);
  }

  /** Text that does not start with `x` cannot complete a `0x` begun before it. */
  lemma {:induction false} Remove0xAppend(a: string, u: string)
    requires |u| > 0 && u[0] != 'x'
    ensures Remove0x(a + u) == Remove0x(a) + Remove0x(u)
    decreases |a|
  {
    if |a| == 0 {
      assert a + u == u;
    } else if |a| >= 2 && a[0] == '0' && a[1] == 'x' {
      Remove0xAppend(a[2..], u);
      Remove0xAppendDrop(a, u);
    } else {
      Remove0xAppend(a[1..], u);
      Remove0xAppendKeep(a, u);
    }
  }

  /** One step of `Remove0xAppend` past a leading `0x` of `a`. */
  lemma Remove0xAppendDrop(a: string, u: string)
    requires |a| >= 2 && a[0] == '0' && a[1] == 'x'
    requires Remove0x(a[2..] + u) == Remove0x(a[2..]) + Remove0x(u)
    ensures Remove0x(a + u) == Remove0x(a) + Remove0x(u)
  {
    var s := a + u;
    assert s[0] == '0' && s[1] == 'x';
    assert s[2..] == a[2..] + u;
    Remove0xDrop(s);
    Remove0xDrop(a);
  }

  /** One step of `Remove0xAppend` past a first character of `a` that is kept. */
  lemma Remove0xAppendKeep(a: string, u: string)
    requires |a| > 0 && !(|a| >= 2 && a[0] == '0' && a[1] == 'x')
    requires |u| > 0 && u[0] != 'x'
    requires Remove0x(a[1..] + u) == Remove0x(a[1..]) + Remove0x(u)
    ensures Remove0x(a + u) == Remove0x(a) + Remove0x(u)
  {
    var s, t := a + u, a[1..];
    var c := a[0];
    DropFirst(a, u);
    assert s[0] == c;
    assert !(|s| >= 2 && s[0] == '0' && s[1] == 'x') by {
      if |t| > 0 {
        assert s[1] == a[1];
      } else {
        assert s[1] == u[0];
      }
    }
    Remove0xKeep(s);
    Remove0xKeep(a);
    var x, y, z := Remove0x(t), Remove0x(u), Remove0x(s);
    assert z == [c] + (x + y);
    assert Remove0x(a) == [c] + x;
    ConsAssoc(c, x, y);
  }

  /** Prepending a character and concatenating associate. */
  lemma ConsAssoc(c: char, x: string, y: string)
    ensures [c] + (x + y) == ([c] + x) + y
  {
  }

  /** Dropping the first character of `a + u` drops it from `a`. */
  lemma DropFirst(a: string, u: string)
    requires |a| > 0
    ensures (a + u)[1..] == a[1..] + u
  {
  }

  /** A leading `0x` is removed. */
  lemma Remove0xDrop(s: string)
    requires |s| >= 2 && s[0] == '0' && s[1] == 'x'
    ensures Remove0x(s) == Remove0x(s[2..])
  {
  }

  /** A first character that does not start a `0x` is kept. */
  lemma Remove0xKeep(s: string)
    requires |s| > 0 && !(|s| >= 2 && s[0] == '0' && s[1] == 'x')
    ensures Remove0x(s) == [s[0]] + Remove0x(s[1..])
  {
  }

  /** `replace("0x", "")` leaves a text unchanged exactly when `0x` does not occur in it. */
  lemma {:induction false} Remove0xUnchanged(s: string)
    ensures Remove0x(s) == s <==> NoZeroX(s)
    decreases |s|
  {
    if !NoZeroX(s) {
      var i :| 0 <= i < |s| - 1 && s[i] == '0' && s[i + 1] == 'x';
      assert s == s[..i] + "0x" + s[i + 2..];
      Remove0xSplit(s[..i], s[i + 2..]);
    } else if |s| > 0 {
      assert NoZeroX(s[1..]) by {
        forall i | 0 <= i < |s[1..]| - 1 ensures !(s[1..][i] == '0' && s[1..][i + 1] == 'x') {
          assert s[1..][i] == s[i + 1] && s[1..][i + 1] == s[i + 2];
        }
      }
      Remove0xUnchanged(s[1..]);
      Remove0xKeep(s);
    }
  }

  /**
   * `bytes.fromhex`: whitespace may separate byte pairs but not split one;
   * any other character, or a lone trailing digit, is a ValueError (None).
   */
  function FromHex(s: string): (r: Option<seq<uint8>>)
    ensures r.Some? ==> 2 * |r.value| <= |s|
  {
    if |s| == 0 then Some([])
    else if IsAsciiSpace(s[0]) then FromHex(s[1..])
    else if |s| >= 2 && IsHexDigit(s[0]) && IsHexDigit(s[1]) then
      match FromHex(s[2..])
      case None => None
      case Some(rest) => Some([16 * DigitValue(s[0]) + DigitValue(s[1])] + rest)
    else None
  }

  /** `Utils.str_to_bytes`; None stands for the ValueError `bytes.fromhex` raises. */
  function StrToBytes(s: string): (r: Option<seq<uint8>>)
    ensures r.Some? ==> 2 * |r.value| <= |s|
    ensures IsCanonicalHex(s) ==> r.Some? && 2 * |r.value| + 2 == |s| && Hexlify(r.value) == s[2..]
  {
    assert IsCanonicalHex(s) ==> Remove0x(s) == s[2..] && FromHex(s[2..]).Some? && Hexlify(FromHex(s[2..]).value) == s[2..] by {
      if IsCanonicalHex(s) {
        CanonicalDigits(s);
      }
    }
    FromHex(Remove0x(s))
  }

  /** An even number of hex digits in either case, and nothing else. */
  predicate IsHexDigits(h: string) {
    |h| % 2 == 0 && forall i :: 0 <= i < |h| ==> IsHexDigit(h[i])
  }

  /** `fromhex` reads digit pair `i`, in either case, as byte `i`. */
  lemma {:induction false} FromHexDigits(h: string)
    requires IsHexDigits(h)
    ensures FromHex(h).Some? && 2 * |FromHex(h).value| == |h|
    ensures forall i :: 0 <= i < |FromHex(h).value| ==> EncodesByte(h[2 * i], h[2 * i + 1], FromHex(h).value[i])
    decreases |h|
  {
    if |h| > 0 {
      var t := h[2..];
      assert IsHexDigits(t) by {
        forall i | 0 <= i < |t| ensures IsHexDigit(t[i]) {
          assert t[i] == h[i + 2];
        }
      }
      FromHexDigits(t);
      assert !IsAsciiSpace(h[0]) && IsHexDigit(h[1]);
      var v := FromHex(h).value;
      assert v == [16 * DigitValue(h[0]) + DigitValue(h[1])] + FromHex(t).value;
      forall i | 0 <= i < |v| ensures EncodesByte(h[2 * i], h[2 * i + 1], v[i]) {
        if i > 0 {
          assert h[2 * i] == t[2 * (i - 1)] && h[2 * i + 1] == t[2 * (i - 1) + 1];
        }
      }
    }
  }

  /** Once a text has been read whole, `fromhex` reads what follows it on its own. */
  lemma {:induction false} FromHexConcat(a: string, b: string)
    requires FromHex(a).Some?
    ensures FromHex(a + b) == if FromHex(b).Some? then Some(FromHex(a).value + FromHex(b).value) else None
    decreases |a|
  {
    if |a| == 0 {
      assert a + b == b;
      if FromHex(b).Some? {
        assert FromHex(a).value + FromHex(b).value == FromHex(b).value;
      }
    } else if IsAsciiSpace(a[0]) {
      FromHexConcat(a[1..], b);
      FromHexConcatSpace(a, b);
    } else {
      FromHexConcat(a[2..], b);
      FromHexConcatPair(a, b);
    }
  }

  /** One step of `FromHexConcat` past leading whitespace of `a`. */
  lemma FromHexConcatSpace(a: string, b: string)
    requires |a| > 0 && IsAsciiSpace(a[0]) && FromHex(a[1..]).Some?
    requires FromHex(a[1..] + b) == if FromHex(b).Some? then Some(FromHex(a[1..]).value + FromHex(b).value) else None
    ensures FromHex(a + b) == if FromHex(b).Some? then Some(FromHex(a).value + FromHex(b).value) else None
  {
    DropFirst(a, b);
    assert (a + b)[0] == a[0];
  }

  /** One step of `FromHexConcat` past a leading digit pair of `a`. */
  lemma FromHexConcatPair(a: string, b: string)
    requires FromHex(a).Some? && |a| > 0 && !IsAsciiSpace(a[0])
    requires FromHex(a[2..]).Some?
    requires FromHex(a[2..] + b) == if FromHex(b).Some? then Some(FromHex(a[2..]).value + FromHex(b).value) else None
    ensures FromHex(a + b) == if FromHex(b).Some? then Some(FromHex(a).value + FromHex(b).value) else None
  {
    var s, t := a + b, a[2..];
    assert |a| >= 2 && IsHexDigit(a[0]) && IsHexDigit(a[1]);
    DropPair(a, b);
    FromHexTake(a);
    FromHexTake(s);
    if FromHex(b).Some? {
      var x := 16 * DigitValue(a[0]) + DigitValue(a[1]);
      ByteAssoc(x, FromHex(t).value, FromHex(b).value);
    }
  }

  /** `fromhex` reads a leading digit pair as one byte, then the rest. */
  lemma FromHexTake(s: string)
    requires |s| >= 2 && !IsAsciiSpace(s[0]) && IsHexDigit(s[0]) && IsHexDigit(s[1])
    ensures FromHex(s) == if FromHex(s[2..]).Some? then Some([16 * DigitValue(s[0]) + DigitValue(s[1])] + FromHex(s[2..]).value) else None
  {
  }

  /** Dropping the first pair of `a + u` drops it from `a`. */
  lemma DropPair(a: string, u: string)
    requires |a| >= 2
    ensures (a + u)[2..] == a[2..] + u && (a + u)[0] == a[0] && (a + u)[1] == a[1]
  {
  }

  /** Prepending a byte and concatenating associate. */
  lemma ByteAssoc(x: uint8, y: seq<uint8>, z: seq<uint8>)
    ensures [x] + (y + z) == ([x] + y) + z
  {
  }

  /** Whitespace alone reads as no bytes. */
  lemma {:induction false} FromHexSpaces(w: string)
    requires forall i :: 0 <= i < |w| ==> IsAsciiSpace(w[i])
    ensures FromHex(w) == Some([])
    decreases |w|
  {
    if |w| > 0 {
      assert IsAsciiSpace(w[0]);
      assert forall i :: 0 <= i < |w[1..]| ==> IsAsciiSpace(w[1..][i]) by {
        forall i | 0 <= i < |w[1..]| ensures IsAsciiSpace(w[1..][i]) {
          assert w[1..][i] == w[i + 1];
        }
      }
      FromHexSpaces(w[1..]);
    }
  }

  /** Leading whitespace is skipped. */
  lemma SpacesThenText(w: string, b: string)
    requires forall i :: 0 <= i < |w| ==> IsAsciiSpace(w[i])
    ensures FromHex(w + b) == FromHex(b)
  {
    FromHexSpaces(w);
    FromHexConcat(w, b);
    if FromHex(b).Some? {
      assert [] + FromHex(b).value == FromHex(b).value;
    }
  }

  /** Whitespace between whole byte pairs is skipped: inserting it changes nothing. */
  lemma FromHexSkipsSpaces(a: string, w: string, b: string)
    requires FromHex(a).Some?
    requires forall i :: 0 <= i < |w| ==> IsAsciiSpace(w[i])
    ensures FromHex(a + w + b) == FromHex(a + b)
  {
    var wb := w + b;
    SpacesThenText(w, b);
    assert a + w + b == a + wb;
    FromHexConcat(a, wb);
    FromHexConcat(a, b);
  }

  /** Whitespace may not split a digit pair: a digit followed by whitespace is a ValueError. */
  lemma FromHexSplitPair(a: string, c: char, w: string, b: string)
    requires FromHex(a).Some? && IsHexDigit(c)
    requires |w| > 0 && forall i :: 0 <= i < |w| ==> IsAsciiSpace(w[i])
    ensures FromHex(a + [c] + w + b).None?
  {
    var t := [c] + w + b;
    assert t[0] == c && t[1] == w[0];
    assert !IsAsciiSpace(t[0]) && !IsHexDigit(t[1]);
    assert FromHex(t).None?;
    assert a + [c] + w + b == a + t;
    FromHexConcat(a, t);
  }

  /** A character that is neither a hex digit nor whitespace is a ValueError. */
  lemma {:induction false} FromHexRejects(s: string, k: nat)
    requires k < |s| && !IsHexDigit(s[k]) && !IsAsciiSpace(s[k])
    ensures FromHex(s).None?
    decreases |s|
  {
    if IsAsciiSpace(s[0]) {
      assert s[1..][k - 1] == s[k];
      FromHexRejects(s[1..], k - 1);
    } else if |s| >= 2 && IsHexDigit(s[0]) && IsHexDigit(s[1]) {
      assert s[2..][k - 2] == s[k];
      FromHexRejects(s[2..], k - 2);
    }
  }

  /** An odd number of hex digits leaves a lone digit: a ValueError. */
  lemma {:induction false} FromHexOddDigits(h: string)
    requires |h| % 2 == 1 && forall i :: 0 <= i < |h| ==> IsHexDigit(h[i])
    ensures FromHex(h).None?
    decreases |h|
  {
    assert !IsAsciiSpace(h[0]) && IsHexDigit(h[0]);
    if |h| > 1 {
      var t := h[2..];
      assert forall i :: 0 <= i < |t| ==> IsHexDigit(t[i]) by {
        forall i | 0 <= i < |t| ensures IsHexDigit(t[i]) {
          assert t[i] == h[i + 2];
        }
      }
      FromHexOddDigits(t);
      FromHexTake(h);
    }
  }

  /**
   * `str_to_bytes` of hex digits in either case, with or without a leading
   * `0x`, is what `fromhex` reads from the digits: byte `i` from pair `i`.
   */
  lemma {:induction false} StrToBytesDigits(h: string)
    requires IsHexDigits(h)
    ensures StrToBytes(h) == FromHex(h) && StrToBytes("0x" + h) == FromHex(h)
    ensures StrToBytes(h).Some? && 2 * |StrToBytes(h).value| == |h|
    ensures forall i :: 0 <= i < |StrToBytes(h).value| ==> EncodesByte(h[2 * i], h[2 * i + 1], StrToBytes(h).value[i])
  {
    assert 'x' !in h by {
      forall i | 0 <= i < |h| ensures h[i] != 'x' {
        assert IsHexDigit(h[i]);
      }
    }
    assert ("0x" + h)[2..] == h;
    FromHexDigits(h);
  }

  /** A canonical hex string: `0x` and an even number of lower-case digits. */
  predicate IsCanonicalHex(s: string) {
    |s| >= 2 && s[..2] == "0x" && |s| % 2 == 0
    && forall i :: 2 <= i < |s| ==> IsLowerHexDigit(s[i])
  }

  lemma {:induction false} FromHexHexlify(b: seq<uint8>)
    ensures FromHex(Hexlify(b)) == Some(b)
    decreases |b|
  {
    if |b| > 0 {
      var h := Hexlify(b);
      assert h[2..] == Hexlify(b[1..]);
      FromHexHexlify(b[1..]);
      assert EncodesByte(h[0], h[1], b[0]);
      assert !IsAsciiSpace(h[0]);
      assert FromHex(h) == Some([b[0]] + b[1..]);
      assert [b[0]] + b[1..] == b;
    }
  }

  /** `str_to_bytes(bytes_to_str(b)) == b` for every byte sequence. */
  lemma BytesToStrRoundTrip(b: seq<uint8>)
    ensures StrToBytes(BytesToStr(b)) == Some(b)
  {
    var h := Hexlify(b);
    assert 'x' !in h by {
      forall i | 0 <= i < |h| ensures h[i] != 'x' {
        assert IsLowerHexDigit(h[i]);
      }
    }
    var s := BytesToStr(b);
    assert s[2..] == h;
    assert Remove0x(s) == Remove0x(h);
    FromHexHexlify(b);
  }

  lemma {:induction false} HexlifyFromHex(h: string)
    requires |h| % 2 == 0
    requires forall i :: 0 <= i < |h| ==> IsLowerHexDigit(h[i])
    ensures FromHex(h).Some? && Hexlify(FromHex(h).value) == h
    decreases |h|
  {
    if |h| > 0 {
      var t := h[2..];
      assert forall i :: 0 <= i < |t| ==> IsLowerHexDigit(t[i]) by {
        forall i | 0 <= i < |t| ensures IsLowerHexDigit(t[i]) {
          assert t[i] == h[i + 2];
        }
      }
      HexlifyFromHex(t);
      var v: uint8 := 16 * DigitValue(h[0]) + DigitValue(h[1]);
      var rest := FromHex(t).value;
      assert !IsAsciiSpace(h[0]);
      FromHexTake(h);
      DigitPair(h[0], h[1]);
      HexlifyCons(v, rest);
      LeadingPair(h);
      assert Hexlify(FromHex(h).value) == [h[0], h[1]] + Hexlify(rest);
    }
  }

  /** A string of at least two characters is its first pair followed by the rest. */
  lemma LeadingPair(h: string)
    requires |h| >= 2
    ensures h == [h[0], h[1]] + h[2..]
  {
  }

  /** `hexlify` writes the first byte's two digits, then the rest. */
  lemma HexlifyCons(v: uint8, rest: seq<uint8>)
    ensures Hexlify([v] + rest) == [DigitChar(v / 16), DigitChar(v % 16)] + Hexlify(rest)
  {
    assert ([v] + rest)[1..] == rest;
  }

  /** Two lower-case digits are written back unchanged from the byte they spell. */
  lemma DigitPair(hi: char, lo: char)
    requires IsLowerHexDigit(hi) && IsLowerHexDigit(lo)
    ensures var v := 16 * DigitValue(hi) + DigitValue(lo);
      DigitChar(v / 16) == hi && DigitChar(v % 16) == lo
  {
    var v := 16 * DigitValue(hi) + DigitValue(lo);
    assert v / 16 == DigitValue(hi) && v % 16 == DigitValue(lo);
    LowerDigitUnique(DigitChar(v / 16), hi);
    LowerDigitUnique(DigitChar(v % 16), lo);
  }

  lemma LowerDigitUnique(c: char, d: char)
    requires IsLowerHexDigit(c) && IsLowerHexDigit(d) && DigitValue(c) == DigitValue(d)
    ensures c == d
  {
  }

  /** The digits after the `0x` of a canonical string are all `replace` leaves, and they decode. */
  lemma CanonicalDigits(s: string)
    requires IsCanonicalHex(s)
    ensures Remove0x(s) == s[2..]
    ensures FromHex(s[2..]).Some? && Hexlify(FromHex(s[2..]).value) == s[2..]
  {
    var h := s[2..];
    assert 'x' !in h by {
      forall i | 0 <= i < |h| ensures h[i] != 'x' {
        assert IsLowerHexDigit(s[i + 2]);
      }
    }
    assert s[..2] == "0x";
    assert s[0] == '0' && s[1] == 'x' by { assert s[..2][0] == s[0] && s[..2][1] == s[1]; }
    assert Remove0x(s) == Remove0x(h) == h;
    HexlifyFromHex(h);
  }

  lemma StrToBytesRoundTrip(s: string)
    requires IsCanonicalHex(s)
    ensures StrToBytes(s).Some? && BytesToStr(StrToBytes(s).value) == s
  {
    assert s == "0x" + s[2..];
  }
}
