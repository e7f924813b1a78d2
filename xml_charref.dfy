/*
 * Character references "&#x...;" and "&#...;" (XML 1.0 section 4.1) as
 * xmlStringLenGetNodeList and xmlStringGetNodeList decode them in libxml2's
 * tree module (Programs/ColladaConverter/Collada15/FCollada/LibXML/tree.c).
 * The digits after "&#x" or "&#" are accumulated until ';'. A character that
 * is not a digit of the radix aborts with the value 0, and that character is
 * not consumed. A ';' is consumed. The value is only turned into a text node
 * when it is not 0.
 *
 * xmlStringLenGetNodeList reads a byte only while cur < end and sees 0
 * beyond; xmlStringGetNodeList relies on the terminator instead, which is the
 * case end == |s| here.
 */
module XmlCharRef {

  import opened XmlString

  /** 16 after "&#x", 10 after "&#". */
  function Radix(hex: bool): nat
  {
    if hex then 16 else 10
  }

  predicate IsDigitIn(c: char, hex: bool)
  {
    '0' <= c <= '9' || (hex && ('a' <= c <= 'f' || 'A' <= c <= 'F'))
  }

  /** The value of one digit: tmp - '0', tmp - 'a' + 10 or tmp - 'A' + 10. */
  function DigitValue(c: char, hex: bool): (r: nat)
    requires IsDigitIn(c, hex)
    ensures r < Radix(hex)
  {
    if '0' <= c <= '9' then c as int - '0' as int
    else if 'a' <= c <= 'f' then c as int - 'a' as int + 10
    else c as int - 'A' as int + 10
  }

  predicate AllDigits(ds: seq<char>, hex: bool)
  {
    forall k :: 0 <= k < |ds| ==> IsDigitIn(ds[k], hex)
  }

  /** The number a digit string denotes, most significant digit first. */
  function DigitsValue(ds: seq<char>, hex: bool): nat
    requires AllDigits(ds, hex)
    decreases |ds|
  {
    if ds == [] then 0
    else DigitsValue(ds[..|ds| - 1], hex) * Radix(hex) + DigitValue(ds[|ds| - 1], hex)
  }

  /** The part of s the decoder can see: it stops at end and at the terminator. */
  function Bound(s: XmlStr, end: nat): (b: nat)
    ensures b <= |s| && b <= end && (b == end || b == |s|)
  {
    if end < |s| then end else |s|
  }

  /** tmp: the character at i, or 0 from end or the terminator on. */
  function Tmp(s: XmlStr, i: nat, end: nat): (c: char)
    ensures i < Bound(s, end) ==> c == s[i]
    ensures i >= Bound(s, end) ==> c == '\0'
  {
    if i < end then At(s, i) else '\0'
  }

  /** Where the run of digits starting at i ends. */
  function DigitsEnd(s: XmlStr, i: nat, end: nat, hex: bool): (j: nat)
    requires i <= Bound(s, end)
    ensures i <= j <= Bound(s, end)
    ensures forall k :: i <= k < j ==> IsDigitIn(s[k], hex)
    ensures j < Bound(s, end) ==> !IsDigitIn(s[j], hex)
    decreases Bound(s, end) - i
  {
    if i < Bound(s, end) && IsDigitIn(s[i], hex) then DigitsEnd(s, i + 1, end, hex) else i
  }

  /** The digits run ends where the first non-digit is. */
  lemma DigitsEndIs(s: XmlStr, i: nat, end: nat, hex: bool, j: nat)
    requires i <= j <= Bound(s, end)
    requires forall k :: i <= k < j ==> IsDigitIn(s[k], hex)
    requires j < Bound(s, end) ==> !IsDigitIn(s[j], hex)
    ensures DigitsEnd(s, i, end, hex) == j
  {
  }

  /** The value of a reference and the index after it. */
  datatype CharRef = CharRef(charval: int, next: nat)

  /** At amp the decoder sees "&#": a character reference rather than an entity reference. */
  predicate IsCharRefStart(s: XmlStr, amp: nat, end: nat)
  {
    amp + 1 < Bound(s, end) && s[amp] == '&' && s[amp + 1] == '#'
  }

  /** "&#x" rather than "&#". */
  predicate IsHexRef(s: XmlStr, amp: nat, end: nat)
  {
    amp + 2 < Bound(s, end) && s[amp + 2] == 'x'
  }

  /**
   * The reference at amp: the digits up to a ';' give its value and the ';'
   * is skipped; anything else that ends the digits gives 0 and stays.
   */
  function CharRefAt(s: XmlStr, amp: nat, end: nat): (r: CharRef)
    requires IsCharRefStart(s, amp, end)
    ensures amp + 2 <= r.next <= Bound(s, end)
  {
    var hex := IsHexRef(s, amp, end);
    var start := if hex then amp + 3 else amp + 2;
    var j := DigitsEnd(s, start, end, hex);
    if j < Bound(s, end) && s[j] == ';' then CharRef(DigitsValue(s[start..j], hex), j + 1)
    else CharRef(0, j)
  }

  /**
   * A leading part of a digit string is worth no more than the whole of it:
   * the accumulator only grows as digits are added.
   */
  lemma {:induction false} PrefixValueAtMost(ds: seq<char>, k: nat, hex: bool)
    requires AllDigits(ds, hex) && k <= |ds|
    ensures DigitsValue(ds[..k], hex) <= DigitsValue(ds, hex)
    decreases |ds|
  {
    if k == |ds| {
      assert ds[..k] == ds;
    } else {
      var init := ds[..|ds| - 1];
      assert ds[..k] == init[..k];
      PrefixValueAtMost(init, k, hex);
    }
  }

  /**
   * The C decoder accumulates into a 32-bit `int charval`. When a reference
   * ends in ';' and its value is below 2^31, every value the accumulator takes
   * on the way (each `charval * radix + digit`) is below 2^31 as well, so the
   * unbounded decoding above is exactly what the C code computes.
   */
  lemma AccumulatorFitsInt(s: XmlStr, amp: nat, end: nat)
    requires IsCharRefStart(s, amp, end)
    requires CharRefAt(s, amp, end).charval < 0x8000_0000
    ensures var hex := IsHexRef(s, amp, end);
            var start := if hex then amp + 3 else amp + 2;
            var j := DigitsEnd(s, start, end, hex);
            j < Bound(s, end) && s[j] == ';' ==>
              forall k :: start <= k <= j ==> DigitsValue(s[start..k], hex) < 0x8000_0000
  {
    var hex := IsHexRef(s, amp, end);
    var start := if hex then amp + 3 else amp + 2;
    var j := DigitsEnd(s, start, end, hex);
    if j < Bound(s, end) && s[j] == ';' {
      var ds := s[start..j];
      forall k | start <= k <= j
        ensures DigitsValue(s[start..k], hex) < 0x8000_0000
      {
        assert ds[..k - start] == s[start..k] by {
          assert |ds[..k - start]| == k - start == |s[start..k]|;
          forall i | 0 <= i < k - start
            ensures ds[..k - start][i] == s[start..k][i]
          {
            assert ds[i] == s[start + i];
          }
        }
        PrefixValueAtMost(ds, k - start, hex);
      }
    }
  }

  /** The accumulation loop of one branch: `charval = charval * radix + digit` until ';'. */
  method AccumulateDigits(s: XmlStr, start: nat, end: nat, hex: bool) returns (charval: int, cur: nat)
    requires start <= Bound(s, end)
    ensures var j := DigitsEnd(s, start, end, hex);
            if j < Bound(s, end) && s[j] == ';' then charval == DigitsValue(s[start..j], hex) && cur == j + 1
            else charval == 0 && cur == j
  {
    charval := 0;
    cur := start;
    var tmp := Tmp(s, cur, end);
    while tmp != ';'
      invariant start <= cur <= DigitsEnd(s, start, end, hex)
      invariant tmp == Tmp(s, cur, end)
      invariant charval == DigitsValue(s[start..cur], hex)
      decreases Bound(s, end) - cur
    {
      if IsDigitIn(tmp, hex) {
        assert s[start..cur + 1][..cur - start] == s[start..cur];
        charval := charval * Radix(hex) + DigitValue(tmp, hex);
      } else {
        charval := 0;
        break;
      }
      cur := cur + 1;
      tmp := Tmp(s, cur, end);
    }
    if tmp == ';' {
      cur := cur + 1;
    }
  }

  /**
   * The character-reference branch of xmlStringLenGetNodeList (and, with
   * end == |s|, of xmlStringGetNodeList) once it has seen "&#".
   */
  method DecodeCharRef(s: XmlStr, amp: nat, end: nat) returns (charval: int, next: nat)
    requires IsCharRefStart(s, amp, end)
    ensures CharRef(charval, next) == CharRefAt(s, amp, end)
  {
    if amp + 2 < end && At(s, amp + 1) == '#' && At(s, amp + 2) == 'x' {
      charval, next := AccumulateDigits(s, amp + 3, end, true);
    } else {
      charval, next := AccumulateDigits(s, amp + 2, end, false);
    }
  }

  // ---------------------------------------------------------------------------
  // Encoding, and the round trip through the decoder
  // ---------------------------------------------------------------------------

  function DigitChar(d: nat, hex: bool): (c: char)
    requires d < Radix(hex)
    ensures IsDigitIn(c, hex) && DigitValue(c, hex) == d
  {
    if d < 10 then ('0' as int + d) as char else ('a' as int + d - 10) as char
  }

  /** The digits of n in the radix, most significant first, without leading zeros. */
  function ToDigits(n: nat, hex: bool): (ds: seq<char>)
    ensures |ds| > 0 && AllDigits(ds, hex)
    decreases n
  {
    if n < Radix(hex) then [DigitChar(n, hex)]
    else ToDigits(n / Radix(hex), hex) + [DigitChar(n % Radix(hex), hex)]
  }

  /** Reading the digits back gives the number. */
  lemma {:induction false} DigitsRoundTrip(n: nat, hex: bool)
    ensures DigitsValue(ToDigits(n, hex), hex) == n
    decreases n
  {
    var ds := ToDigits(n, hex);
    if n >= Radix(hex) {
      DigitsRoundTrip(n / Radix(hex), hex);
      assert ds[..|ds| - 1] == ToDigits(n / Radix(hex), hex);
    }
  }

  /** The reference for n as a serializer writes it: "&#x" hex ";" or "&#" decimal ";". */
  function Reference(n: nat, hex: bool): (s: XmlStr)
  {
    (if hex then "&#x" else "&#") + ToDigits(n, hex) + ";"
  }

  /** Decoding a written reference gives its number back and consumes all of it. */
  lemma DecodeReference(n: nat, hex: bool)
    ensures IsCharRefStart(Reference(n, hex), 0, |Reference(n, hex)|)
    ensures CharRefAt(Reference(n, hex), 0, |Reference(n, hex)|) == CharRef(n, |Reference(n, hex)|)
  {
    var s := Reference(n, hex);
    var ds := ToDigits(n, hex);
    var start := if hex then 3 else 2;
    assert |s| == start + |ds| + 1;
    assert s[0] == '&' && s[1] == '#';
    assert IsHexRef(s, 0, |s|) == hex by {
      if !hex {
        assert s[2] == ds[0];
      }
    }
    assert forall k :: start <= k < start + |ds| ==> s[k] == ds[k - start];
    assert s[start + |ds|] == ';';
    DigitsEndIs(s, start, |s|, hex, start + |ds|);
    assert s[start..start + |ds|] == ds;
    DigitsRoundTrip(n, hex);
  }
}
