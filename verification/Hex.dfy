/**
Hexadecimal form of a slice (bolt/slice.cpp). Characters are bytes, as in the source.
 */
module Hex {
  import opened Slices

  function ToHex(v: int): Byte
    requires 0 <= v < 16
  {
    if v <= 9 then 48 + v else 65 + v - 10
  }

  function Upper(c: Byte): Byte {
    if 97 <= c <= 102 then c - 32 else c
  }

  function FromHex(ch: Byte): int {
    var c := Upper(ch);
    if c < 48 || (c > 57 && (c < 65 || c > 70)) then -1
    else if c <= 57 then c - 48
    else c - 65 + 10
  }

  /** Two upper-case digits per byte, high digit first. */
  function Encoded(s: Slice): Slice {
    if s == [] then [] else [ToHex(s[0] / 16), ToHex(s[0] % 16)] + Encoded(s[1..])
  }

  predicate IsHex(s: Slice) {
    |s| % 2 == 0 && forall i :: 0 <= i < |s| ==> FromHex(s[i]) >= 0
  }

  function UpperCase(s: Slice): Slice {
    seq(|s|, i requires 0 <= i < |s| => Upper(s[i]))
  }

  function Decoded(s: Slice): Slice
    requires IsHex(s)
  {
    if s == [] then []
    else
      assert FromHex(s[0]) >= 0 && FromHex(s[1]) >= 0;
      [FromHex(s[0]) * 16 + FromHex(s[1])] + Decoded(s[2..])
  }

  lemma {:induction false} EncodedLength(s: Slice)
    ensures |Encoded(s)| == 2 * |s|
  {
    if s != [] {
      EncodedLength(s[1..]);
    }
  }

  lemma {:induction false} EncodedAt(s: Slice, i: nat)
    requires i < |s|
    ensures |Encoded(s)| == 2 * |s|
    ensures Encoded(s)[2 * i] == ToHex(s[i] / 16) && Encoded(s)[2 * i + 1] == ToHex(s[i] % 16)
  {
    EncodedLength(s);
    if i > 0 {
      EncodedAt(s[1..], i - 1);
    }
  }

  /** The value of a digit, by the three ranges of characters. */
  lemma {:induction false} DigitValue(c: Byte)
    ensures FromHex(c) ==
      if 48 <= c <= 57 then c - 48 else if 65 <= c <= 70 then c - 55 else if 97 <= c <= 102 then c - 87 else -1
  {
  }

  lemma {:induction false} DecodedLength(s: Slice)
    requires IsHex(s)
    ensures 2 * |Decoded(s)| == |s|
  {
    if s != [] {
      DecodedLength(s[2..]);
    }
  }

  lemma {:induction false} DecodedAt(s: Slice, i: nat)
    requires IsHex(s) && 2 * i < |s|
    ensures 2 * |Decoded(s)| == |s| && Decoded(s)[i] == FromHex(s[2 * i]) * 16 + FromHex(s[2 * i + 1])
  {
    DecodedLength(s);
    if i > 0 {
      DecodedAt(s[2..], i - 1);
      assert s[2..][2 * (i - 1)] == s[2 * i] && s[2..][2 * (i - 1) + 1] == s[2 * i + 1];
    }
  }

  /** Accepted is an even number of characters from the three ranges. */
  lemma {:induction false} AcceptsDigits(s: Slice)
    ensures IsHex(s) <==> |s| % 2 == 0 && forall i :: 0 <= i < |s| ==>
      48 <= s[i] <= 57 || 65 <= s[i] <= 70 || 97 <= s[i] <= 102
  {
    forall i | 0 <= i < |s|
      ensures FromHex(s[i]) >= 0 <==> 48 <= s[i] <= 57 || 65 <= s[i] <= 70 || 97 <= s[i] <= 102
    {
      DigitValue(s[i]);
    }
  }

  lemma {:induction false} DecodedDigits(s: Slice)
    requires IsHex(s)
    ensures 2 * |Decoded(s)| == |s|
    ensures forall i :: 0 <= i < |Decoded(s)| ==> Decoded(s)[i] == FromHex(s[2 * i]) * 16 + FromHex(s[2 * i + 1])
  {
    DecodedLength(s);
    forall i | 0 <= i < |Decoded(s)|
      ensures Decoded(s)[i] == FromHex(s[2 * i]) * 16 + FromHex(s[2 * i + 1])
    {
      DecodedAt(s, i);
    }
  }

  /** Texts that differ in the case of letters are accepted alike and decode alike. */
  lemma {:induction false} CaseIsIrrelevant(s: Slice, t: Slice)
    requires |s| == |t|
    requires forall i :: 0 <= i < |s| ==>
      s[i] == t[i] || (97 <= s[i] <= 102 && t[i] == s[i] - 32) || (65 <= s[i] <= 70 && t[i] == s[i] + 32)
    ensures IsHex(s) <==> IsHex(t)
    ensures IsHex(s) ==> Decoded(s) == Decoded(t)
  {
    forall i | 0 <= i < |s|
      ensures FromHex(s[i]) == FromHex(t[i])
    {
      DigitValue(s[i]);
      DigitValue(t[i]);
    }
    if IsHex(s) {
      DecodedLength(s);
      DecodedLength(t);
      forall i | 0 <= i < |Decoded(s)|
        ensures Decoded(s)[i] == Decoded(t)[i]
      {
        DecodedAt(s, i);
        DecodedAt(t, i);
      }
    }
  }

  lemma {:induction false} EncodedAppend(s: Slice, c: Byte)
    ensures Encoded(s + [c]) == Encoded(s) + [ToHex(c / 16), ToHex(c % 16)]
  {
    if s != [] {
      EncodedAppend(s[1..], c);
      assert (s + [c])[1..] == s[1..] + [c];
    } else {
      assert s + [c] == [c] && [c][1..] == [];
    }
  }

  lemma {:induction false} DecodedAppend(s: Slice, a: Byte, b: Byte)
    requires IsHex(s) && FromHex(a) >= 0 && FromHex(b) >= 0
    ensures IsHex(s + [a, b])
    ensures Decoded(s + [a, b]) == Decoded(s) + [FromHex(a) * 16 + FromHex(b)]
  {
    assert IsHex(s + [a, b]);
    if s != [] {
      DecodedAppend(s[2..], a, b);
      assert (s + [a, b])[2..] == s[2..] + [a, b];
    } else {
      assert s + [a, b] == [a, b] && [a, b][2..] == [];
    }
  }

  /** Two digits per byte, high digit first: 0 to 9 from character 48 on, the rest from character 65 on. */
  method ToString(s: Slice, hex: bool) returns (r: Slice)
    ensures r == if hex then Encoded(s) else s
    ensures !hex ==> r == s
    ensures hex ==> |r| == 2 * |s| && forall i :: 0 <= i < |s| ==>
      && r[2 * i] == (if s[i] / 16 <= 9 then 48 + s[i] / 16 else 55 + s[i] / 16)
      && r[2 * i + 1] == (if s[i] % 16 <= 9 then 48 + s[i] % 16 else 55 + s[i] % 16)
  {
    EncodedLength(s);
    forall i | 0 <= i < |s|
      ensures Encoded(s)[2 * i] == ToHex(s[i] / 16) && Encoded(s)[2 * i + 1] == ToHex(s[i] % 16)
    {
      EncodedAt(s, i);
    }
    if hex {
      r := [];
      for i := 0 to |s|
        invariant r == Encoded(s[..i])
      {
        var c := s[i];
        r := r + [ToHex(c / 16)];
        r := r + [ToHex(c % 16)];
        EncodedAppend(s[..i], c);
        assert s[..i + 1] == s[..i] + [c];
        assert r == Encoded(s[..i]) + [ToHex(c / 16), ToHex(c % 16)];
      }
      assert s[..|s|] == s;
    } else {
      r := s;
    }
  }

  /** Rejects exactly the strings that are not an even number of hexadecimal digits of either case. */
  method DecodeHex(s: Slice) returns (r: Slice, ok: bool)
    ensures ok <==> IsHex(s)
    ensures r == if IsHex(s) then Decoded(s) else []
    ensures ok <==> |s| % 2 == 0 && forall i :: 0 <= i < |s| ==>
      48 <= s[i] <= 57 || 65 <= s[i] <= 70 || 97 <= s[i] <= 102
    ensures !ok ==> r == []
    ensures ok ==> 2 * |r| == |s| && forall i :: 0 <= i < |r| ==> r[i] == FromHex(s[2 * i]) * 16 + FromHex(s[2 * i + 1])
  {
    AcceptsDigits(s);
    if IsHex(s) {
      DecodedDigits(s);
    }
    r := [];
    if |s| % 2 != 0 {
      return [], false;
    }
    var i := 0;
    while i < |s|
      invariant 0 <= i <= |s| && i % 2 == 0
      invariant IsHex(s[..i]) && r == Decoded(s[..i])
    {
      var h1 := FromHex(s[i]);
      if h1 < 0 {
        return [], false;
      }
      var h2 := FromHex(s[i + 1]);
      if h2 < 0 {
        return [], false;
      }
      r := r + [h1 * 16 + h2];
      DecodedAppend(s[..i], s[i], s[i + 1]);
      assert s[..i + 2] == s[..i] + [s[i], s[i + 1]];
      i := i + 2;
    }
    assert s[..|s|] == s;
    ok := true;
  }

  /** Decoding inverts encoding on every byte string. */
  lemma {:induction false} DecodeInvertsEncode(s: Slice)
    ensures IsHex(Encoded(s)) && Decoded(Encoded(s)) == s
  {
    if s != [] {
      DecodeInvertsEncode(s[1..]);
      var e := Encoded(s);
      assert e[2..] == Encoded(s[1..]);
      assert forall i :: 2 <= i < |e| ==> e[i] == e[2..][i - 2];
      assert s == [s[0]] + s[1..];
    }
  }

  /** Encoding what was decoded gives back the text with its letters in upper case. */
  lemma {:induction false} EncodeInvertsDecode(s: Slice)
    requires IsHex(s)
    ensures Encoded(Decoded(s)) == UpperCase(s)
  {
    if s != [] {
      assert FromHex(s[0]) >= 0 && FromHex(s[1]) >= 0;
      EncodeInvertsDecode(s[2..]);
      assert Decoded(s)[1..] == Decoded(s[2..]);
      DigitIsUpper(s[0], s[1]);
      UpperCaseStep(s);
    }
  }

  /** The two digits of a decoded pair are the pair in upper case. */
  lemma {:induction false} DigitIsUpper(a: Byte, b: Byte)
    requires FromHex(a) >= 0 && FromHex(b) >= 0
    ensures var c := FromHex(a) * 16 + FromHex(b); ToHex(c / 16) == Upper(a) && ToHex(c % 16) == Upper(b)
  {
  }

  lemma {:induction false} UpperCaseStep(s: Slice)
    requires |s| >= 2
    ensures UpperCase(s) == [Upper(s[0]), Upper(s[1])] + UpperCase(s[2..])
  {
  }
}
