/** The URL- and filename-safe Base64 alphabet of section 5 of RFC 4648, as
    Python's `base64.urlsafe_b64encode` applies it: the encoding of section 4
    with `-` and `_` in place of `+` and `/`, padded with `=` to a multiple of
    four characters. */
module Base64 {
  import opened Wrappers
  import opened Strings

  type byte = b: int | 0 <= b < 256
  type sextet = i: int | 0 <= i < 64

  const Pad: char := '='

  /** The 64 characters of the URL-safe alphabet. */
  predicate IsUrlSafeChar(c: char) {
    ('A' <= c <= 'Z') || ('a' <= c <= 'z') || ('0' <= c <= '9') || c == '-' || c == '_'
  }

  /** The alphabet's character for a 6-bit value (Table 2 of RFC 4648). */
  function CharOf(i: sextet): (c: char)
    ensures IsUrlSafeChar(c)
  {
    if i < 26 then (65 + i) as char
    else if i < 52 then (97 + i - 26) as char
    else if i < 62 then (48 + i - 52) as char
    else if i == 62 then '-'
    else '_'
  }

  /** The 6-bit value a character of the alphabet stands for. */
  function IndexOf(c: char): (i: sextet)
    requires IsUrlSafeChar(c)
    ensures CharOf(i) == c
  {
    if 'A' <= c <= 'Z' then c as int - 65
    else if 'a' <= c <= 'z' then c as int - 97 + 26
    else if '0' <= c <= '9' then c as int - 48 + 52
    else if c == '-' then 62
    else 63
  }

  lemma IndexOfCharOf(i: sextet)
    ensures IndexOf(CharOf(i)) == i
  {
  }

  /** Three bytes as four characters. */
  function EncodeQuantum(b0: byte, b1: byte, b2: byte): string {
    [CharOf(b0 / 4), CharOf((b0 % 4) * 16 + b1 / 16), CharOf((b1 % 16) * 4 + b2 / 64), CharOf(b2 % 64)]
  }

  /** `urlsafe_b64encode(b)`: full quanta first, then a final one or two bytes
      as two or three characters followed by `==` or `=`. */
  function EncodePadded(b: seq<byte>): string
    decreases |b|
  {
    if |b| <= 2 then EncodeFinal(b)
    else EncodeQuantum(b[0], b[1], b[2]) + EncodePadded(b[3..])
  }

  /** The last one or two bytes as two or three characters and `==` or `=`. */
  function EncodeFinal(b: seq<byte>): (s: string)
    requires |b| <= 2
    ensures |b| == 0 ==> s == ""
    ensures |b| > 0 ==> |s| == 4
  {
    if |b| == 0 then ""
    else if |b| == 1 then [CharOf(b[0] / 4), CharOf((b[0] % 4) * 16), Pad, Pad]
    else [CharOf(b[0] / 4), CharOf((b[0] % 4) * 16 + b[1] / 16), CharOf((b[1] % 16) * 4), Pad]
  }

  /** Number of alphabet characters the encoding of `n` bytes carries before
      its padding: the ceiling of 4n/3. */
  function DataLength(n: nat): nat {
    (4 * n + 2) / 3
  }

  /** Number of `=` a padded encoding ends with for a given data length. */
  function PadLength(k: nat): nat {
    (4 - k % 4) % 4
  }

  /** Restores the padding that `rstrip('=')` removed. */
  function Repad(s: string): (r: string)
    ensures |r| == |s| + PadLength(|s|) && |r| % 4 == 0
    ensures r[..|s|] == s
    ensures forall i :: |s| <= i < |r| ==> r[i] == Pad
  {
    s + seq(PadLength(|s|), _ => Pad)
  }

  /** The three bytes four alphabet characters stand for. */
  function DecodeQuantum(c0: char, c1: char, c2: char, c3: char): seq<byte>
    requires IsUrlSafeChar(c0) && IsUrlSafeChar(c1) && IsUrlSafeChar(c2) && IsUrlSafeChar(c3)
  {
    var s0, s1, s2, s3 := IndexOf(c0), IndexOf(c1), IndexOf(c2), IndexOf(c3);
    [s0 * 4 + s1 / 16, (s1 % 16) * 16 + s2 / 4, (s2 % 4) * 64 + s3]
  }

  /** Decoding of a padded encoding (section 4 of RFC 4648 over the URL-safe
      alphabet): none when the length is not a multiple of four, a character is
      outside the alphabet, or padding appears anywhere but at the end. */
  function DecodePadded(s: string): Option<seq<byte>>
    decreases |s|
  {
    if |s| == 0 then Some([])
    else if |s| < 4 then None
    else if |s| == 4 && s[3] == Pad then DecodeFinal(s)
    else if IsUrlSafeChar(s[0]) && IsUrlSafeChar(s[1]) && IsUrlSafeChar(s[2]) && IsUrlSafeChar(s[3]) then
      match DecodePadded(s[4..])
      case Some(rest) => Some(DecodeQuantum(s[0], s[1], s[2], s[3]) + rest)
      case None => None
    else None
  }

  /** A last quantum ending in `==` holds one byte, one ending in a single `=` two. */
  function DecodeFinal(s: string): Option<seq<byte>>
    requires |s| == 4
  {
    if s[2] == Pad && s[3] == Pad && IsUrlSafeChar(s[0]) && IsUrlSafeChar(s[1]) then
      Some([IndexOf(s[0]) * 4 + IndexOf(s[1]) / 16])
    else if s[3] == Pad && IsUrlSafeChar(s[0]) && IsUrlSafeChar(s[1]) && IsUrlSafeChar(s[2]) then
      Some([IndexOf(s[0]) * 4 + IndexOf(s[1]) / 16, (IndexOf(s[1]) % 16) * 16 + IndexOf(s[2]) / 4])
    else None
  }

  /** Splitting a 6-bit value built from a high part and a low part. */
  lemma SplitSextet(hi: int, lo: int, w: int)
    requires w == 4 || w == 16
    requires 0 <= lo < w && 0 <= hi && hi * w + lo < 64
    ensures (hi * w + lo) / w == hi && (hi * w + lo) % w == lo
  {
    if w == 4 {
      assert hi * 4 + lo == hi * w + lo;
    } else {
      assert hi * 16 + lo == hi * w + lo;
    }
  }

  /** Every quantum decodes to the bytes it encodes. */
  lemma QuantumRoundTrip(b0: byte, b1: byte, b2: byte)
    ensures var q := EncodeQuantum(b0, b1, b2);
            DecodeQuantum(q[0], q[1], q[2], q[3]) == [b0, b1, b2]
  {
    var s0, s1, s2, s3 := b0 / 4, (b0 % 4) * 16 + b1 / 16, (b1 % 16) * 4 + b2 / 64, b2 % 64;
    IndexOfCharOf(s0);
    IndexOfCharOf(s1);
    IndexOfCharOf(s2);
    IndexOfCharOf(s3);
    SplitSextet(b0 % 4, b1 / 16, 16);
    SplitSextet(b1 % 16, b2 / 64, 4);
    assert s0 * 4 + s1 / 16 == b0;
    assert (s1 % 16) * 16 + s2 / 4 == b1;
    assert (s2 % 4) * 64 + s3 == b2;
  }

  /** Three more bytes add one full quantum of data characters and leave the padding alone. */
  lemma DataLengthStep(n: nat)
    ensures DataLength(n + 3) == DataLength(n) + 4
    ensures PadLength(DataLength(n + 3)) == PadLength(DataLength(n))
  {
  }

  /** Past the first two bytes, the encoding is a full quantum followed by the encoding of the rest. */
  lemma EncodeStep(b: seq<byte>)
    requires |b| > 2
    ensures EncodePadded(b) == EncodeQuantum(b[0], b[1], b[2]) + EncodePadded(b[3..])
  {
  }

  /** Up to two bytes encode as one padded quantum, or as nothing. */
  lemma EncodeShortLength(b: seq<byte>)
    requires |b| <= 2
    ensures |EncodePadded(b)| == DataLength(|b|) + PadLength(DataLength(|b|))
  {
    if |b| == 1 {
      assert DataLength(1) == 2;
    } else if |b| == 2 {
      assert DataLength(2) == 3;
    }
  }

  /** The padded encoding is whole quanta: its data characters plus padding. */
  lemma {:induction false} EncodePaddedLength(b: seq<byte>)
    ensures |EncodePadded(b)| == DataLength(|b|) + PadLength(DataLength(|b|))
    decreases |b|
  {
    if |b| > 2 {
      EncodePaddedLength(b[3..]);
      DataLengthStep(|b| - 3);
      EncodeStep(b);
    } else {
      EncodeShortLength(b);
    }
  }

  /** The padded encoding is the ceiling of 4n/3 alphabet characters followed
      by the `=` that bring it to a multiple of four. */
  lemma {:induction false} EncodePaddedShape(b: seq<byte>)
    ensures DataLength(|b|) <= |EncodePadded(b)|
    ensures forall i :: 0 <= i < DataLength(|b|) ==> IsUrlSafeChar(EncodePadded(b)[i])
    ensures forall i :: DataLength(|b|) <= i < |EncodePadded(b)| ==> EncodePadded(b)[i] == Pad
    decreases |b|
  {
    EncodePaddedLength(b);
    if |b| > 2 {
      var e, q, rest := EncodePadded(b), EncodeQuantum(b[0], b[1], b[2]), EncodePadded(b[3..]);
      EncodePaddedShape(b[3..]);
      EncodeStep(b);
      var k := DataLength(|b|);
      DataLengthStep(|b| - 3);
      forall i | 0 <= i < k
        ensures IsUrlSafeChar(e[i])
      {
        if i >= 4 {
          assert e[i] == rest[i - 4];
        }
      }
      forall i | k <= i < |e|
        ensures e[i] == Pad
      {
        assert e[i] == rest[i - 4];
      }
    }
  }

  /** A final one or two bytes decode from their padded quantum. */
  lemma FinalRoundTrip(b: seq<byte>)
    requires 1 <= |b| <= 2
    ensures DecodeFinal(EncodeFinal(b)) == Some(b)
  {
    var s := EncodeFinal(b);
    if |b| == 1 {
      IndexOfCharOf(b[0] / 4);
      IndexOfCharOf((b[0] % 4) * 16);
      assert s == [CharOf(b[0] / 4), CharOf((b[0] % 4) * 16), Pad, Pad];
      assert DecodeFinal(s) == Some([IndexOf(s[0]) * 4 + IndexOf(s[1]) / 16]);
      assert b == [b[0]];
    } else {
      var s1 := (b[0] % 4) * 16 + b[1] / 16;
      IndexOfCharOf(b[0] / 4);
      IndexOfCharOf(s1);
      IndexOfCharOf((b[1] % 16) * 4);
      SplitSextet(b[0] % 4, b[1] / 16, 16);
      SplitSextet(b[1] % 16, 0, 4);
      assert s == [CharOf(b[0] / 4), CharOf(s1), CharOf((b[1] % 16) * 4), Pad];
      assert DecodeFinal(s) == Some([IndexOf(s[0]) * 4 + IndexOf(s[1]) / 16, (IndexOf(s[1]) % 16) * 16 + IndexOf(s[2]) / 4]);
      assert b == [b[0], b[1]];
    }
  }

  /** A leading full quantum decodes on its own, ahead of what follows it. */
  lemma DecodeLeadingQuantum(q: string, rest: string)
    requires |q| == 4
    requires IsUrlSafeChar(q[0]) && IsUrlSafeChar(q[1]) && IsUrlSafeChar(q[2]) && IsUrlSafeChar(q[3])
    ensures DecodePadded(rest).Some? ==>
              DecodePadded(q + rest) == Some(DecodeQuantum(q[0], q[1], q[2], q[3]) + DecodePadded(rest).value)
  {
    var s := q + rest;
    assert s[..4] == q && s[4..] == rest;
    assert s[3] == q[3] && s[3] != Pad;
  }

  /** Decoding undoes the padded encoding. */
  lemma {:induction false} DecodeEncodePadded(b: seq<byte>)
    ensures DecodePadded(EncodePadded(b)) == Some(b)
    decreases |b|
  {
    if |b| == 0 {
      assert EncodePadded(b) == "";
    } else if |b| <= 2 {
      DecodeFinalQuantum(b);
    } else {
      var rest := EncodePadded(b[3..]);
      calc {
        DecodePadded(EncodePadded(b));
        { EncodeStep(b); }
        DecodePadded(EncodeQuantum(b[0], b[1], b[2]) + rest);
        { DecodeEncodePadded(b[3..]); DecodeStep(b[0], b[1], b[2], rest, b[3..]); }
        Some([b[0], b[1], b[2]] + b[3..]);
        { assert [b[0], b[1], b[2]] + b[3..] == b; }
        Some(b);
      }
    }
  }

  /** One or two bytes decode back from their padded quantum. */
  lemma DecodeFinalQuantum(b: seq<byte>)
    requires 1 <= |b| <= 2
    ensures DecodePadded(EncodePadded(b)) == Some(b)
  {
    var s := EncodeFinal(b);
    assert EncodePadded(b) == s;
    FinalRoundTrip(b);
    assert |s| == 4 && s[3] == Pad;
    assert DecodePadded(s) == DecodeFinal(s);
  }

  /** A full quantum in front of a decodable rest decodes to its three bytes
      ahead of the rest's bytes. */
  lemma DecodeStep(b0: byte, b1: byte, b2: byte, rest: string, tail: seq<byte>)
    requires DecodePadded(rest) == Some(tail)
    ensures DecodePadded(EncodeQuantum(b0, b1, b2) + rest) == Some([b0, b1, b2] + tail)
  {
    var q := EncodeQuantum(b0, b1, b2);
    QuantumRoundTrip(b0, b1, b2);
    DecodeLeadingQuantum(q, rest);
  }

  /** `rstrip('=')` of a padded encoding leaves exactly its data characters. */
  lemma StripPadding(b: seq<byte>)
    ensures DataLength(|b|) <= |EncodePadded(b)|
    ensures RStrip(EncodePadded(b), Pad) == EncodePadded(b)[..DataLength(|b|)]
  {
    var s, k := EncodePadded(b), DataLength(|b|);
    EncodePaddedShape(b);
    var r := RStrip(s, Pad);
    if k > 0 {
      assert s[k - 1] != Pad;
      assert k <= |r|;
    }
    if |r| > 0 {
      assert s[|r| - 1] == r[|r| - 1] != Pad;
      assert |r| <= k;
    }
  }

  /** Restoring the padding of a stripped encoding gives the padded encoding back. */
  lemma RepadStripped(b: seq<byte>)
    ensures DataLength(|b|) <= |EncodePadded(b)|
    ensures Repad(EncodePadded(b)[..DataLength(|b|)]) == EncodePadded(b)
  {
    var s, k := EncodePadded(b), DataLength(|b|);
    EncodePaddedShape(b);
    EncodePaddedLength(b);
    var r := Repad(s[..k]);
    assert |r| == |s|;
    forall i | 0 <= i < |s|
      ensures r[i] == s[i]
    {
      if i < k {
        assert r[i] == r[..k][i];
      }
    }
  }

  /** The padding-free encoding `rstrip('=')` leaves: the ceiling of 4n/3
      alphabet characters, no `=`, and repadding then decoding gives the bytes
      back. */
  lemma StrippedEncoding(b: seq<byte>)
    ensures var id := RStrip(EncodePadded(b), Pad);
            && |id| == DataLength(|b|)
            && (forall i :: 0 <= i < |id| ==> IsUrlSafeChar(id[i]))
            && DecodePadded(Repad(id)) == Some(b)
  {
    StripPadding(b);
    EncodePaddedShape(b);
    RepadStripped(b);
    DecodeEncodePadded(b);
    var id := RStrip(EncodePadded(b), Pad);
    assert forall i :: 0 <= i < |id| ==> id[i] == EncodePadded(b)[i];
  }

  /** The test vectors of section 10 of RFC 4648 for "f", "fo", "foo" and
      "foobar", and one input whose encoding uses both characters that section 5 of RFC 4648
      substitutes for `+` and `/`. */
  lemma RfcVectors()
    ensures EncodePadded([102]) == "Zg=="
    ensures EncodePadded([102, 111]) == "Zm8="
    ensures EncodePadded([102, 111, 111]) == "Zm9v"
    ensures EncodePadded([102, 111, 111, 98, 97, 114]) == "Zm9vYmFy"
    ensures EncodePadded([251, 255]) == "-_8="
  {
  }
}
