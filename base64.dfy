/** Base64 as Go's `encoding/base64` decodes it: the standard alphabet of
    section 4 of RFC 4648, either unpadded (`RawStdEncoding`, section 3.2 of
    RFC 4648) or padded with '=' (`StdEncoding`). Like Go's decoder, this one
    skips '\r' and '\n' anywhere in the input, accepts non-zero bits left over
    in a final partial group, and on an error still hands back the bytes of
    the groups it finished before the error. An encoder is given as the
    partner of each decoder. */
module Base64 {
  import opened GoStrings

  const Pad: byte := 61  // '='

  /** A six-bit value: one character's worth of data. */
  type Digit = d: int | 0 <= d < 64

  /** The standard alphabet: A-Z, a-z, 0-9, '+', '/'. */
  predicate IsAlphabet(c: byte)
  {
    (65 <= c <= 90) || (97 <= c <= 122) || (48 <= c <= 57) || c == Plus || c == Slash
  }

  predicate IsNewline(c: byte)
  {
    c == LF || c == CR
  }

  /** The value of an alphabet character. */
  function DigitOf(c: byte): Digit
    requires IsAlphabet(c)
  {
    if 65 <= c <= 90 then c - 65
    else if 97 <= c <= 122 then c - 71
    else if 48 <= c <= 57 then c + 4
    else if c == Plus then 62
    else 63
  }

  /** The alphabet character of a value; `DigitOf` inverts it. */
  function CharOf(d: Digit): (c: byte)
    ensures IsAlphabet(c) && DigitOf(c) == d
  {
    if d < 26 then d + 65
    else if d < 52 then d + 71
    else if d < 62 then d - 4
    else if d == 62 then Plus
    else Slash
  }

  /** The three bytes held in a 24-bit group value, most significant first. */
  function ThreeBytes(v: int): (r: Bytes)
    requires 0 <= v < 16777216
    ensures |r| == 3
  {
    [v / 65536, (v / 256) % 256, v % 256]
  }

  /** Joins two to four digits into one, two or three bytes, dropping
      leftover low bits as Go's lenient decoder does. */
  function Assemble(ds: seq<Digit>): (r: Bytes)
    requires 2 <= |ds| <= 4
    ensures |r| == |ds| - 1
  {
    var d0: int := ds[0];
    var d1: int := ds[1];
    var d2: int := if |ds| > 2 then ds[2] else 0;
    var d3: int := if |ds| > 3 then ds[3] else 0;
    ThreeBytes(((d0 * 64 + d1) * 64 + d2) * 64 + d3)[..|ds| - 1]
  }

  /** The outcome of decoding one group: bytes of input consumed, bytes
      produced, and whether the group was well formed. */
  datatype Group = Group(used: nat, bytes: Bytes, ok: bool)

  function Consumed(g: Group, n: nat): Group
  {
    g.(used := g.used + n)
  }

  /** Number of leading '\r' / '\n' bytes. */
  function Newlines(s: Bytes): (n: nat)
    ensures n <= |s|
    ensures forall i :: 0 <= i < n ==> IsNewline(s[i])
    ensures n < |s| ==> !IsNewline(s[n])
  {
    if s != [] && IsNewline(s[0]) then 1 + Newlines(s[1..]) else 0
  }

  /** One group of up to four characters, `ds` being the digits already read
      (Go's `decodeQuantum`). */
  function DecodeGroup(src: Bytes, ds: seq<Digit>, padded: bool): (g: Group)
    requires |ds| < 4
    ensures g.used <= |src|
    ensures src != [] ==> g.used > 0
    decreases |src|
  {
    if src == [] then
      if ds == [] then Group(0, [], true)
      else if |ds| == 1 || padded then Group(0, [], false)
      else Group(0, Assemble(ds), true)
    else
      var c := src[0];
      if IsAlphabet(c) then
        var ds' := ds + [DigitOf(c)];
        if |ds'| == 4 then Group(1, Assemble(ds'), true)
        else Consumed(DecodeGroup(src[1..], ds', padded), 1)
      else if IsNewline(c) then Consumed(DecodeGroup(src[1..], ds, padded), 1)
      else if !padded || c != Pad || |ds| < 2 then Group(1, [], false)
      else Padding(src, ds)
  }

  /** A '=' after two or three digits ends the input: "==" after two, "="
      after three, with only newlines allowed around and after it. */
  function Padding(src: Bytes, ds: seq<Digit>): (g: Group)
    requires 2 <= |ds| < 4 && src != [] && src[0] == Pad
    ensures 0 < g.used <= |src|
  {
    var k := 1 + Newlines(src[1..]);
    if |ds| == 2 && k == |src| then Group(k, [], false)
    else if |ds| == 2 && src[k] != Pad then Group(k, [], false)
    else
      var m := if |ds| == 2 then k + 1 else 1;
      var end := m + Newlines(src[m..]);
      Group(end, Assemble(ds), end == |src|)
  }

  /** A group yields at most three bytes for every four characters it
      consumed, counting the digits read before it. */
  lemma {:induction false} GroupBound(src: Bytes, ds: seq<Digit>, padded: bool)
    requires |ds| < 4
    ensures 4 * |DecodeGroup(src, ds, padded).bytes| <= 3 * (DecodeGroup(src, ds, padded).used + |ds|)
    decreases |src|
  {
    if src != [] {
      var c := src[0];
      if IsAlphabet(c) {
        var ds' := ds + [DigitOf(c)];
        if |ds'| < 4 {
          GroupBound(src[1..], ds', padded);
        }
      } else if IsNewline(c) {
        GroupBound(src[1..], ds, padded);
      }
    }
  }

  /** Decoded bytes, and whether the whole input was well formed; on an
      error `bytes` holds what Go's `DecodeString` returns beside it. */
  datatype Decoded = Decoded(bytes: Bytes, ok: bool)

  /** Go's `Encoding.DecodeString`, group by group. */
  function Decode(src: Bytes, padded: bool): (r: Decoded)
    ensures 4 * |r.bytes| <= 3 * |src|
    decreases |src|
  {
    if src == [] then Decoded([], true)
    else
      var g := DecodeGroup(src, [], padded);
      GroupBound(src, [], padded);
      if !g.ok then Decoded(g.bytes, false)
      else
        var rest := Decode(src[g.used..], padded);
        Decoded(g.bytes + rest.bytes, rest.ok)
  }

  /** `base64.RawStdEncoding.DecodeString` */
  function RawStdDecode(src: Bytes): Decoded
  {
    Decode(src, false)
  }

  /** `base64.StdEncoding.DecodeString` */
  function StdDecode(src: Bytes): Decoded
  {
    Decode(src, true)
  }

  // ----- Encoding, the partner of decoding -----

  /** The four digits of three bytes, most significant first. */
  function Digits(b0: byte, b1: byte, b2: byte): (ds: seq<Digit>)
    ensures |ds| == 4
  {
    var n := (b0 * 256 + b1) * 256 + b2;
    var q1 := n / 64;
    var q2 := q1 / 64;
    [q2 / 64, q2 % 64, q1 % 64, n % 64]
  }

  function Chars(ds: seq<Digit>): (r: Bytes)
    ensures |r| == |ds|
    ensures forall i :: 0 <= i < |r| ==> r[i] == CharOf(ds[i])
  {
    if ds == [] then [] else [CharOf(ds[0])] + Chars(ds[1..])
  }

  /** Unpadded encoding: a final group of one or two bytes takes two or three characters. */
  function EncodeRaw(b: Bytes): (r: Bytes)
    ensures forall i :: 0 <= i < |r| ==> IsAlphabet(r[i])
  {
    if |b| == 0 then []
    else if |b| == 1 then Chars(Digits(b[0], 0, 0)[..2])
    else if |b| == 2 then Chars(Digits(b[0], b[1], 0)[..3])
    else Chars(Digits(b[0], b[1], b[2])) + EncodeRaw(b[3..])
  }

  /** Padded encoding: every group takes four characters, '=' filling the last. */
  function EncodePadded(b: Bytes): (r: Bytes)
    ensures forall i :: 0 <= i < |r| ==> IsAlphabet(r[i]) || r[i] == Pad
  {
    if |b| == 0 then []
    else if |b| == 1 then Chars(Digits(b[0], 0, 0)[..2]) + [Pad, Pad]
    else if |b| == 2 then Chars(Digits(b[0], b[1], 0)[..3]) + [Pad]
    else Chars(Digits(b[0], b[1], b[2])) + EncodePadded(b[3..])
  }

  lemma Div256(n: int, q: int, r: int)
    requires 0 <= r < 256 && n == q * 256 + r
    ensures n / 256 == q && n % 256 == r
  {
  }

  lemma Div65536(n: int, q: int, r: int)
    requires 0 <= r < 65536 && n == q * 65536 + r
    ensures n / 65536 == q
  {
  }

  lemma Div64(n: int, q: int)
    requires n == q * 64
    ensures n / 64 == q && n % 64 == 0
  {
  }

  /** A 24-bit value built from three bytes splits back into them. */
  lemma BytesOfValue(b0: byte, b1: byte, b2: byte)
    ensures ThreeBytes((b0 * 256 + b1) * 256 + b2) == [b0, b1, b2]
  {
    var n := (b0 * 256 + b1) * 256 + b2;
    Div65536(n, b0, b1 * 256 + b2);
    Div256(n, b0 * 256 + b1, b2);
    Div256(b0 * 256 + b1, b0, b1);
  }

  /** The digits of a group assemble back into its bytes. */
  lemma AssembleDigits(b0: byte, b1: byte, b2: byte)
    ensures Assemble(Digits(b0, b1, b2)) == [b0, b1, b2]
  {
    var n := (b0 * 256 + b1) * 256 + b2;
    var q1 := n / 64;
    var q2 := q1 / 64;
    assert q2 == (q2 / 64) * 64 + q2 % 64;
    assert q1 == q2 * 64 + q1 % 64;
    assert n == q1 * 64 + n % 64;
    BytesOfValue(b0, b1, b2);
  }

  /** Two bytes: the three characters of a final group assemble back. */
  lemma AssembleDigits2(b0: byte, b1: byte)
    ensures Assemble(Digits(b0, b1, 0)[..3]) == [b0, b1]
  {
    var n := (b0 * 256 + b1) * 256;
    Div64(n, (b0 * 256 + b1) * 4);
    var q1 := n / 64;
    var q2 := q1 / 64;
    assert q2 == (q2 / 64) * 64 + q2 % 64;
    assert q1 == q2 * 64 + q1 % 64;
    BytesOfValue(b0, b1, 0);
  }

  /** One byte: the two characters of a final group assemble back. */
  lemma AssembleDigits1(b0: byte)
    ensures Assemble(Digits(b0, 0, 0)[..2]) == [b0]
  {
    var n := b0 * 65536;
    Div64(n, b0 * 1024);
    Div64(b0 * 1024, b0 * 16);
    var q2 := b0 * 16;
    assert q2 == (q2 / 64) * 64 + q2 % 64;
    BytesOfValue(b0, 0, 0);
  }

  /** An alphabet character adds its digit to the group. */
  lemma StepDigit(src: Bytes, pre: seq<Digit>, padded: bool)
    requires src != [] && IsAlphabet(src[0]) && |pre| < 4
    ensures |pre| < 3 ==>
      DecodeGroup(src, pre, padded) == Consumed(DecodeGroup(src[1..], pre + [DigitOf(src[0])], padded), 1)
    ensures |pre| == 3 ==>
      DecodeGroup(src, pre, padded) == Group(1, Assemble(pre + [DigitOf(src[0])]), true)
  {
  }

  /** The last of four characters completes a group. */
  lemma ReadLastDigit(ds: seq<Digit>, pre: seq<Digit>, rest: Bytes, padded: bool)
    requires |pre| == 3 && |ds| == 1
    ensures DecodeGroup(Chars(ds) + rest, pre, padded) == Group(1, Assemble(pre + ds), true)
  {
    var src := Chars(ds) + rest;
    assert src[0] == CharOf(ds[0]);
    StepDigit(src, pre, padded);
    assert pre + [ds[0]] == pre + ds;
  }

  /** An earlier character passes its digit on to the rest of the group. */
  lemma ReadNextDigit(ds: seq<Digit>, pre: seq<Digit>, rest: Bytes, padded: bool)
    requires |pre| + |ds| == 4 && |ds| > 1
    requires DecodeGroup(Chars(ds[1..]) + rest, pre + [ds[0]], padded)
      == Group(|ds| - 1, Assemble(pre + ds), true)
    ensures DecodeGroup(Chars(ds) + rest, pre, padded) == Group(|ds|, Assemble(pre + ds), true)
  {
    var src := Chars(ds) + rest;
    assert src[0] == CharOf(ds[0]);
    StepDigit(src, pre, padded);
    assert src[1..] == Chars(ds[1..]) + rest;
  }

  /** Reading the characters of `ds` after the digits `pre` completes a group. */
  lemma {:induction false} ReadDigits(ds: seq<Digit>, pre: seq<Digit>, rest: Bytes, padded: bool)
    requires |pre| + |ds| == 4 && |ds| >= 1
    ensures DecodeGroup(Chars(ds) + rest, pre, padded) == Group(|ds|, Assemble(pre + ds), true)
    decreases |ds|
  {
    if |ds| == 1 {
      ReadLastDigit(ds, pre, rest, padded);
    } else {
      ReadDigits(ds[1..], pre + [ds[0]], rest, padded);
      assert pre + [ds[0]] + ds[1..] == pre + ds;
      ReadNextDigit(ds, pre, rest, padded);
    }
  }

  /** A final group of two or three characters at the end of the input: the
      unpadded decoder takes it, the padded one rejects it. */
  lemma {:induction false} ReadTail(ds: seq<Digit>, pre: seq<Digit>, padded: bool)
    requires |pre| + |ds| < 4 && |pre| + |ds| >= 2
    ensures DecodeGroup(Chars(ds), pre, padded)
      == if padded then Group(|ds|, [], false) else Group(|ds|, Assemble(pre + ds), true)
    decreases |ds|
  {
    if ds == [] {
      assert pre + ds == pre;
    } else {
      var src := Chars(ds);
      assert src[0] == CharOf(ds[0]);
      StepDigit(src, pre, padded);
      assert src[1..] == Chars(ds[1..]);
      ReadTail(ds[1..], pre + [ds[0]], padded);
      assert pre + [ds[0]] + ds[1..] == pre + ds;
    }
  }

  /** `n` padding characters. */
  function Pads(n: nat): (r: Bytes)
    ensures |r| == n && forall i :: 0 <= i < n ==> r[i] == Pad
  {
    if n == 0 then [] else [Pad] + Pads(n - 1)
  }

  /** The padding that closes a final group of two or three digits. */
  lemma ReadPads(ds: seq<Digit>)
    requires 2 <= |ds| < 4
    ensures DecodeGroup(Pads(4 - |ds|), ds, true) == Group(4 - |ds|, Assemble(ds), true)
  {
    var src := Pads(4 - |ds|);
    if |ds| == 2 {
      assert src == [Pad, Pad];
      assert Newlines(src[1..]) == 0 by {
        assert src[1..] == [Pad];
      }
      assert Newlines(src[2..]) == 0 by {
        assert src[2..] == [];
      }
      assert Padding(src, ds) == Group(2, Assemble(ds), true);
      assert DecodeGroup(src, ds, true) == Padding(src, ds) by {
        assert src[0] == Pad && !IsAlphabet(Pad) && !IsNewline(Pad);
      }
    } else {
      assert src == [Pad];
      assert Newlines(src[1..]) == 0 by {
        assert src[1..] == [];
      }
      assert Padding(src, ds) == Group(1, Assemble(ds), true);
      assert DecodeGroup(src, ds, true) == Padding(src, ds) by {
        assert src[0] == Pad && !IsAlphabet(Pad) && !IsNewline(Pad);
      }
    }
  }

  /** Reading one more digit of a group that is not yet complete. */
  lemma CharStep(ds: seq<Digit>, pre: seq<Digit>, rest: Bytes, padded: bool)
    requires ds != [] && |pre| < 3
    ensures DecodeGroup(Chars(ds) + rest, pre, padded)
      == Consumed(DecodeGroup(Chars(ds[1..]) + rest, pre + [ds[0]], padded), 1)
  {
    var src := Chars(ds) + rest;
    assert src[0] == CharOf(ds[0]);
    StepDigit(src, pre, padded);
    assert src[1..] == Chars(ds[1..]) + rest;
  }

  /** A final group of two or three characters and its padding. */
  lemma {:induction false} ReadPaddedTail(ds: seq<Digit>, pre: seq<Digit>)
    requires |pre| + |ds| < 4 && |pre| + |ds| >= 2
    ensures DecodeGroup(Chars(ds) + Pads(4 - |pre| - |ds|), pre, true)
      == Group(4 - |pre|, Assemble(pre + ds), true)
    decreases |ds|
  {
    var pads := Pads(4 - |pre| - |ds|);
    if ds == [] {
      ReadPads(pre);
      assert pre + ds == pre;
      assert Chars(ds) + pads == pads;
    } else {
      CharStep(ds, pre, pads, true);
      ReadPaddedTail(ds[1..], pre + [ds[0]]);
      assert pre + [ds[0]] + ds[1..] == pre + ds;
    }  }

  /** Decoding proceeds group by group. */
  lemma DecodeStep(src: Bytes, padded: bool, k: nat, x: Bytes)
    requires src != [] && DecodeGroup(src, [], padded) == Group(k, x, true)
    ensures Decode(src, padded)
      == Decoded(x + Decode(src[k..], padded).bytes, Decode(src[k..], padded).ok)
  {
  }

  /** A whole group of four digits decodes to the bytes they assemble, and
      decoding goes on after it. */
  lemma WholeGroup(ds: seq<Digit>, x: Bytes, rest: Bytes, padded: bool)
    requires |ds| == 4 && Assemble(ds) == x
    ensures Decode(Chars(ds) + rest, padded)
      == Decoded(x + Decode(rest, padded).bytes, Decode(rest, padded).ok)
  {
    var e := Chars(ds) + rest;
    assert DecodeGroup(e, [], padded) == Group(4, x, true) by {
      ReadDigits(ds, [], rest, padded);
      assert [] + ds == ds;
    }
    DecodeStep(e, padded, 4, x);
    assert e[4..] == rest;
  }

  /** A final group of two or three digits without padding decodes, in the
      unpadded variant, to the bytes those digits assemble. */
  lemma RawTail(ds: seq<Digit>, x: Bytes)
    requires 2 <= |ds| < 4 && Assemble(ds) == x
    ensures RawStdDecode(Chars(ds)) == Decoded(x, true)
  {
    var e := Chars(ds);
    assert DecodeGroup(e, [], false) == Group(|ds|, x, true) by {
      ReadTail(ds, [], false);
      assert [] + ds == ds;
    }
    DecodeStep(e, false, |ds|, x);
    assert e[|ds|..] == [];
    assert x + [] == x;
  }

  /** Section 3.2 of RFC 4648 round trip: unpadded decoding inverts unpadded encoding. */
  lemma {:induction false} RawRoundTrip(b: Bytes)
    ensures RawStdDecode(EncodeRaw(b)) == Decoded(b, true)
    decreases |b|
  {
    if |b| == 1 {
      AssembleDigits1(b[0]);
      RawTail(Digits(b[0], 0, 0)[..2], b);
    } else if |b| == 2 {
      AssembleDigits2(b[0], b[1]);
      assert b == [b[0], b[1]];
      RawTail(Digits(b[0], b[1], 0)[..3], b);
    } else if |b| >= 3 {
      AssembleDigits(b[0], b[1], b[2]);
      assert [b[0], b[1], b[2]] == b[..3];
      WholeGroup(Digits(b[0], b[1], b[2]), b[..3], EncodeRaw(b[3..]), false);
      RawRoundTrip(b[3..]);
      assert b == b[..3] + b[3..];
    }
  }

  /** A final group of two or three digits with its padding decodes to the
      bytes those digits assemble. */
  lemma PaddedTail(ds: seq<Digit>, x: Bytes)
    requires 2 <= |ds| < 4 && Assemble(ds) == x
    ensures StdDecode(Chars(ds) + Pads(4 - |ds|)) == Decoded(x, true)
  {
    var e := Chars(ds) + Pads(4 - |ds|);
    assert DecodeGroup(e, [], true) == Group(4, x, true) by {
      ReadPaddedTail(ds, []);
      assert [] + ds == ds;
    }
    DecodeStep(e, true, 4, x);
    assert e[4..] == [];
    assert x + [] == x;
  }

  /** Section 4 of RFC 4648 round trip: padded decoding inverts padded encoding. */
  lemma {:induction false} PaddedRoundTrip(b: Bytes)
    ensures StdDecode(EncodePadded(b)) == Decoded(b, true)
    decreases |b|
  {
    if |b| == 1 {
      AssembleDigits1(b[0]);
      assert Pads(2) == [Pad, Pad];
      PaddedTail(Digits(b[0], 0, 0)[..2], b);
    } else if |b| == 2 {
      AssembleDigits2(b[0], b[1]);
      assert Pads(1) == [Pad];
      assert b == [b[0], b[1]];
      PaddedTail(Digits(b[0], b[1], 0)[..3], b);
    } else if |b| >= 3 {
      AssembleDigits(b[0], b[1], b[2]);
      assert [b[0], b[1], b[2]] == b[..3];
      WholeGroup(Digits(b[0], b[1], b[2]), b[..3], EncodePadded(b[3..]), true);
      PaddedRoundTrip(b[3..]);
      assert b == b[..3] + b[3..];
    }
  }

  /** Either decoder reads the first whole group of unpadded text and goes on
      with the encoding of the rest. */
  lemma FirstGroup(b: Bytes, padded: bool)
    requires |b| >= 3
    ensures Decode(EncodeRaw(b), padded) == Decoded(b[..3] + Decode(EncodeRaw(b[3..]), padded).bytes,
                                                    Decode(EncodeRaw(b[3..]), padded).ok)
  {
    AssembleDigits(b[0], b[1], b[2]);
    assert [b[0], b[1], b[2]] == b[..3];
    WholeGroup(Digits(b[0], b[1], b[2]), b[..3], EncodeRaw(b[3..]), padded);
  }

  /** A final partial group without its padding is rejected, bytes and all. */
  lemma PaddedDecodeOfShort(b: Bytes)
    requires 1 <= |b| <= 2
    ensures StdDecode(EncodeRaw(b)) == Decoded([], false)
  {
    var e := EncodeRaw(b);
    if |b| == 1 {
      ReadTail(Digits(b[0], 0, 0)[..2], [], true);
    } else {
      ReadTail(Digits(b[0], b[1], 0)[..3], [], true);
    }
    assert DecodeGroup(e, [], true) == Group(|e|, [], false);
  }

  /** The bytes of the whole three-byte groups of `b`. */
  function WholeGroups(b: Bytes): (r: Bytes)
    ensures |r| <= |b| && r == b[..|r|]
    ensures |b| - |r| < 3 && |r| % 3 == 0
  {
    if |b| < 3 then [] else b[..3] + WholeGroups(b[3..])
  }

  /** The padded decoder given unpadded text keeps the whole groups and
      drops the bytes of a final partial group, reporting an error unless
      there is none. */
  lemma {:induction false} PaddedDecodeOfRaw(b: Bytes)
    ensures StdDecode(EncodeRaw(b)) == Decoded(WholeGroups(b), |WholeGroups(b)| == |b|)
    decreases |b|
  {
    if 1 <= |b| <= 2 {
      PaddedDecodeOfShort(b);
    } else if |b| >= 3 {
      FirstGroup(b, true);
      PaddedDecodeOfRaw(b[3..]);
    }
  }

  // ----- Which inputs the unpadded decoder accepts -----

  /** Every byte is an alphabet character or a newline the decoder skips. */
  predicate Clean(s: Bytes)
  {
    forall i :: 0 <= i < |s| ==> IsAlphabet(s[i]) || IsNewline(s[i])
  }

  /** The number of alphabet characters. */
  function AlphaCount(s: Bytes): nat
  {
    if s == [] then 0 else (if IsAlphabet(s[0]) then 1 else 0) + AlphaCount(s[1..])
  }

  /** On clean input, a group takes four digits when there are enough, and
      otherwise runs to the end, failing only on a single leftover digit. */
  lemma {:induction false} GroupOnClean(src: Bytes, ds: seq<Digit>)
    requires Clean(src) && |ds| < 4
    ensures var g := DecodeGroup(src, ds, false);
      if |ds| + AlphaCount(src) >= 4 then
        g.ok && 0 < g.used && Clean(src[g.used..])
        && AlphaCount(src[g.used..]) == AlphaCount(src) - (4 - |ds|)
      else
        g.used == |src| && (g.ok <==> |ds| + AlphaCount(src) != 1)
    decreases |src|
  {
    if src != [] {
      var c := src[0];
      var g := DecodeGroup(src, ds, false);
      assert Clean(src[1..]) by {
        forall i | 0 <= i < |src[1..]| ensures IsAlphabet(src[1..][i]) || IsNewline(src[1..][i]) {
          assert src[1..][i] == src[i + 1];
        }
      }
      if IsAlphabet(c) {
        var ds' := ds + [DigitOf(c)];
        if |ds'| < 4 {
          GroupOnClean(src[1..], ds');
          var g' := DecodeGroup(src[1..], ds', false);
          assert g == Consumed(g', 1);
          assert src[g.used..] == src[1..][g'.used..];
        }
      } else {
        GroupOnClean(src[1..], ds);
        var g' := DecodeGroup(src[1..], ds, false);
        assert g == Consumed(g', 1);
        assert src[g.used..] == src[1..][g'.used..];
      }
    }
  }

  /** On input holding a foreign byte, a group either fails or leaves a
      foreign byte in what follows it. */
  lemma {:induction false} GroupOnForeign(src: Bytes, ds: seq<Digit>)
    requires !Clean(src) && |ds| < 4
    ensures var g := DecodeGroup(src, ds, false);
      !g.ok || (0 < g.used && !Clean(src[g.used..]))
    decreases |src|
  {
    var c := src[0];
    var g := DecodeGroup(src, ds, false);
    if IsAlphabet(c) || IsNewline(c) {
      assert !Clean(src[1..]) by {
        var i :| 0 <= i < |src| && !(IsAlphabet(src[i]) || IsNewline(src[i]));
        assert i > 0 && src[1..][i - 1] == src[i];
      }
      var ds' := if IsAlphabet(c) then ds + [DigitOf(c)] else ds;
      if |ds'| < 4 {
        GroupOnForeign(src[1..], ds');
        var g' := DecodeGroup(src[1..], ds', false);
        assert g == Consumed(g', 1);
        assert src[g.used..] == src[1..][g'.used..];
      }
    }
  }

  /** Go's raw decoder rejects any byte outside the alphabet other than a newline. */
  lemma {:induction false} RawRejectsForeign(src: Bytes)
    requires !Clean(src)
    ensures !RawStdDecode(src).ok
    decreases |src|
  {
    GroupOnForeign(src, []);
    var g := DecodeGroup(src, [], false);
    if g.ok {
      RawRejectsForeign(src[g.used..]);
    }
  }

  /** On clean input, decoding fails exactly when one digit is left over. */
  lemma {:induction false} RawOnClean(src: Bytes)
    requires Clean(src)
    ensures RawStdDecode(src).ok <==> AlphaCount(src) % 4 != 1
    decreases |src|
  {
    if src != [] {
      GroupOnClean(src, []);
      var g := DecodeGroup(src, [], false);
      if AlphaCount(src) >= 4 {
        RawOnClean(src[g.used..]);
        assert (AlphaCount(src) - 4) % 4 == AlphaCount(src) % 4;
      } else {
        assert AlphaCount(src) % 4 == AlphaCount(src);
        if g.ok {
          DecodeStep(src, false, g.used, g.bytes);
          assert src[g.used..] == [];
        }
      }
    }
  }

  /** Exactly the inputs Go's `RawStdEncoding` accepts: alphabet characters
      and newlines only, and not one character more than a multiple of four. */
  lemma RawAccepts(src: Bytes)
    ensures RawStdDecode(src).ok <==> Clean(src) && AlphaCount(src) % 4 != 1
  {
    if Clean(src) {
      RawOnClean(src);
    } else {
      RawRejectsForeign(src);
    }
  }
}
