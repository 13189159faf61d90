/** `utils.B64E` / `utils.B64D`: Go's `base64.URLEncoding`, the URL- and filename-safe
    alphabet of section 5 of RFC 4648, with `=` padding (sections 3.2 and 4 of RFC 4648).
    Decoding is Go's default, non-strict one: carriage returns and line feeds are skipped,
    and the unused low bits of a padded final quantum are ignored. */
module Base64 {
  import opened Basics

  type sextet = x: int | 0 <= x < 64

  const Pad: char := '='

  /** The 64 characters of the URL- and filename-safe alphabet. */
  predicate IsAlphabetChar(c: char) {
    ('A' <= c <= 'Z') || ('a' <= c <= 'z') || ('0' <= c <= '9') || c == '-' || c == '_'
  }

  predicate AllAlphabet(s: string) {
    forall i | 0 <= i < |s| :: IsAlphabetChar(s[i])
  }

  /** Value `i` of the alphabet table (RFC 4648, table 2). */
  function CharOf(i: sextet): (c: char)
    ensures IsAlphabetChar(c)
  {
    if i < 26 then ('A' as int + i) as char
    else if i < 52 then ('a' as int + (i - 26)) as char
    else if i < 62 then ('0' as int + (i - 52)) as char
    else if i == 62 then '-'
    else '_'
  }

  /** The inverse table lookup of the decoder. */
  function IndexOf(c: char): (i: sextet)
    requires IsAlphabetChar(c)
    ensures CharOf(i) == c
  {
    if 'A' <= c <= 'Z' then c as int - 'A' as int
    else if 'a' <= c <= 'z' then c as int - 'a' as int + 26
    else if '0' <= c <= '9' then c as int - '0' as int + 52
    else if c == '-' then 62
    else 63
  }

  /** Different values map to different characters. */
  lemma IndexOfCharOf(i: sextet)
    ensures IndexOf(CharOf(i)) == i
  {
  }

  // ---------------------------------------------------------------- encoding

  /** Three bytes become four characters, six bits each, most significant first. */
  function EncodeTriple(b0: byte, b1: byte, b2: byte): string {
    [CharOf(b0 / 4), CharOf((b0 % 4) * 16 + b1 / 16), CharOf((b1 % 16) * 4 + b2 / 64), CharOf(b2 % 64)]
  }

  /** A final single byte: two characters, the second with four zero bits, then "==". */
  function EncodeOne(b0: byte): string {
    [CharOf(b0 / 4), CharOf((b0 % 4) * 16), Pad, Pad]
  }

  /** A final pair of bytes: three characters, the last with two zero bits, then "=". */
  function EncodeTwo(b0: byte, b1: byte): string {
    [CharOf(b0 / 4), CharOf((b0 % 4) * 16 + b1 / 16), CharOf((b1 % 16) * 4), Pad]
  }

  /** Number of `=` characters that close the encoding of `n` bytes. */
  function PadCount(n: nat): (p: nat)
    ensures p <= 2
    ensures p == 0 <==> n % 3 == 0
  {
    (3 - n % 3) % 3
  }

  /** `utils.B64E`: `base64.URLEncoding.EncodeToString`. The output has `4*ceil(n/3)`
      characters; `B64EShape` says which of them are padding. */
  function B64E(data: seq<byte>): (r: string)
    decreases |data|
    ensures |r| == 4 * ((|data| + 2) / 3)
  {
    if |data| == 0 then ""
    else if |data| == 1 then EncodeOne(data[0])
    else if |data| == 2 then EncodeTwo(data[0], data[1])
    else
      var rest := B64E(data[3..]);
      assert (|data| + 2) / 3 == (|data[3..]| + 2) / 3 + 1;
      EncodeTriple(data[0], data[1], data[2]) + rest
  }

  /** Encoding more than two bytes emits the first triple's quantum, then the rest. */
  lemma B64EUnfold(data: seq<byte>)
    requires |data| >= 3
    ensures B64E(data) == EncodeTriple(data[0], data[1], data[2]) + B64E(data[3..])
  {
    assert |data| != 0 && |data| != 1 && |data| != 2;
  }

  /** `r` ends in exactly `pads` padding characters and every other character is from the
      alphabet. */
  predicate PaddedShape(r: string, pads: nat) {
    && pads <= |r|
    && (forall i | 0 <= i < |r| :: (r[i] == Pad) == (i >= |r| - pads))
    && (forall i | 0 <= i < |r| :: r[i] != Pad ==> IsAlphabetChar(r[i]))
  }

  /** A quantum of alphabet characters in front keeps the shape of what follows. */
  lemma PaddedShapeCons(q: string, rest: string, pads: nat)
    requires |q| == 4 && AllAlphabet(q) && PaddedShape(rest, pads)
    ensures PaddedShape(q + rest, pads)
  {
    var r := q + rest;
    forall i | 0 <= i < |r|
      ensures (r[i] == Pad) == (i >= |r| - pads)
      ensures r[i] != Pad ==> IsAlphabetChar(r[i])
    {
      if i < 4 {
        assert r[i] == q[i];
      } else {
        assert r[i] == rest[i - 4];
      }
    }
  }

  lemma EncodeOneShape(b0: byte)
    ensures PaddedShape(EncodeOne(b0), 2)
  {
    var q := EncodeOne(b0);
    forall i | 0 <= i < 4
      ensures (q[i] == Pad) == (i >= 2)
      ensures q[i] != Pad ==> IsAlphabetChar(q[i])
    {
    }
  }

  lemma EncodeTwoShape(b0: byte, b1: byte)
    ensures PaddedShape(EncodeTwo(b0, b1), 1)
  {
    var q := EncodeTwo(b0, b1);
    forall i | 0 <= i < 4
      ensures (q[i] == Pad) == (i >= 3)
      ensures q[i] != Pad ==> IsAlphabetChar(q[i])
    {
    }
  }

  /** Every character of an encoding is from the alphabet, except for the `PadCount(n)`
      (at most two) trailing `=`. */
  lemma {:induction false} B64EShape(data: seq<byte>)
    decreases |data|
    ensures PaddedShape(B64E(data), PadCount(|data|))
  {
    if |data| == 1 {
      assert B64E(data) == EncodeOne(data[0]);
      EncodeOneShape(data[0]);
    } else if |data| == 2 {
      assert B64E(data) == EncodeTwo(data[0], data[1]);
      EncodeTwoShape(data[0], data[1]);
    } else if |data| >= 3 {
      B64EShapeStep(data);
    }
  }

  lemma {:induction false} B64EShapeStep(data: seq<byte>)
    requires |data| >= 3
    decreases |data|, 0
    ensures PaddedShape(B64E(data), PadCount(|data|))
  {
    B64EUnfold(data);
    B64EShape(data[3..]);
    PadCountStep(|data|);
    EncodeTripleAlphabet(data[0], data[1], data[2]);
    PaddedShapeCons(EncodeTriple(data[0], data[1], data[2]), B64E(data[3..]), PadCount(|data|));
  }

  lemma PadCountStep(n: nat)
    requires n >= 3
    ensures PadCount(n - 3) == PadCount(n)
  {
  }

  lemma EncodeTripleAlphabet(b0: byte, b1: byte, b2: byte)
    ensures AllAlphabet(EncodeTriple(b0, b1, b2))
  {
    var q := EncodeTriple(b0, b1, b2);
    assert IsAlphabetChar(q[0]) && IsAlphabetChar(q[1]) && IsAlphabetChar(q[2]) && IsAlphabetChar(q[3]);
  }

  // ---------------------------------------------------------------- decoding

  /** Go's `DecodeString`: the bytes it returns, and whether its error was nil.
      On failure `bytes` is the output of the quanta decoded before the bad one. */
  datatype Decoded = Decoded(bytes: seq<byte>, ok: bool)

  predicate IsNewline(c: char) {
    c == '\r' || c == '\n'
  }

  /** The decoder ignores every carriage return and line feed. */
  function StripNewlines(s: string): (r: string)
    ensures |r| <= |s|
    ensures forall i | 0 <= i < |r| :: !IsNewline(r[i])
  {
    if |s| == 0 then ""
    else if IsNewline(s[|s| - 1]) then StripNewlines(s[..|s| - 1])
    else StripNewlines(s[..|s| - 1]) + [s[|s| - 1]]
  }

  lemma {:induction false} StripNewlinesNoop(s: string)
    requires forall i | 0 <= i < |s| :: !IsNewline(s[i])
    ensures StripNewlines(s) == s
  {
    if |s| > 0 {
      StripNewlinesNoop(s[..|s| - 1]);
    }
  }

  function DecodeFull(c0: sextet, c1: sextet, c2: sextet, c3: sextet): seq<byte> {
    [c0 * 4 + c1 / 16, (c1 % 16) * 16 + c2 / 4, (c2 % 4) * 64 + c3]
  }

  /** How `decodeQuantum` reads four characters: a full quantum of four alphabet
      characters (three bytes), a final quantum of two or three alphabet characters
      padded with "==" or "=" (one or two bytes), or corrupt input. */
  datatype Quantum = Full(bytes: seq<byte>) | Final(bytes: seq<byte>) | Bad

  function ClassifyQuantum(q: string): (r: Quantum)
    requires |q| == 4
    ensures r.Full? <==> AllAlphabet(q)
    ensures r.Full? ==> |r.bytes| == 3
    ensures r.Final? ==> 1 <= |r.bytes| <= 2
    ensures r.Final? ==> && IsAlphabetChar(q[0]) && IsAlphabetChar(q[1]) && q[3] == Pad
                         && (q[2] == Pad || IsAlphabetChar(q[2]))
    ensures r.Final? ==> (|r.bytes| == 1 <==> q[2] == Pad)
    ensures r.Final? && q[2] == Pad ==>
              r.bytes == DecodeFull(IndexOf(q[0]), IndexOf(q[1]), 0, 0)[..1]
    ensures r.Final? && q[2] != Pad ==>
              r.bytes == DecodeFull(IndexOf(q[0]), IndexOf(q[1]), IndexOf(q[2]), 0)[..2]
    ensures r.Bad? <==> && !AllAlphabet(q)
                        && !(AllAlphabet(q[..2]) && q[2] == Pad && q[3] == Pad)
                        && !(AllAlphabet(q[..3]) && q[3] == Pad)
  {
    assert AllAlphabet(q[..2]) <==> IsAlphabetChar(q[0]) && IsAlphabetChar(q[1]);
    assert AllAlphabet(q[..3]) <==> IsAlphabetChar(q[0]) && IsAlphabetChar(q[1]) && IsAlphabetChar(q[2]);
    if AllAlphabet(q) then
      Full(DecodeFull(IndexOf(q[0]), IndexOf(q[1]), IndexOf(q[2]), IndexOf(q[3])))
    else if IsAlphabetChar(q[0]) && IsAlphabetChar(q[1]) && q[2] == Pad && q[3] == Pad then
      Final([IndexOf(q[0]) * 4 + IndexOf(q[1]) / 16])
    else if IsAlphabetChar(q[0]) && IsAlphabetChar(q[1]) && IsAlphabetChar(q[2]) && q[3] == Pad then
      var c1 := IndexOf(q[1]);
      Final([IndexOf(q[0]) * 4 + c1 / 16, (c1 % 16) * 16 + IndexOf(q[2]) / 4])
    else Bad
  }

  /** Go's `decodeQuantum` loop over a newline-free string: quanta of four characters;
      a padded quantum must be the last one ("trailing garbage" otherwise, though its
      bytes are kept); anything else, including an incomplete final quantum, is corrupt. */
  function DecodeQuanta(t: string): (r: Decoded)
    decreases |t|
    ensures |r.bytes| <= 3 * (|t| / 4)
  {
    if |t| == 0 then Decoded([], true)
    else if |t| < 4 then Decoded([], false)
    else
      match ClassifyQuantum(t[..4])
      case Full(b) =>
        assert |t[4..]| / 4 == |t| / 4 - 1;
        var rest := DecodeQuanta(t[4..]);
        Decoded(b + rest.bytes, rest.ok)
      case Final(b) => Decoded(b, |t| == 4)
      case Bad => Decoded([], false)
  }

  /** `utils.B64D`: `base64.URLEncoding.DecodeString`. */
  function B64D(s: string): (r: Decoded)
    ensures |r.bytes| <= 3 * (|s| / 4)
  {
    DecodeQuanta(StripNewlines(s))
  }

  // ---------------------------------------------------------------- properties

  /** The accepted inputs, stated independently of the decoder: once newlines are
      removed, a whole number of quanta, all alphabet characters except for one or
      two `=` that end the text. */
  predicate WellFormed(t: string) {
    && |t| % 4 == 0
    && (|| AllAlphabet(t)
        || (|t| >= 4 && t[|t| - 1] == Pad && AllAlphabet(t[..|t| - 1]))
        || (|t| >= 4 && t[|t| - 2] == Pad && t[|t| - 1] == Pad && AllAlphabet(t[..|t| - 2])))
  }

  /** The first byte is the first sextet and the top two bits of the second. */
  lemma FirstByte(b0: byte, c1: sextet)
    requires c1 / 16 == b0 % 4
    ensures (b0 / 4) * 4 + c1 / 16 == b0
  {
  }

  /** The middle byte is the low four bits of the second sextet and the top four of the third. */
  lemma MiddleByte(b0: byte, b1: byte, c2: sextet)
    requires c2 / 4 == b1 % 16
    ensures (((b0 % 4) * 16 + b1 / 16) % 16) * 16 + c2 / 4 == b1
  {
  }

  /** The last byte is the low two bits of the third sextet and the fourth sextet. */
  lemma LastByte(b1: byte, b2: byte)
    ensures (((b1 % 16) * 4 + b2 / 64) % 4) * 64 + b2 % 64 == b2
  {
  }

  lemma TripleRoundTrip(b0: byte, b1: byte, b2: byte)
    ensures ClassifyQuantum(EncodeTriple(b0, b1, b2)) == Full([b0, b1, b2])
  {
    var q := EncodeTriple(b0, b1, b2);
    var c1: sextet := (b0 % 4) * 16 + b1 / 16;
    var c2: sextet := (b1 % 16) * 4 + b2 / 64;
    IndexOfCharOf(b0 / 4);
    IndexOfCharOf(c1);
    IndexOfCharOf(c2);
    IndexOfCharOf(b2 % 64);
    EncodeTripleAlphabet(b0, b1, b2);
    assert ClassifyQuantum(q) == Full(DecodeFull(IndexOf(q[0]), IndexOf(q[1]), IndexOf(q[2]), IndexOf(q[3])));
    assert IndexOf(q[0]) == b0 / 4 && IndexOf(q[1]) == c1 && IndexOf(q[2]) == c2 && IndexOf(q[3]) == b2 % 64;
    FirstByte(b0, c1);
    MiddleByte(b0, b1, c2);
    LastByte(b1, b2);
    assert DecodeFull(b0 / 4, c1, c2, b2 % 64) == [b0, b1, b2];
  }

  lemma OneRoundTrip(b0: byte)
    ensures ClassifyQuantum(EncodeOne(b0)) == Final([b0])
  {
    var q := EncodeOne(b0);
    IndexOfCharOf(b0 / 4);
    IndexOfCharOf((b0 % 4) * 16);
    assert !IsAlphabetChar(q[3]);
  }

  lemma TwoRoundTrip(b0: byte, b1: byte)
    ensures ClassifyQuantum(EncodeTwo(b0, b1)) == Final([b0, b1])
  {
    var q := EncodeTwo(b0, b1);
    var c1: sextet := (b0 % 4) * 16 + b1 / 16;
    var c2: sextet := (b1 % 16) * 4;
    IndexOfCharOf(b0 / 4);
    IndexOfCharOf(c1);
    IndexOfCharOf(c2);
    assert !IsAlphabetChar(q[3]);
    FirstByte(b0, c1);
    MiddleByte(b0, b1, c2);
  }

  /** A full quantum in front of more text decodes to its three bytes followed by the rest. */
  lemma DecodeFullThenRest(q: string, rest: string)
    requires |q| == 4 && ClassifyQuantum(q).Full?
    ensures DecodeQuanta(q + rest)
      == Decoded(ClassifyQuantum(q).bytes + DecodeQuanta(rest).bytes, DecodeQuanta(rest).ok)
  {
    var t := q + rest;
    assert t[..4] == q;
    assert t[4..] == rest;
  }

  /** A lone final quantum decodes to its one or two bytes. */
  lemma DecodeLastQuantum(q: string)
    requires |q| == 4 && ClassifyQuantum(q).Final?
    ensures DecodeQuanta(q) == Decoded(ClassifyQuantum(q).bytes, true)
  {
    assert q[..4] == q;
  }

  /** Decoding undoes encoding for every byte sequence. */
  lemma {:induction false} DecodeEncode(data: seq<byte>)
    ensures DecodeQuanta(B64E(data)) == Decoded(data, true)
    decreases |data|
  {
    if |data| == 1 {
      assert B64E(data) == EncodeOne(data[0]);
      OneRoundTrip(data[0]);
      DecodeLastQuantum(EncodeOne(data[0]));
    } else if |data| == 2 {
      assert B64E(data) == EncodeTwo(data[0], data[1]);
      TwoRoundTrip(data[0], data[1]);
      DecodeLastQuantum(EncodeTwo(data[0], data[1]));
    } else if |data| >= 3 {
      DecodeEncodeStep(data);
    }
  }

  lemma {:induction false} DecodeEncodeStep(data: seq<byte>)
    requires |data| >= 3
    ensures DecodeQuanta(B64E(data)) == Decoded(data, true)
    decreases |data|, 0
  {
    var q := EncodeTriple(data[0], data[1], data[2]);
    var tail := B64E(data[3..]);
    B64EUnfold(data);
    assert B64E(data) == q + tail;
    TripleRoundTrip(data[0], data[1], data[2]);
    DecodeFullThenRest(q, tail);
    DecodeEncode(data[3..]);
    SplitFirstThree(data);
  }

  lemma SplitFirstThree(data: seq<byte>)
    requires |data| >= 3
    ensures [data[0], data[1], data[2]] + data[3..] == data
  {
    assert data[..3] == [data[0], data[1], data[2]];
    assert data[..3] + data[3..] == data;
  }

  /** Round trip of the helpers: `B64D(B64E(b)) == b`, with no error. */
  lemma B64DB64E(data: seq<byte>)
    ensures B64D(B64E(data)) == Decoded(data, true)
  {
    var e := B64E(data);
    B64EShape(data);
    forall i | 0 <= i < |e| ensures !IsNewline(e[i]) {
      assert e[i] == Pad || IsAlphabetChar(e[i]);
    }
    StripNewlinesNoop(e);
    DecodeEncode(data);
  }

  lemma AllAlphabetConcat(a: string, b: string)
    ensures AllAlphabet(a + b) <==> AllAlphabet(a) && AllAlphabet(b)
  {
    if AllAlphabet(a + b) {
      forall i | 0 <= i < |a| ensures IsAlphabetChar(a[i]) {
        assert a[i] == (a + b)[i];
      }
      forall i | 0 <= i < |b| ensures IsAlphabetChar(b[i]) {
        assert b[i] == (a + b)[|a| + i];
      }
    }
  }

  /** A single quantum is well formed exactly when the decoder does not call it corrupt. */
  lemma WellFormedQuantum(q: string)
    requires |q| == 4
    ensures WellFormed(q) <==> !ClassifyQuantum(q).Bad?
  {
    assert q[..|q| - 1] == q[..3];
    assert q[..|q| - 2] == q[..2];
  }

  /** A quantum in front of more text: well formed exactly when the quantum is full
      and the rest is well formed. */
  lemma WellFormedCons(q: string, rest: string)
    requires |q| == 4 && |rest| > 0
    ensures WellFormed(q + rest) <==> AllAlphabet(q) && WellFormed(rest)
  {
    var t := q + rest;
    AllAlphabetConcat(q, rest);
    if |rest| % 4 == 0 {
      assert t[|t| - 1] == rest[|rest| - 1];
      assert t[|t| - 2] == rest[|rest| - 2];
      assert t[..|t| - 1] == q + rest[..|rest| - 1];
      assert t[..|t| - 2] == q + rest[..|rest| - 2];
      AllAlphabetConcat(q, rest[..|rest| - 1]);
      AllAlphabetConcat(q, rest[..|rest| - 2]);
    }
  }

  /** The decoder succeeds exactly on well-formed input. */
  lemma {:induction false} DecodeQuantaOk(t: string)
    ensures DecodeQuanta(t).ok <==> WellFormed(t)
    decreases |t|
  {
    if |t| >= 4 {
      var q, rest := t[..4], t[4..];
      assert t == q + rest;
      if |rest| == 0 {
        WellFormedQuantum(q);
      } else {
        WellFormedCons(q, rest);
        DecodeQuantaOk(rest);
      }
    }
  }

  /** `B64D` fails exactly when the text, newlines removed, is not well formed:
      a character outside the alphabet, misplaced padding, or an incomplete quantum. */
  lemma B64DOk(s: string)
    ensures B64D(s).ok <==> WellFormed(StripNewlines(s))
  {
    DecodeQuantaOk(StripNewlines(s));
  }

  /** Every encoding is accepted by the decoder. */
  lemma B64EWellFormed(data: seq<byte>)
    ensures WellFormed(B64E(data))
  {
    DecodeEncode(data);
    DecodeQuantaOk(B64E(data));
  }

  /** Decoding is not strict: the unused bits of a padded quantum are ignored, so two
      texts decode to the same byte. */
  lemma B64DIgnoresTrailingBits()
    ensures B64D("QR==") == B64D("QQ==") == Decoded([65], true)
  {
    DecodeOnePadded("QR==", 65);
    DecodeOnePadded("QQ==", 65);
  }

  /** A lone quantum of two alphabet characters and "==" decodes to the byte made of the
      first sextet and the top two bits of the second. */
  lemma DecodeOnePadded(q: string, b: byte)
    requires |q| == 4 && IsAlphabetChar(q[0]) && IsAlphabetChar(q[1]) && q[2] == Pad && q[3] == Pad
    requires IndexOf(q[0]) * 4 + IndexOf(q[1]) / 16 == b
    ensures B64D(q) == Decoded([b], true)
  {
    StripNewlinesNoop(q);
    assert !IsAlphabetChar(q[3]);
    assert ClassifyQuantum(q) == Final([b]);
    DecodeLastQuantum(q);
  }
}
