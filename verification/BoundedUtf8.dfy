/** The bounded UTF-8 writer convertWithMBTOWC of src_C/j9sl.c. */
module BoundedUtf8 {
  import opened Basics

  type Byte = bv8

  /** A wchar_t, signed 32 bits wide in two's complement. */
  type WChar = bv32

  const CR: WChar := 0x0d
  const LF: WChar := 0x0a
  const SPACE: WChar := 0x20

  /** The signed comparison ch < limit of the source. */
  predicate Below(ch: WChar, limit: WChar) {
    ch >= 0x8000_0000 || ch < limit
  }

  /** The bytes the loop writes for one character. */
  function Units(ch: WChar): (u: seq<Byte>)
    ensures 1 <= |u| <= 3
  {
    if Below(ch, 0x80) then
      [(ch & 0xff) as Byte]
    else if Below(ch, 0x800) then
      [(0xc0 | ((ch >> 6) & 0x1f)) as Byte, (0x80 | (ch & 0x3f)) as Byte]
    else
      [(0xe0 | ((ch >> 12) & 0x0f)) as Byte, (0x80 | ((ch >> 6) & 0x3f)) as Byte, (0x80 | (ch & 0x3f)) as Byte]
  }

  datatype Decoded = Decoded(ch: WChar, length: nat)

  predicate Continuation(b: Byte) {
    b & 0xc0 == 0x80
  }

  /** Neither overlong nor a surrogate. */
  predicate Strict3(b0: Byte, b1: Byte) {
    (b0 == 0xe0 ==> b1 >= 0xa0) && (b0 == 0xed ==> b1 <= 0x9f)
  }

  function Assemble3(b0: Byte, b1: Byte, b2: Byte): WChar {
    (((b0 & 0x0f) as WChar) << 12) | (((b1 & 0x3f) as WChar) << 6) | ((b2 & 0x3f) as WChar)
  }

  /** The first character of a string of UTF-8, by the syntax of section 4 of RFC 3629: shortest forms only, no
      surrogates, nothing above U+10FFFF. */
  function DecodeFirst(b: seq<Byte>): (r: Option<Decoded>)
    ensures r.Some? ==> 1 <= r.value.length <= |b|
  {
    if b == [] then None
    else if b[0] <= 0x7f then Some(Decoded(b[0] as WChar, 1))
    else if 0xc2 <= b[0] <= 0xdf then
      if |b| >= 2 && Continuation(b[1]) then
        Some(Decoded((((b[0] & 0x1f) as WChar) << 6) | ((b[1] & 0x3f) as WChar), 2))
      else None
    else if 0xe0 <= b[0] <= 0xef then
      if |b| >= 3 && Continuation(b[1]) && Continuation(b[2])
         && Strict3(b[0], b[1]) then
        Some(Decoded(Assemble3(b[0], b[1], b[2]), 3))
      else None
    else if 0xf0 <= b[0] <= 0xf4 then
      if |b| >= 4 && Continuation(b[1]) && Continuation(b[2]) && Continuation(b[3])
         && (b[0] == 0xf0 ==> b[1] >= 0x90) && (b[0] == 0xf4 ==> b[1] <= 0x8f) then
        Some(Decoded((((b[0] & 0x07) as WChar) << 18) | (((b[1] & 0x3f) as WChar) << 12)
                     | (((b[2] & 0x3f) as WChar) << 6) | ((b[3] & 0x3f) as WChar), 4))
      else None
    else None
  }

  function Decode(b: seq<Byte>): Option<seq<WChar>>
    decreases |b|
  {
    if b == [] then Some([])
    else
      var first := DecodeFirst(b);
      if first == None then None
      else
        var rest := Decode(b[first.value.length..]);
        if rest == None then None else Some([first.value.ch] + rest.value)
  }

  function Encode(chars: seq<WChar>): seq<Byte> {
    if chars == [] then [] else Units(chars[0]) + Encode(chars[1..])
  }

  /** A Unicode scalar value of the basic multilingual plane. */
  predicate Basic(ch: WChar) {
    ch < 0x1_0000 && !(0xd800 <= ch <= 0xdfff)
  }

  lemma UnitsOneByte(ch: WChar, tail: seq<Byte>)
    requires Below(ch, 0x80)
    ensures (DecodeFirst(Units(ch) + tail) == Some(Decoded(ch, |Units(ch)|))) <==> Basic(ch)
  {
    var u := Units(ch);
    assert (u + tail)[0] == u[0];
    if Basic(ch) {
      assert u[0] <= 0x7f && u[0] as WChar == ch;
    }
  }

  lemma UnitsTwoBytes(ch: WChar, tail: seq<Byte>)
    requires 0x80 <= ch < 0x800
    ensures DecodeFirst(Units(ch) + tail) == Some(Decoded(ch, |Units(ch)|))
  {
    var u := Units(ch);
    assert (u + tail)[0] == u[0] && (u + tail)[1] == u[1];
    TwoByteBits(ch);
  }

  lemma TwoByteBits(ch: WChar)
    requires 0x80 <= ch < 0x800
    ensures var b0, b1 := (0xc0 | ((ch >> 6) & 0x1f)) as Byte, (0x80 | (ch & 0x3f)) as Byte;
      && 0xc2 <= b0 <= 0xdf && Continuation(b1)
      && (((b0 & 0x1f) as WChar) << 6) | ((b1 & 0x3f) as WChar) == ch
  {
  }

  function ThreeBytes(ch: WChar): (b: (Byte, Byte, Byte)) {
    ((0xe0 | ((ch >> 12) & 0x0f)) as Byte, (0x80 | ((ch >> 6) & 0x3f)) as Byte, (0x80 | (ch & 0x3f)) as Byte)
  }

  lemma ThreeByteClasses(ch: WChar)
    requires 0x800 <= ch < 0x8000_0000
    ensures var b := ThreeBytes(ch);
      && 0xe0 <= b.0 <= 0xef && Continuation(b.1) && Continuation(b.2)
      && Assemble3(b.0, b.1, b.2) == ch & 0xffff
  {
  }

  lemma ThreeByteStrict(ch: WChar)
    requires 0x800 <= ch < 0x8000_0000
    ensures var b := ThreeBytes(ch);
      Strict3(b.0, b.1) <==> ch & 0xffff >= 0x800 && !(0xd800 <= ch & 0xffff <= 0xdfff)
  {
  }

  lemma ThreeByteBits(ch: WChar)
    requires 0x800 <= ch < 0x8000_0000
    ensures var b0, b1, b2 := (0xe0 | ((ch >> 12) & 0x0f)) as Byte, (0x80 | ((ch >> 6) & 0x3f)) as Byte,
                              (0x80 | (ch & 0x3f)) as Byte;
      && 0xe0 <= b0 <= 0xef && Continuation(b1) && Continuation(b2)
      && Assemble3(b0, b1, b2) == ch & 0xffff
      && (Strict3(b0, b1) <==> ch & 0xffff >= 0x800 && !(0xd800 <= ch & 0xffff <= 0xdfff))
  {
    ThreeByteClasses(ch);
    ThreeByteStrict(ch);
  }

  lemma DecodeThreeBytes(b0: Byte, b1: Byte, b2: Byte, tail: seq<Byte>)
    requires 0xe0 <= b0 <= 0xef && Continuation(b1) && Continuation(b2)
    ensures DecodeFirst([b0, b1, b2] + tail) ==
      if Strict3(b0, b1) then Some(Decoded(Assemble3(b0, b1, b2), 3)) else None
  {
    var b := [b0, b1, b2] + tail;
    assert b[0] == b0 && b[1] == b1 && b[2] == b2;
  }

  lemma LowHalf(ch: WChar)
    requires 0x800 <= ch < 0x8000_0000
    ensures Basic(ch) <==> (ch & 0xffff == ch && ch & 0xffff >= 0x800 && !(0xd800 <= ch & 0xffff <= 0xdfff))
  {
  }

  lemma UnitsThreeBytes(ch: WChar, tail: seq<Byte>)
    requires 0x800 <= ch < 0x8000_0000
    ensures (DecodeFirst(Units(ch) + tail) == Some(Decoded(ch, |Units(ch)|))) <==> Basic(ch)
  {
    var u := Units(ch);
    ThreeByteBits(ch);
    DecodeThreeBytes(u[0], u[1], u[2], tail);
    assert u == [u[0], u[1], u[2]];
    LowHalf(ch);
  }

  /** A character beyond the basic plane is written without its high bits: what is read back is the rest of it, if that
      is a scalar value of at least three bytes, and nothing otherwise. */
  lemma HighBitsAreLost(ch: WChar, tail: seq<Byte>)
    requires 0x1_0000 <= ch < 0x8000_0000
    ensures var low := ch & 0xffff;
      DecodeFirst(Units(ch) + tail) ==
        if low >= 0x800 && !(0xd800 <= low <= 0xdfff) then Some(Decoded(low, 3)) else None
  {
    var u := Units(ch);
    ThreeByteBits(ch);
    DecodeThreeBytes(u[0], u[1], u[2], tail);
    assert u == [u[0], u[1], u[2]];
  }

  lemma EncodeOne(ch: WChar)
    ensures Encode([ch]) == Units(ch)
  {
    assert [ch][1..] == [];
  }

  /** So the output can be valid UTF-8 and still not say what the input said. */
  lemma DecodesToLowHalf(ch: WChar, low: WChar)
    requires 0x1_0000 <= ch < 0x8000_0000 && low == ch & 0xffff && low >= 0x800 && !(0xd800 <= low <= 0xdfff)
    ensures Decode(Encode([ch])) == Some([low])
  {
    var b := Units(ch);
    EncodeOne(ch);
    HighBitsAreLost(ch, []);
    assert b + [] == b;
    assert DecodeFirst(b) == Some(Decoded(low, 3));
    var rest := b[3..];
    assert rest == [] && Decode(rest) == Some([]);
    assert Decode(b) == Some([low] + []);
    assert [low] + [] == [low];
  }

  /** For one, U+1F600 is written as U+F600. */
  lemma DecodableButDifferent()
    ensures exists ch: WChar :: !Basic(ch) && Decode(Encode([ch])) == Some([0xf600])
  {
    var ch: WChar := 0x1_f600;
    assert ch & 0xffff == 0xf600;
    DecodesToLowHalf(ch, 0xf600);
    assert !Basic(ch);
  }

  /** The bytes written for a character are its UTF-8 encoding exactly when it is a basic scalar value. */
  lemma UnitsAreUtf8IffBasic(ch: WChar, tail: seq<Byte>)
    ensures (DecodeFirst(Units(ch) + tail) == Some(Decoded(ch, |Units(ch)|))) <==> Basic(ch)
  {
    if Below(ch, 0x80) {
      UnitsOneByte(ch, tail);
    } else if Below(ch, 0x800) {
      UnitsTwoBytes(ch, tail);
    } else {
      UnitsThreeBytes(ch, tail);
    }
  }

  /** Decoding what was written gives the characters back. */
  lemma {:induction false} DecodeEncode(chars: seq<WChar>)
    requires forall i :: 0 <= i < |chars| ==> Basic(chars[i])
    ensures Decode(Encode(chars)) == Some(chars)
  {
    if chars != [] {
      UnitsAreUtf8IffBasic(chars[0], Encode(chars[1..]));
      DecodeEncode(chars[1..]);
      var u := Units(chars[0]);
      assert Encode(chars)[|u|..] == Encode(chars[1..]);
      assert [chars[0]] + chars[1..] == chars;
    }
  }

  /** What mbtowc answers at a position of the input: the number of bytes used (negative for an invalid sequence, 0
      for the null character) and the character. */
  datatype MbResult = MbResult(ret: int, ch: WChar)

  /** A C string, NUL included, with mbtowc's answer for each position; `charIsSigned` tells how a plain char is
      widened. */
  datatype Input = Input(bytes: seq<Byte>, mb: seq<MbResult>, charIsSigned: bool)

  /** mbtowc uses no bytes beyond the terminator, which is the only NUL. */
  predicate ValidInput(s: Input) {
    && |s.mb| == |s.bytes| > 0
    && (forall i :: 0 <= i < |s.bytes| ==> (s.bytes[i] == 0 <==> i == |s.bytes| - 1))
    && (forall i :: 0 <= i < |s.mb| ==> i + s.mb[i].ret < |s.bytes|)
  }

  /** `ch = *walk++`: a plain char widened to wchar_t. */
  function Widen(b: Byte, charIsSigned: bool): WChar {
    if charIsSigned && b >= 0x80 then 0xffff_ff00 | (b as WChar) else b as WChar
  }

  /** The characters the loop would read from position `walk` on if the buffer were large enough. */
  function Chars(s: Input, walk: nat): seq<WChar>
    requires ValidInput(s) && walk < |s.bytes|
    decreases |s.bytes| - walk
  {
    if s.bytes[walk] == 0 || s.mb[walk].ret == 0 then []
    else if s.mb[walk].ret < 0 then [Widen(s.bytes[walk], s.charIsSigned)] + Chars(s, walk + 1)
    else [s.mb[walk].ch] + Chars(s, walk + s.mb[walk].ret)
  }

  /** Carriage returns dropped, line feeds turned into spaces. */
  function Clean(chars: seq<WChar>): seq<WChar> {
    if chars == [] then []
    else if chars[0] == CR then Clean(chars[1..])
    else [if chars[0] == LF then SPACE else chars[0]] + Clean(chars[1..])
  }

  /** p is the longest prefix of chars whose encoding has at most `room` bytes. */
  ghost predicate LongestThatFits(p: seq<WChar>, chars: seq<WChar>, room: int) {
    && p <= chars
    && |Encode(p)| <= room
    && forall q :: q <= chars && |q| > |p| ==> |Encode(q)| > room
  }

  lemma {:induction false} EncodeInParts(p: seq<WChar>, q: seq<WChar>)
    ensures Encode(p + q) == Encode(p) + Encode(q)
  {
    if p == [] {
      assert p + q == q;
    } else {
      assert (p + q)[1..] == p[1..] + q;
      EncodeInParts(p[1..], q);
    }
  }

  lemma AppendOne(p: seq<WChar>, ch: WChar)
    ensures Encode(p + [ch]) == Encode(p) + Units(ch)
  {
    EncodeInParts(p, [ch]);
    assert [ch][1..] == [];
  }

  lemma FirstMisfitEnds(p: seq<WChar>, ch: WChar, rest: seq<WChar>, room: int)
    requires |Encode(p)| <= room < |Encode(p + [ch])|
    ensures LongestThatFits(p, p + ([ch] + rest), room)
  {
    var chars := p + ([ch] + rest);
    forall q | q <= chars && |q| > |p|
      ensures |Encode(q)| > room
    {
      assert q == (p + [ch]) + q[|p| + 1..];
      EncodeInParts(p + [ch], q[|p| + 1..]);
    }
  }

  /** One character of input: what mbtowc found, or the byte itself if mbtowc refused. */
  method Fetch(s: Input, walk0: nat) returns (ch: WChar, walk: nat)
    requires ValidInput(s) && walk0 < |s.bytes| && s.bytes[walk0] != 0 && s.mb[walk0].ret != 0
    ensures walk0 < walk < |s.bytes|
    ensures Chars(s, walk0) == [ch] + Chars(s, walk)
  {
    walk := walk0;
    ch := s.mb[walk].ch;
    var ret := s.mb[walk].ret;
    if ret < 0 {
      ch := Widen(s.bytes[walk], s.charIsSigned);
      walk := walk + 1;
    } else {
      walk := walk + ret;
    }
  }

  lemma CleanFirst(ch: WChar, rest: seq<WChar>)
    ensures Clean([ch] + rest) == if ch == CR then Clean(rest) else [if ch == LF then SPACE else ch] + Clean(rest)
  {
    assert ([ch] + rest)[1..] == rest;
  }

  /** The three writing branches of the loop body, each with its test for room. */
  method Emit(errBuf: array<Byte>, out0: nat, end: nat, ch: WChar, ghost kept: seq<WChar>)
    returns (out: nat, fits: bool)
    requires out0 <= end < errBuf.Length && errBuf[..out0] == Encode(kept)
    modifies errBuf
    ensures fits <==> |Encode(kept + [ch])| <= end
    ensures out0 <= out <= end
    ensures errBuf[..out] == Encode(if fits then kept + [ch] else kept)
    ensures errBuf[out..] == old(errBuf[out..])
  {
    AppendOne(kept, ch);
    out, fits := out0, false;
    if Below(ch, 0x80) {
      if out + 1 > end { return; }
      errBuf[out] := (ch & 0xff) as Byte;
      out := out + 1;
    } else if Below(ch, 0x800) {
      if out + 2 > end { return; }
      errBuf[out] := (0xc0 | ((ch >> 6) & 0x1f)) as Byte;
      errBuf[out + 1] := (0x80 | (ch & 0x3f)) as Byte;
      out := out + 2;
    } else {
      if out + 3 > end { return; }
      errBuf[out] := (0xe0 | ((ch >> 12) & 0x0f)) as Byte;
      errBuf[out + 1] := (0x80 | ((ch >> 6) & 0x3f)) as Byte;
      errBuf[out + 2] := (0x80 | (ch & 0x3f)) as Byte;
      out := out + 3;
    }
    fits := true;
    assert errBuf[..out] == old(errBuf[..out0]) + Units(ch);
  }

  /** The reading half of a round: the character to be written, if the round is not to be skipped. */
  method FetchClean(s: Input, walk0: nat) returns (ch: WChar, walk: nat, skip: bool)
    requires ValidInput(s) && walk0 < |s.bytes| && s.bytes[walk0] != 0 && s.mb[walk0].ret != 0
    ensures walk0 < walk < |s.bytes|
    ensures Clean(Chars(s, walk0)) == (if skip then [] else [ch]) + Clean(Chars(s, walk))
  {
    ch, walk := Fetch(s, walk0);
    CleanFirst(ch, Chars(s, walk));
    skip := ch == CR;
    if ch == LF {
      ch := SPACE;
    }
  }

  lemma ExtendKept(kept: seq<WChar>, ch: WChar, rest: seq<WChar>)
    ensures kept + ([ch] + rest) == (kept + [ch]) + rest
  {
  }

  /** One round of the loop. `more` is false when it is left by break; `all` are the characters to be written. */
  method Round(s: Input, errBuf: array<Byte>, end: nat, walk0: nat, out0: nat, ghost kept0: seq<WChar>,
               ghost all: seq<WChar>)
    returns (walk: nat, out: nat, more: bool, ghost kept: seq<WChar>)
    requires ValidInput(s) && walk0 < |s.bytes| && s.bytes[walk0] != 0 && s.mb[walk0].ret != 0
    requires out0 <= end < errBuf.Length && errBuf[..out0] == Encode(kept0)
    requires kept0 + Clean(Chars(s, walk0)) == all
    modifies errBuf
    ensures out0 <= out <= end && errBuf[..out] == Encode(kept) && errBuf[out..] == old(errBuf[out..])
    ensures walk0 < walk < |s.bytes| && (more ==> kept + Clean(Chars(s, walk)) == all)
    ensures !more ==> LongestThatFits(kept, all, end)
  {
    out, more, kept := out0, true, kept0;
    var ch, skip;
    ch, walk, skip := FetchClean(s, walk0);
    if !skip {
      out, more := Emit(errBuf, out, end, ch, kept);
      ghost var rest := Clean(Chars(s, walk));
      ExtendKept(kept, ch, rest);
      if more {
        kept := kept + [ch];
      } else {
        FirstMisfitEnds(kept, ch, rest, end);
      }
    }
  }

  /** The loop. */
  method WriteChars(s: Input, errBuf: array<Byte>, end: nat) returns (out: nat, ghost kept: seq<WChar>)
    requires ValidInput(s) && end < errBuf.Length
    modifies errBuf
    ensures LongestThatFits(kept, Clean(Chars(s, 0)), end)
    ensures out <= end && errBuf[..out] == Encode(kept) && errBuf[out..] == old(errBuf[out..])
  {
    var walk, more := 0, true;
    out, kept := 0, [];
    ghost var all := Clean(Chars(s, 0));
    while more && s.bytes[walk] != 0 && s.mb[walk].ret != 0
      invariant walk < |s.bytes| && out <= end
      invariant errBuf[..out] == Encode(kept) && errBuf[out..] == old(errBuf[out..])
      invariant more ==> kept + Clean(Chars(s, walk)) == all
      invariant !more ==> LongestThatFits(kept, all, end)
      decreases more, |s.bytes| - walk
    {
      walk, out, more, kept := Round(s, errBuf, end, walk, out, kept, all);
    }
    if more {
      assert kept == all;
    }
  }

  /** Writes at most bufLen bytes: the encoding of the longest prefix that fits of the cleaned characters, and a
      NUL. Nothing else in the buffer changes. */
  method ConvertWithMBTOWC(s: Input, errBuf: array<Byte>, bufLen: nat) returns (ghost kept: seq<WChar>)
    requires ValidInput(s) && 1 <= bufLen <= errBuf.Length
    modifies errBuf
    ensures LongestThatFits(kept, Clean(Chars(s, 0)), bufLen - 1)
    ensures var n := |Encode(kept)|;
      && n < bufLen && errBuf[..n] == Encode(kept) && errBuf[n] == 0
      && errBuf[n + 1..] == old(errBuf[n + 1..])
    ensures forall chars :: IsText(s, chars) ==>
      LongestThatFits(kept, Clean(chars), bufLen - 1) && Decode(errBuf[..|Encode(kept)|]) == Some(kept)
  {
    var out;
    out, kept := WriteChars(s, errBuf, bufLen - 1);
    ghost var tail := errBuf[out..];
    TerminateWithNul(errBuf, out);
    assert errBuf[out + 1..] == tail[1..];
    forall chars | IsText(s, chars)
      ensures LongestThatFits(kept, Clean(chars), bufLen - 1) && Decode(Encode(kept)) == Some(kept)
    {
      TextIsKept(s, chars, kept, bufLen - 1);
    }
  }

  method TerminateWithNul(errBuf: array<Byte>, out: nat)
    requires out < errBuf.Length
    modifies errBuf
    ensures errBuf[..out] == old(errBuf[..out]) && errBuf[out] == 0 && errBuf[out + 1..] == old(errBuf[out + 1..])
  {
    errBuf[out] := 0;
  }

  lemma PrefixIsBasic(p: seq<WChar>, chars: seq<WChar>)
    requires p <= chars && forall i :: 0 <= i < |chars| ==> Basic(chars[i])
    ensures p == chars[..|p|] && forall i :: 0 <= i < |p| ==> Basic(p[i])
  {
    assert forall i :: 0 <= i < |p| ==> p[i] == chars[i];
  }

  /** Put together: for input whose characters are basic scalar values the buffer holds valid UTF-8 that decodes to
      the characters kept, the longest prefix that fits; so no sequence is ever cut. */
  lemma OutputDecodesToPrefix(kept: seq<WChar>, chars: seq<WChar>, room: int)
    requires LongestThatFits(kept, chars, room)
    requires forall i :: 0 <= i < |chars| ==> Basic(chars[i])
    ensures Decode(Encode(kept)) == Some(chars[..|kept|])
  {
    PrefixIsBasic(kept, chars);
    DecodeEncode(kept);
  }

  /** A character that is not a basic scalar value spoils the output: the string written does not decode to it. */
  lemma {:induction false} OutputIsUtf8IffBasic(chars: seq<WChar>)
    ensures Decode(Encode(chars)) == Some(chars) <==> forall i :: 0 <= i < |chars| ==> Basic(chars[i])
  {
    if forall i :: 0 <= i < |chars| ==> Basic(chars[i]) {
      DecodeEncode(chars);
    } else {
      NotBasicDoesNotDecode(chars);
    }
  }

  lemma {:induction false} NotBasicDoesNotDecode(chars: seq<WChar>)
    requires exists i :: 0 <= i < |chars| && !Basic(chars[i])
    ensures Decode(Encode(chars)) != Some(chars)
  {
    var ch, tail := chars[0], Encode(chars[1..]);
    var b := Encode(chars);
    assert b == Units(ch) + tail;
    if Decode(b) == Some(chars) {
      var first := DecodeFirst(b).value;
      assert first.ch == ch;
      FirstLengthIsUnits(ch, tail);
      UnitsAreUtf8IffBasic(ch, tail);
      assert b[|Units(ch)|..] == tail;
      assert Decode(tail) == Some(chars[1..]);
      var i :| 0 <= i < |chars| && !Basic(chars[i]);
      assert chars[1..][i - 1] == chars[i];
      NotBasicDoesNotDecode(chars[1..]);
    }
  }

  /** If the first character decodes to what was written, it does so from all the bytes written for it. */
  lemma FirstLengthIsUnits(ch: WChar, tail: seq<Byte>)
    requires DecodeFirst(Units(ch) + tail).Some? && DecodeFirst(Units(ch) + tail).value.ch == ch
    ensures DecodeFirst(Units(ch) + tail).value.length == |Units(ch)|
  {
    if Below(ch, 0x80) {
      DecodedIsSmall(Units(ch) + tail);
      UnitsOneByte(ch, tail);
    } else if Below(ch, 0x800) {
      UnitsTwoBytes(ch, tail);
    } else {
      LongDecodesShort(ch, tail);
    }
  }

  lemma LongDecodesShort(ch: WChar, tail: seq<Byte>)
    requires 0x800 <= ch < 0x8000_0000 && DecodeFirst(Units(ch) + tail).Some?
    ensures DecodeFirst(Units(ch) + tail).value.length == 3
  {
    var u := Units(ch);
    ThreeByteBits(ch);
    DecodeThreeBytes(u[0], u[1], u[2], tail);
    assert u == [u[0], u[1], u[2]];
  }

  lemma DecodedIsSmall(b: seq<Byte>)
    requires DecodeFirst(b).Some?
    ensures DecodeFirst(b).value.ch < 0x8000_0000
  {
  }

  // ----- when the output is valid UTF-8 at all -----

  /** A negative character: a byte that mbtowc refused and a signed char widened. It is written as that one byte. */
  predicate Raw(ch: WChar) {
    ch >= 0x8000_0000
  }

  /** How many characters at the front are raw. */
  function RawRun(chars: seq<WChar>): (n: nat)
    ensures n <= |chars| && forall i :: 0 <= i < n ==> Raw(chars[i])
    ensures n < |chars| ==> !Raw(chars[n])
  {
    if chars == [] || !Raw(chars[0]) then 0 else 1 + RawRun(chars[1..])
  }

  /** The low bytes of characters. */
  function LowBytes(chars: seq<WChar>): seq<Byte> {
    if chars == [] then [] else [(chars[0] & 0xff) as Byte] + LowBytes(chars[1..])
  }

  /** What is written for the character, if it is not raw, is one UTF-8 sequence: it is short, or its low 16 bits are a
      scalar value that takes three bytes. */
  predicate WrittenWell(ch: WChar) {
    Below(ch, 0x800) || (ch & 0xffff >= 0x800 && !(0xd800 <= ch & 0xffff <= 0xdfff))
  }

  /** Every stretch of raw bytes is UTF-8 by itself, and all other characters are written well. */
  predicate WellWritten(chars: seq<WChar>)
    decreases |chars|
  {
    if chars == [] then true
    else if Raw(chars[0]) then
      Decode(LowBytes(chars[..RawRun(chars)])).Some? && WellWritten(chars[RawRun(chars)..])
    else WrittenWell(chars[0]) && WellWritten(chars[1..])
  }

  lemma {:induction false} RawIsLowBytes(chars: seq<WChar>)
    requires forall i :: 0 <= i < |chars| ==> Raw(chars[i])
    ensures Encode(chars) == LowBytes(chars)
  {
    if chars != [] {
      RawIsLowBytes(chars[1..]);
    }
  }

  lemma LeadByte(ch: WChar)
    requires !Raw(ch)
    ensures !Continuation(Units(ch)[0])
  {
  }

  lemma FirstIsWrittenWell(ch: WChar, tail: seq<Byte>)
    requires !Raw(ch)
    ensures var first := DecodeFirst(Units(ch) + tail);
      (first.Some? <==> WrittenWell(ch)) && (first.Some? ==> first.value.length == |Units(ch)|)
  {
    if Below(ch, 0x80) {
      UnitsOneByte(ch, tail);
    } else if Below(ch, 0x800) {
      UnitsTwoBytes(ch, tail);
    } else {
      var u := Units(ch);
      ThreeByteBits(ch);
      DecodeThreeBytes(u[0], u[1], u[2], tail);
      assert u == [u[0], u[1], u[2]];
    }
  }

  /** The answer depends on the bytes up to the first that is no continuation, and on four at most. */
  lemma SameFirst(b: seq<Byte>, r: seq<Byte>)
    requires r != [] && r <= b && (|b| == |r| || |r| >= 4)
    ensures DecodeFirst(b) == DecodeFirst(r)
  {
    assert b[0] == r[0];
    assert |r| >= 2 ==> b[1] == r[1];
    assert |r| >= 3 ==> b[2] == r[2];
    assert |r| >= 4 ==> b[3] == r[3];
  }

  lemma StopsAfterOne(b: seq<Byte>, r: seq<Byte>)
    requires |r| == 1 && r <= b && |b| > 1 && !Continuation(b[1])
    ensures DecodeFirst(b) == DecodeFirst(r)
  {
    assert b[0] == r[0];
  }

  lemma StopsAfterTwo(b: seq<Byte>, r: seq<Byte>)
    requires |r| == 2 && r <= b && |b| > 2 && !Continuation(b[2])
    ensures DecodeFirst(b) == DecodeFirst(r)
  {
    assert b[0] == r[0] && b[1] == r[1];
  }

  lemma StopsAfterThree(b: seq<Byte>, r: seq<Byte>)
    requires |r| == 3 && r <= b && |b| > 3 && !Continuation(b[3])
    ensures DecodeFirst(b) == DecodeFirst(r)
  {
    assert b[0] == r[0] && b[1] == r[1] && b[2] == r[2];
  }

  /** A sequence does not reach into bytes that start with a lead byte. */
  lemma FirstStopsBefore(r: seq<Byte>, t: seq<Byte>)
    requires r != [] && (t == [] || !Continuation(t[0]))
    ensures DecodeFirst(r + t) == DecodeFirst(r)
  {
    var b := r + t;
    assert r <= b && (t != [] ==> b[|r|] == t[0]);
    if t == [] || |r| >= 4 {
      SameFirst(b, r);
    } else if |r| == 1 {
      StopsAfterOne(b, r);
    } else if |r| == 2 {
      StopsAfterTwo(b, r);
    } else {
      StopsAfterThree(b, r);
    }
  }

  lemma {:induction false} DecodeInParts(r: seq<Byte>, t: seq<Byte>)
    requires t == [] || !Continuation(t[0])
    ensures Decode(r + t).Some? <==> Decode(r).Some? && Decode(t).Some?
    decreases |r|
  {
    if r == [] {
      assert r + t == t;
    } else {
      FirstStopsBefore(r, t);
      var first := DecodeFirst(r);
      if first.Some? {
        var n := first.value.length;
        assert (r + t)[n..] == r[n..] + t;
        DecodeInParts(r[n..], t);
      }
    }
  }

  lemma FirstDecodes(u: seq<Byte>, tail: seq<Byte>)
    requires u != [] && DecodeFirst(u + tail).Some? ==> DecodeFirst(u + tail).value.length == |u|
    requires u != []
    ensures Decode(u + tail).Some? <==> DecodeFirst(u + tail).Some? && Decode(tail).Some?
  {
    assert (u + tail)[|u|..] == tail;
  }

  /** The output is valid UTF-8, for whatever characters, exactly when every stretch of raw bytes is valid by itself and
      every other character is below U+0800 or has low 16 bits that are a scalar value from U+0800 on. */
  lemma {:induction false} OutputIsValidIff(chars: seq<WChar>)
    ensures Decode(Encode(chars)).Some? <==> WellWritten(chars)
    decreases |chars|
  {
    if chars == [] {
    } else if Raw(chars[0]) {
      var n := RawRun(chars);
      var run, rest := chars[..n], chars[n..];
      assert chars == run + rest;
      EncodeInParts(run, rest);
      RawIsLowBytes(run);
      if rest != [] {
        LeadByte(rest[0]);
      }
      DecodeInParts(Encode(run), Encode(rest));
      OutputIsValidIff(rest);
    } else {
      FirstIsWrittenWell(chars[0], Encode(chars[1..]));
      FirstDecodes(Units(chars[0]), Encode(chars[1..]));
      OutputIsValidIff(chars[1..]);
    }
  }

  // ----- what is read, in terms of the input -----

  /** The bytes from a position up to the NUL. */
  function Rest(s: Input, i: nat): seq<Byte>
    requires i < |s.bytes|
  {
    s.bytes[i..|s.bytes| - 1]
  }

  /** mbtowc's answer for a UTF-8 sequence at position i. */
  predicate AnswersFirst(s: Input, i: nat)
    requires i < |s.bytes| == |s.mb|
  {
    var first := DecodeFirst(Rest(s, i));
    first.Some? && s.mb[i] == MbResult(first.value.length, first.value.ch)
  }

  /** mbtowc reads UTF-8 wherever a character of valid text starts; nothing is asked elsewhere. */
  ghost predicate ReadsText(s: Input) {
    ValidInput(s) &&
    forall i: nat :: i < |s.bytes| - 1 && Decode(Rest(s, i)).Some? ==> AnswersFirst(s, i)
  }

  /** UTF-8 is read character by character. */
  lemma {:induction false} TextIsRead(s: Input, walk: nat, chars: seq<WChar>)
    requires ReadsText(s) && walk < |s.bytes| && Decode(Rest(s, walk)) == Some(chars)
    ensures Chars(s, walk) == chars
    decreases |s.bytes| - walk
  {
    var b := Rest(s, walk);
    if walk < |s.bytes| - 1 {
      assert AnswersFirst(s, walk);
      var n := DecodeFirst(b).value.length;
      assert b[n..] == Rest(s, walk + n);
      TextIsRead(s, walk + n, chars[1..]);
    }
  }

  /** A C string that encodes the characters, none of them beyond U+FFFF, with mbtowc reading it as UTF-8. */
  ghost predicate IsText(s: Input, chars: seq<WChar>) {
    ReadsText(s) && s.bytes == Encode(chars) + [0] && forall i :: 0 <= i < |chars| ==> Basic(chars[i])
  }

  /** The characters of a text are what the loop reads. */
  lemma TextRoundTrip(s: Input, chars: seq<WChar>)
    requires IsText(s, chars)
    ensures Chars(s, 0) == chars
  {
    DecodeEncode(chars);
    assert Rest(s, 0) == Encode(chars);
    TextIsRead(s, 0, chars);
  }

  lemma {:induction false} CleanIsBasic(chars: seq<WChar>)
    requires forall i :: 0 <= i < |chars| ==> Basic(chars[i])
    ensures forall i :: 0 <= i < |Clean(chars)| ==> Basic(Clean(chars)[i])
  {
    if chars != [] {
      CleanIsBasic(chars[1..]);
    }
  }

  /** From a text the longest prefix of the cleaned text that fits is kept, and it can be read back. */
  lemma TextIsKept(s: Input, chars: seq<WChar>, kept: seq<WChar>, room: int)
    requires IsText(s, chars) && LongestThatFits(kept, Clean(Chars(s, 0)), room)
    ensures LongestThatFits(kept, Clean(chars), room) && Decode(Encode(kept)) == Some(kept)
  {
    TextRoundTrip(s, chars);
    CleanIsBasic(chars);
    PrefixIsBasic(kept, Clean(chars));
    DecodeEncode(kept);
  }

  /** A byte that mbtowc refuses is read alone, and a signed char is written as it was. */
  lemma RefusedByte(s: Input, walk: nat)
    requires ValidInput(s) && walk < |s.bytes| - 1 && s.mb[walk].ret < 0
    ensures var chars := Chars(s, walk);
      && |chars| > 0 && chars[1..] == Chars(s, walk + 1)
      && (chars[0] & 0xff) as Byte == s.bytes[walk]
      && (s.charIsSigned && s.bytes[walk] >= 0x80 ==> Raw(chars[0]) && Units(chars[0]) == [s.bytes[walk]])
      && (!s.charIsSigned || s.bytes[walk] < 0x80 ==> chars[0] < 0x100)
  {
  }

  /** mbtowc in a UTF-8 locale: it refuses exactly the bytes at which no sequence starts. */
  predicate Utf8Locale(s: Input) {
    ValidInput(s) &&
    forall i: nat :: i < |s.bytes| - 1 ==>
      if DecodeFirst(Rest(s, i)).Some? then AnswersFirst(s, i) else s.mb[i].ret < 0
  }

  /** The sequences of up to three bytes. */
  lemma DecodedShape(b: seq<Byte>)
    requires DecodeFirst(b).Some?
    ensures var d := DecodeFirst(b).value;
      && |b| >= d.length
      && (d.length == 1 ==> b[0] <= 0x7f && d.ch == b[0] as WChar)
      && (d.length == 2 ==>
            0xc2 <= b[0] <= 0xdf && Continuation(b[1]) && d.ch == Assemble2(b[0], b[1]))
      && (d.length == 3 ==>
            0xe0 <= b[0] <= 0xef && Continuation(b[1]) && Continuation(b[2]) && Strict3(b[0], b[1])
            && d.ch == Assemble3(b[0], b[1], b[2]))
  {
  }

  function Assemble2(b0: Byte, b1: Byte): WChar {
    (((b0 & 0x1f) as WChar) << 6) | ((b1 & 0x3f) as WChar)
  }

  lemma UnitsOfDecoded(b: seq<Byte>, d: Decoded)
    requires DecodeFirst(b) == Some(d) && d.length <= 3
    ensures Units(d.ch) == b[..d.length]
  {
    DecodedShape(b);
    if d.length == 1 {
      UnitsOfOne(b[0]);
    } else if d.length == 2 {
      UnitsOfTwo(b[0], b[1]);
    } else {
      UnitsOfThree(b[0], b[1], b[2]);
    }
  }

  lemma UnitsOfOne(b0: Byte)
    requires b0 <= 0x7f
    ensures Units(b0 as WChar) == [b0]
  {
  }

  function TwoBytes(ch: WChar): (b: (Byte, Byte)) {
    ((0xc0 | ((ch >> 6) & 0x1f)) as Byte, (0x80 | (ch & 0x3f)) as Byte)
  }

  lemma Assemble2Range(b0: Byte, b1: Byte)
    requires 0xc2 <= b0 <= 0xdf
    ensures 0x80 <= Assemble2(b0, b1) < 0x800
  {
  }

  lemma Assemble2Bytes(b0: Byte, b1: Byte)
    requires 0xc2 <= b0 <= 0xdf && Continuation(b1)
    ensures TwoBytes(Assemble2(b0, b1)) == (b0, b1)
  {
  }

  lemma UnitsAreTwoBytes(ch: WChar)
    requires 0x80 <= ch < 0x800
    ensures Units(ch) == [TwoBytes(ch).0, TwoBytes(ch).1]
  {
  }

  lemma UnitsOfTwo(b0: Byte, b1: Byte)
    requires 0xc2 <= b0 <= 0xdf && Continuation(b1)
    ensures Units(Assemble2(b0, b1)) == [b0, b1]
  {
    Assemble2Range(b0, b1);
    Assemble2Bytes(b0, b1);
    UnitsAreTwoBytes(Assemble2(b0, b1));
  }

  lemma Assemble3Range(b0: Byte, b1: Byte, b2: Byte)
    requires 0xe0 <= b0 <= 0xef && Continuation(b1) && Strict3(b0, b1)
    ensures 0x800 <= Assemble3(b0, b1, b2) < 0x1_0000
  {
  }

  lemma Assemble3Bytes(b0: Byte, b1: Byte, b2: Byte)
    requires 0xe0 <= b0 <= 0xef && Continuation(b1) && Continuation(b2)
    ensures ThreeBytes(Assemble3(b0, b1, b2)) == (b0, b1, b2)
  {
  }

  lemma UnitsOfThree(b0: Byte, b1: Byte, b2: Byte)
    requires 0xe0 <= b0 <= 0xef && Continuation(b1) && Continuation(b2) && Strict3(b0, b1)
    ensures Units(Assemble3(b0, b1, b2)) == [b0, b1, b2]
  {
    var ch := Assemble3(b0, b1, b2);
    Assemble3Range(b0, b1, b2);
    Assemble3Bytes(b0, b1, b2);
    UnitsAreThreeBytes(ch);
  }

  lemma UnitsAreThreeBytes(ch: WChar)
    requires 0x800 <= ch < 0x1_0000
    ensures Units(ch) == [ThreeBytes(ch).0, ThreeBytes(ch).1, ThreeBytes(ch).2]
  {
  }

  lemma RefusedIsHigh(b: seq<Byte>)
    requires b != [] && DecodeFirst(b) == None
    ensures b[0] >= 0x80
  {
  }

  /** What follows is copied, and so is the front. */
  lemma CopiedInParts(b: seq<Byte>, front: seq<WChar>, rest: seq<WChar>, n: nat)
    requires n <= |b| && Encode(front) == b[..n] && Encode(rest) == b[n..]
    ensures Encode(front + rest) == b
  {
    EncodeInParts(front, rest);
  }

  lemma DecodedIsCopied(s: Input, walk: nat, d: Decoded)
    requires Utf8Locale(s) && walk < |s.bytes| - 1 && DecodeFirst(Rest(s, walk)) == Some(d) && d.length <= 3
    requires Encode(Chars(s, walk + d.length)) == Rest(s, walk + d.length)
    ensures Encode(Chars(s, walk)) == Rest(s, walk)
  {
    var b := Rest(s, walk);
    assert AnswersFirst(s, walk);
    UnitsOfDecoded(b, d);
    EncodeOne(d.ch);
    assert b[d.length..] == Rest(s, walk + d.length);
    CopiedInParts(b, [d.ch], Chars(s, walk + d.length), d.length);
  }

  lemma RefusedIsCopied(s: Input, walk: nat)
    requires Utf8Locale(s) && s.charIsSigned && walk < |s.bytes| - 1 && DecodeFirst(Rest(s, walk)) == None
    requires Encode(Chars(s, walk + 1)) == Rest(s, walk + 1)
    ensures Encode(Chars(s, walk)) == Rest(s, walk)
  {
    var b, chars := Rest(s, walk), Chars(s, walk);
    RefusedIsHigh(b);
    RefusedByte(s, walk);
    EncodeOne(chars[0]);
    assert b[1..] == Rest(s, walk + 1) && b[..1] == [s.bytes[walk]];
    CopiedInParts(b, [chars[0]], chars[1..], 1);
    assert chars == [chars[0]] + chars[1..];
  }

  lemma EndIsCopied(s: Input)
    requires ValidInput(s)
    ensures Encode(Chars(s, |s.bytes| - 1)) == Rest(s, |s.bytes| - 1)
  {
    assert s.bytes[|s.bytes| - 1] == 0;
  }

  lemma LengthIsAnswer(s: Input, walk: nat)
    requires Utf8Locale(s) && walk < |s.bytes| - 1 && DecodeFirst(Rest(s, walk)).Some?
    ensures DecodeFirst(Rest(s, walk)).value.length == s.mb[walk].ret
  {
    assert AnswersFirst(s, walk);
  }

  /** In a UTF-8 locale with a signed char the characters are written as they were read, byte for byte, whether or not
      the input is valid, as long as there is no sequence of four bytes. */
  lemma {:induction false} InputIsCopied(s: Input, walk: nat)
    requires Utf8Locale(s) && s.charIsSigned && walk < |s.bytes|
    requires forall i :: 0 <= i < |s.mb| ==> s.mb[i].ret <= 3
    ensures Encode(Chars(s, walk)) == Rest(s, walk)
    decreases |s.bytes| - walk
  {
    if walk == |s.bytes| - 1 {
      EndIsCopied(s);
    } else {
      var first := DecodeFirst(Rest(s, walk));
      if first.Some? {
        LengthIsAnswer(s, walk);
        InputIsCopied(s, walk + first.value.length);
        DecodedIsCopied(s, walk, first.value);
      } else {
        InputIsCopied(s, walk + 1);
        RefusedIsCopied(s, walk);
      }
    }
  }

  // ----- line ends -----

  /** Cleaning looks at each character alone: a carriage return comes out as nothing, a line feed as a space, and
      everything else as it is. */
  lemma {:induction false} CleanIsByCharacter(p: seq<WChar>, ch: WChar)
    ensures Clean(p + [ch]) == Clean(p) + if ch == 0x0d then [] else if ch == 0x0a then [0x20] else [ch]
  {
    if p == [] {
      assert [] + [ch] == [ch] && [ch][1..] == [];
    } else {
      assert (p + [ch])[1..] == p[1..] + [ch];
      CleanIsByCharacter(p[1..], ch);
    }
  }

  lemma NoLineEndInUnits(ch: WChar)
    requires ch != 0x0a && ch != 0x0d && (Raw(ch) ==> ch & 0xff >= 0x80)
    ensures 0x0a !in Units(ch) && 0x0d !in Units(ch)
  {
    if Below(ch, 0x80) {
      assert (ch & 0xff) as Byte != 0x0a && (ch & 0xff) as Byte != 0x0d;
    }
  }

  /** No line end gets into the output, whatever the characters are, unless a negative one ends in it. */
  lemma {:induction false} NoLineEndIsWritten(chars: seq<WChar>)
    requires forall i :: 0 <= i < |chars| && Raw(chars[i]) ==> chars[i] & 0xff >= 0x80
    ensures 0x0a !in Encode(Clean(chars)) && 0x0d !in Encode(Clean(chars))
  {
    if chars != [] {
      NoLineEndIsWritten(chars[1..]);
      if chars[0] != CR {
        var ch := if chars[0] == LF then SPACE else chars[0];
        NoLineEndInUnits(ch);
        assert Clean(chars)[1..] == Clean(chars[1..]);
      }
    }
  }
}
