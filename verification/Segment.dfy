/** The escaping of encrypted path components (encryption/path.go, encodeSegment and below). */
module Segment {
  import opened Prelude

  const EMPTY_COMPONENT_PREFIX: byte := 1
  const NOT_EMPTY_COMPONENT_PREFIX: byte := 2
  const ESCAPE_SLASH: byte := 46
  const ESCAPE_FF: byte := 254
  const ESCAPE_01: byte := 1

  datatype SegmentError =
    | Empty
    | InvalidPrefix
    | EmptyWithData
    | NotEmptyWithoutData
    | InvalidEscape
    | InvalidCharacter

  predicate IsEscapeByte(b: byte) {
    b == ESCAPE_SLASH || b == ESCAPE_FF || b == ESCAPE_01
  }

  predicate IsDisallowedByte(b: byte) {
    b == 0 || b == 255 || b == 47
  }

  // ---------- specification ----------

  /** The one or two bytes that stand for `b`. */
  function Token(b: byte): (t: Bytes)
    ensures 1 <= |t| <= 2
  {
    if b == 46 || b == 254 then [b, 1]
    else if b == 47 || b == 255 then [(b - 1) as byte, 2]
    else if b == 0 || b == 1 then [1, (b + 1) as byte]
    else [b]
  }

  function Escape(s: Bytes): Bytes {
    if s == [] then [] else Token(s[0]) + Escape(s[1..])
  }

  function Encoded(s: Bytes): Bytes {
    if s == [] then [EMPTY_COMPONENT_PREFIX] else [NOT_EMPTY_COMPONENT_PREFIX] + Escape(s)
  }

  /** Whether `e` starts with a complete token, how long it is and which byte it stands for. */
  predicate StartsWithToken(e: Bytes) {
    e != [] &&
    if IsEscapeByte(e[0]) then |e| >= 2 && (e[1] == 1 || e[1] == 2) else !IsDisallowedByte(e[0])
  }

  function TokenLength(e: Bytes): (n: nat)
    requires StartsWithToken(e)
    ensures 1 <= n <= |e|
  {
    if IsEscapeByte(e[0]) then 2 else 1
  }

  function TokenByte(e: Bytes): (b: byte)
    requires StartsWithToken(e)
    ensures Token(b) == e[..TokenLength(e)]
  {
    if e[0] == ESCAPE_01 then Wrap8(e[1] as int - 1)
    else if IsEscapeByte(e[0]) then Wrap8(e[0] as int + e[1] as int - 1)
    else e[0]
  }

  /** Strings of complete tokens. */
  predicate Tokens(e: Bytes)
    decreases |e|
  {
    e == [] || (StartsWithToken(e) && Tokens(e[TokenLength(e)..]))
  }

  predicate ValidSegment(e: Bytes) {
    e == [EMPTY_COMPONENT_PREFIX] ||
    (|e| >= 2 && e[0] == NOT_EMPTY_COMPONENT_PREFIX && Tokens(e[1..]))
  }

  function Unescape(e: Bytes): Bytes
    requires Tokens(e)
    decreases |e|
  {
    if e == [] then [] else [TokenByte(e)] + Unescape(e[TokenLength(e)..])
  }

  function Decoded(e: Bytes): Bytes
    requires ValidSegment(e)
  {
    if e == [EMPTY_COMPONENT_PREFIX] then [] else Unescape(e[1..])
  }

  // ---------- the code is a bijection onto the valid segments ----------

  lemma TokenStarts(b: byte, rest: Bytes)
    ensures StartsWithToken(Token(b) + rest)
    ensures TokenLength(Token(b) + rest) == |Token(b)| && TokenByte(Token(b) + rest) == b
  {
    var e := Token(b) + rest;
    assert e[0] == Token(b)[0] && (|Token(b)| == 2 ==> e[1] == Token(b)[1]);
  }

  lemma {:induction false} UnescapeEscape(s: Bytes)
    ensures Tokens(Escape(s)) && Unescape(Escape(s)) == s
  {
    if s != [] {
      UnescapeEscape(s[1..]);
      TokenStarts(s[0], Escape(s[1..]));
      assert Escape(s)[|Token(s[0])|..] == Escape(s[1..]);
    }
  }

  lemma {:induction false} EscapeUnescape(e: Bytes)
    requires Tokens(e)
    ensures Escape(Unescape(e)) == e
    decreases |e|
  {
    if e != [] {
      var rest := e[TokenLength(e)..];
      EscapeUnescape(rest);
      assert Unescape(e)[1..] == Unescape(rest);
      assert e == e[..TokenLength(e)] + rest;
    }
  }

  /** Encoding is one-to-one onto the valid segments, and decoding is its inverse both ways. */
  lemma DecodedEncoded(s: Bytes)
    ensures ValidSegment(Encoded(s)) && Decoded(Encoded(s)) == s
  {
    UnescapeEscape(s);
    if s != [] {
      assert Encoded(s)[1..] == Escape(s) && Escape(s) != [];
    }
  }

  lemma EncodedDecoded(e: Bytes)
    requires ValidSegment(e)
    ensures Encoded(Decoded(e)) == e
  {
    if e != [EMPTY_COMPONENT_PREFIX] {
      EscapeUnescape(e[1..]);
      assert Unescape(e[1..]) != [];
      assert e == [e[0]] + e[1..];
    }
  }

  // ---------- order ----------

  lemma TokenOrder(a: byte, b: byte, x: Bytes, y: Bytes)
    requires a < b
    ensures Less(Token(a) + x, Token(b) + y)
  {
    var s, t := Token(a) + x, Token(b) + y;
    assert s[0] == Token(a)[0] && t[0] == Token(b)[0];
    if s[0] == t[0] {
      assert s[1..][0] == Token(a)[1] && t[1..][0] == Token(b)[1];
    }
  }

  lemma {:induction false} EscapeMonotone(s: Bytes, t: Bytes)
    requires Less(s, t)
    ensures Less(Escape(s), Escape(t))
  {
    if s != [] {
      if s[0] == t[0] {
        EscapeMonotone(s[1..], t[1..]);
        LessAfterCommonPrefix(Token(s[0]), Escape(s[1..]), Escape(t[1..]));
      } else {
        TokenOrder(s[0], t[0], Escape(s[1..]), Escape(t[1..]));
      }
    }
  }

  lemma EncodedMonotone(s: Bytes, t: Bytes)
    requires Less(s, t)
    ensures Less(Encoded(s), Encoded(t))
  {
    if s != [] {
      EscapeMonotone(s, t);
      LessAfterCommonPrefix([NOT_EMPTY_COMPONENT_PREFIX], Escape(s), Escape(t));
    }
  }

  /** Encoded segments sort exactly as the segments they encode. */
  lemma EncodingPreservesOrder(s: Bytes, t: Bytes)
    ensures Less(s, t) <==> Less(Encoded(s), Encoded(t))
  {
    LessTotal(s, t);
    if Less(s, t) {
      EncodedMonotone(s, t);
    } else if Less(t, s) {
      EncodedMonotone(t, s);
      LessAsymmetric(Encoded(t), Encoded(s));
    } else {
      LessIrreflexive(Encoded(s));
    }
  }

  // ---------- what encoded segments contain ----------

  lemma {:induction false} EscapeBytes(s: Bytes)
    ensures 47 !in Escape(s) && 0 !in Escape(s) && 255 !in Escape(s)
    ensures |s| <= |Escape(s)| <= 2 * |s|
  {
    if s != [] {
      EscapeBytes(s[1..]);
    }
  }

  /** No slash, so an encoded segment is one path component; no 0x00 and no 0xff; never empty and at
      most one more than twice as long. */
  lemma EncodedBytes(s: Bytes)
    ensures 47 !in Encoded(s) && 0 !in Encoded(s) && 255 !in Encoded(s)
    ensures 1 <= |Encoded(s)| <= 2 * |s| + 1
  {
    EscapeBytes(s);
  }

  /** The bytes of the encoding of one byte: a mark, and the byte as it is, but for the six that are
      escaped. */
  lemma EncodingTable(b: byte)
    ensures Encoded([]) == [0x01]
    ensures Encoded([b]) ==
            if b == 0x2e then [0x02, 0x2e, 0x01]
            else if b == 0x2f then [0x02, 0x2e, 0x02]
            else if b == 0xfe then [0x02, 0xfe, 0x01]
            else if b == 0xff then [0x02, 0xfe, 0x02]
            else if b == 0x00 then [0x02, 0x01, 0x01]
            else if b == 0x01 then [0x02, 0x01, 0x02]
            else [0x02, b]
  {
    EscapeOne(b);
    hide Escape;
  }

  lemma EscapeOne(b: byte)
    ensures Escape([b]) == Token(b)
  {
    var one: Bytes := [b];
    assert one[1..] == [] && Escape(one) == Token(b) + Escape([]);
  }

  /** The encodings of two parts follow each other behind one mark. */
  lemma EncodingJoins(s: Bytes, t: Bytes)
    requires s != [] && t != []
    ensures Encoded(s + t) == Encoded(s) + Encoded(t)[1..]
  {
    EscapeJoin(s, t);
    hide Escape;
  }

  lemma {:induction false} EscapeJoin(s: Bytes, t: Bytes)
    ensures Escape(s + t) == Escape(s) + Escape(t)
  {
    if s == [] {
      assert s + t == t;
    } else {
      assert (s + t)[1..] == s[1..] + t;
      EscapeJoin(s[1..], t);
    }
  }

  /** Without special bytes, only the mark is added. */
  lemma PlainEncoding(s: Bytes)
    requires s != [] && forall i :: 0 <= i < |s| ==> s[i] !in {0x2e, 0x2f, 0xfe, 0xff, 0x00, 0x01}
    ensures Encoded(s) == [0x02] + s
  {
    EscapePlain(s);
    hide Escape;
  }

  lemma {:induction false} EscapePlain(s: Bytes)
    requires forall i :: 0 <= i < |s| ==> s[i] !in {0x2e, 0x2f, 0xfe, 0xff, 0x00, 0x01}
    ensures Escape(s) == s
  {
    if s != [] {
      EscapePlain(s[1..]);
      assert Token(s[0]) == [s[0]];
      assert s == [s[0]] + s[1..];
    }
  }

  // ---------- the code ----------

  lemma EscapeAppend(s: Bytes, b: byte)
    ensures Escape(s + [b]) == Escape(s) + Token(b)
  {
    EscapeJoin(s, [b]);
    EscapeOne(b);
  }

  method EncodeSegment(segment: Bytes) returns (result: Bytes)
    ensures result == Encoded(segment)
  {
    if |segment| == 0 {
      return [EMPTY_COMPONENT_PREFIX];
    }
    result := [NOT_EMPTY_COMPONENT_PREFIX];
    EscapeNothing();
    hide Escape;
    for i := 0 to |segment|
      invariant result == [NOT_EMPTY_COMPONENT_PREFIX] + Escape(segment[..i])
    {
      var b := segment[i];
      EscapeAppend(segment[..i], b);
      assert segment[..i + 1] == segment[..i] + [b];
      ghost var before := result;
      ConcatAssociative([NOT_EMPTY_COMPONENT_PREFIX], Escape(segment[..i]), Token(b));
      if b == ESCAPE_SLASH {
        result := result + [ESCAPE_SLASH, 1];
      } else if b == ESCAPE_SLASH + 1 {
        result := result + [ESCAPE_SLASH, 2];
      } else if b == ESCAPE_FF {
        result := result + [ESCAPE_FF, 1];
      } else if b == ESCAPE_FF + 1 {
        result := result + [ESCAPE_FF, 2];
      } else if b == ESCAPE_01 - 1 {
        result := result + [ESCAPE_01, 1];
      } else if b == ESCAPE_01 {
        result := result + [ESCAPE_01, 2];
      } else {
        result := result + [b];
      }
      assert result == before + Token(b);
    }
    assert segment[..|segment|] == segment;
  }

  method ValidateEncodedSegment(segment: Bytes) returns (err: Option<SegmentError>)
    ensures err.None? <==> ValidSegment(segment)
  {
    if |segment| == 0 {
      return Some(Empty);
    } else if segment[0] != EMPTY_COMPONENT_PREFIX && segment[0] != NOT_EMPTY_COMPONENT_PREFIX {
      return Some(InvalidPrefix);
    } else if segment[0] == EMPTY_COMPONENT_PREFIX && |segment| > 1 {
      return Some(EmptyWithData);
    } else if segment[0] == NOT_EMPTY_COMPONENT_PREFIX && |segment| == 1 {
      return Some(NotEmptyWithoutData);
    }
    if |segment| == 1 {
      return None;
    }
    var index := 1;
    while index < |segment| - 1
      invariant 1 <= index <= |segment|
      invariant Tokens(segment[1..]) <==> Tokens(segment[index..])
    {
      ghost var tail := segment[index..];
      assert tail[0] == segment[index] && tail[1] == segment[index + 1];
      assert tail[1..] == segment[index + 1..] && tail[2..] == segment[index + 2..];
      if IsEscapeByte(segment[index]) {
        if segment[index + 1] == 1 || segment[index + 1] == 2 {
          index := index + 2;
          continue;
        }
        return Some(InvalidEscape);
      }
      if IsDisallowedByte(segment[index]) {
        return Some(InvalidCharacter);
      }
      index := index + 1;
    }
    assert index < |segment| ==> segment[index..] == [segment[index]];
    if index == |segment| - 1 {
      if IsEscapeByte(segment[index]) {
        return Some(InvalidEscape);
      }
      if IsDisallowedByte(segment[index]) {
        return Some(InvalidCharacter);
      }
    }
    return None;
  }

  lemma UnescapeStep(done: Bytes, e: Bytes, i: nat)
    requires i < |e| && Tokens(e[i..])
    ensures StartsWithToken(e[i..])
    ensures var next := i + TokenLength(e[i..]);
            i < next <= |e| && Tokens(e[next..]) &&
            done + Unescape(e[i..]) == done + [TokenByte(e[i..])] + Unescape(e[next..])
  {
    var next := i + TokenLength(e[i..]);
    assert e[i..][TokenLength(e[i..])..] == e[next..];
    ConcatAssociative(done, [TokenByte(e[i..])], Unescape(e[next..]));
  }

  /** The `switch` of decodeSegment's loop: the byte that the token at position `i` stands for, and
      the position after it. */
  method DecodeToken(segment: array<byte>, i: nat) returns (decoded: byte, next: nat)
    requires i < segment.Length && StartsWithToken(segment[i..])
    ensures next == i + TokenLength(segment[i..]) && decoded == TokenByte(segment[i..])
  {
    ghost var tail := segment[i..];
    assert tail[0] == segment[i] && (|tail| > 1 ==> tail[1] == segment[i + 1]);
    if i == segment.Length - 1 {
      return segment[i], i + 1;
    } else if segment[i] == ESCAPE_SLASH || segment[i] == ESCAPE_FF {
      return Wrap8(Wrap8(segment[i] as int + segment[i + 1] as int) as int - 1), i + 2;
    } else if segment[i] == ESCAPE_01 {
      return Wrap8(segment[i + 1] as int - 1), i + 2;
    } else {
      return segment[i], i + 1;
    }
  }

  lemma UnescapeNothing()
    ensures Tokens([]) && Unescape([]) == []
  {
  }

  lemma EscapeNothing()
    ensures Escape([]) == []
  {
  }

  lemma Written(before: Bytes, at: nat, b: byte, next: nat)
    requires at < next <= |before|
    ensures before[at := b][next..] == before[next..] && before[at := b][..at + 1] == before[..at] + [b]
  {
  }

  lemma SameTail(a: Bytes, b: Bytes, i: nat, j: nat)
    requires i <= j <= |a| == |b| && a[i..] == b[i..]
    ensures a[j..] == b[j..]
  {
    assert a[j..] == a[i..][j - i..] && b[j..] == b[i..][j - i..];
  }

  /** Decodes in place: on success the decoded bytes are the first `value` bytes of the buffer. */
  method DecodeSegment(segment: array<byte>) returns (r: Result<nat, SegmentError>)
    modifies segment
    ensures r.Ok? <==> ValidSegment(old(segment[..]))
    ensures r.Ok? ==> r.value <= segment.Length && segment[..r.value] == Decoded(old(segment[..]))
    ensures r.Err? ==> segment[..] == old(segment[..])
  {
    ghost var e := segment[..];
    var err := ValidateEncodedSegment(segment[..]);
    if err.Some? {
      return Err(err.value);
    }
    if segment[0] == EMPTY_COMPONENT_PREFIX {
      return Ok(0);
    }
    hide Unescape, Tokens;
    var n := DecodeTokens(segment);
    return Ok(n);
  }

  /** The loop: the token at i is decoded to the front, which is always before i. */
  method DecodeTokens(segment: array<byte>) returns (currentIndex: nat)
    requires segment.Length >= 1 && Tokens(segment[1..])
    modifies segment
    ensures currentIndex <= segment.Length && segment[..currentIndex] == Unescape(old(segment[1..]))
  {
    hide Unescape, Tokens, TokenLength, TokenByte, StartsWithToken;
    ghost var e := segment[..];
    assert e[1..] == segment[1..];
    currentIndex := 0;
    var i := 1;
    ghost var done: Bytes := [];
    assert done + Unescape(e[1..]) == Unescape(e[1..]);
    while i < segment.Length
      invariant 1 <= i <= segment.Length == |e|
      invariant currentIndex < i && Decoding(segment[..], e, i, currentIndex, done)
      invariant Tokens(e[i..]) && done + Unescape(e[i..]) == Unescape(e[1..])
    {
      UnescapeStep(done, e, i);
      assert segment[i..] == segment[..][i..];
      var b, next := DecodeToken(segment, i);
      ghost var before := segment[..];
      segment[currentIndex] := b;
      assert segment[..] == before[currentIndex := b];
      DecodingStep(before, e, i, currentIndex, done, b, next);
      currentIndex, i := currentIndex + 1, next;
      done := done + [b];
    }
    assert e[i..] == [] && done + [] == done;
    UnescapeNothing();
    assert segment[..currentIndex] == segment[..][..currentIndex];
  }

  /** What is before the writing position is decoded, and what is from the reading position on is untouched. */
  ghost predicate Decoding(now: Bytes, e: Bytes, i: nat, at: nat, done: Bytes) {
    at <= i <= |now| == |e| && now[i..] == e[i..] && now[..at] == done
  }

  lemma DecodingStep(before: Bytes, e: Bytes, i: nat, at: nat, done: Bytes, b: byte, next: nat)
    requires Decoding(before, e, i, at, done) && at < i < next <= |e|
    ensures Decoding(before[at := b], e, next, at + 1, done + [b])
  {
    SameTail(before, e, i, next);
    Written(before, at, b, next);
  }
}
