/**
  The strict UTF-8 validator, against well-formedness stated on Unicode scalar values (sections 3
  and 4 of RFC 3629).
  */
module Utf8 {
  import opened Words
  import opened Types

  // ---------- Well-formed text ----------

  type Scalar = v: int | 0 <= v <= 0x10_FFFF && !(0xD800 <= v <= 0xDFFF)

  // The encoding of one scalar value: its bits, spread over one to four bytes.
  function EncodeScalar(v: Scalar): (r: Bytes)
    ensures 1 <= |r| <= 4
  {
    if v < 0x80 then [v]
    else if v < 0x800 then [0xC0 + v / 64, 0x80 + v % 64]
    else if v < 0x1_0000 then [0xE0 + v / 4096, 0x80 + v / 64 % 64, 0x80 + v % 64]
    else [0xF0 + v / 0x4_0000, 0x80 + v / 4096 % 64, 0x80 + v / 64 % 64, 0x80 + v % 64]
  }

  function Text(vs: seq<Scalar>): (r: Bytes) {
    Flatten(EncodeScalar, vs)
  }

  ghost predicate WellFormed(bs: Bytes) {
    exists vs: seq<Scalar> :: Text(vs) == bs
  }

  // ---------- The byte patterns the validator looks for ----------

  // (value & 0xc0) == 0x80: the two top bits are 10.
  predicate Continuation(b: byte) {
    b / 64 == 2
  }

  predicate Second3(first: byte, second: byte) {
    || (first == 0xE0 && 0xA0 <= second <= 0xBF)
    || (first == 0xED && 0x80 <= second <= 0x9F)
    || ((0xE1 <= first <= 0xEC || 0xEE <= first <= 0xEF) && 0x80 <= second <= 0xBF)
  }

  predicate Second4(first: byte, second: byte) {
    || (first == 0xF0 && 0x90 <= second <= 0xBF)
    || (first == 0xF4 && 0x80 <= second <= 0x8F)
    || (0xF1 <= first <= 0xF3 && 0x80 <= second <= 0xBF)
  }

  // The length of the byte pattern at the start of s; zero when there is none.
  function PatternLength(s: Bytes): (k: nat)
    ensures k <= |s|
  {
    if |s| >= 1 && s[0] <= 0x7F then 1
    else if |s| >= 2 && 0xC2 <= s[0] <= 0xDF && Continuation(s[1]) then 2
    else if |s| >= 3 && Second3(s[0], s[1]) && Continuation(s[2]) then 3
    else if |s| >= 4 && Second4(s[0], s[1]) && Continuation(s[2]) && Continuation(s[3]) then 4
    else 0
  }

  // ---------- Patterns are exactly the scalar encodings ----------

  lemma TwoBytes(a: byte, b: byte) returns (v: Scalar)
    requires 0xC2 <= a <= 0xDF && Continuation(b)
    ensures EncodeScalar(v) == [a, b]
  {
    v := (a - 0xC0) * 64 + (b - 0x80);
  }

  lemma ThreeBytes(a: byte, b: byte, c: byte) returns (v: Scalar)
    requires Second3(a, b) && Continuation(c)
    ensures EncodeScalar(v) == [a, b, c]
  {
    var high := (a - 0xE0) * 64 + (b - 0x80);
    assert high / 64 == a - 0xE0 && high % 64 == b - 0x80;
    v := high * 64 + (c - 0x80);
    assert v / 64 == high && v % 64 == c - 0x80 && v / 4096 == high / 64;
  }

  lemma FourBytes(a: byte, b: byte, c: byte, d: byte) returns (v: Scalar)
    requires Second4(a, b) && Continuation(c) && Continuation(d)
    ensures EncodeScalar(v) == [a, b, c, d]
  {
    var top := (a - 0xF0) * 64 + (b - 0x80);
    assert top / 64 == a - 0xF0 && top % 64 == b - 0x80;
    var high := top * 64 + (c - 0x80);
    assert high / 64 == top && high % 64 == c - 0x80;
    v := high * 64 + (d - 0x80);
    assert v / 64 == high && v % 64 == d - 0x80 && v / 4096 == top && v / 0x4_0000 == top / 64;
  }

  /** Every pattern is the encoding of a scalar value. */
  lemma PatternIsScalar(s: Bytes) returns (v: Scalar)
    requires PatternLength(s) > 0
    ensures EncodeScalar(v) == s[..PatternLength(s)]
  {
    match PatternLength(s)
    case 1 => v := s[0];
    case 2 => v := TwoBytes(s[0], s[1]);
    case 3 => v := ThreeBytes(s[0], s[1], s[2]);
    case _ => v := FourBytes(s[0], s[1], s[2], s[3]);
  }

  lemma ThreeByteShape(v: Scalar)
    requires 0x800 <= v < 0x1_0000
    ensures Second3(0xE0 + v / 4096, 0x80 + v / 64 % 64) && Continuation(0x80 + v % 64)
  {
    var high := v / 64;
    var top := high / 64;
    assert v / 4096 == top && high == 64 * top + high % 64;
  }

  lemma FourByteShape(v: Scalar)
    requires 0x1_0000 <= v
    ensures Second4(0xF0 + v / 0x4_0000, 0x80 + v / 4096 % 64)
    ensures Continuation(0x80 + v / 64 % 64) && Continuation(0x80 + v % 64)
  {
    var high := v / 4096;
    var top := high / 64;
    assert v / 0x4_0000 == top && high == 64 * top + high % 64;
  }

  lemma EncodingShape(v: Scalar)
    ensures var e := EncodeScalar(v);
            match |e|
            case 1 => e[0] <= 0x7F
            case 2 => 0xC2 <= e[0] <= 0xDF && Continuation(e[1])
            case 3 => Second3(e[0], e[1]) && Continuation(e[2])
            case _ => Second4(e[0], e[1]) && Continuation(e[2]) && Continuation(e[3])
  {
    if 0x800 <= v < 0x1_0000 {
      ThreeByteShape(v);
      hide Second3, Continuation;
    } else if 0x1_0000 <= v {
      FourByteShape(v);
      hide Second4, Continuation;
    }
  }

  /** Every scalar encoding is found as a pattern, of its own length, whatever follows. */
  lemma ScalarIsPattern(v: Scalar, s: Bytes)
    requires EncodeScalar(v) <= s
    ensures PatternLength(s) == |EncodeScalar(v)|
  {
    hide EncodeScalar;
    EncodingShape(v);
    var e := EncodeScalar(v);
    assert forall i :: 0 <= i < |e| ==> s[i] == e[i];
  }

  // The number spelled by the payload bits of one to four bytes.
  function PayloadBits(e: Bytes): (v: int)
    requires 1 <= |e| <= 4
  {
    match |e|
    case 1 => e[0]
    case 2 => (e[0] as int - 0xC0) * 64 + (e[1] as int - 0x80)
    case 3 => ((e[0] as int - 0xE0) * 64 + (e[1] as int - 0x80)) * 64 + (e[2] as int - 0x80)
    case _ =>
      (((e[0] as int - 0xF0) * 64 + (e[1] as int - 0x80)) * 64 + (e[2] as int - 0x80)) * 64 + (e[3] as int - 0x80)
  }

  lemma EncodingKeepsBits(v: Scalar)
    ensures PayloadBits(EncodeScalar(v)) == v
  {
    var high := v / 64;
    var top := high / 64;
    assert v == high * 64 + v % 64 && high == top * 64 + high % 64;
    assert v / 4096 == top && v / 0x4_0000 == top / 64;
  }

  lemma ScalarInjective(v: Scalar, w: Scalar)
    requires EncodeScalar(v) == EncodeScalar(w)
    ensures v == w
  {
    EncodingKeepsBits(v);
    EncodingKeepsBits(w);
  }

  // Scalar encodings are prefix-free.
  lemma SameFirstScalar(v: Scalar, w: Scalar, s: Bytes)
    requires EncodeScalar(v) <= s && EncodeScalar(w) <= s
    ensures v == w
  {
    ScalarIsPattern(v, s);
    ScalarIsPattern(w, s);
    ScalarInjective(v, w);
  }

  // ---------- Text ----------

  /** Removing well-formed text from the front of well-formed text leaves the text of the other scalars. */
  lemma {:induction false} RemovePrefix(vs: seq<Scalar>, rest: Bytes, ws: seq<Scalar>)
    requires Text(vs) + rest == Text(ws)
    ensures vs <= ws && rest == Text(ws[|vs|..])
  {
    hide EncodeScalar;
    if vs == [] {
      assert Text(vs) + rest == rest;
    } else {
      var e, tail := EncodeScalar(vs[0]), Text(vs[1..]) + rest;
      assert e + tail == Text(ws);
      assert ws != [];
      var f, tail' := EncodeScalar(ws[0]), Text(ws[1..]);
      assert e <= e + tail && f <= f + tail';
      SameFirstScalar(vs[0], ws[0], e + tail);
      assert tail == (e + tail)[|e|..] == tail';
      RemovePrefix(vs[1..], rest, ws[1..]);
      assert ws[1..][|vs[1..]|..] == ws[|vs|..];
    }
  }

  /** A text spells only one sequence of scalar values. */
  lemma TextInjective(vs: seq<Scalar>, ws: seq<Scalar>)
    requires Text(vs) == Text(ws)
    ensures vs == ws
  {
    assert Text(vs) + [] == Text(ws) && Text(ws) + [] == Text(vs);
    RemovePrefix(vs, [], ws);
    RemovePrefix(ws, [], vs);
  }

  /** Well-formedness is closed under concatenation, and a well-formed prefix can be removed. */
  lemma WellFormedConcat(a: Bytes, b: Bytes)
    requires WellFormed(a)
    ensures WellFormed(a + b) <==> WellFormed(b)
  {
    var vs: seq<Scalar> :| Text(vs) == a;
    if WellFormed(b) {
      var ws: seq<Scalar> :| Text(ws) == b;
      FlattenAppend(EncodeScalar, vs, ws);
      assert Text(vs + ws) == a + b;
    }
    if WellFormed(a + b) {
      var ws: seq<Scalar> :| Text(ws) == a + b;
      RemovePrefix(vs, b, ws);
    }
  }

  // ---------- The validator ----------

  // The validator looks up to three bytes ahead of its index; beyond this size that sum may wrap.
  const MAX_TEXT: Size := SIZE_MAX - 2

  // One more pattern extends the text read so far.
  lemma Advance(bytes: Bytes, index: nat)
    requires index < |bytes| && WellFormed(bytes[..index]) && PatternLength(bytes[index..]) > 0
    ensures WellFormed(bytes[..index + PatternLength(bytes[index..])])
  {
    hide EncodeScalar, PatternLength;
    var k := PatternLength(bytes[index..]);
    var v := PatternIsScalar(bytes[index..]);
    var vs: seq<Scalar> :| Text(vs) == bytes[..index];
    FlattenSnoc(EncodeScalar, vs, v);
    assert bytes[..index + k] == bytes[..index] + bytes[index..][..k];
    assert Text(vs + [v]) == bytes[..index + k];
  }

  // Without a pattern, no continuation can be well-formed.
  lemma Stuck(bytes: Bytes, index: nat)
    requires index < |bytes| && WellFormed(bytes[..index]) && PatternLength(bytes[index..]) == 0
    ensures !WellFormed(bytes)
  {
    hide EncodeScalar, PatternLength;
    var rest := bytes[index..];
    assert bytes[..index] + rest == bytes;
    WellFormedConcat(bytes[..index], rest);
    if WellFormed(rest) {
      var ws: seq<Scalar> :| Text(ws) == rest;
      assert EncodeScalar(ws[0]) <= rest;
      ScalarIsPattern(ws[0], rest);
    }
  }

  // How far beyond its index the validator looks after this first byte.
  function LookAhead(first: byte): (n: nat)
    ensures n <= 3
  {
    if 0xC2 <= first <= 0xDF then 1
    else if 0xE0 <= first <= 0xEF then 2
    else if 0xF0 <= first <= 0xF4 then 3
    else 0
  }

  // The sum of index and look-ahead wraps at the start of some character.
  ghost predicate Wraps(bytes: Bytes) {
    exists i :: 0 <= i < |bytes| && WrapsAt(bytes, i)
  }

  ghost predicate WrapsAt(bytes: Bytes, i: nat)
    requires i < |bytes|
  {
    WellFormed(bytes[..i]) && i + LookAhead(bytes[i]) > SIZE_MAX
  }

  lemma {:induction false} ZerosAreText(n: nat)
    ensures WellFormed(seq(n, _ => 0))
  {
    var zeros: Bytes := seq(n, _ => 0);
    if n == 0 {
      assert Text([]) == zeros;
    } else {
      var fewer: Bytes := seq(n - 1, _ => 0);
      ZerosAreText(n - 1);
      var vs: seq<Scalar> :| Text(vs) == fewer;
      FlattenSnoc(EncodeScalar, vs, 0);
      assert EncodeScalar(0) == [0];
      assert fewer + [0] == zeros;
      assert Text(vs + [0]) == zeros;
    }
  }

  /** Every size above `MAX_TEXT` has a span on which the sum wraps, and no smaller size has one. */
  lemma WrapsExactly(size: Size)
    ensures size > MAX_TEXT <==> exists bytes: Bytes :: |bytes| == size && Wraps(bytes)
  {
    if size > MAX_TEXT {
      var text: Bytes := seq(MAX_TEXT, _ => 0);
      var bytes := text + [0xF0] + seq(size - MAX_TEXT - 1, _ => 0);
      ZerosAreText(MAX_TEXT);
      assert bytes[..MAX_TEXT] == text;
      assert WrapsAt(bytes, MAX_TEXT);
      assert |bytes| == size && Wraps(bytes);
    }
  }

  /**
    The validator accepts exactly the concatenations of scalar encodings, except when its look-ahead
    wraps: then bytes outside the span decide, and the answer may be anything. That takes a span of
    more than `MAX_TEXT` bytes.
    */
  method ValidUtf8(bytes: Bytes) returns (valid: bool)
    requires |bytes| <= SIZE_MAX
    ensures !Wraps(bytes) ==> (valid <==> WellFormed(bytes))
    ensures |bytes| <= MAX_TEXT ==> (valid <==> WellFormed(bytes))
  {
    hide WellFormed, PatternLength, LookAhead;
    var index: Size := 0;
    NoText(bytes);
    while index < |bytes|
      invariant index <= |bytes|
      invariant WellFormed(bytes[..index])
    {
      if index + LookAhead(bytes[index]) > SIZE_MAX {
        assert WrapsAt(bytes, index);
        valid := *;
        return;
      }
      var k := MatchAt(bytes, index);
      if k == 0 {
        Stuck(bytes, index);
        return false;
      }
      Advance(bytes, index);
      index := Plus(index, k);
    }
    assert bytes[..index] == bytes;
    return true;
  }

  lemma NoText(bytes: Bytes)
    ensures WellFormed(bytes[..0])
  {
    assert Text([]) == bytes[..0];
  }

  // The body of the validator's loop: how far the index advances, zero for rejection.
  method MatchAt(bytes: Bytes, index: Size) returns (k: nat)
    requires index < |bytes| && index + LookAhead(bytes[index]) <= SIZE_MAX
    ensures k == PatternLength(bytes[index..])
  {
    var first := bytes[index];
    if first <= 0x7F {
      return 1;
    }
    if first >= 0xC2 && first <= 0xDF {
      if Plus(index, 1) >= |bytes| || !Continuation(bytes[index + 1]) {
        return 0;
      }
      return 2;
    }
    if first >= 0xE0 && first <= 0xEF {
      if Plus(index, 2) >= |bytes| {
        return 0;
      }
      if !Second3(first, bytes[index + 1]) || !Continuation(bytes[index + 2]) {
        return 0;
      }
      return 3;
    }
    if first >= 0xF0 && first <= 0xF4 {
      if Plus(index, 3) >= |bytes| {
        return 0;
      }
      if !Second4(first, bytes[index + 1]) || !Continuation(bytes[index + 2]) || !Continuation(bytes[index + 3]) {
        return 0;
      }
      return 4;
    }
    return 0;
  }

  // ---------- The bounded text codec ----------

  // Encoding and decoding text copy the bytes after the same two checks.
  method CheckText(limit: Size, bytes: Bytes) returns (r: Result<Bytes>)
    requires |bytes| <= SIZE_MAX
    ensures !Wraps(bytes) || |bytes| <= MAX_TEXT ==> (r.Ok? <==> |bytes| <= limit && WellFormed(bytes))
    ensures r.Ok? ==> r.value == bytes && |bytes| <= limit
    ensures r.Err? ==> r.error == if |bytes| > limit then LimitExceeded else InvalidUtf8
  {
    if |bytes| > limit {
      return Err(LimitExceeded);
    }
    var valid := ValidUtf8(bytes);
    if !valid {
      return Err(InvalidUtf8);
    }
    return Ok(bytes);
  }
}
