/**
  Bytes, fixed-width unsigned integers, the platform's `size_t`, and big-endian integers.

  `SIZE_MAX` is deliberately left unspecified beyond being at least 32 bits wide: everything proved
  in this project holds on every such platform.
  */
module Words {

  type byte = b: int | 0 <= b < 0x100
  type Bytes = seq<byte>

  type u16 = v: int | 0 <= v < 0x1_0000
  type u32 = v: int | 0 <= v < 0x1_0000_0000
  type u64 = v: int | 0 <= v < 0x1_0000_0000_0000_0000

  const U16_MAX: u16 := 0xFFFF
  const U32_MAX: u32 := 0xFFFF_FFFF

  type WordLimit = n: int | U32_MAX <= n witness U32_MAX
  const SIZE_MAX: WordLimit
  type Size = n: int | 0 <= n <= SIZE_MAX

  // Unsigned arithmetic on `size_t`. The preconditions make the absence of wrap-around a proof
  // obligation wherever the source adds or subtracts sizes.
  function Plus(a: Size, b: Size): (r: Size)
    requires a + b <= SIZE_MAX
  {
    a + b
  }

  function Minus(a: Size, b: Size): (r: Size)
    requires b <= a
  {
    a - b
  }

  // `static_cast<std::uint16_t>` and `static_cast<std::uint32_t>` keep only the low bits.
  function Narrow16(v: nat): (r: u16) {
    v % 0x1_0000
  }

  function Narrow32(v: nat): (r: u32) {
    v % 0x1_0000_0000
  }

  function Min(a: int, b: int): (r: int) {
    if a <= b then a else b
  }

  lemma SliceOfSlice(s: Bytes, lo: nat, hi: nat, a: nat, b: nat)
    requires a <= b && lo + b <= hi <= |s|
    ensures s[lo..hi][a..b] == s[lo + a..lo + b]
  {
    assert forall i | 0 <= i < b - a :: s[lo..hi][a..b][i] == s[lo + a..lo + b][i];
  }

  lemma Reassociate<T>(a: seq<T>, b: seq<T>, c: seq<T>)
    ensures (a + b) + c == a + (b + c)
  {
  }

  lemma JoinSlices(s: Bytes, a: nat, b: nat, c: nat)
    requires a <= b <= c <= |s|
    ensures s[a..b] + s[b..c] == s[a..c]
  {
  }

  lemma SplitSlice(s: Bytes, lo: nat, hi: nat, first: Bytes, rest: Bytes)
    requires lo <= hi <= |s| && s[lo..hi] == first + rest
    ensures s[lo..lo + |first|] == first && s[lo + |first|..hi] == rest
  {
    SliceOfSlice(s, lo, hi, 0, |first|);
    SliceOfSlice(s, lo, hi, |first|, hi - lo);
  }

  // The concatenation of the images of xs.
  function Flatten<T>(image: T -> Bytes, xs: seq<T>): (r: Bytes) {
    if xs == [] then [] else image(xs[0]) + Flatten(image, xs[1..])
  }

  lemma FlattenFirst<T>(image: T -> Bytes, xs: seq<T>)
    requires xs != []
    ensures Flatten(image, xs) == image(xs[0]) + Flatten(image, xs[1..])
  {
  }

  lemma {:induction false} FlattenAppend<T>(image: T -> Bytes, xs: seq<T>, ys: seq<T>)
    ensures Flatten(image, xs + ys) == Flatten(image, xs) + Flatten(image, ys)
  {
    if xs == [] {
      assert xs + ys == ys;
      assert [] + Flatten(image, ys) == Flatten(image, ys);
    } else {
      FlattenAppend(image, xs[1..], ys);
      FlattenFirst(image, xs);
      FlattenFirst(image, xs + ys);
      hide Flatten;
      assert (xs + ys)[1..] == xs[1..] + ys;
      Reassociate(image(xs[0]), Flatten(image, xs[1..]), Flatten(image, ys));
    }
  }

  lemma FlattenSnoc<T>(image: T -> Bytes, xs: seq<T>, y: T)
    ensures Flatten(image, xs + [y]) == Flatten(image, xs) + image(y)
  {
    FlattenAppend(image, xs, [y]);
    assert Flatten(image, [y]) == image(y) + Flatten(image, []);
  }

  // 256 to the power n: the number of values of an n-byte unsigned integer.
  function Pow256(n: nat): (r: nat)
    ensures r > 0
  {
    if n == 0 then 1 else 256 * Pow256(n - 1)
  }

  lemma Pow256Values()
    ensures Pow256(1) == 0x100
    ensures Pow256(2) == 0x1_0000
    ensures Pow256(4) == 0x1_0000_0000
    ensures Pow256(8) == 0x1_0000_0000_0000_0000
  {
  }

  // The low `width` bytes of v, most significant byte first.
  function BigEndian(v: nat, width: nat): (r: Bytes)
    ensures |r| == width
  {
    if width == 0 then [] else BigEndian(v / 256, width - 1) + [v % 256]
  }

  // The number denoted by a big-endian byte string.
  function Value(bs: Bytes): (r: nat) {
    if bs == [] then 0 else 256 * Value(bs[..|bs| - 1]) + bs[|bs| - 1]
  }

  lemma {:induction false} ValueBound(bs: Bytes)
    ensures Value(bs) < Pow256(|bs|)
  {
    if bs != [] {
      ValueBound(bs[..|bs| - 1]);
    }
  }

  /** Writing then reading: no bits are lost when the value fits the width. */
  lemma {:induction false} ValueOfBigEndian(v: nat, width: nat)
    requires v < Pow256(width)
    ensures Value(BigEndian(v, width)) == v
  {
    if width > 0 {
      ValueOfBigEndian(v / 256, width - 1);
      assert BigEndian(v, width)[..width - 1] == BigEndian(v / 256, width - 1);
    }
  }

  /** Reading then writing: each byte string is the encoding of the number it denotes. */
  lemma {:induction false} BigEndianOfValue(bs: Bytes)
    ensures BigEndian(Value(bs), |bs|) == bs
  {
    if bs != [] {
      var rest, last := bs[..|bs| - 1], bs[|bs| - 1];
      BigEndianOfValue(rest);
      assert Value(bs) / 256 == Value(rest) && Value(bs) % 256 == last;
      assert bs == rest + [last];
    }
  }

  lemma ValueFitsWidth(bs: Bytes)
    ensures |bs| == 1 ==> Value(bs) < 0x100
    ensures |bs| == 2 ==> Value(bs) < 0x1_0000
    ensures |bs| == 4 ==> Value(bs) < 0x1_0000_0000
    ensures |bs| == 8 ==> Value(bs) < 0x1_0000_0000_0000_0000
  {
    ValueBound(bs);
    Pow256Values();
  }

  // value >> (8 * bytes)
  function ShiftRightBytes(value: nat, bytes: nat): (r: nat) {
    if bytes == 0 then value else ShiftRightBytes(value, bytes - 1) / 256
  }

  // The byte-pushing loops of frame.hpp and binary.hpp: shift down to each byte in turn, mask, push.
  method AppendBigEndian(output: Bytes, value: nat, width: nat) returns (r: Bytes)
    ensures r == output + BigEndian(value, width)
  {
    r := output;
    var shift := width;
    while shift > 0
      invariant 0 <= shift <= width
      invariant r == output + BigEndian(ShiftRightBytes(value, shift), width - shift)
    {
      r := r + [ShiftRightBytes(value, shift - 1) % 256];
      shift := shift - 1;
    }
  }

  // Truncation to an unsigned integer of the given width.
  function Truncate(v: nat, width: nat): (r: nat)
    ensures v < Pow256(width) ==> r == v
  {
    var modulus := Pow256(width);
    SmallModulo(v, modulus);
    v % modulus
  }

  lemma SmallModulo(v: nat, modulus: nat)
    requires modulus > 0
    ensures v < modulus ==> v % modulus == v
  {
  }

  // The accumulation loops: value = (value << 8) | byte, truncated to the integer's own width.
  method ReadBigEndian(input: Bytes, offset: nat, width: nat) returns (value: nat)
    requires offset + width <= |input|
    ensures value == Value(input[offset..offset + width])
  {
    value := 0;
    for index := 0 to width
      invariant value == Value(input[offset..offset + index])
    {
      ExtendValue(input, offset, index, width);
      value := Truncate(256 * value + input[offset + index], width);
    }
  }

  lemma ExtendValue(input: Bytes, offset: nat, index: nat, width: nat)
    requires index < width && offset + width <= |input|
    ensures Value(input[offset..offset + index + 1])
         == 256 * Value(input[offset..offset + index]) + input[offset + index]
    ensures Value(input[offset..offset + index + 1]) < Pow256(width)
  {
    var next := input[offset..offset + index + 1];
    assert next[..index] == input[offset..offset + index];
    ValueBound(next);
    Pow256Monotone(index + 1, width);
  }

  lemma {:induction false} Pow256Monotone(m: nat, n: nat)
    requires m <= n
    ensures Pow256(m) <= Pow256(n)
  {
    if m < n {
      Pow256Monotone(m, n - 1);
    }
  }
}
