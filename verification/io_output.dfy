/** Writing to the output through `IO.java`'s 8192-byte buffer, and the text
    `writeOutNumber` and `writeOutNumberAsBinary` produce. The stream is
    modelled as the sequence of bytes handed to it so far. */
module IOOutput {
  import opened JavaInt
  import opened IOClassify
  import opened IntegerMath

  const OutBufferLength: int := 8192

  /** The writer state: the bytes already passed to the stream, the buffer, and
      how many of its bytes are pending. */
  datatype Output = Output(stream: seq<Byte>, buffer: seq<Byte>, posOut: int)

  ghost predicate Valid(o: Output) {
    |o.buffer| == OutBufferLength && 0 <= o.posOut <= OutBufferLength
  }

  /** Everything written so far, in order: what reached the stream, then what
      waits in the buffer. */
  function Written(o: Output): seq<Byte>
    requires Valid(o)
  {
    o.stream + o.buffer[..o.posOut]
  }

  /** A new writer: nothing written. */
  function NewOutput(): (o: Output)
    ensures Valid(o) && Written(o) == [] && o.stream == []
  {
    Output([], seq(OutBufferLength, _ => 0), 0)
  }

  /** `writeOutToStream`: hands the pending bytes to the stream and empties the
      buffer; nothing written is lost or repeated. */
  function WriteOutToStream(o: Output): (r: Output)
    requires Valid(o)
    ensures Valid(r) && r.posOut == 0
    ensures Written(r) == Written(o) && r.stream == Written(o)
  {
    Output(o.stream + o.buffer[..o.posOut], o.buffer, 0)
  }

  /** `flush`: everything written is now on the stream. */
  function Flush(o: Output): (r: Output)
    requires Valid(o)
    ensures Valid(r) && r.posOut == 0 && r.stream == Written(o)
  {
    WriteOutToStream(o)
  }

  /** `writeOut(byte)`: appends one byte, first emptying a full buffer. */
  function WriteOut(o: Output, b: Byte): (r: Output)
    requires Valid(o)
    ensures Valid(r) && Written(r) == Written(o) + [b]
    ensures 1 <= r.posOut
  {
    var o' := if o.posOut >= OutBufferLength then WriteOutToStream(o) else o;
    assert Written(o') == Written(o);
    var r := Output(o'.stream, o'.buffer[o'.posOut := b], o'.posOut + 1);
    assert r.buffer[..r.posOut] == o'.buffer[..o'.posOut] + [b];
    r
  }

  /** A Java `char`: one UTF-16 code unit. A `String` or `char[]` is a
      sequence of them, so a character outside the Basic Multilingual Plane
      is two units (a surrogate pair), and a lone surrogate is a unit too. */
  type JChar = c: int | 0 <= c < 0x1_0000

  /** `writeOut(char)`: the character's low byte. */
  function WriteOutChar(o: Output, c: JChar): (r: Output)
    requires Valid(o)
    ensures Valid(r) && Written(r) == Written(o) + [c % 256]
  {
    WriteOut(o, c % 256)
  }

  /** `writeOut(byte[], offset, length)` over the whole selected range: the
      bytes one by one, in order. */
  function WriteOutAll(o: Output, bs: seq<Byte>): (r: Output)
    requires Valid(o)
    ensures Valid(r) && Written(r) == Written(o) + bs
    decreases |bs|
  {
    if bs == [] then o
    else
      var r := WriteOutAll(WriteOut(o, bs[0]), bs[1..]);
      assert [bs[0]] + bs[1..] == bs;
      r
  }

  /** How a ranged write ends: normally, or with the array index exception
      Java throws at the first index outside the array; either way the writer
      keeps every byte written before that point. */
  datatype WriteOutcome = Completed(out: Output) | Threw(out: Output)

  /** `final int end = offset + length;`, in `int` arithmetic. */
  function RangeEnd(offset: Int32, length: Int32): Int32 {
    Wrap(offset + length, W32)
  }

  /** The loop `for (int i = offset; i < end; i++) writeOut(bytes[i]);`: the
      cells from `offset` below `end` in order, until an index falls outside
      the array. */
  function WriteOutRange(o: Output, bytes: seq<Byte>, offset: Int32, length: Int32): (r: WriteOutcome)
    requires Valid(o)
    ensures Valid(r.out)
    ensures r.Threw? <==> offset < RangeEnd(offset, length) && (offset < 0 || |bytes| < RangeEnd(offset, length))
    ensures r.Completed? && offset < RangeEnd(offset, length) ==>
      0 <= offset && RangeEnd(offset, length) <= |bytes| && Written(r.out) == Written(o) + bytes[offset..RangeEnd(offset, length)]
    ensures r.Completed? && RangeEnd(offset, length) <= offset ==> Written(r.out) == Written(o)
    ensures r.Threw? && offset < 0 ==> Written(r.out) == Written(o)
    ensures r.Threw? && 0 <= offset ==> Written(r.out) == Written(o) + (if offset < |bytes| then bytes[offset..] else [])
  {
    var end := RangeEnd(offset, length);
    if end <= offset then Completed(o)
    else if offset < 0 then Threw(o)
    else if end <= |bytes| then Completed(WriteOutAll(o, bytes[offset..end]))
    else if offset < |bytes| then Threw(WriteOutAll(o, bytes[offset..]))
    else Threw(o)
  }

  /** `writeOut(byte[])`: the whole array, in order; it never throws. */
  function WriteOutBytes(o: Output, bs: seq<Byte>): (r: WriteOutcome)
    requires Valid(o) && |bs| <= MaxValue(W32)
    ensures Valid(r.out) && r.Completed? && Written(r.out) == Written(o) + bs
  {
    assert bs[0..|bs|] == bs;
    WriteOutRange(o, bs, 0, |bs|)
  }

  /** The byte `(byte) c` stores for each character: its low eight bits. */
  function LowBytes(cs: seq<JChar>): (bs: seq<Byte>)
    ensures |bs| == |cs|
    ensures forall i :: 0 <= i < |cs| ==> bs[i] == cs[i] % 256
  {
    seq(|cs|, i requires 0 <= i < |cs| => cs[i] % 256)
  }

  /** `writeOut(char[], offset, length)`: the same loop over characters, each
      written as its low byte. */
  function WriteOutChars(o: Output, chars: seq<JChar>, offset: Int32, length: Int32): (r: WriteOutcome)
    requires Valid(o)
    ensures Valid(r.out)
    ensures r.Threw? <==> offset < RangeEnd(offset, length) && (offset < 0 || |chars| < RangeEnd(offset, length))
    ensures r.Completed? && offset < RangeEnd(offset, length) ==>
      0 <= offset && RangeEnd(offset, length) <= |chars| && Written(r.out) == Written(o) + LowBytes(chars[offset..RangeEnd(offset, length)])
    ensures r.Completed? && RangeEnd(offset, length) <= offset ==> Written(r.out) == Written(o)
    ensures r.Threw? && offset < 0 ==> Written(r.out) == Written(o)
    ensures r.Threw? && 0 <= offset ==> Written(r.out) == Written(o) + (if offset < |chars| then LowBytes(chars[offset..]) else [])
  {
    var end := RangeEnd(offset, length);
    assert 0 <= offset < end <= |chars| ==> LowBytes(chars)[offset..end] == LowBytes(chars[offset..end]);
    assert 0 <= offset < |chars| ==> LowBytes(chars)[offset..] == LowBytes(chars[offset..]);
    WriteOutRange(o, LowBytes(chars), offset, length)
  }

  /** `writeOut(char[])`: the low byte of every character, in order; it never
      throws. */
  function WriteOutCharArray(o: Output, cs: seq<JChar>): (r: WriteOutcome)
    requires Valid(o) && |cs| <= MaxValue(W32)
    ensures Valid(r.out) && r.Completed? && Written(r.out) == Written(o) + LowBytes(cs)
  {
    assert cs[0..|cs|] == cs;
    WriteOutChars(o, cs, 0, |cs|)
  }

  /** `writeOutString`: the low byte of every UTF-16 unit of the string, in
      order. */
  function WriteOutString(o: Output, str: seq<JChar>): (r: Output)
    requires Valid(o)
    ensures Valid(r) && Written(r) == Written(o) + LowBytes(str)
  {
    WriteOutAll(o, LowBytes(str))
  }

  /** Text whose every unit is below 256 (ASCII and Latin-1) is written as
      itself, and a string writes what the array of its characters writes. */
  lemma {:induction false} WriteOutStringLatin1(o: Output, str: seq<JChar>)
    requires Valid(o) && |str| <= MaxValue(W32)
    ensures (forall i :: 0 <= i < |str| ==> str[i] < 256) ==> Written(WriteOutString(o, str)) == Written(o) + str
    ensures Written(WriteOutString(o, str)) == Written(WriteOutCharArray(o, str).out)
  {
    if forall i :: 0 <= i < |str| ==> str[i] < 256 {
      assert LowBytes(str) == str;
    }
  }

  /** A character outside the Basic Multilingual Plane is two units, so it is
      written as two bytes: U+1F600 is the pair D83D DE00, written 3D 00. */
  lemma SurrogatePairWritesTwoBytes(o: Output)
    requires Valid(o)
    ensures Written(WriteOutString(o, [0xD83D, 0xDE00])) == Written(o) + [0x3D, 0x00]
  {
  }

  /** `writeOutLn`: a line feed. */
  function WriteOutLn(o: Output): (r: Output)
    requires Valid(o)
    ensures Valid(r) && Written(r) == Written(o) + [10]
  {
    WriteOutChar(o, '\n' as int)
  }

  // ---- decimal text ----

  /** The digits of a positive number, most significant first, as the loop
      `tmpcharr[--pos] = (char) ((value % 10) + '0'); value /= 10;` leaves
      them. */
  function DecimalDigits(n: nat): (ds: seq<Byte>)
    requires n > 0
    ensures ds != [] && ds[0] != '0' as int
    ensures forall i :: 0 <= i < |ds| ==> IsNum(ds[i])
  {
    if n < 10 then ['0' as int + n]
    else DecimalDigits(n / 10) + ['0' as int + n % 10]
  }

  /** Ten to the power `k`. */
  function Pow10(k: nat): (r: nat)
    ensures r >= 1
  {
    if k == 0 then 1 else 10 * Pow10(k - 1)
  }

  /** A number below `10^k` has at most `k` digits. */
  lemma {:induction false} DigitCountBound(n: nat, k: nat)
    requires 0 < n < Pow10(k)
    ensures |DecimalDigits(n)| <= k
  {
    if n >= 10 {
      DigitCountBound(n / 10, k - 1);
    }
  }

  /** The digits of every positive `int` fit `writeOutNumber(int)`'s 10-character
      buffer, and those of every positive `long` its 20-character buffer. */
  lemma DigitsFitBuffer(n: nat, w: Width)
    requires 0 < n <= MaxValue(w)
    ensures |DecimalDigits(n)| <= (if w == W32 then 10 else 20)
  {
    assert Pow10(10) == 10_000_000_000;
    assert Pow10(20) == 100_000_000_000_000_000_000 by {
      assert Pow10(10) == 10_000_000_000;
      assert Pow10(15) == 1_000_000_000_000_000;
    }
    if w == W32 {
      DigitCountBound(n, 10);
    } else {
      DigitCountBound(n, 20);
    }
  }

  /** What `writeOutNumber` writes, as written: `"0"` for zero; otherwise a
      minus for a negative value, then the digits of `-value` computed in the
      value's own width. For the minimum value `-value` wraps back to itself,
      the digit loop does not run, and only the minus is written. */
  function NumberText(value: int, w: Width): (t: seq<Byte>)
    requires InRange(value, w)
    ensures t != [] && (t[0] == '-' as int <==> value < 0)
    ensures forall i :: (if value < 0 then 1 else 0) <= i < |t| ==> IsNum(t[i])
  {
    if value == 0 then ['0' as int]
    else
      var negative := value < 0;
      var magnitude := if negative then Wrap(-value, w) else value;
      (if negative then ['-' as int] else []) + (if magnitude > 0 then DecimalDigits(magnitude) else [])
  }

  /** `writeOutNumber` with the magnitude taken exactly, so that the minimum
      value is written in full. */
  function NumberTextCorrected(value: int): (t: seq<Byte>)
  {
    if value == 0 then ['0' as int]
    else if value < 0 then ['-' as int] + DecimalDigits(-value)
    else DecimalDigits(value)
  }

  /** Apart from the minimum value, the text as written is the corrected one. */
  lemma NumberTextAgreesExceptMin(value: int, w: Width)
    requires InRange(value, w) && value != MinValue(w)
    ensures NumberText(value, w) == NumberTextCorrected(value)
  {
    if value < 0 {
      WrapInRange(-value, w);
    }
  }

  /** For the minimum value only the minus sign is written. */
  lemma NumberTextOfMin(w: Width)
    ensures NumberText(MinValue(w), w) == ['-' as int]
  {
  }

  /** `writeOutNumber(int)` / `writeOutNumber(long)` as written. */
  function WriteOutNumber(o: Output, value: int, w: Width): (r: Output)
    requires Valid(o) && InRange(value, w)
    ensures Valid(r) && Written(r) == Written(o) + NumberText(value, w)
  {
    WriteOutAll(o, NumberText(value, w))
  }

  /** `writeOutNumber` with the corrected text. */
  function WriteOutNumberCorrected(o: Output, value: int): (r: Output)
    requires Valid(o)
    ensures Valid(r) && Written(r) == Written(o) + NumberTextCorrected(value)
  {
    WriteOutAll(o, NumberTextCorrected(value))
  }

  // ---- binary text ----

  /** The base-2 digits of a positive number, most significant first, as the
      loop `(num & 1) == 1 ? '1' : '0'; num >>>= 1` leaves them. */
  function BinaryDigits(n: nat): (ds: seq<Byte>)
    requires n > 0
    ensures ds != [] && ds[0] == '1' as int
    ensures forall i :: 0 <= i < |ds| ==> ds[i] == '0' as int || ds[i] == '1' as int
  {
    if n < 2 then ['1' as int]
    else BinaryDigits(n / 2) + [if n % 2 == 1 then '1' as int else '0' as int]
  }

  /** What `writeOutNumberAsBinary` writes: `"0"` for zero, the binary digits of
      a positive number, and nothing for a negative one (its loop never runs). */
  function BinaryText(num: int): (t: seq<Byte>)
    requires InRange(num, W32)
    ensures num == 0 ==> t == ['0' as int]
    ensures num < 0 ==> t == []
    ensures num > 0 ==> t != [] && t[0] == '1' as int
  {
    if num == 0 then ['0' as int]
    else if num > 0 then BinaryDigits(num)
    else []
  }

  /** The value of a run of binary digits, most significant first. */
  function BinaryValue(ds: seq<Byte>): int
    decreases |ds|
  {
    if ds == [] then 0 else BinaryValue(ds[..|ds| - 1]) * 2 + (if ds[|ds| - 1] == '1' as int then 1 else 0)
  }

  /** Reading the binary text back gives the number, for every non-negative
      `int`; it has at most 31 digits, so it fits the 32-character buffer. */
  lemma {:induction false} BinaryDigitsValue(n: nat)
    requires n > 0
    ensures BinaryValue(BinaryDigits(n)) == n
  {
    if n >= 2 {
      var ds := BinaryDigits(n);
      assert ds[..|ds| - 1] == BinaryDigits(n / 2);
      BinaryDigitsValue(n / 2);
    }
  }

  lemma BinaryTextValue(num: int)
    requires 0 <= num <= MaxValue(W32)
    ensures BinaryValue(BinaryText(num)) == num
    ensures |BinaryText(num)| <= 31
  {
    if num > 0 {
      BinaryDigitsValue(num);
      TwoTo31();
      BinaryDigitCount(num, 31);
    }
  }

  lemma TwoTo31()
    ensures TwoTo(31) == 0x8000_0000
  {
    assert TwoTo(4) == 16;
    assert TwoTo(8) == 256;
    assert TwoTo(12) == 4096;
    assert TwoTo(16) == 65536;
    assert TwoTo(20) == 1048576;
    assert TwoTo(24) == 16777216;
    assert TwoTo(28) == 268435456;
  }

  lemma {:induction false} BinaryDigitCount(n: nat, k: nat)
    requires 0 < n < TwoTo(k)
    ensures |BinaryDigits(n)| <= k
  {
    if n >= 2 {
      BinaryDigitCount(n / 2, k - 1);
    }
  }

  /** `writeOutNumberAsBinary`. */
  function WriteOutNumberAsBinary(o: Output, num: int): (r: Output)
    requires Valid(o) && InRange(num, W32)
    ensures Valid(r) && Written(r) == Written(o) + BinaryText(num)
  {
    WriteOutAll(o, BinaryText(num))
  }
}
