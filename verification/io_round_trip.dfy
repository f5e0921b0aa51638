/** Writing a number with `writeOutNumber` and reading it back with `readInt`
    or `readLong`. */
module IORoundTrip {
  import opened JavaInt
  import opened IOClassify
  import opened IOInput
  import opened IOOutput

  /** The decimal digits of a positive number read back as that number. */
  lemma {:induction false} DecimalDigitsValue(n: nat)
    requires n > 0
    ensures DecimalValue(DecimalDigits(n)) == n
  {
    if n >= 10 {
      var ds := DecimalDigits(n);
      assert ds[..|ds| - 1] == DecimalDigits(n / 10);
      DecimalDigitsValue(n / 10);
    }
  }

  /** Input a number may follow: none of its bytes can start a number. */
  predicate NoNumberStart(junk: seq<Byte>) {
    forall i :: 0 <= i < |junk| ==> !IsNumberStart(junk[i])
  }

  /** What may follow a number so that it ends there: nothing, or a non-digit. */
  predicate EndsNumber(after: seq<Byte>) {
    after == [] || !IsNum(after[0])
  }

  /** The corrected text of every value, in any width that holds it, reads back
      as that value, and the reader stops just past the byte after it. */
  lemma RoundTripCorrected(junk: seq<Byte>, v: int, after: seq<Byte>, w: Width)
    requires InRange(v, w) && NoNumberStart(junk) && EndsNumber(after)
    ensures ReadNumber(junk + (NumberTextCorrected(v) + after), w) == (v, AfterTerminator(after))
  {
    if v == 0 {
      ZeroRoundTrip(junk, after, w);
    } else if v > 0 {
      PositiveRoundTrip(junk, v, after, w);
    } else {
      NegativeRoundTrip(junk, v, after, w);
    }
  }

  lemma ZeroRoundTrip(junk: seq<Byte>, after: seq<Byte>, w: Width)
    requires NoNumberStart(junk) && EndsNumber(after)
    ensures ReadNumber(junk + (NumberTextCorrected(0) + after), w) == (0, AfterTerminator(after))
  {
    var zero := ['0' as int];
    assert IsNum(zero[0]);
    assert NumberTextCorrected(0) + after == [] + (zero + after);
    ReadNumberReads(junk, [], zero, after, w);
    assert DecimalValue(zero) == 0 && Signed([], 0) == 0;
    WrapInRange(0, w);
  }

  lemma PositiveRoundTrip(junk: seq<Byte>, v: int, after: seq<Byte>, w: Width)
    requires 0 < v && InRange(v, w) && NoNumberStart(junk) && EndsNumber(after)
    ensures ReadNumber(junk + (NumberTextCorrected(v) + after), w) == (v, AfterTerminator(after))
  {
    var ds := DecimalDigits(v);
    assert NumberTextCorrected(v) + after == [] + (ds + after);
    ReadNumberReads(junk, [], ds, after, w);
    DecimalDigitsValue(v);
    WrapInRange(v, w);
  }

  lemma NegativeRoundTrip(junk: seq<Byte>, v: int, after: seq<Byte>, w: Width)
    requires v < 0 && InRange(v, w) && NoNumberStart(junk) && EndsNumber(after)
    ensures ReadNumber(junk + (NumberTextCorrected(v) + after), w) == (v, AfterTerminator(after))
  {
    var ds := DecimalDigits(-v);
    assert NumberTextCorrected(v) + after == ['-' as int] + (ds + after);
    ReadNumberReads(junk, ['-' as int], ds, after, w);
    DecimalDigitsValue(-v);
    WrapInRange(v, w);
  }

  /** The text `writeOutNumber` writes reads back as the value for every value
      except the width's minimum. */
  lemma RoundTrip(junk: seq<Byte>, v: int, after: seq<Byte>, w: Width)
    requires InRange(v, w) && v != MinValue(w) && NoNumberStart(junk) && EndsNumber(after)
    ensures ReadNumber(junk + (NumberText(v, w) + after), w) == (v, AfterTerminator(after))
  {
    NumberTextAgreesExceptMin(v, w);
    RoundTripCorrected(junk, v, after, w);
  }

  /** The minimum value is written as a lone minus, which reads back as zero. */
  lemma MinValueReadsAsZero(w: Width)
    ensures ReadNumber(NumberText(MinValue(w), w) + [' ' as int], w) == (0, [])
  {
    NumberTextOfMin(w);
    assert NumberText(MinValue(w), w) + [' ' as int] == ['-' as int, ' ' as int];
    NumberClassesMeaning('-' as int);
    NumberClassesMeaning(' ' as int);
  }

  /** Through the buffered writer: whatever was written before (if it starts
      no number), the number `writeOutNumber` writes next reads back as itself,
      for every value except the width's minimum. */
  lemma WrittenNumberReadsBack(o: Output, v: int, after: seq<Byte>, w: Width)
    requires Valid(o) && NoNumberStart(Written(o)) && InRange(v, w) && v != MinValue(w) && EndsNumber(after)
    ensures ReadNumber(Written(WriteOutNumber(o, v, w)) + after, w) == (v, AfterTerminator(after))
  {
    assert Written(WriteOutNumber(o, v, w)) + after == Written(o) + (NumberText(v, w) + after);
    RoundTrip(Written(o), v, after, w);
  }

  /** The same through the writer with the corrected text, for every value of
      the width. */
  lemma WrittenNumberReadsBackCorrected(o: Output, v: int, after: seq<Byte>, w: Width)
    requires Valid(o) && NoNumberStart(Written(o)) && InRange(v, w) && EndsNumber(after)
    ensures ReadNumber(Written(WriteOutNumberCorrected(o, v)) + after, w) == (v, AfterTerminator(after))
  {
    assert Written(WriteOutNumberCorrected(o, v)) + after == Written(o) + (NumberTextCorrected(v) + after);
    RoundTripCorrected(Written(o), v, after, w);
  }
}
