/** Reading numbers from the input, as `IO.java` does. The input is modelled
    as the sequence of bytes not yet consumed: `read` takes the first of them,
    and pushing a byte back (`pos--`) means returning the input as it was before
    that read. Refilling the 8192-byte buffer from the stream is not modelled. */
module IOInput {
  import opened JavaInt
  import opened IOClassify

  /** What `read` returns at the end of the input. */
  const EOF: int := -1

  /** `read`: the next byte and the input after it, or `EOF` at the end, where
      the input stays empty. A byte read and pushed back (`pos--`) restores the
      input. */
  function Read(inp: seq<Byte>): (r: (int, seq<Byte>))
    ensures r.0 == EOF <==> inp == []
    ensures r.0 == EOF ==> r.1 == inp
    ensures r.0 != EOF ==> 0 <= r.0 < 256 && |r.1| == |inp| - 1
  {
    if |inp| == 0 then (EOF, inp) else (inp[0], inp[1..])
  }

  /** Pushing back the byte just read restores the input. */
  lemma ReadPushBack(inp: seq<Byte>)
    requires inp != []
    ensures [Read(inp).0] + Read(inp).1 == inp
  {
  }

  /** `isEndOfFile`: reads one byte and pushes it back when there was one. The
      answer says whether the input is exhausted, and the input is unchanged. */
  function IsEndOfFile(inp: seq<Byte>): (r: (bool, seq<Byte>))
    ensures r.1 == inp
    ensures r.0 <==> inp == []
  {
    var (data, rest) := Read(inp);
    if data == EOF then (true, rest) else (false, [data] + rest)
  }

  /** The skipping loop of `readInt`/`readLong`: reads up to and including the
      first digit or sign, or to the end of the input. */
  function SkipToNumber(inp: seq<Byte>): (r: (int, seq<Byte>))
    ensures r.0 == EOF <==> forall i :: 0 <= i < |inp| ==> !IsNumberStart(inp[i])
    ensures r.0 == EOF ==> r.1 == []
    ensures r.0 != EOF ==> IsNumberStart(r.0) && |r.1| < |inp|
    ensures r.0 != EOF ==> inp[|inp| - |r.1| - 1] == r.0 && inp[|inp| - |r.1|..] == r.1
    ensures r.0 != EOF ==> forall i :: 0 <= i < |inp| - |r.1| - 1 ==> !IsNumberStart(inp[i])
    decreases |inp|
  {
    var (cur, rest) := Read(inp);
    if cur == EOF || IsNumberStart(cur) then
      (cur, rest)
    else
      var r := SkipToNumber(rest);
      assert forall i :: 1 <= i < |inp| ==> inp[i] == rest[i - 1];
      r
  }

  /** The digit loop: `v *= 10; v += (cur - '0'); cur = read();` while `cur` is
      a digit, each step wrapping to the width `w`. The byte that ends the run
      is consumed. */
  function AccumulateDigits(cur: int, inp: seq<Byte>, v: int, w: Width): (r: (int, seq<Byte>))
    requires InRange(v, w)
    ensures InRange(r.0, w) && |r.1| <= |inp|
    ensures !IsNum(cur) ==> r == (v, inp)
    decreases |inp| + (if IsNum(cur) then 1 else 0)
  {
    if IsNum(cur) then
      var (next, rest) := Read(inp);
      AccumulateDigits(next, rest, Wrap(Wrap(v * 10, w) + (cur - '0' as int), w), w)
    else
      (v, inp)
  }

  /** `readInt` (width `W32`) and `readLong` (width `W64`): skip to the first
      digit or sign, take an optional minus then an optional plus, then the
      digits; `EOF` when the input holds no digit or sign. */
  function ReadNumber(inp: seq<Byte>, w: Width): (r: (int, seq<Byte>))
    ensures InRange(r.0, w) && |r.1| <= |inp|
    ensures (forall i :: 0 <= i < |inp| ==> !IsNumberStart(inp[i])) ==> r == (EOF, [])
  {
    var (cur, rest) := SkipToNumber(inp);
    if cur == EOF then (EOF, rest) else ReadSignedDigits(cur, rest, w)
  }

  /** The part of `readInt`/`readLong` after the skipping loop, from the first
      digit or sign `cur`: an optional minus, then the rest. The negation wraps
      like Java's `-v`. */
  function ReadSignedDigits(cur: int, inp: seq<Byte>, w: Width): (r: (int, seq<Byte>))
    ensures InRange(r.0, w) && |r.1| <= |inp|
    ensures !IsNumberStart(cur) ==> r == (0, inp)
    ensures IsMinus(cur) && (inp == [] || !IsNumberStart(inp[0])) ==> r == (0, Read(inp).1)
  {
    if IsMinus(cur) then
      var r := ReadUnsignedDigits(Read(inp).0, Read(inp).1, w);
      (Wrap(-r.0, w), r.1)
    else
      ReadUnsignedDigits(cur, inp, w)
  }

  /** An optional plus, then the digit loop from a zero accumulator. */
  function ReadUnsignedDigits(cur: int, inp: seq<Byte>, w: Width): (r: (int, seq<Byte>))
    ensures InRange(r.0, w) && |r.1| <= |inp|
    ensures !IsNum(cur) && !IsPlus(cur) ==> r == (0, inp)
    ensures IsPlus(cur) && (inp == [] || !IsNum(inp[0])) ==> r == (0, Read(inp).1)
  {
    if IsPlus(cur) then AccumulateDigits(Read(inp).0, Read(inp).1, 0, w) else AccumulateDigits(cur, inp, 0, w)
  }

  // ---- what a digit run is worth ----

  /** The value of a run of digits read left to right into an accumulator that
      starts at `v`, without any wrapping. */
  function Horner(v: int, ds: seq<Byte>): int
    decreases |ds|
  {
    if ds == [] then v else Horner(v * 10 + (ds[0] - '0' as int), ds[1..])
  }

  /** The decimal value of a run of digits, most significant first. */
  function DecimalValue(ds: seq<Byte>): int
    decreases |ds|
  {
    if ds == [] then 0 else DecimalValue(ds[..|ds| - 1]) * 10 + (ds[|ds| - 1] - '0' as int)
  }

  /** Appending one digit multiplies by ten and adds it. */
  lemma {:induction false} HornerSnoc(v: int, ds: seq<Byte>, d: Byte)
    ensures Horner(v, ds + [d]) == Horner(v, ds) * 10 + (d - '0' as int)
    decreases |ds|
  {
    if ds != [] {
      assert (ds + [d])[1..] == ds[1..] + [d];
      HornerSnoc(v * 10 + (ds[0] - '0' as int), ds[1..], d);
    }
  }

  /** Reading digits into a zero accumulator yields their decimal value. */
  lemma {:induction false} HornerIsDecimalValue(ds: seq<Byte>)
    ensures Horner(0, ds) == DecimalValue(ds)
    decreases |ds|
  {
    if ds != [] {
      var init := ds[..|ds| - 1];
      assert ds == init + [ds[|ds| - 1]];
      HornerSnoc(0, init, ds[|ds| - 1]);
      HornerIsDecimalValue(init);
    }
  }

  /** Wrapping the accumulator between digits does not change the wrapped
      result. */
  lemma {:induction false} HornerWrap(x: int, ds: seq<Byte>, w: Width)
    ensures Wrap(Horner(Wrap(x, w), ds), w) == Wrap(Horner(x, ds), w)
    decreases |ds|
  {
    if ds == [] {
      WrapInRange(Wrap(x, w), w);
    } else {
      var d := ds[0] - '0' as int;
      var y1 := Wrap(x, w) * 10 + d;
      var y2 := x * 10 + d;
      HornerWrap(y1, ds[1..], w);
      HornerWrap(y2, ds[1..], w);
      WrapMulAdd(x, 10, d, w);
    }
  }

  /** What the digit loop leaves behind: everything after the byte that ends
      the run (nothing when the input ends with the run). */
  function AfterTerminator(after: seq<Byte>): seq<Byte> {
    if after == [] then [] else after[1..]
  }

  /** The digit loop over a run `ds` followed by a non-digit (or the end of the
      input) yields the run's value wrapped to `w`, and consumes the run and its
      terminator. */
  lemma {:induction false} AccumulateDigitsReadsRun(v: int, ds: seq<Byte>, after: seq<Byte>, w: Width)
    requires InRange(v, w)
    requires forall i :: 0 <= i < |ds| ==> IsNum(ds[i])
    requires after == [] || !IsNum(after[0])
    ensures AccumulateDigits(Read(ds + after).0, Read(ds + after).1, v, w) == (Wrap(Horner(v, ds), w), AfterTerminator(after))
    decreases |ds|
  {
    if ds == [] {
      WrapInRange(v, w);
      assert ds + after == after;
    } else {
      var d := ds[0] - '0' as int;
      var v' := Wrap(Wrap(v * 10, w) + d, w);
      var tail := ds[1..] + after;
      assert (ds + after)[1..] == tail;
      assert Read(ds + after) == (ds[0], tail);
      AccumulateDigitsReadsRun(v', ds[1..], after, w);
      calc {
        AccumulateDigits(ds[0], tail, v, w);
        AccumulateDigits(Read(tail).0, Read(tail).1, v', w);
        (Wrap(Horner(v', ds[1..]), w), AfterTerminator(after));
        { WrapAddLeft(v * 10, d, w); }
        (Wrap(Horner(Wrap(v * 10 + d, w), ds[1..]), w), AfterTerminator(after));
        { HornerWrap(v * 10 + d, ds[1..], w); }
        (Wrap(Horner(v * 10 + d, ds[1..]), w), AfterTerminator(after));
      }
    }
  }

  /** Skipping stops at the first digit or sign after a run of other bytes. */
  lemma {:induction false} SkipToNumberSkipsJunk(junk: seq<Byte>, rest: seq<Byte>)
    requires forall i :: 0 <= i < |junk| ==> !IsNumberStart(junk[i])
    requires rest != [] && IsNumberStart(rest[0])
    ensures SkipToNumber(junk + rest) == (rest[0], rest[1..])
    decreases |junk|
  {
    if junk != [] {
      assert (junk + rest)[1..] == junk[1..] + rest;
      SkipToNumberSkipsJunk(junk[1..], rest);
    } else {
      assert junk + rest == rest;
    }
  }

  /** The signs `readInt` accepts before the digits: none, a minus, a plus, or
      a minus followed by a plus. */
  predicate IsSignPrefix(sign: seq<Byte>) {
    sign == [] || sign == ['-' as int] || sign == ['+' as int] || sign == ['-' as int, '+' as int]
  }

  lemma PlusRun(ds: seq<Byte>, after: seq<Byte>, w: Width)
    requires ds != [] && forall i :: 0 <= i < |ds| ==> IsNum(ds[i])
    requires after == [] || !IsNum(after[0])
    ensures ReadUnsignedDigits('+' as int, ds + after, w) == (Wrap(DecimalValue(ds), w), AfterTerminator(after))
  {
    HornerIsDecimalValue(ds);
    AccumulateDigitsReadsRun(0, ds, after, w);
  }

  lemma UnsignedRun(ds: seq<Byte>, after: seq<Byte>, w: Width)
    requires ds != [] && forall i :: 0 <= i < |ds| ==> IsNum(ds[i])
    requires after == [] || !IsNum(after[0])
    ensures ReadUnsignedDigits(Read(ds + after).0, Read(ds + after).1, w) == (Wrap(DecimalValue(ds), w), AfterTerminator(after))
  {
    HornerIsDecimalValue(ds);
    AccumulateDigitsReadsRun(0, ds, after, w);
    assert Read(ds + after).0 == ds[0];
  }

  /** A leading minus negates what follows, wrapping like Java's `-v`. */
  lemma MinusNegates(inp: seq<Byte>, w: Width, v: int, rest: seq<Byte>)
    requires ReadUnsignedDigits(Read(inp).0, Read(inp).1, w) == (Wrap(v, w), rest)
    ensures ReadSignedDigits('-' as int, inp, w) == (Wrap(-v, w), rest)
  {
    WrapNeg(v, w);
  }

  lemma MinusRun(ds: seq<Byte>, after: seq<Byte>, w: Width)
    requires ds != [] && forall i :: 0 <= i < |ds| ==> IsNum(ds[i])
    requires after == [] || !IsNum(after[0])
    ensures ReadSignedDigits('-' as int, ds + after, w) == (Wrap(-DecimalValue(ds), w), AfterTerminator(after))
  {
    UnsignedRun(ds, after, w);
    MinusNegates(ds + after, w, DecimalValue(ds), AfterTerminator(after));
  }

  lemma MinusPlusRun(ds: seq<Byte>, after: seq<Byte>, w: Width)
    requires ds != [] && forall i :: 0 <= i < |ds| ==> IsNum(ds[i])
    requires after == [] || !IsNum(after[0])
    ensures ReadSignedDigits('-' as int, ['+' as int] + (ds + after), w) == (Wrap(-DecimalValue(ds), w), AfterTerminator(after))
  {
    var inp := ['+' as int] + (ds + after);
    PlusRun(ds, after, w);
    assert inp[1..] == ds + after;
    assert Read(inp).0 == '+' as int && Read(inp).1 == ds + after;
    MinusNegates(inp, w, DecimalValue(ds), AfterTerminator(after));
  }

  /** The value a sign prefix gives a run of value `v`. */
  function Signed(sign: seq<Byte>, v: int): int {
    if sign != [] && sign[0] == '-' as int then -v else v
  }

  /** After the first digit or sign: the signed value of the run wrapped to the
      width, and the input after the terminator. */
  lemma ReadSignedDigitsReads(sign: seq<Byte>, ds: seq<Byte>, after: seq<Byte>, w: Width)
    requires IsSignPrefix(sign)
    requires ds != [] && forall i :: 0 <= i < |ds| ==> IsNum(ds[i])
    requires after == [] || !IsNum(after[0])
    ensures ReadSignedDigits((sign + (ds + after))[0], (sign + (ds + after))[1..], w)
         == (Wrap(Signed(sign, DecimalValue(ds)), w), AfterTerminator(after))
  {
    var run := ds + after;
    if sign == [] {
      assert sign + run == run;
      UnsignedRun(ds, after, w);
    } else if sign == ['-' as int] {
      assert (sign + run)[0] == '-' as int && (sign + run)[1..] == run;
      MinusRun(ds, after, w);
    } else if sign == ['+' as int] {
      assert (sign + run)[0] == '+' as int && (sign + run)[1..] == run;
      assert !IsMinus('+' as int);
      PlusRun(ds, after, w);
    } else {
      assert (sign + run)[0] == '-' as int && (sign + run)[1..] == ['+' as int] + run;
      MinusPlusRun(ds, after, w);
    }
  }

  /** Decoding, all cases: after bytes that start no number, an accepted sign
      and a non-empty digit run ended by a non-digit or the end of the input,
      `readInt`/`readLong` return the signed value of the run wrapped to the
      width, and leave the input just after the terminator. */
  lemma ReadNumberReads(junk: seq<Byte>, sign: seq<Byte>, ds: seq<Byte>, after: seq<Byte>, w: Width)
    requires forall i :: 0 <= i < |junk| ==> !IsNumberStart(junk[i])
    requires IsSignPrefix(sign)
    requires ds != [] && forall i :: 0 <= i < |ds| ==> IsNum(ds[i])
    requires after == [] || !IsNum(after[0])
    ensures ReadNumber(junk + (sign + (ds + after)), w)
         == (Wrap(Signed(sign, DecimalValue(ds)), w), AfterTerminator(after))
  {
    var body := sign + (ds + after);
    SkipToNumberSkipsJunk(junk, body);
    ReadSignedDigitsReads(sign, ds, after, w);
  }
}
