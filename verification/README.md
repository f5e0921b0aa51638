# java-contest-template in Dafny

A model of the algorithmic core of a small Java library for programming
contests, with proofs about it:

- the Sieve of Eratosthenes over a bit set packed into `int` words
  (`SieveOfErastosthenes`);
- the helpers of `ArrayUtil`: `swap` and three binary searches;
- the bounded containers `Stack<T>`/`IntStack` (an array filled up to `len`) and
  `Queue<T>`/`IntQueue` (a ring buffer addressed by ever-growing counters);
- the small arithmetic of `NumberUtil` (least and greatest of three values) and
  `IntegerMath` (`pow2` for `int` and `long`, `times10` by shifts), with Java's
  32- and 64-bit wrap-around written out;
- the number reader and writer of `IO`: the byte classifiers, `read`,
  `isEndOfFile`, `readInt`/`readLong`, the 8192-byte output buffer,
  `writeOutNumber` for `int` and `long`, and `writeOutNumberAsBinary`, together
  with the round trip between writing a number and reading it back.

Every value is immutable. An operation that mutates an object in Java
returns the new state here. The containers carry a ghost view of their
contents (`Contents`) that the operations are specified against. The input of
`IO` is the sequence of bytes not yet read. The output is the sequence of bytes
handed to the stream plus the pending part of the buffer (`Written`). Java's
`int` and `long` arithmetic goes through `JavaInt.Wrap`, which reduces an exact
result to the width's two's-complement range.

Files, one module each: `java_int.dfy` (`JavaInt`), `number_util.dfy`,
`integer_math.dfy`, `array_util.dfy`, `stack.dfy`, `int_stack.dfy`, `queue.dfy`,
`int_queue.dfy`, `primes.dfy` (`Primes`, the mathematical reference for the
sieve), `sieve.dfy`, `io_classify.dfy`, `io_input.dfy`, `io_output.dfy`,
`io_round_trip.dfy`.

`IntStack` and `IntQueue` are the generic classes' code with `int` in place of
`T`. Their operations are the `Stack` and `Queue` members at `T = int`. Only
creation differs: a new `int[]` holds zeros (`IntStack.java:16-19`,
`IntQueue.java:18-22`).

Where the library's documented expectations and its code disagree, the model
follows the code:

- `calculateUpTo(m)` sieves up to `((m >> 5) + 1) << 5`, a multiple of 32
  strictly above `m`, not up to `m` itself. So `calculateUpTo(100)` sieves up to
  128 and also reports 101, 103, 107, 109, 113 and 127.
- The comment at `SieveOfErastosthenes.java:30` says a list of a quarter of the
  bound is always enough. For every `m` up to 63, `calculateUpTo(0)` and
  `calculateUpTo(1)` included, it is not: the Java code throws an array index
  exception when it stores the first prime that has no slot (see Findings).
- `isPrime(0)` and `isPrime(1)` answer `true`. The class comment leaves such
  special cases to the caller.

## Model

| member | source | states |
|---|---|---|
| `NumberUtil.Min3` | src/main/java/com/github/adorow/template/simplemath/NumberUtil.java:14-16 | the result is at most each argument and equals one of them, ties included |
| `NumberUtil.Max3` | src/main/java/com/github/adorow/template/simplemath/NumberUtil.java:22-24 | the result is at least each argument and equals one of them |
| `NumberUtil.OrderIndependent` | src/main/java/com/github/adorow/template/simplemath/NumberUtil.java:14-24 | permuting the arguments changes neither result, and the least is never above the greatest |
| `IntegerMath.Pow2Int` | src/main/java/com/github/adorow/template/simplemath/IntegerMath.java:13-15 | `pow2(int)` is the square modulo 2^32, and is the exact, non-negative square whenever the magnitude is at most 46340 |
| `IntegerMath.Pow2Long` | src/main/java/com/github/adorow/template/simplemath/IntegerMath.java:20-22 | `pow2(long)` is the square modulo 2^64, exact and non-negative for magnitudes up to 3037000499 |
| `IntegerMath.Times10` | src/main/java/com/github/adorow/template/simplemath/IntegerMath.java:27-29 | `(v << 3) + (v << 1)` is ten times `v` wrapped to 32 bits, and exactly `10 * v` whenever that fits an `int` |
| `IntegerMath.Pow2IntSymmetric` | src/main/java/com/github/adorow/template/simplemath/IntegerMath.java:13-15 | `pow2(v) == pow2(-v)` for every `int`, `Integer.MIN_VALUE` included |
| `IntegerMath.Pow2LongSymmetric` | src/main/java/com/github/adorow/template/simplemath/IntegerMath.java:20-22 | the same symmetry for `long` |
| `ArrayUtil.Swap` | src/main/java/com/github/adorow/template/ArrayUtil.java:17-21 | the two cells are exchanged, every other cell is kept, the contents are a permutation of the original, and swapping a cell with itself changes nothing |
| `ArrayUtil.SwapTwice` | src/main/java/com/github/adorow/template/ArrayUtil.java:17-21 | swapping the same two cells twice restores the array |
| `ArrayUtil.BinSearchExact` | src/main/java/com/github/adorow/template/ArrayUtil.java:35-51 | on a sorted range the result is an index of `[ini, end]` holding the sought value, or -1 exactly when the value does not occur there |
| `ArrayUtil.BinSearchUpperEqual` | src/main/java/com/github/adorow/template/ArrayUtil.java:64-79 | when the sought value is at most `list[end]`: an index holding it if there is one, otherwise the least index whose value exceeds it; past the last value the result is `end` or `end + 1` |
| `ArrayUtil.BinSearchLowerEqual` | src/main/java/com/github/adorow/template/ArrayUtil.java:91-107 | the search stops with a result in `[ini - 1, end]`, and a result inside the range holds a value not above the sought one |
| `Stack.New` | src/main/java/com/github/adorow/template/datastructure/Stack.java:16-19 | a new stack is empty and has the requested capacity |
| `Stack.Empty` | src/main/java/com/github/adorow/template/datastructure/Stack.java:24-26 | afterwards the stack is empty and keeps its array |
| `Stack.Push` | src/main/java/com/github/adorow/template/datastructure/Stack.java:32-34 | on a stack that is not full, the pushed value is appended to the contents; the capacity is kept |
| `Stack.Pop` | src/main/java/com/github/adorow/template/datastructure/Stack.java:40-42 | on a non-empty stack, the contents are the remaining stack followed by the returned element |
| `Stack.Peek` | src/main/java/com/github/adorow/template/datastructure/Stack.java:48-50 | the last element of the contents, the one `pop` would return |
| `Stack.IsFull` | src/main/java/com/github/adorow/template/datastructure/Stack.java:56-58 | true exactly when the contents fill the capacity |
| `Stack.IsEmpty` | src/main/java/com/github/adorow/template/datastructure/Stack.java:64-66 | true exactly when the contents are empty |
| `Stack.PushThenPop` | src/main/java/com/github/adorow/template/datastructure/Stack.java:32-42 | last in, first out: `pop` after `push(v)` returns `v` and restores the previous contents |
| `IntStack.New` | src/main/java/com/github/adorow/template/datastructure/IntStack.java:16-19 | a new `IntStack` is empty, has the requested capacity and zero-filled cells |
| `Queue.New` | src/main/java/com/github/adorow/template/datastructure/Queue.java:14-18 | a new queue is empty and has the requested capacity |
| `Queue.Capacity` | src/main/java/com/github/adorow/template/datastructure/Queue.java:24-26 | the array length, never below the number of live elements |
| `Queue.Size` | src/main/java/com/github/adorow/template/datastructure/Queue.java:32-37 | the number of elements enqueued and not yet dequeued |
| `Queue.Empty` | src/main/java/com/github/adorow/template/datastructure/Queue.java:42-44 | afterwards the queue is empty with size 0, and its array and capacity are kept |
| `Queue.IsEmpty` | src/main/java/com/github/adorow/template/datastructure/Queue.java:50-52 | true exactly when there are no live elements, that is when the size is 0 |
| `Queue.Enqueue` | src/main/java/com/github/adorow/template/datastructure/Queue.java:58-60 | below capacity, the value joins the back of the contents, the size grows by one, and only cell `end % capacity` is written |
| `Queue.Dequeue` | src/main/java/com/github/adorow/template/datastructure/Queue.java:66-68 | on a non-empty queue, the returned value is the oldest element, the rest stay in order, and the size shrinks by one |
| `Queue.EnqueueThenDequeue` | src/main/java/com/github/adorow/template/datastructure/Queue.java:58-68 | first in, first out: a value enqueued on an empty queue is the next one out, and the queue is empty again |
| `IntQueue.New` | src/main/java/com/github/adorow/template/datastructure/IntQueue.java:18-22 | a new `IntQueue` is empty with size 0, has the requested capacity and zero-filled cells |
| `Primes.PrimesBelowSpec` | src/main/java/com/github/adorow/template/numbertheory/SieveOfErastosthenes.java:52-57 | the reference list of primes below a bound is strictly increasing and holds exactly the primes below it |
| `Primes.CompositeBelowRoot` | src/main/java/com/github/adorow/template/numbertheory/SieveOfErastosthenes.java:41-43 | below `end`, a number has a proper divisor up to the integer square root of `end` exactly when it is composite; this is why sifting stops at the root |
| `Primes.PrimesBelowHalf` | src/main/java/com/github/adorow/template/numbertheory/SieveOfErastosthenes.java:30-31 | there are at most `n / 2` primes below `n`, the capacity the corrected sieve uses |
| `Primes.PrimesBelow64` | src/main/java/com/github/adorow/template/numbertheory/SieveOfErastosthenes.java:30-31 | the 18 primes below 64, listed |
| `Sieve.WordIndex` | src/main/java/com/github/adorow/template/numbertheory/SieveOfErastosthenes.java:93-95 | the word of `n` is the one whose 32 numbers include `n` |
| `Sieve.BitIndex` | src/main/java/com/github/adorow/template/numbertheory/SieveOfErastosthenes.java:97-99 | the bit of `n` is below 32 and, with the word, locates `n` exactly |
| `Sieve.Marked` | src/main/java/com/github/adorow/template/numbertheory/SieveOfErastosthenes.java:84-86 | the bit test of `isPrime`: `n` is marked when bit `n % 32` of word `n >> 5` is set; `Sieved` states that after a complete run the marked numbers are exactly the composites |
| `Sieve.SetNonPrime` | src/main/java/com/github/adorow/template/numbertheory/SieveOfErastosthenes.java:88-90 | afterwards `n` is marked and every other number keeps its mark |
| `Sieve.RoundedMax` | src/main/java/com/github/adorow/template/numbertheory/SieveOfErastosthenes.java:25-28 | the sieved bound is a multiple of 32 strictly above `maxNumber` and at most 32 above it |
| `Sieve.FloorSqrt` | src/main/java/com/github/adorow/template/numbertheory/SieveOfErastosthenes.java:41 | the integer square root: its square is at most `n`, and the next square is above `n` |
| `Sieve.MarkMultiples` | src/main/java/com/github/adorow/template/numbertheory/SieveOfErastosthenes.java:46-48 | after marking from `2p` in steps of `p`, a number is marked exactly when it was before or is a multiple of `p` above `p` |
| `Sieve.MarkEvens` | src/main/java/com/github/adorow/template/numbertheory/SieveOfErastosthenes.java:25-40 | the bit set covers the rounded bound, the list has the requested size, the marks are the multiples of 2 above 2, and the list holds 2 |
| `Sieve.SiftUpToRoot` | src/main/java/com/github/adorow/template/numbertheory/SieveOfErastosthenes.java:41-50 | after the candidates up to the root, the marks are the numbers with a proper divisor up to the root, and the list holds exactly the primes up to the root; or the list overflowed at a prime with no free slot |
| `Sieve.CollectAboveRoot` | src/main/java/com/github/adorow/template/numbertheory/SieveOfErastosthenes.java:52-57 | above the root every unmarked number is prime, so the list ends up holding exactly the primes below the bound; or it overflowed at a prime with no free slot |
| `Sieve.SiftedIsSieved` | src/main/java/com/github/adorow/template/numbertheory/SieveOfErastosthenes.java:41-57 | sifting up to the root and listing up to the bound yields a sieve whose marks are exactly the composites |
| `Sieve.Sift` | src/main/java/com/github/adorow/template/numbertheory/SieveOfErastosthenes.java:24-58 | with `roundedMax / d` slots the sieve completes exactly when the primes below `roundedMax` fit; it then marks exactly the composites and lists the primes in order; otherwise it stops at the first prime with no slot |
| `Sieve.CalculateUpTo` | src/main/java/com/github/adorow/template/numbertheory/SieveOfErastosthenes.java:24-58 | `calculateUpTo` as written: the list gets a quarter of the rounded bound as slots, and the run succeeds exactly when the prime count fits them; it then leaves a complete sieve of that bound, and otherwise names the first prime with no slot |
| `Sieve.QuarterListTooShort` | src/main/java/com/github/adorow/template/numbertheory/SieveOfErastosthenes.java:30-31 | for every `maxNumber` below 64 the primes below the rounded bound outnumber the slots |
| `Sieve.CalculateUpToCorrected` | src/main/java/com/github/adorow/template/numbertheory/SieveOfErastosthenes.java:24-58 | with half the rounded bound as slots the sieve always completes, marking exactly the composites and listing every prime below the bound |
| `Sieve.NumberOfPrimes` | src/main/java/com/github/adorow/template/numbertheory/SieveOfErastosthenes.java:65-67 | the number of primes below the sieved bound |
| `Sieve.PrimeAtIndex` | src/main/java/com/github/adorow/template/numbertheory/SieveOfErastosthenes.java:75-77 | below the count, the prime with exactly `index` smaller primes; an unused slot reads 0; outside the array, a failure |
| `Sieve.IsPrime` | src/main/java/com/github/adorow/template/numbertheory/SieveOfErastosthenes.java:84-86 | inside the bit set, true exactly for 0, 1 and the primes; outside it, a failure |
| `Sieve.ReportedIffListed` | src/main/java/com/github/adorow/template/numbertheory/SieveOfErastosthenes.java:44-57 | from 2 up, a number is reported prime exactly when it is in the list |
| `Sieve.PrimesAscending` | src/main/java/com/github/adorow/template/numbertheory/SieveOfErastosthenes.java:75-77 | a later index holds a larger prime |
| `Sieve.SievedDeterminedByBound` | src/main/java/com/github/adorow/template/numbertheory/SieveOfErastosthenes.java:25-32 | two complete sieves with the same bound and the same list length, as `calculateUpTo` gives for the same argument, answer every lookup alike |
| `IOClassify.IsMinus` | src/main/java/com/github/adorow/template/IO.java:36-39 | the byte of `-`; `NumberClassesMeaning` states it as the one-character set |
| `IOClassify.IsPlus` | src/main/java/com/github/adorow/template/IO.java:41-44 | the byte of `+`; `NumberClassesMeaning` states it as the one-character set |
| `IOClassify.IsNum` | src/main/java/com/github/adorow/template/IO.java:46-49 | a byte is a digit when it lies between `'0'` and `'9'`; `NumberClassesMeaning` shows these are exactly the ten digit characters |
| `IOClassify.IsLowercase` | src/main/java/com/github/adorow/template/IO.java:51-54 | true exactly for the bytes of the 26 lower-case ASCII letters |
| `IOClassify.IsUppercase` | src/main/java/com/github/adorow/template/IO.java:56-59 | true exactly for the bytes of the 26 upper-case ASCII letters |
| `IOClassify.IsAlpha` | src/main/java/com/github/adorow/template/IO.java:61-64 | true exactly for the bytes of the 52 ASCII letters |
| `IOClassify.IsSpaceOrTab` | src/main/java/com/github/adorow/template/IO.java:66-69 | true exactly for a space or a tab |
| `IOClassify.IsNewLine` | src/main/java/com/github/adorow/template/IO.java:71-74 | true exactly for a carriage return or a line feed |
| `IOClassify.IsAlphaNum` | src/main/java/com/github/adorow/template/IO.java:76-79 | true exactly for the bytes of the ASCII letters and digits |
| `IOClassify.NumberClassesMeaning` | src/main/java/com/github/adorow/template/IO.java:36-49 | the digit test accepts exactly the characters `0` to `9`, the sign tests exactly `-` and `+`, and `readInt` stops skipping exactly at one of those twelve characters |
| `IOClassify.EndOfInputIsNoClass` | src/main/java/com/github/adorow/template/IO.java:14 | the end-of-input value -1 is in none of the classes |
| `IOInput.Read` | src/main/java/com/github/adorow/template/IO.java:214-222 | `EOF` exactly at the end of the input, which then stays as it is; otherwise an unsigned byte, with one byte fewer left |
| `IOInput.ReadPushBack` | src/main/java/com/github/adorow/template/IO.java:214-222 | pushing back the byte `read` returned restores the input |
| `IOInput.IsEndOfFile` | src/main/java/com/github/adorow/template/IO.java:103-109 | true exactly when the input is exhausted; the input is unchanged either way |
| `IOInput.SkipToNumber` | src/main/java/com/github/adorow/template/IO.java:245-247 | `EOF` exactly when no digit or sign remains, and then everything is consumed; otherwise the first digit or sign, with only the bytes up to it consumed |
| `IOInput.AccumulateDigits` | src/main/java/com/github/adorow/template/IO.java:257-261 | the accumulator stays in the width's range, and on a non-digit nothing is read |
| `IOInput.AccumulateDigitsReadsRun` | src/main/java/com/github/adorow/template/IO.java:257-261 | over a digit run followed by a non-digit or the end, the loop yields the run's value (continuing the accumulator) wrapped to the width, and consumes the run and its terminator |
| `IOInput.ReadSignedDigits` | src/main/java/com/github/adorow/template/IO.java:248-262 | from the first digit or sign: the result is in the width's range; a byte that starts no number yields 0 and reads nothing more; a minus followed by no digit or sign yields 0 and consumes the byte after it; `ReadSignedDigitsReads` gives the value of a digit run |
| `IOInput.ReadUnsignedDigits` | src/main/java/com/github/adorow/template/IO.java:254-261 | after the minus: the result is in the width's range; with neither a plus nor a digit it is 0 and nothing is read; a plus followed by no digit yields 0 and consumes the byte after it |
| `IOInput.ReadNumber` | src/main/java/com/github/adorow/template/IO.java:243-263 | the result is in the width's range, and an input with no digit or sign gives `EOF` and is consumed entirely |
| `IOInput.ReadNumberReads` | src/main/java/com/github/adorow/template/IO.java:243-288 | after junk holding no digit or sign, an optional minus, then an optional plus, then a digit run: the signed value wrapped to the width, with the input left just past the run's terminator |
| `IOOutput.NewOutput` | src/main/java/com/github/adorow/template/IO.java:23-24 | a new writer has written nothing |
| `IOOutput.WriteOut` | src/main/java/com/github/adorow/template/IO.java:384-389 | the byte is appended to everything written; the buffer position stays within 8192 |
| `IOOutput.WriteOutChar` | src/main/java/com/github/adorow/template/IO.java:394-396 | appends the low byte of the UTF-16 unit |
| `IOOutput.WriteOutAll` | src/main/java/com/github/adorow/template/IO.java:419-424 | appends the bytes, in order |
| `IOOutput.WriteOutRange` | src/main/java/com/github/adorow/template/IO.java:419-424 | with `end = offset + length` wrapped to `int`: nothing when `end <= offset`; otherwise the cells from `offset` below `end` in order, or, when an index falls outside the array, the in-range cells from `offset` and then the exception |
| `IOOutput.WriteOutBytes` | src/main/java/com/github/adorow/template/IO.java:408-410 | `writeOut(byte[])` never throws and appends the whole array |
| `IOOutput.WriteOutChars` | src/main/java/com/github/adorow/template/IO.java:440-445 | the same for a `char[]`, writing the low byte of each UTF-16 unit, including the partial write before the exception |
| `IOOutput.WriteOutCharArray` | src/main/java/com/github/adorow/template/IO.java:428-430 | `writeOut(char[])` never throws and appends the low byte of every unit |
| `IOOutput.WriteOutString` | src/main/java/com/github/adorow/template/IO.java:502-506 | appends the low byte of each UTF-16 unit of the string, one byte per unit |
| `IOOutput.WriteOutStringLatin1` | src/main/java/com/github/adorow/template/IO.java:502-506 | a string writes the same bytes as `writeOut(char[])` of its units, and text whose units are all below 256 is written as itself |
| `IOOutput.SurrogatePairWritesTwoBytes` | src/main/java/com/github/adorow/template/IO.java:502-506 | a character outside the Basic Multilingual Plane is two units and so two bytes: U+1F600 writes `3D 00` |
| `IOOutput.WriteOutLn` | src/main/java/com/github/adorow/template/IO.java:401-403 | appends a line feed |
| `IOOutput.WriteOutToStream` | src/main/java/com/github/adorow/template/IO.java:528-531 | the pending bytes move to the stream and the buffer position returns to 0; nothing written is lost or repeated |
| `IOOutput.Flush` | src/main/java/com/github/adorow/template/IO.java:536-539 | afterwards the stream holds everything written and the buffer is empty |
| `IOOutput.DecimalDigits` | src/main/java/com/github/adorow/template/IO.java:463-467 | the digit loop yields a non-empty run of decimal digits without a leading zero |
| `IOOutput.DigitsFitBuffer` | src/main/java/com/github/adorow/template/IO.java:452-497 | the digits of a positive `int` fit the 10-character buffer and those of a positive `long` the 20-character buffer |
| `IOOutput.NumberText` | src/main/java/com/github/adorow/template/IO.java:456-470 | the text `writeOutNumber` writes is never empty, starts with a minus exactly for a negative value, and is digits after that (for the minimum value there are none) |
| `IOOutput.NumberTextAgreesExceptMin` | src/main/java/com/github/adorow/template/IO.java:452-497 | for every value other than the width's minimum, the text `writeOutNumber` writes equals the corrected full decimal text |
| `IOOutput.NumberTextOfMin` | src/main/java/com/github/adorow/template/IO.java:460-470 | for the width's minimum only the minus sign is written |
| `IOOutput.WriteOutNumber` | src/main/java/com/github/adorow/template/IO.java:452-497 | appends the number's text as written |
| `IOOutput.WriteOutNumberCorrected` | src/main/java/com/github/adorow/template/IO.java:452-497 | appends the full decimal text of the value |
| `IOOutput.BinaryDigits` | src/main/java/com/github/adorow/template/IO.java:519-523 | the shift loop yields a run of binary digits starting with 1 |
| `IOOutput.BinaryText` | src/main/java/com/github/adorow/template/IO.java:511-525 | "0" for zero, binary digits from a leading 1 for a positive number, and nothing for a negative one |
| `IOOutput.BinaryTextValue` | src/main/java/com/github/adorow/template/IO.java:511-525 | the binary text of a non-negative `int` reads back as the number and has at most 31 digits, so it fits the 32-character buffer |
| `IOOutput.WriteOutNumberAsBinary` | src/main/java/com/github/adorow/template/IO.java:511-525 | appends the binary text |
| `IORoundTrip.DecimalDigitsValue` | src/main/java/com/github/adorow/template/IO.java:463-467 | the digits the writer produces have the number's decimal value |
| `IORoundTrip.RoundTrip` | src/main/java/com/github/adorow/template/IO.java:243-288 | for every value except the width's minimum, reading back what `writeOutNumber` wrote (after junk without digits or signs, before a non-digit) gives the value and consumes up to the terminator |
| `IORoundTrip.RoundTripCorrected` | src/main/java/com/github/adorow/template/IO.java:243-288 | the same round trip holds for every value of the width with the corrected text |
| `IORoundTrip.MinValueReadsAsZero` | src/main/java/com/github/adorow/template/IO.java:460-470 | `Integer.MIN_VALUE` and `Long.MIN_VALUE` written and followed by a blank read back as 0 |
| `IORoundTrip.WrittenNumberReadsBack` | src/main/java/com/github/adorow/template/IO.java:384-497 | through the buffered writer as written: whatever was written before (if it holds no digit or sign), the number `writeOutNumber` writes next reads back as itself, for every value except the width's minimum |
| `IORoundTrip.WrittenNumberReadsBackCorrected` | src/main/java/com/github/adorow/template/IO.java:384-497 | the same through the writer with the corrected text, for every value of the width |

## Left out

- Stream handling in `IO` is not modelled: the choice of standard or file streams (`useStdIn`, `useFileIn`, `useStdOut`, `useFileOut`), refilling the 8192-byte input buffer from `in.read`, and `out.write`/`out.flush`. The input is the sequence of bytes still to be read, and the output stream is the sequence of bytes handed to it.
- `readDouble` is not modelled. It is floating-point arithmetic.
- `readText`, `readChar`, `skipBlanks`, `skipToNextNewLine`, `hasInput`, `isEndOfLine`, `moveToNextWord` and `skipWord` are not modelled. They work on characters cast from `read`'s `int` (end of input becomes the `char` 65535) and lie outside the number reader and writer.
- IOOutput.WriteOutString, `IOOutput.WriteOutChar` and `IOOutput.WriteOutChars` take Java text as UTF-16 units (`JChar`). A Dafny `string` holds Unicode scalar values, so text given as a Dafny `string` has to be encoded as UTF-16 first; the encoding is not modelled.
- `Geometry2dUtil` and `Geometry3dUtil` are not modelled. Their results are `double`s computed by `Math.sqrt`.
- The sieve benchmark is not modelled. It only measures wall-clock time and prints.
- Sieve.FloorSqrt: `(int) Math.sqrt(end)` is modelled as the exact integer square root. The two agree for every `int`, and floating point is not modelled.
- `Sieve.Sift` requires `0 <= maxNumber < 0x7FFF0000`, a conservative cut-off below which no `int` computation of the method overflows. The real limits are higher: the marking loop's `num += prime` can only overflow once the rounded bound exceeds about `2^31 - 46340` (0x7FFF4AE0), and the rounding itself overflows from `2^31 - 32` on. For `-32 <= maxNumber <= -1` both arrays get length 0 and the Java code throws at the store of 2 into `primes` (line 40). For `maxNumber < -32` it throws on the negative array size (line 26).
- `Sieve.CalculateUpTo` states when the list overflows (the prime count against the slots) but not the general bound π(N) ≤ N/4 for large N, which is a number-theoretic fact beyond this model.
- Sieve.PrimeAtIndex and `Sieve.IsPrime` model Java's array index exception as the `OutOfBounds` answer. The exception state is not modelled, and neither is the `NullPointerException` before the first `calculateUpTo`, which `Unsieved` answers with `OutOfBounds`.
- `Sieve.CalculateUpTo` reports the list overflow as an outcome (`PrimeListOverflow`) in place of the exception. The partly filled arrays that the exception leaves behind are not modelled.
- `IOOutput.WriteOutRange` and `IOOutput.WriteOutChars` report the array index exception as the `Threw` outcome, carrying the writer with the bytes written before it. The exception object itself is not modelled.
- ArrayUtil.BinSearchLowerEqual: only safety is stated. The result is in range and never holds a larger value. The documented promise (the index of the closest smaller value) does not hold, and the code carries a FIXME note beside it. For `[10, 20]` searching 25 it returns index 0, not 1.
- ArrayUtil.BinSearchUpperEqual and `ArrayUtil.BinSearchLowerEqual` use the unbounded midpoint `(lo + hi) / 2`. Java's `(end + ini) >> 1` there turns negative once `ini + end` exceeds 2^31 - 1, and that case is not modelled. `binSearchExact` uses `>>> 1`, which gives the true midpoint even when the sum wraps, so its model is exact.
- `Stack.Push`, `Stack.Pop` and `Stack.Peek` require a stack that is not full or not empty. On a full or empty stack the Java code throws an array index exception, which is not modelled. The same holds for `Queue.Enqueue` beyond capacity, where Java silently overwrites the oldest element, and for `Queue.Dequeue` on an empty queue, where Java returns a stale cell. These uses break the classes' documented contract.
- Queue.Size: the counters are unbounded, so `size()`'s second branch (`ini > end`) is never taken. Java reaches that branch only after its `int` counter `end` wraps past 2^31 - 1, and there it does not compute the size: with `ini = 2^31 - 2` and `end` wrapped to `-2^31`, two elements are live but `(capacity - end) + ini` gives `capacity - 2` in Java's arithmetic.
- Stack.New and `Queue.New` take a `blank` element for the cells of a new array. It stands for Java's `null` in the generic classes and for `0` in `IntStack` and `IntQueue`.
- IOInput.ReadNumber: the `EOF` answer (-1) cannot be told apart from reading the number -1, as in Java.

## Findings

| source | as written | input that shows it | evidently intended | confidence | as-written member | corrected member |
|---|---|---|---|---|---|---|
| src/main/java/com/github/adorow/template/numbertheory/SieveOfErastosthenes.java:30-31 | the prime list gets `roundedMax / 4` slots, "always enough" | `calculateUpTo(10)`: 11 primes below 32 but 8 slots, so the store of 23 at line 55 is out of bounds; every `maxNumber` up to 63 fails (18 primes below 64, 16 slots) | a list large enough for every prime below the bound (half the bound always is) | not executed | `Sieve.QuarterListTooShort` | `Sieve.CalculateUpToCorrected` |
| src/main/java/com/github/adorow/template/IO.java:460-470 | `value = -value` overflows for the minimum value, the digit loop does not run, and only `-` is written | `writeOutNumber(Integer.MIN_VALUE)` writes `-`, which `readInt` reads back as 0 (likewise `Long.MIN_VALUE`) | the full text `-2147483648` (`-9223372036854775808` for `long`) | not executed | `IORoundTrip.MinValueReadsAsZero` | `IORoundTrip.RoundTripCorrected` |
