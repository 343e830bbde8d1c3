/**
  The integer part of ch15/calculator.cpp: sum, difference and product of the
  two numbers read, the re-prompting y/n question, and the factorial loop.
  The characters the program reads after the two numbers are a parameter;
  the quotient, which is computed in `float`, is not modelled.
 */
module Calculator {
  import opened Wrappers
  import opened MachineInt

  /** `lval + rval`; signed overflow is undefined, so the sum must fit. */
  function Add(lval: int, rval: int): (sum: int)
    requires IsInt32(lval) && IsInt32(rval) && IsInt32(lval + rval)
    ensures IsInt32(sum) && sum - rval == lval
  {
    lval + rval
  }

  /** `lval - rval`. */
  function Subtract(lval: int, rval: int): (difference: int)
    requires IsInt32(lval) && IsInt32(rval) && IsInt32(lval - rval)
    ensures IsInt32(difference) && difference + rval == lval
  {
    lval - rval
  }

  /** `lval * rval`. */
  function Mult(lval: int, rval: int): (product: int)
    requires IsInt32(lval) && IsInt32(rval) && IsInt32(lval * rval)
    ensures IsInt32(product)
    ensures product == 0 <==> lval == 0 || rval == 0
  {
    lval * rval
  }

  /** Subtracting the second number from the printed sum gives back the
      first, and adding it to the printed difference does too. */
  lemma AddSubtractInverse(lval: int, rval: int)
    requires IsInt32(lval) && IsInt32(rval) && IsInt32(lval + rval) && IsInt32(lval - rval)
    ensures Subtract(Add(lval, rval), rval) == lval
    ensures Add(Subtract(lval, rval), rval) == lval
  {
  }

  /** The answers the loop accepts. */
  predicate IsYesNo(c: char)
  {
    c == 'y' || c == 'Y' || c == 'n' || c == 'N'
  }

  predicate IsYes(c: char)
  {
    c == 'y' || c == 'Y'
  }

  /** The characters `operator>>` skips before a `char` (`isspace` in the
      "C" locale). */
  predicate IsSpace(c: char)
  {
    c == ' ' || c == '\t' || c == '\n' || c == '\U{B}' || c == '\U{C}' || c == '\r'
  }

  /** `cin >> c`: skips whitespace and extracts the next character, with the
      rest of the input; `None` when only whitespace is left. */
  function ReadChar(input: seq<char>): (r: Option<(char, seq<char>)>)
    ensures r.None? <==> forall i :: 0 <= i < |input| ==> IsSpace(input[i])
    ensures r.Some? ==> |r.value.1| < |input|
    ensures r.Some? ==> var k := |input| - |r.value.1| - 1;
      && input[k] == r.value.0 && !IsSpace(r.value.0)
      && r.value.1 == input[k + 1..]
      && forall j :: 0 <= j < k ==> IsSpace(input[j])
  {
    if |input| == 0 then None
    else if IsSpace(input[0]) then ReadChar(input[1..])
    else Some((input[0], input[1..]))
  }

  /** The re-prompting loop: reads characters until one is y, Y, n or N.
      `None` when the input runs out first. The source has no defined
      outcome then: if not even one character could be read, it tests an
      uninitialised `char`; otherwise a failed extraction leaves the last
      character as it was and the loop never ends. */
  function PromptAnswer(input: seq<char>): (r: Option<char>)
    ensures r.Some? ==> IsYesNo(r.value)
    decreases |input|
  {
    match ReadChar(input)
    case None => None
    case Some((c, rest)) => if IsYesNo(c) then Some(c) else PromptAnswer(rest)
  }

  /** None of the first `n` characters is an accepted answer. */
  ghost predicate NoAnswerBefore(input: seq<char>, n: nat)
    requires n <= |input|
  {
    forall j :: 0 <= j < n ==> !IsYesNo(input[j])
  }

  /** No answer among the first `k + 1` characters, and none among the first
      `n` of the rest after them, means none among the first `k + 1 + n`. */
  lemma NoAnswerJoin(input: seq<char>, k: nat, n: nat)
    requires k < |input| && n <= |input| - k - 1
    requires NoAnswerBefore(input, k + 1) && NoAnswerBefore(input[k + 1..], n)
    ensures NoAnswerBefore(input, k + 1 + n)
  {
    forall j | k + 1 <= j < k + 1 + n
      ensures !IsYesNo(input[j])
    {
      assert input[j] == input[k + 1..][j - k - 1];
    }
  }

  /** The loop settles on the first y, Y, n or N of the input, whatever
      precedes it, and finds none exactly when the input holds none. */
  lemma {:induction false} PromptAnswerIsFirstYesNo(input: seq<char>)
    ensures PromptAnswer(input).None? <==> NoAnswerBefore(input, |input|)
    ensures PromptAnswer(input).Some? ==>
      (exists i :: 0 <= i < |input| && input[i] == PromptAnswer(input).value && NoAnswerBefore(input, i))
    decreases |input|
  {
    var r := ReadChar(input);
    if r.Some? {
      var c, rest := r.value.0, r.value.1;
      var k := |input| - |rest| - 1;
      assert NoAnswerBefore(input, k);
      if IsYesNo(c) {
        assert input[k] == c;
      } else {
        assert NoAnswerBefore(input, k + 1);
        PromptAnswerIsFirstYesNo(rest);
        if PromptAnswer(rest).Some? {
          var i :| 0 <= i < |rest| && rest[i] == PromptAnswer(rest).value && NoAnswerBefore(rest, i);
          NoAnswerJoin(input, k, i);
          assert input[k + 1 + i] == rest[i];
        } else {
          NoAnswerJoin(input, k, |rest|);
        }
      }
    }
  }

  /** n! for n >= 1, and 1 for every n <= 0. */
  function Fact(n: int): (f: nat)
    ensures f >= 1
  {
    if n <= 0 then 1 else n * Fact(n - 1)
  }

  /** Factorials grow with their argument, so for arguments up to 12 they
      stay within `Fact(12) == 479001600 <= INT_MAX`. */
  lemma {:induction false} FactMonotone(m: int, n: int)
    requires m <= n
    ensures Fact(m) <= Fact(n)
    decreases n - m
  {
    if m < n {
      FactMonotone(m, n - 1);
    }
  }

  /** The factorial loop: starting from 1, multiplies by each of 1 .. lval
      in turn. `13!` overflows an `int`, so `lval` is at most 12; every
      intermediate product then fits in an `int`. */
  method FactorialLoop(lval: int) returns (factorial: int)
    requires IsInt32(lval) && lval <= 12
    ensures factorial == Fact(lval)
    ensures IsInt32(factorial)
    ensures lval <= 0 ==> factorial == 1
  {
    // every product below is at most Fact(12) == 479001600 <= INT_MAX
    factorial := 1;
    var i := 1;
    while i <= lval
      invariant 1 <= i <= (if lval >= 1 then lval + 1 else 1)
      invariant factorial == Fact(i - 1)
      invariant IsInt32(factorial)
      decreases lval - i
    {
      FactMonotone(i, 12);
      assert IsInt32(factorial * i);
      factorial := factorial * i;
      i := i + 1;
    }
  }

  /** `main` after the two numbers are read. The factorial is computed only
      on y or Y; on n or N it stays 1. The answer is `None` when the input
      holds no y, Y, n or N, where the source has no defined outcome (see
      `PromptAnswer`). */
  method Calculate(lval: int, rval: int, input: seq<char>)
    returns (sum: int, difference: int, product: int, answer: Option<char>, factorial: int)
    requires IsInt32(lval) && IsInt32(rval)
    requires IsInt32(lval + rval) && IsInt32(lval - rval) && IsInt32(lval * rval)
    requires PromptAnswer(input).Some? && IsYes(PromptAnswer(input).value) ==> lval <= 12
    ensures sum == lval + rval && difference == lval - rval && product == lval * rval
    ensures answer == PromptAnswer(input)
    ensures answer.Some? && IsYes(answer.value) ==> factorial == Fact(lval)
    ensures !(answer.Some? && IsYes(answer.value)) ==> factorial == 1
  {
    sum := Add(lval, rval);
    difference := Subtract(lval, rval);
    product := Mult(lval, rval);
    answer := PromptAnswer(input);
    factorial := 1;
    if answer.Some? && IsYes(answer.value) {
      factorial := FactorialLoop(lval);
    }
  }
}
