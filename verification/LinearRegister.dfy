/**
 A register that takes the bits of an operand one at a time ends where the register
 combined with the whole operand at once ends.
 */
module LinearRegister {

  function Iterate<T>(f: T -> T, x: T, n: nat): T
    decreases n
  {
    if n == 0 then x else Iterate(f, f(x), n - 1)
  }

  /** Bits enter one by one: a set bit flips the register before the step. */
  function Fold<T>(f: T -> T, flip: T -> T, x: T, bits: seq<bool>): T
    decreases |bits|
  {
    if bits == [] then x else Fold(f, flip, f(if bits[0] then flip(x) else x), bits[1..])
  }

  /** The `n` lowest bits of an operand, lowest first. */
  function BitsOf<T>(low: T -> bool, half: T -> T, x: T, n: nat): seq<bool>
    decreases n
  {
    if n == 0 then [] else [low(x)] + BitsOf(low, half, half(x), n - 1)
  }

  ghost predicate Distributes<T(!new)>(f: T -> T, op: (T, T) -> T) {
    forall x, y :: f(op(x, y)) == op(f(x), f(y))
  }

  /** `clear` takes away the lowest bit, which `flip` can carry instead; without it a step halves. */
  ghost predicate Clears<T(!new)>(f: T -> T, op: (T, T) -> T, flip: T -> T,
                                  low: T -> bool, half: T -> T, clear: T -> T) {
    && (forall x, y :: low(y) ==> op(x, y) == op(flip(x), clear(y)))
    && (forall y :: !low(y) ==> clear(y) == y)
    && (forall y :: f(clear(y)) == half(y))
  }

  /** One step of a combination consumes the lowest bit of the second part. */
  ghost predicate Peels<T(!new)>(f: T -> T, op: (T, T) -> T, flip: T -> T, low: T -> bool, half: T -> T) {
    forall x, y :: f(op(x, y)) == op(f(if low(y) then flip(x) else x), half(y))
  }

  lemma LinearPeels<T(!new)>(f: T -> T, op: (T, T) -> T, flip: T -> T, low: T -> bool, half: T -> T, clear: T -> T)
    requires Distributes(f, op) && Clears(f, op, flip, low, half, clear)
    ensures Peels(f, op, flip, low, half)
  {
    forall x, y ensures f(op(x, y)) == op(f(if low(y) then flip(x) else x), half(y)) {
      assert f(clear(y)) == half(y);
    }
  }

  lemma {:induction false} FoldIsIterate<T(!new)>(f: T -> T, op: (T, T) -> T, flip: T -> T,
                                                  low: T -> bool, half: T -> T, x: T, y: T, n: nat)
    requires Peels(f, op, flip, low, half)
    ensures Iterate(f, op(x, y), n) == op(Fold(f, flip, x, BitsOf(low, half, y, n)), Iterate(half, y, n))
  {
    if n > 0 {
      var bits := BitsOf(low, half, y, n);
      assert bits[1..] == BitsOf(low, half, half(y), n - 1);
      FoldIsIterate(f, op, flip, low, half, f(if low(y) then flip(x) else x), half(y), n - 1);
    }
  }

  /** With a neutral `zero`: an operand that `n` bits exhaust enters as the combination would. */
  lemma FoldFromZero<T(!new)>(f: T -> T, op: (T, T) -> T, flip: T -> T, low: T -> bool, half: T -> T,
                              zero: T, x: T, y: T, n: nat)
    requires Peels(f, op, flip, low, half)
    requires forall t :: op(zero, t) == t && op(t, zero) == t
    requires Iterate(half, y, n) == zero
    ensures Fold(f, flip, x, BitsOf(low, half, y, n))
         == op(Fold(f, flip, zero, BitsOf(low, half, op(x, y), n)), Iterate(half, op(x, y), n))
  {
    FoldIsIterate(f, op, flip, low, half, x, y, n);
    FoldIsIterate(f, op, flip, low, half, zero, op(x, y), n);
  }

  /** The first eight bits of an operand. */
  function Octet<T>(low: T -> bool, half: T -> T, x: T): seq<bool> {
    var y := half(half(half(half(x))));
    [low(x), low(half(x)), low(half(half(x))), low(half(half(half(x)))),
     low(y), low(half(y)), low(half(half(y))), low(half(half(half(y))))]
  }

  lemma FourBits<T>(low: T -> bool, half: T -> T, x: T, n: nat)
    ensures BitsOf(low, half, x, n + 4)
         == [low(x), low(half(x)), low(half(half(x))), low(half(half(half(x))))]
            + BitsOf(low, half, half(half(half(half(x)))), n)
  {
    assert BitsOf(low, half, x, n + 4) == [low(x)] + BitsOf(low, half, half(x), n + 3);
    assert BitsOf(low, half, half(x), n + 3) == [low(half(x))] + BitsOf(low, half, half(half(x)), n + 2);
  }

  lemma FirstOctet<T>(low: T -> bool, half: T -> T, x: T, n: nat)
    ensures BitsOf(low, half, x, n + 8) == Octet(low, half, x) + BitsOf(low, half, Iterate(half, x, 8), n)
  {
    var y := half(half(half(half(x))));
    FourBits(low, half, x, n + 4);
    FourBits(low, half, y, n);
    assert Iterate(half, x, 8) == Iterate(half, y, 4) == half(half(half(half(y))));
  }

  lemma BitsAreOctet<T>(low: T -> bool, half: T -> T, x: T)
    ensures BitsOf(low, half, x, 8) == Octet(low, half, x)
  {
    FirstOctet(low, half, x, 0);
  }

  lemma {:induction false} FoldAppend<T>(f: T -> T, flip: T -> T, x: T, front: seq<bool>, back: seq<bool>)
    ensures Fold(f, flip, x, front + back) == Fold(f, flip, Fold(f, flip, x, front), back)
    decreases |front|
  {
    if front == [] {
      assert front + back == back;
    } else {
      assert (front + back)[1..] == front[1..] + back;
      FoldAppend(f, flip, f(if front[0] then flip(x) else x), front[1..], back);
    }
  }
}
