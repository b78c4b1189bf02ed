/**
 The sequence loop (automation/automation/loop_handler.go:29-54 and
 automation/automation/iterators.go:10-34) in 64-bit arithmetic that wraps around.
 */
module SequenceLoop {
  import opened WorkflowTypes

  const MIN64: int := -0x8000_0000_0000_0000
  const MAX64: int := 0x7fff_ffff_ffff_ffff
  const TWO64: int := 0x1_0000_0000_0000_0000

  newtype int64 = x: int | -0x8000_0000_0000_0000 <= x < 0x8000_0000_0000_0000

  /** The 64-bit value of a sum. */
  function Wrap(x: int): (r: int64) {
    ((x - MIN64) % TWO64 + MIN64) as int64
  }

  /** The counter of the next round. */
  function Advance(counter: int64, step: int64): int64 {
    Wrap(counter as int + step as int)
  }

  lemma WrapMeaning(x: int)
    ensures MIN64 <= x <= MAX64 ==> Wrap(x) as int == x
    ensures MAX64 < x <= MAX64 + TWO64 ==> Wrap(x) as int == x - TWO64
    ensures MIN64 - TWO64 <= x < MIN64 ==> Wrap(x) as int == x + TWO64
  {
  }

  /** The arguments as given, and what the check makes of them; a zero step panics. */
  datatype Given = Given(first: Option<int64>, last: Option<int64>, step: Option<int64>)

  datatype Start = Accepted(first: int64, last: int64, step: int64) | Refused | DivisionByZero

  function OrDefault(x: Option<int64>, d: int64): int64 {
    if x.Some? then x.value else d
  }

  /** Defaults, and the check; it compares both ends times step/step, which is one. */
  function SequenceStart(a: Given): Start {
    var first, last, step := OrDefault(a.first, 0), OrDefault(a.last, 1), OrDefault(a.step, 1);
    if step == 0 then DivisionByZero
    else if first >= last then Refused
    else Accepted(first, last, step)
  }

  /** What the body of the loop sees. */
  datatype Item = Item(counter: int64, isFirst: bool, isLast: bool)

  class SequenceIterator {
    var counter: int64
    const first: int64
    const last: int64
    const step: int64

    constructor (first: int64, last: int64, step: int64)
      ensures counter == first && this.first == first && this.last == last && this.step == step
    {
      counter, this.first, this.last, this.step := first, first, last, step;
    }

    function More(): bool
      reads this
    {
      counter < last
    }

    method Next() returns (item: Item)
      modifies this`counter
      ensures counter == Advance(old(counter), step)
      ensures item == Item(old(counter), old(counter) == first, !More())
    {
      var c := counter;
      counter := Advance(counter, step);
      return Item(c, c == first, !More());
    }

    /** Runs the loop for at most `n` rounds; done tells that it ended by itself. */
    method Drive(n: nat) returns (items: seq<Item>, done: bool)
      modifies this`counter
      ensures items == Items(old(counter), first, last, step, n)
      ensures done == Ends(old(counter), last, step, n)
    {
      items := [];
      ghost var start := counter;
      for i := 0 to n
        invariant items + Items(counter, first, last, step, n - i) == Items(start, first, last, step, n)
        invariant Ends(counter, last, step, n - i) == Ends(start, last, step, n)
      {
        if !More() {
          return items, true;
        }
        ghost var c := counter;
        var item := Next();
        assert items + ([item] + Items(counter, first, last, step, n - i - 1))
               == (items + [item]) + Items(counter, first, last, step, n - i - 1);
        items := items + [item];
      }
      return items, !More();
    }
  }

  /** Arguments of the loop. */
  class Args {
    var first: int64
    var last: int64
    var step: int64
    const hasFirst: bool
    const hasLast: bool
    const hasStep: bool

    function AsGiven(): Given
      reads this
    {
      Given(
        if hasFirst then Some(first) else None,
        if hasLast then Some(last) else None,
        if hasStep then Some(step) else None)
    }

    /** Fills in the defaults and builds the iterator. */
    method Sequence() returns (start: Start, i: SequenceIterator?)
      modifies this`first, this`last, this`step
      ensures start == SequenceStart(old(AsGiven()))
      ensures start.Accepted? <==> i != null
      ensures i != null ==> fresh(i) && i.counter == i.first && Accepted(i.first, i.last, i.step) == start
    {
      if !hasFirst { first := 0; }
      if !hasLast { last := 1; }
      if !hasStep { step := 1; }
      if step == 0 {
        return DivisionByZero, null;
      }
      hide Wrap;
      var one := step / step;
      assert first as int * one as int == first as int && last as int * one as int == last as int;
      WrapMeaning(first as int);
      WrapMeaning(last as int);
      if Wrap(first as int * one as int) >= Wrap(last as int * one as int) {
        return Refused, null;
      }
      i := new SequenceIterator(first, last, step);
      return Accepted(first, last, step), i;
    }
  }

  /** The items of at most n rounds. */
  function Items(counter: int64, first: int64, last: int64, step: int64, n: nat): seq<Item>
    decreases n
  {
    if n == 0 || counter >= last then []
    else
      var next := Advance(counter, step);
      [Item(counter, counter == first, next >= last)] + Items(next, first, last, step, n - 1)
  }

  /** The loop ends by itself within n rounds. */
  predicate Ends(counter: int64, last: int64, step: int64, n: nat)
    decreases n
  {
    counter >= last || (n > 0 && Ends(Advance(counter, step), last, step, n - 1))
  }

  /** Number of steps from one value to another, rounded up. */
  function Ceiling(distance: nat, step: nat): nat
    requires step > 0
  {
    (distance + step - 1) / step
  }

  lemma CeilingStep(distance: nat, step: nat)
    requires step > 0
    ensures distance > step ==> Ceiling(distance, step) == 1 + Ceiling(distance - step, step)
    ensures 0 < distance <= step ==> Ceiling(distance, step) == 1
    ensures distance > 0 ==> Ceiling(distance, step) > 0
    ensures distance <= Ceiling(distance, step) * step < distance + step
  {
    var q, r := (distance + step - 1) / step, (distance + step - 1) % step;
    assert distance + step - 1 == q * step + r;
    Factors(q, step);
    if distance > step {
      assert distance - 1 == (q - 1) * step + r;
      QuotientIs(distance - 1, step, q - 1, r);
    } else if 0 < distance {
      QuotientIs(distance + step - 1, step, 1, distance - 1);
    }
  }

  // A product with a positive factor has the sign of the other one and, if not zero, at least its size.
  lemma Factors(d: int, b: int)
    requires b > 0
    ensures d > 0 <==> d * b >= b
    ensures d < 0 <==> d * b <= -b
    ensures d > 0 <==> d * b > 0
  {
    if d > 0 {
      assert (d - 1) * b >= 0;
    } else if d < 0 {
      assert (-d - 1) * b >= 0;
    }
  }

  lemma QuotientIs(a: nat, b: nat, q: int, r: nat)
    requires b > 0 && r < b && a == q * b + r
    ensures a / b == q
  {
    var d := a / b - q;
    assert a == (a / b) * b + a % b;
    assert d * b == r - a % b;
    Factors(d, b);
  }

  /** The items of a sequence that counts up without wrapping around. */
  predicate CountsUp(items: seq<Item>, counter: int, first: int64, step: int, n: nat) {
    && |items| == n
    && forall k | 0 <= k < n ::
         && items[k].counter as int == counter + k * step
         && items[k].isFirst == (items[k].counter == first)
         && (items[k].isLast <==> k == n - 1)
  }

  lemma {:induction false} CountingUp(counter: int64, first: int64, last: int64, step: int64, n: nat)
    requires step > 0 && counter < last
    requires n == Ceiling((last as int - counter as int) as nat, step as nat)
    requires counter as int + n * step as int <= MAX64
    ensures n > 0 && CountsUp(Items(counter, first, last, step, n), counter as int, first, step as int, n)
    ensures Ends(counter, last, step, n) && !Ends(counter, last, step, n - 1)
    decreases n
  {
    var c, l, s := counter as int, last as int, step as int;
    CeilingStep((l - c) as nat, s as nat);
    Factors(n, s);
    var next := Advance(counter, step);
    WrapMeaning(c + s);
    hide Wrap;
    assert next as int == c + s;
    if l - c > s {
      assert (n - 1) * s == n * s - s;
      CeilingStep((l - c - s) as nat, s as nat);
      hide Ceiling;
      CountingUp(next, first, last, step, n - 1);
      CountsUpFromNext(counter, first, last, step, n);
    } else {
      assert n == 1;
      assert Items(next, first, last, step, 0) == [];
    }
  }

  lemma CountsUpFromNext(counter: int64, first: int64, last: int64, step: int64, n: nat)
    requires counter < last && Advance(counter, step) < last && n > 1
    requires Advance(counter, step) as int == counter as int + step as int
    requires CountsUp(Items(Advance(counter, step), first, last, step, n - 1),
                      Advance(counter, step) as int, first, step as int, n - 1)
    ensures CountsUp(Items(counter, first, last, step, n), counter as int, first, step as int, n)
  {
    var next, c, s := Advance(counter, step), counter as int, step as int;
    var items, rest := Items(counter, first, last, step, n), Items(next, first, last, step, n - 1);
    assert items == [Item(counter, counter == first, next >= last)] + rest;
    hide Items, Advance;
    forall k | 0 < k < n
      ensures items[k].counter as int == c + k * s
      ensures items[k].isFirst == (items[k].counter == first)
      ensures items[k].isLast <==> k == n - 1
    {
      assert items[k] == rest[k - 1];
      assert (k - 1) * s == k * s - s;
    }
  }

  /**
   Loop count: an accepted loop with a positive step runs exactly ceil((last - first) / step)
   times, over first + k * step, with isFirst on the first round only and isLast on the last round
   only, if and only if the counter behind the last round still fits in 64 bits.
   */
  lemma LoopCount(first: int64, last: int64, step: int64)
    requires step > 0 && first < last
    ensures var n := Ceiling((last as int - first as int) as nat, step as nat);
            (&& Ends(first, last, step, n)
             && CountsUp(Items(first, first, last, step, n), first as int, first, step as int, n))
            <==> first as int + n * step as int <= MAX64
    ensures var n := Ceiling((last as int - first as int) as nat, step as nat);
            first as int + n * step as int <= MAX64 ==>
              (forall k | 0 <= k < n :: Items(first, first, last, step, n)[k].isFirst <==> k == 0)
  {
    var f, l, s := first as int, last as int, step as int;
    var n := Ceiling((l - f) as nat, s as nat);
    CeilingStep((l - f) as nat, s as nat);
    if f + n * s <= MAX64 {
      CountingUp(first, first, last, step, n);
      forall k | 0 <= k < n
        ensures Items(first, first, last, step, n)[k].isFirst <==> k == 0
      {
        if k > 0 {
          Factors(k, s);
        }
      }
    } else {
      WrappingDoesNotEnd(first, first, last, step, n);
    }
  }

  // A loop whose counter passes the 64-bit range goes on.
  lemma {:induction false} WrappingDoesNotEnd(counter: int64, first: int64, last: int64, step: int64, n: nat)
    requires step > 0 && counter < last
    requires n == Ceiling((last as int - counter as int) as nat, step as nat)
    requires counter as int + n * step as int > MAX64
    ensures !Ends(counter, last, step, n)
    decreases n
  {
    var c, l, s := counter as int, last as int, step as int;
    CeilingStep((l - c) as nat, s as nat);
    WrapMeaning(c + s);
    if l - c > s {
      assert (n - 1) * s == n * s - s;
      WrappingDoesNotEnd(Advance(counter, step), first, last, step, n - 1);
    } else {
      assert n == 1 && n * s == s;
    }
  }

  /** The loop over unbounded integers ends within n rounds. */
  predicate EndsUnbounded(counter: int, last: int, step: int, n: nat)
    decreases n
  {
    counter >= last || (n > 0 && EndsUnbounded(counter + step, last, step, n - 1))
  }

  lemma {:induction false} EndsAfterCeiling(counter: int, last: int, step: nat)
    requires step > 0 && counter < last
    ensures EndsUnbounded(counter, last, step, Ceiling(last - counter, step))
    decreases last - counter
  {
    CeilingStep(last - counter, step);
    hide Ceiling;
    if last - counter > step {
      EndsAfterCeiling(counter + step, last, step);
    }
  }

  lemma {:induction false} NeverEnds(counter: int, last: int, step: int, n: nat)
    requires step <= 0 && counter < last
    ensures !EndsUnbounded(counter, last, step, n)
    decreases n
  {
    if n > 0 {
      NeverEnds(counter + step, last, step, n - 1);
    }
  }

  /** Over unbounded integers a loop with something to count ends if and only if its step is positive. */
  lemma EndsIffStepPositive(first: int, last: int, step: int)
    requires first < last
    ensures (exists n: nat :: EndsUnbounded(first, last, step, n)) <==> step > 0
  {
    if step > 0 {
      EndsAfterCeiling(first, last, step);
    } else {
      forall n: nat
        ensures !EndsUnbounded(first, last, step, n)
      {
        NeverEnds(first, last, step, n);
      }
    }
  }

  /**
   From arguments to counters: first is 0, last is 1 and the step is 1 unless given. A zero step panics, an
   empty range is refused, and otherwise, with a positive step that fits, the loop runs over first, first
   + step and so on, below last.
   */
  lemma LoopFromArguments(a: Given)
    ensures var first := if a.first.Some? then a.first.value else 0;
            var last := if a.last.Some? then a.last.value else 1;
            var step := if a.step.Some? then a.step.value else 1;
            && (step == 0 ==> SequenceStart(a) == DivisionByZero)
            && (step != 0 && first >= last ==> SequenceStart(a) == Refused)
            && (step > 0 && first < last ==>
                  var n := (last as int - first as int + step as int - 1) / step as int;
                  && SequenceStart(a) == Accepted(first, last, step)
                  && (first as int + n * step as int <= 0x7fff_ffff_ffff_ffff ==>
                        && n >= 0 && CountsUp(Items(first, first, last, step, n), first as int, first, step as int, n)
                        && Ends(first, last, step, n)))
  {
    var first, last, step := OrDefault(a.first, 0), OrDefault(a.last, 1), OrDefault(a.step, 1);
    if step > 0 && first < last {
      LoopCount(first, last, step);
      CeilingStep((last as int - first as int) as nat, step as nat);
      hide CountsUp, Items, Ends;
    }
  }

  /** Given only its end, the loop counts from zero up to it; given nothing, it runs once. */
  lemma LoopUpTo(last: int64)
    requires last > 0
    ensures SequenceStart(Given(None, Some(last), None)) == Accepted(0, last, 1)
    ensures CountsUp(Items(0, 0, last, 1, last as nat), 0, 0, 1, last as nat) && Ends(0, last, 1, last as nat)
    ensures SequenceStart(Given(None, None, None)) == Accepted(0, 1, 1)
  {
    LoopFromArguments(Given(None, Some(last), None));
  }

  // ----- Steps of any sign, in 64 bits -----

  function Pow2(e: nat): (p: nat)
    ensures p > 0
  {
    if e == 0 then 1 else 2 * Pow2(e - 1)
  }

  /** The largest power of two that divides a number. */
  function TwoPart(n: int): (g: nat)
    requires n != 0
    ensures g > 0
    decreases if n < 0 then -n else n
  {
    if n % 2 != 0 then 1 else 2 * TwoPart(n / 2)
  }

  lemma {:induction false} TwoPartSplits(n: int) returns (e: nat, u: int)
    requires n != 0
    ensures TwoPart(n) == Pow2(e) && n == Pow2(e) * u && u % 2 == 1
    decreases if n < 0 then -n else n
  {
    if n % 2 != 0 {
      e, u := 0, n;
    } else {
      var e';
      e', u := TwoPartSplits(n / 2);
      e := e' + 1;
      assert n == 2 * (Pow2(e') * u) == (2 * Pow2(e')) * u;
    }
  }

  lemma {:induction false} Pow2Sum(a: nat, b: nat)
    ensures Pow2(a + b) == Pow2(a) * Pow2(b)
    decreases a
  {
    if a > 0 {
      Pow2Sum(a - 1, b);
      Regroup(2, Pow2(a - 1), Pow2(b));
      assert Pow2(a + b) == 2 * Pow2(a - 1 + b);
    }
  }

  lemma RangeIsPower()
    ensures Pow2(64) == TWO64
  {
    assert Pow2(8) == 0x100;
    Pow2Sum(8, 8);
    Pow2Sum(16, 16);
    Pow2Sum(32, 32);
  }

  lemma Distribute(a: int, b: int, c: int)
    ensures a * (b + c) == a * b + a * c
  {
  }

  lemma Regroup(a: int, b: int, c: int)
    ensures a * (b * c) == (a * b) * c == b * (a * c)
  {
  }

  // The part of a 64-bit step divides the range.
  lemma RangeSplits(step: int64, e: nat, u: int)
    requires step as int == Pow2(e) * u && u % 2 == 1
    ensures e < 64 && Pow2(e) * Pow2(64 - e) == TWO64
  {
    RangeIsPower();
    LargePower(e);
    Factors(u, Pow2(e));
    assert u * Pow2(e) == step as int;
    Pow2Sum(e, if e <= 64 then 64 - e else 0);
  }

  lemma LargePower(e: nat)
    ensures e >= 64 ==> Pow2(e) >= TWO64
  {
    if e >= 64 {
      RangeIsPower();
      Pow2Sum(64, e - 64);
      Factors(Pow2(e - 64), TWO64);
    }
  }

  // An odd number reaches every residue of a power of two.
  lemma {:induction false} OddReaches(u: int, t: int, m: nat) returns (k: nat, q: int)
    requires u % 2 == 1
    ensures k * u - t == Pow2(m) * q
    decreases m
  {
    if m == 0 {
      k, q := 0, -t;
    } else {
      var k', q' := OddReaches(u, t, m - 1);
      var p := Pow2(m - 1);
      if q' % 2 == 0 {
        k, q := k', q' / 2;
      } else {
        k, q := k' + p, (q' + u) / 2;
        Distribute(u, k', p);
        Distribute(p, q', u);
      }
      Regroup(p, 2, q);
    }
  }

  lemma WrapShift(x: int, j: int)
    ensures Wrap(x + j * TWO64) == Wrap(x)
  {
    var q, r := (x - MIN64) / TWO64, (x - MIN64) % TWO64;
    assert x + j * TWO64 - MIN64 == (q + j) * TWO64 + r;
  }

  lemma WrapIsShift(x: int) returns (j: int)
    ensures Wrap(x) as int == x + j * TWO64
  {
    j := -((x - MIN64) / TWO64);
  }

  /** The counter after k rounds, whether or not the loop has ended. */
  function After(counter: int64, step: int64, k: nat): int64
    decreases k
  {
    if k == 0 then counter else After(Advance(counter, step), step, k - 1)
  }

  lemma {:induction false} AfterIs(counter: int64, step: int64, k: nat)
    ensures After(counter, step, k) == Wrap(counter as int + k * step as int)
    decreases k
  {
    var c, s := counter as int, step as int;
    if k == 0 {
      WrapMeaning(c);
    } else {
      var next := Advance(counter, step);
      var j := WrapIsShift(c + s);
      hide Wrap;
      AfterIs(next, step, k - 1);
      assert next as int + (k - 1) * s == (c + k * s) + j * TWO64;
      WrapShift(c + k * s, j);
    }
  }

  lemma {:induction false} EndsWhenReached(counter: int64, last: int64, step: int64, k: nat)
    requires After(counter, step, k) >= last
    ensures Ends(counter, last, step, k)
    decreases k
  {
    hide Advance;
    if k > 0 {
      EndsWhenReached(Advance(counter, step), last, step, k - 1);
    }
  }

  lemma {:induction false} ReachedWhenEnds(counter: int64, last: int64, step: int64, n: nat) returns (k: nat)
    requires Ends(counter, last, step, n)
    ensures After(counter, step, k) >= last
    decreases n
  {
    hide Advance;
    if counter >= last {
      k := 0;
    } else {
      var k' := ReachedWhenEnds(Advance(counter, step), last, step, n - 1);
      k := k' + 1;
    }
  }

  // No multiple of g that covers the distance is smaller than the ceiling.
  lemma CeilingIsLeast(distance: nat, g: nat, z: int)
    requires g > 0 && g * z >= distance
    ensures Ceiling(distance, g) * g <= g * z
  {
    CeilingStep(distance, g);
    var c := Ceiling(distance, g);
    hide Ceiling;
    var d := z + 1 - c;
    assert d * g == g * z + g - c * g;
    Factors(d, g);
    assert (z - c) * g >= 0;
    assert (z - c) * g == g * z - c * g;
  }

  /** The first value from `last` on that the counter can have: a whole number of parts of the step behind `first`. */
  function FirstHit(first: int64, last: int64, step: int64): int
    requires step != 0 && first < last
  {
    var g := TwoPart(step as int);
    first as int + Ceiling((last as int - first as int) as nat, g) * g
  }

  /**
   In 64 bits an accepted loop ends if and only if there is a value from `last` on, within range, that
   differs from `first` by a multiple of the largest power of two in the step. The sign of the step
   does not matter: a counter that wraps around comes in from the other side.
   */
  lemma EndsIff(first: int64, last: int64, step: int64)
    requires step != 0 && first < last
    ensures (exists n: nat :: Ends(first, last, step, n)) <==> FirstHit(first, last, step) <= MAX64
  {
    hide Wrap, Ceiling, TwoPart, Pow2;
    var e, u := TwoPartSplits(step as int);
    RangeSplits(step, e, u);
    if FirstHit(first, last, step) <= MAX64 {
      var k := Hits(first, last, step, e, u);
      EndsWhenReached(first, last, step, k);
    }
    forall n: nat | Ends(first, last, step, n)
      ensures FirstHit(first, last, step) <= MAX64
    {
      var k := ReachedWhenEnds(first, last, step, n);
      ReachesNoEarlier(first, last, step, e, u, k);
    }
  }

  lemma Hits(first: int64, last: int64, step: int64, e: nat, u: int) returns (k: nat)
    requires step != 0 && first < last && FirstHit(first, last, step) <= MAX64
    requires TwoPart(step as int) == Pow2(e) && step as int == Pow2(e) * u && u % 2 == 1
    requires e < 64 && Pow2(e) * Pow2(64 - e) == TWO64
    ensures After(first, step, k) >= last
  {
    hide Wrap, TwoPart, Pow2;
    var g, d := Pow2(e), (last as int - first as int) as nat;
    CeilingStep(d, g);
    var c := Ceiling(d, g);
    hide Ceiling;
    var q;
    k, q := OddReaches(u, c, 64 - e);
    var p := Pow2(64 - e);
    Regroup(k, g, u);
    Distribute(g, c, p * q);
    Regroup(g, p, q);
    BehindRanges(first, last, step, k, g * c, q);
  }

  // A counter behind a whole number of ranges.
  lemma BehindRanges(first: int64, last: int64, step: int64, k: nat, way: int, q: int)
    requires k * step as int == way + q * TWO64
    requires last as int <= first as int + way <= MAX64
    ensures After(first, step, k) >= last
  {
    hide Wrap;
    AfterIs(first, step, k);
    WrapShift(first as int + way, q);
    WrapMeaning(first as int + way);
  }

  lemma ReachesNoEarlier(first: int64, last: int64, step: int64, e: nat, u: int, k: nat)
    requires step != 0 && first < last && After(first, step, k) >= last
    requires TwoPart(step as int) == Pow2(e) && step as int == Pow2(e) * u
    requires e < 64 && Pow2(e) * Pow2(64 - e) == TWO64
    ensures FirstHit(first, last, step) <= MAX64
  {
    hide Wrap, TwoPart, Pow2, Ceiling;
    var g, p := Pow2(e), Pow2(64 - e);
    AfterIs(first, step, k);
    var j := WrapIsShift(first as int + k * step as int);
    var z := k * u + p * j;
    Regroup(k, g, u);
    Regroup(j, g, p);
    Distribute(g, k * u, p * j);
    assert After(first, step, k) as int == first as int + g * z;
    CeilingIsLeast((last as int - first as int) as nat, g, z);
  }
}
