/** Integer utilities of lib/utils.0.ts. JavaScript numbers are modelled as
    unbounded integers; `%` is JavaScript's truncating remainder, written out
    as `Rem`, because Dafny's own `%` is Euclidean. */
module Utils {
  import opened Wrappers

  // ---------------------------------------------------------------------
  // Divisibility and JavaScript's `%` / `Math.floor(a / b)`
  // ---------------------------------------------------------------------

  /** `d` divides `n`. */
  ghost predicate Divides(d: int, n: int) {
    exists k :: n == d * k
  }

  /** JavaScript's `a % m`: the sign of the result follows the dividend. */
  function Rem(a: int, m: int): (r: int)
    requires m != 0
    ensures -(Abs(m) as int) < r < Abs(m)
    ensures a >= 0 ==> r >= 0
    ensures a <= 0 ==> r <= 0
  {
    if a >= 0 then a % Abs(m) else -((-a) % Abs(m))
  }

  function Abs(a: int): nat {
    if a < 0 then -a else a
  }

  /** The quotient that goes with `Rem`: truncated toward zero. */
  function Quot(a: int, m: int): int
    requires m != 0
  {
    var q := (if a >= 0 then a else -a) / Abs(m);
    if (a >= 0) == (m > 0) then q else -q
  }

  lemma QuotRem(a: int, m: int)
    requires m != 0
    ensures a == Quot(a, m) * m + Rem(a, m)
  {
    var am := Abs(m);
    if a >= 0 {
      assert a == (a / am) * am + a % am;
    } else {
      assert -a == ((-a) / am) * am + (-a) % am;
    }
  }

  lemma DividesCombination(d: int, x: int, y: int, q: int)
    requires Divides(d, x) && Divides(d, y)
    ensures Divides(d, q * x + y)
  {
    var i :| x == d * i;
    var j :| y == d * j;
    assert q * x + y == d * (q * i + j) by {
      calc {
        q * x + y;
        q * (d * i) + d * j;
        { assert q * (d * i) == d * (q * i); }
        d * (q * i) + d * j;
        d * (q * i + j);
      }
    }
  }

  lemma DividesMultiple(d: int, x: int, q: int)
    requires Divides(d, x)
    ensures Divides(d, q * x)
  {
    var i :| x == d * i;
    assert q * x == d * (q * i);
  }

  lemma DividesSelf(d: int)
    ensures Divides(d, d) && Divides(d, 0)
  {
    assert d == d * 1;
    assert 0 == d * 0;
  }

  lemma DividesTransitive(a: int, b: int, c: int)
    requires Divides(a, b) && Divides(b, c)
    ensures Divides(a, c)
  {
    var i :| b == a * i;
    var j :| c == b * j;
    assert c == a * (i * j);
  }

  // ---------------------------------------------------------------------
  // clamp, factorial, sum
  // ---------------------------------------------------------------------

  /** `Math.max(Math.min(value, max), min)` (lib/utils.0.ts:9-11). */
  function Clamp(value: int, min: int, max: int): (r: int)
    ensures min <= max ==> min <= r <= max
    ensures min <= value <= max ==> r == value
    ensures value > max && min <= max ==> r == max
    ensures value < min ==> r == min
    ensures min > max ==> r == min
  {
    var upper := if value < max then value else max;
    if upper > min then upper else min
  }

  /** `factorial` (lib/utils.0.ts:12-18): `undefined` for negative input. */
  function Factorial(value: int): (r: Option<int>)
    decreases if value < 0 then 0 else value
    ensures r.Some? <==> value >= 0
    ensures r.Some? ==> r.value >= 1 && r.value >= value
    ensures r.Some? ==> forall k :: 1 <= k <= value ==> Divides(k, r.value)
  {
    if value < 0 then None
    else if value == 0 then Some(1)
    else match Factorial(value - 1)
      case None => None
      case Some(next) =>
        var r := value * next;
        assert forall k :: 1 <= k <= value ==> Divides(k, r) by {
          forall k | 1 <= k <= value ensures Divides(k, r) {
            if k == value {
              assert r == k * next;
            } else {
              DividesMultiple(k, next, value);
            }
          }
        }
        Some(r)
  }

  /** The product of a list of integers, first item outermost. */
  function Product(s: seq<int>): int
  {
    if s == [] then 1 else s[0] * Product(s[1..])
  }

  /** The integers 1, 2, ..., n. */
  function UpTo(n: nat): (s: seq<int>)
  {
    seq(n, i => i + 1)
  }

  lemma {:induction false} ProductAppend(s: seq<int>, x: int)
    ensures Product(s + [x]) == Product(s) * x
    decreases |s|
  {
    if s != [] {
      assert (s + [x])[1..] == s[1..] + [x];
      ProductAppend(s[1..], x);
    } else {
      assert [x][1..] == [];
    }
  }

  lemma FactorialNext(n: nat, prev: int)
    requires n > 0 && Factorial(n - 1) == Some(prev)
    ensures Factorial(n) == Some(prev * n)
  {
    assert n * prev == prev * n;
  }

  lemma UpToStep(n: nat)
    requires n > 0
    ensures UpTo(n) == UpTo(n - 1) + [n]
  {
    assert forall i :: 0 <= i < n - 1 ==> UpTo(n)[i] == UpTo(n - 1)[i];
  }

  /** `factorial(n)` is the product 1 * 2 * ... * n, written independently of
      its recursion. */
  lemma {:induction false} FactorialIsProduct(n: nat)
    ensures Factorial(n) == Some(Product(UpTo(n)))
  {
    if n == 0 {
      assert UpTo(0) == [];
    } else {
      FactorialIsProduct(n - 1);
      var prev := Product(UpTo(n - 1));
      FactorialNext(n, prev);
      UpToStep(n);
      ProductAppend(UpTo(n - 1), n);
    }
  }

  /** `values.reduce((acc, item) => acc + item, 0)` (lib/utils.0.ts:47-49). */
  function Sum(values: seq<int>): (r: int)
    ensures values == [] ==> r == 0
    ensures |values| == 1 ==> r == values[0]
    ensures (forall i :: 0 <= i < |values| ==> values[i] >= 0) ==>
              r >= 0 && forall i :: 0 <= i < |values| ==> values[i] <= r
  {
    assert |values| == 1 ==> SumFrom(0, values) == SumFrom(values[0], []);
    SumFrom(0, values)
  }

  /** Folding `+` from `acc`: with no negative items the result is at least
      `acc` plus any one item. */
  function SumFrom(acc: int, rest: seq<int>): (r: int)
    decreases |rest|
    ensures (forall i :: 0 <= i < |rest| ==> rest[i] >= 0) ==>
              r >= acc && forall i :: 0 <= i < |rest| ==> acc + rest[i] <= r
  {
    if rest == [] then acc else SumFrom(acc + rest[0], rest[1..])
  }

  lemma {:induction false} SumFromShift(acc: int, rest: seq<int>)
    ensures SumFrom(acc, rest) == acc + SumFrom(0, rest)
    decreases |rest|
  {
    if rest != [] {
      SumFromShift(acc + rest[0], rest[1..]);
      SumFromShift(rest[0], rest[1..]);
    }
  }

  /** The sum of nothing is 0 and the sum of a concatenation is the sum of its parts. */
  lemma {:induction false} SumAppend(a: seq<int>, b: seq<int>)
    ensures Sum([]) == 0
    ensures forall x :: Sum([x]) == x
    ensures Sum(a + b) == Sum(a) + Sum(b)
    decreases |a|
  {
    if a == [] {
      assert a + b == b;
    } else {
      assert (a + b)[1..] == a[1..] + b;
      SumFromShift(a[0], (a + b)[1..]);
      SumFromShift(a[0], a[1..]);
      SumAppend(a[1..], b);
    }
  }

  /** The sum written the other way round, from the last value back to the
      first: an independent reference for Σ values. */
  function Total(values: seq<int>): int
  {
    if values == [] then 0 else Total(values[..|values| - 1]) + values[|values| - 1]
  }

  /** `Sum` is Σ values: the left fold of `reduce` agrees with `Total`. */
  lemma {:induction false} SumIsTotal(values: seq<int>)
    ensures Sum(values) == Total(values)
    decreases |values|
  {
    if values != [] {
      var init := values[..|values| - 1];
      var last := values[|values| - 1];
      assert values == init + [last];
      SumAppend(init, [last]);
      SumIsTotal(init);
    }
  }

  // ---------------------------------------------------------------------
  // gcd and lcm
  // ---------------------------------------------------------------------

  /** What the loop of `gcd` computes: Euclid's algorithm with JavaScript's `%`.
      It is zero only for two zeros and never negative for non-negative
      arguments; `GcdDivides` and `GcdGreatest` show it is a greatest common
      divisor. */
  function GcdOf(left: int, right: int): (r: int)
    decreases Abs(right)
    ensures r == 0 <==> left == 0 && right == 0
    ensures left >= 0 && right >= 0 ==> r >= 0
  {
    if right == 0 then left else GcdOf(right, Rem(left, right))
  }

  /** `gcd` (lib/utils.0.ts:20-23): the while loop swapping `[left, right]`. */
  method Gcd(left: int, right: int) returns (r: int)
    ensures r == GcdOf(left, right)
    ensures Divides(r, left) && Divides(r, right)
    ensures left >= 0 && right >= 0 ==> r >= 0
  {
    var l, rt := left, right;
    while rt != 0
      invariant GcdOf(l, rt) == GcdOf(left, right)
      invariant left >= 0 && right >= 0 ==> l >= 0 && rt >= 0
      decreases Abs(rt)
    {
      l, rt := rt, Rem(l, rt);
    }
    r := l;
    GcdDivides(left, right);
  }

  /** The result of Euclid's loop divides both arguments. */
  lemma {:induction false} GcdDivides(a: int, b: int)
    ensures Divides(GcdOf(a, b), a) && Divides(GcdOf(a, b), b)
    decreases Abs(b)
  {
    var g := GcdOf(a, b);
    if b == 0 {
      DividesSelf(a);
    } else {
      GcdDivides(b, Rem(a, b));
      QuotRem(a, b);
      DividesCombination(g, b, Rem(a, b), Quot(a, b));
    }
  }

  /** Every common divisor of the arguments divides the result. */
  lemma {:induction false} GcdGreatest(a: int, b: int, d: int)
    requires Divides(d, a) && Divides(d, b)
    ensures Divides(d, GcdOf(a, b))
    decreases Abs(b)
  {
    if b != 0 {
      QuotRem(a, b);
      DividesCombination(d, b, a, -Quot(a, b));
      assert -Quot(a, b) * b + a == Rem(a, b);
      GcdGreatest(b, Rem(a, b), d);
    }
  }

  /** One step of `lcm`'s reduce: `(acc * item) / gcd(acc, item)`. */
  function LcmStep(acc: int, item: int): (r: int)
    requires acc != 0 && item != 0
    ensures r != 0
    ensures Divides(acc, r) && Divides(item, r)
  {
    GcdDivides(acc, item);
    LcmStepFacts(acc, item, GcdOf(acc, item));
    (acc * item) / GcdOf(acc, item)
  }

  lemma LcmStepFacts(acc: int, item: int, g: int)
    requires acc != 0 && item != 0 && g != 0
    requires Divides(g, acc) && Divides(g, item)
    ensures (acc * item) / g != 0
    ensures Divides(acc, (acc * item) / g) && Divides(item, (acc * item) / g)
  {
    var i :| item == g * i;
    var a :| acc == g * a;
    assert i != 0 && a != 0;
    assert acc * item == g * (acc * i) by {
      assert acc * item == acc * (g * i);
      assert acc * (g * i) == g * (acc * i);
    }
    ExactDivision(g, acc * i);
    assert acc * i == item * a by {
      assert acc * i == (g * a) * i;
      assert (g * a) * i == (g * i) * a;
    }
    assert acc * i != 0;
  }

  lemma ExactDivision(g: int, x: int)
    requires g != 0
    ensures (g * x) / g == x
  {
    var q, r := (g * x) / g, (g * x) % g;
    assert g * x == g * q + r && 0 <= r < Abs(g);
    assert r == g * (x - q);
    if g > 0 {
      RemainderUnique(g, r, 0, x - q);
    } else {
      assert r == (-g) * (q - x);
      RemainderUnique(-g, r, 0, q - x);
    }
  }

  function LcmFold(acc: int, rest: seq<int>): (r: int)
    requires acc != 0
    requires forall v :: v in rest ==> v != 0
    ensures r != 0
    ensures Divides(acc, r)
    ensures forall v :: v in rest ==> Divides(v, r)
    decreases |rest|
  {
    if rest == [] then DividesSelf(acc); acc
    else
      assert rest[0] in rest;
      assert forall v :: v in rest[1..] ==> v in rest;
      var next := LcmStep(acc, rest[0]);
      var r := LcmFold(next, rest[1..]);
      DividesTransitive(acc, next, r);
      DividesTransitive(rest[0], next, r);
      assert forall v :: v in rest ==> v == rest[0] || v in rest[1..];
      r
  }

  /** `lcm` (lib/utils.0.ts:25-27): a reduce without an initial value throws
      on no values; otherwise the result is a non-zero common multiple. */
  function Lcm(values: seq<int>): (r: Result<int>)
    requires forall v :: v in values ==> v != 0
    ensures r.Failure? <==> values == []
    ensures r.Success? ==> r.value != 0 && forall v :: v in values ==> Divides(v, r.value)
  {
    if values == [] then Failure(EmptyReduce)
    else
      assert values[0] in values;
      assert forall v :: v in values[1..] ==> v in values;
      assert forall v :: v in values ==> v == values[0] || v in values[1..];
      Success(LcmFold(values[0], values[1..]))
  }

  /** Truncated division is unique: a split `x == q * y + r` with `r` smaller
      than `y` and of the dividend's sign gives `Rem(x, y) == r`. */
  lemma RemUnique(x: int, y: int, q: int, r: int)
    requires y != 0 && x == q * y + r && Abs(r) < Abs(y)
    requires x > 0 ==> r >= 0
    requires x < 0 ==> r <= 0
    ensures Rem(x, y) == r
  {
    var m := Abs(y);
    var q' := if y > 0 then q else -q;
    assert q * y == q' * m;
    if x >= 0 {
      RemUniqueNonNegative(x, m, q', r);
    } else {
      UniqueDivision(-x, m, -q', -r);
    }
  }

  lemma RemUniqueNonNegative(x: int, m: int, q: int, r: int)
    requires 0 <= x && 0 < m && x == q * m + r && -m < r < m
    requires x > 0 ==> r >= 0
    ensures x % m == r
  {
    if r < 0 {
      assert q * m == -r;
      MultipleBounds(q, m);
    }
    UniqueDivision(x, m, q, r);
  }

  /** Scaling both operands scales JavaScript's remainder. */
  lemma RemScale(k: int, a: int, b: int)
    requires k != 0 && b != 0
    ensures Rem(k * a, k * b) == k * Rem(a, b)
  {
    QuotRem(a, b);
    var q, r := Quot(a, b), Rem(a, b);
    ScaleSplit(k, a, q, b, r);
    AbsProduct(k, r);
    AbsProduct(k, b);
    MultiplyStrict(Abs(k), Abs(r), Abs(b));
    SignProduct(k, a, r);
    RemUnique(k * a, k * b, q, k * r);
  }

  lemma ScaleSplit(k: int, a: int, q: int, b: int, r: int)
    requires a == q * b + r
    ensures k * a == q * (k * b) + k * r
  {
    assert k * (q * b) == q * (k * b);
  }

  lemma AbsProduct(x: int, y: int)
    ensures Abs(x * y) == Abs(x) * Abs(y)
  {
    if x < 0 && y < 0 {
      assert x * y == (-x) * (-y);
    } else if x < 0 {
      assert x * y == -((-x) * y);
    } else if y < 0 {
      assert x * y == -(x * (-y));
    }
  }

  /** A remainder with the dividend's sign keeps it when both are scaled. */
  lemma SignProduct(k: int, a: int, r: int)
    requires a >= 0 ==> r >= 0
    requires a <= 0 ==> r <= 0
    ensures k * a > 0 ==> k * r >= 0
    ensures k * a < 0 ==> k * r <= 0
  {
    if k > 0 {
      if a > 0 { assert k * r >= 0; }
      if a < 0 { assert k * r <= 0; }
    } else if k < 0 {
      if a > 0 { assert k * r == -((-k) * r); }
      if a < 0 { assert k * r == (-k) * (-r); }
    }
  }

  lemma MultiplyStrict(k: nat, r: nat, b: nat)
    requires k > 0 && r < b
    ensures k * r < k * b
  {
  }

  /** Scaling both arguments scales Euclid's result. */
  lemma {:induction false} GcdScale(k: int, a: int, b: int)
    ensures GcdOf(k * a, k * b) == k * GcdOf(a, b)
    decreases Abs(b)
  {
    if b != 0 && k != 0 {
      RemScale(k, a, b);
      GcdScale(k, b, Rem(a, b));
    }
  }

  /** One step of `lcm` divides every common multiple of its two inputs:
      `acc * item` divides both `m * acc` and `m * item`, hence their gcd
      `m * gcd(acc, item)`, and cancelling the gcd leaves the step. */
  lemma LcmStepLeast(acc: int, item: int, m: int)
    requires acc != 0 && item != 0
    requires Divides(acc, m) && Divides(item, m)
    ensures Divides(LcmStep(acc, item), m)
  {
    var g := GcdOf(acc, item);
    LcmStepProduct(acc, item);
    ProductDividesScaled(acc, item, m);
    GcdGreatest(m * acc, m * item, acc * item);
    GcdScale(m, acc, item);
    CancelDivisor(g, LcmStep(acc, item), m);
  }

  /** The step times the gcd is the product of the inputs. */
  lemma LcmStepProduct(acc: int, item: int)
    requires acc != 0 && item != 0
    ensures GcdOf(acc, item) != 0
    ensures acc * item == GcdOf(acc, item) * LcmStep(acc, item)
  {
    var g := GcdOf(acc, item);
    GcdDivides(acc, item);
    var i :| item == g * i;
    var p := acc * i;
    Reassociate(acc, g, i);
    ExactDivision(g, p);
    assert LcmStep(acc, item) == (acc * item) / g;
    assert LcmStep(acc, item) == p;
  }

  /** With `acc` and `item` dividing `m`, their product divides `m` times either. */
  lemma ProductDividesScaled(acc: int, item: int, m: int)
    requires Divides(acc, m) && Divides(item, m)
    ensures Divides(acc * item, m * acc) && Divides(acc * item, m * item)
  {
    var j :| m == acc * j;
    var h :| m == item * h;
    assert m * item == (acc * item) * j by {
      assert m * item == (acc * j) * item;
    }
    assert m * acc == (acc * item) * h by {
      assert m * acc == (item * h) * acc;
    }
  }

  /** `g * l` dividing `m * g` means `l` divides `m`. */
  lemma CancelDivisor(g: int, l: int, m: int)
    requires g != 0 && Divides(g * l, m * g)
    ensures Divides(l, m)
  {
    var t :| m * g == (g * l) * t;
    assert g * m == g * (l * t) by {
      assert (g * l) * t == g * (l * t);
    }
    CancelFactor(g, m, l * t);
  }

  lemma Reassociate(a: int, b: int, c: int)
    ensures a * (b * c) == b * (a * c)
  {
  }

  lemma CancelFactor(g: int, x: int, y: int)
    requires g != 0 && g * x == g * y
    ensures x == y
  {
    assert g * (x - y) == 0;
  }

  /** The fold divides every common multiple of its accumulator and items. */
  lemma {:induction false} LcmFoldLeast(acc: int, rest: seq<int>, m: int)
    requires acc != 0
    requires forall v :: v in rest ==> v != 0
    requires Divides(acc, m) && forall v :: v in rest ==> Divides(v, m)
    ensures Divides(LcmFold(acc, rest), m)
    decreases |rest|
  {
    if rest != [] {
      assert rest[0] in rest;
      assert forall v :: v in rest[1..] ==> v in rest;
      LcmStepLeast(acc, rest[0], m);
      LcmFoldLeast(LcmStep(acc, rest[0]), rest[1..], m);
    }
  }

  /** `lcm` is the lowest common multiple in the divisibility order: every
      common multiple of the values is a multiple of it. */
  lemma LcmLeast(values: seq<int>, m: int)
    requires values != [] && forall v :: v in values ==> v != 0
    requires forall v :: v in values ==> Divides(v, m)
    ensures Lcm(values).Success? && Divides(Lcm(values).value, m)
  {
    assert values[0] in values;
    assert forall v :: v in values[1..] ==> v in values;
    LcmFoldLeast(values[0], values[1..], m);
  }

  // ---------------------------------------------------------------------
  // modP and divMod
  // ---------------------------------------------------------------------

  /** `modP` (lib/utils.0.ts:70-73): Python-style modulo, the sign of the
      result matches the sign of `mod`. */
  function ModP(value: int, mod: int): (r: int)
    requires mod != 0
    ensures Divides(mod, value - r)
    ensures mod > 0 ==> 0 <= r < mod
    ensures mod < 0 ==> mod < r <= 0
  {
    var intermediate := Rem(value, mod);
    QuotRem(value, mod);
    var r := intermediate + (if (mod > 0 && intermediate < 0) || (mod < 0 && intermediate > 0) then mod else 0);
    assert value - r == mod * (Quot(value, mod) - (if r == intermediate then 0 else 1));
    r
  }

  /** For a positive modulus, `ModP` agrees with the Euclidean remainder. */
  lemma ModPPositive(value: int, mod: int)
    requires mod > 0
    ensures ModP(value, mod) == value % mod
  {
    var r := ModP(value, mod);
    var k :| value - r == mod * k;
    assert value - value % mod == mod * (value / mod);
    assert (value % mod) - r == mod * (k - value / mod);
    RemainderUnique(mod, value % mod, r, k - value / mod);
  }

  /** For a negative modulus, `ModP` is the negated Euclidean remainder of the negation. */
  lemma ModPNegative(value: int, mod: int)
    requires mod < 0
    ensures ModP(value, mod) == -((-value) % (-mod))
  {
    var r := ModP(value, mod);
    var k :| value - r == mod * k;
    var m := -mod;
    assert -value - (-value) % m == m * ((-value) / m);
    assert (-value) % m - (-r) == m * (k - (-value) / m);
    RemainderUnique(m, (-value) % m, -r, k - (-value) / m);
  }

  /** Two remainders below `m` that differ by a multiple of `m` are equal. */
  lemma RemainderUnique(m: int, a: int, b: int, k: int)
    requires m > 0 && 0 <= a < m && 0 <= b < m
    requires a - b == m * k
    ensures a == b
  {
    if k > 0 {
      MultipleAtLeast(m, k);
    } else if k < 0 {
      assert m * k == -(m * -k);
      MultipleAtLeast(m, -k);
    }
  }

  /** A positive multiple of a positive `m` is at least `m`. */
  lemma {:induction false} MultipleAtLeast(m: int, k: int)
    requires m > 0 && k > 0
    ensures m * k >= m
    decreases k
  {
    if k > 1 {
      MultipleAtLeast(m, k - 1);
      assert m * k == m * (k - 1) + m;
    }
  }

  /** Division with remainder is unique: `t` split as `q * m + r` with
      `0 <= r < m` has quotient `q` and remainder `r`. */
  lemma UniqueDivision(t: int, m: int, q: int, r: int)
    requires 0 < m && t == q * m + r && 0 <= r < m
    ensures t / m == q && t % m == r
  {
    var d := t / m - q;
    assert d * m == r - t % m;
    MultipleBounds(d, m);
  }

  lemma MultipleBounds(d: int, m: int)
    requires 0 < m
    ensures d > 0 ==> d * m >= m
    ensures d < 0 ==> d * m <= -m
  {
  }

  /** `Math.floor(value / mod)`: for a negative divisor, the floor of the
      quotient is the Euclidean quotient of the negated operands. */
  function FloorDiv(value: int, mod: int): (q: int)
    requires mod != 0
    ensures q * mod <= value < q * mod + mod || q * mod + mod < value <= q * mod
  {
    if mod > 0 then value / mod else (-value) / (-mod)
  }

  /** `divMod` (lib/utils.0.ts:74-76): `[Math.floor(value / mod), modP(value, mod)]`. */
  function DivMod(value: int, mod: int): (r: (int, int))
    requires mod != 0
    ensures r.0 == FloorDiv(value, mod) && r.1 == ModP(value, mod)
    ensures r.0 * mod + r.1 == value
  {
    if mod > 0 then
      ModPPositive(value, mod);
      (FloorDiv(value, mod), ModP(value, mod))
    else
      ModPNegative(value, mod);
      var m, q := -mod, (-value) / (-mod);
      assert q * m + (-value) % m == -value;
      assert q * mod == -(q * m);
      (q, ModP(value, mod))
  }

  // ---------------------------------------------------------------------
  // groupBy
  // ---------------------------------------------------------------------

  /** The items of `s` whose key is `key`, in order. */
  function Group<T, K(==)>(s: seq<T>, selector: T -> K, key: K): seq<T>
  {
    if s == [] then []
    else Group(s[..|s| - 1], selector, key) + (if selector(s[|s| - 1]) == key then [s[|s| - 1]] else [])
  }

  /** Every item of a group has the group's key; a key occurring in `s` has a non-empty group. */
  lemma {:induction false} GroupMembers<T, K>(s: seq<T>, selector: T -> K, key: K)
    ensures forall x :: x in Group(s, selector, key) ==> x in s && selector(x) == key
    ensures (exists i :: 0 <= i < |s| && selector(s[i]) == key) <==> |Group(s, selector, key)| > 0
  {
    if s != [] {
      var init := s[..|s| - 1];
      GroupMembers(init, selector, key);
      if exists i :: 0 <= i < |s| && selector(s[i]) == key {
        var i :| 0 <= i < |s| && selector(s[i]) == key;
        if i < |s| - 1 {
          assert selector(init[i]) == key;
        }
      }
    }
  }

  /** The keys of the first `n` items. */
  ghost function KeysOf<T, K>(items: seq<T>, selector: T -> K, n: nat): set<K>
    requires n <= |items|
  {
    set i | 0 <= i < n :: selector(items[i])
  }

  /** One more item adds its key. */
  lemma KeysOfStep<T, K>(items: seq<T>, selector: T -> K, n: nat)
    requires n < |items|
    ensures KeysOf(items, selector, n + 1) == KeysOf(items, selector, n) + {selector(items[n])}
  {
    assert forall i :: 0 <= i < n + 1 && i != n ==> selector(items[i]) in KeysOf(items, selector, n);
  }

  /** One more item joins its key's group. */
  lemma GroupStep<T, K>(items: seq<T>, selector: T -> K, n: nat, k: K)
    requires n < |items|
    ensures Group(items[..n + 1], selector, k)
         == Group(items[..n], selector, k) + (if selector(items[n]) == k then [items[n]] else [])
  {
    assert items[..n + 1][..n] == items[..n];
  }

  /** A key not yet seen has an empty group. */
  lemma GroupUnseen<T, K>(items: seq<T>, selector: T -> K, n: nat, k: K)
    requires n <= |items| && k !in KeysOf(items, selector, n)
    ensures Group(items[..n], selector, k) == []
  {
    GroupMembers(items[..n], selector, k);
    assert forall i :: 0 <= i < n ==> selector(items[..n][i]) in KeysOf(items, selector, n);
  }

  /** `groupBy` (lib/utils.0.ts:81-89). Each key produced by `selector` maps to
      the items that produced it, in input order, and no group is empty. */
  method GroupBy<T, K(==)>(items: seq<T>, selector: T -> K) returns (grouped: map<K, seq<T>>)
    ensures grouped.Keys == set i | 0 <= i < |items| :: selector(items[i])
    ensures forall k :: k in grouped ==> grouped[k] == Group(items, selector, k)
    ensures forall k :: k in grouped ==> |grouped[k]| > 0
  {
    grouped := map[];
    for n := 0 to |items|
      invariant grouped.Keys == KeysOf(items, selector, n)
      invariant forall k :: k in grouped ==> grouped[k] == Group(items[..n], selector, k)
    {
      var key := selector(items[n]);
      KeysOfStep(items, selector, n);
      if key !in grouped {
        GroupUnseen(items, selector, n, key);
        grouped := grouped[key := []];
      }
      grouped := grouped[key := grouped[key] + [items[n]]];
      forall k | k in grouped
        ensures grouped[k] == Group(items[..n + 1], selector, k)
      {
        GroupStep(items, selector, n, k);
      }
    }
    assert items[..|items|] == items;
    forall k | k in grouped ensures |grouped[k]| > 0 {
      GroupMembers(items, selector, k);
    }
  }
}
