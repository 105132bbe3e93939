/** The per-item work of the pipeline (NTHU-OS-Pthreads/transformer.cpp): a linear congruential
    iteration on 64-bit unsigned values, with parameters chosen by the item's opcode. */
module Transformers {

  const TWO_64 := 0x1_0000_0000_0000_0000

  /** A C++ `unsigned long long`. */
  type uint64 = x: int | 0 <= x < TWO_64

  datatype Spec = Spec(a: uint64, b: uint64, m: uint64, iterations: nat)
  {
    predicate Valid() { m > 0 }
  }

  function ProducerSpec(opcode: char): Spec
    requires 'A' <= opcode <= 'E'
  {
    match opcode
    case 'A' => Spec(2003, 183492, 1000000007, 9000000)
    case 'B' => Spec(2143, 191324, 1000000009, 12000000)
    case 'C' => Spec(2089, 923134, 1000000021, 5000000)
    case 'D' => Spec(2677, 912834, 1000000033, 7000000)
    case _ => Spec(2693, 718341, 1000000087, 12000000)
  }

  function ConsumerSpec(opcode: char): Spec
    requires 'A' <= opcode <= 'E'
  {
    match opcode
    case 'A' => Spec(2729, 713423, 1000000093, 9000000)
    case 'B' => Spec(2617, 193424, 1000000097, 5000000)
    case 'C' => Spec(2053, 743142, 1000000103, 12000000)
    case 'D' => Spec(2347, 617345, 1000000123, 12000000)
    case _ => Spec(2521, 4719832, 1000000181, 7000000)
  }

  /** One step as the machine computes it: the product and the sum wrap at 64 bits. */
  function MachineStep(s: Spec, v: uint64): uint64
    requires s.Valid()
  {
    ((v * s.a % TWO_64 + s.b) % TWO_64) % s.m
  }

  function MachineIterate(s: Spec, v: uint64, k: nat): uint64
    requires s.Valid()
  {
    if k == 0 then v else MachineStep(s, MachineIterate(s, v, k - 1))
  }

  /** The same iteration on unbounded integers. */
  function Iterate(s: Spec, v: nat, k: nat): nat
    requires s.Valid()
  {
    if k == 0 then v else (Iterate(s, v, k - 1) * s.a + s.b) % s.m
  }

  class TransformSpec {
    var a: uint64
    var b: uint64
    var m: uint64
    var iterations: int

    constructor (s: Spec)
      ensures a == s.a && b == s.b && m == s.m && iterations == s.iterations
    {
      a, b, m, iterations := s.a, s.b, s.m, s.iterations;
    }
  }

  /** `Transformer::transform`; the loop uses up the spec's own counter. */
  method Transform(spec: TransformSpec, val: uint64) returns (r: uint64)
    requires spec.m > 0 && spec.iterations >= 0
    modifies spec
    ensures r == old(MachineIterate(Spec(spec.a, spec.b, spec.m, spec.iterations), val, spec.iterations))
    ensures spec.iterations == -1
  {
    ghost var s, n := Spec(spec.a, spec.b, spec.m, spec.iterations), spec.iterations;
    r := val;
    while true
      invariant 0 <= spec.iterations <= n && spec.a == s.a && spec.b == s.b && spec.m == s.m
      invariant r == MachineIterate(s, val, n - spec.iterations)
      decreases spec.iterations
    {
      var more := spec.iterations != 0;
      spec.iterations := spec.iterations - 1;
      if !more {
        break;
      }
      r := ((r * spec.a % TWO_64 + spec.b) % TWO_64) % spec.m;
    }
  }

  // ---------- No wrap ----------

  /** Whether the sum of some step exceeds 64 bits. */
  ghost predicate Wraps(s: Spec, v: uint64, k: nat)
    requires s.Valid()
  {
    exists i :: 0 <= i < k && MachineIterate(s, v, i) * s.a + s.b >= TWO_64
  }

  /** Every value below the modulus is safe for the next step. */
  predicate Small(s: Spec) {
    s.Valid() && s.m * s.a + s.b < TWO_64
  }

  lemma TablesAreSmall(opcode: char)
    requires 'A' <= opcode <= 'E'
    ensures Small(ProducerSpec(opcode)) && Small(ConsumerSpec(opcode))
    ensures ProducerSpec(opcode).m < ConsumerSpec(opcode).m + 1
    ensures ProducerSpec(opcode).iterations > 0 && ConsumerSpec(opcode).iterations > 0
  {
  }

  /** What each row makes of 0 and of 1 in one step, and how many steps it takes. */
  lemma KnownSteps()
    ensures var s := ProducerSpec('A'); Iterate(s, 0, 1) == 183492 && Iterate(s, 1, 1) == 185495 && s.iterations == 9000000
    ensures var s := ProducerSpec('B'); Iterate(s, 0, 1) == 191324 && Iterate(s, 1, 1) == 193467 && s.iterations == 12000000
    ensures var s := ProducerSpec('C'); Iterate(s, 0, 1) == 923134 && Iterate(s, 1, 1) == 925223 && s.iterations == 5000000
    ensures var s := ProducerSpec('D'); Iterate(s, 0, 1) == 912834 && Iterate(s, 1, 1) == 915511 && s.iterations == 7000000
    ensures var s := ProducerSpec('E'); Iterate(s, 0, 1) == 718341 && Iterate(s, 1, 1) == 721034 && s.iterations == 12000000
    ensures var s := ConsumerSpec('A'); Iterate(s, 0, 1) == 713423 && Iterate(s, 1, 1) == 716152 && s.iterations == 9000000
    ensures var s := ConsumerSpec('B'); Iterate(s, 0, 1) == 193424 && Iterate(s, 1, 1) == 196041 && s.iterations == 5000000
    ensures var s := ConsumerSpec('C'); Iterate(s, 0, 1) == 743142 && Iterate(s, 1, 1) == 745195 && s.iterations == 12000000
    ensures var s := ConsumerSpec('D'); Iterate(s, 0, 1) == 617345 && Iterate(s, 1, 1) == 619692 && s.iterations == 12000000
    ensures var s := ConsumerSpec('E'); Iterate(s, 0, 1) == 4719832 && Iterate(s, 1, 1) == 4722353 && s.iterations == 7000000
  {
    OneStep('A');
    OneStep('B');
    OneStep('C');
    OneStep('D');
    OneStep('E');
  }

  lemma OneStep(opcode: char)
    requires 'A' <= opcode <= 'E'
    ensures var s := ProducerSpec(opcode); Iterate(s, 0, 1) == s.b && Iterate(s, 1, 1) == s.a + s.b
    ensures var s := ConsumerSpec(opcode); Iterate(s, 0, 1) == s.b && Iterate(s, 1, 1) == s.a + s.b
  {
    FromZeroAndOne(ProducerSpec(opcode));
    FromZeroAndOne(ConsumerSpec(opcode));
  }

  lemma FromZeroAndOne(s: Spec)
    requires s.Valid() && s.a + s.b < s.m
    ensures Iterate(s, 0, 1) == s.b && Iterate(s, 1, 1) == s.a + s.b
  {
    hide Iterate;
    FirstStep(s, 0);
    FirstStep(s, 1);
    Within(s.b, s.m);
    Within(s.a + s.b, s.m);
  }

  lemma FirstStep(s: Spec, v: nat)
    requires s.Valid()
    ensures Iterate(s, v, 1) == (v * s.a + s.b) % s.m
  {
    assert Iterate(s, v, 0) == v;
  }

  lemma Within(x: nat, m: nat)
    requires x < m
    ensures x % m == x
  {
  }

  lemma StepBelow(s: Spec, v: uint64)
    requires Small(s) && v < s.m
    ensures v * s.a + s.b < TWO_64
  {
    assert v * s.a <= s.m * s.a;
  }

  /** The iteration is free of wrap-around exactly when its very first sum fits. */
  lemma {:induction false} WrapsOnlyAtStart(s: Spec, v: uint64, k: nat)
    requires Small(s) && k > 0
    ensures Wraps(s, v, k) <==> v * s.a + s.b >= TWO_64
  {
    assert MachineIterate(s, v, 0) == v;
    forall i | 0 < i < k
      ensures MachineIterate(s, v, i) * s.a + s.b < TWO_64
    {
      StepBelow(s, MachineIterate(s, v, i));
    }
  }

  lemma StepDoesNotWrap(s: Spec, v: uint64)
    requires s.Valid() && v * s.a + s.b < TWO_64
    ensures MachineStep(s, v) == (v * s.a + s.b) % s.m
  {
    var x := v * s.a;
    assert 0 <= x && x + s.b < TWO_64;
    assert x % TWO_64 == x;
  }

  /** Then the machine computes the iteration on integers. */
  lemma {:induction false} NoWrapNoDifference(s: Spec, v: uint64, k: nat)
    requires Small(s) && v * s.a + s.b < TWO_64
    ensures MachineIterate(s, v, k) == Iterate(s, v, k)
  {
    hide MachineStep;
    if k > 0 {
      NoWrapNoDifference(s, v, k - 1);
      if k > 1 {
        StepBelow(s, MachineIterate(s, v, k - 1));
      }
      StepDoesNotWrap(s, MachineIterate(s, v, k - 1));
    }
  }

  // ---------- What a wrap does to the result ----------

  /** `i` inverts the multiplier and `w` inverts 2^64, modulo `m`. */
  predicate Invertible(s: Spec, i: nat, w: nat) {
    Small(s) && 1 < s.m && s.a < s.m && s.a * i % s.m == 1 && TWO_64 * w % s.m == 1
  }

  lemma MultipleOf(d: int, m: int, q: int)
    requires m > 0 && d == m * q && -m < d < m
    ensures d == 0
  {
    assert q >= 1 ==> m * q >= m;
    assert q <= -1 ==> m * q <= -m;
  }

  /** A factor with an inverse can be cancelled. */
  lemma Cancel(m: int, a: int, i: int, d: int, q: int)
    requires m > 1 && a * i % m == 1 && a * d == m * q && -m < d < m
    ensures d == 0
  {
    var t := a * i / m;
    assert a * i == 1 + m * t;
    calc {
      d;
      (1 + m * t) * d - m * t * d;
      a * i * d - m * t * d;
      { assert a * i * d == i * (a * d); }
      i * (m * q) - m * t * d;
      { assert i * (m * q) == m * (i * q) && m * t * d == m * (t * d); }
      m * (i * q) - m * (t * d);
      m * (i * q - t * d);
    }
    MultipleOf(d, m, i * q - t * d);
  }

  lemma SameRemainder(x: int, y: int, m: int) returns (q: int)
    requires m > 0 && x % m == y % m
    ensures x - y == m * q
  {
    q := x / m - y / m;
    assert x == m * (x / m) + x % m && y == m * (y / m) + y % m;
    assert m * (x / m) - m * (y / m) == m * q;
  }

  /** Below the modulus, a step without wrap is one to one. */
  lemma StepInjective(s: Spec, i: nat, w: nat, x: nat, y: nat)
    requires Invertible(s, i, w) && x < s.m && y < s.m
    requires (x * s.a + s.b) % s.m == (y * s.a + s.b) % s.m
    ensures x == y
  {
    var q := SameRemainder(x * s.a + s.b, y * s.a + s.b, s.m);
    assert s.a * (x - y) == x * s.a - y * s.a;
    Cancel(s.m, s.a, i, x - y, q);
  }

  /** The two wraps of a sum `x + b`, together: no more than `a` when `x` is `a` times a 64-bit value. */
  lemma WrapCount(x: nat, a: nat, b: uint64) returns (j: int)
    requires x + a <= TWO_64 * a && x + b >= TWO_64
    ensures 0 < j <= a && (x % TWO_64 + b) % TWO_64 == x + b - j * TWO_64
  {
    var h, r := x / TWO_64, x % TWO_64;
    if r + b < TWO_64 {
      j := h;
    } else {
      j := h + 1;
    }
  }

  lemma ProductGrows(x: nat, y: nat, a: nat)
    requires x < y
    ensures x * a + a <= y * a
  {
    var d := y - x - 1;
    calc {
      y * a;
      (x + (d + 1)) * a;
      x * a + (d * a + a);
    }
  }

  /** A sum that wraps has another remainder than it would have had. */
  lemma WrapShows(x: nat, a: nat, b: uint64, m: nat, w: nat)
    requires x + a <= TWO_64 * a && x + b >= TWO_64
    requires 1 < m && a < m && TWO_64 * w % m == 1
    ensures ((x % TWO_64 + b) % TWO_64) % m != (x + b) % m
  {
    var j := WrapCount(x, a, b);
    if (x + b - j * TWO_64) % m == (x + b) % m {
      var q := SameRemainder(x + b, x + b - j * TWO_64, m);
      Cancel(m, TWO_64, w, j, q);
    }
  }

  /** A first step that wraps gives another result than on integers. */
  lemma FirstStepDiffers(s: Spec, i: nat, w: nat, v: uint64)
    requires Invertible(s, i, w) && v * s.a + s.b >= TWO_64
    ensures MachineStep(s, v) != (v * s.a + s.b) % s.m
  {
    ProductGrows(v, TWO_64, s.a);
    WrapShows(v * s.a, s.a, s.b, s.m, w);
  }

  /** And all later steps keep the difference. */
  lemma {:induction false} WrapIsNeverUndone(s: Spec, i: nat, w: nat, v: uint64, k: nat)
    requires Invertible(s, i, w) && v * s.a + s.b >= TWO_64 && k > 0
    ensures MachineIterate(s, v, k) < s.m && Iterate(s, v, k) < s.m
    ensures MachineIterate(s, v, k) != Iterate(s, v, k)
  {
    hide MachineStep;
    assert MachineIterate(s, v, k) == MachineStep(s, MachineIterate(s, v, k - 1));
    StepBelowModulus(s, MachineIterate(s, v, k - 1));
    if k == 1 {
      FirstStepDiffers(s, i, w, v);
    } else {
      WrapIsNeverUndone(s, i, w, v, k - 1);
      var x, y := MachineIterate(s, v, k - 1), Iterate(s, v, k - 1);
      StepBelow(s, x);
      StepDoesNotWrap(s, x);
      if (x * s.a + s.b) % s.m == (y * s.a + s.b) % s.m {
        StepInjective(s, i, w, x, y);
      }
    }
  }

  lemma StepBelowModulus(s: Spec, v: uint64)
    requires s.Valid()
    ensures MachineStep(s, v) < s.m
  {
  }

  /** The machine computes the iteration on integers exactly when the very first sum fits in 64 bits. */
  lemma ExactIffFirstFits(s: Spec, i: nat, w: nat, v: uint64, k: nat)
    requires Invertible(s, i, w) && k > 0
    ensures MachineIterate(s, v, k) == Iterate(s, v, k) <==> v * s.a + s.b < TWO_64
  {
    if v * s.a + s.b < TWO_64 {
      NoWrapNoDifference(s, v, k);
    } else {
      WrapIsNeverUndone(s, i, w, v, k);
    }
  }

  /** Different values below the modulus stay different under any number of steps that do not wrap. */
  lemma {:induction false} IterateInjective(s: Spec, i: nat, w: nat, x: nat, y: nat, k: nat)
    requires Invertible(s, i, w) && x < s.m && y < s.m && x != y
    ensures Iterate(s, x, k) < s.m && Iterate(s, y, k) < s.m && Iterate(s, x, k) != Iterate(s, y, k)
  {
    if k > 0 {
      IterateInjective(s, i, w, x, y, k - 1);
      var x', y' := Iterate(s, x, k - 1), Iterate(s, y, k - 1);
      if (x' * s.a + s.b) % s.m == (y' * s.a + s.b) % s.m {
        StepInjective(s, i, w, x', y');
      }
    }
  }

  function ProducerInverse(opcode: char): (nat, nat) {
    match opcode
    case 'A' => (137793311, 268203220)
    case 'B' => (826411580, 795770796)
    case 'C' => (594064158, 472078507)
    case 'D' => (52670902, 114061366)
    case _ => (449684406, 345196062)
  }

  function ConsumerInverse(opcode: char): (nat, nat) {
    match opcode
    case 'A' => (727006297, 818538679)
    case 'B' => (902178154, 579634000)
    case 'C' => (700438455, 248256159)
    case 'D' => (405624251, 722390246)
    case _ => (712415837, 672467480)
  }

  lemma ProducerInvertible(opcode: char)
    requires 'A' <= opcode <= 'E'
    ensures Invertible(ProducerSpec(opcode), ProducerInverse(opcode).0, ProducerInverse(opcode).1)
  {
  }

  lemma ConsumerInvertible(opcode: char)
    requires 'A' <= opcode <= 'E'
    ensures Invertible(ConsumerSpec(opcode), ConsumerInverse(opcode).0, ConsumerInverse(opcode).1)
  {
  }

  /** For every row of both tables, at its own number of iterations. */
  lemma TablesExactIff(opcode: char, v: uint64)
    requires 'A' <= opcode <= 'E'
    ensures var s := ProducerSpec(opcode);
            MachineIterate(s, v, s.iterations) == Iterate(s, v, s.iterations) <==> v * s.a + s.b < TWO_64
    ensures var s := ConsumerSpec(opcode);
            MachineIterate(s, v, s.iterations) == Iterate(s, v, s.iterations) <==> v * s.a + s.b < TWO_64
  {
    hide ProducerSpec, ConsumerSpec, ProducerInverse, ConsumerInverse, Invertible, MachineIterate, Iterate;
    TablesAreSmall(opcode);
    ProducerInvertible(opcode);
    ConsumerInvertible(opcode);
    var p, c := ProducerSpec(opcode), ConsumerSpec(opcode);
    ExactIffFirstFits(p, ProducerInverse(opcode).0, ProducerInverse(opcode).1, v, p.iterations);
    ExactIffFirstFits(c, ConsumerInverse(opcode).0, ConsumerInverse(opcode).1, v, c.iterations);
  }

  // ---------- What the iteration computes ----------

  function Power(a: nat, k: nat): nat {
    if k == 0 then 1 else a * Power(a, k - 1)
  }

  /** 1 + a + ... + a^(k-1) */
  function Geometric(a: nat, k: nat): nat {
    if k == 0 then 0 else a * Geometric(a, k - 1) + 1
  }

  lemma DivMod(y: int, m: int)
    requires m > 0
    ensures y % m == y - y / m * m
  {
  }

  lemma Affine(x: int, q: int, m: int, a: int, b: int, p: int, v: int, g: int, d: int)
    requires x + q * m == p * v + b * g
    ensures x * a + b - d * m + (q * a + d) * m == a * p * v + b * (a * g + 1)
  {
    calc {
      x * a + b - d * m + (q * a + d) * m;
      x * a + b - d * m + (q * a * m + d * m);
      x * a + q * a * m + b;
      { assert q * a * m == q * m * a; }
      (x + q * m) * a + b;
      (p * v + b * g) * a + b;
      { assert p * v * a == a * p * v && b * g * a == b * (a * g); }
      a * p * v + (b * (a * g) + b);
      { assert b * (a * g) + b == b * (a * g + 1); }
      a * p * v + b * (a * g + 1);
    }
  }

  /** `k` steps amount to a^k * v + b * (1 + a + ... + a^(k-1)), reduced modulo m. */
  lemma {:induction false} IterateClosedForm(s: Spec, v: nat, k: nat) returns (q: int)
    requires s.Valid()
    ensures Iterate(s, v, k) + q * s.m == Power(s.a, k) * v + s.b * Geometric(s.a, k)
    ensures k > 0 ==> 0 <= Iterate(s, v, k) < s.m
  {
    if k == 0 {
      q := 0;
    } else {
      q := IterateClosedForm(s, v, k - 1);
      var x := Iterate(s, v, k - 1);
      var d := (x * s.a + s.b) / s.m;
      DivMod(x * s.a + s.b, s.m);
      Affine(x, q, s.m, s.a, s.b, Power(s.a, k - 1), v, Geometric(s.a, k - 1), d);
      q := q * s.a + d;
    }
  }

  // ---------- Items ----------

  datatype Item = Item(key: int, val: uint64, opcode: char)
  {
    predicate Valid() { 'A' <= opcode <= 'E' }
  }

  /** An opcode outside the tables is an assertion failure; items are assumed valid. */
  function Produce(item: Item): Item {
    if item.Valid() then
      var s := ProducerSpec(item.opcode);
      item.(val := MachineIterate(s, item.val, s.iterations))
    else item
  }

  function Consume(item: Item): Item {
    if item.Valid() then
      var s := ConsumerSpec(item.opcode);
      item.(val := MachineIterate(s, item.val, s.iterations))
    else item
  }

  method ProducerTransform(opcode: char, val: uint64) returns (r: uint64)
    requires 'A' <= opcode <= 'E'
    ensures forall key :: Item(key, r, opcode) == Produce(Item(key, val, opcode))
  {
    hide MachineIterate;
    TablesAreSmall(opcode);
    var spec := new TransformSpec(ProducerSpec(opcode));
    r := Transform(spec, val);
  }

  method ConsumerTransform(opcode: char, val: uint64) returns (r: uint64)
    requires 'A' <= opcode <= 'E'
    ensures forall key :: Item(key, r, opcode) == Consume(Item(key, val, opcode))
  {
    hide MachineIterate;
    TablesAreSmall(opcode);
    var spec := new TransformSpec(ConsumerSpec(opcode));
    r := Transform(spec, val);
  }

  /** The first product-and-sum of the item's producer step fits in 64 bits. */
  predicate Fits(item: Item) {
    item.Valid() && item.val * ProducerSpec(item.opcode).a + ProducerSpec(item.opcode).b < TWO_64
  }

  /** The item after both stages, if no sum had wrapped. */
  function IntegerOutput(item: Item): nat
    requires item.Valid()
  {
    var p, c := ProducerSpec(item.opcode), ConsumerSpec(item.opcode);
    Iterate(c, Iterate(p, item.val, p.iterations), c.iterations)
  }

  /** For items that fit, both stages compute the iterations on integers: the consumer's never wraps. */
  lemma StagesDoNotWrap(item: Item)
    requires Fits(item)
    ensures Consume(Produce(item)) == item.(val := IntegerOutput(item))
  {
    hide ProducerSpec, ConsumerSpec;
    var p, c := ProducerSpec(item.opcode), ConsumerSpec(item.opcode);
    TablesAreSmall(item.opcode);
    NoWrapNoDifference(p, item.val, p.iterations);
    var v := MachineIterate(p, item.val, p.iterations);
    assert v < p.m <= c.m;
    StepBelow(c, v);
    NoWrapNoDifference(c, v, c.iterations);
  }

  /** The consumer's stage hides no difference that the producer's has made. */
  lemma ConsumerKeepsDifference(item: Item)
    requires item.Valid() && !Fits(item)
    ensures Consume(Produce(item)).val != IntegerOutput(item)
  {
    hide ProducerSpec, ConsumerSpec, ProducerInverse, ConsumerInverse, Invertible, MachineIterate, Iterate;
    var p, c := ProducerSpec(item.opcode), ConsumerSpec(item.opcode);
    TablesAreSmall(item.opcode);
    ProducerInvertible(item.opcode);
    ConsumerInvertible(item.opcode);
    var i, w := ConsumerInverse(item.opcode).0, ConsumerInverse(item.opcode).1;
    WrapIsNeverUndone(p, ProducerInverse(item.opcode).0, ProducerInverse(item.opcode).1, item.val, p.iterations);
    var x, y := MachineIterate(p, item.val, p.iterations), Iterate(p, item.val, p.iterations);
    assert Small(c) && x < c.m && y < c.m;
    StepBelow(c, x);
    NoWrapNoDifference(c, x, c.iterations);
    IterateInjective(c, i, w, x, y, c.iterations);
  }

  /** An item's output is that of the iterations on integers exactly when its first product and sum fit. */
  lemma ItemExactIff(item: Item)
    requires item.Valid()
    ensures Consume(Produce(item)).val == IntegerOutput(item) <==> Fits(item)
  {
    hide Consume, Produce, IntegerOutput;
    if Fits(item) {
      StagesDoNotWrap(item);
    } else {
      ConsumerKeepsDifference(item);
    }
  }

  /** An item whose final output, after all 18 million iterations, is not that of the integers. */
  lemma WrapExample()
    ensures var item := Item(1, 0xffff_ffff_ffff_ffff, 'A');
            item.Valid() && Consume(Produce(item)).val != IntegerOutput(item)
  {
    var item := Item(1, 0xffff_ffff_ffff_ffff, 'A');
    assert !Fits(item);
    ItemExactIff(item);
  }
}
