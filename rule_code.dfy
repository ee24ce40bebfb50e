/**
 * The rule-number encoding of elementary cellular automata (Wolfram, "A New
 * Kind of Science", page 24): a cell's neighbourhood (left, self, right) is
 * read as the three-bit number `(left << 2) | (self << 1) | right`, and bit n
 * of the rule number is the cell's next value for neighbourhood n.
 *
 * The rule is a PHP integer that nobody range-checks, so it is an unbounded
 * `int` here; only bits 0 to 7 of it are ever read.
 */
module RuleCode {

  /** A cell value, and more generally a single bit: 0 or 1. */
  type Cell = x: int | 0 <= x <= 1

  /** 2 to the power n. */
  function Pow2(n: nat): (p: nat)
    ensures p >= 1
  {
    if n == 0 then 1 else 2 * Pow2(n - 1)
  }

  /**
   * `(rule >> n) & 1` on a PHP integer. PHP's `>>` is an arithmetic shift:
   * each position shifted halves the value rounding towards minus infinity,
   * which is Dafny's `/ 2`; `& 1` keeps the parity of the two's-complement
   * value, which is Dafny's `% 2`. Negative rules therefore read the same bits
   * as in PHP.
   */
  function Bit(rule: int, n: nat): Cell
    decreases n
  {
    if n == 0 then rule % 2 else Bit(rule / 2, n - 1)
  }

  /** Bit n is the parity of the rule divided by 2 to the n. */
  lemma {:induction false} BitByPow2(rule: int, n: nat)
    ensures Bit(rule, n) == (rule / Pow2(n)) % 2
    decreases n
  {
    if n > 0 {
      BitByPow2(rule / 2, n - 1);
      DivModMul(rule, 2, Pow2(n - 1));
    }
  }

  /**
   * The neighbourhood code `(left << 2) | (self << 1) | right`, on three-bit
   * vectors. On cells that are 0 or 1 the three shifted values occupy
   * distinct bits, so the bitwise or is their sum.
   */
  function Code(left: Cell, self: Cell, right: Cell): (n: nat)
    ensures n == 4 * left + 2 * self + right
    ensures n < 8
  {
    (((left as bv3) << 2) | ((self as bv3) << 1) | (right as bv3)) as nat
  }

  /**
   * The new value of a cell whose neighbourhood is (left, self, right): bit
   * `Code(left, self, right)` of the rule (ApplyIsCode). The code is written
   * out as its sum rather than by calling Code, so that the update of a row
   * whose cells are known constants does not set the solver evaluating Code
   * on every combination of constants.
   */
  function Apply(rule: int, left: Cell, self: Cell, right: Cell): Cell
  {
    var l: int, s: int, r: int := left, self, right;
    Bit(rule, 4 * l + 2 * s + r)
  }

  /** The new value of a cell is the rule bit selected by its neighbourhood code. */
  lemma ApplyIsCode(rule: int, left: Cell, self: Cell, right: Cell)
    ensures Apply(rule, left, self, right) == Bit(rule, Code(left, self, right))
  {
  }

  /** The three low bits of a number below 8, by division. */
  lemma SmallBits(n: int)
    requires 0 <= n < 8
    ensures Bit(n, 2) == n / 4 && Bit(n, 1) == (n / 2) % 2 && Bit(n, 0) == n % 2
  {
    assert Bit(n, 2) == Bit(n / 2, 1) == Bit(n / 2 / 2, 0);
    assert n / 2 / 2 == n / 4;
  }

  lemma SmallSplit(n: int)
    requires 0 <= n < 8
    ensures 4 * (n / 4) + 2 * ((n / 2) % 2) + n % 2 == n
  {
  }

  /** Every code 0..7 is the code of the neighbourhood spelled by its three bits. */
  lemma CodeBits(n: nat)
    requires n < 8
    ensures Code(Bit(n, 2), Bit(n, 1), Bit(n, 0)) == n
  {
    SmallBits(n);
    SmallSplit(n);
  }

  /** Different neighbourhoods have different codes. */
  lemma CodeInjective(l1: Cell, s1: Cell, r1: Cell, l2: Cell, s2: Cell, r2: Cell)
    requires Code(l1, s1, r1) == Code(l2, s2, r2)
    ensures l1 == l2 && s1 == s2 && r1 == r2
  {
    var c1, c2 := Code(l1, s1, r1), Code(l2, s2, r2);
    assert c1 == 4 * l1 + 2 * s1 + r1;
    assert c2 == 4 * l2 + 2 * s2 + r2;
  }

  /** The code of a neighbourhood gives back its three cells, and every code 0..7 is the code of one neighbourhood. */
  lemma CodeRoundTrip(left: Cell, self: Cell, right: Cell, n: nat)
    requires n < 8
    ensures Bit(Code(left, self, right), 2) == left
    ensures Bit(Code(left, self, right), 1) == self
    ensures Bit(Code(left, self, right), 0) == right
    ensures Code(Bit(n, 2), Bit(n, 1), Bit(n, 0)) == n
  {
    CodeBits(n);
    var m := Code(left, self, right);
    var l, c, r := Bit(m, 2), Bit(m, 1), Bit(m, 0);
    assert Code(l, c, r) == m by {
      CodeBits(m);
    }
    CodeInjective(l, c, r, left, self, right);
  }

  /** The eight bits of the rule that say what each neighbourhood 0..7 becomes. */
  function RuleTable(rule: int): (t: seq<Cell>)
    ensures |t| == 8
    ensures forall n | 0 <= n < 8 :: t[n] == Bit(rule, n)
  {
    seq(8, n requires 0 <= n < 8 => Bit(rule, n))
  }

  /** The number whose binary digits, least significant first, are t. */
  function TableValue(t: seq<Cell>): int
  {
    if t == [] then 0 else t[0] + 2 * TableValue(t[1..])
  }

  /** The first k bits of a rule, least significant first. */
  function LowBits(rule: int, k: nat): (t: seq<Cell>)
    ensures |t| == k
  {
    seq(k, n requires 0 <= n < k => Bit(rule, n))
  }

  /** Euclidean division is determined by its defining equation. */
  lemma DivModUnique(x: int, d: int, q: int, r: int)
    requires d > 0 && x == d * q + r && 0 <= r < d
    ensures x / d == q && x % d == r
  {
    var q', r' := x / d, x % d;
    assert x == d * q' + r';
    if q > q' {
      MulAtLeast(d, q - q');
    } else if q < q' {
      MulAtLeast(d, q' - q);
    }
  }

  lemma MulAtLeast(d: int, m: int)
    requires d > 0 && m >= 1
    ensures d * m >= d
  {
    assert d * m == d + d * (m - 1);
  }

  /** Dividing by a then by b is dividing by a * b; the remainder splits likewise. */
  lemma DivModMul(x: int, a: int, b: int)
    requires a > 0 && b > 0
    ensures x / a / b == x / (a * b)
    ensures x % (a * b) == x % a + a * ((x / a) % b)
  {
    var q1, r1 := x / a, x % a;
    var q2, r2 := q1 / b, q1 % b;
    assert x == a * q1 + r1;
    assert q1 == b * q2 + r2;
    MulDistributes(a, b, q2, r2);
    assert x == (a * b) * q2 + (a * r2 + r1);
    MulBelow(a, r2, b);
    DivModUnique(x, a * b, q2, a * r2 + r1);
  }

  lemma MulDistributes(a: int, b: int, q: int, r: int)
    ensures a * (b * q + r) == (a * b) * q + a * r
  {
  }

  lemma MulBelow(a: int, r: int, b: int)
    requires a > 0 && 0 <= r < b
    ensures 0 <= a * r <= a * b - a
  {
    var d := b - 1 - r;
    MulNonNegative(a, r);
    MulNonNegative(a, d);
    assert a * (r + d) == a * r + a * d;
  }

  lemma MulNonNegative(x: int, y: int)
    requires x >= 0 && y >= 0
    ensures x * y >= 0
  {
  }

  /** The first k bits of a rule spell out the rule modulo 2 to the k. */
  lemma {:induction false} LowBitsValue(rule: int, k: nat)
    ensures TableValue(LowBits(rule, k)) == rule % Pow2(k)
    decreases k
  {
    if k > 0 {
      var t := LowBits(rule, k);
      assert t[1..] == LowBits(rule / 2, k - 1) by {
        forall n | 0 <= n < k - 1
          ensures t[1..][n] == LowBits(rule / 2, k - 1)[n]
        {
          assert Bit(rule, n + 1) == Bit(rule / 2, n);
        }
      }
      LowBitsValue(rule / 2, k - 1);
      assert t[0] == rule % 2;
      DivModMul(rule, 2, Pow2(k - 1));
    }
  }

  /** A bit sequence is determined by the number it spells. */
  lemma {:induction false} TableValueInjective(s: seq<Cell>, t: seq<Cell>)
    requires |s| == |t|
    requires TableValue(s) == TableValue(t)
    ensures s == t
  {
    if s != [] {
      DivModUnique(TableValue(s), 2, TableValue(s[1..]), s[0]);
      DivModUnique(TableValue(t), 2, TableValue(t[1..]), t[0]);
      TableValueInjective(s[1..], t[1..]);
      assert s == [s[0]] + s[1..] && t == [t[0]] + t[1..];
    }
  }

  /** The rule table spells the rule number modulo 256. */
  lemma RuleTableValue(rule: int)
    ensures TableValue(RuleTable(rule)) == rule % 256
  {
    assert RuleTable(rule) == LowBits(rule, 8);
    LowBitsValue(rule, 8);
    assert Pow2(8) == 256;
  }

  /** Two rule numbers have the same table exactly when they agree modulo 256: bits above 7 are never read. */
  lemma SameTableIffSameLowByte(rule1: int, rule2: int)
    ensures RuleTable(rule1) == RuleTable(rule2) <==> rule1 % 256 == rule2 % 256
  {
    RuleTableValue(rule1);
    RuleTableValue(rule2);
    if rule1 % 256 == rule2 % 256 {
      TableValueInjective(RuleTable(rule1), RuleTable(rule2));
    }
  }
}
