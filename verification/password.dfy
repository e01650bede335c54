/** The secure password generator of the utilities: eight characters, at
    least one from each of four classes, shuffled. The random source is a
    parameter: each draw is a rational in [0, 1). */
module Password {

  const Lowercase := "abcdefghijklmnopqrstuvwxyz"
  const Uppercase := "ABCDEFGHIJKLMNOPQRSTUVWXYZ"
  const Numeric := "0123456789"
  const Special := "!@#$%^&*()-_"
  const Length := 8

  /** The four classes concatenated: the alphabet the fill characters come
      from. */
  const Union := Lowercase + Uppercase + Numeric + Special

  /** One value of `Math.random()`, as `num / den`. */
  datatype Draw = Draw(num: nat, den: nat)

  predicate ValidDraw(d: Draw) {
    0 < d.den && d.num < d.den
  }

  /** `Math.floor(random * n)`: an index below `n`. */
  function Scale(d: Draw, n: nat): (k: nat)
    requires ValidDraw(d) && n > 0
    ensures k < n
  {
    var x := d.num * n;
    FloorBounds(x, d.den);
    ScaledBelow(d.num, d.den, n);
    FloorBelow(x / d.den, d.den, x, n);
    x / d.den
  }

  /** The index is the floor of `random * n`: the `k` with
      `k <= random * n < k + 1`. */
  lemma ScaleIsFloor(d: Draw, n: nat)
    requires ValidDraw(d) && n > 0
    ensures var k := Scale(d, n);
      k * d.den <= d.num * n < (k + 1) * d.den
  {
    FloorBounds(d.num * n, d.den);
  }

  /** Floor division brackets its dividend. */
  lemma FloorBounds(x: nat, den: nat)
    requires 0 < den
    ensures 0 <= x / den
    ensures (x / den) * den <= x < (x / den + 1) * den
  {
    var q, r := x / den, x % den;
    assert x == q * den + r && r < den;
    assert (q + 1) * den == q * den + den;
  }

  /** A draw below 1 scales `n` to below `n`. */
  lemma ScaledBelow(num: nat, den: nat, n: nat)
    requires num < den && n > 0
    ensures num * n < den * n
  {
    assert den * n == num * n + (den - num) * n;
  }

  /** A multiple of `den` below `n * den` has a factor below `n`. */
  lemma FloorBelow(k: nat, den: nat, x: nat, n: nat)
    requires 0 < den && k * den <= x && x < den * n
    ensures k < n
  {
    assert k * den < n * den;
  }

  /** `getRandomCharacter`: one character of the charset. */
  function GetRandomCharacter(charset: string, d: Draw): (c: char)
    requires |charset| > 0 && ValidDraw(d)
    ensures c in charset
  {
    charset[Scale(d, |charset|)]
  }

  /** `shuffleString`: for `i` from the last index down to 1, swap position
      `i` with a position drawn from `0..i`. The draws are used one per step,
      in order. */
  method ShuffleString(s: string, draws: seq<Draw>) returns (r: string)
    requires |draws| >= |s| - 1
    requires forall k :: 0 <= k < |draws| ==> ValidDraw(draws[k])
    ensures |r| == |s|
    ensures multiset(r) == multiset(s)
  {
    r := s;
    if |s| == 0 {
      return;
    }
    var i := |s| - 1;
    while i > 0
      invariant 0 <= i < |s|
      invariant |r| == |s|
      invariant multiset(r) == multiset(s)
      decreases i
    {
      var j := Scale(draws[|s| - 1 - i], i + 1);
      var a, b := r[i], r[j];
      r := r[i := b][j := a];
      i := i - 1;
    }
  }

  /** The number of draws one password takes: four class characters, four
      fill characters and seven swaps. */
  const DrawsNeeded := 4 + (Length - 4) + (Length - 1)

  /** `generateSecurePassword`. */
  method GenerateSecurePassword(draws: seq<Draw>) returns (p: string)
    requires |draws| == DrawsNeeded
    requires forall k :: 0 <= k < |draws| ==> ValidDraw(draws[k])
    ensures |p| == Length
    ensures forall k :: 0 <= k < |p| ==> p[k] in Union
    ensures exists k :: 0 <= k < |p| && p[k] in Lowercase
    ensures exists k :: 0 <= k < |p| && p[k] in Uppercase
    ensures exists k :: 0 <= k < |p| && p[k] in Numeric
    ensures exists k :: 0 <= k < |p| && p[k] in Special
  {
    var q := [GetRandomCharacter(Lowercase, draws[0]), GetRandomCharacter(Uppercase, draws[1]),
              GetRandomCharacter(Numeric, draws[2]), GetRandomCharacter(Special, draws[3])];
    var i := 4;
    while i < Length
      invariant 4 <= i <= Length
      invariant |q| == i
      invariant q[0] in Lowercase && q[1] in Uppercase && q[2] in Numeric && q[3] in Special
      invariant forall k :: 0 <= k < |q| ==> q[k] in Union
    {
      q := q + [Union[Scale(draws[i], |Union|)]];
      i := i + 1;
    }
    p := ShuffleString(q, draws[Length..]);
    PermutationKeepsClass(p, q, 0, Lowercase);
    PermutationKeepsClass(p, q, 1, Uppercase);
    PermutationKeepsClass(p, q, 2, Numeric);
    PermutationKeepsClass(p, q, 3, Special);
    forall k | 0 <= k < |p| ensures p[k] in Union {
      assert p[k] in multiset(q);
    }
  }

  /** A permutation keeps a character of a class. */
  lemma PermutationKeepsClass(p: string, q: string, i: nat, charset: string)
    requires multiset(p) == multiset(q)
    requires i < |q| && q[i] in charset
    ensures exists k :: 0 <= k < |p| && p[k] in charset
  {
    assert q[i] in multiset(p);
    var k :| 0 <= k < |p| && p[k] == q[i];
  }
}
