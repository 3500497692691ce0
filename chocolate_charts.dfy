/**
 * Day 14 (14/src/main.rs): two elves cook on a scoreboard of recipe
 * scores that starts as [3, 7] with the elves on recipes 0 and 1.  Each
 * round the decimal digits of the sum of the elves' current scores are
 * appended, and every elf steps forward one plus its current score,
 * wrapping round the new scoreboard.  Part A reads the ten scores after
 * the first n; part B finds where a digit string first appears.
 */
module ChocolateCharts {
  import opened Wrappers
  import Arithmetic

  // ---------------------------------------------------------------------
  // Decimal digits
  // ---------------------------------------------------------------------

  function Pow10(k: nat): (r: nat)
    ensures r >= 1
  {
    if k == 0 then 1 else 10 * Pow10(k - 1)
  }

  predicate IsDigits(ds: seq<nat>)
  {
    forall i :: 0 <= i < |ds| ==> ds[i] < 10
  }

  /** The decimal digits of n, most significant first, without leading zeros; 0 is [0]. */
  function Digits(n: nat): (r: seq<nat>)
    ensures |r| >= 1 && IsDigits(r)
    ensures (r[0] == 0) == (n == 0)
  {
    if n < 10 then [n] else Digits(n / 10) + [n % 10]
  }

  /** The number a digit sequence spells. */
  function Value(ds: seq<nat>): nat
  {
    if ds == [] then 0 else Value(ds[..|ds| - 1]) * 10 + ds[|ds| - 1]
  }

  /** Reading the digits back gives the number. */
  lemma {:induction false} DigitsValue(n: nat)
    ensures Value(Digits(n)) == n
  {
    if n >= 10 {
      DigitsValue(n / 10);
      var ds := Digits(n);
      assert ds[..|ds| - 1] == Digits(n / 10);
    }
  }

  lemma {:induction false} ValueBelow(ds: seq<nat>)
    requires IsDigits(ds)
    ensures Value(ds) < Pow10(|ds|)
  {
    if ds != [] {
      ValueBelow(ds[..|ds| - 1]);
    }
  }

  lemma {:induction false} ValueAtLeast(ds: seq<nat>)
    requires IsDigits(ds) && |ds| >= 1 && ds[0] != 0
    ensures Value(ds) >= Pow10(|ds| - 1)
  {
    if |ds| > 1 {
      ValueAtLeast(ds[..|ds| - 1]);
    }
  }

  /** Every digit string without a leading zero is the digits of the number it spells. */
  lemma {:induction false} ValueDigits(ds: seq<nat>)
    requires IsDigits(ds) && |ds| >= 1 && (ds[0] != 0 || |ds| == 1)
    ensures Digits(Value(ds)) == ds
  {
    var n := Value(ds);
    if |ds| > 1 {
      var init := ds[..|ds| - 1];
      ValueAtLeast(init);
      Arithmetic.DivModUnique(n, 10, Value(init), ds[|ds| - 1]);
      ValueDigits(init);
    }
  }

  lemma Pow10Next(k: nat)
    ensures Pow10(k + 1) == 10 * Pow10(k)
  {
  }

  /** Dividing by p and then by 10 is dividing by 10 p. */
  lemma DivDivBy(n: nat, p: nat)
    requires p >= 1
    ensures n / (10 * p) == n / p / 10
  {
    var q, r := n / p, n % p;
    var q2, r2 := q / 10, q % 10;
    assert n == p * q + r;
    assert q == 10 * q2 + r2;
    calc {
      p * q;
      p * (10 * q2 + r2);
      p * (10 * q2) + p * r2;
      (10 * p) * q2 + p * r2;
    }
    assert p * r2 <= p * 9 by {
      assert p * (9 - r2) >= 0;
    }
    Arithmetic.DivModUnique(n, 10 * p, q2, p * r2 + r);
  }

  /** Dividing by 10^k and then by 10 is dividing by 10^(k + 1). */
  lemma DivDiv(n: nat, k: nat)
    ensures n / Pow10(k + 1) == n / Pow10(k) / 10
  {
    Pow10Next(k);
    DivDivBy(n, Pow10(k));
  }

  /** Dividing by 10 first or last gives the same quotient. */
  lemma {:induction false} DivSwap(n: nat, k: nat)
    ensures n / Pow10(k + 1) == n / 10 / Pow10(k)
  {
    if k > 0 {
      DivSwap(n, k - 1);
      DivDiv(n, k);
      DivDiv(n / 10, k - 1);
    }
  }

  /** A number with k + 1 digits has k digits once its last one is dropped. */
  lemma DropDigit(n: nat, k: nat)
    requires Pow10(k) <= n < Pow10(k + 1)
    ensures k >= 1 ==> Pow10(k - 1) <= n / 10
    ensures n / 10 < Pow10(k)
  {
    Pow10Next(k);
    assert n == 10 * (n / 10) + n % 10;
    if k >= 1 {
      Pow10Next(k - 1);
    }
  }

  /** The k lowest digits of n, least significant first. */
  function LowDigits(n: nat, k: nat): seq<nat>
  {
    if k == 0 then [] else LowDigits(n, k - 1) + [n / Pow10(k - 1) % 10]
  }

  function Reverse(s: seq<nat>): (r: seq<nat>)
    ensures |r| == |s| && forall i :: 0 <= i < |s| ==> r[i] == s[|s| - 1 - i]
  {
    if s == [] then [] else [s[|s| - 1]] + Reverse(s[..|s| - 1])
  }

  /** The lowest digit first, then the low digits of n / 10. */
  lemma {:induction false} LowDigitsCons(n: nat, k: nat)
    requires k >= 1
    ensures LowDigits(n, k) == [n % 10] + LowDigits(n / 10, k - 1)
  {
    if k > 1 {
      LowDigitsCons(n, k - 1);
      DivSwap(n, k - 2);
    }
  }

  /** With exactly k digits, the k low digits reversed are the digits. */
  lemma {:induction false} LowDigitsReversed(n: nat, k: nat)
    requires k >= 1 && Pow10(k - 1) <= n < Pow10(k)
    ensures Reverse(LowDigits(n, k)) == Digits(n)
  {
    LowDigitsCons(n, k);
    var low := LowDigits(n / 10, k - 1);
    if k == 1 {
      Pow10Next(0);
      assert low == [];
    } else {
      DropDigit(n, k - 1);
      LowDigitsReversed(n / 10, k - 1);
      var all := [n % 10] + low;
      assert all[..|all| - 1] == [n % 10] + low[..|low| - 1];
      ReverseCons(n % 10, low);
    }
  }

  lemma ReverseCons(d: nat, s: seq<nat>)
    ensures Reverse([d] + s) == Reverse(s) + [d]
  {
  }

  /** q p splits at 10 p into the tens of q and the last digit of q, each times p. */
  lemma MulSplit(q: nat, p: nat)
    requires p >= 1
    ensures q * p == q / 10 * (10 * p) + q % 10 * p && q % 10 * p < 10 * p
  {
    var q2, r2 := q / 10, q % 10;
    assert q == 10 * q2 + r2;
    calc {
      q * p;
      (10 * q2 + r2) * p;
      (10 * q2) * p + r2 * p;
      q2 * (10 * p) + r2 * p;
    }
    assert r2 * p < 10 * p by {
      assert (9 - r2) * p >= 0;
    }
  }

  /**
   * One round of `split_num` on the multiple of p left of `number`: the
   * remainder by 10 p is the next digit times p, and subtracting it leaves
   * the multiple of 10 p.
   */
  lemma SplitStep(number: nat, p: nat)
    requires p >= 1
    ensures var split := number / p * p;
      split % (10 * p) == number / p % 10 * p
      && split % (10 * p) / p == number / p % 10
      && split - split % (10 * p) == number / p / 10 * (10 * p)
      && split <= number
  {
    var q := number / p;
    MulSplit(q, p);
    Arithmetic.DivModUnique(q * p, 10 * p, q / 10, q % 10 * p);
    Arithmetic.DivModUnique(q % 10 * p, p, q % 10, 0);
    assert number == p * q + number % p;
  }

  lemma SplitPositive(number: nat, k: nat)
    requires number / Pow10(k) * Pow10(k) > 0
    ensures Pow10(k) <= number
  {
    var p := Pow10(k);
    assert number == number / p * p + number % p;
    assert number / p >= 1;
    Arithmetic.MulAtLeast(p, number / p);
  }

  /** `split_num`: peels digits off the low end by remainders of growing powers of ten, then reverses. */
  method SplitNum(number: nat) returns (result: seq<nat>)
    ensures result == Digits(number)
  {
    if number == 0 {
      return [0];
    }
    result := [];
    var split := number;
    var lastPower := 1;
    var power := 10;
    ghost var k := 0;
    while split > 0
      invariant lastPower == Pow10(k) && power == Pow10(k + 1) == 10 * lastPower
      invariant split == number / Pow10(k) * Pow10(k)
      invariant result == LowDigits(number, k)
      invariant k >= 1 ==> Pow10(k - 1) <= number
      decreases number - lastPower
    {
      SplitPositive(number, k);
      SplitStep(number, lastPower);
      DivDiv(number, k);
      var found := split % power;
      result := result + [found / lastPower];
      lastPower := power;
      power := power * 10;
      split := split - found;
      k := k + 1;
      Pow10Next(k);
    }
    assert number / Pow10(k) == 0;
    assert number < Pow10(k) by {
      assert number == number / Pow10(k) * Pow10(k) + number % Pow10(k);
    }
    LowDigitsReversed(number, k);
    result := Reverse(result);
  }

  // ---------------------------------------------------------------------
  // Digits as text
  // ---------------------------------------------------------------------

  function DigitChar(d: nat): char
    requires d < 10
  {
    ('0' as int + d) as char
  }

  /** `to_string` of a number: one character per decimal digit. */
  function NumberText(n: nat): string
  {
    var ds := Digits(n);
    seq(|ds|, i requires 0 <= i < |ds| => DigitChar(ds[i]))
  }

  /** `slice_to_string`: the numbers' texts one after another. */
  function SliceToString(nums: seq<nat>): string
  {
    if nums == [] then "" else SliceToString(nums[..|nums| - 1]) + NumberText(nums[|nums| - 1])
  }

  /** On scores below ten the text has one character per score, the score's digit. */
  lemma {:induction false} DigitText(ds: seq<nat>)
    requires IsDigits(ds)
    ensures |SliceToString(ds)| == |ds|
    ensures forall i :: 0 <= i < |ds| ==> SliceToString(ds)[i] == DigitChar(ds[i])
  {
    if ds != [] {
      DigitText(ds[..|ds| - 1]);
    }
  }

  /** Two digit sequences have the same text exactly when they are equal. */
  lemma TextInjective(a: seq<nat>, b: seq<nat>)
    requires IsDigits(a) && IsDigits(b)
    ensures SliceToString(a) == SliceToString(b) <==> a == b
  {
    DigitText(a);
    DigitText(b);
    if SliceToString(a) == SliceToString(b) {
      forall i | 0 <= i < |a|
        ensures a[i] == b[i]
      {
        assert DigitChar(a[i]) == DigitChar(b[i]);
      }
    }
  }

  /** The digit string of a number is the number's text. */
  lemma DigitsText(n: nat)
    ensures SliceToString(Digits(n)) == NumberText(n)
  {
    DigitText(Digits(n));
  }

  // ---------------------------------------------------------------------
  // The scoreboard
  // ---------------------------------------------------------------------

  datatype State = State(elves: seq<nat>, scores: seq<nat>)

  /** Every elf stands on a recipe and every score is one digit. */
  predicate Good(s: State)
  {
    IsDigits(s.scores) && forall i :: 0 <= i < |s.elves| ==> s.elves[i] < |s.scores|
  }

  /** The elves' current recipes, in elf order. */
  function Current(s: State): seq<nat>
    requires Good(s)
  {
    seq(|s.elves|, i requires 0 <= i < |s.elves| && Good(s) => s.scores[s.elves[i]])
  }

  function Sum(xs: seq<nat>): nat
  {
    if xs == [] then 0 else Sum(xs[..|xs| - 1]) + xs[|xs| - 1]
  }

  /** The scoreboard as the solvers start it. */
  function Initial(): State
  {
    State([0, 1], [3, 7])
  }

  /**
   * `cook_recipes`: the digits of the elves' score sum are appended,
   * earlier scores stay, and each elf moves on one plus its old score
   * modulo the new length, so stays on the board.
   */
  function Cook(s: State): (r: State)
    requires Good(s)
    ensures Good(r) && |r.elves| == |s.elves|
    ensures |r.scores| > |s.scores| && r.scores[..|s.scores|] == s.scores
  {
    var recipes := Current(s);
    var scores := s.scores + Digits(Sum(recipes));
    State(seq(|s.elves|, i requires 0 <= i < |s.elves| => (s.elves[i] + recipes[i] + 1) % |scores|), scores)
  }

  lemma {:induction false} SumBound(xs: seq<nat>)
    requires IsDigits(xs)
    ensures Sum(xs) <= 9 * |xs|
  {
    if xs != [] {
      SumBound(xs[..|xs| - 1]);
    }
  }

  /** With two elves a round appends one or two scores. */
  lemma TwoElvesCook(s: State)
    requires Good(s) && |s.elves| == 2
    ensures |Cook(s).scores| <= |s.scores| + 2
  {
    SumBound(Current(s));
    var n := Sum(Current(s));
    if n >= 10 {
      assert Digits(n) == Digits(n / 10) + [n % 10];
    }
  }

  /** `n` rounds. */
  function Iterate(s: State, n: nat): (r: State)
    requires Good(s)
    ensures Good(r) && |r.elves| == |s.elves|
    ensures |r.scores| >= |s.scores| + n && r.scores[..|s.scores|] == s.scores
    decreases n
  {
    if n == 0 then s
    else
      var r := Iterate(Cook(s), n - 1);
      assert r.scores[..|s.scores|] == r.scores[..|Cook(s).scores|][..|s.scores|];
      r
  }

  /** `longer` begins with `shorter`. */
  predicate Extends(longer: seq<nat>, shorter: seq<nat>)
  {
    |shorter| <= |longer| && longer[..|shorter|] == shorter
  }

  /** Later scoreboards extend earlier ones: scores, once written, never change. */
  lemma {:induction false} IterateExtends(s: State, m: nat, n: nat)
    requires Good(s) && m <= n
    ensures Extends(Iterate(s, n).scores, Iterate(s, m).scores)
    decreases m
  {
    if m > 0 {
      IterateExtends(Cook(s), m - 1, n - 1);
      IterateExtendsStep(s, m, n);
    } else {
      IterateExtendsBase(s, n);
    }
  }

  lemma IterateExtendsBase(s: State, n: nat)
    requires Good(s)
    ensures Extends(Iterate(s, n).scores, Iterate(s, 0).scores)
  {
    assert Iterate(s, 0) == s;
  }

  /** Extension carries over from the board after one round to the board before it. */
  lemma IterateExtendsStep(s: State, m: nat, n: nat)
    requires Good(s) && 0 < m <= n
    requires Extends(Iterate(Cook(s), n - 1).scores, Iterate(Cook(s), m - 1).scores)
    ensures Extends(Iterate(s, n).scores, Iterate(s, m).scores)
  {
    assert Iterate(s, m) == Iterate(Cook(s), m - 1) && Iterate(s, n) == Iterate(Cook(s), n - 1);
  }

  /** `a`'s loop: rounds until the board holds at least `target` scores. */
  function Grow(s: State, target: nat): (r: State)
    requires Good(s)
    ensures Good(r) && |r.scores| >= target
    decreases target - |s.scores|
  {
    if |s.scores| >= target then s else Grow(Cook(s), target)
  }

  /** Growing is some number of rounds. */
  lemma {:induction false} GrowIterates(s: State, target: nat) returns (n: nat)
    requires Good(s)
    ensures Grow(s, target) == Iterate(s, n)
    decreases target - |s.scores|
  {
    if |s.scores| >= target {
      n := 0;
    } else {
      var m := GrowIterates(Cook(s), target);
      n := m + 1;
    }
  }

  /**
   * `a`'s ten scores are those of the endless scoreboard: any number of
   * rounds that writes past them shows the same ten.
   */
  lemma TenScoresStable(numRecipes: nat, rounds: nat)
    requires |Iterate(Initial(), rounds).scores| >= numRecipes + 10
    ensures Iterate(Initial(), rounds).scores[numRecipes..numRecipes + 10]
         == Grow(Initial(), numRecipes + 10).scores[numRecipes..numRecipes + 10]
  {
    var n := GrowIterates(Initial(), numRecipes + 10);
    var a, b := Iterate(Initial(), rounds).scores, Iterate(Initial(), n).scores;
    if n <= rounds {
      IterateExtends(Initial(), n, rounds);
      SameSlice(a, b, numRecipes, numRecipes + 10);
    } else {
      IterateExtends(Initial(), rounds, n);
      SameSlice(b, a, numRecipes, numRecipes + 10);
    }
  }

  /** A sequence agrees with each of its prefixes on the prefix's slices. */
  lemma SameSlice(a: seq<nat>, b: seq<nat>, lo: nat, hi: nat)
    requires |b| <= |a| && a[..|b|] == b && lo <= hi <= |b|
    ensures a[lo..hi] == b[lo..hi]
  {
    forall k | lo <= k < hi
      ensures a[k] == b[k]
    {
      assert a[..|b|][k] == a[k];
    }
  }

  // ---------------------------------------------------------------------
  // Finding a digit string
  // ---------------------------------------------------------------------

  /** `pat` occurs in `text` at position j. */
  predicate At<T(==)>(text: seq<T>, pat: seq<T>, j: nat)
  {
    j + |pat| <= |text| && text[j..j + |pat|] == pat
  }

  /** `str::find`: the first position where `pat` occurs. */
  function Find<T(==)>(text: seq<T>, pat: seq<T>, from: nat): (r: Option<nat>)
    ensures r.Some? ==> from <= r.value && At(text, pat, r.value) && forall j: nat :: from <= j < r.value ==> !At(text, pat, j)
    ensures r.None? ==> forall j: nat :: from <= j ==> !At(text, pat, j)
    decreases |text| - from
  {
    if from + |pat| > |text| then None
    else if text[from..from + |pat|] == pat then Some(from)
    else Find(text, pat, from + 1)
  }

  /** The text of a slice of digits is the slice of their text. */
  lemma TextSlice(ds: seq<nat>, lo: nat, hi: nat)
    requires IsDigits(ds) && lo <= hi <= |ds|
    ensures |SliceToString(ds)| == |ds|
    ensures SliceToString(ds)[lo..hi] == SliceToString(ds[lo..hi])
  {
    DigitText(ds);
    DigitText(ds[lo..hi]);
  }

  /** Searching the text of a digit window is searching the digits, shifted by the window's start. */
  lemma TextAt(ds: seq<nat>, pat: seq<nat>, start: nat, i: nat)
    requires IsDigits(ds) && IsDigits(pat) && start <= |ds|
    ensures At(SliceToString(ds[start..]), SliceToString(pat), i) <==> At(ds, pat, start + i)
  {
    var w := ds[start..];
    var t, p := SliceToString(w), SliceToString(pat);
    assert IsDigits(w);
    TextSlice(w, 0, 0);
    TextSlice(pat, 0, 0);
    if i + |pat| <= |w| {
      var piece := w[i..i + |pat|];
      assert IsDigits(piece);
      TextSlice(w, i, i + |pat|);
      TextInjective(piece, pat);
      assert t[i..i + |p|] == SliceToString(piece);
    }
    AtTransfer(t, p, w, pat, i);
    AtShift(ds, pat, start, i);
  }

  /** Two searches agree at a position where their texts and patterns have the same lengths and the windows match alike. */
  lemma AtTransfer<T, U>(t: seq<T>, p: seq<T>, w: seq<U>, q: seq<U>, i: nat)
    requires |t| == |w| && |p| == |q|
    requires i + |q| <= |w| ==> (t[i..i + |p|] == p <==> w[i..i + |q|] == q)
    ensures At(t, p, i) <==> At(w, q, i)
  {
  }

  /** Searching a suffix is searching the whole at positions shifted by the suffix's start. */
  lemma AtShift<T>(ds: seq<T>, pat: seq<T>, start: nat, i: nat)
    requires start <= |ds|
    ensures At(ds[start..], pat, i) <==> At(ds, pat, start + i)
  {
    if i + |pat| <= |ds| - start {
      assert ds[start..][i..i + |pat|] == ds[start + i..start + i + |pat|];
    }
  }

  /** The search of `b` as written: after each round, if the board is longer than the string, search its last |string| + 1 scores. */
  function SearchAsWritten(s: State, pat: seq<nat>, fuel: nat): (r: Option<nat>)
    requires Good(s)
    decreases fuel
  {
    if fuel == 0 then None
    else
      var s' := Cook(s);
      if |s'.scores| > |pat| then
        var start := |s'.scores| - |pat| - 1;
        match Find(SliceToString(s'.scores[start..]), SliceToString(pat), 0)
        case Some(i) => Some(start + i)
        case None => SearchAsWritten(s', pat, fuel - 1)
      else SearchAsWritten(s', pat, fuel - 1)
  }

  /** Every position `b` as written reports lies past the last |string| scores of the board it began with. */
  lemma {:induction false} SearchAsWrittenLate(s: State, pat: seq<nat>, fuel: nat)
    requires Good(s)
    ensures SearchAsWritten(s, pat, fuel).Some? ==> SearchAsWritten(s, pat, fuel).value + |pat| >= |s.scores|
    decreases fuel
  {
    if fuel > 0 {
      SearchAsWrittenLate(Cook(s), pat, fuel - 1);
    }
  }

  /**
   * `b(3)` as written never answers 0, though the scoreboard starts with
   * a 3: the first round appends two scores and the first window already
   * starts at position 2.
   */
  lemma MissesFirstScore(fuel: nat)
    ensures At(Initial().scores, Digits(3), 0)
    ensures SearchAsWritten(Initial(), Digits(3), fuel) != Some(0)
  {
    SearchAsWrittenLate(Initial(), Digits(3), fuel);
  }

  /** `pat` occurs at no position before `upto`. */
  ghost predicate Clear(scores: seq<nat>, pat: seq<nat>, upto: nat)
  {
    forall j: nat :: j < upto ==> !At(scores, pat, j)
  }

  /** Where the corrected search window starts: |string| + 1 from the end, never before 0. */
  function WindowStart(len: nat, patLen: nat): nat
  {
    if len > patLen then len - patLen - 1 else 0
  }

  /** One search of the corrected `b`: the first occurrence inside the window, once the board is as long as the string. */
  function Window(s: State, pat: seq<nat>): Option<nat>
  {
    if |s.scores| >= |pat| then
      var start := WindowStart(|s.scores|, |pat|);
      match Find(SliceToString(s.scores[start..]), SliceToString(pat), 0)
      case Some(i) => Some(start + i)
      case None => None
    else None
  }

  /**
   * When nothing before the window matched, the search gives the first
   * occurrence on the board, or None when the string is nowhere on it.
   */
  lemma WindowFirst(s: State, pat: seq<nat>)
    requires Good(s) && IsDigits(pat)
    requires Clear(s.scores, pat, WindowStart(|s.scores|, |pat|))
    ensures Window(s, pat).Some? ==> At(s.scores, pat, Window(s, pat).value) && Clear(s.scores, pat, Window(s, pat).value)
    ensures Window(s, pat).None? ==> Clear(s.scores, pat, |s.scores|)
  {
    var len := |s.scores|;
    var start := WindowStart(len, |pat|);
    if len >= |pat| {
      var f := Find(SliceToString(s.scores[start..]), SliceToString(pat), 0);
      var upto := if f.Some? then start + f.value else len;
      if f.Some? {
        TextAt(s.scores, pat, start, f.value);
      }
      forall j: nat | start <= j < upto
        ensures !At(s.scores, pat, j)
      {
        TextAt(s.scores, pat, start, j - start);
      }
    }
  }

  /**
   * After a round of two elves, only positions whose string would end in
   * the one or two new scores can newly match, and they lie in the next
   * window.
   */
  lemma CookKeepsClear(s: State, pat: seq<nat>)
    requires Good(s) && |s.elves| == 2 && |pat| >= 1
    requires Clear(s.scores, pat, |s.scores|)
    ensures Clear(Cook(s).scores, pat, WindowStart(|Cook(s).scores|, |pat|))
  {
    TwoElvesCook(s);
    var c := Cook(s).scores;
    forall j: nat | j < WindowStart(|c|, |pat|)
      ensures !At(c, pat, j)
    {
      assert j + |pat| <= |s.scores| && j < |s.scores|;
      assert !At(s.scores, pat, j);
      SameSlice(c, s.scores, j, j + |pat|);
    }
  }

  /**
   * `b` with the evident intent: the window is searched once the board is
   * as long as the string, starting at 0 while it is short, and the
   * initial board is searched before the first round.
   */
  function SearchFixed(s: State, pat: seq<nat>, fuel: nat): (r: Option<nat>)
    requires Good(s)
    decreases fuel
  {
    var found := Window(s, pat);
    if found.Some? then found
    else if fuel == 0 then None
    else SearchFixed(Cook(s), pat, fuel - 1)
  }

  /** A reported position holds the string, and no earlier position does. */
  ghost predicate FoundFirst(r: Option<nat>, scores: seq<nat>, pat: seq<nat>)
  {
    r.Some? ==> At(scores, pat, r.value) && Clear(scores, pat, r.value)
  }

  /**
   * The corrected `b` reports the first position of the string on the
   * endless scoreboard: after some number of rounds the string is there,
   * and nowhere earlier.
   */
  lemma {:induction false} SearchFixedFirst(s: State, pat: seq<nat>, fuel: nat) returns (n: nat)
    requires Good(s) && |s.elves| == 2 && IsDigits(pat) && |pat| >= 1
    requires Clear(s.scores, pat, WindowStart(|s.scores|, |pat|))
    ensures FoundFirst(SearchFixed(s, pat, fuel), Iterate(s, n).scores, pat)
    decreases fuel
  {
    n := 0;
    WindowFirst(s, pat);
    var w := Window(s, pat);
    if w.Some? {
      FoundHere(s, pat, fuel);
    } else if fuel > 0 {
      var c := Cook(s);
      CookKeepsClear(s, pat);
      var m := SearchFixedFirst(c, pat, fuel - 1);
      FoundLater(s, pat, fuel, m);
      n := m + 1;
    } else {
      SearchFixedStep(s, pat, fuel);
    }
  }

  lemma FoundHere(s: State, pat: seq<nat>, fuel: nat)
    requires Good(s) && FoundFirst(Window(s, pat), s.scores, pat) && Window(s, pat).Some?
    ensures FoundFirst(SearchFixed(s, pat, fuel), Iterate(s, 0).scores, pat)
  {
    SearchFixedStep(s, pat, fuel);
    assert Iterate(s, 0) == s;
  }

  lemma FoundLater(s: State, pat: seq<nat>, fuel: nat, m: nat)
    requires Good(s) && Window(s, pat).None? && fuel > 0
    requires FoundFirst(SearchFixed(Cook(s), pat, fuel - 1), Iterate(Cook(s), m).scores, pat)
    ensures FoundFirst(SearchFixed(s, pat, fuel), Iterate(s, m + 1).scores, pat)
  {
    SearchFixedStep(s, pat, fuel);
    assert Iterate(s, m + 1) == Iterate(Cook(s), m);
  }

  /** From the initial board, the corrected `b(raw)` answers the first position of the digits of raw. */
  lemma BFindsFirst(raw: nat, fuel: nat) returns (n: nat)
    ensures SearchFixed(Initial(), Digits(raw), fuel).Some? ==>
      var j := SearchFixed(Initial(), Digits(raw), fuel).value;
      At(Iterate(Initial(), n).scores, Digits(raw), j) && Clear(Iterate(Initial(), n).scores, Digits(raw), j)
  {
    n := SearchFixedFirst(Initial(), Digits(raw), fuel);
  }

  // ---------------------------------------------------------------------
  // The scoreboard as the solvers update it
  // ---------------------------------------------------------------------

  class Scoreboard {
    var elves: seq<nat>
    var scores: seq<nat>

    function View(): State
      reads this
    {
      State(elves, scores)
    }

    /** `elfs` and `score_board` as `a` and `b` set them up. */
    constructor ()
      ensures View() == Initial()
    {
      elves := [0, 1];
      scores := [3, 7];
    }

    /** `cook_recipes`, updating both vectors in place. */
    method CookRecipes()
      modifies this
      requires Good(View())
      ensures View() == Cook(old(View()))
    {
      var recipes := Current(View());
      var split := SplitNum(Sum(recipes));
      scores := scores + split;
      var i := 0;
      while i < |elves|
        invariant i <= |elves| == |recipes| && scores == old(scores) + split
        invariant forall j :: 0 <= j < i ==> elves[j] == (old(elves)[j] + recipes[j] + 1) % |scores|
        invariant forall j :: i <= j < |elves| ==> elves[j] == old(elves)[j]
      {
        elves := elves[i := (elves[i] + recipes[i] + 1) % |scores|];
        i := i + 1;
      }
    }
  }

  /** The window search of `b`: the last |string| + 1 scores, or all of them while the board is short. */
  method SearchWindow(board: Scoreboard, pat: seq<nat>, text: string) returns (found: Option<nat>)
    requires text == SliceToString(pat)
    ensures found == Window(board.View(), pat)
  {
    found := None;
    if |board.scores| >= |pat| {
      var start := WindowStart(|board.scores|, |pat|);
      match Find(SliceToString(board.scores[start..]), text, 0)
      case Some(i) => found := Some(start + i);
      case None =>
    }
  }

  /** `a`: rounds until `num_recipes + 10` scores exist, then the text of the ten after the first `num_recipes`. */
  method A(numRecipes: nat) returns (r: string)
    ensures r == SliceToString(Grow(Initial(), numRecipes + 10).scores[numRecipes..numRecipes + 10])
  {
    var board := new Scoreboard();
    while |board.scores| < numRecipes + 10
      invariant Good(board.View())
      invariant Grow(board.View(), numRecipes + 10) == Grow(Initial(), numRecipes + 10)
      decreases numRecipes + 10 - |board.scores|
    {
      board.CookRecipes();
    }
    r := SliceToString(board.scores[numRecipes..numRecipes + 10]);
  }

  /**
   * `b` with the evident intent, at most `fuel` rounds: the position of
   * the first occurrence of the digits of `rawSearchNum`, found as
   * `SearchFixed` says.
   */
  method B(rawSearchNum: nat, fuel: nat) returns (r: Option<nat>)
    ensures r == SearchFixed(Initial(), Digits(rawSearchNum), fuel)
  {
    var pat := SplitNum(rawSearchNum);
    var board := new Scoreboard();
    r := Hunt(board, pat, fuel);
  }

  /** How `SearchFixed` unfolds, one round at a time. */
  lemma SearchFixedStep(s: State, pat: seq<nat>, fuel: nat)
    requires Good(s)
    ensures Window(s, pat).Some? ==> SearchFixed(s, pat, fuel) == Window(s, pat)
    ensures Window(s, pat).None? && fuel == 0 ==> SearchFixed(s, pat, fuel) == None
    ensures Window(s, pat).None? && fuel > 0 ==> SearchFixed(s, pat, fuel) == SearchFixed(Cook(s), pat, fuel - 1)
  {
  }

  /** `b`'s loop: search, and cook another round while nothing is found. */
  method Hunt(board: Scoreboard, pat: seq<nat>, fuel: nat) returns (r: Option<nat>)
    modifies board
    requires Good(board.View())
    ensures r == SearchFixed(old(board.View()), pat, fuel)
  {
    var text := SliceToString(pat);
    var steps := fuel;
    while true
      invariant Good(board.View())
      invariant SearchFixed(board.View(), pat, steps) == SearchFixed(old(board.View()), pat, fuel)
      decreases steps
    {
      ghost var v := board.View();
      var found := SearchWindow(board, pat, text);
      SearchFixedStep(v, pat, steps);
      if found.Some? {
        return found;
      }
      if steps == 0 {
        return None;
      }
      board.CookRecipes();
      steps := steps - 1;
    }
  }
}
