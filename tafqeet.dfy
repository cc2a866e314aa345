/**
 * numberToArabicText and convertGroup (src/utils.ts): an amount is read out
 * in Arabic words ("tafqeet") by splitting it into trillions, billions,
 * millions, thousands and units, spelling each count below 1000 from four
 * word tables, choosing the singular, dual or plural scale word by the count,
 * and joining the groups with the conjunction " و".
 */
module Tafqeet {
  import Arith

  /** The largest amount plus one: from here on the trillion count has four digits. */
  const Limit: nat := 1000000000000000

  const Zero: string := "صفر"

  /** The conjunction placed between two parts. */
  const And: string := " و"

  const Ones: seq<string> := ["", "واحد", "اثنان", "ثلاثة", "أربعة", "خمسة", "ستة", "سبعة", "ثمانية", "تسعة"]
  const Tens: seq<string> := ["", "عشرة", "عشرون", "ثلاثون", "أربعون", "خمسون", "ستون", "سبعون", "ثمانون", "تسعون"]
  const Teens: seq<string> := ["عشر", "أحد عشر", "اثنا عشر", "ثلاثة عشر", "أربعة عشر", "خمسة عشر", "ستة عشر", "سبعة عشر", "ثمانية عشر", "تسعة عشر"]
  const Hundreds: seq<string> := ["", "مئة", "مئتان", "ثلاثمئة", "أربعمئة", "خمسمئة", "ستمئة", "سبعمئة", "ثمانمئة", "تسعمئة"]

  /** A word or phrase: non-empty, neither starting nor ending with a space. */
  predicate Word(s: string) {
    |s| > 0 && s[0] != ' ' && s[|s| - 1] != ' '
  }

  lemma WordJoin(a: string, sep: string, b: string)
    requires Word(a) && Word(b)
    ensures Word(a + sep + b) && Word(a + (sep + b))
  {
    assert a + sep + b == a + (sep + b);
    assert (a + sep + b)[0] == a[0];
    assert (a + sep + b)[|a + sep + b| - 1] == b[|b| - 1];
  }

  /** Every non-empty entry of the four tables is a word. */
  lemma {:induction false} TablesAreWords()
    ensures |Ones| == |Tens| == |Teens| == |Hundreds| == 10
    ensures Ones[0] == Tens[0] == Hundreds[0] == ""
    ensures forall i :: 1 <= i < 10 ==> Word(Ones[i]) && Word(Tens[i]) && Word(Hundreds[i])
    ensures forall i :: 0 <= i < 10 ==> Word(Teens[i])
  {
    assert Word(Teens[0]);
    forall i | 1 <= i < 10 ensures Word(Ones[i]) && Word(Tens[i]) && Word(Hundreds[i]) && Word(Teens[i]) {
      if i == 1 {} else if i == 2 {} else if i == 3 {} else if i == 4 {} else if i == 5 {}
      else if i == 6 {} else if i == 7 {} else if i == 8 {} else {}
    }
  }

  /**
   * convertGroup: the words for a count 0 .. 999. Zero, and only zero, has
   * no words.
   */
  function ConvertGroup(n: nat): (r: string)
    requires n < 1000
    ensures n == 0 <==> r == ""
  {
    TablesAreWords();
    if n == 0 then ""
    else if n < 10 then Ones[n]
    else if n < 20 then Teens[n - 10]
    else if n < 100 then
      var rem := n % 10;
      (if rem > 0 then Ones[rem] + And else "") + Tens[n / 10]
    else
      var hund := n / 100;
      var rem := n % 100;
      Hundreds[hund] + (if rem > 0 then And + ConvertGroup(rem) else "")
  }

  /** The words for 20 .. 99 form a phrase. */
  lemma TensPhraseIsWord(n: nat)
    requires 20 <= n < 100
    ensures Word(ConvertGroup(n))
  {
    TablesAreWords();
    var rem := n % 10;
    if rem > 0 {
      WordJoin(Ones[rem], And, Tens[n / 10]);
    }
  }

  /** The words for 100 .. 999 form a phrase when the words for the remainder below 100 do. */
  lemma HundredsPhraseIsWord(n: nat)
    requires 100 <= n < 1000
    requires n % 100 > 0 ==> Word(ConvertGroup(n % 100))
    ensures Word(ConvertGroup(n))
  {
    TablesAreWords();
    var hund, rem := n / 100, n % 100;
    if rem > 0 {
      WordJoin(Hundreds[hund], And, ConvertGroup(rem));
      assert ConvertGroup(n) == Hundreds[hund] + (And + ConvertGroup(rem));
    }
  }

  /** Every non-zero count reads as a phrase with no space at either end. */
  lemma {:induction false} ConvertGroupIsWord(n: nat)
    requires 0 < n < 1000
    ensures Word(ConvertGroup(n))
  {
    if n < 20 {
      TablesAreWords();
    } else if n < 100 {
      TensPhraseIsWord(n);
    } else {
      if n % 100 > 0 {
        ConvertGroupIsWord(n % 100);
      }
      HundredsPhraseIsWord(n);
    }
  }

  /** Reference reading of a two-digit count from its tens digit t and units digit u. */
  function TwoDigitWords(t: nat, u: nat): string
    requires t < 10 && u < 10
  {
    if t == 0 then Ones[u]
    else if t == 1 then Teens[u]
    else if u == 0 then Tens[t]
    else Ones[u] + And + Tens[t]
  }

  /** Reference reading of a three-digit count from its digits h, t, u. */
  function GroupWords(h: nat, t: nat, u: nat): string
    requires h < 10 && t < 10 && u < 10
  {
    if h == 0 then TwoDigitWords(t, u)
    else if t == 0 && u == 0 then Hundreds[h]
    else Hundreds[h] + And + TwoDigitWords(t, u)
  }

  /** convertGroup agrees with the digit-by-digit reading for every count below 1000. */
  lemma TwoDigitsByDigits(n: nat)
    requires n < 100
    ensures ConvertGroup(n) == TwoDigitWords(n / 10, n % 10)
  {
    var t, u := n / 10, n % 10;
    assert n == t * 10 + u;
    if n >= 20 && u > 0 {
      assert ConvertGroup(n) == Ones[u] + And + Tens[t];
    }
  }

  lemma ConvertGroupByDigits(n: nat)
    requires n < 1000
    ensures ConvertGroup(n) == GroupWords(n / 100, n / 10 % 10, n % 10)
  {
    var h, rem := n / 100, n % 100;
    var t, u := rem / 10, rem % 10;
    assert n == (10 * h + t) * 10 + u;
    Arith.DivModUnique(n, 10, 10 * h + t, u);
    Arith.DivModUnique(n / 10, 10, h, t);
    TwoDigitsByDigits(rem);
    if n < 100 {
      Arith.DivModUnique(n, 100, 0, n);
    } else if rem > 0 {
      assert ConvertGroup(n) == Hundreds[h] + And + ConvertGroup(rem);
    }
  }

  /** A count with hundreds, tens and units: 234 reads "two hundred and four and thirty". */
  lemma ConvertGroupExample()
    ensures ConvertGroup(234) == "مئتان" + And + ("أربعة" + And + "ثلاثون")
  {
    assert ConvertGroup(34) == "أربعة" + And + "ثلاثون";
  }

  type Pos = n: nat | 0 < n witness 1

  /** One row of the scale table: its value and its singular, dual and plural words. */
  datatype Magnitude = Magnitude(value: Pos, labelSingular: string, labelDual: string, labelPlural: string)

  /** The scale table, largest first; the last row is the unit group with no words. */
  const Parts: seq<Magnitude> := [
    Magnitude(1000000000000, "تريليون", "تريليونان", "تريليونات"),
    Magnitude(1000000000, "مليار", "ملياران", "مليارات"),
    Magnitude(1000000, "مليون", "مليونان", "ملايين"),
    Magnitude(1000, "ألف", "ألفان", "آلاف"),
    Magnitude(1, "", "", "")
  ]

  /** Values are successive powers of 1000 ending at 1. */
  ghost predicate Chained(ps: seq<Magnitude>) {
    |ps| > 0 && ps[|ps| - 1].value == 1 &&
    forall i :: 0 <= i < |ps| - 1 ==> ps[i].value == 1000 * ps[i + 1].value
  }

  /** The unit row needs no words; every other row has three words. */
  predicate ValidMagnitude(m: Magnitude) {
    m.value == 1 || (Word(m.labelSingular) && Word(m.labelDual) && Word(m.labelPlural))
  }

  lemma {:induction false} PartsWellFormed()
    ensures |Parts| == 5
    ensures Chained(Parts)
    ensures forall m :: m in Parts ==> ValidMagnitude(m)
  {
    assert ValidMagnitude(Parts[0]) && ValidMagnitude(Parts[1]) && ValidMagnitude(Parts[2]);
    assert ValidMagnitude(Parts[3]) && ValidMagnitude(Parts[4]);
  }

  /** One emitted group: the scale row and how many of it the amount holds. */
  datatype Group = Group(part: Magnitude, count: nat)

  predicate ValidGroup(g: Group) {
    1 <= g.count < 1000 && ValidMagnitude(g.part)
  }

  /** The words for one group, with the scale word chosen by the count. */
  function GroupText(g: Group): (r: string)
    requires ValidGroup(g)
    ensures Word(r)
  {
    var m, c := g.part, g.count;
    ConvertGroupIsWord(c);
    if m.value == 1 then ConvertGroup(c)
    else if c == 1 then m.labelSingular
    else if c == 2 then m.labelDual
    else if 3 <= c <= 10 then
      WordJoin(ConvertGroup(c), " ", m.labelPlural);
      ConvertGroup(c) + " " + m.labelPlural
    else
      WordJoin(ConvertGroup(c), " ", m.labelSingular);
      ConvertGroup(c) + " " + m.labelSingular
  }

  /**
   * The groups the amount `remaining` yields against the rows `ps`, largest
   * first: each row takes remaining / value and leaves remaining % value;
   * a row whose count is 0 yields no group.
   */
  function Decompose(ps: seq<Magnitude>, remaining: nat): (gs: seq<Group>)
    ensures |gs| <= |ps|
  {
    if ps == [] then []
    else
      var count := remaining / ps[0].value;
      var rest := Decompose(ps[1..], remaining % ps[0].value);
      if count > 0 then [Group(ps[0], count)] + rest else rest
  }

  /** Every group is drawn from one of the rows and has a positive count. */
  lemma {:induction false} DecomposeMembers(ps: seq<Magnitude>, remaining: nat)
    ensures forall g :: g in Decompose(ps, remaining) ==> g.part in ps && g.count > 0
  {
    if ps != [] {
      DecomposeMembers(ps[1..], remaining % ps[0].value);
    }
  }

  /** The sum of count * value over the groups. */
  function Total(gs: seq<Group>): nat {
    if gs == [] then 0 else gs[0].count * gs[0].part.value + Total(gs[1..])
  }

  /** The first row contributes count * value to the total of the groups. */
  lemma TotalHead(ps: seq<Magnitude>, remaining: nat)
    requires |ps| > 0
    ensures Total(Decompose(ps, remaining)) ==
      (remaining / ps[0].value) * ps[0].value + Total(Decompose(ps[1..], remaining % ps[0].value))
  {
    var v := ps[0].value;
    var count := remaining / v;
    var gs, rest := Decompose(ps, remaining), Decompose(ps[1..], remaining % v);
    if count > 0 {
      assert gs == [Group(ps[0], count)] + rest;
      assert gs[1..] == rest;
    } else {
      assert count * v == 0;
    }
  }

  /** The emitted groups add back up to the amount. */
  lemma {:induction false} DecomposeTotal(ps: seq<Magnitude>, remaining: nat)
    requires |ps| > 0 && ps[|ps| - 1].value == 1
    ensures Total(Decompose(ps, remaining)) == remaining
  {
    var v := ps[0].value;
    if |ps| == 1 {
      assert Decompose(ps[1..], remaining % v) == [];
      assert v == 1;
      Arith.DivModUnique(remaining, 1, remaining, 0);
    } else {
      DecomposeTotal(ps[1..], remaining % v);
    }
    TotalHead(ps, remaining);
    Arith.DivMod(remaining, v);
  }

  lemma {:induction false} ChainedTail(ps: seq<Magnitude>)
    requires Chained(ps) && |ps| > 1
    ensures Chained(ps[1..])
  {
    forall i | 0 <= i < |ps| - 2 ensures ps[1..][i].value == 1000 * ps[1..][i + 1].value {
      assert ps[1..][i] == ps[i + 1] && ps[1..][i + 1] == ps[i + 2];
    }
  }

  /** An earlier row is at least 1000 times a later one; more precisely a multiple of it. */
  lemma {:induction false} ChainedMultiple(ps: seq<Magnitude>, k: nat)
    requires Chained(ps) && 0 < k < |ps|
    ensures ps[0].value % (1000 * ps[k].value) == 0
    ensures ps[0].value >= 1000 * ps[k].value
  {
    if k == 1 {
      assert ps[0].value == 1000 * ps[1].value * 1;
      Arith.DivModUnique(ps[0].value, 1000 * ps[1].value, 1, 0);
    } else {
      ChainedTail(ps);
      ChainedMultiple(ps[1..], k - 1);
      var q := ps[1].value / (1000 * ps[k].value);
      assert ps[1].value == q * (1000 * ps[k].value);
      assert ps[0].value == (1000 * q) * (1000 * ps[k].value);
      Arith.DivModUnique(ps[0].value, 1000 * ps[k].value, 1000 * q, 0);
    }
  }

  /** While the amount stays below 1000 of the largest row, every count lies in 1 .. 999. */
  lemma {:induction false} DecomposeCounts(ps: seq<Magnitude>, remaining: nat)
    requires Chained(ps) && remaining < 1000 * ps[0].value
    ensures forall g :: g in Decompose(ps, remaining) ==> 1 <= g.count < 1000
  {
    var v := ps[0].value;
    var count := remaining / v;
    assert count < 1000 by { Arith.DivModUnique(remaining, v, count, remaining % v); }
    if |ps| > 1 {
      ChainedTail(ps);
      DecomposeCounts(ps[1..], remaining % v);
    } else {
      assert Decompose(ps[1..], remaining % v) == [];
    }
  }

  /** Every group drawn from the rows after the first has a smaller value than the first row. */
  lemma RestBelowFirst(ps: seq<Magnitude>, remaining: nat)
    requires Chained(ps) && |ps| > 1
    ensures forall g :: g in Decompose(ps[1..], remaining) ==> g.part.value < ps[0].value
  {
    DecomposeMembers(ps[1..], remaining);
    forall g | g in Decompose(ps[1..], remaining) ensures g.part.value < ps[0].value {
      var k :| 0 <= k < |ps[1..]| && ps[1..][k] == g.part;
      ChainedMultiple(ps, k + 1);
    }
  }

  predicate Descending(gs: seq<Group>) {
    forall i, j :: 0 <= i < j < |gs| ==> gs[i].part.value > gs[j].part.value
  }

  lemma DescendingCons(g: Group, rest: seq<Group>)
    requires Descending(rest)
    requires forall h :: h in rest ==> h.part.value < g.part.value
    ensures Descending([g] + rest)
  {
    var gs := [g] + rest;
    forall i, j | 0 <= i < j < |gs| ensures gs[i].part.value > gs[j].part.value {
      assert gs[j] == rest[j - 1] && gs[j] in rest;
      if i > 0 {
        assert gs[i] == rest[i - 1];
      }
    }
  }

  /** Groups come out in strictly descending magnitude. */
  lemma {:induction false} DecomposeDescending(ps: seq<Magnitude>, remaining: nat)
    requires Chained(ps)
    ensures Descending(Decompose(ps, remaining))
  {
    var v := ps[0].value;
    var gs, rest := Decompose(ps, remaining), Decompose(ps[1..], remaining % v);
    if |ps| == 1 {
      assert rest == [];
      return;
    }
    ChainedTail(ps);
    DecomposeDescending(ps[1..], remaining % v);
    if remaining / v > 0 {
      RestBelowFirst(ps, remaining % v);
      DescendingCons(Group(ps[0], remaining / v), rest);
    }
  }

  /** A base-1000 digit below the first row reads the same once that row is peeled off. */
  lemma DigitBelowFirstRow(ps: seq<Magnitude>, remaining: nat, k: nat)
    requires Chained(ps) && 0 < k < |ps|
    ensures ((remaining % ps[0].value) / ps[k].value) % 1000 == (remaining / ps[k].value) % 1000
  {
    var v: int, p: int := ps[0].value, ps[k].value;
    ChainedMultiple(ps, k);
    var q := v / (1000 * p);
    assert v == 1000 * p * q by {
      assert v == q * (1000 * p) + v % (1000 * p);
    }
    Arith.DigitAfterMod(remaining, p, q);
  }

  /** Below 1000 of the first row, the first row's count is its own base-1000 digit. */
  lemma FirstCountIsDigit(ps: seq<Magnitude>, remaining: nat)
    requires |ps| > 0 && remaining < 1000 * ps[0].value
    ensures remaining / ps[0].value < 1000
    ensures (remaining / ps[0].value) % 1000 == remaining / ps[0].value
  {
    var v := ps[0].value;
    Arith.DivModUnique(remaining, v, remaining / v, remaining % v);
    Arith.DivModUnique(remaining / v, 1000, 0, remaining / v);
  }

  /** Every group's count is the base-1000 digit of the amount at the group's row. */
  lemma {:induction false} DecomposeCountsAreDigits(ps: seq<Magnitude>, remaining: nat)
    requires Chained(ps) && remaining < 1000 * ps[0].value
    ensures forall g :: g in Decompose(ps, remaining) ==> g.count == (remaining / g.part.value) % 1000
  {
    var v := ps[0].value;
    var r' := remaining % v;
    var gs, rest := Decompose(ps, remaining), Decompose(ps[1..], r');
    FirstCountIsDigit(ps, remaining);
    if |ps| == 1 {
      assert rest == [];
      return;
    }
    ChainedTail(ps);
    DecomposeCountsAreDigits(ps[1..], r');
    DecomposeMembers(ps[1..], r');
    forall g | g in gs ensures g.count == (remaining / g.part.value) % 1000 {
      if g !in rest {
        assert g == Group(ps[0], remaining / v);
      } else {
        var k :| 0 <= k < |ps[1..]| && ps[1..][k] == g.part;
        DigitBelowFirstRow(ps, remaining, k + 1);
      }
    }
  }

  /** Every row at which the amount has a non-zero base-1000 digit yields a group. */
  lemma {:induction false} DecomposeCoversDigits(ps: seq<Magnitude>, remaining: nat, k: nat)
    requires Chained(ps) && remaining < 1000 * ps[0].value
    requires k < |ps| && (remaining / ps[k].value) % 1000 > 0
    ensures Group(ps[k], (remaining / ps[k].value) % 1000) in Decompose(ps, remaining)
  {
    var v := ps[0].value;
    var r' := remaining % v;
    var gs, rest := Decompose(ps, remaining), Decompose(ps[1..], r');
    FirstCountIsDigit(ps, remaining);
    if k == 0 {
      assert gs == [Group(ps[0], remaining / v)] + rest;
    } else {
      ChainedTail(ps);
      DigitBelowFirstRow(ps, remaining, k);
      assert ps[1..][k - 1] == ps[k];
      DecomposeCoversDigits(ps[1..], r', k - 1);
      assert rest <= gs || gs == [Group(ps[0], remaining / v)] + rest;
    }
  }

  /** A row worth more than the amount is skipped and leaves the amount as it was. */
  lemma DecomposeSkip(ps: seq<Magnitude>, remaining: nat)
    requires |ps| > 0 && remaining < ps[0].value
    ensures Decompose(ps, remaining) == Decompose(ps[1..], remaining)
  {
    Arith.DivModUnique(remaining, ps[0].value, 0, remaining);
  }

  /** A row worth at most the amount yields its group first. */
  lemma DecomposeTake(ps: seq<Magnitude>, remaining: nat)
    requires |ps| > 0 && ps[0].value <= remaining
    ensures Decompose(ps, remaining) ==
      [Group(ps[0], remaining / ps[0].value)] + Decompose(ps[1..], remaining % ps[0].value)
  {
    Arith.DivMod(remaining, ps[0].value);
    assert remaining / ps[0].value > 0;
  }

  /** Nothing is emitted for a zero amount. */
  lemma {:induction false} DecomposeZero(ps: seq<Magnitude>)
    ensures Decompose(ps, 0) == []
  {
    if ps != [] {
      DecomposeZero(ps[1..]);
    }
  }

  /** A count c below 1000 of a single row decomposes into exactly that one group. */
  lemma {:induction false} DecomposeSingle(ps: seq<Magnitude>, k: nat, c: nat)
    requires Chained(ps) && k < |ps| && 1 <= c < 1000
    ensures Decompose(ps, c * ps[k].value) == [Group(ps[k], c)]
  {
    var v, p := ps[0].value, ps[k].value;
    var r := c * p;
    if k == 0 {
      Arith.DivModUnique(r, v, c, 0);
      DecomposeTake(ps, r);
      DecomposeZero(ps[1..]);
    } else {
      ChainedMultiple(ps, k);
      Arith.MulBelow(c, 1000, p);
      DecomposeSkip(ps, r);
      ChainedTail(ps);
      assert ps[1..][k - 1] == ps[k];
      DecomposeSingle(ps[1..], k - 1, c);
    }
  }

  /** Splitting the amount as c * value + s with s below value: the first row yields c, if any, and leaves s. */
  lemma DecomposeSplit(ps: seq<Magnitude>, remaining: nat, c: nat, s: nat)
    requires |ps| > 0 && remaining == c * ps[0].value + s && s < ps[0].value
    ensures Decompose(ps, remaining) == (if c > 0 then [Group(ps[0], c)] else []) + Decompose(ps[1..], s)
  {
    Arith.DivModUnique(remaining, ps[0].value, c, s);
  }

  /** The unit row alone reads a positive amount as one group. */
  lemma DecomposeUnitRow(ps: seq<Magnitude>, u: nat)
    requires |ps| == 1 && ps[0].value == 1 && u > 0
    ensures Decompose(ps, u) == [Group(ps[0], u)]
  {
    Arith.DivModUnique(u, 1, u, 0);
    assert ps[1..] == [];
  }

  /**
   * A multiple of 1000 splits at the first row into a count and a rest that
   * is again a multiple of 1000 and leaves room for 1 .. 999 units.
   */
  lemma FirstRowCount(ps: seq<Magnitude>, x: nat) returns (q: nat, s: nat)
    requires Chained(ps) && |ps| >= 2 && x % 1000 == 0
    ensures x == q * ps[0].value + s && s + 1000 <= ps[0].value
    ensures s % 1000 == 0
    ensures |ps| == 2 ==> s == 0
  {
    ChainedMultiple(ps, 1);
    q, s := Arith.SplitMultiple(x, ps[0].value);
  }

  /** The first row takes the same count from x and from x + u. */
  lemma SplitFirstRow(ps: seq<Magnitude>, x: nat, u: nat) returns (head: seq<Group>, s: nat)
    requires Chained(ps) && |ps| >= 2
    requires x % 1000 == 0 && 1 <= u < 1000
    ensures Decompose(ps, x) == head + Decompose(ps[1..], s)
    ensures Decompose(ps, x + u) == head + Decompose(ps[1..], s + u)
    ensures s % 1000 == 0
    ensures |ps| == 2 ==> s == 0
  {
    var q;
    q, s := FirstRowCount(ps, x);
    head := if q > 0 then [Group(ps[0], q)] else [];
    SplitShifted(ps, x, 0, q, s);
    SplitShifted(ps, x, u, q, s);
  }

  /** The first row's count of x + u, for u below the room the rest leaves. */
  lemma SplitShifted(ps: seq<Magnitude>, x: nat, u: nat, q: nat, s: nat)
    requires |ps| > 0 && x == q * ps[0].value + s && s + u < ps[0].value
    ensures Decompose(ps, x + u) == (if q > 0 then [Group(ps[0], q)] else []) + Decompose(ps[1..], s + u)
  {
    DecomposeSplit(ps, x + u, q, s + u);
  }

  /**
   * Adding units u (1 .. 999) to an amount x that is a multiple of 1000
   * appends exactly one group, the unit row's, after the groups of x.
   */
  lemma {:induction false} DecomposeAppendUnits(ps: seq<Magnitude>, x: nat, u: nat)
    requires Chained(ps) && |ps| >= 2
    requires x % 1000 == 0 && 1 <= u < 1000
    ensures Decompose(ps, x + u) == Decompose(ps, x) + [Group(ps[|ps| - 1], u)]
  {
    var tail := ps[1..];
    var head, s := SplitFirstRow(ps, x, u);
    ChainedTail(ps);
    var unit := Group(ps[|ps| - 1], u);
    assert tail[|tail| - 1] == ps[|ps| - 1];
    if |ps| == 2 {
      DecomposeUnitRow(tail, u);
      DecomposeZero(tail);
    } else {
      DecomposeAppendUnits(tail, s, u);
    }
    AppendAssoc(head, Decompose(tail, s), [unit]);
  }

  /**
   * The parts joined in order with the conjunction between successive ones;
   * there is none before the first part.
   */
  function Render(gs: seq<Group>): (r: string)
    requires forall g :: g in gs ==> ValidGroup(g)
    ensures gs == [] <==> r == ""
    ensures gs != [] ==> Word(r)
  {
    if gs == [] then ""
    else if |gs| == 1 then GroupText(gs[0])
    else
      var init := Render(gs[..|gs| - 1]);
      WordJoin(init, And, GroupText(gs[|gs| - 1]));
      init + And + GroupText(gs[|gs| - 1])
  }

  /** What numberToArabicText returns for num, stated without the loop. */
  function ArabicText(num: nat): (r: string)
    requires num < Limit
    ensures Word(r)
  {
    if num == 0 then Zero
    else
      PartsWellFormed();
      DecomposeCounts(Parts, num);
      DecomposeMembers(Parts, num);
      DecomposeTotal(Parts, num);
      Render(Decompose(Parts, num))
  }

  /** One turn of the loop: the row at i either yields its group or is skipped. */
  lemma DecomposeStep(i: nat, remaining: nat)
    requires i < |Parts|
    ensures remaining < Parts[i].value ==>
      Decompose(Parts[i..], remaining) == Decompose(Parts[i + 1..], remaining)
    ensures remaining >= Parts[i].value ==>
      Decompose(Parts[i..], remaining) ==
        [Group(Parts[i], remaining / Parts[i].value)] + Decompose(Parts[i + 1..], remaining % Parts[i].value)
  {
    assert Parts[i..][0] == Parts[i] && Parts[i..][1..] == Parts[i + 1..];
    if remaining < Parts[i].value {
      DecomposeSkip(Parts[i..], remaining);
    } else {
      DecomposeTake(Parts[i..], remaining);
    }
  }

  /** Appending a group to the rendered text puts the conjunction before it unless it is the first. */
  lemma RenderAppend(gs: seq<Group>, g: Group)
    requires forall h :: h in gs ==> ValidGroup(h)
    requires ValidGroup(g)
    ensures Render(gs + [g]) == if gs == [] then GroupText(g) else Render(gs) + And + GroupText(g)
  {
    assert (gs + [g])[..|gs|] == gs;
  }

  /**
   * An amount made of one row alone reads as that row's words: the unit row
   * is its count in words; otherwise count 1 takes the singular word alone,
   * 2 the dual word alone, 3 .. 10 the count in words and the plural word,
   * 11 and up the count in words and the singular word.
   */
  lemma LabelForms(k: nat, c: nat)
    requires k < |Parts| && 1 <= c < 1000
    ensures c * Parts[k].value < Limit && ArabicText(c * Parts[k].value) ==
      var m := Parts[k];
      if m.value == 1 then ConvertGroup(c)
      else if c == 1 then m.labelSingular
      else if c == 2 then m.labelDual
      else if c <= 10 then ConvertGroup(c) + " " + m.labelPlural
      else ConvertGroup(c) + " " + m.labelSingular
  {
    var n := c * Parts[k].value;
    SingleRowAmount(k, c);
    ArabicTextOfPositive(n);
    var g := Group(Parts[k], c);
    assert ArabicText(n) == Render([g]) == GroupText(g);
  }

  /** The amount c * value of one row is in range and decomposes into that row alone. */
  lemma SingleRowAmount(k: nat, c: nat)
    requires k < |Parts| && 1 <= c < 1000
    ensures 0 < c * Parts[k].value < Limit
    ensures Decompose(Parts, c * Parts[k].value) == [Group(Parts[k], c)]
  {
    PartsWellFormed();
    DecomposeSingle(Parts, k, c);
    SingleRowInRange(k, c);
  }

  lemma SingleRowInRange(k: nat, c: nat)
    requires k < |Parts| && 1 <= c < 1000
    ensures 0 < c * Parts[k].value < Limit
  {
    PartsWellFormed();
    var p := Parts[k].value;
    Arith.MulBelow(c, 1000, p);
    if k > 0 {
      ChainedMultiple(Parts, k);
    }
    assert Parts[0].value == 1000000000000;
  }

  lemma PhraseExamples()
    ensures "خمسة" + " " + "آلاف" == "خمسة آلاف"
    ensures "خمسون" + " " + "ألف" == "خمسون ألف"
    ensures "ألف" + And + ("مئتان" + And + ("أربعة" + And + "ثلاثون")) == "ألف ومئتان وأربعة وثلاثون"
  {
  }

  /**
   * The unit group is read last: for a positive multiple x of 1000 and
   * units u in 1 .. 999, the reading of x + u is the reading of x, the
   * conjunction, and the words for u.
   */
  lemma UnitsFollowWithConjunction(x: nat, u: nat)
    requires 0 < x && x % 1000 == 0 && 1 <= u < 1000 && x + u < Limit
    ensures ArabicText(x + u) == ArabicText(x) + And + ConvertGroup(u)
  {
    PartsWellFormed();
    DecomposeAppendUnits(Parts, x, u);
    ArabicTextOfPositive(x);
    ArabicTextOfPositive(x + u);
    var g := Group(Parts[4], u);
    assert g in Decompose(Parts, x + u);
    RenderAppend(Decompose(Parts, x), g);
  }

  /** Zero is read as the zero word. */
  lemma ZeroExample()
    ensures ArabicText(0) == "صفر"
  {
  }

  /** Count 1 of the thousands row takes the singular word alone. */
  lemma ThousandExample()
    ensures ArabicText(1000) == "ألف"
  {
    LabelForms(3, 1);
  }

  /** Count 2 of the thousands row takes the dual word alone. */
  lemma TwoThousandExample()
    ensures ArabicText(2000) == "ألفان"
  {
    LabelForms(3, 2);
  }

  /** Count 5 of the thousands row: the count in words and the plural word. */
  lemma FiveThousandExample()
    ensures ArabicText(5000) == "خمسة آلاف"
  {
    LabelForms(3, 5);
    assert ConvertGroup(5) == "خمسة";
    PhraseExamples();
  }

  /** Count 50 of the thousands row: the count in words and the singular word. */
  lemma FiftyThousandExample()
    ensures ArabicText(50000) == "خمسون ألف"
  {
    LabelForms(3, 50);
    assert ConvertGroup(50) == "خمسون";
    PhraseExamples();
  }

  /** 1234 reads as one thousand, the conjunction, and the words for 234. */
  lemma MixedExample()
    ensures ArabicText(1234) == "ألف ومئتان وأربعة وثلاثون"
  {
    UnitsFollowWithConjunction(1000, 234);
    ThousandExample();
    ConvertGroupExample();
    PhraseExamples();
  }

  lemma AppendAssoc(a: seq<Group>, b: seq<Group>, c: seq<Group>)
    ensures a + b + c == a + (b + c)
  {
  }

  /** For a positive amount the text is the rendering of its decomposition. */
  lemma ArabicTextOfPositive(num: nat)
    requires 0 < num < Limit
    ensures forall g :: g in Decompose(Parts, num) ==> ValidGroup(g)
    ensures ArabicText(num) == Render(Decompose(Parts, num))
  {
    PartsWellFormed();
    DecomposeCounts(Parts, num);
    DecomposeMembers(Parts, num);
  }

  /**
   * One turn of the loop's output: the conjunction unless nothing has been
   * written yet, then the count's words and the label the count selects.
   */
  method AppendPart(text: string, g: Group) returns (r: string)
    requires ValidGroup(g)
    ensures r == (if text == "" then GroupText(g) else text + And + GroupText(g))
  {
    var part, count := g.part, g.count;
    r := text;
    if r != "" {
      r := r + And;
    }
    if part.value == 1 {
      r := r + ConvertGroup(count);
    } else {
      if count == 1 {
        r := r + part.labelSingular;
      } else if count == 2 {
        r := r + part.labelDual;
      } else if count >= 3 && count <= 10 {
        r := r + (ConvertGroup(count) + " " + part.labelPlural);
      } else {
        r := r + (ConvertGroup(count) + " " + part.labelSingular);
      }
    }
  }

  /**
   * numberToArabicText: zero is read as the zero word; otherwise the loop
   * walks the scale table from the largest row, peeling off each count and
   * appending its words, with the conjunction before every part but the first.
   */
  method NumberToArabicText(num: nat) returns (result: string)
    requires num < Limit
    ensures result == ArabicText(num)
  {
    if num == 0 {
      return Zero;
    }
    PartsWellFormed();
    result := "";
    var remaining: nat := num;
    ghost var emitted: seq<Group> := [];
    ghost var groups := Decompose(Parts, num);
    assert Parts[0..] == Parts;
    for i := 0 to |Parts|
      invariant i < |Parts| ==> remaining < 1000 * Parts[i].value
      invariant groups == emitted + Decompose(Parts[i..], remaining)
      invariant forall g :: g in emitted ==> ValidGroup(g)
      invariant result == Render(emitted)
    {
      var part := Parts[i];
      DecomposeStep(i, remaining);
      if i + 1 < |Parts| {
        assert part.value == 1000 * Parts[i + 1].value;
      }
      if remaining >= part.value {
        var count := remaining / part.value;
        Arith.CountBounds(remaining, part.value);
        remaining := remaining % part.value;

        var g := Group(part, count);
        assert ValidGroup(g);
        RenderAppend(emitted, g);
        result := AppendPart(result, g);
        AppendAssoc(emitted, [g], Decompose(Parts[i + 1..], remaining));
        emitted := emitted + [g];
      }
    }
    assert Decompose(Parts[|Parts|..], remaining) == [];
    assert emitted == groups;
    ArabicTextOfPositive(num);
  }
}
