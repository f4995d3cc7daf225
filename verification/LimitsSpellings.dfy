/** The ways a contract may write one number, and that no two numbers share one. */
module LimitsSpellings {
  import opened Text
  import opened Limits

  function Digit(d: nat): char
    requires d < 10
  {
    '0' + d as char
  }

  function Digits(v: nat): (s: string)
    ensures s != ""
  {
    if v < 10 then [Digit(v)] else Digits(v / 10) + [Digit(v % 10)]
  }

  /** The numeral of a number reads as that number, and starts with no zero. */
  lemma {:induction false} NumeralReads(v: nat)
    ensures forall i :: 0 <= i < |Digits(v)| ==> IsDigit(Digits(v)[i])
    ensures Decimal(Digits(v)) == v && (v > 0 ==> Digits(v)[0] != '0')
  {
    if v >= 10 {
      var front := Digits(v / 10);
      NumeralReads(v / 10);
      assert (front + [Digit(v % 10)])[..|front|] == front;
    }
  }

  function Magnitude(value: int): nat { if value < 0 then -value else value }

  /** The decimal numeral, with its sign. */
  function Plain(value: int): string {
    (if value < 0 then "-" else "") + Digits(Magnitude(value))
  }

  /** The groups of three characters, counted from the end. */
  function Groups(s: string): (parts: seq<string>)
    ensures parts != []
    decreases |s|
  {
    if |s| <= 3 then [s] else Groups(s[..|s| - 3]) + [s[|s| - 3..]]
  }

  /** The numeral with its digits in comma groups. */
  function Grouped(value: int): string {
    (if value < 0 then "-" else "") + Join(Groups(Digits(Magnitude(value))), ",")
  }

  /** The grouping loop. It counts a sign as one of the characters. */
  function Underscored(value: int): string {
    Join(Groups(Plain(value)), "_")
  }

  method GroupLoop(plain: string) returns (parts: seq<string>)
    ensures parts == Groups(plain)
  {
    var rust := plain;
    parts := [];
    while |rust| > 3
      invariant Groups(plain) == Groups(rust) + parts
    {
      parts := [rust[|rust| - 3..]] + parts;
      rust := rust[..|rust| - 3];
    }
    parts := [rust] + parts;
  }

  /** `2^n - 1` and its like, with or without spaces. */
  function PowerForm(n: nat, plus: bool, spaced: bool): string {
    "2^" + (Digits(n) + PowerTail(plus, spaced))
  }

  function PowerTail(plus: bool, spaced: bool): string {
    (if spaced then " " else "") + (if plus then "+" else "-") + (if spaced then " 1" else "1")
  }

  lemma PowerTexts(n: nat)
    ensures PowerForm(n, true, true) == "2^" + Digits(n) + " + 1"
    ensures PowerForm(n, true, false) == "2^" + Digits(n) + "+1"
    ensures PowerForm(n, false, true) == "2^" + Digits(n) + " - 1"
    ensures PowerForm(n, false, false) == "2^" + Digits(n) + "-1"
  {
    assert PowerTail(true, true) == " + 1" && PowerTail(true, false) == "+1";
    assert PowerTail(false, true) == " - 1" && PowerTail(false, false) == "-1";
  }

  /** `int.bit_length` */
  function BitLength(v: nat): nat {
    if v == 0 then 0 else 1 + BitLength(v / 2)
  }

  lemma {:induction false} BitLengthOfPow2(n: nat)
    ensures BitLength(Pow2(n)) == n + 1
  {
    if n > 0 {
      BitLengthOfPow2(n - 1);
      assert Pow2(n) / 2 == Pow2(n - 1);
    }
  }

  ghost predicate IsPowerForm(f: string, value: int) {
    exists n: nat, plus, spaced :: Signed(Pow2(n), plus, 1) == value && f == PowerForm(n, plus, spaced)
  }

  ghost predicate IsSpelling(f: string, value: int) {
    f == Plain(value) || f == Grouped(value) || f == Underscored(value) || IsPowerForm(f, value)
  }

  method Spellings(value: int) returns (forms: set<string>)
    ensures forall f :: f in forms <==> IsSpelling(f, value)
  {
    var parts := GroupLoop(Plain(value));
    var below, above := PowerForms(value, true), PowerForms(value, false);
    forms := {Plain(value), Grouped(value), Join(parts, "_")} + below + above;
    PowerFormsExactly(value);
  }

  /** The forms of the candidate below, which is one less, or above. */
  function PowerForms(value: int, below: bool): set<string> {
    var candidate := if below then value - 1 else value + 1;
    if candidate <= 0 then {}
    else
      var power := BitLength(candidate) - 1;
      if Pow2(power) == candidate then {PowerForm(power, below, true), PowerForm(power, below, false)} else {}
  }

  lemma PowerFormsExactly(value: int)
    ensures forall f :: f in PowerForms(value, true) + PowerForms(value, false) <==> IsPowerForm(f, value)
  {
    forall f | IsPowerForm(f, value) ensures f in PowerForms(value, true) + PowerForms(value, false) {
      var n: nat, plus, spaced :| Signed(Pow2(n), plus, 1) == value && f == PowerForm(n, plus, spaced);
      PowerFormListed(n, plus, spaced);
    }
    forall f, below | f in PowerForms(value, below) ensures IsPowerForm(f, value) { ListedPowerForm(f, value, below); }
  }

  lemma PowerFormListed(n: nat, plus: bool, spaced: bool)
    ensures PowerForm(n, plus, spaced) in PowerForms(Signed(Pow2(n), plus, 1), plus)
  {
    BitLengthOfPow2(n);
    Pow2Positive(n);
    CandidateListed(Signed(Pow2(n), plus, 1), plus, n, spaced);
  }

  lemma CandidateListed(value: int, below: bool, n: nat, spaced: bool)
    requires (if below then value - 1 else value + 1) == Pow2(n) > 0 && BitLength(Pow2(n)) == n + 1
    ensures PowerForm(n, below, spaced) in PowerForms(value, below)
  {
  }

  lemma ListedPowerForm(f: string, value: int, below: bool)
    requires f in PowerForms(value, below)
    ensures IsPowerForm(f, value)
  {
    var candidate := if below then value - 1 else value + 1;
    var power := BitLength(candidate) - 1;
    assert Signed(Pow2(power), below, 1) == value;
    assert f == PowerForm(power, below, true) || f == PowerForm(power, below, false);
  }

  lemma {:induction false} Pow2Positive(n: nat)
    ensures Pow2(n) > 0
  {
    if n > 0 { Pow2Positive(n - 1); }
  }

  // No two numbers share a spelling.

  ghost predicate AllDigits(s: string) {
    forall i :: 0 <= i < |s| ==> IsDigit(s[i])
  }

  lemma {:induction false} DigitsAre(v: nat)
    ensures AllDigits(Digits(v))
  {
    if v >= 10 { DigitsAre(v / 10); }
  }

  lemma {:induction false} DigitsInjective(v: nat, w: nat)
    requires Digits(v) == Digits(w)
    ensures v == w
  {
    var a, b := Digits(v), Digits(w);
    assert a[|a| - 1] == Digit(v % 10) && b[|b| - 1] == Digit(w % 10);
    if v >= 10 && w >= 10 {
      assert a[..|a| - 1] == Digits(v / 10) && b[..|b| - 1] == Digits(w / 10);
      DigitsInjective(v / 10, w / 10);
    }
  }

  lemma PlainInjective(v: int, w: int)
    requires Plain(v) == Plain(w)
    ensures v == w
  {
    var a, b := Magnitude(v), Magnitude(w);
    DigitsAre(a);
    DigitsAre(b);
    assert IsDigit(Digits(a)[0]) && IsDigit(Digits(b)[0]);
    assert v >= 0 ==> Plain(v) == Digits(a);
    assert w >= 0 ==> Plain(w) == Digits(b);
    assert v < 0 ==> Plain(v)[0] == '-' && Plain(v)[1..] == Digits(a);
    assert w < 0 ==> Plain(w)[0] == '-' && Plain(w)[1..] == Digits(b);
    assert Digits(a) == Digits(b);
    DigitsInjective(a, b);
  }

  /** The text without one separator. */
  function Without(s: string, c: char): string {
    if s == "" then "" else Without(s[..|s| - 1], c) + if s[|s| - 1] == c then "" else [s[|s| - 1]]
  }

  lemma {:induction false} WithoutConcat(a: string, b: string, c: char)
    ensures Without(a + b, c) == Without(a, c) + Without(b, c)
    decreases |b|
  {
    if b == "" {
      assert a + b == a;
    } else {
      assert (a + b)[..|a + b| - 1] == a + b[..|b| - 1];
      WithoutConcat(a, b[..|b| - 1], c);
    }
  }

  lemma {:induction false} WithoutAbsent(s: string, c: char)
    requires c !in s
    ensures Without(s, c) == s
  {
    if s != "" { WithoutAbsent(s[..|s| - 1], c); }
  }

  /** Taking the separators out of the joined groups gives the text back. */
  lemma {:induction false} GroupsRejoin(s: string, c: char)
    requires c !in s
    ensures Without(Join(Groups(s), [c]), c) == s
    decreases |s|
  {
    if |s| <= 3 {
      WithoutAbsent(s, c);
    } else {
      var init, last := s[..|s| - 3], s[|s| - 3..];
      assert s == init + last && c !in init && c !in last;
      var joined := Join(Groups(init), [c]);
      GroupsRejoin(init, c);
      JoinLast(Groups(init), last, [c]);
      WithoutSeparator(joined, c, last);
    }
  }

  lemma WithoutSeparator(joined: string, c: char, last: string)
    requires c !in last
    ensures Without(joined + [c] + last, c) == Without(joined, c) + last
  {
    WithoutConcat(joined + [c], last, c);
    WithoutLast(joined, c);
    WithoutAbsent(last, c);
  }

  lemma WithoutLast(s: string, c: char)
    ensures Without(s + [c], c) == Without(s, c)
  {
    assert (s + [c])[..|s|] == s;
  }

  lemma {:induction false} GroupsAvoid(s: string, sep: char, x: char)
    requires x !in s && x != sep
    ensures x !in Join(Groups(s), [sep])
    decreases |s|
  {
    if |s| > 3 {
      GroupsAvoid(s[..|s| - 3], sep, x);
      JoinLast(Groups(s[..|s| - 3]), s[|s| - 3..], [sep]);
    }
  }

  predicate PlainChar(x: char) { IsDigit(x) || x == '-' }

  lemma PlainChars(value: int)
    ensures forall x :: x in Plain(value) ==> PlainChar(x)
    ensures ',' !in Plain(value) && '_' !in Plain(value) && '^' !in Plain(value)
  {
    DigitsAre(Magnitude(value));
  }

  function Bare(f: string): string {
    Without(Without(f, ','), '_')
  }

  lemma SignedGroups(sign: string, ds: string)
    requires ',' !in sign && ',' !in ds && '^' !in sign && '^' !in ds
    ensures var f := sign + Join(Groups(ds), ","); Without(f, ',') == sign + ds && '^' !in f
  {
    GroupsRejoin(ds, ',');
    GroupsAvoid(ds, ',', '^');
    WithoutConcat(sign, Join(Groups(ds), ","), ',');
    WithoutAbsent(sign, ',');
  }

  lemma GroupedBare(value: int)
    ensures Bare(Grouped(value)) == Plain(value) && '^' !in Grouped(value)
  {
    DigitsAre(Magnitude(value));
    SignedGroups(if value < 0 then "-" else "", Digits(Magnitude(value)));
    PlainChars(value);
    WithoutAbsent(Plain(value), '_');
  }

  lemma UnderscoredBare(value: int)
    ensures Bare(Underscored(value)) == Plain(value) && '^' !in Underscored(value)
  {
    PlainChars(value);
    GroupsAvoid(Plain(value), '_', ',');
    GroupsAvoid(Plain(value), '_', '^');
    WithoutAbsent(Underscored(value), ',');
    GroupsRejoin(Plain(value), '_');
  }

  lemma NumeralBare(f: string, value: int)
    requires f == Plain(value) || f == Grouped(value) || f == Underscored(value)
    ensures Bare(f) == Plain(value) && '^' !in f
  {
    PlainChars(value);
    WithoutAbsent(Plain(value), ',');
    WithoutAbsent(Plain(value), '_');
    GroupedBare(value);
    UnderscoredBare(value);
  }

  lemma {:induction false} RunLength(a: string, x: string)
    requires AllDigits(a) && x != "" && !IsDigit(x[0])
    ensures DigitRun(a + x) == |a|
    decreases |a|
  {
    if a == "" {
      assert a + x == x;
    } else {
      assert (a + x)[1..] == a[1..] + x;
      RunLength(a[1..], x);
    }
  }

  /** A digit run ends where the first other character stands. */
  lemma RunEnds(a: string, x: string, b: string, y: string)
    requires AllDigits(a) && AllDigits(b) && x != "" && y != "" && !IsDigit(x[0]) && !IsDigit(y[0])
    requires a + x == b + y
    ensures a == b && x == y
  {
    RunLength(a, x);
    RunLength(b, y);
    assert a == (a + x)[..|a|] && b == (b + y)[..|b|] && x == (a + x)[|a|..] && y == (b + y)[|b|..];
  }

  lemma PowerFormInjective(n: nat, plus: bool, spaced: bool, k: nat, more: bool, wide: bool)
    requires PowerForm(n, plus, spaced) == PowerForm(k, more, wide)
    ensures n == k && plus == more
  {
    var x, y := PowerTail(plus, spaced), PowerTail(more, wide);
    assert PowerForm(n, plus, spaced)[2..] == Digits(n) + x;
    assert PowerForm(k, more, wide)[2..] == Digits(k) + y;
    DigitsAre(n);
    DigitsAre(k);
    RunEnds(Digits(n), x, Digits(k), y);
    DigitsInjective(n, k);
    assert x[if spaced then 1 else 0] == if plus then '+' else '-';
    assert y[if wide then 1 else 0] == if more then '+' else '-';
  }

  /** A spelling spells one number. */
  lemma SpellingsDisjoint(f: string, v: int, w: int)
    requires IsSpelling(f, v) && IsSpelling(f, w)
    ensures v == w
  {
    if IsPowerForm(f, v) && IsPowerForm(f, w) {
      var n: nat, plus, spaced :| Signed(Pow2(n), plus, 1) == v && f == PowerForm(n, plus, spaced);
      var k: nat, more, wide :| Signed(Pow2(k), more, 1) == w && f == PowerForm(k, more, wide);
      PowerFormInjective(n, plus, spaced, k, more, wide);
    } else {
      assert IsPowerForm(f, v) || IsPowerForm(f, w) ==> '^' in f by {
        if IsPowerForm(f, v) || IsPowerForm(f, w) { assert f[1] == '^'; }
      }
      if !IsPowerForm(f, v) { NumeralBare(f, v); }
      if !IsPowerForm(f, w) { NumeralBare(f, w); }
      PlainInjective(v, w);
    }
  }

  // The sign in the grouping loop.

  lemma {:induction false} FirstGroup(s: string)
    requires s != ""
    ensures Groups(s)[0] == s[..(|s| - 1) % 3 + 1]
    ensures |Groups(s)| > 1 <==> |s| > 3
    decreases |s|
  {
    if |s| > 3 {
      var init := s[..|s| - 3];
      var k := (|s| - 1) % 3 + 1;
      assert k == (|init| - 1) % 3 + 1;
      FirstGroup(init);
      assert init[..k] == s[..k];
    }
  }

  /** The grouping detaches the sign of exactly the negative numbers whose digits fill their groups. */
  lemma SignDetached(value: int)
    ensures |Groups(Plain(value))| > 1 && Groups(Plain(value))[0] == "-" <==>
            value < 0 && |Digits(Magnitude(value))| % 3 == 0
  {
    var s, ds := Plain(value), Digits(Magnitude(value));
    DigitsAre(Magnitude(value));
    assert IsDigit(ds[0]);
    assert if value < 0 then |s| == |ds| + 1 && s[0] == '-' else s == ds;
    FirstGroup(s);
    var k := (|s| - 1) % 3 + 1;
    assert s[..k] == "-" <==> k == 1 && s[0] == '-';
    assert k == 1 <==> |s| % 3 == 1;
  }

  /** One of them: -100. */
  lemma HundredDetached()
    ensures Plain(-100) == "-100" && Groups(Plain(-100)) == ["-", "100"] && Underscored(-100) == "-_100"
  {
    assert Digits(1) == "1" && Digits(10) == "10" && Digits(100) == "100";
    assert "-100"[..1] == "-" && "-100"[1..] == "100";
  }
}
