/**
 * The stepping selectors: an index, or an enum value among the candidates that are not
 * ignored, moved by one with wrap-around. The current label is read before stepping, so
 * an index outside the labels fails; stepping through no candidates divides by zero.
 */
module Selectors {
  import opened Common

  /** C#'s `%` on int: the remainder takes the sign of the dividend. */
  function CsRem(a: int, n: int): (r: int)
    requires n != 0
    ensures a >= 0 ==> 0 <= r && r == a % (if n < 0 then -n else n)
    ensures a < 0 ==> r <= 0
    ensures -(if n < 0 then -n else n) < r < (if n < 0 then -n else n)
  {
    var m := if n < 0 then -n else n;
    if a >= 0 then a % m else -((-a) % m)
  }

  /** -1 for "<", +1 for ">", 0 for neither; ">" wins when both report a press. */
  function Direction(left: bool, right: bool): (d: int)
    ensures d == 0 <==> !left && !right
    ensures -1 <= d <= 1
  {
    if right then 1 else if left then -1 else 0
  }

  /** For a dividend below twice the divisor, the remainder is a single subtraction. */
  lemma ModSmall(a: int, n: int)
    requires 0 < n && 0 <= a <= 2 * n
    ensures a % n == if a < n then a else if a < 2 * n then a - n else 0
  {
    if a == 2 * n {
      assert a == 2 * n + 0;
    } else if a >= n {
      assert a == 1 * n + (a - n);
    }
  }

  /** The position after a step of `diff` from `index` among n entries. */
  function Cycle(index: int, diff: int, n: int): (j: int)
    requires n > 0 && -1 <= index < n && (diff == -1 || diff == 1)
    ensures j == CsRem(index + diff + n, n)
    ensures 0 <= j < n
    ensures 0 <= index + diff < n ==> j == index + diff
    ensures index + diff == n ==> j == 0
    ensures index + diff == -1 ==> j == n - 1
    ensures index + diff == -2 ==> j == if n == 1 then 0 else n - 2
  {
    var a := index + diff + n;
    if a >= 0 then ModSmall(a, n); a % n
    else assert n == 1; 0
  }

  /** The arrow selector over n labels. */
  function ArrowOrderField(index: int, n: nat, left: bool, right: bool): (r: Result<int>)
    ensures r.Ok? <==> 0 <= index < n
    ensures r.Throws? ==> r.error == IndexOutOfRange
    ensures r.Ok? ==> 0 <= r.value < n
    ensures r.Ok? && !left && !right ==> r.value == index
    ensures r.Ok? && right ==> r.value == if index == n - 1 then 0 else index + 1
    ensures r.Ok? && left && !right ==> r.value == if index == 0 then n - 1 else index - 1
  {
    if !(0 <= index < n) then Throws(IndexOutOfRange)
    else
      var diff := Direction(left, right);
      if diff != 0 then Ok(Cycle(index, diff, n)) else Ok(index)
  }

  /** A "<" step followed by a ">" step lands back on the starting label, and vice versa. */
  lemma ArrowStepsCancel(index: int, n: nat)
    requires 0 <= index < n
    ensures ArrowOrderField(ArrowOrderField(index, n, true, false).value, n, false, true) == Ok(index)
    ensures ArrowOrderField(ArrowOrderField(index, n, false, true).value, n, true, false) == Ok(index)
  {
  }

  /** The button selector over n labels: each press moves to the next label, the last wrapping to the first. */
  function ButtonOrderField(index: int, n: nat, pressed: bool): (r: Result<int>)
    ensures r.Ok? <==> 0 <= index < n
    ensures r.Throws? ==> r.error == IndexOutOfRange
    ensures r.Ok? ==> 0 <= r.value < n
    ensures r.Ok? && !pressed ==> r.value == index
    ensures r.Ok? && pressed ==> r.value == if index == n - 1 then 0 else index + 1
  {
    if !(0 <= index < n) then Throws(IndexOutOfRange)
    else if pressed then Ok(Cycle(index, 1, n))
    else Ok(index)
  }

  /** The label after k presses. */
  function Presses(index: int, n: nat, k: nat): (r: Result<int>)
    decreases k
  {
    if k == 0 then ButtonOrderField(index, n, false)
    else
      match ButtonOrderField(index, n, true)
      case Throws(e) => Throws(e)
      case Ok(i) => Presses(i, n, k - 1)
  }

  /** Up to n presses advance the index by k, wrapping once past the last label. */
  lemma {:induction false} PressesAdvance(index: int, n: nat, k: nat)
    requires 0 <= index < n && k <= n
    ensures Presses(index, n, k) == Ok(if index + k < n then index + k else index + k - n)
    decreases k
  {
    if k > 0 {
      var i := ButtonOrderField(index, n, true).value;
      PressesAdvance(i, n, k - 1);
    }
  }

  /** n presses come back to the starting label. */
  lemma PressesCycle(index: int, n: nat)
    requires 0 <= index < n
    ensures Presses(index, n, n) == Ok(index)
  {
    PressesAdvance(index, n, n);
  }

  /** The enum values that are offered: every value not in the ignore collection, in their given order. */
  function Candidates<T(==,!new)>(values: seq<T>, ignore: Option<seq<T>>): (cs: seq<T>)
    ensures forall v :: v in cs <==> v in values && (ignore.None? || v !in ignore.value)
    ensures |cs| <= |values|
  {
    if values == [] then []
    else
      var rest := Candidates(values[1..], ignore);
      if ignore.None? || values[0] !in ignore.value then [values[0]] + rest else rest
  }

  /** The first position of v, or -1. */
  function IndexOf<T(==,!new)>(s: seq<T>, v: T): (i: int)
    ensures -1 <= i < |s|
    ensures i == -1 <==> v !in s
    ensures i >= 0 ==> s[i] == v && forall j | 0 <= j < i :: s[j] != v
  {
    if s == [] then -1
    else if s[0] == v then 0
    else
      var i := IndexOf(s[1..], v);
      if i == -1 then -1 else i + 1
  }

  /** The arrow selector over an enum's candidates. */
  function EnumArrowOrderField<T(==,!new)>(values: seq<T>, ignore: Option<seq<T>>, current: T, left: bool, right: bool): (r: Result<T>)
    ensures !left && !right ==> r == Ok(current)
    ensures (left || right) ==> (r.Ok? <==> |Candidates(values, ignore)| > 0)
    ensures r.Throws? ==> r.error == DivideByZero
    ensures (left || right) && r.Ok? ==> r.value in Candidates(values, ignore)
  {
    var cs := Candidates(values, ignore);
    var diff := Direction(left, right);
    if diff == 0 then Ok(current)
    else if |cs| == 0 then Throws(DivideByZero)
    else
      Ok(cs[Cycle(IndexOf(cs, current), diff, |cs|)])
  }

  /** The button selector over an enum's candidates. */
  function EnumButtonOrderField<T(==,!new)>(values: seq<T>, ignore: Option<seq<T>>, current: T, pressed: bool): (r: Result<T>)
    ensures !pressed ==> r == Ok(current)
    ensures pressed ==> (r.Ok? <==> |Candidates(values, ignore)| > 0)
    ensures r.Throws? ==> r.error == DivideByZero
    ensures pressed && r.Ok? ==> r.value in Candidates(values, ignore)
  {
    var cs := Candidates(values, ignore);
    if !pressed then Ok(current)
    else if |cs| == 0 then Throws(DivideByZero)
    else
      Ok(cs[Cycle(IndexOf(cs, current), 1, |cs|)])
  }

  /** Stepping an offered value moves to its neighbour in the candidate order, wrapping at both ends. */
  lemma EnumStepNeighbours<T(!new)>(values: seq<T>, ignore: Option<seq<T>>, i: nat)
    requires i < |Candidates(values, ignore)|
    requires IndexOf(Candidates(values, ignore), Candidates(values, ignore)[i]) == i
    ensures var cs := Candidates(values, ignore); var n := |cs|;
      && EnumArrowOrderField(values, ignore, cs[i], false, true) == Ok(cs[if i == n - 1 then 0 else i + 1])
      && EnumArrowOrderField(values, ignore, cs[i], true, false) == Ok(cs[if i == 0 then n - 1 else i - 1])
      && EnumButtonOrderField(values, ignore, cs[i], true) == Ok(cs[if i == n - 1 then 0 else i + 1])
  {
    var cs := Candidates(values, ignore);
    var n := |cs|;
    assert Cycle(i, 1, n) == if i == n - 1 then 0 else i + 1;
    assert Cycle(i, -1, n) == if i == 0 then n - 1 else i - 1;
  }

  /**
   * A current value that is not offered (ignored, say) has position -1: it steps forward
   * to the first candidate, and back to the second-to-last one (the only one, if alone).
   */
  lemma EnumStepFromUnoffered<T(!new)>(values: seq<T>, ignore: Option<seq<T>>, current: T)
    requires current !in Candidates(values, ignore) && |Candidates(values, ignore)| > 0
    ensures var cs := Candidates(values, ignore);
      && EnumArrowOrderField(values, ignore, current, false, true) == Ok(cs[0])
      && EnumButtonOrderField(values, ignore, current, true) == Ok(cs[0])
      && EnumArrowOrderField(values, ignore, current, true, false) == Ok(cs[if |cs| == 1 then 0 else |cs| - 2])
  {
  }

  /** When the candidates are distinct, a "<" step and a ">" step cancel. */
  lemma EnumStepsCancel<T(!new)>(values: seq<T>, ignore: Option<seq<T>>, current: T)
    requires current in Candidates(values, ignore)
    requires var cs := Candidates(values, ignore); forall a, b | 0 <= a < b < |cs| :: cs[a] != cs[b]
    ensures var back := EnumArrowOrderField(values, ignore, current, true, false).value;
      EnumArrowOrderField(values, ignore, back, false, true) == Ok(current)
  {
    var cs := Candidates(values, ignore);
    var n := |cs|;
    var i := IndexOf(cs, current);
    var j := if i == 0 then n - 1 else i - 1;
    assert cs[i] == current;
    EnumStepNeighbours(values, ignore, i);
    assert EnumArrowOrderField(values, ignore, current, true, false) == Ok(cs[j]);
    DistinctIndex(cs, j);
    EnumStepNeighbours(values, ignore, j);
    assert (if j == n - 1 then 0 else j + 1) == i;
  }

  lemma DistinctIndex<T(!new)>(s: seq<T>, j: nat)
    requires j < |s| && forall a, b | 0 <= a < b < |s| :: s[a] != s[b]
    ensures IndexOf(s, s[j]) == j
  {
  }

  datatype Toggle = Toggle(title: string, flag: bool)

  /** The toggle button: its label shows the current state, and a press flips the flag. */
  function ToggleButton(flag: bool, onLabel: string, offLabel: string, pressed: bool): (r: Toggle)
    ensures r.flag == (flag != pressed)
    ensures flag ==> r.title == onLabel
    ensures !flag ==> r.title == offLabel
  {
    Toggle(if flag then onLabel else offLabel, if pressed then !flag else flag)
  }

  /** Two presses restore the flag and the label. */
  lemma ToggleTwice(flag: bool, onLabel: string, offLabel: string)
    ensures var once := ToggleButton(flag, onLabel, offLabel, true);
      ToggleButton(once.flag, onLabel, offLabel, true).flag == flag
      && ToggleButton(ToggleButton(once.flag, onLabel, offLabel, true).flag, onLabel, offLabel, false).title
         == ToggleButton(flag, onLabel, offLabel, false).title
  {
  }
}
