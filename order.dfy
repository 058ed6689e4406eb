/** `sorted(...)` on integers and characters: ascending order by value
    (characters by code point, as Python compares `str` keys). */
module Order {

  predicate StrictlyIncreasing(s: seq<int>) {
    forall i, j :: 0 <= i < j < |s| ==> s[i] < s[j]
  }

  predicate NonDecreasing(s: seq<int>) {
    forall i, j :: 0 <= i < j < |s| ==> s[i] <= s[j]
  }

  lemma {:induction false} MinIntExists(s: set<int>)
    requires s != {}
    ensures exists m :: m in s && forall x :: x in s ==> m <= x
    decreases |s|
  {
    assert (forall z :: z !in s) ==> s == {};
    var y :| y in s;
    var rest := s - {y};
    if rest != {} {
      MinIntExists(rest);
      var m :| m in rest && forall x :: x in rest ==> m <= x;
      var w := if y < m then y else m;
      forall x | x in s ensures w <= x {
        if x != y { assert x in rest; }
      }
      assert w in s;
    } else {
      assert s == {y};
    }
  }

  function MinInt(s: set<int>): (m: int)
    requires s != {}
    ensures m in s && forall x :: x in s ==> m <= x
  {
    MinIntExists(s);
    var m :| m in s && forall x :: x in s ==> m <= x; m
  }

  /** `sorted(s)` for a set of integers. */
  function SortedSet(s: set<int>): (r: seq<int>)
    ensures StrictlyIncreasing(r)
    ensures forall x :: x in r <==> x in s
    ensures |r| == |s|
    decreases |s|
  {
    if s == {} then []
    else
      var m := MinInt(s);
      var rest := SortedSet(s - {m});
      assert forall x :: x in rest ==> m < x;
      [m] + rest
  }

  lemma ConsNonDecreasing(a: int, s: seq<int>)
    requires NonDecreasing(s)
    requires forall y :: y in s ==> a <= y
    ensures NonDecreasing([a] + s)
  {
    var t := [a] + s;
    forall i, j | 0 <= i < j < |t| ensures t[i] <= t[j] {
      assert t[j] == s[j - 1] && t[j] in s;
      if i > 0 {
        assert t[i] == s[i - 1];
      }
    }
  }

  function Insert(x: int, s: seq<int>): (r: seq<int>)
    requires NonDecreasing(s)
    ensures NonDecreasing(r)
    ensures multiset(r) == multiset(s) + multiset{x}
    decreases |s|
  {
    if s == [] || x <= s[0] then
      ConsNonDecreasing(x, s);
      [x] + s
    else
      var rest := Insert(x, s[1..]);
      assert s == [s[0]] + s[1..];
      forall y | y in rest ensures s[0] <= y {
        assert y in multiset(rest);
      }
      ConsNonDecreasing(s[0], rest);
      [s[0]] + rest
  }

  /** `sorted(s)` for a list of integers (duplicates kept). */
  function Sort(s: seq<int>): (r: seq<int>)
    ensures NonDecreasing(r)
    ensures multiset(r) == multiset(s)
    decreases |s|
  {
    if s == [] then []
    else
      assert s == [s[0]] + s[1..];
      Insert(s[0], Sort(s[1..]))
  }

  predicate CharsIncreasing(s: seq<char>) {
    forall i, j :: 0 <= i < j < |s| ==> s[i] < s[j]
  }

  /** The least character of a set: the one whose code is `MinInt` of the
      codes. */
  function MinChar(s: set<char>): (m: char)
    requires s != {}
    ensures m in s && forall x :: x in s ==> m <= x
  {
    var codes := set c | c in s :: c as int;
    var y :| y in s;
    assert y as int in codes;
    var least := MinInt(codes);
    var m :| m in s && m as int == least;
    assert forall x :: x in s ==> x as int in codes;
    m
  }

  /** `sorted(keys)` for a set of one-character keys. */
  function SortedChars(s: set<char>): (r: seq<char>)
    ensures CharsIncreasing(r)
    ensures forall x :: x in r <==> x in s
    ensures |r| == |s|
    decreases |s|
  {
    if s == {} then []
    else
      var m := MinChar(s);
      var rest := SortedChars(s - {m});
      assert forall x :: x in rest ==> m < x;
      [m] + rest
  }
}
