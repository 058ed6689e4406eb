/** The `[IMAGE:n]` placeholder token: how the extractor writes it and how
    the image scripts find it again with the regex `\[IMAGE:(\d+)\]`. */
module Placeholders {
  import opened PyText

  const Prefix := "[IMAGE:"

  /** `f"[IMAGE:{k}]"`; `k` is -1 for an `<img>` without a source that
      comes before any sourced one. */
  function Placeholder(k: int): string {
    Prefix + IntToString(k) + "]"
  }

  /** The end of the run of ASCII digits that starts at `i`. */
  function DigitRunEnd(t: string, i: nat): (j: nat)
    requires i <= |t|
    ensures i <= j <= |t|
    ensures forall k :: i <= k < j ==> IsAsciiDigit(t[k])
    ensures j < |t| ==> !IsAsciiDigit(t[j])
    decreases |t| - i
  {
    if i == |t| || !IsAsciiDigit(t[i]) then i else DigitRunEnd(t, i + 1)
  }

  /** The regex `\[IMAGE:(\d+)\]` matches at `p`: the prefix, one or more
      digits (greedy; backing off cannot help since a digit is never `]`),
      then `]`. */
  predicate TokenAt(t: string, p: nat) {
    && OccursAt(t, Prefix, p)
    && var q := DigitRunEnd(t, p + |Prefix|);
       q > p + |Prefix| && q < |t| && t[q] == ']'
  }

  /** `re.findall(r"\[IMAGE:(\d+)\]", t[p..])` with the search starting at `p`:
      the digit strings of the leftmost non-overlapping tokens. */
  function TokensFrom(t: string, p: nat): (r: seq<string>)
    requires p <= |t|
    ensures forall k :: 0 <= k < |r| ==> |r[k]| > 0
    ensures forall k, i :: 0 <= k < |r| && 0 <= i < |r[k]| ==> IsAsciiDigit(r[k][i])
    decreases |t| - p
  {
    if p == |t| then []
    else if TokenAt(t, p) then
      var q := DigitRunEnd(t, p + |Prefix|);
      [t[p + |Prefix|..q]] + TokensFrom(t, q + 1)
    else TokensFrom(t, p + 1)
  }

  function Tokens(t: string): (r: seq<string>)
    ensures forall k :: 0 <= k < |r| ==> |r[k]| > 0
  {
    TokensFrom(t, 0)
  }

  /** A text without the prefix holds no token. */
  lemma {:induction false} NoPrefixNoTokens(t: string, p: nat)
    requires p <= |t|
    requires forall i :: p <= i ==> !OccursAt(t, Prefix, i)
    ensures TokensFrom(t, p) == []
    decreases |t| - p
  {
    if p < |t| {
      NoPrefixNoTokens(t, p + 1);
    }
  }

  /** A placeholder written for a non-negative index is found again with
      exactly that index's decimal digits. */
  lemma PlaceholderFound(n: nat)
    ensures Tokens(Placeholder(n)) == [NatToString(n)]
  {
    var t := Placeholder(n);
    var d := NatToString(n);
    assert t == Prefix + d + "]";
    assert t[..|Prefix|] == Prefix;
    assert t[|Prefix|..|Prefix| + |d|] == d;
    assert DigitRunEnd(t, |Prefix|) == |Prefix| + |d| by {
      DigitRunEndAt(t, |Prefix|, |Prefix| + |d|);
    }
    assert TokenAt(t, 0);
    assert TokensFrom(t, |t|) == [];
  }

  /** The token written for an `<img>` without a source before any sourced
      one, `[IMAGE:-1]`, and every other negative index, is invisible to the
      image scripts. */
  lemma NegativeInvisible(k: int)
    requires k < 0
    ensures Tokens(Placeholder(k)) == []
  {
    var t, d := Placeholder(k), NatToString(-k);
    assert t == Prefix + ("-" + d) + "]";
    assert t[|Prefix|] == '-';
    assert !TokenAt(t, 0);
    assert forall j :: 1 <= j < |t| ==> t[j] != '[' by {
      forall j | 1 <= j < |t|
        ensures t[j] != '['
      {
        if j < |Prefix| {
          assert t[j] == Prefix[j];
        } else if |Prefix| < j < |t| - 1 {
          assert t[j] == d[j - |Prefix| - 1];
        }
      }
    }
    NoOpenAfter(t);
    NoPrefixNoTokens(t, 1);
  }

  /** The prefix cannot start where there is no `[`. */
  lemma NoOpenAfter(t: string)
    requires forall j :: 1 <= j < |t| ==> t[j] != '['
    ensures forall i :: 1 <= i ==> !OccursAt(t, Prefix, i)
  {
    forall i | 1 <= i && i + |Prefix| <= |t|
      ensures !OccursAt(t, Prefix, i)
    {
      assert t[i..i + |Prefix|][0] == t[i];
    }
  }

  /** Distinct indices are written as distinct placeholders. */
  lemma PlaceholderInjective(m: int, n: int)
    requires Placeholder(m) == Placeholder(n)
    ensures m == n
  {
    var a, b := IntToString(m), IntToString(n);
    assert a == b by {
      var t := Placeholder(m);
      assert t[|Prefix|..|t| - 1] == a;
      assert Placeholder(n)[|Prefix|..|t| - 1] == b;
    }
    if m < 0 && n < 0 {
      assert a[1..] == NatToString(-m) && b[1..] == NatToString(-n);
      DigitsValueOfNatToString(-m);
      DigitsValueOfNatToString(-n);
    } else if m >= 0 && n >= 0 {
      DigitsValueOfNatToString(m);
      DigitsValueOfNatToString(n);
    }
  }

  lemma {:induction false} DigitRunEndAt(t: string, i: nat, j: nat)
    requires i <= j <= |t|
    requires forall k :: i <= k < j ==> IsAsciiDigit(t[k])
    requires j == |t| || !IsAsciiDigit(t[j])
    ensures DigitRunEnd(t, i) == j
    decreases j - i
  {
    if i < j {
      DigitRunEndAt(t, i + 1, j);
    }
  }
}
