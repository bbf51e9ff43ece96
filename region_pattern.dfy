/** The region pattern ``` ``(.*?);(.+?);(\d+?)`` ``` of `_extract_groups`,
    compiled with `re.DOTALL`, as an explicit scanner. A match at `p` is
    fixed by three positions: `k1`, the `;` ending the text; `k2`, the `;`
    ending the name; and `d`, where the closing backquotes start. The
    three lazy groups make the regular-expression engine try `k1`, then
    `k2`, then `d` in increasing order, so the match it reports is the
    least such triple in lexicographic order. */
module RegionPattern {
  import opened TextUtil

  /** A digit of `\d`, restricted to `0`-`9`: the other Unicode decimal
      digits that `\d` matches on a `str` are not modelled. */
  predicate IsDigit(c: char) {
    '0' <= c <= '9'
  }

  /** Two backquotes at `p`, as the test `s[p:p + 2] == '``'`. */
  predicate TicksAt(s: string, p: int) {
    0 <= p && p + 1 < |s| && s[p] == '`' && s[p + 1] == '`'
  }

  /** A `;` at `k`. */
  predicate SemiAt(s: string, k: int) {
    0 <= k < |s| && s[k] == ';'
  }

  /** `s[a..b]` is all digits. */
  predicate AllDigits(s: string, a: nat, b: nat) {
    a <= b <= |s| && forall k :: a <= k < b ==> IsDigit(s[k])
  }

  /** Lexicographic order on match positions: the order in which the
      engine tries them. */
  predicate Before(x: (nat, nat, nat), y: (nat, nat, nat)) {
    x.0 < y.0 || (x.0 == y.0 && (x.1 < y.1 || (x.1 == y.1 && x.2 <= y.2)))
  }

  /** The pattern matches at `p` with the positions `k1`, `k2` and `d`. */
  predicate RegionAt(s: string, p: nat, k1: nat, k2: nat, d: nat) {
    TicksAt(s, p) && p + 2 <= k1 && k1 + 2 <= k2 && k2 + 1 < d &&
    SemiAt(s, k1) && SemiAt(s, k2) &&
    AllDigits(s, k2 + 1, d) && TicksAt(s, d)
  }

  /** The lazy `(\d+?)``` at `pos`: the first `d` past the digit at `pos`
      such that digits run from `pos` to `d` and backquotes follow, or -1. */
  function DigitsEnd(s: string, pos: nat): (r: int)
    ensures r == -1 || (pos < r && TicksAt(s, r))
    decreases |s| - pos
  {
    if pos >= |s| || !IsDigit(s[pos]) then -1
    else if TicksAt(s, pos + 1) then pos + 1
    else DigitsEnd(s, pos + 1)
  }

  /** What the digit scanner stops at is preceded by digits only. */
  lemma {:induction false} DigitsEndDigits(s: string, pos: nat)
    requires DigitsEnd(s, pos) >= 0
    ensures AllDigits(s, pos, DigitsEnd(s, pos))
    decreases |s| - pos
  {
    if !TicksAt(s, pos + 1) {
      DigitsEndDigits(s, pos + 1);
    }
  }

  /** The lazy `(.+?);` followed by the digits: the first `;` at or after
      `from` from which the digits and backquotes can follow. */
  function NameEnd(s: string, from: nat): (r: Option<(nat, nat)>)
    ensures r.Some? ==> from <= r.value.0 && SemiAt(s, r.value.0) &&
                        r.value.1 == DigitsEnd(s, r.value.0 + 1) && r.value.1 >= 0
    decreases |s| - from
  {
    if from >= |s| then None
    else if SemiAt(s, from) && DigitsEnd(s, from + 1) >= 0 then Some((from, DigitsEnd(s, from + 1)))
    else NameEnd(s, from + 1)
  }

  /** The lazy `(.*?);` followed by a name: the first `;` at or after
      `from` after which a name of at least one character can end. */
  function TextEnd(s: string, from: nat): (r: Option<(nat, nat, nat)>)
    ensures r.Some? ==> from <= r.value.0 && SemiAt(s, r.value.0) &&
                        r.value.0 + 2 <= r.value.1 && r.value.1 + 1 < r.value.2 && TicksAt(s, r.value.2)
    decreases |s| - from
  {
    if from >= |s| then None
    else if SemiAt(s, from) && NameEnd(s, from + 2).Some? then
      Some((from, NameEnd(s, from + 2).value.0, NameEnd(s, from + 2).value.1))
    else TextEnd(s, from + 1)
  }

  /** Where the text scanner stops, the name scanner's answer follows. */
  lemma {:induction false} TextEndName(s: string, from: nat)
    requires TextEnd(s, from).Some?
    ensures var m := TextEnd(s, from).value; NameEnd(s, m.0 + 2) == Some((m.1, m.2))
    decreases |s| - from
  {
    if SemiAt(s, from) && NameEnd(s, from + 2).Some? {
      TextEndHere(s, from);
    } else {
      assert TextEnd(s, from) == TextEnd(s, from + 1);
      TextEndName(s, from + 1);
    }
  }

  /** `TextEnd` stops at or before any `;` after which a name can end, and
      when it stops there it reports the name scanner's answer. */
  lemma {:induction false} TextEndFinds(s: string, from: nat, a: nat, b: nat, e: nat)
    requires from <= a && SemiAt(s, a) && NameEnd(s, a + 2) == Some((b, e))
    ensures TextEnd(s, from).Some? && Before(TextEnd(s, from).value, (a, b, e))
    decreases a - from
  {
    if SemiAt(s, from) && NameEnd(s, from + 2).Some? {
      TextEndHere(s, from);
    } else {
      assert TextEnd(s, from) == TextEnd(s, from + 1);
      TextEndFinds(s, from + 1, a, b, e);
    }
  }

  lemma TextEndHere(s: string, from: nat)
    requires SemiAt(s, from) && NameEnd(s, from + 2).Some?
    ensures TextEnd(s, from) == Some((from, NameEnd(s, from + 2).value.0, NameEnd(s, from + 2).value.1))
  {
  }

  /** The match the engine reports at `p` (an anchored attempt), if any. */
  function MatchAt(s: string, p: nat): Option<(nat, nat, nat)> {
    if TicksAt(s, p) then TextEnd(s, p + 2) else None
  }

  /** Whether the pattern matches at `q`. */
  predicate MatchesAt(s: string, q: nat) {
    MatchAt(s, q).Some?
  }

  /** `re.search` from `i`: the first position at or after `i` where the
      pattern matches. */
  function Search(s: string, i: nat): (r: Option<nat>)
    ensures r.Some? ==> i <= r.value < |s| && MatchesAt(s, r.value)
    decreases |s| - i
  {
    if i >= |s| then None
    else if MatchesAt(s, i) then Some(i)
    else Search(s, i + 1)
  }

  /** `re.search` reports the leftmost match, or none when there is none. */
  lemma {:induction false} SearchIsFirst(s: string, i: nat, q: nat)
    requires i <= q < |s| && MatchesAt(s, q)
    ensures Search(s, i).Some? && Search(s, i).value <= q
    decreases q - i
  {
    if !MatchesAt(s, i) {
      SearchIsFirst(s, i + 1, q);
    }
  }

  /** The value `int()` gives a run of the digits `0`-`9`. */
  function DigitsValue(ds: string): (r: nat)
    requires forall k :: 0 <= k < |ds| ==> IsDigit(ds[k])
  {
    if ds == [] then 0
    else
      assert IsDigit(ds[|ds| - 1]);
      DigitsValue(ds[..|ds| - 1]) * 10 + (ds[|ds| - 1] as int - '0' as int)
  }

  /** `re.sub(pattern, r'\1', s)`: each match replaced by its text group. */
  function Substitute(s: string, p: nat): string
    requires p <= |s|
    decreases |s| - p
  {
    if p == |s| then ""
    else match MatchAt(s, p)
      case Some((k1, k2, d)) => s[p + 2..k1] + Substitute(s, d + 2)
      case None => [s[p]] + Substitute(s, p + 1)
  }

  // ---------------------------------------------------------------------
  // The scanner is the pattern.

  /** A reported match is a match, and no match at `p` comes before it in
      the engine's order; when none is reported there is no match at all. */
  lemma MatchAtIsLeast(s: string, p: nat)
    ensures MatchAt(s, p).Some? ==>
              var (k1, k2, d) := MatchAt(s, p).value;
              RegionAt(s, p, k1, k2, d) &&
              forall a, b, e :: RegionAt(s, p, a, b, e) ==> Before((k1, k2, d), (a, b, e))
    ensures MatchAt(s, p).None? ==> forall a, b, e :: !RegionAt(s, p, a, b, e)
  {
    if MatchAt(s, p).Some? {
      MatchIsRegion(s, p);
    }
    if TicksAt(s, p) {
      forall a, b, e | RegionAt(s, p, a, b, e)
        ensures MatchAt(s, p).Some?
        ensures MatchAt(s, p).Some? ==> Before(MatchAt(s, p).value, (a, b, e))
      {
        RegionHasMatch(s, p, a, b, e);
      }
    }
  }

  /** A match at (a, b, e) leaves the scanners a triple no later than it. */
  lemma RegionHasMatch(s: string, p: nat, a: nat, b: nat, e: nat)
    requires RegionAt(s, p, a, b, e)
    ensures MatchAt(s, p).Some?
    ensures Before(MatchAt(s, p).value, (a, b, e))
  {
    NameBound(s, a, b, e);
    var n := NameEnd(s, a + 2).value;
    TextEndFinds(s, p + 2, a, n.0, n.1);
    BeforeTransitive(TextEnd(s, p + 2).value, (a, n.0, n.1), (a, b, e));
  }

  lemma BeforeTransitive(x: (nat, nat, nat), y: (nat, nat, nat), z: (nat, nat, nat))
    requires Before(x, y) && Before(y, z)
    ensures Before(x, z)
  {
  }

  /** The name scanner from `a + 2` stops at or before (b, e). */
  lemma NameBound(s: string, a: nat, b: nat, e: nat)
    requires a + 2 <= b && SemiAt(s, b) && b + 1 < e && AllDigits(s, b + 1, e) && TicksAt(s, e)
    ensures NameEnd(s, a + 2).Some?
    ensures NameEnd(s, a + 2).value.0 < b || (NameEnd(s, a + 2).value.0 == b && NameEnd(s, a + 2).value.1 <= e)
  {
    DigitsBound(s, b + 1, e);
    NameEndFinds(s, a + 2, b, e);
  }

  /** `NameEnd` stops at or before any `;` after which digits end at `e`. */
  lemma {:induction false} NameEndFinds(s: string, from: nat, b: nat, e: nat)
    requires from <= b && SemiAt(s, b) && 0 <= DigitsEnd(s, b + 1) <= e
    ensures NameEnd(s, from).Some?
    ensures NameEnd(s, from).value.0 < b || (NameEnd(s, from).value.0 == b && NameEnd(s, from).value.1 <= e)
    decreases b - from
  {
    if !(SemiAt(s, from) && DigitsEnd(s, from + 1) >= 0) {
      NameEndFinds(s, from + 1, b, e);
      assert NameEnd(s, from) == NameEnd(s, from + 1);
    }
  }

  /** The digit scanner from `pos` stops at or before `e`. */
  lemma {:induction false} DigitsBound(s: string, pos: nat, e: nat)
    requires pos < e && AllDigits(s, pos, e) && TicksAt(s, e)
    ensures 0 <= DigitsEnd(s, pos) <= e
    decreases e - pos
  {
    assert IsDigit(s[pos]);
    if !TicksAt(s, pos + 1) {
      DigitsBound(s, pos + 1, e);
    }
  }

  /** A region starting later starts at any earlier pair of backquotes too:
      its text group simply grows. */
  lemma RegionFromEarlier(s: string, i: nat, q: nat, k1: nat, k2: nat, d: nat)
    requires TicksAt(s, i) && i <= q && RegionAt(s, q, k1, k2, d)
    ensures RegionAt(s, i, k1, k2, d)
  {
  }

  /** So `re.search` from a pair of backquotes finds its match there or
      nowhere. */
  lemma SearchAtTicks(s: string, i: nat)
    requires TicksAt(s, i) && Search(s, i).Some?
    ensures Search(s, i) == Some(i)
  {
    var q := Search(s, i).value;
    MatchAtIsLeast(s, q);
    var m := MatchAt(s, q).value;
    RegionFromEarlier(s, i, q, m.0, m.1, m.2);
    RegionHasMatch(s, i, m.0, m.1, m.2);
  }

  /** A reported match is a match. */
  lemma MatchIsRegion(s: string, p: nat)
    requires MatchAt(s, p).Some?
    ensures var m := MatchAt(s, p).value; RegionAt(s, p, m.0, m.1, m.2)
  {
    var m := MatchAt(s, p).value;
    TextEndName(s, p + 2);
    DigitsEndDigits(s, m.1 + 1);
  }
}
