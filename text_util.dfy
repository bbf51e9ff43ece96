/** String operations the checkers borrow from Python's built-in `str`,
    written out so that their edge cases (negative slice bounds, `find`
    returning -1, `' ' * n` for negative `n`) are those of the original. */
module TextUtil {

  datatype Result<+T, +E> = Ok(value: T) | Err(error: E)

  datatype Option<+T> = None | Some(value: T)

  /** `' ' * n`, which is empty for every `n <= 0`. */
  function Spaces(n: int): (r: string)
    ensures |r| == if n < 0 then 0 else n
    ensures forall k :: 0 <= k < |r| ==> r[k] == ' '
  {
    if n <= 0 then "" else Spaces(n - 1) + " "
  }

  /** `text + ' ' * (width - len(text))`: right-pads with spaces, never truncates. */
  function PadTo(text: string, width: int): (r: string)
    ensures |r| == if |text| < width then width else |text|
    ensures text <= r
    ensures forall k :: |text| <= k < |r| ==> r[k] == ' '
  {
    text + Spaces(width - |text|)
  }

  /** The `pad` helper of the checkers: width 80. */
  function Pad(text: string): (r: string)
    ensures |r| == if |text| < 80 then 80 else |text|
    ensures |text| >= 80 ==> r == text
  {
    PadTo(text, 80)
  }

  /** `s.replace(c, '')` for a one-character `c`. */
  function DeleteChar(s: string, c: char): (r: string)
    ensures c !in r
    ensures |r| == |s| - CountChar(s, c)
    ensures c !in s ==> r == s
  {
    if s == [] then []
    else if s[|s| - 1] == c then DeleteChar(s[..|s| - 1], c)
    else DeleteChar(s[..|s| - 1], c) + [s[|s| - 1]]
  }

  /** `s.count(c)` for a one-character `c`. */
  function CountChar(s: string, c: char): (r: nat)
    ensures r <= |s|
    ensures r == 0 <==> c !in s
  {
    if s == [] then 0
    else CountChar(s[..|s| - 1], c) + (if s[|s| - 1] == c then 1 else 0)
  }

  lemma {:induction false} CountCharAppend(s: string, t: string, c: char)
    ensures CountChar(s + t, c) == CountChar(s, c) + CountChar(t, c)
    decreases |t|
  {
    if t == [] {
      assert s + t == s;
    } else {
      assert (s + t)[..|s + t| - 1] == s + t[..|t| - 1];
      CountCharAppend(s, t[..|t| - 1], c);
    }
  }

  lemma {:induction false} DeleteCharAppend(s: string, t: string, c: char)
    ensures DeleteChar(s + t, c) == DeleteChar(s, c) + DeleteChar(t, c)
    decreases |t|
  {
    if t == [] {
      assert s + t == s;
    } else {
      assert (s + t)[..|s + t| - 1] == s + t[..|t| - 1];
      DeleteCharAppend(s, t[..|t| - 1], c);
    }
  }

  /** `s.find(c, start)`: the first index at or after `start` holding `c`, or -1. */
  function Find(s: string, c: char, start: nat): (r: int)
    ensures -1 <= r < |s|
    ensures r == -1 <==> forall k :: start <= k < |s| ==> s[k] != c
    ensures r >= 0 ==> start <= r && s[r] == c && forall k :: start <= k < r ==> s[k] != c
    decreases |s| - start
  {
    if start >= |s| then -1
    else if s[start] == c then start
    else Find(s, c, start + 1)
  }

  /** Python's normalisation of one slice bound against a length. */
  function SliceBound(x: int, n: nat): (r: nat)
    ensures r <= n
  {
    if x < 0 then (if x + n < 0 then 0 else x + n)
    else if x > n then n
    else x
  }

  /** `s[a:b]` with Python's rules: negative bounds count from the end,
      bounds are clamped, and an empty range gives the empty string. */
  function PySlice(s: string, a: int, b: int): (r: string)
    ensures var lo, hi := SliceBound(a, |s|), SliceBound(b, |s|);
            if lo < hi then r == s[lo..hi] else r == ""
  {
    var lo, hi := SliceBound(a, |s|), SliceBound(b, |s|);
    if lo < hi then s[lo..hi] else ""
  }

  /** `sep.join(values)`. */
  function Join(sep: string, values: seq<string>): (r: string)
    ensures values == [] ==> r == ""
    ensures |values| == 1 ==> r == values[0]
  {
    if values == [] then ""
    else if |values| == 1 then values[0]
    else Join(sep, values[..|values| - 1]) + sep + values[|values| - 1]
  }

  /** The characters for which Python's `str.isspace()` holds. */
  predicate IsSpace(c: char) {
    ('\t' <= c <= '\r') || ('\U{1c}' <= c <= ' ') || c == '\U{85}' || c == '\U{a0}' ||
    c == '\U{1680}' || ('\U{2000}' <= c <= '\U{200a}') || c == '\U{2028}' || c == '\U{2029}' ||
    c == '\U{202f}' || c == '\U{205f}' || c == '\U{3000}'
  }

  function StripLeft(s: string): (r: string)
    ensures |r| <= |s| && r == s[|s| - |r|..]
    ensures r != "" ==> !IsSpace(r[0])
    ensures forall k :: 0 <= k < |s| - |r| ==> IsSpace(s[k])
  {
    if s != "" && IsSpace(s[0]) then StripLeft(s[1..]) else s
  }

  function StripRight(s: string): (r: string)
    ensures r <= s
    ensures r != "" ==> !IsSpace(r[|r| - 1])
    ensures forall k :: |r| <= k < |s| ==> IsSpace(s[k])
  {
    if s != "" && IsSpace(s[|s| - 1]) then StripRight(s[..|s| - 1]) else s
  }

  /** `s.strip()`: drops leading and trailing whitespace. */
  function Strip(s: string): (r: string)
    ensures r == "" || (!IsSpace(r[0]) && !IsSpace(r[|r| - 1]))
  {
    StripRight(StripLeft(s))
  }

  /** What `strip` keeps: the slice of `s` that starts where the leading
      whitespace ends, with only whitespace before and after it. */
  lemma StripSlice(s: string)
    ensures var a, r := |s| - |StripLeft(s)|, Strip(s);
            a + |r| <= |s| && r == s[a..a + |r|] &&
            (forall k :: 0 <= k < a ==> IsSpace(s[k])) &&
            (forall k :: a + |r| <= k < |s| ==> IsSpace(s[k]))
  {
    var l := StripLeft(s);
    var a, r := |s| - |l|, StripRight(l);
    assert l == s[a..];
    forall k | a + |r| <= k < |s|
      ensures IsSpace(s[k])
    {
      assert s[k] == l[k - a];
    }
  }
}
