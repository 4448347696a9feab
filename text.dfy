/** The few operations of std::string / std::string_view that the core
    relies on: `find`, `rfind` (of a character and of a substring with a
    start position), `substr` and `replace`.  Strings are `seq<char>`. */
module Text {
  import opened Wrappers

  /** `t` occurs in `s` starting at index `i`. */
  predicate OccursAt(s: string, t: string, i: nat)
  {
    i + |t| <= |s| && s[i..i + |t|] == t
  }

  predicate Contains(s: string, t: string)
  {
    exists i: nat | i <= |s| :: OccursAt(s, t, i)
  }

  /** `s.find(t, from)`: the leftmost occurrence of `t` at or after `from`. */
  function FindFrom(s: string, t: string, from: nat): (r: Option<nat>)
    ensures r.Some? ==> from <= r.value && OccursAt(s, t, r.value)
    ensures r.Some? ==> forall j: nat :: from <= j < r.value ==> !OccursAt(s, t, j)
    ensures r.None? ==> forall j: nat :: from <= j ==> !OccursAt(s, t, j)
    decreases |s| - from
  {
    if from + |t| > |s| then None
    else if s[from..from + |t|] == t then Some(from)
    else FindFrom(s, t, from + 1)
  }

  /** `s.find(t)`: the leftmost occurrence of `t` in `s`. */
  function Find(s: string, t: string): (r: Option<nat>)
    ensures r.Some? ==> OccursAt(s, t, r.value) && forall j: nat :: j < r.value ==> !OccursAt(s, t, j)
    ensures r.None? <==> !Contains(s, t)
  {
    FindFrom(s, t, 0)
  }

  /** `s.rfind(c)`: the index of the last occurrence of character `c`. */
  function LastIndexOf(s: string, c: char): (r: Option<nat>)
    ensures r.Some? ==> r.value < |s| && s[r.value] == c
    ensures r.Some? ==> forall j :: r.value < j < |s| ==> s[j] != c
    ensures r.None? ==> forall j :: 0 <= j < |s| ==> s[j] != c
  {
    if |s| == 0 then None
    else if s[|s| - 1] == c then Some(|s| - 1)
    else LastIndexOf(s[..|s| - 1], c)
  }

  /** Helper of RFind: the last occurrence of `t` starting at or before `i`. */
  function RFindAt(s: string, t: string, i: nat): (r: Option<nat>)
    requires i + |t| <= |s|
    ensures r.Some? ==> r.value <= i && OccursAt(s, t, r.value)
    ensures r.Some? ==> forall j: nat :: r.value < j <= i ==> !OccursAt(s, t, j)
    ensures r.None? ==> forall j: nat :: j <= i ==> !OccursAt(s, t, j)
  {
    if s[i..i + |t|] == t then Some(i)
    else if i == 0 then None
    else RFindAt(s, t, i - 1)
  }

  /** `s.rfind(t, pos)`: the last occurrence of `t` that does not begin after `pos`. */
  function RFind(s: string, t: string, pos: nat): (r: Option<nat>)
    ensures r.Some? ==> r.value <= pos && OccursAt(s, t, r.value)
    ensures r.Some? ==> forall j: nat :: r.value < j <= pos ==> !OccursAt(s, t, j)
    ensures r.None? ==> forall j: nat :: j <= pos ==> !OccursAt(s, t, j)
  {
    if |t| > |s| then None
    else RFindAt(s, t, if pos + |t| <= |s| then pos else |s| - |t|)
  }

  /** `s.replace(pos, len, m)` for a range that lies inside `s`. */
  function Replace(s: string, pos: nat, len: nat, m: string): (r: string)
    requires pos + len <= |s|
    ensures |r| == |s| - len + |m|
    ensures r[..pos] == s[..pos] && r[pos..pos + |m|] == m && r[pos + |m|..] == s[pos + len..]
  {
    s[..pos] + m + s[pos + len..]
  }

  /** Number of occurrences of the character `c` in `s`. */
  function CountChar(c: char, s: string): nat
  {
    if |s| == 0 then 0
    else CountChar(c, s[..|s| - 1]) + (if s[|s| - 1] == c then 1 else 0)
  }

  lemma {:induction false} CountCharAppend(c: char, a: string, b: string)
    ensures CountChar(c, a + b) == CountChar(c, a) + CountChar(c, b)
    decreases |b|
  {
    if |b| == 0 {
      assert a + b == a;
    } else {
      assert (a + b)[..|a + b| - 1] == a + b[..|b| - 1];
      CountCharAppend(c, a, b[..|b| - 1]);
    }
  }

  lemma {:induction false} CountCharAbsent(c: char, s: string)
    requires c !in s
    ensures CountChar(c, s) == 0
    decreases |s|
  {
    if |s| > 0 {
      assert s[..|s| - 1] + [s[|s| - 1]] == s;
      CountCharAbsent(c, s[..|s| - 1]);
    }
  }
}
