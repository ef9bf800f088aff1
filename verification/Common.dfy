/** Types and sequence facts that several components share. */
module Common {

  datatype Option<+T> = None | Some(value: T)

  /** A C++ string is a text of bytes: every character is below U+0100. */
  predicate IsBytes(s: string) {
    forall c | c in s :: c as int < 256
  }

  function Min(a: int, b: int): int {
    if a <= b then a else b
  }

  function Max(a: int, b: int): int {
    if a >= b then a else b
  }

  lemma SliceOfSlice<T>(s: seq<T>, a: nat, b: nat, i: nat, j: nat)
    requires a <= b <= |s| && i <= j <= b - a
    ensures s[a..b][i..j] == s[a + i..a + j]
  {
    var x, y := s[a..b][i..j], s[a + i..a + j];
    assert |x| == |y|;
    assert forall k | 0 <= k < |x| :: x[k] == s[a..b][i + k] == y[k];
  }

  lemma ConcatAssociative<T>(a: seq<T>, b: seq<T>, c: seq<T>)
    ensures (a + b) + c == a + (b + c)
  {
  }

  /** The elements that `keep` accepts, in their order. */
  function Filter<T>(s: seq<T>, keep: T -> bool): seq<T> {
    if s == [] then []
    else
      var last := |s| - 1;
      Filter(s[..last], keep) + (if keep(s[last]) then [s[last]] else [])
  }

  lemma {:induction false} FilterMembers<T>(s: seq<T>, keep: T -> bool)
    ensures forall e :: e in Filter(s, keep) <==> e in s && keep(e)
    ensures |Filter(s, keep)| <= |s|
  {
    if s != [] {
      var last := |s| - 1;
      FilterMembers(s[..last], keep);
      assert forall e :: e in s <==> e in s[..last] || e == s[last];
    }
  }

  lemma {:induction false} FilterAll<T>(s: seq<T>, keep: T -> bool)
    requires forall e | e in s :: keep(e)
    ensures Filter(s, keep) == s
  {
    if s != [] {
      var last := |s| - 1;
      FilterAll(s[..last], keep);
      assert s[..last] + [s[last]] == s;
    }
  }

  lemma {:induction false} FilterConcat<T>(s: seq<T>, t: seq<T>, keep: T -> bool)
    ensures Filter(s + t, keep) == Filter(s, keep) + Filter(t, keep)
  {
    if t == [] {
      assert s + t == s;
    } else {
      var last := |t| - 1;
      FilterConcat(s, t[..last], keep);
      assert (s + t)[..|s| + last] == s + t[..last];
    }
  }

  /** The first occurrence of a separator splits a text in one way only. */
  lemma SplitUnique<T>(a: seq<T>, x: seq<T>, b: seq<T>, y: seq<T>, sep: T)
    requires sep !in a && sep !in b
    requires a + [sep] + x == b + [sep] + y
    ensures a == b && x == y
  {
    var s, t := a + [sep] + x, b + [sep] + y;
    assert s[|a|] == sep && t[|b|] == sep;
    assert forall k | 0 <= k < |a| :: s[k] == a[k];
    assert forall k | 0 <= k < |b| :: t[k] == b[k];
    assert |a| == |b|;
    assert s[..|a|] == a && t[..|b|] == b;
    assert s[|a| + 1..] == x && t[|b| + 1..] == y;
  }

  /** And so does the last one. */
  lemma SplitUniqueLast<T>(a: seq<T>, x: seq<T>, b: seq<T>, y: seq<T>, sep: T)
    requires sep !in x && sep !in y
    requires a + [sep] + x == b + [sep] + y
    ensures a == b && x == y
  {
    var s, t := a + [sep] + x, b + [sep] + y;
    assert s[|a|] == sep && t[|b|] == sep;
    assert forall k | |a| < k < |s| :: s[k] == x[k - |a| - 1];
    assert forall k | |b| < k < |t| :: t[k] == y[k - |b| - 1];
    assert |a| == |b|;
    assert s[..|a|] == a && t[..|b|] == b;
    assert s[|a| + 1..] == x && t[|b| + 1..] == y;
  }
}
