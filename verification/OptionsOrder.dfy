/** The order of the options (access_options_less, src/access_options.cpp): the ids without the case of the ASCII
    letters, then the bytes. It is a strict total order, so a page can continue after an id. */
module OptionsOrder {
  import opened Common

  function AsciiLower(c: char): char {
    if 'A' <= c <= 'Z' then (c as int + 32) as char else c
  }

  function Lower(s: string): string {
    seq(|s|, i requires 0 <= i < |s| => AsciiLower(s[i]))
  }

  /** The same character, or the two cases of one ASCII letter. */
  predicate SameLetter(c: char, d: char) {
    c == d || ('A' <= c <= 'Z' && d as int == c as int + 32) || ('A' <= d <= 'Z' && c as int == d as int + 32)
  }

  /** The same text but for the case of the ASCII letters. */
  predicate SameLetters(a: string, b: string) {
    |a| == |b| && forall i | 0 <= i < |a| :: SameLetter(a[i], b[i])
  }

  lemma LowerMeaning(a: string, b: string)
    ensures Lower(a) == Lower(b) <==> SameLetters(a, b)
    ensures Lower(Lower(a)) == Lower(a)
    ensures forall c | c in Lower(a) :: !('A' <= c <= 'Z')
  {
    if Lower(a) == Lower(b) {
      assert |a| == |Lower(a)| == |Lower(b)| == |b|;
      forall i | 0 <= i < |a| ensures SameLetter(a[i], b[i]) {
        assert Lower(a)[i] == Lower(b)[i];
      }
    }
  }

  /** The order of a dictionary: a prefix comes first. */
  predicate LexLess(a: string, b: string) {
    b != [] && (a == [] || a[0] < b[0] || (a[0] == b[0] && LexLess(a[1..], b[1..])))
  }

  predicate Less(a: string, b: string) {
    LexLess(Lower(a), Lower(b)) || (Lower(a) == Lower(b) && LexLess(a, b))
  }

  lemma {:induction false} LexIrreflexive(a: string)
    ensures !LexLess(a, a)
  {
    if a != [] {
      LexIrreflexive(a[1..]);
    }
  }

  lemma {:induction false} LexTransitive(a: string, b: string, c: string)
    requires LexLess(a, b) && LexLess(b, c)
    ensures LexLess(a, c)
  {
    if a != [] && a[0] == b[0] == c[0] {
      LexTransitive(a[1..], b[1..], c[1..]);
    }
  }

  lemma {:induction false} LexTotal(a: string, b: string)
    ensures a == b || LexLess(a, b) || LexLess(b, a)
  {
    if a != [] && b != [] && a[0] == b[0] {
      LexTotal(a[1..], b[1..]);
      assert a == [a[0]] + a[1..] && b == [b[0]] + b[1..];
    }
  }

  /** No id comes before itself, the order is transitive, and of two different ids one comes first. */
  lemma LessIsStrictTotal(a: string, b: string, c: string)
    ensures !Less(a, a)
    ensures Less(a, b) && Less(b, c) ==> Less(a, c)
    ensures a == b || Less(a, b) || Less(b, a)
    ensures !(Less(a, b) && Less(b, a))
  {
    hide LexLess, Lower;
    LexIrreflexive(a);
    LexIrreflexive(Lower(a));
    LexTotal(a, b);
    LexTotal(Lower(a), Lower(b));
    if Less(a, b) && Less(b, c) {
      if LexLess(Lower(a), Lower(b)) && LexLess(Lower(b), Lower(c)) {
        LexTransitive(Lower(a), Lower(b), Lower(c));
      }
      if LexLess(a, b) && LexLess(b, c) {
        LexTransitive(a, b, c);
      }
    }
    if Less(a, b) && Less(b, a) {
      if LexLess(Lower(a), Lower(b)) && LexLess(Lower(b), Lower(a)) {
        LexTransitive(Lower(a), Lower(b), Lower(a));
      }
      if LexLess(a, b) && LexLess(b, a) {
        LexTransitive(a, b, a);
      }
    }
  }

  /** The first difference decides. */
  lemma {:induction false} LexAtDifference(a: string, b: string, i: nat)
    requires i < |a| && i < |b| && a[..i] == b[..i] && a[i] != b[i]
    ensures LexLess(a, b) <==> a[i] < b[i]
  {
    if i > 0 {
      assert a[0] == a[..i][0] == b[..i][0] == b[0];
      assert a[1..][..i - 1] == a[..i][1..] && b[1..][..i - 1] == b[..i][1..];
      LexAtDifference(a[1..], b[1..], i - 1);
    }
  }

  lemma {:induction false} LexOfPrefix(a: string, b: string)
    requires a[..Min(|a|, |b|)] == b[..Min(|a|, |b|)] && |a| != |b|
    ensures LexLess(a, b) <==> |a| < |b|
  {
    var n := Min(|a|, |b|);
    if n > 0 {
      assert a[0] == a[..n][0] == b[..n][0] == b[0];
      assert a[1..][..n - 1] == a[..n][1..] && b[1..][..n - 1] == b[..n][1..];
      LexOfPrefix(a[1..], b[1..]);
    }
  }

  /** The first i characters are the same but for the case, and the next one decides. */
  predicate FirstDifferent(a: string, b: string, i: nat) {
    && i <= |a| && i < |b| && SameLetters(a[..i], b[..i])
    && (i == |a| || AsciiLower(a[i]) < AsciiLower(b[i]))
  }

  lemma {:induction false} LexHasADifference(a: string, b: string) returns (i: nat)
    requires LexLess(a, b)
    ensures i <= |a| && i < |b| && a[..i] == b[..i] && (i == |a| || a[i] < b[i])
  {
    i := 0;
    if a != [] && a[0] == b[0] {
      i := LexHasADifference(a[1..], b[1..]);
      assert a[..i + 1] == [a[0]] + a[1..][..i] && b[..i + 1] == [b[0]] + b[1..][..i];
      i := i + 1;
    }
  }

  /** Of two ids that are not the same in small letters, one comes before the other exactly when it is a first part of
      it, or the first character that is not the same is the lower one. */
  lemma LessMeaning(a: string, b: string)
    requires !SameLetters(a, b)
    ensures Less(a, b) <==> exists i: nat :: FirstDifferent(a, b, i)
  {
    LowerMeaning(a, b);
    if Less(a, b) {
      var i := LexHasADifference(Lower(a), Lower(b));
      LowerMeaning(a[..i], b[..i]);
      assert Lower(a[..i]) == Lower(a)[..i] && Lower(b[..i]) == Lower(b)[..i];
      assert FirstDifferent(a, b, i);
    }
    if i: nat :| FirstDifferent(a, b, i) {
      LowerMeaning(a[..i], b[..i]);
      assert Lower(a[..i]) == Lower(a)[..i] && Lower(b[..i]) == Lower(b)[..i];
      if i == |a| {
        LexOfPrefix(Lower(a), Lower(b));
      } else {
        LexAtDifference(Lower(a), Lower(b), i);
      }
    }
  }

  method ComesBefore(a: string, b: string) returns (less: bool)
    ensures less == Less(a, b)
  {
    hide LexLess;
    var n := Min(|a|, |b|);
    var i := 0;
    while i < n && AsciiLower(a[i]) == AsciiLower(b[i])
      invariant i <= n
      invariant Lower(a)[..i] == Lower(b)[..i]
    {
      assert Lower(a)[..i + 1] == Lower(a)[..i] + [AsciiLower(a[i])];
      assert Lower(b)[..i + 1] == Lower(b)[..i] + [AsciiLower(b[i])];
      i := i + 1;
    }
    if i < n {
      LexAtDifference(Lower(a), Lower(b), i);
      less := AsciiLower(a[i]) < AsciiLower(b[i]);
    } else if |a| != |b| {
      LexOfPrefix(Lower(a), Lower(b));
      less := |a| < |b|;
    } else {
      assert Lower(a) == Lower(b) by {
        assert Lower(a)[..n] == Lower(a) && Lower(b)[..n] == Lower(b);
      }
      LexIrreflexive(Lower(a));
      less := BytesLess(a, b);
    }
  }

  /** The comparison of two std::string. */
  predicate BytesLess(a: string, b: string) {
    LexLess(a, b)
  }
}
