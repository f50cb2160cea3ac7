/**
 * Strings as the program builds them: `join` and `split` with the semantics
 * shared by JavaScript's `Array.prototype.join` / `String.prototype.split`
 * and Python's `str.join` / `str.split(sep)`, decimal rendering of integers
 * (template literals such as `Col ${i + 1}`), and Python's `str.endswith`.
 */
module Text {

  /** `parts.join(sep)`: the parts with `sep` between neighbours, none after the last. */
  function Join(parts: seq<string>, sep: string): string
  {
    if |parts| == 0 then ""
    else if |parts| == 1 then parts[0]
    else parts[0] + sep + Join(parts[1..], sep)
  }

  /**
   * `s.split(c)` for a one-character separator: the maximal pieces between
   * occurrences of `c`. There is always at least one piece (`"".split(c)` is
   * `[""]`), and no piece contains the separator.
   */
  function Split(s: string, c: char): (pieces: seq<string>)
    ensures |pieces| >= 1
    ensures forall i :: 0 <= i < |pieces| ==> c !in pieces[i]
  {
    if |s| == 0 then [""]
    else
      var rest := Split(s[1..], c);
      if s[0] == c then [""] + rest
      else [[s[0]] + rest[0]] + rest[1..]
  }

  /** Python's `s.endswith(suffix)`. */
  predicate EndsWith(s: string, suffix: string)
  {
    |suffix| <= |s| && s[|s| - |suffix|..] == suffix
  }

  /** The pieces of `s` that are not empty, in order (`[x for x in xs if x]`). */
  function NonEmpty(xs: seq<string>): (r: seq<string>)
    ensures forall i :: 0 <= i < |r| ==> r[i] != "" && r[i] in xs
    ensures forall x :: x in xs && x != "" ==> x in r
  {
    if |xs| == 0 then []
    else if xs[0] == "" then NonEmpty(xs[1..])
    else [xs[0]] + NonEmpty(xs[1..])
  }

  lemma {:induction false} NonEmptyIdentity(xs: seq<string>)
    requires "" !in xs
    ensures NonEmpty(xs) == xs
  {
    if |xs| > 0 {
      NonEmptyIdentity(xs[1..]);
    }
  }

  /** Joining the pieces of a split puts back every separator: the split loses nothing. */
  lemma {:induction false} JoinSplit(s: string, c: char)
    ensures Join(Split(s, c), [c]) == s
  {
    if |s| > 0 {
      var rest := Split(s[1..], c);
      JoinSplit(s[1..], c);
      if s[0] == c {
        assert Split(s, c) == [""] + rest;
        assert ([""] + rest)[1..] == rest;
        assert s == [c] + s[1..];
      } else {
        var pieces := [[s[0]] + rest[0]] + rest[1..];
        assert Split(s, c) == pieces;
        if |rest| == 1 {
          assert pieces == [[s[0]] + rest[0]];
          assert s == [s[0]] + s[1..];
        } else {
          assert pieces[1..] == rest[1..];
          assert Join(rest, [c]) == rest[0] + [c] + Join(rest[1..], [c]);
          assert s == [s[0]] + s[1..];
        }
      }
    }
  }

  /** Splitting a prefix that holds no separator glues it onto the first piece of the rest. */
  lemma {:induction false} SplitGlue(p: string, t: string, c: char)
    requires c !in p
    ensures Split(p + t, c) == [p + Split(t, c)[0]] + Split(t, c)[1..]
  {
    if |p| == 0 {
      assert p + t == t;
      var r := Split(t, c);
      assert p + r[0] == r[0];
      assert r == [r[0]] + r[1..];
    } else {
      assert (p + t)[1..] == p[1..] + t;
      assert c !in p[1..] by {
        forall i | 0 <= i < |p[1..]| ensures p[1..][i] != c {
          assert p[1..][i] == p[i + 1];
        }
      }
      SplitGlue(p[1..], t, c);
      var rt := Split(t, c);
      var r := Split(p[1..] + t, c);
      assert r[0] == p[1..] + rt[0] && r[1..] == rt[1..];
      assert (p + t)[0] == p[0] && p[0] != c;
      assert Split(p + t, c) == [[p[0]] + r[0]] + r[1..];
      assert [p[0]] + (p[1..] + rt[0]) == p + rt[0];
    }
  }

  /** The other direction: splitting a join recovers the parts, when no part holds the separator. */
  lemma {:induction false} SplitJoin(parts: seq<string>, c: char)
    requires |parts| >= 1
    requires forall i :: 0 <= i < |parts| ==> c !in parts[i]
    ensures Split(Join(parts, [c]), c) == parts
  {
    if |parts| == 1 {
      SplitGlue(parts[0], "", c);
      assert parts[0] + "" == parts[0];
    } else {
      var tail := Join(parts[1..], [c]);
      SplitJoin(parts[1..], c);
      SplitGlue(parts[0], [c] + tail, c);
      assert parts[0] + [c] + tail == parts[0] + ([c] + tail);
      assert Split([c] + tail, c) == [""] + Split(tail, c) by {
        assert ([c] + tail)[1..] == tail;
      }
      assert Join(parts, [c]) == parts[0] + ([c] + tail);
      assert Split([c] + tail, c)[0] == "";
      assert Split([c] + tail, c)[1..] == parts[1..];
      assert parts[0] + "" == parts[0];
      assert parts == [parts[0]] + parts[1..];
    }
  }

  /** A separator that no part contains occurs exactly once between each pair of neighbours. */
  lemma {:induction false} JoinSeparatorCount(parts: seq<string>, c: char)
    requires |parts| >= 1
    requires forall i :: 0 <= i < |parts| ==> c !in parts[i]
    ensures multiset(Join(parts, [c]))[c] == |parts| - 1
  {
    if |parts| > 1 {
      JoinSeparatorCount(parts[1..], c);
      assert multiset(parts[0])[c] == 0;
    } else {
      assert multiset(parts[0])[c] == 0;
    }
  }

  /** A character in neither the parts nor the separator is not in the join. */
  lemma {:induction false} JoinAvoids(parts: seq<string>, sep: string, d: char)
    requires d !in sep
    requires forall i :: 0 <= i < |parts| ==> d !in parts[i]
    ensures d !in Join(parts, sep)
  {
    if |parts| > 1 {
      JoinAvoids(parts[1..], sep, d);
    }
  }

  /** The decimal digit `d` as a character. */
  function DigitChar(d: nat): (ch: char)
    requires d < 10
    ensures '0' <= ch <= '9'
  {
    ('0' as int + d) as char
  }

  /** JavaScript's and Python's rendering of a natural number: decimal, no leading zeros. */
  function NatToString(n: nat): (s: string)
    ensures |s| >= 1
    ensures forall i :: 0 <= i < |s| ==> '0' <= s[i] <= '9'
  {
    if n < 10 then [DigitChar(n)] else NatToString(n / 10) + [DigitChar(n % 10)]
  }

  /** The value of a string of decimal digits; the inverse of NatToString. */
  function ParseNat(s: string): nat
    requires forall i :: 0 <= i < |s| ==> '0' <= s[i] <= '9'
  {
    if |s| == 0 then 0
    else ParseNat(s[..|s| - 1]) * 10 + (s[|s| - 1] as int - '0' as int)
  }

  lemma {:induction false} ParseNatToString(n: nat)
    ensures ParseNat(NatToString(n)) == n
  {
    var s := NatToString(n);
    if n >= 10 {
      ParseNatToString(n / 10);
      assert s[..|s| - 1] == NatToString(n / 10);
    }
  }

  /** Distinct numbers are rendered differently. */
  lemma NatToStringInjective(a: nat, b: nat)
    requires NatToString(a) == NatToString(b)
    ensures a == b
  {
    ParseNatToString(a);
    ParseNatToString(b);
  }

  /** Rendering of an integer: a minus sign before the magnitude when negative. */
  function IntToString(i: int): (s: string)
    ensures |s| >= 1
    ensures i < 0 <==> s[0] == '-'
  {
    if i < 0 then "-" + NatToString(-i) else NatToString(i)
  }

  /** Distinct integers are rendered differently. */
  lemma IntToStringInjective(a: int, b: int)
    requires IntToString(a) == IntToString(b)
    ensures a == b
  {
    if a < 0 {
      assert IntToString(a)[1..] == NatToString(-a);
      assert IntToString(b)[1..] == NatToString(-b);
      NatToStringInjective(-a, -b);
    } else {
      NatToStringInjective(a, b);
    }
  }

  /** Labels `prefix + (i + 1)` for `i` below `n`, as built by `Array.from({ length: n }, ...)`. */
  function NumberedLabels(prefix: string, n: nat): (labels: seq<string>)
    ensures |labels| == n
  {
    seq(n, i requires 0 <= i < n => prefix + NatToString(i + 1))
  }

  /** Numbered labels are pairwise distinct, and each one carries its own number. */
  lemma NumberedLabelsDistinct(prefix: string, n: nat)
    ensures forall i, j :: 0 <= i < j < n ==> NumberedLabels(prefix, n)[i] != NumberedLabels(prefix, n)[j]
    ensures forall i :: 0 <= i < n ==>
      |prefix| <= |NumberedLabels(prefix, n)[i]| &&
      NumberedLabels(prefix, n)[i][..|prefix|] == prefix &&
      NumberedLabels(prefix, n)[i][|prefix|..] == NatToString(i + 1)
  {
    var labels := NumberedLabels(prefix, n);
    forall i, j | 0 <= i < j < n ensures labels[i] != labels[j] {
      if labels[i] == labels[j] {
        assert labels[i][|prefix|..] == NatToString(i + 1);
        assert labels[j][|prefix|..] == NatToString(j + 1);
        NatToStringInjective(i + 1, j + 1);
      }
    }
  }
}
