/** Version strings and their order. */
module Versions {

  /** Go's `strings.Split` on one character. */
  function Split(s: string, sep: char): (parts: seq<string>)
    ensures parts != []
  {
    if s == "" then [""]
    else
      var rest := Split(s[1..], sep);
      if s[0] == sep then [""] + rest else [[s[0]] + rest[0]] + rest[1..]
  }

  function Join(parts: seq<string>, sep: char): string
    requires parts != []
  {
    if |parts| == 1 then parts[0] else parts[0] + [sep] + Join(parts[1..], sep)
  }

  /** The parts joined by the separator give the string back, and none of them holds it. */
  lemma {:induction false} SplitMeans(s: string, sep: char)
    ensures Join(Split(s, sep), sep) == s && forall i :: 0 <= i < |Split(s, sep)| ==> sep !in Split(s, sep)[i]
  {
    if s != "" {
      SplitMeans(s[1..], sep);
      var rest, parts := Split(s[1..], sep), Split(s, sep);
      assert s == [s[0]] + s[1..];
      if s[0] == sep {
        assert parts[1..] == rest;
      } else {
        assert parts[1..] == rest[1..];
      }
    }
  }

  /** Component `i` of a version, zero past its end; `num` is what scanning a decimal from a part gives. */
  function Part(num: string -> int, parts: seq<string>, i: nat): int {
    if i < |parts| then num(parts[i]) else 0
  }

  ghost predicate SameBefore(num: string -> int, p: seq<string>, q: seq<string>, n: nat) {
    forall i :: 0 <= i < n ==> Part(num, p, i) == Part(num, q, i)
  }

  /** The component-wise order on versions of any number of components: 1, 0 or -1, decided by the first difference. */
  ghost predicate Decides(num: string -> int, p: seq<string>, q: seq<string>, r: int) {
    || (r == 0 && forall i: nat :: Part(num, p, i) == Part(num, q, i))
    || (r == 1 && exists i: nat :: Part(num, p, i) > Part(num, q, i) && SameBefore(num, p, q, i))
    || (r == -1 && exists i: nat :: Part(num, p, i) < Part(num, q, i) && SameBefore(num, p, q, i))
  }

  function CompareFrom(num: string -> int, p: seq<string>, q: seq<string>, i: nat): (r: int)
    requires SameBefore(num, p, q, i)
    ensures Decides(num, p, q, r)
    decreases |p| + |q| - i
  {
    if i >= |p| && i >= |q| then 0
    else if Part(num, p, i) > Part(num, q, i) then 1
    else if Part(num, p, i) < Part(num, q, i) then -1
    else CompareFrom(num, p, q, i + 1)
  }

  function Compare(num: string -> int, v: string, w: string): (r: int)
    ensures Decides(num, Split(v, '.'), Split(w, '.'), r)
  {
    CompareFrom(num, Split(v, '.'), Split(w, '.'), 0)
  }

  method CompareVersion(num: string -> int, v1: string, v2: string) returns (r: int)
    ensures r == Compare(num, v1, v2)
  {
    var parts1, parts2 := Split(v1, '.'), Split(v2, '.');
    var maxLen := |parts1|;
    if |parts2| > maxLen { maxLen := |parts2|; }
    for i := 0 to maxLen
      invariant SameBefore(num, parts1, parts2, i)
      invariant CompareFrom(num, parts1, parts2, i) == Compare(num, v1, v2)
    {
      var p1, p2 := 0, 0;
      if i < |parts1| { p1 := num(parts1[i]); }
      if i < |parts2| { p2 := num(parts2[i]); }
      if p1 > p2 { return 1; }
      if p1 < p2 { return -1; }
    }
    return 0;
  }

  /** The order says the same thing only once: there is one deciding value. */
  lemma DecidesOnce(num: string -> int, p: seq<string>, q: seq<string>, r: int, s: int)
    requires Decides(num, p, q, r) && Decides(num, p, q, s)
    ensures r == s
  {
  }

  lemma CompareReflexive(num: string -> int, v: string)
    ensures Compare(num, v, v) == 0
  {
    DecidesOnce(num, Split(v, '.'), Split(v, '.'), Compare(num, v, v), 0);
  }

  /** Swapping the arguments flips the sign. */
  lemma CompareAntisymmetric(num: string -> int, v: string, w: string)
    ensures Compare(num, v, w) == -Compare(num, w, v)
  {
    var p, q := Split(v, '.'), Split(w, '.');
    var r := Compare(num, w, v);
    assert Decides(num, p, q, -r) by {
      if r == 1 {
        var i: nat :| Part(num, q, i) > Part(num, p, i) && SameBefore(num, q, p, i);
        assert Part(num, p, i) < Part(num, q, i) && SameBefore(num, p, q, i);
      } else if r == -1 {
        var i: nat :| Part(num, q, i) < Part(num, p, i) && SameBefore(num, q, p, i);
        assert Part(num, p, i) > Part(num, q, i) && SameBefore(num, p, q, i);
      }
    }
    DecidesOnce(num, p, q, Compare(num, v, w), -r);
  }

  /** Not above, then not above: not above. With the sign rule this makes the order a total preorder. */
  lemma CompareTransitive(num: string -> int, u: string, v: string, w: string)
    requires Compare(num, u, v) <= 0 && Compare(num, v, w) <= 0
    ensures Compare(num, u, w) <= 0
    ensures Compare(num, u, w) == 0 ==> Compare(num, u, v) == 0 && Compare(num, v, w) == 0
  {
    var p, q, r := Split(u, '.'), Split(v, '.'), Split(w, '.');
    var a, b := Compare(num, u, v), Compare(num, v, w);
    var c := if a == 0 && b == 0 then 0 else -1;
    assert Decides(num, p, r, c) by {
      if a == -1 {
        var i: nat :| Part(num, p, i) < Part(num, q, i) && SameBefore(num, p, q, i);
        if b == -1 {
          var j: nat :| Part(num, q, j) < Part(num, r, j) && SameBefore(num, q, r, j);
          var k: nat := if i < j then i else j;
          assert Part(num, p, k) < Part(num, r, k) && SameBefore(num, p, r, k);
        } else {
          assert Part(num, p, i) < Part(num, r, i) && SameBefore(num, p, r, i);
        }
      } else if b == -1 {
        var j: nat :| Part(num, q, j) < Part(num, r, j) && SameBefore(num, q, r, j);
        assert Part(num, p, j) < Part(num, r, j) && SameBefore(num, p, r, j);
      }
    }
    DecidesOnce(num, p, r, Compare(num, u, w), c);
  }

  lemma {:induction false} SplitWhole(t: string, sep: char)
    requires sep !in t
    ensures Split(t, sep) == [t]
  {
    if t != "" {
      SplitWhole(t[1..], sep);
      assert t[0] in t && [t[0]] + t[1..] == t;
    }
  }

  lemma {:induction false} SplitAppends(s: string, sep: char, t: string)
    requires sep !in t
    ensures Split(s + [sep] + t, sep) == Split(s, sep) + [t]
  {
    if s == "" {
      assert s + [sep] + t == [sep] + t && ([sep] + t)[1..] == t;
      SplitWhole(t, sep);
    } else {
      SplitAppends(s[1..], sep, t);
      assert (s + [sep] + t)[1..] == s[1..] + [sep] + t;
      var rest := Split(s[1..], sep);
      assert (rest + [t])[0] == rest[0] && (rest + [t])[1..] == rest[1..] + [t];
    }
  }

  /** A missing component counts as zero: a zero at the end makes no difference, and anything above it does. */
  lemma LastComponent(num: string -> int, v: string, t: string)
    requires '.' !in t
    ensures Compare(num, v + "." + t, v) == if num(t) > 0 then 1 else if num(t) < 0 then -1 else 0
  {
    SplitAppends(v, '.', t);
    assert v + "." + t == v + ['.'] + t;
    var p, q := Split(v + "." + t, '.'), Split(v, '.');
    var n := |q|;
    assert SameBefore(num, p, q, n) && Part(num, p, n) == num(t) && Part(num, q, n) == 0;
    assert forall i: nat :: i != n ==> Part(num, p, i) == Part(num, q, i);
    DecidesOnce(num, p, q, Compare(num, v + "." + t, v), if num(t) > 0 then 1 else if num(t) < 0 then -1 else 0);
  }
}
