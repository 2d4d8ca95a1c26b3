/** Helpers shared by the whole model: an optional value, Python's
    `str.split` and `str.join` on a separator, ASCII `str.lower`, the
    substring test `sub in s`, Python's ordering of strings, a stable
    insertion sort and decimal rendering of integers. */
module Common {

  datatype Option<T> = None | Some(value: T) {
    /** `d.get(key, default)` once the lookup has produced this option. */
    function GetOr(default: T): T {
      if Some? then value else default
    }
  }

  predicate Distinct<T(==)>(s: seq<T>) {
    forall i, j :: 0 <= i < j < |s| ==> s[i] != s[j]
  }

  function Min(a: int, b: int): int { if a <= b then a else b }

  /** Regrouping a concatenation; called where a loop appends to a
      sequence so that the solver does not search for it. */
  lemma AppendAssoc<T>(a: seq<T>, b: seq<T>, c: seq<T>)
    ensures (a + b) + c == a + (b + c)
  {
  }

  // ---------------------------------------------------------------------
  // split / join

  /** Index of the last occurrence of `c` in `s`, or -1 when there is none. */
  function LastIndex(s: string, c: char): (k: int)
    ensures -1 <= k < |s|
    ensures k == -1 <==> c !in s
    ensures 0 <= k ==> s[k] == c
    ensures forall j :: k < j < |s| ==> s[j] != c
  {
    if |s| == 0 then -1
    else if s[|s| - 1] == c then |s| - 1
    else LastIndex(s[..|s| - 1], c)
  }

  /** Python's `s.split(sep)` for a one-character separator: the pieces
      between separators, never an empty list. */
  function Split(s: string, sep: char): (parts: seq<string>)
    ensures |parts| >= 1
    ensures forall i :: 0 <= i < |parts| ==> sep !in parts[i]
    decreases |s|
  {
    var k := LastIndex(s, sep);
    if k < 0 then [s] else Split(s[..k], sep) + [s[k + 1..]]
  }

  /** Python's `sep.join(parts)`. */
  function Join(parts: seq<string>, sep: string): string
  {
    if |parts| == 0 then ""
    else if |parts| == 1 then parts[0]
    else Join(parts[..|parts| - 1], sep) + sep + parts[|parts| - 1]
  }

  lemma {:induction false} JoinSplit(s: string, sep: char)
    ensures Join(Split(s, sep), [sep]) == s
    decreases |s|
  {
    var k := LastIndex(s, sep);
    if k >= 0 {
      var init := Split(s[..k], sep);
      JoinSplit(s[..k], sep);
      assert Split(s, sep) == init + [s[k + 1..]];
      assert (init + [s[k + 1..]])[..|init|] == init;
      assert s == s[..k] + [sep] + s[k + 1..];
    }
  }

  /** The last occurrence of `c` in `a + [c] + b` is the one between them
      when `b` holds none. */
  lemma LastIndexAt(a: string, c: char, b: string)
    requires c !in b
    ensures LastIndex(a + [c] + b, c) == |a|
  {
    var s := a + [c] + b;
    assert s[|a|] == c;
    assert s[|a| + 1..] == b;
  }

  lemma {:induction false} SplitJoin(parts: seq<string>, sep: char)
    requires |parts| >= 1
    requires forall i :: 0 <= i < |parts| ==> sep !in parts[i]
    ensures Split(Join(parts, [sep]), sep) == parts
  {
    if |parts| > 1 {
      var init := parts[..|parts| - 1];
      var last := parts[|parts| - 1];
      var head := Join(init, [sep]);
      var s := head + [sep] + last;
      assert Join(parts, [sep]) == s;
      LastIndexAt(head, sep, last);
      assert s[..|head|] == head;
      assert s[|head| + 1..] == last;
      SplitJoin(init, sep);
      assert parts == init + [last];
    }
  }

  /** `path.split('.')[-1]`: the last dot-separated segment of a path. */
  function LastSegment(path: string): string
  {
    var parts := Split(path, '.');
    parts[|parts| - 1]
  }

  /** `'.'.join(path.split('.')[:-1])`: the path without its last segment,
      "" for a one-segment path. */
  function ParentPath(path: string): string
  {
    var parts := Split(path, '.');
    Join(parts[..|parts| - 1], ".")
  }

  /** A path is its parent, a dot and its last segment; a one-segment path
      has the empty parent and is its own last segment. */
  lemma PathDecomposition(path: string)
    ensures '.' !in path ==> ParentPath(path) == "" && LastSegment(path) == path
    ensures '.' in path ==> path == ParentPath(path) + "." + LastSegment(path)
    ensures '.' in path ==> |ParentPath(path)| < |path| && path[..|ParentPath(path)|] == ParentPath(path)
    ensures '.' !in LastSegment(path)
  {
    var k := LastIndex(path, '.');
    if k >= 0 {
      JoinSplit(path[..k], '.');
      assert path == path[..k] + "." + path[k + 1..];
    }
  }

  // ---------------------------------------------------------------------
  // lower-casing and substring search

  function LowerChar(c: char): char
  {
    if 'A' <= c <= 'Z' then (c as int + 32) as char else c
  }

  /** Python's `s.lower()`, restricted to ASCII letters. */
  function Lower(s: string): (r: string)
    ensures |r| == |s|
    ensures forall i :: 0 <= i < |s| ==> r[i] == LowerChar(s[i])
  {
    seq(|s|, i requires 0 <= i < |s| => LowerChar(s[i]))
  }

  lemma LowerIdempotent(s: string)
    ensures Lower(Lower(s)) == Lower(s)
  {
    assert forall i :: 0 <= i < |s| ==> LowerChar(LowerChar(s[i])) == LowerChar(s[i]);
  }

  /** Python's `s.startswith(prefix)`. */
  predicate StartsWith(s: string, prefix: string)
  {
    |prefix| <= |s| && s[..|prefix|] == prefix
  }

  /** Python's `s.endswith(suffix)`. */
  predicate EndsWith(s: string, suffix: string)
  {
    |suffix| <= |s| && s[|s| - |suffix|..] == suffix
  }

  /** Python's `sub in s` on strings. */
  predicate Contains(s: string, sub: string)
    decreases |s|
  {
    StartsWith(s, sub) || (|s| > 0 && Contains(s[1..], sub))
  }

  /** `sub` occurs in `s` starting at position `i`. */
  predicate OccursAt(s: string, sub: string, i: int)
  {
    0 <= i <= |s| - |sub| && s[i..i + |sub|] == sub
  }

  /** `sub in s` holds exactly when `sub` occurs at some position of `s`. */
  lemma {:induction false} ContainsIff(s: string, sub: string)
    ensures Contains(s, sub) <==> exists i :: OccursAt(s, sub, i)
    decreases |s|
  {
    if StartsWith(s, sub) {
      assert OccursAt(s, sub, 0);
    } else if |s| > 0 {
      ContainsIff(s[1..], sub);
      if exists i :: OccursAt(s, sub, i) {
        var i :| OccursAt(s, sub, i);
        assert i != 0;
        assert OccursAt(s[1..], sub, i - 1);
      }
      if Contains(s[1..], sub) {
        var i :| OccursAt(s[1..], sub, i);
        assert OccursAt(s, sub, i + 1);
      }
    }
  }

  /** An occurrence inside a piece is an occurrence in any string built
      around that piece. */
  lemma OccursInside(a: string, b: string, c: string, sub: string, i: int)
    requires OccursAt(b, sub, i)
    ensures OccursAt(a + b + c, sub, |a| + i)
  {
    var s := a + b + c;
    assert s[|a| + i..|a| + i + |sub|] == b[i..i + |sub|];
  }

  /** Every piece of `sep.join(parts)` is a substring of it. */
  lemma {:induction false} JoinHoldsParts(parts: seq<string>, sep: string)
    ensures forall i :: 0 <= i < |parts| ==> Contains(Join(parts, sep), parts[i])
  {
    if |parts| == 1 {
      assert OccursAt(parts[0], parts[0], 0);
      ContainsIff(parts[0], parts[0]);
    } else if |parts| > 1 {
      var init := parts[..|parts| - 1];
      var last := parts[|parts| - 1];
      var head := Join(init, sep);
      var s := Join(parts, sep);
      assert s == head + sep + last;
      JoinHoldsParts(init, sep);
      forall i | 0 <= i < |parts| ensures Contains(s, parts[i]) {
        if i < |parts| - 1 {
          assert parts[i] == init[i];
          ContainsIff(head, parts[i]);
          var j :| OccursAt(head, parts[i], j);
          OccursInside([], head, sep + last, parts[i], j);
          assert [] + head + (sep + last) == s;
        } else {
          assert OccursAt(last, last, 0);
          OccursInside(head + sep, last, [], last, 0);
          assert head + sep + last + [] == s;
        }
        ContainsIff(s, parts[i]);
      }
    }
  }

  // ---------------------------------------------------------------------
  // Python's ordering of strings (code point by code point, a proper
  // prefix first)

  predicate LessEq(a: string, b: string)
    decreases |a|
  {
    |a| == 0 || (|b| > 0 && (a[0] < b[0] || (a[0] == b[0] && LessEq(a[1..], b[1..]))))
  }

  lemma {:induction false} LessEqTotal(a: string, b: string)
    ensures LessEq(a, b) || LessEq(b, a)
    decreases |a|
  {
    if |a| > 0 && |b| > 0 && a[0] == b[0] {
      LessEqTotal(a[1..], b[1..]);
    }
  }

  lemma {:induction false} LessEqTransitive(a: string, b: string, c: string)
    requires LessEq(a, b) && LessEq(b, c)
    ensures LessEq(a, c)
    decreases |a|
  {
    if |a| > 0 && a[0] == b[0] && b[0] == c[0] {
      LessEqTransitive(a[1..], b[1..], c[1..]);
    }
  }

  lemma {:induction false} LessEqAntisymmetric(a: string, b: string)
    requires LessEq(a, b) && LessEq(b, a)
    ensures a == b
    decreases |a|
  {
    if |a| > 0 {
      LessEqAntisymmetric(a[1..], b[1..]);
      assert a == [a[0]] + a[1..] && b == [b[0]] + b[1..];
    }
  }

  /** A string never sorts before one of its proper prefixes. */
  lemma {:induction false} PrefixSortsFirst(p: string, s: string)
    requires |p| < |s| && s[..|p|] == p
    ensures !LessEq(s, p)
    decreases |p|
  {
    if |p| > 0 {
      assert s[0] == p[0];
      assert s[1..][..|p[1..]|] == p[1..];
      PrefixSortsFirst(p[1..], s[1..]);
    }
  }

  // ---------------------------------------------------------------------
  // Stable insertion sort by a total preorder

  ghost predicate TotalPreorder<T(!new)>(leq: (T, T) -> bool)
  {
    && (forall a, b :: leq(a, b) || leq(b, a))
    && (forall a, b, c :: leq(a, b) && leq(b, c) ==> leq(a, c))
  }

  predicate SortedBy<T>(s: seq<T>, leq: (T, T) -> bool)
  {
    forall i, j :: 0 <= i < j < |s| ==> leq(s[i], s[j])
  }

  /** A sorted sequence stays sorted under a new head that sorts before
      each of its elements. */
  lemma SortedCons<T>(h: T, s: seq<T>, leq: (T, T) -> bool)
    requires SortedBy(s, leq)
    requires forall j :: 0 <= j < |s| ==> leq(h, s[j])
    ensures SortedBy([h] + s, leq)
  {
    forall i, j | 0 <= i < j < |[h] + s| ensures leq(([h] + s)[i], ([h] + s)[j]) {
      if i > 0 { assert ([h] + s)[i] == s[i - 1]; }
      assert ([h] + s)[j] == s[j - 1];
    }
  }

  /** Every element of a permutation of `s[1..]` plus `x` sorts after
      `s[0]` when `s` is sorted and `x` sorts after `s[0]`. */
  lemma HeadBeforeAll<T(!new)>(x: T, s: seq<T>, rest: seq<T>, leq: (T, T) -> bool)
    requires SortedBy(s, leq) && |s| > 0 && leq(s[0], x)
    requires multiset(rest) == multiset(s[1..]) + multiset{x}
    ensures forall j :: 0 <= j < |rest| ==> leq(s[0], rest[j])
  {
    forall j | 0 <= j < |rest| ensures leq(s[0], rest[j]) {
      var y := rest[j];
      assert y in multiset(rest);
      if y != x {
        assert y in multiset(s[1..]);
        var k :| 0 <= k < |s[1..]| && s[1..][k] == y;
        assert s[k + 1] == y;
      }
    }
  }

  /** Inserts `x` before the first element it does not sort after. */
  function InsertBy<T(!new)>(x: T, s: seq<T>, leq: (T, T) -> bool): (r: seq<T>)
    requires TotalPreorder(leq) && SortedBy(s, leq)
    ensures SortedBy(r, leq)
    ensures multiset(r) == multiset(s) + multiset{x}
  {
    if |s| == 0 then [x]
    else if leq(x, s[0]) then
      assert forall j :: 0 <= j < |s| ==> leq(x, s[j]) by {
        forall j | 0 <= j < |s| ensures leq(x, s[j]) {
          if j > 0 { assert leq(s[0], s[j]); }
        }
      }
      SortedCons(x, s, leq);
      [x] + s
    else
      var rest := InsertBy(x, s[1..], leq);
      assert leq(s[0], x);
      HeadBeforeAll(x, s, rest, leq);
      SortedCons(s[0], rest, leq);
      assert s == [s[0]] + s[1..];
      [s[0]] + rest
  }

  /** A sorted permutation of `s`; elements that sort equal keep their
      input order, as in Python's `sorted` and `list.sort`. */
  function SortBy<T(!new)>(s: seq<T>, leq: (T, T) -> bool): (r: seq<T>)
    requires TotalPreorder(leq)
    ensures SortedBy(r, leq)
    ensures multiset(r) == multiset(s)
  {
    if |s| == 0 then []
    else
      assert s == [s[0]] + s[1..];
      InsertBy(s[0], SortBy(s[1..], leq), leq)
  }

  lemma StringOrderIsTotalPreorder()
    ensures TotalPreorder((a: string, b: string) => LessEq(a, b))
  {
    forall a: string, b: string ensures LessEq(a, b) || LessEq(b, a) {
      LessEqTotal(a, b);
    }
    forall a: string, b: string, c: string | LessEq(a, b) && LessEq(b, c) ensures LessEq(a, c) {
      LessEqTransitive(a, b, c);
    }
  }

  /** Strings in Python's ascending order. */
  predicate Sorted(s: seq<string>)
  {
    forall i, j :: 0 <= i < j < |s| ==> LessEq(s[i], s[j])
  }

  /** Python's `sorted(strings)`. */
  function SortStrings(s: seq<string>): (r: seq<string>)
    ensures Sorted(r)
    ensures multiset(r) == multiset(s)
  {
    StringOrderIsTotalPreorder();
    SortBy(s, (a: string, b: string) => LessEq(a, b))
  }

  // ---------------------------------------------------------------------
  // decimal rendering of integers (Python's `str(n)` / f-string `{n}`)

  function DigitChar(d: nat): char
    requires d < 10
  {
    ('0' as int + d) as char
  }

  function NatToString(n: nat): (s: string)
    ensures |s| >= 1
    ensures n >= 10 <==> |s| >= 2
    ensures forall i :: 0 <= i < |s| ==> '0' <= s[i] <= '9'
  {
    if n < 10 then [DigitChar(n)] else NatToString(n / 10) + [DigitChar(n % 10)]
  }

  function IntToString(n: int): string
  {
    if n < 0 then "-" + NatToString(-n) else NatToString(n)
  }

  /** Distinct numbers render as distinct digit strings. */
  lemma {:induction false} NatToStringInjective(a: nat, b: nat)
    requires NatToString(a) == NatToString(b)
    ensures a == b
  {
    var sa, sb := NatToString(a), NatToString(b);
    if a >= 10 && b >= 10 {
      assert sa[..|sa| - 1] == NatToString(a / 10);
      assert sb[..|sb| - 1] == NatToString(b / 10);
      NatToStringInjective(a / 10, b / 10);
      assert DigitChar(a % 10) == sa[|sa| - 1] == DigitChar(b % 10);
    } else {
      assert sa[|sa| - 1] == sb[|sb| - 1];
    }
  }

  /** Value of a non-empty run of decimal digits. */
  function DigitsValue(s: string): nat
    requires forall i :: 0 <= i < |s| ==> '0' <= s[i] <= '9'
  {
    if |s| == 0 then 0
    else DigitsValue(s[..|s| - 1]) * 10 + (s[|s| - 1] as int - '0' as int)
  }

  lemma {:induction false} DigitsValueOfNatToString(n: nat)
    ensures DigitsValue(NatToString(n)) == n
  {
    if n >= 10 {
      var s := NatToString(n);
      assert s[..|s| - 1] == NatToString(n / 10);
      DigitsValueOfNatToString(n / 10);
    }
  }
}
