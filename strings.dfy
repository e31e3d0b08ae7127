/**
 * The part of Go's strings, bytes and unicode packages that procfs relies on:
 * Index, Split, SplitN, Join, FieldsFunc, TrimSpace and unicode.IsSpace.
 */
module Strings {

  /** unicode.IsSpace: the Unicode White_Space property, written out in full. */
  predicate IsSpace(c: char) {
    var n := c as int;
    (0x09 <= n <= 0x0D) || n == 0x20 || n == 0x85 || n == 0xA0 || n == 0x1680
    || (0x2000 <= n <= 0x200A) || n == 0x2028 || n == 0x2029 || n == 0x202F
    || n == 0x205F || n == 0x3000
  }

  /** On the first 256 code points, the white space is tab, newline, vertical tab, form feed, carriage return, space, U+0085 and U+00A0. */
  lemma IsSpaceLatin1(c: char)
    requires c as int <= 0xFF
    ensures IsSpace(c) <==> c in {'\t', '\n', 0x0B as char, 0x0C as char, '\r', ' ', 0x85 as char, 0xA0 as char}
  {
  }

  /** The index of the first `x` in `s`, or `|s|` when `s` holds none. */
  function IndexOf<T(==)>(s: seq<T>, x: T): (k: nat)
    ensures k <= |s|
    ensures forall i :: 0 <= i < k ==> s[i] != x
    ensures k < |s| ==> s[k] == x
  {
    if s == [] then 0
    else if s[0] == x then 0
    else 1 + IndexOf(s[1..], x)
  }

  /** The index of the first element of `s` that satisfies `f`, or `|s|`. */
  function IndexFunc<T>(s: seq<T>, f: T -> bool): (k: nat)
    ensures k <= |s|
    ensures forall i :: 0 <= i < k ==> !f(s[i])
    ensures k < |s| ==> f(s[k])
  {
    if s == [] then 0
    else if f(s[0]) then 0
    else 1 + IndexFunc(s[1..], f)
  }

  /** strings.Join: the parts with `sep` between each two neighbours. */
  function Join<T>(parts: seq<seq<T>>, sep: seq<T>): seq<T> {
    if parts == [] then []
    else if |parts| == 1 then parts[0]
    else parts[0] + sep + Join(parts[1..], sep)
  }

  /** strings.Split with a one-element separator: every piece between two separators. */
  function Split<T(==)>(s: seq<T>, sep: T): (r: seq<seq<T>>)
    ensures |r| >= 1
    ensures forall i :: 0 <= i < |r| ==> sep !in r[i]
    decreases |s|
  {
    var k := IndexOf(s, sep);
    if k == |s| then [s] else [s[..k]] + Split(s[k + 1..], sep)
  }

  /** Joining the pieces of Split with the separator gives the input back. */
  lemma {:induction false} JoinSplit<T>(s: seq<T>, sep: T)
    ensures Join(Split(s, sep), [sep]) == s
    decreases |s|
  {
    var k := IndexOf(s, sep);
    if k < |s| {
      var a, b := s[..k], s[k + 1..];
      var rest := Split(b, sep);
      assert Split(s, sep) == [a] + rest;
      JoinSplit(b, sep);
      JoinAtCut(s, k, rest);
    } else {
      assert Split(s, sep) == [s];
    }
  }

  /**
   * strings.SplitN and bytes.SplitN for n >= 1: at most n pieces; the last one is
   * whatever follows the (n-1)-th separator, separators included.
   */
  function SplitN<T(==)>(s: seq<T>, sep: T, n: nat): (r: seq<seq<T>>)
    requires n >= 1
    ensures 1 <= |r| <= n
    ensures forall i :: 0 <= i < |r| - 1 ==> sep !in r[i]
    ensures |r| < n ==> sep !in r[|r| - 1]
    decreases n
  {
    var k := IndexOf(s, sep);
    if n == 1 || k == |s| then [s] else [s[..k]] + SplitN(s[k + 1..], sep, n - 1)
  }

  /** Joining the pieces of SplitN with the separator gives the input back. */
  lemma {:induction false} JoinSplitN<T>(s: seq<T>, sep: T, n: nat)
    requires n >= 1
    ensures Join(SplitN(s, sep, n), [sep]) == s
    decreases n
  {
    var k := IndexOf(s, sep);
    if n > 1 && k < |s| {
      SplitNCut(s, sep, n);
      JoinSplitN(s[k + 1..], sep, n - 1);
      JoinAtCut(s, k, SplitN(s[k + 1..], sep, n - 1));
    }
  }

  /** When SplitN cuts, it cuts at the first separator. */
  lemma SplitNCut<T>(s: seq<T>, sep: T, n: nat)
    requires n > 1 && IndexOf(s, sep) < |s|
    ensures var k := IndexOf(s, sep);
      SplitN(s, sep, n) == [s[..k]] + SplitN(s[k + 1..], sep, n - 1)
  {
  }

  /** Cutting `s` at position k: the part before, the element at k, then a join that gives the rest. */
  lemma JoinAtCut<T>(s: seq<T>, k: nat, rest: seq<seq<T>>)
    requires k < |s| && rest != [] && Join(rest, [s[k]]) == s[k + 1..]
    ensures Join([s[..k]] + rest, [s[k]]) == s
  {
    JoinCons(s[..k], rest, [s[k]]);
    assert s == s[..k] + [s[k]] + s[k + 1..];
  }

  lemma JoinCons<T>(a: seq<T>, rest: seq<seq<T>>, sep: seq<T>)
    requires rest != []
    ensures Join([a] + rest, sep) == a + sep + Join(rest, sep)
  {
    assert ([a] + rest)[1..] == rest;
  }

  /** Where part k starts in a join: after the parts before it and one separator after each of them. */
  function JoinOffset<T>(parts: seq<seq<T>>, sep: seq<T>, k: nat): nat
    requires k <= |parts|
  {
    |Concat(parts[..k])| + k * |sep|
  }

  /**
   * Part k stands in the join at JoinOffset(parts, sep, k), and when another
   * part follows it, `sep` comes right after it. With JoinLength, the parts
   * and separators fill the whole join, in order.
   */
  lemma {:induction false} JoinLayout<T>(parts: seq<seq<T>>, sep: seq<T>, k: nat)
    requires k < |parts|
    ensures var j, o, n := Join(parts, sep), JoinOffset(parts, sep, k), |parts[k]|;
      o + n <= |j| && j[o..o + n] == parts[k]
      && (k + 1 < |parts| ==> o + n + |sep| <= |j| && j[o + n..o + n + |sep|] == sep)
  {
    if k == 0 {
      JoinLayoutFirst(parts, sep);
    } else {
      var rest := parts[1..];
      JoinLayout(rest, sep, k - 1);
      JoinOffsetStep(parts, sep, k);
      var o', n := JoinOffset(rest, sep, k - 1), |parts[k]|;
      assert Join(parts, sep) == (parts[0] + sep) + Join(rest, sep);
      ShiftedSlice(parts[0] + sep, Join(rest, sep), o', o' + n);
      if k + 1 < |parts| {
        ShiftedSlice(parts[0] + sep, Join(rest, sep), o' + n, o' + n + |sep|);
      }
    }
  }

  lemma JoinLayoutFirst<T>(parts: seq<seq<T>>, sep: seq<T>)
    requires parts != []
    ensures var j, n := Join(parts, sep), |parts[0]|;
      JoinOffset(parts, sep, 0) == 0 && n <= |j| && j[..n] == parts[0]
      && (1 < |parts| ==> n + |sep| <= |j| && j[n..n + |sep|] == sep)
  {
    assert parts[..0] == [];
    if |parts| > 1 {
      assert Join(parts, sep) == parts[0] + sep + Join(parts[1..], sep);
    }
  }

  lemma JoinOffsetStep<T>(parts: seq<seq<T>>, sep: seq<T>, k: nat)
    requires 0 < k <= |parts|
    ensures JoinOffset(parts, sep, k) == |parts[0]| + |sep| + JoinOffset(parts[1..], sep, k - 1)
  {
    assert parts[..k][1..] == parts[1..][..k - 1];
    assert Concat(parts[..k]) == parts[0] + Concat(parts[1..][..k - 1]);
  }

  lemma ShiftedSlice<T>(a: seq<T>, b: seq<T>, i: nat, e: nat)
    requires i <= e <= |b|
    ensures (a + b)[|a| + i..|a| + e] == b[i..e]
  {
  }

  /** A join is as long as its parts together plus one separator between each two neighbours. */
  lemma {:induction false} JoinLength<T>(parts: seq<seq<T>>, sep: seq<T>)
    requires parts != []
    ensures |Join(parts, sep)| == |Concat(parts)| + (|parts| - 1) * |sep|
  {
    if |parts| > 1 {
      JoinLength(parts[1..], sep);
    }
  }

  /** Splitting a join of separator-free parts gives the parts back. */
  lemma {:induction false} SplitJoin<T>(parts: seq<seq<T>>, sep: T)
    requires |parts| >= 1
    requires forall i :: 0 <= i < |parts| ==> sep !in parts[i]
    ensures Split(Join(parts, [sep]), sep) == parts
  {
    var s := Join(parts, [sep]);
    if |parts| == 1 {
      assert IndexOf(s, sep) == |s|;
    } else {
      var tail := Join(parts[1..], [sep]);
      assert s == parts[0] + [sep] + tail;
      assert forall i :: 0 <= i < |parts[0]| ==> parts[0][i] in parts[0];
      IndexOfAfterFree(parts[0], sep, tail);
      assert s[..|parts[0]|] == parts[0];
      assert s[|parts[0]| + 1..] == tail;
      SplitJoin(parts[1..], sep);
    }
  }

  /** Appending an element does not move the first occurrence of anything already present. */
  lemma {:induction false} IndexOfExtend<T>(s: seq<T>, y: T, x: T)
    requires x in s
    ensures IndexOf(s + [y], x) == IndexOf(s, x)
  {
    if s[0] != x {
      assert (s + [y])[1..] == s[1..] + [y];
      IndexOfExtend(s[1..], y, x);
    }
  }

  /** With no `x` in `s`, IndexOf runs off the end. */
  lemma {:induction false} IndexOfAbsent<T>(s: seq<T>, x: T)
    requires forall i :: 0 <= i < |s| ==> s[i] != x
    ensures IndexOf(s, x) == |s|
  {
    if s != [] {
      IndexOfAbsent(s[1..], x);
    }
  }

  /** In `a + [x] + b` with no `x` in `a`, the first `x` sits right after `a`. */
  lemma {:induction false} IndexOfAfterFree<T>(a: seq<T>, x: T, b: seq<T>)
    requires forall i :: 0 <= i < |a| ==> a[i] != x
    ensures IndexOf(a + [x] + b, x) == |a|
  {
    if a != [] {
      assert (a + [x] + b)[1..] == a[1..] + [x] + b;
      IndexOfAfterFree(a[1..], x, b);
    }
  }

  /** SplitN cuts `a + [sep] + b` first right after `a` when `a` holds no separator. */
  lemma SplitNFirst<T>(a: seq<T>, sep: T, b: seq<T>, n: nat)
    requires n >= 2
    requires forall i :: 0 <= i < |a| ==> a[i] != sep
    ensures SplitN(a + [sep] + b, sep, n) == [a] + SplitN(b, sep, n - 1)
  {
    IndexOfAfterFree(a, sep, b);
    var s := a + [sep] + b;
    assert s[..|a|] == a && s[|a| + 1..] == b;
  }

  /** When SplitN cuts at all, its first cut is at the first separator. */
  lemma SplitNUnfold<T>(s: seq<T>, sep: T, n: nat)
    requires n >= 2 && |SplitN(s, sep, n)| >= 2
    ensures IndexOf(s, sep) < |s|
    ensures s == s[..IndexOf(s, sep)] + [sep] + s[IndexOf(s, sep) + 1..]
    ensures SplitN(s, sep, n) == [s[..IndexOf(s, sep)]] + SplitN(s[IndexOf(s, sep) + 1..], sep, n - 1)
  {
  }

  /** The elements of `s` that `f` rejects, in order. */
  function Filter<T>(s: seq<T>, f: T -> bool): seq<T> {
    if s == [] then []
    else (if f(s[0]) then [] else [s[0]]) + Filter(s[1..], f)
  }

  /** All the parts, one after another. */
  function Concat<T>(parts: seq<seq<T>>): seq<T> {
    if parts == [] then [] else parts[0] + Concat(parts[1..])
  }

  lemma {:induction false} FilterAppend<T>(a: seq<T>, b: seq<T>, f: T -> bool)
    ensures Filter(a + b, f) == Filter(a, f) + Filter(b, f)
  {
    if a != [] {
      assert (a + b)[0] == a[0] && (a + b)[1..] == a[1..] + b;
      FilterAppend(a[1..], b, f);
      var h := if f(a[0]) then [] else [a[0]];
      assert Filter(a + b, f) == h + (Filter(a[1..], f) + Filter(b, f));
    } else {
      assert a + b == b;
    }
  }

  lemma {:induction false} FilterKeepsAll<T>(a: seq<T>, f: T -> bool)
    requires forall i :: 0 <= i < |a| ==> !f(a[i])
    ensures Filter(a, f) == a
  {
    if a != [] {
      FilterKeepsAll(a[1..], f);
      assert a == [a[0]] + a[1..];
    }
  }

  /**
   * strings.FieldsFunc: the maximal runs of characters that `f` rejects. Every
   * field is non-empty and free of separators, and together the fields hold
   * exactly the non-separator characters of `s`, in order.
   */
  function FieldsFunc(s: string, f: char -> bool): (r: seq<string>)
    ensures forall i :: 0 <= i < |r| ==> r[i] != []
    ensures forall i, j :: 0 <= i < |r| && 0 <= j < |r[i]| ==> !f(r[i][j])
    ensures Concat(r) == Filter(s, f)
    decreases |s|
  {
    if s == [] then []
    else if f(s[0]) then
      assert s == [s[0]] + s[1..];
      FieldsFunc(s[1..], f)
    else
      var k := IndexFunc(s, f);
      var rest := FieldsFunc(s[k..], f);
      assert s == s[..k] + s[k..];
      FilterAppend(s[..k], s[k..], f);
      FilterKeepsAll(s[..k], f);
      [s[..k]] + rest
  }

  /** Every position of `xs` moved on by `d`. */
  function Shift(xs: seq<nat>, d: nat): (r: seq<nat>)
    ensures |r| == |xs| && forall k :: 0 <= k < |xs| ==> r[k] == xs[k] + d
  {
    seq(|xs|, k requires 0 <= k < |xs| => xs[k] + d)
  }

  /** Position i lies in none of the runs [st[k], en[k]). */
  predicate Outside(st: seq<nat>, en: seq<nat>, i: nat) {
    forall k :: 0 <= k < |st| && k < |en| ==> !(st[k] <= i < en[k])
  }

  /** Field k of `fields` is s[st[k]..en[k]], a non-empty slice. */
  predicate RunsSlice(s: string, fields: seq<string>, st: seq<nat>, en: seq<nat>) {
    && |st| == |fields| && |en| == |fields|
    && forall k :: 0 <= k < |st| ==> st[k] < en[k] <= |s| && fields[k] == s[st[k]..en[k]]
  }

  /** Each run ends strictly before the next one starts. */
  predicate RunsApart(st: seq<nat>, en: seq<nat>) {
    |en| == |st| && forall k :: 0 < k < |st| ==> en[k - 1] < st[k]
  }

  /** A separator or an end of `s` lies on both sides of each run. */
  predicate RunsBounded(s: string, f: char -> bool, st: seq<nat>, en: seq<nat>) {
    && |en| == |st|
    && (forall k :: 0 <= k < |st| && 0 < st[k] <= |s| ==> f(s[st[k] - 1]))
    && (forall k :: 0 <= k < |st| && en[k] < |s| ==> f(s[en[k]]))
  }

  /** Every character of `s` outside the runs is a separator. */
  predicate RunsCover(s: string, f: char -> bool, st: seq<nat>, en: seq<nat>) {
    forall i :: 0 <= i < |s| && Outside(st, en, i) ==> f(s[i])
  }

  /** `fields` are the maximal runs of non-separators of `s`, in order, starting at st and ending at en. */
  predicate AreRuns(s: string, f: char -> bool, fields: seq<string>, st: seq<nat>, en: seq<nat>) {
    RunsSlice(s, fields, st, en) && RunsApart(st, en) && RunsBounded(s, f, st, en) && RunsCover(s, f, st, en)
  }

  /** FieldsFunc splits `s` at each run of separators: its fields are the maximal runs of non-separators. */
  lemma {:induction false} FieldsFuncRuns(s: string, f: char -> bool) returns (st: seq<nat>, en: seq<nat>)
    ensures AreRuns(s, f, FieldsFunc(s, f), st, en)
    decreases |s|
  {
    if s == [] {
      st, en := [], [];
    } else if f(s[0]) {
      var st', en' := FieldsFuncRuns(s[1..], f);
      assert FieldsFunc(s, f) == FieldsFunc(s[1..], f);
      st, en := RunsAfterSeparator(s, f, FieldsFunc(s[1..], f), st', en');
    } else {
      var j := IndexFunc(s, f);
      var rest := FieldsFunc(s[j..], f);
      var st', en' := FieldsFuncRuns(s[j..], f);
      assert FieldsFunc(s, f) == [s[..j]] + rest;
      if rest != [] {
        // The first run of the rest cannot start at s[j], which is a separator.
        assert rest[0][0] == s[j..][st'[0]];
      }
      st, en := RunsAfterField(s, f, j, rest, st', en');
    }
  }

  /** A leading separator shifts the runs of the rest by one. */
  lemma RunsAfterSeparator(s: string, f: char -> bool, fields: seq<string>, st': seq<nat>, en': seq<nat>)
    returns (st: seq<nat>, en: seq<nat>)
    requires s != [] && f(s[0])
    requires AreRuns(s[1..], f, fields, st', en')
    ensures AreRuns(s, f, fields, st, en)
  {
    st, en := Shift(st', 1), Shift(en', 1);
    ShiftSlice(s, 1, fields, st', en');
    ShiftApart(st', en', 1);
    ShiftBounded(s, f, 1, st', en');
    ShiftCover(s, f, 1, st', en');
  }

  /** A leading field s[..j] is run 0; the runs of the rest follow, shifted by j. */
  lemma RunsAfterField(s: string, f: char -> bool, j: nat, rest: seq<string>, st': seq<nat>, en': seq<nat>)
    returns (st: seq<nat>, en: seq<nat>)
    requires 0 < j <= |s| && (j < |s| ==> f(s[j]))
    requires AreRuns(s[j..], f, rest, st', en')
    requires rest != [] ==> 0 < st'[0]
    ensures AreRuns(s, f, [s[..j]] + rest, st, en)
  {
    RunsPositive(st', en');
    var sst, sen := Shift(st', j), Shift(en', j);
    ShiftSlice(s, j, rest, st', en');
    ShiftApart(st', en', j);
    ShiftBounded(s, f, j, st', en');
    ShiftCover(s, f, j, st', en');
    st, en := [0] + sst, [j] + sen;
    ConsSlice(s, j, rest, sst, sen);
    ConsApart(j, sst, sen);
    ConsBounded(s, f, j, sst, sen);
    ConsCover(s, f, j, sst, sen);
  }

  lemma RunsPositive(st: seq<nat>, en: seq<nat>)
    requires RunsApart(st, en) && (st != [] ==> 0 < st[0])
    ensures forall k :: 0 <= k < |st| ==> 0 < st[k]
  {
    forall k | 0 <= k < |st| ensures 0 < st[k] {
      if 0 < k {
        assert en[k - 1] < st[k];
      }
    }
  }

  lemma ConsApart(j: nat, sst: seq<nat>, sen: seq<nat>)
    requires RunsApart(sst, sen) && (sst != [] ==> j < sst[0])
    ensures RunsApart([0] + sst, [j] + sen)
  {
    var st, en := [0] + sst, [j] + sen;
    forall k | 1 < k < |st| ensures en[k - 1] < st[k] {
      assert en[k - 1] == sen[k - 2] && st[k] == sst[k - 1];
    }
  }

  lemma ShiftSlice(s: string, d: nat, fields: seq<string>, st': seq<nat>, en': seq<nat>)
    requires d <= |s| && RunsSlice(s[d..], fields, st', en')
    ensures RunsSlice(s, fields, Shift(st', d), Shift(en', d))
  {
    var st, en := Shift(st', d), Shift(en', d);
    forall k | 0 <= k < |st| ensures st[k] < en[k] <= |s| && fields[k] == s[st[k]..en[k]] {
      assert s[d..][st'[k]..en'[k]] == s[st[k]..en[k]];
    }
  }

  lemma ShiftApart(st': seq<nat>, en': seq<nat>, d: nat)
    requires RunsApart(st', en')
    ensures RunsApart(Shift(st', d), Shift(en', d))
  {
  }

  lemma ShiftBounded(s: string, f: char -> bool, d: nat, st': seq<nat>, en': seq<nat>)
    requires d <= |s| && RunsBounded(s[d..], f, st', en')
    requires forall k :: 0 <= k < |st'| && st'[k] == 0 ==> 0 < d && f(s[d - 1])
    requires forall k :: 0 <= k < |en'| ==> en'[k] <= |s| - d
    ensures RunsBounded(s, f, Shift(st', d), Shift(en', d))
  {
    var st, en := Shift(st', d), Shift(en', d);
    forall k | 0 <= k < |st| && 0 < st[k] <= |s| ensures f(s[st[k] - 1]) {
      if 0 < st'[k] {
        assert s[d..][st'[k] - 1] == s[st[k] - 1];
      }
    }
    forall k | 0 <= k < |st| && en[k] < |s| ensures f(s[en[k]]) {
      assert s[d..][en'[k]] == s[en[k]];
    }
  }

  lemma ShiftCover(s: string, f: char -> bool, d: nat, st': seq<nat>, en': seq<nat>)
    requires d <= |s| && |en'| == |st'| && RunsCover(s[d..], f, st', en')
    ensures forall i :: d <= i < |s| && Outside(Shift(st', d), Shift(en', d), i) ==> f(s[i])
  {
    var st, en := Shift(st', d), Shift(en', d);
    forall i | d <= i < |s| && Outside(st, en, i) ensures f(s[i]) {
      forall k | 0 <= k < |st'| ensures !(st'[k] <= i - d < en'[k]) {
        assert !(st[k] <= i < en[k]);
      }
      assert s[d..][i - d] == s[i];
    }
  }

  lemma ConsSlice(s: string, j: nat, rest: seq<string>, sst: seq<nat>, sen: seq<nat>)
    requires 0 < j <= |s| && RunsSlice(s, rest, sst, sen)
    ensures RunsSlice(s, [s[..j]] + rest, [0] + sst, [j] + sen)
  {
    var fields, st, en := [s[..j]] + rest, [0] + sst, [j] + sen;
    forall k | 0 <= k < |st| ensures st[k] < en[k] <= |s| && fields[k] == s[st[k]..en[k]] {
      if 0 < k {
        assert fields[k] == rest[k - 1];
      }
    }
  }

  lemma ConsBounded(s: string, f: char -> bool, j: nat, sst: seq<nat>, sen: seq<nat>)
    requires 0 < j <= |s| && (j < |s| ==> f(s[j])) && RunsBounded(s, f, sst, sen)
    ensures RunsBounded(s, f, [0] + sst, [j] + sen)
  {
    var st, en := [0] + sst, [j] + sen;
    forall k | 0 < k < |st| && 0 < st[k] <= |s| ensures f(s[st[k] - 1]) {
      assert st[k] == sst[k - 1];
    }
    forall k | 0 < k < |st| && en[k] < |s| ensures f(s[en[k]]) {
      assert en[k] == sen[k - 1];
    }
  }

  lemma ConsCover(s: string, f: char -> bool, j: nat, sst: seq<nat>, sen: seq<nat>)
    requires j <= |s| && |sen| == |sst|
    requires forall i :: j <= i < |s| && Outside(sst, sen, i) ==> f(s[i])
    ensures RunsCover(s, f, [0] + sst, [j] + sen)
  {
    var st, en := [0] + sst, [j] + sen;
    forall i | 0 <= i < |s| && Outside(st, en, i) ensures f(s[i]) {
      assert !(st[0] <= i < en[0]);
      forall k | 0 <= k < |sst| ensures !(sst[k] <= i < sen[k]) {
        assert !(st[k + 1] <= i < en[k + 1]);
      }
    }
  }

  /** FieldsFunc finds no field exactly when every character is a separator. */
  lemma NoFieldsIffAllSeparators(s: string, f: char -> bool)
    ensures FieldsFunc(s, f) == [] <==> forall i :: 0 <= i < |s| ==> f(s[i])
  {
    var r := FieldsFunc(s, f);
    FilterEmptyIff(s, f);
    if r != [] {
      assert Concat(r) == r[0] + Concat(r[1..]);
    }
  }

  lemma {:induction false} FilterEmptyIff<T>(a: seq<T>, f: T -> bool)
    ensures Filter(a, f) == [] <==> forall i :: 0 <= i < |a| ==> f(a[i])
  {
    if a != [] {
      FilterEmptyIff(a[1..], f);
      assert forall i :: 1 <= i < |a| ==> a[i] == a[1..][i - 1];
    }
  }

  /**
   * The first field is the first maximal run of non-separators: everything
   * before position i is a separator, s[i..j] holds none, and s[j] (if any) is one.
   */
  lemma {:induction false} FirstFieldIsFirstRun(s: string, f: char -> bool) returns (i: nat, j: nat)
    requires FieldsFunc(s, f) != []
    ensures i < j <= |s|
    ensures forall k :: 0 <= k < i ==> f(s[k])
    ensures forall k :: i <= k < j ==> !f(s[k])
    ensures j < |s| ==> f(s[j])
    ensures FieldsFunc(s, f)[0] == s[i..j]
  {
    if f(s[0]) {
      assert FieldsFunc(s, f) == FieldsFunc(s[1..], f);
      var i', j' := FirstFieldIsFirstRun(s[1..], f);
      i, j := i' + 1, j' + 1;
      SliceOfTail(s, i', j');
    } else {
      i, j := 0, IndexFunc(s, f);
    }
  }

  lemma SliceOfTail(s: string, i: nat, j: nat)
    requires s != [] && i <= j <= |s| - 1
    ensures s[1..][i..j] == s[i + 1..j + 1]
  {
  }

  /** Where TrimLeftFunc cuts: the index of the first character that `f` rejects, or `|s|`. */
  function TrimLeftIndex(s: string, f: char -> bool): (i: nat)
    ensures i <= |s|
    ensures forall k :: 0 <= k < i ==> f(s[k])
    ensures i < |s| ==> !f(s[i])
  {
    if s != [] && f(s[0]) then 1 + TrimLeftIndex(s[1..], f) else 0
  }

  /** Where TrimRightFunc cuts: one past the last character that `f` rejects, or 0. */
  function TrimRightIndex(s: string, f: char -> bool): (j: nat)
    ensures j <= |s|
    ensures forall k :: j <= k < |s| ==> f(s[k])
    ensures j > 0 ==> !f(s[j - 1])
  {
    if s != [] && f(s[|s| - 1]) then TrimRightIndex(s[..|s| - 1], f) else |s|
  }

  /** strings.TrimFunc: `s` without its leading and trailing characters that satisfy `f`. */
  function TrimFunc(s: string, f: char -> bool): string {
    var i, j := TrimLeftIndex(s, f), TrimRightIndex(s, f);
    if i <= j then s[i..j] else []
  }

  /** strings.TrimSpace. */
  function TrimSpace(s: string): string {
    TrimFunc(s, IsSpace)
  }

  /**
   * TrimFunc keeps one contiguous slice s[i..j] of its input: only characters
   * satisfying `f` lie outside it, and the slice neither starts nor ends with one.
   */
  lemma TrimFuncSlice(s: string, f: char -> bool) returns (i: nat, j: nat)
    ensures i <= j <= |s| && TrimFunc(s, f) == s[i..j]
    ensures forall k :: 0 <= k < i ==> f(s[k])
    ensures forall k :: j <= k < |s| ==> f(s[k])
    ensures var r := TrimFunc(s, f); r == [] || (!f(r[0]) && !f(r[|r| - 1]))
  {
    i, j := TrimLeftIndex(s, f), TrimRightIndex(s, f);
    if j < i {
      // Every character satisfies f: the left cut ran off the end.
      i := j;
    }
  }

  /** A string that neither starts nor ends with a character satisfying `f` is its own TrimFunc. */
  lemma TrimFuncTrimmed(s: string, f: char -> bool)
    requires s == [] || (!f(s[0]) && !f(s[|s| - 1]))
    ensures TrimFunc(s, f) == s
  {
    if s != [] {
      assert TrimLeftIndex(s, f) == 0;
      assert TrimRightIndex(s, f) == |s|;
    }
  }

  /** TrimSpace keeps one contiguous slice of its input, with white space only outside it and at neither of its ends. */
  lemma TrimSpaceSlice(s: string) returns (i: nat, j: nat)
    ensures i <= j <= |s| && TrimSpace(s) == s[i..j]
    ensures forall k :: 0 <= k < i ==> IsSpace(s[k])
    ensures forall k :: j <= k < |s| ==> IsSpace(s[k])
    ensures var r := TrimSpace(s); r == [] || (!IsSpace(r[0]) && !IsSpace(r[|r| - 1]))
  {
    i, j := TrimFuncSlice(s, IsSpace);
  }

  /** TrimFunc is idempotent. */
  lemma TrimFuncIdempotent(s: string, f: char -> bool)
    ensures TrimFunc(TrimFunc(s, f), f) == TrimFunc(s, f)
  {
    var i, j := TrimFuncSlice(s, f);
    TrimFuncTrimmed(TrimFunc(s, f), f);
  }
}
