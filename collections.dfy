/** Sequence and string helpers shared by the dashboard model: an Option type,
    the order that JavaScript's default `Array.prototype.sort` puts strings in,
    the "distinct values, sorted" idiom `[...new Set(xs)].sort()`, filtering
    (`Array.prototype.filter`) and the subsequence relation it produces. */
module Collections {

  datatype Option<+T> = None | Some(value: T)

  // ---------------------------------------------------------------------------
  // String order
  // ---------------------------------------------------------------------------

  /** Lexicographic order on strings, character by character: the order in which
      JavaScript's `sort()` without a comparator puts strings (it compares UTF-16
      code units; characters here are single code units). */
  predicate Less(a: string, b: string)
    decreases |a|
  {
    if |a| == 0 then |b| > 0
    else |b| > 0 && (a[0] < b[0] || (a[0] == b[0] && Less(a[1..], b[1..])))
  }

  lemma LessIrreflexive(a: string)
    ensures !Less(a, a)
  {
  }

  lemma LessTransitive(a: string, b: string, c: string)
    requires Less(a, b) && Less(b, c)
    ensures Less(a, c)
    decreases |a|
  {
    if |a| > 0 && a[0] == b[0] && b[0] == c[0] {
      LessTransitive(a[1..], b[1..], c[1..]);
    }
  }

  lemma LessTotal(a: string, b: string)
    requires a != b
    ensures Less(a, b) || Less(b, a)
    decreases |a|
  {
    if |a| > 0 && |b| > 0 && a[0] == b[0] {
      assert a == [a[0]] + a[1..] && b == [b[0]] + b[1..];
      LessTotal(a[1..], b[1..]);
    }
  }

  lemma LessAsymmetric(a: string, b: string)
    requires Less(a, b)
    ensures !Less(b, a)
    decreases |a|
  {
    if |a| > 0 && a[0] == b[0] {
      LessAsymmetric(a[1..], b[1..]);
    }
  }

  /** Every element is below every later one; in particular no value repeats. */
  ghost predicate StrictlyAscending(s: seq<string>)
  {
    forall i, j :: 0 <= i < j < |s| ==> Less(s[i], s[j])
  }

  lemma AscendingDistinct(s: seq<string>, i: int, j: int)
    requires StrictlyAscending(s)
    requires 0 <= i < |s| && 0 <= j < |s| && i != j
    ensures s[i] != s[j]
  {
    if i < j { LessIrreflexive(s[i]); } else { LessIrreflexive(s[j]); }
  }

  /** The last element of a strictly ascending sequence is its maximum. */
  lemma AscendingLastIsMax(s: seq<string>, x: string)
    requires StrictlyAscending(s) && x in s
    ensures x == s[|s| - 1] || Less(x, s[|s| - 1])
  {
  }

  /** The first element of a strictly ascending sequence is its minimum. */
  lemma AscendingFirstIsMin(s: seq<string>, x: string)
    requires StrictlyAscending(s) && x in s
    ensures x == s[0] || Less(s[0], x)
  {
  }

  /** A strictly ascending sequence is determined by its elements: sorting
      the distinct values leaves no choice. */
  lemma {:induction false} AscendingUnique(s: seq<string>, t: seq<string>)
    requires StrictlyAscending(s) && StrictlyAscending(t)
    requires forall y :: y in s <==> y in t
    ensures s == t
    decreases |s|
  {
    assert s != [] ==> s[0] in t;
    assert t != [] ==> t[0] in s;
    if s != [] {
      AscendingFirstIsMin(s, t[0]);
      AscendingFirstIsMin(t, s[0]);
      if s[0] != t[0] {
        LessAsymmetric(s[0], t[0]);
      }
      forall y ensures y in s[1..] <==> y in t[1..] {
        AscendingTail(s, y);
        AscendingTail(t, y);
      }
      AscendingUnique(s[1..], t[1..]);
      assert s == [s[0]] + s[1..] && t == [t[0]] + t[1..];
    }
  }

  lemma AscendingTail(s: seq<string>, y: string)
    requires StrictlyAscending(s) && s != []
    ensures StrictlyAscending(s[1..])
    ensures y in s[1..] <==> y in s && y != s[0]
  {
    if y in s[1..] {
      var k :| 0 <= k < |s[1..]| && s[1..][k] == y;
      AscendingDistinct(s, 0, k + 1);
    }
    if y in s && y != s[0] {
      var k :| 0 <= k < |s| && s[k] == y;
      assert s[1..][k - 1] == y;
    }
  }

  lemma AscendingCons(h: string, t: seq<string>)
    requires StrictlyAscending(t)
    requires forall y :: y in t ==> Less(h, y)
    ensures StrictlyAscending([h] + t)
  {
    var s := [h] + t;
    forall i, j | 0 <= i < j < |s| ensures Less(s[i], s[j]) {
      if i > 0 {
        assert s[i] == t[i - 1] && s[j] == t[j - 1];
      } else {
        assert s[j] in t;
      }
    }
  }

  /** Inserts `x` into a strictly ascending sequence unless it is already there. */
  function Insert(x: string, s: seq<string>): (r: seq<string>)
    requires StrictlyAscending(s)
    ensures StrictlyAscending(r)
    ensures forall y :: y in r <==> y == x || y in s
    decreases |s|
  {
    if s == [] then [x]
    else if x == s[0] then s
    else if Less(x, s[0]) then
      InsertBelowHead(x, s);
      [x] + s
    else
      assert s == [s[0]] + s[1..];
      var t := Insert(x, s[1..]);
      InsertAboveHead(x, s, t);
      [s[0]] + t
  }

  lemma InsertBelowHead(x: string, s: seq<string>)
    requires StrictlyAscending(s) && s != [] && Less(x, s[0])
    ensures StrictlyAscending([x] + s)
  {
    forall y | y in s ensures Less(x, y) {
      if y != s[0] { LessTransitive(x, s[0], y); }
    }
    AscendingCons(x, s);
  }

  lemma InsertAboveHead(x: string, s: seq<string>, t: seq<string>)
    requires StrictlyAscending(s) && s != [] && x != s[0] && !Less(x, s[0])
    requires StrictlyAscending(t)
    requires forall y :: y in t <==> y == x || y in s[1..]
    ensures StrictlyAscending([s[0]] + t)
  {
    LessTotal(x, s[0]);
    forall y | y in t ensures Less(s[0], y) {
      if y != x {
        var k :| 0 <= k < |s[1..]| && s[1..][k] == y;
        assert s[k + 1] == y;
      }
    }
    AscendingCons(s[0], t);
  }

  /** `[...new Set(xs)].sort()`: the distinct values of `xs` in ascending
      order. */
  function SortedDistinct(xs: seq<string>): (r: seq<string>)
    ensures StrictlyAscending(r)
    ensures forall y :: y in r <==> y in xs
    decreases |xs|
  {
    if xs == [] then []
    else
      assert xs == xs[..|xs| - 1] + [xs[|xs| - 1]];
      Insert(xs[|xs| - 1], SortedDistinct(xs[..|xs| - 1]))
  }

  /** The least element of a list of strings, `undefined` (None) when it is
      empty: the "first element of the sorted list" idiom. */
  function Earliest(s: seq<string>): (r: Option<string>)
    requires StrictlyAscending(s)
    ensures r.None? <==> s == []
    ensures r.Some? ==> r.value in s && forall x :: x in s ==> x == r.value || Less(r.value, x)
  {
    if |s| > 0 then
      assert forall x :: x in s ==> x == s[0] || Less(s[0], x) by {
        forall x | x in s ensures x == s[0] || Less(s[0], x) { AscendingFirstIsMin(s, x); }
      }
      Some(s[0])
    else None
  }

  /** The greatest element of a list of strings, `null` (None) when it is empty:
      the "last element of the sorted list" idiom. */
  function Latest(s: seq<string>): (r: Option<string>)
    requires StrictlyAscending(s)
    ensures r.None? <==> s == []
    ensures r.Some? ==> r.value in s && forall x :: x in s ==> x == r.value || Less(x, r.value)
  {
    if |s| > 0 then Some(s[|s| - 1]) else None
  }

  // ---------------------------------------------------------------------------
  // Filtering and subsequences
  // ---------------------------------------------------------------------------

  /** `xs` is obtained from `ys` by deleting elements, keeping the order. */
  ghost predicate IsSubseq<T>(xs: seq<T>, ys: seq<T>)
    decreases |ys|
  {
    if xs == [] then true
    else if ys == [] then false
    else (xs[|xs| - 1] == ys[|ys| - 1] && IsSubseq(xs[..|xs| - 1], ys[..|ys| - 1]))
         || IsSubseq(xs, ys[..|ys| - 1])
  }

  lemma SubseqExtend<T>(xs: seq<T>, ys: seq<T>, y: T)
    requires IsSubseq(xs, ys)
    ensures IsSubseq(xs, ys + [y]) && IsSubseq(xs + [y], ys + [y])
  {
    assert (ys + [y])[..|ys|] == ys;
    assert (xs + [y])[..|xs|] == xs;
  }

  lemma SubseqRefl<T>(xs: seq<T>)
    ensures IsSubseq(xs, xs)
    decreases |xs|
  {
    if xs != [] {
      SubseqRefl(xs[..|xs| - 1]);
    }
  }

  lemma {:induction false} SubseqTrans<T>(xs: seq<T>, ys: seq<T>, zs: seq<T>)
    requires IsSubseq(xs, ys) && IsSubseq(ys, zs)
    ensures IsSubseq(xs, zs)
    decreases |zs|
  {
    if xs == [] {
    } else if ys == [] {
    } else {
      var zi := zs[..|zs| - 1];
      if ys[|ys| - 1] == zs[|zs| - 1] && IsSubseq(ys[..|ys| - 1], zi) {
        var yi := ys[..|ys| - 1];
        if xs[|xs| - 1] == ys[|ys| - 1] && IsSubseq(xs[..|xs| - 1], yi) {
          SubseqTrans(xs[..|xs| - 1], yi, zi);
        } else {
          SubseqTrans(xs, yi, zi);
        }
      } else {
        SubseqTrans(xs, ys, zi);
      }
    }
  }

  /** `s.filter(p)`: the elements of `s` that satisfy `p`, in their order. */
  function Where<T(!new)>(s: seq<T>, p: T -> bool): (r: seq<T>)
    ensures |r| <= |s|
    ensures forall x :: x in r <==> x in s && p(x)
    decreases |s|
  {
    if s == [] then []
    else
      var init := Where(s[..|s| - 1], p);
      var last := s[|s| - 1];
      assert s == s[..|s| - 1] + [last];
      if p(last) then init + [last] else init
  }

  /** Filtering deletes elements and keeps the order of the rest. */
  lemma {:induction false} WhereSubseq<T(!new)>(s: seq<T>, p: T -> bool)
    ensures IsSubseq(Where(s, p), s)
    decreases |s|
  {
    if s != [] {
      var init := s[..|s| - 1];
      var last := s[|s| - 1];
      assert s == init + [last];
      WhereSubseq(init, p);
      SubseqExtend(Where(init, p), init, last);
    }
  }

  lemma WhereSnoc<T(!new)>(s: seq<T>, x: T, p: T -> bool)
    ensures Where(s + [x], p) == if p(x) then Where(s, p) + [x] else Where(s, p)
  {
    assert (s + [x])[..|s|] == s;
  }

  lemma {:induction false} WhereAppend<T(!new)>(s: seq<T>, t: seq<T>, p: T -> bool)
    ensures Where(s + t, p) == Where(s, p) + Where(t, p)
    decreases |t|
  {
    if t == [] {
      assert s + t == s;
    } else {
      var ti := t[..|t| - 1];
      var st := s + t;
      assert st[..|st| - 1] == s + ti;
      assert st[|st| - 1] == t[|t| - 1];
      WhereAppend(s, ti, p);
    }
  }

  /** Filtering keeps every satisfying element as often as it occurs, and no
      other element. */
  lemma {:induction false} WhereMultiset<T(!new)>(s: seq<T>, p: T -> bool, x: T)
    ensures multiset(Where(s, p))[x] == if p(x) then multiset(s)[x] else 0
    decreases |s|
  {
    if s != [] {
      var init := s[..|s| - 1];
      assert s == init + [s[|s| - 1]];
      WhereSnoc(init, s[|s| - 1], p);
      WhereMultiset(init, p, x);
    }
  }

  /** The first element of a non-empty filter result is the first element of
      the input that satisfies the predicate. */
  lemma {:induction false} WhereFirst<T(!new)>(s: seq<T>, p: T -> bool)
    requires Where(s, p) != []
    ensures exists i :: 0 <= i < |s| && p(s[i]) && Where(s, p)[0] == s[i] &&
                        forall j :: 0 <= j < i ==> !p(s[j])
    decreases |s|
  {
    var init := s[..|s| - 1];
    var last := s[|s| - 1];
    var w := Where(init, p);
    if w != [] {
      WhereFirst(init, p);
      var i :| 0 <= i < |init| && p(init[i]) && w[0] == init[i] &&
               forall j :: 0 <= j < i ==> !p(init[j]);
      assert s[i] == init[i];
      assert forall j :: 0 <= j < i ==> s[j] == init[j];
    } else {
      forall j | 0 <= j < |init| ensures !p(s[j]) {
        assert s[j] == init[j] && init[j] in init;
      }
    }
  }

  /** Nothing is kept when no element satisfies the predicate. */
  lemma {:induction false} WhereNone<T(!new)>(s: seq<T>, p: T -> bool)
    requires forall i :: 0 <= i < |s| ==> !p(s[i])
    ensures Where(s, p) == []
    decreases |s|
  {
    if s != [] {
      WhereNone(s[..|s| - 1], p);
    }
  }

  /** Filtering by two predicates that agree on the elements gives the same
      result. */
  lemma {:induction false} WhereCongruent<T(!new)>(s: seq<T>, p: T -> bool, q: T -> bool)
    requires forall x :: x in s ==> p(x) == q(x)
    ensures Where(s, p) == Where(s, q)
    decreases |s|
  {
    if s != [] {
      var init := s[..|s| - 1];
      assert s == init + [s[|s| - 1]];
      WhereCongruent(init, p, q);
    }
  }

  /** Filtering by a predicate that every element satisfies changes nothing. */
  lemma {:induction false} WhereAll<T(!new)>(s: seq<T>, p: T -> bool)
    requires forall x :: x in s ==> p(x)
    ensures Where(s, p) == s
    decreases |s|
  {
    if s != [] {
      var init := s[..|s| - 1];
      assert s == init + [s[|s| - 1]];
      WhereAll(init, p);
    }
  }

  /** Filtering twice is filtering once by the conjunction. */
  lemma {:induction false} WhereWhere<T(!new)>(s: seq<T>, p: T -> bool, q: T -> bool, pq: T -> bool)
    requires forall x :: pq(x) == (p(x) && q(x))
    ensures Where(Where(s, p), q) == Where(s, pq)
    decreases |s|
  {
    if s != [] {
      var init := s[..|s| - 1];
      var x := s[|s| - 1];
      assert s == init + [x];
      WhereWhere(init, p, q, pq);
      if p(x) {
        WhereSnoc(Where(init, p), x, q);
      }
    }
  }

  /** Filtering by a stronger predicate gives a subsequence of filtering by a
      weaker one. */
  lemma {:induction false} WhereMonotone<T(!new)>(s: seq<T>, p: T -> bool, q: T -> bool)
    requires forall x :: x in s && p(x) ==> q(x)
    ensures IsSubseq(Where(s, p), Where(s, q))
    decreases |s|
  {
    if s != [] {
      var init := s[..|s| - 1];
      var x := s[|s| - 1];
      assert s == init + [x];
      WhereMonotone(init, p, q);
      if q(x) {
        SubseqExtend(Where(init, p), Where(init, q), x);
      }
    }
  }

  /** `xs.filter(Boolean)` on a list of objects or nulls: the present values. */
  function Present<T>(xs: seq<Option<T>>): (r: seq<T>)
    ensures (forall i :: 0 <= i < |xs| ==> xs[i].Some?) ==>
              |r| == |xs| && forall i :: 0 <= i < |xs| ==> r[i] == xs[i].value
    decreases |xs|
  {
    if xs == [] then []
    else
      var init := Present(xs[..|xs| - 1]);
      match xs[|xs| - 1]
      case Some(v) => init + [v]
      case None => init
  }

  /** One more element of a prefix. */
  lemma TakeSnoc<T>(s: seq<T>, i: int)
    requires 0 <= i < |s|
    ensures s[..i + 1] == s[..i] + [s[i]]
  {
  }

  /** A loop that pushes `f(x)` for each element where it is defined: the
      defined results, in input order. */
  function FilterMap<T, U>(s: seq<T>, f: T -> Option<U>): (r: seq<U>)
    ensures |r| <= |s|
    decreases |s|
  {
    if s == [] then []
    else
      var init := FilterMap(s[..|s| - 1], f);
      match f(s[|s| - 1])
      case None => init
      case Some(y) => init + [y]
  }

  lemma FilterMapSnoc<T, U>(s: seq<T>, x: T, f: T -> Option<U>)
    ensures FilterMap(s + [x], f) == if f(x).Some? then FilterMap(s, f) + [f(x).value] else FilterMap(s, f)
  {
    assert (s + [x])[..|s|] == s;
  }

  /** A value is produced exactly when some element maps to it. */
  lemma {:induction false} FilterMapMembers<T, U>(s: seq<T>, f: T -> Option<U>, y: U)
    ensures y in FilterMap(s, f) <==> exists i :: 0 <= i < |s| && f(s[i]) == Some(y)
    decreases |s|
  {
    if s != [] {
      var n := |s| - 1;
      var init := s[..n];
      FilterMapMembers(init, f, y);
      assert forall i :: 0 <= i < n ==> init[i] == s[i];
      if exists i :: 0 <= i < |s| && f(s[i]) == Some(y) {
        var i :| 0 <= i < |s| && f(s[i]) == Some(y);
        if i < n {
          assert f(init[i]) == Some(y);
        }
      }
    }
  }

  /** When every element maps to a value, the output is those values, one per
      element, in order. */
  lemma {:induction false} FilterMapTotal<T, U>(s: seq<T>, f: T -> Option<U>)
    requires forall i :: 0 <= i < |s| ==> f(s[i]).Some?
    ensures |FilterMap(s, f)| == |s|
    ensures forall i :: 0 <= i < |s| ==> FilterMap(s, f)[i] == f(s[i]).value
    decreases |s|
  {
    if s != [] {
      var init := s[..|s| - 1];
      assert forall i :: 0 <= i < |init| ==> init[i] == s[i];
      FilterMapTotal(init, f);
    }
  }

  /** Every element either produces a value or is one that `fails` holds of. */
  lemma {:induction false} FilterMapCount<T(!new), U>(s: seq<T>, f: T -> Option<U>, fails: T -> bool)
    requires forall x :: fails(x) == f(x).None?
    ensures |FilterMap(s, f)| + |Where(s, fails)| == |s|
    decreases |s|
  {
    if s != [] {
      var init, last := s[..|s| - 1], s[|s| - 1];
      FilterMapCount(init, f, fails);
      assert init + [last] == s;
      WhereSnoc(init, last, fails);
    }
  }

  // ---------------------------------------------------------------------------
  // Joining and splitting on a separator character
  // ---------------------------------------------------------------------------

  /** `parts.join(sep)` for a one-character separator. */
  function Join(parts: seq<string>, sep: char): string
    decreases |parts|
  {
    if parts == [] then ""
    else if |parts| == 1 then parts[0]
    else parts[0] + [sep] + Join(parts[1..], sep)
  }

  lemma JoinCons(parts: seq<string>, sep: char)
    requires |parts| > 1
    ensures Join(parts, sep) == parts[0] + ([sep] + Join(parts[1..], sep))
  {
    assert parts[0] + [sep] + Join(parts[1..], sep) == parts[0] + ([sep] + Join(parts[1..], sep));
  }

  /** Position of the first `sep` in `s`, if any. */
  function IndexOf(s: string, sep: char): (r: Option<nat>)
    ensures r.None? <==> sep !in s
    ensures r.Some? ==> r.value < |s| && s[r.value] == sep && sep !in s[..r.value]
    decreases |s|
  {
    if s == [] then None
    else if s[0] == sep then Some(0)
    else
      assert s == [s[0]] + s[1..];
      match IndexOf(s[1..], sep)
      case None => None
      case Some(k) =>
        assert s[..k + 1] == [s[0]] + s[1..][..k];
        Some(k + 1)
  }

  /** `s.split(sep)` for a one-character separator. */
  function Split(s: string, sep: char): seq<string>
    decreases |s|
  {
    match IndexOf(s, sep)
    case None => [s]
    case Some(i) => [s[..i]] + Split(s[i + 1..], sep)
  }

  lemma {:induction false} IndexOfJoined(a: string, sep: char, b: string)
    requires sep !in a
    ensures IndexOf(a + [sep] + b, sep) == Some(|a|)
    decreases |a|
  {
    if a != [] {
      assert (a + [sep] + b)[1..] == a[1..] + [sep] + b;
      IndexOfJoined(a[1..], sep, b);
    }
  }

  /** Splitting undoes joining when no part contains the separator. */
  lemma {:induction false} SplitJoin(parts: seq<string>, sep: char)
    requires parts != []
    requires forall k :: 0 <= k < |parts| ==> sep !in parts[k]
    ensures Split(Join(parts, sep), sep) == parts
    decreases |parts|
  {
    if |parts| == 1 {
      assert Join(parts, sep) == parts[0];
    } else {
      var rest := Join(parts[1..], sep);
      var s := parts[0] + [sep] + rest;
      IndexOfJoined(parts[0], sep, rest);
      assert s[..|parts[0]|] == parts[0];
      assert s[|parts[0]| + 1..] == rest;
      SplitJoin(parts[1..], sep);
    }
  }

  lemma JoinNoSep(parts: seq<string>, sep: char, c: char)
    requires c != sep
    requires forall k :: 0 <= k < |parts| ==> c !in parts[k]
    ensures c !in Join(parts, sep)
    decreases |parts|
  {
    if |parts| > 1 {
      JoinNoSep(parts[1..], sep, c);
    }
  }
}
