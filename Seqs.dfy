/**
 * Generic sequence operations that Python offers on both `str` and `bytes`:
 * substring search (`find`, `in`), `split` on a separator, `join`, and
 * `strip` parameterised by the whitespace predicate of the type.
 */
module Seqs {
  import opened Wrappers

  /** `sub` occurs in `s` starting at index `i`. */
  predicate OccursAt<T(==)>(s: seq<T>, sub: seq<T>, i: int)
  {
    0 <= i && i + |sub| <= |s| && s[i..i + |sub|] == sub
  }

  /** An occurrence starts with the first element of what occurs. */
  lemma OccursHead<T>(s: seq<T>, sub: seq<T>, i: int)
    requires |sub| > 0
    ensures OccursAt(s, sub, i) ==> 0 <= i < |s| && s[i] == sub[0]
  {
    if 0 <= i && i + |sub| <= |s| {
      assert s[i..i + |sub|][0] == s[i];
    }
  }

  /** An occurrence inside a slice is an occurrence in the whole sequence. */
  lemma OccursInSlice<T>(s: seq<T>, sub: seq<T>, a: nat, b: nat, j: int)
    requires a <= b <= |s| && OccursAt(s[a..b], sub, j)
    ensures OccursAt(s, sub, a + j)
  {
    forall k | 0 <= k < |sub| ensures s[a + j..a + j + |sub|][k] == sub[k] {
      assert s[a..b][j..j + |sub|][k] == sub[k];
    }
  }

  /** An occurrence inside a prefix is an occurrence in the whole sequence. */
  lemma OccursInPrefix<T>(s: seq<T>, sub: seq<T>, i: nat, j: int)
    requires i <= |s| && OccursAt(s[..i], sub, j)
    ensures OccursAt(s, sub, j)
  {
    assert s[..i][j..j + |sub|] == s[j..j + |sub|];
  }

  /** An occurrence inside a suffix is an occurrence in the whole sequence, with the same remainder. */
  lemma OccursInSuffix<T>(s: seq<T>, sub: seq<T>, a: nat, j: int, k: int)
    requires a <= |s| && OccursAt(s[a..], sub, j) && k == a + j
    ensures OccursAt(s, sub, k) && s[a..][j + |sub|..] == s[k + |sub|..]
  {
    assert s[a..] == s[a..|s|];
    OccursInSlice(s, sub, a, |s|, j);
  }

  /** Python's `sub in s`. */
  predicate Contains<T(==)>(s: seq<T>, sub: seq<T>)
  {
    exists i | 0 <= i <= |s| :: OccursAt(s, sub, i)
  }

  /**
   * Python's `s.find(sub, from)`: the least index at or after `from` where
   * `sub` occurs, or -1 when there is none (FindFromLeast states that it is
   * the least).
   */
  function FindFrom<T(==)>(s: seq<T>, sub: seq<T>, from: nat): (r: int)
    requires from <= |s|
    ensures r == -1 || (from <= r && OccursAt(s, sub, r))
    decreases |s| - from
  {
    if from + |sub| > |s| then -1
    else if s[from..from + |sub|] == sub then from
    else FindFrom(s, sub, from + 1)
  }

  /** `find` gives -1 exactly when there is no occurrence, and otherwise the first one. */
  lemma {:induction false} FindFromLeast<T>(s: seq<T>, sub: seq<T>, from: nat)
    requires from <= |s|
    ensures FindFrom(s, sub, from) == -1 <==> forall i :: from <= i ==> !OccursAt(s, sub, i)
    ensures forall i :: from <= i < FindFrom(s, sub, from) ==> !OccursAt(s, sub, i)
    decreases |s| - from
  {
    if from + |sub| <= |s| && s[from..from + |sub|] != sub {
      FindFromLeast(s, sub, from + 1);
    }
  }

  /** Python's `s.find(sub)` (FindLeast states what it finds). */
  function Find<T(==)>(s: seq<T>, sub: seq<T>): (r: int)
    ensures r == -1 || OccursAt(s, sub, r)
  {
    FindFrom(s, sub, 0)
  }

  /** `find` gives -1 exactly when `sub` does not occur, and otherwise its first occurrence. */
  lemma FindLeast<T>(s: seq<T>, sub: seq<T>)
    ensures Find(s, sub) == -1 <==> !Contains(s, sub)
    ensures forall i :: 0 <= i < Find(s, sub) ==> !OccursAt(s, sub, i)
  {
    FindFromLeast(s, sub, 0);
  }

  lemma FindNone<T>(s: seq<T>, sub: seq<T>)
    requires Find(s, sub) < 0
    ensures !Contains(s, sub)
  {
    FindLeast(s, sub);
  }

  lemma FindSome<T>(s: seq<T>, sub: seq<T>)
    requires Contains(s, sub)
    ensures Find(s, sub) >= 0
  {
    FindLeast(s, sub);
  }

  /** Nothing before the first occurrence holds another one. */
  lemma FindBefore<T>(s: seq<T>, sub: seq<T>)
    requires |sub| > 0 && Find(s, sub) >= 0
    ensures !Contains(s[..Find(s, sub)], sub)
  {
    FindLeast(s, sub);
    var i := Find(s, sub);
    forall j | OccursAt(s[..i], sub, j) ensures false {
      OccursInPrefix(s, sub, i, j);
    }
  }

  /** Cutting a slice at two inner points and gluing the three parts back. */
  lemma Slices3<T>(s: seq<T>, a: nat, b: nat, c: nat, d: nat)
    requires a <= b <= c <= d <= |s|
    ensures s[a..d] == s[a..b] + s[b..c] + s[c..d]
  {
  }

  /** Concatenation is associative. */
  lemma AppendAssoc<T>(a: seq<T>, b: seq<T>, c: seq<T>)
    ensures (a + b) + c == a + (b + c)
  {
  }

  /** A sequence is what comes before position `k`, the element there, and what follows. */
  lemma Around<T>(s: seq<T>, k: nat)
    requires k < |s|
    ensures s == s[..k] + ([s[k]] + s[k + 1..])
  {
    assert s == s[..k] + s[k..];
    assert s[k..] == [s[k]] + s[k + 1..];
  }

  /** Moving a block from the front of the rest to the end of the prefix. */
  lemma Shift<T>(before: seq<T>, block: seq<T>, x: T, rest: seq<T>, after: seq<T>, whole: seq<T>)
    requires after == before + block + [x] && whole == block + [x] + rest
    ensures after + rest == before + whole
  {
  }

  /** Where a suffix is four blocks glued together, each block is a slice. */
  lemma Blocks4<T>(s: seq<T>, from: nat, a: seq<T>, b: seq<T>, c: seq<T>, d: seq<T>)
    requires from <= |s| && s[from..] == a + b + c + d
    ensures from + |a| + |b| + |c| <= |s|
    ensures s[from..from + |a|] == a
    ensures s[from + |a|..from + |a| + |b|] == b
    ensures s[from + |a| + |b|..from + |a| + |b| + |c|] == c
    ensures s[from + |a| + |b| + |c|..] == d
  {
    var t := s[from..];
    assert s[from..from + |a|] == t[..|a|];
    assert s[from + |a|..from + |a| + |b|] == t[|a|..|a| + |b|];
    assert s[from + |a| + |b|..from + |a| + |b| + |c|] == t[|a| + |b|..|a| + |b| + |c|];
    assert s[from + |a| + |b| + |c|..] == t[|a| + |b| + |c|..];
  }

  /** What is wrapped between a prefix and a suffix starts with the one and ends with the other. */
  lemma Envelope<T>(open: seq<T>, body: seq<T>, close: seq<T>)
    ensures var s := open + body + close;
            |s| == |open| + |body| + |close| && s[..|open|] == open && s[|s| - |close|..] == close
  {
    var s := open + body + close;
    assert s[..|open|] == open;
    assert s[|s| - |close|..] == close;
  }

  /** Three consecutive slices that run to the end glue into the suffix. */
  lemma Glue<T>(s: seq<T>, from: nat, a: nat, b: nat, x: seq<T>, y: seq<T>, z: seq<T>)
    requires from <= a <= b <= |s|
    requires x == s[from..a] && y == s[a..b] && z == s[b..]
    ensures x + (y + z) == s[from..]
  {
    assert s[from..] == s[from..a] + s[a..b] + s[b..];
  }

  /**
   * Python's `next((x for x in xs if p(x)), None)` and a query's `.first()`:
   * the index of the first element satisfying `p`, or None when there is none.
   */
  function FirstWhere<T>(xs: seq<T>, p: T -> bool): (r: Option<nat>)
    ensures r.None? <==> forall i :: 0 <= i < |xs| ==> !p(xs[i])
    ensures r.Some? ==> r.value < |xs| && p(xs[r.value]) && forall j :: 0 <= j < r.value ==> !p(xs[j])
  {
    if xs == [] then None
    else if p(xs[0]) then Some(0)
    else
      var r := FirstWhere(xs[1..], p);
      if r.None? then None
      else
        assert forall j :: 1 <= j < r.value + 1 ==> xs[j] == xs[1..][j - 1];
        Some(r.value + 1)
  }

  /** `"".join`-style flattening of a list of pieces. */
  function Concat<T>(xs: seq<seq<T>>): seq<T>
  {
    if xs == [] then [] else xs[0] + Concat(xs[1..])
  }

  lemma {:induction false} ConcatAppend<T>(a: seq<seq<T>>, b: seq<seq<T>>)
    ensures Concat(a + b) == Concat(a) + Concat(b)
  {
    if a == [] {
      assert a + b == b;
    } else {
      assert (a + b)[0] == a[0];
      assert (a + b)[1..] == a[1..] + b;
      ConcatAppend(a[1..], b);
      AppendAssoc(a[0], Concat(a[1..]), Concat(b));
    }
  }

  /** `sep.join(parts)`. */
  function Join<T>(parts: seq<seq<T>>, sep: seq<T>): seq<T>
  {
    if parts == [] then []
    else if |parts| == 1 then parts[0]
    else parts[0] + sep + Join(parts[1..], sep)
  }

  /** Python's `s.split(sep)` for a non-empty separator: cut at every occurrence found left to right. */
  function Split<T(==)>(s: seq<T>, sep: seq<T>): (parts: seq<seq<T>>)
    requires |sep| > 0
    ensures |parts| >= 1
    decreases |s|
  {
    var i := Find(s, sep);
    if i < 0 then [s] else [s[..i]] + Split(s[i + |sep|..], sep)
  }

  /** Joining the parts of a split back gives the input. */
  lemma {:induction false} SplitJoin<T>(s: seq<T>, sep: seq<T>)
    requires |sep| > 0
    ensures Join(Split(s, sep), sep) == s
    decreases |s|
  {
    var i := Find(s, sep);
    if i >= 0 {
      var rest := s[i + |sep|..];
      var tail := Split(rest, sep);
      var parts := [s[..i]] + tail;
      assert Split(s, sep) == parts;
      assert parts[0] == s[..i] && parts[1..] == tail;
      SplitJoin(rest, sep);
      assert Join(parts, sep) == s[..i] + sep + rest;
      AroundOccurrence(s, sep, i);
    }
  }

  /** An occurrence cuts a sequence into what precedes it, itself, and what follows. */
  lemma AroundOccurrence<T>(s: seq<T>, sub: seq<T>, i: int)
    requires OccursAt(s, sub, i)
    ensures s == s[..i] + sub + s[i + |sub|..]
  {
    assert s == s[..i] + s[i..i + |sub|] + s[i + |sub|..];
  }

  /** No part of a split contains the separator. */
  lemma {:induction false} SplitParts<T>(s: seq<T>, sep: seq<T>)
    requires |sep| > 0
    ensures forall p :: p in Split(s, sep) ==> !Contains(p, sep)
    decreases |s|
  {
    var i := Find(s, sep);
    if i < 0 {
      FindNone(s, sep);
      assert Split(s, sep) == [s];
    } else {
      var rest := s[i + |sep|..];
      var tail := Split(rest, sep);
      assert Split(s, sep) == [s[..i]] + tail;
      SplitParts(rest, sep);
      FindBefore(s, sep);
      forall p | p in Split(s, sep) ensures !Contains(p, sep) {
        if p != s[..i] {
          assert p in tail;
        }
      }
    }
  }

  /** Without the separator, the split is the whole input. */
  lemma SplitWithout<T>(s: seq<T>, sep: seq<T>)
    requires |sep| > 0 && !Contains(s, sep)
    ensures Split(s, sep) == [s]
  {
    FindLeast(s, sep);
  }

  /**
   * With the separator, the last part of the split is what follows some
   * occurrence of it (the last one, since the part holds no further one).
   */
  lemma SplitLastAt<T>(s: seq<T>, sep: seq<T>) returns (i: int)
    requires |sep| > 0 && Contains(s, sep)
    ensures OccursAt(s, sep, i) && !Contains(s[i + |sep|..], sep)
    ensures Split(s, sep)[|Split(s, sep)| - 1] == s[i + |sep|..]
  {
    FindSome(s, sep);
    i := SplitLastFind(s, sep);
    SplitParts(s, sep);
  }

  /** SplitLastAt without the last claim: the last part follows some separator. */
  lemma {:induction false} SplitLastFind<T>(s: seq<T>, sep: seq<T>) returns (i: int)
    requires |sep| > 0 && Find(s, sep) >= 0
    ensures OccursAt(s, sep, i)
    ensures Split(s, sep)[|Split(s, sep)| - 1] == s[i + |sep|..]
    decreases |s|
  {
    var f := Find(s, sep);
    var rest := s[f + |sep|..];
    if Find(rest, sep) >= 0 {
      var j := SplitLastFind(rest, sep);
      i := SplitLastShift(s, sep, f, rest, j);
    } else {
      SplitLastHere(s, sep, f, rest);
      i := f;
    }
  }

  /** No separator after the first one: the last part is what follows the first. */
  lemma SplitLastHere<T>(s: seq<T>, sep: seq<T>, f: int, rest: seq<T>)
    requires |sep| > 0 && f == Find(s, sep) >= 0 && rest == s[f + |sep|..] && Find(rest, sep) < 0
    ensures OccursAt(s, sep, f) && Split(s, sep)[|Split(s, sep)| - 1] == s[f + |sep|..]
  {
    var last := SplitLastRest(s, sep, f, rest);
    assert Split(rest, sep) == [rest];
  }

  /** The last part of what follows the first separator, found at `j` there, is at a later index of `s`. */
  lemma SplitLastShift<T>(s: seq<T>, sep: seq<T>, f: int, rest: seq<T>, j: int) returns (i: int)
    requires |sep| > 0 && f == Find(s, sep) >= 0 && rest == s[f + |sep|..]
    requires OccursAt(rest, sep, j) && |Split(rest, sep)| > 0
    requires Split(rest, sep)[|Split(rest, sep)| - 1] == rest[j + |sep|..]
    ensures OccursAt(s, sep, i) && Split(s, sep)[|Split(s, sep)| - 1] == s[i + |sep|..]
  {
    var last := SplitLastRest(s, sep, f, rest);
    var a := f + |sep|;
    i := a + j;
    OccursInSuffix(s, sep, a, j, i);
    assert last == rest[j + |sep|..];
  }

  /** With a separator present, the split ends like the split of what follows the first one. */
  lemma SplitLastRest<T>(s: seq<T>, sep: seq<T>, f: int, rest: seq<T>) returns (last: seq<T>)
    requires |sep| > 0 && f == Find(s, sep) >= 0 && rest == s[f + |sep|..]
    ensures |Split(rest, sep)| > 0 && last == Split(rest, sep)[|Split(rest, sep)| - 1]
    ensures Split(s, sep)[|Split(s, sep)| - 1] == last
  {
    var tail := Split(rest, sep);
    assert Split(s, sep) == [s[..f]] + tail;
    LastOfCons(s[..f], tail);
    last := tail[|tail| - 1];
  }

  lemma LastOfCons<T>(x: T, t: seq<T>)
    requires |t| > 0
    ensures ([x] + t)[|t|] == t[|t| - 1] && |[x] + t| == |t| + 1
  {
  }

  /** Python's `s.split(sep, 1)[-1]`: what follows the first `sep`, or all of `s`. */
  function AfterFirst<T(==)>(s: seq<T>, sep: seq<T>): (r: seq<T>)
    ensures Contains(s, sep) ==> exists i :: OccursAt(s, sep, i) && r == s[i + |sep|..]
                                             && forall j :: 0 <= j < i ==> !OccursAt(s, sep, j)
    ensures !Contains(s, sep) ==> r == s
  {
    FindLeast(s, sep);
    var i := Find(s, sep);
    if i < 0 then s else s[i + |sep|..]
  }

  /** `s` with the elements satisfying `space` removed from the front. */
  function TrimStart<T>(s: seq<T>, space: T -> bool): (r: seq<T>)
    ensures |r| <= |s| && r == s[|s| - |r|..]
    ensures r == [] || !space(r[0])
    ensures forall i :: 0 <= i < |s| - |r| ==> space(s[i])
  {
    if s != [] && space(s[0]) then TrimStart(s[1..], space) else s
  }

  /** `s` with the elements satisfying `space` removed from the back. */
  function TrimEnd<T>(s: seq<T>, space: T -> bool): (r: seq<T>)
    ensures |r| <= |s| && r == s[..|r|]
    ensures r == [] || !space(r[|r| - 1])
    ensures forall i :: |r| <= i < |s| ==> space(s[i])
  {
    if s != [] && space(s[|s| - 1]) then TrimEnd(s[..|s| - 1], space) else s
  }

  /** Every element of `s` satisfies `space`. */
  predicate All<T>(s: seq<T>, space: T -> bool)
  {
    forall i :: 0 <= i < |s| ==> space(s[i])
  }

  /**
   * Python's `strip()`: `s` without its leading and trailing `space`
   * elements (TrimStart and TrimEnd state which part of `s` each step
   * keeps); it is empty exactly when `s` is all spaces.
   */
  function Trim<T>(s: seq<T>, space: T -> bool): (r: seq<T>)
    ensures r == [] <==> All(s, space)
    ensures r != [] ==> !space(r[0]) && !space(r[|r| - 1])
  {
    var t := TrimStart(s, space);
    var r := TrimEnd(t, space);
    assert r == [] ==> All(s, space) by {
      if r == [] {
        forall i | 0 <= i < |s| ensures space(s[i]) { }
      }
    }
    r
  }

  /** A prefix of a suffix is a slice. */
  lemma SliceOfSuffix<T>(s: seq<T>, a: nat, k: nat)
    requires a + k <= |s|
    ensures s[a..][..k] == s[a..a + k]
  {
  }

  /** A prefix whose elements all satisfy `space`. */
  lemma AllPrefix<T>(s: seq<T>, a: nat, space: T -> bool)
    requires a <= |s| && forall i :: 0 <= i < a ==> space(s[i])
    ensures All(s[..a], space)
  {
    assert forall i :: 0 <= i < a ==> s[..a][i] == s[i];
  }

  /** A tail of the suffix `t` of `s` whose elements all satisfy `space`. */
  lemma AllTail<T>(s: seq<T>, a: nat, t: seq<T>, k: nat, space: T -> bool)
    requires a <= |s| && t == s[a..] && k <= |t|
    requires forall i :: k <= i < |t| ==> space(t[i])
    ensures All(s[a + k..], space)
  {
    var u := s[a + k..];
    forall i | 0 <= i < |u|
      ensures space(u[i])
    {
      assert u[i] == t[k + i];
    }
  }

  /**
   * `Trim` keeps one contiguous slice of `s`, and everything it cuts off in
   * front of and behind that slice satisfies `space`.
   */
  lemma TrimSlice<T>(s: seq<T>, space: T -> bool)
    ensures exists a, b :: 0 <= a <= b <= |s| && Trim(s, space) == s[a..b]
                           && All(s[..a], space) && All(s[b..], space)
  {
    var t := TrimStart(s, space);
    var a := |s| - |t|;
    var r := TrimEnd(t, space);
    var b := a + |r|;
    assert Trim(s, space) == r;
    SliceOfSuffix(s, a, |r|);
    AllPrefix(s, a, space);
    AllTail(s, a, t, |r|, space);
    assert Trim(s, space) == s[a..b] && All(s[..a], space) && All(s[b..], space);
  }
}
