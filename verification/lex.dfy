/** The order `Array.prototype.sort` uses when no comparator is given:
    strings compared code unit by code unit, a proper prefix first. */
module Lex {

  /** `a` sorts before `b`. */
  function Less(a: string, b: string): (r: bool)
    ensures r <==> LexBefore(a, b)
    decreases |a|
  {
    if a == [] then b != []
    else if b == [] then false
    else if a[0] != b[0] then
      assert a[..0] == b[..0];
      assert forall k :: 0 < k <= |a| && k <= |b| ==> a[..k][0] == a[0];
      a[0] < b[0]
    else
      LexBeforeCons(a, b);
      Less(a[1..], b[1..])
  }

  /** The usual reading of the order: `a` is a proper prefix of `b`, or at the
      first position where they differ `a` has the smaller code unit. */
  ghost predicate LexBefore(a: string, b: string) {
    || a < b
    || exists k :: 0 <= k < |a| && k < |b| && a[..k] == b[..k] && a[k] < b[k]
  }

  /** A common first unit does not change the order. */
  lemma LexBeforeCons(a: string, b: string)
    requires a != [] && b != [] && a[0] == b[0]
    ensures LexBefore(a, b) <==> LexBefore(a[1..], b[1..])
  {
    assert a == [a[0]] + a[1..] && b == [b[0]] + b[1..];
    if k :| 0 <= k < |a| && k < |b| && a[..k] == b[..k] && a[k] < b[k] {
      assert k > 0;
      assert a[1..][..k - 1] == a[..k][1..] == b[..k][1..] == b[1..][..k - 1];
      assert a[1..][k - 1] < b[1..][k - 1];
    }
    if k :| 0 <= k < |a[1..]| && k < |b[1..]| && a[1..][..k] == b[1..][..k] && a[1..][k] < b[1..][k] {
      assert a[..k + 1] == [a[0]] + a[1..][..k];
      assert b[..k + 1] == [b[0]] + b[1..][..k];
      assert a[k + 1] < b[k + 1];
    }
  }

  lemma {:induction false} LessIrreflexive(a: string)
    ensures !Less(a, a)
    decreases |a|
  {
    if a != [] {
      LessIrreflexive(a[1..]);
    }
  }

  lemma {:induction false} LessAsymmetric(a: string, b: string)
    requires Less(a, b)
    ensures !Less(b, a)
    decreases |a|
  {
    if a != [] && a[0] == b[0] {
      LessAsymmetric(a[1..], b[1..]);
    }
  }

  lemma {:induction false} LessTransitive(a: string, b: string, c: string)
    requires Less(a, b) && Less(b, c)
    ensures Less(a, c)
    decreases |a|
  {
    if a != [] && a[0] == b[0] && b[0] == c[0] {
      LessTransitive(a[1..], b[1..], c[1..]);
    }
  }

  /** Two different strings are always ordered one way or the other. */
  lemma {:induction false} LessTotal(a: string, b: string)
    requires a != b
    ensures Less(a, b) || Less(b, a)
    decreases |a|
  {
    if a != [] && b != [] && a[0] == b[0] {
      assert a == [a[0]] + a[1..] && b == [b[0]] + b[1..];
      LessTotal(a[1..], b[1..]);
    }
  }

  /** Ascending without repeats. */
  ghost predicate StrictlySorted(s: seq<string>) {
    forall i, j :: 0 <= i < j < |s| ==> Less(s[i], s[j])
  }

  /** `t` added to a sorted, repeat-free sequence, at its place, unless it
      is there already. */
  function Insert(s: seq<string>, t: string): (r: seq<string>)
    requires StrictlySorted(s)
    ensures StrictlySorted(r)
    ensures forall u :: u in r <==> u in s || u == t
    decreases |s|
  {
    if s == [] then [t]
    else if t == s[0] then s
    else if Less(t, s[0]) then
      forall j | 0 < j < |s|
        ensures Less(t, s[j])
      {
        LessTransitive(t, s[0], s[j]);
      }
      [t] + s
    else
      var rest := Insert(s[1..], t);
      LessTotal(t, s[0]);
      assert forall j :: 0 <= j < |rest| ==> Less(s[0], rest[j]) by {
        forall j | 0 <= j < |rest|
          ensures Less(s[0], rest[j])
        {
          if rest[j] != t {
            assert rest[j] in rest;
            var k :| 0 <= k < |s[1..]| && s[1..][k] == rest[j];
            assert s[k + 1] == rest[j];
          }
        }
      }
      [s[0]] + rest
  }

  /** A sorted, repeat-free sequence is fixed by its elements: the sorted
      listing of a set is unique. */
  lemma {:induction false} SortedUnique(a: seq<string>, b: seq<string>)
    requires StrictlySorted(a) && StrictlySorted(b)
    requires forall u :: u in a <==> u in b
    ensures a == b
    decreases |a|
  {
    assert a == [] <==> b == [] by {
      if a != [] {
        assert a[0] in a;
      }
      if b != [] {
        assert b[0] in b;
      }
    }
    if a != [] {
      if a[0] != b[0] {
        LessTotal(a[0], b[0]);
        if Less(a[0], b[0]) {
          FirstIsLeast(b, a[0]);
        } else {
          FirstIsLeast(a, b[0]);
        }
      }
      forall u
        ensures u in a[1..] <==> u in b[1..]
      {
        TailExcludesHead(a, u);
        TailExcludesHead(b, u);
      }
      SortedUnique(a[1..], b[1..]);
    }
  }

  /** Nothing in a sorted sequence sorts before its first element. */
  lemma FirstIsLeast(s: seq<string>, u: string)
    requires StrictlySorted(s) && s != [] && Less(u, s[0])
    ensures u !in s
  {
    if u in s {
      var k :| 0 <= k < |s| && s[k] == u;
      if k == 0 {
        LessIrreflexive(u);
      } else {
        LessAsymmetric(u, s[0]);
      }
    }
  }

  /** The tail of a sorted sequence holds everything but the first element. */
  lemma TailExcludesHead(s: seq<string>, u: string)
    requires StrictlySorted(s) && s != []
    ensures u in s[1..] <==> u in s && u != s[0]
  {
    if u in s[1..] {
      var k :| 0 <= k < |s[1..]| && s[1..][k] == u;
      assert Less(s[0], s[k + 1]);
      LessIrreflexive(u);
    }
    if u in s && u != s[0] {
      var k :| 0 <= k < |s| && s[k] == u;
      assert s[1..][k - 1] == u;
    }
  }
}
